/** The month selector of Quiz/quiz.js: the `YYYY-MM` keys that
    `fillMonthOptions` lists, and the pool the start handler filters by the
    selected key. The local-time date of a timestamp (`new Date(t)` with
    `getFullYear()` and `getMonth() + 1`) is a parameter. */
module Months {
  import opened Js
  import opened Strings
  import opened Words
  import Seqs

  type MonthNumber = m: int | 1 <= m <= 12 witness 1

  /** `new Date(t)` in local time: an Invalid Date (a timestamp beyond the
      range a `Date` holds), or a year, possibly negative, and a month. */
  datatype LocalDate = InvalidDate | Date(year: int, month: MonthNumber)

  /** The local-time date of a timestamp. */
  type Calendar = int -> LocalDate

  /** `w.createdAt || Date.now()`: the word's time, the clock for a 0. */
  function Stamp(w: Word, now: int): (t: int)
    ensures w.createdAt != 0 ==> t == w.createdAt
    ensures w.createdAt == 0 ==> t == now
    ensures t != 0 || now == 0
  {
    if w.createdAt == 0 then now else w.createdAt
  }

  function MonthOf(w: Word, cal: Calendar, now: int): LocalDate {
    cal(Stamp(w, now))
  }

  /** `${year}` of a template literal: a minus sign for a negative year. */
  function YearText(y: int): (r: string)
    ensures |r| >= 1 && (y >= 0 <==> IsDigit(r[0]))
  {
    if y < 0 then "-" + Decimal(-y) else Decimal(y)
  }

  /** `${d.getFullYear()}-${String(d.getMonth() + 1).padStart(2, "0")}`;
      both getters give NaN for an Invalid Date. */
  function MonthKey(d: LocalDate): (k: string)
    ensures |k| >= 4
    ensures d.Date? && d.year >= 0 <==> IsDigit(k[0])
    ensures d.Date? && d.year < 0 <==> k[0] == '-'
    ensures d.InvalidDate? <==> k[0] == 'N'
  {
    match d
    case InvalidDate => "NaN-NaN"
    case Date(y, m) => YearText(y) + "-" + Pad2(Decimal(m))
  }

  // ---------------------------------------------------------------------
  // The month list

  /** `a` sorts before `b` under the default `sort()`: comparison of the
      character codes from the left, a proper prefix first. */
  predicate LexLess(a: string, b: string) {
    if a == [] then b != []
    else if b == [] then false
    else if a[0] != b[0] then a[0] < b[0]
    else LexLess(a[1..], b[1..])
  }

  lemma {:induction false} LexIrreflexive(a: string)
    ensures !LexLess(a, a)
  {
    if a != [] {
      LexIrreflexive(a[1..]);
    }
  }

  lemma {:induction false} LexTotal(a: string, b: string)
    requires a != b
    ensures LexLess(a, b) || LexLess(b, a)
  {
    if a != [] && b != [] && a[0] == b[0] {
      assert a == [a[0]] + a[1..] && b == [b[0]] + b[1..];
      LexTotal(a[1..], b[1..]);
    }
  }

  lemma {:induction false} LexTransitive(a: string, b: string, c: string)
    requires LexLess(a, b) && LexLess(b, c)
    ensures LexLess(a, c)
  {
    if a != [] && a[0] == b[0] && b[0] == c[0] {
      LexTransitive(a[1..], b[1..], c[1..]);
    }
  }

  /** Each key sorts after every later one: distinct keys, most recent first. */
  ghost predicate StrictlyDescending(s: seq<string>) {
    forall i, j :: 0 <= i < j < |s| ==> LexLess(s[j], s[i])
  }

  /** Adds `k` to a descending key list unless it is already there. */
  function InsertKey(k: string, s: seq<string>): (r: seq<string>)
    requires StrictlyDescending(s)
    ensures StrictlyDescending(r)
    ensures forall x :: x in r <==> x == k || x in s
    ensures |r| >= 1 && (r[0] == k || (s != [] && r[0] == s[0]))
  {
    if s == [] then [k]
    else if k == s[0] then s
    else if LexLess(s[0], k) then
      assert StrictlyDescending([k] + s) by {
        forall j | 0 < j < |[k] + s|
          ensures LexLess(([k] + s)[j], k)
        {
          if j > 1 {
            LexTransitive(s[j - 1], s[0], k);
          }
        }
      }
      [k] + s
    else
      LexTotal(k, s[0]);
      var rest := InsertKey(k, s[1..]);
      assert s == [s[0]] + s[1..];
      assert StrictlyDescending([s[0]] + rest) by {
        assert LexLess(rest[0], s[0]);
        forall j | 0 < j < |rest|
          ensures LexLess(rest[j], s[0])
        {
          LexTransitive(rest[j], rest[0], s[0]);
        }
      }
      [s[0]] + rest
  }

  /** The months of `words`, as `MonthKey`s. */
  ghost predicate HasMonth(words: seq<Word>, cal: Calendar, now: int, k: string) {
    exists w :: w in words && MonthKey(MonthOf(w, cal, now)) == k
  }

  /** The keys `fillMonthOptions(words)` offers after "all":
      `Array.from(new Set(keys)).sort().reverse()`. */
  function MonthList(words: seq<Word>, cal: Calendar, now: int): (r: seq<string>)
    ensures StrictlyDescending(r)
    ensures forall k :: k in r <==> HasMonth(words, cal, now, k)
  {
    if words == [] then []
    else
      var init := words[..|words| - 1];
      var last := words[|words| - 1];
      assert words == init + [last];
      var r := InsertKey(MonthKey(MonthOf(last, cal, now)), MonthList(init, cal, now));
      assert forall k :: HasMonth(words, cal, now, k) <==>
        HasMonth(init, cal, now, k) || k == MonthKey(MonthOf(last, cal, now));
      r
  }

  /** No key is listed twice. */
  lemma MonthListDistinct(words: seq<Word>, cal: Calendar, now: int)
    ensures Seqs.Distinct(MonthList(words, cal, now))
  {
    var r := MonthList(words, cal, now);
    forall i, j | 0 <= i < j < |r|
      ensures r[i] != r[j]
    {
      LexIrreflexive(r[i]);
    }
  }

  // ---------------------------------------------------------------------
  // The selection and the pool

  /** The selection the start handler reads: every month, a (year, month)
      pair, or a key whose parts are not numbers, which no word matches. */
  datatype Selection = AllMonths | InMonth(year: int, month: int) | NoMonth

  /** `Number(s)` for a field of a listed key: an empty field is 0, a
      string of decimal digits (with surrounding whitespace) is its value,
      and anything else is NaN. It is exact for the fields a key holds
      (digits, the empty field before a minus sign, and "NaN"); the signs,
      exponents, fractions and hexadecimal that `Number` also reads never
      occur in a key. */
  function NumberOfText(s: string): (r: Num)
    ensures AllDigits(Trim(s)) ==> r.Finite? && r.n >= 0
    ensures !AllDigits(Trim(s)) ==> r == NaN
  {
    var t := Trim(s);
    if AllDigits(t) then Finite(DigitsValue(t)) else NaN
  }

  /** `sel && sel !== "all"`, then `const [y, m] = sel.split("-").map(Number)`:
      the first two fields, any further ones ignored. */
  function ParseSelection(sel: string): (s: Selection)
    ensures sel == "" || sel == "all" <==> s == AllMonths
  {
    if sel == "" || sel == "all" then AllMonths
    else
      var parts := Split(sel, '-');
      var y := NumberOfText(parts[0]);
      var m := if |parts| >= 2 then NumberOfText(parts[1]) else NaN;
      if y.Finite? && m.Finite? then InMonth(y.n, m.n) else NoMonth
  }

  /** The word's date has the selected year and month; NaN equals nothing. */
  predicate InSelection(w: Word, s: Selection, cal: Calendar, now: int) {
    match s
    case AllMonths => true
    case InMonth(y, m) =>
      MonthOf(w, cal, now).Date? && MonthOf(w, cal, now).year == y && MonthOf(w, cal, now).month == m
    case NoMonth => false
  }

  /** POOL as the start handler computes it from DATA and the selected key. */
  function SelectPool(data: seq<Word>, sel: string, cal: Calendar, now: int): (pool: seq<Word>)
    ensures sel == "" || sel == "all" ==> pool == data
    ensures Seqs.SubsequenceOf(pool, data)
    ensures forall w :: multiset(pool)[w] == (if InSelection(w, ParseSelection(sel), cal, now) then multiset(data)[w] else 0)
    ensures ParseSelection(sel) == NoMonth ==> pool == []
  {
    var s := ParseSelection(sel);
    if s == AllMonths then
      SubsequenceOfSelf(data);
      data
    else
      var pool := Seqs.Filter(data, w => InSelection(w, s, cal, now));
      assert s == NoMonth ==> forall w :: multiset(pool)[w] == 0;
      pool
  }

  lemma {:induction false} SubsequenceOfSelf<T>(s: seq<T>)
    ensures Seqs.SubsequenceOf(s, s)
  {
    if s != [] {
      SubsequenceOfSelf(s[1..]);
    }
  }

  // ---------------------------------------------------------------------
  // Keys and selections agree

  lemma {:induction false} DigitsTrimmed(s: string)
    requires AllDigits(s)
    ensures Trim(s) == s
  {
    if s != [] {
      assert IsDigit(s[0]) && IsDigit(s[|s| - 1]);
      TrimUnchanged(s);
    }
  }

  /** The fields of a key, as `split("-")` cuts them. */
  lemma SplitKey(d: LocalDate)
    ensures d.Date? && d.year >= 0 ==>
      Split(MonthKey(d), '-') == [Decimal(d.year), Pad2(Decimal(d.month))]
    ensures d.Date? && d.year < 0 ==>
      Split(MonthKey(d), '-') == ["", Decimal(-d.year), Pad2(Decimal(d.month))]
    ensures d.InvalidDate? ==> Split(MonthKey(d), '-') == ["NaN", "NaN"]
  {
    match d
    case InvalidDate => SplitInvalidKey();
    case Date(y, m) =>
      if y < 0 {
        SplitNegativeKey(y, m);
      } else {
        SplitYearKey(y, m);
      }
  }

  lemma SplitYearKey(y: nat, m: MonthNumber)
    ensures Split(MonthKey(Date(y, m)), '-') == [Decimal(y), Pad2(Decimal(m))]
  {
    var k := MonthKey(Date(y, m));
    assert k == Decimal(y) + ['-'] + Pad2(Decimal(m));
    SplitTail(y, m, k);
  }

  lemma SplitNegativeKey(y: int, m: MonthNumber)
    requires y < 0
    ensures Split(MonthKey(Date(y, m)), '-') == ["", Decimal(-y), Pad2(Decimal(m))]
  {
    var tail := Decimal(-y) + ['-'] + Pad2(Decimal(m));
    NegativeKeyShape(y, m, tail);
    SplitTail(-y, m, tail);
    SplitLeadingSeparator(tail, [Decimal(-y), Pad2(Decimal(m))]);
  }

  /** A negative year's key is a minus sign before the year's digits and
      the month. */
  lemma NegativeKeyShape(y: int, m: MonthNumber, tail: string)
    requires y < 0 && tail == Decimal(-y) + ['-'] + Pad2(Decimal(m))
    ensures MonthKey(Date(y, m)) == [] + ['-'] + tail
  {
    assert YearText(y) == "-" + Decimal(-y);
  }

  /** A leading separator splits off an empty first field. */
  lemma SplitLeadingSeparator(tail: string, fields: seq<string>)
    requires Split(tail, '-') == fields
    ensures Split([] + ['-'] + tail, '-') == [""] + fields
  {
    SplitAfterField([], '-', tail);
  }

  lemma SplitInvalidKey()
    ensures Split(MonthKey(InvalidDate), '-') == ["NaN", "NaN"]
  {
    assert MonthKey(InvalidDate) == "NaN" + ['-'] + "NaN";
    SplitAfterField("NaN", '-', "NaN");
  }

  /** The digits of a year and the padded month split into two fields. */
  lemma SplitTail(n: nat, m: MonthNumber, tail: string)
    requires tail == Decimal(n) + ['-'] + Pad2(Decimal(m))
    ensures Split(tail, '-') == [Decimal(n), Pad2(Decimal(m))]
  {
    var p := Pad2(Decimal(m));
    assert AllDigits(p);
    assert '-' !in p;
    assert '-' !in Decimal(n);
    SplitAfterField(Decimal(n), '-', p);
  }

  lemma ReadNumeral(n: nat)
    ensures NumberOfText(Decimal(n)) == Finite(n)
  {
    DigitsTrimmed(Decimal(n));
    DecimalRoundTrip(n);
  }

  lemma ReadMonth(m: MonthNumber)
    ensures NumberOfText(Pad2(Decimal(m))) == Finite(m)
  {
    var d := Decimal(m);
    DecimalRoundTrip(m);
    if m < 10 {
      assert |d| == 1;
      LeadingZero(d);
      DigitsTrimmed("0" + d);
    } else {
      assert |Decimal(m / 10)| == 1;
      assert |d| == 2;
      DigitsTrimmed(d);
    }
  }

  /** The empty field reads as 0. */
  lemma ReadEmpty()
    ensures NumberOfText("") == Finite(0)
  {
    assert Trim("") == "";
  }

  /** "NaN" is not a number. */
  lemma ReadNaN()
    ensures NumberOfText("NaN") == NaN
  {
    assert !IsDigit("NaN"[0]);
    assert Trim("NaN") == "NaN" by {
      assert !IsSpace('N');
      TrimUnchanged("NaN");
    }
  }

  /** What selecting a key reads back: the date's year and month for a
      non-negative year; for a negative year the empty field before the
      minus sign as year 0 and the year's digits as the month; nothing for
      an Invalid Date. */
  lemma KeyRoundTrip(d: LocalDate)
    ensures d.Date? && d.year >= 0 ==> ParseSelection(MonthKey(d)) == InMonth(d.year, d.month)
    ensures d.Date? && d.year < 0 ==> ParseSelection(MonthKey(d)) == InMonth(0, -d.year)
    ensures d.InvalidDate? ==> ParseSelection(MonthKey(d)) == NoMonth
  {
    match d
    case InvalidDate => ReadInvalidKey();
    case Date(y, m) =>
      if y >= 0 {
        ReadKey(y, m);
      } else {
        ReadNegativeKey(y, m);
      }
  }

  /** A selection other than "" and "all" reads its first two fields. */
  lemma ParseFields(sel: string, parts: seq<string>)
    requires sel != "" && sel != "all" && Split(sel, '-') == parts && |parts| >= 2
    ensures NumberOfText(parts[0]).Finite? && NumberOfText(parts[1]).Finite? ==>
      ParseSelection(sel) == InMonth(NumberOfText(parts[0]).n, NumberOfText(parts[1]).n)
    ensures !(NumberOfText(parts[0]).Finite? && NumberOfText(parts[1]).Finite?) ==>
      ParseSelection(sel) == NoMonth
  {
  }

  lemma ReadKey(y: nat, m: MonthNumber)
    ensures ParseSelection(MonthKey(Date(y, m))) == InMonth(y, m)
  {
    var parts := [Decimal(y), Pad2(Decimal(m))];
    SplitKey(Date(y, m));
    ReadNumeral(y);
    ReadMonth(m);
    ParseFields(MonthKey(Date(y, m)), parts);
  }

  lemma ReadNegativeKey(y: int, m: MonthNumber)
    requires y < 0
    ensures ParseSelection(MonthKey(Date(y, m))) == InMonth(0, -y)
  {
    var k := MonthKey(Date(y, m));
    FieldsOfNegativeKey(Date(y, m), k);
    ReadEmpty();
    ReadNumeral(-y);
    assert k != "" && k != "all" by {
      assert k[0] == '-';
    }
    ParseFields(k, Split(k, '-'));
  }

  lemma ReadInvalidKey()
    ensures ParseSelection(MonthKey(InvalidDate)) == NoMonth
  {
    SplitKey(InvalidDate);
    ReadNaN();
    ParseFields(MonthKey(InvalidDate), ["NaN", "NaN"]);
  }

  /** Selecting a listed key: the key of a non-negative year selects exactly
      the words of that month, and at least one; the key "NaN-NaN" of an
      Invalid Date selects nothing; the key of a negative year selects none
      of the words it was listed for. */
  lemma ListedMonthHasWords(data: seq<Word>, cal: Calendar, now: int, k: string)
    requires k in MonthList(data, cal, now)
    ensures IsDigit(k[0]) ==> SelectPool(data, k, cal, now) != []
    ensures IsDigit(k[0]) ==>
      forall w :: w in SelectPool(data, k, cal, now) <==> w in data && MonthKey(MonthOf(w, cal, now)) == k
    ensures k[0] == 'N' ==> SelectPool(data, k, cal, now) == []
    ensures k[0] == '-' ==>
      forall w :: w in SelectPool(data, k, cal, now) ==> MonthKey(MonthOf(w, cal, now)) != k
  {
    var w :| w in data && MonthKey(MonthOf(w, cal, now)) == k;
    var d := MonthOf(w, cal, now);
    if d.Date? && d.year >= 0 {
      KeySelectsItsMonth(data, cal, now, w);
    } else if d.Date? {
      NegativeKeyMisses(data, cal, now, d);
    } else {
      ReadInvalidKey();
    }
  }

  /** The key of a word dated in a non-negative year selects that word and
      exactly the others of its month. */
  lemma KeySelectsItsMonth(data: seq<Word>, cal: Calendar, now: int, w: Word)
    requires w in data && MonthOf(w, cal, now).Date? && MonthOf(w, cal, now).year >= 0
    ensures var k := MonthKey(MonthOf(w, cal, now));
      w in SelectPool(data, k, cal, now) &&
      forall v :: v in SelectPool(data, k, cal, now) <==> v in data && MonthKey(MonthOf(v, cal, now)) == k
  {
    var d := MonthOf(w, cal, now);
    var k := MonthKey(d);
    ReadKey(d.year, d.month);
    var pool := SelectPool(data, k, cal, now);
    assert w in multiset(data);
    assert w in multiset(pool);
    forall v
      ensures v in pool <==> v in data && MonthKey(MonthOf(v, cal, now)) == k
    {
      assert v in pool <==> v in multiset(pool);
      assert v in data <==> v in multiset(data);
      MonthKeyInjective(MonthOf(v, cal, now), d);
    }
  }

  /** The key of a negative year selects only words of year 0. */
  lemma NegativeKeyMisses(data: seq<Word>, cal: Calendar, now: int, d: LocalDate)
    requires d.Date? && d.year < 0
    ensures forall v :: v in SelectPool(data, MonthKey(d), cal, now) ==> MonthKey(MonthOf(v, cal, now)) != MonthKey(d)
  {
    ReadNegativeKey(d.year, d.month);
    var pool := SelectPool(data, MonthKey(d), cal, now);
    forall v | v in pool
      ensures MonthKey(MonthOf(v, cal, now)) != MonthKey(d)
    {
      assert v in multiset(pool);
      assert MonthOf(v, cal, now).year == 0;
    }
  }

  /** Different dates have different keys. */
  lemma MonthKeyInjective(a: LocalDate, b: LocalDate)
    ensures MonthKey(a) == MonthKey(b) <==> a == b
  {
    if MonthKey(a) == MonthKey(b) && a.Date? && b.Date? {
      if a.year >= 0 {
        ReadKey(a.year, a.month);
        ReadKey(b.year, b.month);
      } else {
        NegativeKeysAgree(a, b);
      }
    }
  }

  /** Two negative years' keys agree only for the same date: the year's
      digits are the second field and the month the third. */
  lemma NegativeKeysAgree(a: LocalDate, b: LocalDate)
    requires a.Date? && b.Date? && a.year < 0 && b.year < 0
    requires MonthKey(a) == MonthKey(b)
    ensures a == b
  {
    var k := MonthKey(a);
    FieldsOfNegativeKey(a, k);
    FieldsOfNegativeKey(b, k);
    SameFieldsSameDate(-a.year, -b.year, a.month, b.month);
  }

  /** Equal year digits and equal padded months read as the same numbers. */
  lemma SameFieldsSameDate(ya: nat, yb: nat, ma: MonthNumber, mb: MonthNumber)
    requires Decimal(ya) == Decimal(yb) && Pad2(Decimal(ma)) == Pad2(Decimal(mb))
    ensures ya == yb && ma == mb
  {
    ReadNumeral(ya);
    ReadNumeral(yb);
    ReadMonth(ma);
    ReadMonth(mb);
  }

  /** The year's digits and the padded month are the second and third
      fields of a negative year's key. */
  lemma FieldsOfNegativeKey(d: LocalDate, k: string)
    requires d.Date? && d.year < 0 && k == MonthKey(d)
    ensures |Split(k, '-')| == 3
    ensures Split(k, '-')[0] == ""
    ensures Split(k, '-')[1] == Decimal(-d.year)
    ensures Split(k, '-')[2] == Pad2(Decimal(d.month))
  {
    SplitKey(d);
  }
}
