/** Sequence helpers the array pipelines of the scripts are built from:
    `filter`, `new Set(...)` de-duplication, and the facts relating a
    sequence's elements, multiplicities and length. */
module Seqs {
  import opened Js

  /** The elements of `s` as a set. */
  ghost function Elems<T>(s: seq<T>): set<T> {
    set x | x in s
  }

  /** No element occurs twice. */
  ghost predicate Distinct<T>(s: seq<T>) {
    forall i, j :: 0 <= i < j < |s| ==> s[i] != s[j]
  }

  /** `r` is obtained from `s` by deleting elements, keeping the order of the rest. */
  ghost predicate SubsequenceOf<T>(r: seq<T>, s: seq<T>)
    decreases |s|
  {
    if r == [] then true
    else if s == [] then false
    else if r[0] == s[0] then SubsequenceOf(r[1..], s[1..])
    else SubsequenceOf(r, s[1..])
  }

  /** `s.filter(p)`: the elements satisfying `p`, in order, each kept as often
      as it occurs. */
  function Filter<T(!new)>(s: seq<T>, p: T -> bool): (r: seq<T>)
    ensures |r| <= |s|
    ensures forall i :: 0 <= i < |r| ==> p(r[i])
    ensures forall x :: multiset(r)[x] == if p(x) then multiset(s)[x] else 0
    ensures SubsequenceOf(r, s)
  {
    if s == [] then []
    else
      var rest := Filter(s[1..], p);
      assert s == [s[0]] + s[1..];
      if p(s[0]) then
        assert ([s[0]] + rest)[1..] == rest;
        [s[0]] + rest
      else
        assert rest == [] || SubsequenceOf(rest, s) by { SubsequenceSkip(rest, s); }
        rest
  }

  lemma {:induction false} SubsequenceSkip<T>(r: seq<T>, s: seq<T>)
    requires s != [] && SubsequenceOf(r, s[1..])
    ensures SubsequenceOf(r, s)
    decreases |s|, |r|
  {
    if r != [] && r[0] == s[0] {
      if |s| > 1 {
        SubsequenceDrop(r, s[1..]);
      }
    }
  }

  /** Dropping the head of a subsequence keeps it a subsequence. */
  lemma {:induction false} SubsequenceDrop<T>(r: seq<T>, s: seq<T>)
    requires r != [] && SubsequenceOf(r, s)
    ensures SubsequenceOf(r[1..], s)
    decreases |s|, |r|
  {
    if s != [] {
      if r[0] == s[0] {
        if r[1..] != [] {
          SubsequenceSkip(r[1..], s);
        }
      } else {
        SubsequenceDrop(r, s[1..]);
        if r[1..] != [] {
          SubsequenceSkip(r[1..], s);
        }
      }
    }
  }

  /** `Array.from(new Set(s))`: each element once, at its first occurrence. */
  function Dedup<T(==,!new)>(s: seq<T>): (r: seq<T>)
    ensures forall x :: multiset(r)[x] == if x in s then 1 else 0
    ensures SubsequenceOf(r, s)
  {
    if s == [] then []
    else
      var init := s[..|s| - 1];
      var last := s[|s| - 1];
      assert s == init + [last];
      var d := Dedup(init);
      assert forall x :: x in s <==> x in init || x == last;
      if last in init then
        SubsequenceAppend(d, init, [last]);
        d
      else
        SubsequenceAppend(d, init, [last]);
        SubsequenceExtend(d, init, last);
        d + [last]
  }

  lemma {:induction false} SubsequenceAppend<T>(r: seq<T>, s: seq<T>, t: seq<T>)
    requires SubsequenceOf(r, s)
    ensures SubsequenceOf(r, s + t)
    decreases |s|
  {
    if r != [] {
      assert s != [];
      assert (s + t)[1..] == s[1..] + t;
      if r[0] == s[0] {
        SubsequenceAppend(r[1..], s[1..], t);
      } else {
        SubsequenceAppend(r, s[1..], t);
      }
    }
  }

  lemma {:induction false} SubsequenceExtend<T>(r: seq<T>, s: seq<T>, x: T)
    requires SubsequenceOf(r, s)
    ensures SubsequenceOf(r + [x], s + [x])
    decreases |s|
  {
    if r == [] {
      if s == [] {
        assert SubsequenceOf<T>([], []);
      } else {
        assert (s + [x])[1..] == s[1..] + [x];
        SubsequenceExtend(r, s[1..], x);
        SubsequenceSkip(r + [x], s + [x]);
      }
    } else {
      assert (s + [x])[1..] == s[1..] + [x];
      assert (r + [x])[1..] == r[1..] + [x];
      if r[0] == s[0] {
        SubsequenceExtend(r[1..], s[1..], x);
      } else {
        SubsequenceExtend(r, s[1..], x);
      }
    }
  }

  /** A sequence in which nothing occurs twice has pairwise distinct entries. */
  lemma {:induction false} OnceEachIsDistinct<T>(s: seq<T>)
    requires forall x :: multiset(s)[x] <= 1
    ensures Distinct(s)
  {
    forall i, j | 0 <= i < j < |s|
      ensures s[i] != s[j]
    {
      assert s == s[..j] + s[j..];
      assert s[i] in s[..j];
      assert s[j] in s[j..];
      assert multiset(s)[s[j]] == multiset(s[..j])[s[j]] + multiset(s[j..])[s[j]];
    }
  }

  /** The number of different values in a duplicate-free sequence is its length. */
  lemma {:induction false} DistinctCard<T>(s: seq<T>)
    requires Distinct(s)
    ensures |Elems(s)| == |s|
  {
    if s != [] {
      var init := s[..|s| - 1];
      DistinctCard(init);
      assert Elems(s) == Elems(init) + {s[|s| - 1]};
      assert s[|s| - 1] !in Elems(init);
    }
  }

  /** `s.map(f)`. */
  function Map<A, B>(s: seq<A>, f: A -> B): (r: seq<B>)
    ensures |r| == |s|
    ensures forall i :: 0 <= i < |s| ==> r[i] == f(s[i])
  {
    seq(|s|, i requires 0 <= i < |s| => f(s[i]))
  }

  lemma MapCons<A, B>(s: seq<A>, f: A -> B)
    requires s != []
    ensures Map(s, f) == [f(s[0])] + Map(s[1..], f)
  {
    assert forall i :: 0 < i < |s| ==> Map(s, f)[i] == Map(s[1..], f)[i - 1];
  }

  /** `s.map(f).filter(Boolean)` where `f` yields null for a rejected
      element: the values `f` gives, in order. */
  function FilterMap<A, B(!new)>(s: seq<A>, f: A -> Option<B>): (r: seq<B>)
    ensures |r| <= |s|
    ensures forall x :: x in r <==> exists i :: 0 <= i < |s| && f(s[i]) == Some(x)
    // each value is kept as often as `f` yields it
    ensures forall y :: multiset(r)[y] == multiset(Map(s, f))[Some(y)]
    // exactly the rejected elements are dropped
    ensures |r| == |s| - multiset(Map(s, f))[None]
  {
    if s == [] then []
    else
      var rest := FilterMap(s[1..], f);
      FilterMapStep(s, f, rest);
      MapCons(s, f);
      match f(s[0])
      case None => rest
      case Some(y) => [y] + rest
  }

  lemma FilterMapStep<A, B(!new)>(s: seq<A>, f: A -> Option<B>, rest: seq<B>)
    requires s != []
    requires forall x :: x in rest <==> exists i :: 0 <= i < |s[1..]| && f(s[1..][i]) == Some(x)
    ensures forall x :: x in rest <==> exists i :: 1 <= i < |s| && f(s[i]) == Some(x)
  {
    forall x | x in rest
      ensures exists i :: 1 <= i < |s| && f(s[i]) == Some(x)
    {
      var i :| 0 <= i < |s[1..]| && f(s[1..][i]) == Some(x);
      assert f(s[i + 1]) == Some(x);
    }
    forall x | exists i :: 1 <= i < |s| && f(s[i]) == Some(x)
      ensures x in rest
    {
      var i :| 1 <= i < |s| && f(s[i]) == Some(x);
      assert f(s[1..][i - 1]) == Some(x);
    }
  }
}
