/** A JavaScript `Map` whose values carry their own key, as `mergeUnique`
    in board/board.js uses it: a sequence of entries in insertion order, no
    two with the same key. The key function is a parameter. */
module Keyed {

  /** The keys present. */
  ghost function KeySet<T, K>(t: seq<T>, key: T -> K): set<K> {
    set x | x in t :: key(x)
  }

  /** No two entries share a key. */
  ghost predicate UniqueKeys<T, K>(t: seq<T>, key: T -> K) {
    |KeySet(t, key)| == |t|
  }

  /** The position of the entry with key `k`, or -1 (`map.has`, `map.get`). */
  function Position<T, K(==)>(t: seq<T>, k: K, key: T -> K): (p: int)
    ensures -1 <= p < |t|
    ensures p == -1 <==> k !in KeySet(t, key)
    ensures p >= 0 ==> key(t[p]) == k
  {
    if t == [] then -1
    else if key(t[0]) == k then 0
    else
      var p := Position(t[1..], k, key);
      KeySetCons(t[0], t[1..], key);
      assert t == [t[0]] + t[1..];
      if p == -1 then -1 else p + 1
  }

  lemma KeySetCons<T, K>(x: T, t: seq<T>, key: T -> K)
    ensures KeySet([x] + t, key) == {key(x)} + KeySet(t, key)
  {
    assert forall y :: y in [x] + t <==> y == x || y in t;
  }

  lemma KeySetAppend<T, K>(t: seq<T>, x: T, key: T -> K)
    ensures KeySet(t + [x], key) == KeySet(t, key) + {key(x)}
  {
    assert forall y :: y in t + [x] <==> y in t || y == x;
  }

  /** Replacing an entry by one with the same key keeps the key set. */
  lemma KeySetReplace<T, K>(t: seq<T>, p: nat, u: T, key: T -> K)
    requires p < |t| && key(u) == key(t[p])
    ensures KeySet(t[p := u], key) == KeySet(t, key)
  {
    var r := t[p := u];
    forall k | k in KeySet(t, key)
      ensures k in KeySet(r, key)
    {
      var x :| x in t && key(x) == k;
      var i :| 0 <= i < |t| && t[i] == x;
      if i == p {
        assert key(r[p]) == k;
      } else {
        assert r[i] == x;
      }
    }
    forall k | k in KeySet(r, key)
      ensures k in KeySet(t, key)
    {
      var x :| x in r && key(x) == k;
      var i :| 0 <= i < |r| && r[i] == x;
      if i == p {
        assert key(t[p]) == k;
      } else {
        assert t[i] == x;
      }
    }
  }

  /** A reordering has the same keys. */
  lemma SameKeys<T, K>(t: seq<T>, r: seq<T>, key: T -> K)
    requires multiset(r) == multiset(t)
    ensures KeySet(r, key) == KeySet(t, key) && |r| == |t|
  {
    assert forall x :: x in r <==> x in multiset(r);
    assert forall x :: x in t <==> x in multiset(t);
    assert |multiset(r)| == |multiset(t)|;
  }

  /** `map.set(key(x), x)`: replaces the entry with the same key in place,
      or appends a new one. */
  function Assign<T, K(==)>(t: seq<T>, x: T, key: T -> K): (r: seq<T>)
    requires UniqueKeys(t, key)
    ensures UniqueKeys(r, key)
    ensures KeySet(r, key) == KeySet(t, key) + {key(x)}
    ensures key(x) in KeySet(t, key) ==> |r| == |t|
    // a known key: its entry is replaced where it stands
    ensures key(x) in KeySet(t, key) ==>
      forall i :: 0 <= i < |t| ==> r[i] == (if key(t[i]) == key(x) then x else t[i])
    ensures key(x) !in KeySet(t, key) ==> r == t + [x]
    ensures x in r
    ensures forall y :: y in r ==> y == x || y in t
    ensures forall y :: y in t && key(y) != key(x) ==> y in r
  {
    var p := Position(t, key(x), key);
    if p == -1 then
      KeySetAppend(t, x, key);
      t + [x]
    else
      KeySetReplace(t, p, x, key);
      OnlyOneWithKey(t, p, key);
      assert t[p := x][p] == x;
      assert forall q :: 0 <= q < |t| && q != p ==> t[p := x][q] == t[q];
      t[p := x]
  }

  /** `new Map(s.map((x) => [key(x), x]))`: one entry per key, the later of
      two entries with the same key winning, at the earlier one's place. */
  function FromList<T, K(==)>(s: seq<T>, key: T -> K): (r: seq<T>)
    ensures UniqueKeys(r, key)
    ensures KeySet(r, key) == KeySet(s, key)
    ensures |r| == |KeySet(s, key)|
    ensures forall x :: x in r ==> x in s
  {
    if s == [] then []
    else
      var init := s[..|s| - 1];
      assert s == init + [s[|s| - 1]];
      KeySetAppend(init, s[|s| - 1], key);
      Assign(FromList(init, key), s[|s| - 1], key)
  }

  /** The last entry of `s` with a given key is the one kept. */
  lemma {:induction false} FromListKeepsLast<T, K>(s: seq<T>, key: T -> K, i: nat)
    requires i < |s|
    requires forall j :: i < j < |s| ==> key(s[j]) != key(s[i])
    ensures s[i] in FromList(s, key)
  {
    var init := s[..|s| - 1];
    if i < |s| - 1 {
      assert init[i] == s[i];
      FromListKeepsLast(init, key, i);
      assert key(s[|s| - 1]) != key(s[i]);
    }
  }

  /** In a table the entry at `p` is the only one with its key. */
  lemma OnlyOneWithKey<T, K>(t: seq<T>, p: nat, key: T -> K)
    requires UniqueKeys(t, key) && p < |t|
    ensures forall i :: 0 <= i < |t| && i != p ==> key(t[i]) != key(t[p])
  {
    forall i | 0 <= i < |t| && i != p
      ensures key(t[i]) != key(t[p])
    {
      if key(t[i]) == key(t[p]) {
        var lo := if i < p then i else p;
        var hi := if i < p then p else i;
        var rest := t[..hi] + t[hi + 1..];
        assert t == t[..hi] + [t[hi]] + t[hi + 1..];
        assert KeySet(t, key) == KeySet(rest, key) by {
          assert t[lo] in rest;
          forall x | x in t
            ensures x in rest || key(x) == key(t[lo])
          {
          }
          forall x | x in rest
            ensures x in t
          {
          }
        }
        CardAtMostLength(rest, key);
        assert false;
      }
    }
  }

  /** There are no more keys than entries. */
  lemma {:induction false} CardAtMostLength<T, K>(t: seq<T>, key: T -> K)
    ensures |KeySet(t, key)| <= |t|
  {
    if t != [] {
      CardAtMostLength(t[1..], key);
      KeySetCons(t[0], t[1..], key);
      assert t == [t[0]] + t[1..];
    }
  }
}
