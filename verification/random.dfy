/** `shuffle` from Quiz/quiz.js: a Fisher-Yates pass from the last index
    down to 1, swapping index `i` with a random index `j` in `0..i`.
    `Math.random` is replaced by an oracle: draw number `pos` is `rand(pos)`,
    and `(Math.random() * (i + 1)) | 0` becomes `rand(pos) % (i + 1)`, which
    is the draw itself whenever the oracle already answers within `0..i`. */
module Random {

  /** The source of randomness: the index the `pos`-th draw picks. */
  type Rand = nat -> nat

  /** The index a draw picks when `i + 1` positions are available. */
  function Pick(rand: Rand, pos: nat, i: nat): (j: nat)
    ensures j <= i
  {
    rand(pos) % (i + 1)
  }

  /** The number of draws `shuffle` makes on an array of length `n`. */
  function Draws(n: nat): nat {
    if n == 0 then 0 else n - 1
  }

  function Swap<T>(a: seq<T>, i: nat, j: nat): (r: seq<T>)
    requires i < |a| && j < |a|
    ensures |r| == |a| && multiset(r) == multiset(a)
    ensures r[i] == a[j] && r[j] == a[i]
    ensures forall k :: 0 <= k < |a| && k != i && k != j ==> r[k] == a[k]
  {
    a[i := a[j]][j := a[i]]
  }

  /** The loop of `shuffle` from index `i` down to 1; the draws used are
      numbers `pos` to `pos + i - 1`. */
  function ShuffleDown<T>(a: seq<T>, i: nat, rand: Rand, pos: nat): (r: (seq<T>, nat))
    requires i < |a|
    ensures |r.0| == |a| && multiset(r.0) == multiset(a)
    ensures r.1 == pos + i
    decreases i
  {
    if i == 0 then (a, pos)
    else ShuffleDown(Swap(a, i, Pick(rand, pos, i)), i - 1, rand, pos + 1)
  }

  /** `shuffle(arr)`: a permutation of `a`, and the position of the next
      unused draw. */
  function Shuffle<T>(a: seq<T>, rand: Rand, pos: nat): (r: (seq<T>, nat))
    ensures |r.0| == |a| && multiset(r.0) == multiset(a)
    ensures r.1 == pos + Draws(|a|)
  {
    if |a| == 0 then (a, pos) else ShuffleDown(a, |a| - 1, rand, pos)
  }

  /** An oracle that always picks the current index leaves the order alone. */
  lemma {:induction false} IdentityOracle<T>(a: seq<T>, i: nat, rand: Rand, pos: nat)
    requires i < |a|
    requires forall k :: pos <= k < pos + i ==> rand(k) == i + pos - k
    ensures ShuffleDown(a, i, rand, pos).0 == a
    decreases i
  {
    if i > 0 {
      assert rand(pos) == i;
      ShuffleDownKeep(a, i, rand, pos);
      IdentityStep(rand, pos, i);
      IdentityOracle(a, i - 1, rand, pos + 1);
    }
  }

  /** A draw that picks the current index swaps nothing. */
  lemma ShuffleDownKeep<T>(a: seq<T>, i: nat, rand: Rand, pos: nat)
    requires 0 < i < |a| && rand(pos) == i
    ensures ShuffleDown(a, i, rand, pos) == ShuffleDown(a, i - 1, rand, pos + 1)
  {
    assert Pick(rand, pos, i) == i;
    SwapSame(a, i);
  }

  lemma IdentityStep(rand: Rand, pos: nat, i: nat)
    requires i > 0
    requires forall k :: pos <= k < pos + i ==> rand(k) == i + pos - k
    ensures forall k :: pos + 1 <= k < pos + 1 + (i - 1) ==> rand(k) == (i - 1) + (pos + 1) - k
  {
  }

  lemma SwapSame<T>(a: seq<T>, i: nat)
    requires i < |a|
    ensures Swap(a, i, i) == a
  {
  }
}
