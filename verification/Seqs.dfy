/** Sequence identities, stated once so that proofs can apply them by name. */
module Seqs {

  lemma Assoc<T>(a: seq<T>, b: seq<T>, c: seq<T>)
    ensures a + b + c == a + (b + c)
  {
  }

  lemma TailOfCons<T>(x: T, s: seq<T>)
    ensures ([x] + s)[0] == x && ([x] + s)[1..] == s
  {
  }

  lemma TailOfConcat<T>(a: seq<T>, b: seq<T>)
    requires a != []
    ensures (a + b)[0] == a[0] && (a + b)[1..] == a[1..] + b
  {
  }

  lemma EmptyRight<T>(s: seq<T>)
    ensures s + [] == s
  {
  }

  lemma EmptyLeft<T>(s: seq<T>)
    ensures [] + s == s
  {
  }

  /** The `n` elements of `m` from `i` on. */
  function Sub<T>(m: seq<T>, i: nat, n: nat): seq<T>
    requires i + n <= |m|
    decreases n
  {
    if n == 0 then [] else [m[i]] + Sub(m, i + 1, n - 1)
  }

  lemma {:induction false} SubIsSlice<T>(m: seq<T>, i: nat, n: nat)
    requires i + n <= |m|
    ensures Sub(m, i, n) == m[i..i + n]
    decreases n
  {
    if n != 0 { SubIsSlice(m, i + 1, n - 1); }
  }

  /** `b` is what is left of `m` from position `d` on. */
  ghost predicate IsTail<T>(m: seq<T>, d: nat, b: seq<T>)
  {
    |m| == d + |b| && forall k | 0 <= k < |b| :: m[d + k] == b[k]
  }

  lemma TailOfSum<T>(a: seq<T>, b: seq<T>)
    ensures IsTail(a + b, |a|, b)
  {
  }

  lemma {:induction false} SubShift<T>(m: seq<T>, d: nat, b: seq<T>, i: nat, n: nat)
    requires IsTail(m, d, b) && i + n <= |b|
    ensures Sub(m, d + i, n) == Sub(b, i, n)
    decreases n
  {
    if n != 0 {
      SubShift(m, d, b, i + 1, n - 1);
      assert m[d + i] == b[i];
    }
  }

  lemma SubOfPrefix<T>(a: seq<T>, b: seq<T>)
    ensures Sub(a + b, 0, |a|) == a
  {
    SubIsSlice(a + b, 0, |a|);
  }
}
