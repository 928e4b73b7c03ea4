/** std::multimap: ordered by key, equal keys in the order they were added. */
module Multimap {
  import opened Seqs
  import opened ConfigStore

  ghost predicate Ordered<T>(key: T -> string, s: seq<T>)
  {
    forall i, j | 0 <= i < j < |s| :: !Below(key(s[j]), key(s[i]))
  }

  /** The elements with the key `k`, in order. */
  function Of<T>(key: T -> string, k: string, s: seq<T>): seq<T>
  {
    if s == [] then []
    else if key(s[0]) == k then [s[0]] + Of(key, k, s[1..])
    else Of(key, k, s[1..])
  }

  lemma {:induction false} OfConcat<T>(key: T -> string, k: string, a: seq<T>, b: seq<T>)
    ensures Of(key, k, a + b) == Of(key, k, a) + Of(key, k, b)
    decreases |a|
  {
    if a == [] {
      EmptyLeft(b);
      EmptyLeft(Of(key, k, b));
    } else {
      TailOfConcat(a, b);
      OfConcat(key, k, a[1..], b);
      if key(a[0]) == k { Assoc([a[0]], Of(key, k, a[1..]), Of(key, k, b)); }
    }
  }

  lemma {:induction false} OfNone<T>(key: T -> string, k: string, s: seq<T>)
    requires forall i | 0 <= i < |s| :: key(s[i]) != k
    ensures Of(key, k, s) == []
  {
    if s != [] { OfNone(key, k, s[1..]); }
  }

  lemma {:induction false} OfAll<T>(key: T -> string, k: string, s: seq<T>)
    requires forall i | 0 <= i < |s| :: key(s[i]) == k
    ensures Of(key, k, s) == s
  {
    if s != [] { OfAll(key, k, s[1..]); }
  }

  // ----- emplace -----

  /** How far the elements reach whose key is not greater, looking back from `at`. */
  function UpperBound<T>(key: T -> string, s: seq<T>, k: string, at: nat): (n: nat)
    requires at <= |s|
    ensures n <= at && (n > 0 ==> !Below(k, key(s[n - 1])))
    ensures forall j | n <= j < at :: Below(k, key(s[j]))
  {
    if at > 0 && Below(k, key(s[at - 1])) then UpperBound(key, s, k, at - 1) else at
  }

  /** Behind the last element whose key is not greater. */
  function Emplaced<T>(key: T -> string, s: seq<T>, x: T): seq<T>
  {
    var at := UpperBound(key, s, key(x), |s|);
    s[..at] + [x] + s[at..]
  }

  /** The multimap after the first `n` of the elements have been added. */
  function Collected<T>(key: T -> string, xs: seq<T>, n: nat): seq<T>
    requires n <= |xs|
  {
    if n == 0 then [] else Emplaced(key, Collected(key, xs, n - 1), xs[n - 1])
  }

  method Emplace<T>(key: T -> string, s: seq<T>, x: T) returns (r: seq<T>)
    ensures r == Emplaced(key, s, x)
  {
    var at := |s|;
    while at > 0 && Below(key(x), key(s[at - 1]))
      invariant 0 <= at <= |s| && UpperBound(key, s, key(x), at) == UpperBound(key, s, key(x), |s|)
    {
      at := at - 1;
    }
    r := s[..at] + [x] + s[at..];
  }

  lemma {:induction false} CollectedPrefix<T>(key: T -> string, xs: seq<T>, ys: seq<T>, n: nat)
    requires n <= |xs|
    ensures Collected(key, xs + ys, n) == Collected(key, xs, n)
  {
    if n != 0 { CollectedPrefix(key, xs, ys, n - 1); }
  }

  /** Adding one more element behind `xs`. */
  lemma CollectedMore<T>(key: T -> string, xs: seq<T>, x: T)
    ensures Collected(key, xs + [x], |xs| + 1) == Emplaced(key, Collected(key, xs, |xs|), x)
  {
    CollectedPrefix(key, xs, [x], |xs|);
    assert (xs + [x])[|xs|] == x;
  }

  // ----- It sorts, and loses and reorders nothing else -----

  lemma EmplacedAdds<T>(key: T -> string, s: seq<T>, x: T)
    ensures multiset(Emplaced(key, s, x)) == multiset(s) + multiset{x}
  {
    var at := UpperBound(key, s, key(x), |s|);
    assert s == s[..at] + s[at..];
  }

  lemma OneMore<T>(xs: seq<T>, n: nat)
    requires 0 < n <= |xs|
    ensures multiset(xs[..n]) == multiset(xs[..n - 1]) + multiset{xs[n - 1]}
  {
    assert xs[..n] == xs[..n - 1] + [xs[n - 1]];
  }

  lemma {:induction false} CollectedKeeps<T>(key: T -> string, xs: seq<T>, n: nat)
    requires n <= |xs|
    ensures multiset(Collected(key, xs, n)) == multiset(xs[..n])
  {
    if n != 0 {
      CollectedKeeps(key, xs, n - 1);
      EmplacedAdds(key, Collected(key, xs, n - 1), xs[n - 1]);
      OneMore(xs, n);
    }
  }

  lemma OfOneMore<T>(key: T -> string, xs: seq<T>, n: nat, k: string)
    requires 0 < n <= |xs|
    ensures Of(key, k, xs[..n]) == Of(key, k, xs[..n - 1]) + Of(key, k, [xs[n - 1]])
  {
    OfConcat(key, k, xs[..n - 1], [xs[n - 1]]);
    assert xs[..n] == xs[..n - 1] + [xs[n - 1]];
  }

  /** Each key's elements keep their order. */
  lemma {:induction false} CollectedOf<T>(key: T -> string, xs: seq<T>, n: nat, k: string)
    requires n <= |xs|
    ensures Of(key, k, Collected(key, xs, n)) == Of(key, k, xs[..n])
  {
    if n != 0 {
      var s, x := Collected(key, xs, n - 1), xs[n - 1];
      CollectedOf(key, xs, n - 1, k);
      EmplacedOf(key, s, x, UpperBound(key, s, key(x), |s|), k);
      OfConcat(key, k, s, [x]);
      OfOneMore(key, xs, n, k);
    }
  }

  lemma {:induction false} CollectedOrdered<T>(key: T -> string, xs: seq<T>, n: nat)
    requires n <= |xs|
    ensures Ordered(key, Collected(key, xs, n))
  {
    if n != 0 {
      var s, x := Collected(key, xs, n - 1), xs[n - 1];
      CollectedOrdered(key, xs, n - 1);
      EmplacedOrdered(key, s, x, UpperBound(key, s, key(x), |s|));
    }
  }

  lemma EmplacedOrdered<T>(key: T -> string, s: seq<T>, x: T, at: nat)
    requires Ordered(key, s) && at <= |s|
    requires forall j | at <= j < |s| :: Below(key(x), key(s[j]))
    requires at > 0 ==> !Below(key(x), key(s[at - 1]))
    ensures Ordered(key, s[..at] + [x] + s[at..])
  {
    forall i | 0 <= i < at ensures !Below(key(x), key(s[i])) {
      NotBelowChain(key(x), key(s[at - 1]), key(s[i]));
    }
    forall j | at <= j < |s| ensures !Below(key(s[j]), key(x)) {
      BelowStrict(key(x), key(s[j]));
    }
  }

  lemma NotBelowChain(a: string, b: string, c: string)
    requires !Below(a, b) && (b == c || !Below(b, c))
    ensures !Below(a, c)
  {
    BelowTotal(a, b);
    BelowTotal(b, c);
    if Below(a, c) {
      if a != b { BelowTransitive(b, a, c); }
    }
  }

  lemma EmplacedOf<T>(key: T -> string, s: seq<T>, x: T, at: nat, k: string)
    requires at <= |s|
    requires forall j | at <= j < |s| :: Below(key(x), key(s[j]))
    ensures Of(key, k, s[..at] + [x] + s[at..]) == Of(key, k, s + [x])
  {
    var a, b := s[..at], s[at..];
    assert s == a + b;
    OfConcat(key, k, a + [x], b);
    OfConcat(key, k, a, [x]);
    OfConcat(key, k, a + b, [x]);
    OfConcat(key, k, a, b);
    if k == key(x) {
      forall j | 0 <= j < |b| ensures key(b[j]) != k { BelowStrict(key(x), key(s[at + j])); }
      OfNone(key, k, b);
      EmptyRight(Of(key, k, a) + Of(key, k, [x]));
      EmptyRight(Of(key, k, a));
    } else {
      OfNone(key, k, [x]);
      EmptyRight(Of(key, k, a));
      EmptyRight(Of(key, k, a) + Of(key, k, b));
    }
  }
}
