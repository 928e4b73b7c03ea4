/** The sets a client configures, HidHideCLI/src/Utils.cpp and FilterDriverProxy.cpp, and their way
    through the IOCTL boundary into the driver's registry and back. */
module ConfigStore {
  import opened Seqs
  import opened MultiString

  // ----- std::set<std::wstring> visits its elements in ascending order -----

  predicate Below(a: string, b: string)
  {
    b != [] && (a == [] || a[0] < b[0] || (a[0] == b[0] && Below(a[1..], b[1..])))
  }

  lemma {:induction false} BelowTotal(a: string, b: string)
    ensures a == b || Below(a, b) || Below(b, a)
  {
    if a != [] && b != [] && a[0] == b[0] {
      BelowTotal(a[1..], b[1..]);
      TailOfCons(a[0], a[1..]);
      assert a == [a[0]] + a[1..] && b == [b[0]] + b[1..];
    }
  }

  lemma {:induction false} BelowTransitive(a: string, b: string, c: string)
    requires Below(a, b) && Below(b, c)
    ensures Below(a, c)
  {
    if a != [] && a[0] == b[0] == c[0] { BelowTransitive(a[1..], b[1..], c[1..]); }
  }

  lemma {:induction false} BelowStrict(a: string, b: string)
    requires Below(a, b)
    ensures !Below(b, a) && a != b
  {
    if a != [] && a[0] == b[0] { BelowStrict(a[1..], b[1..]); }
  }

  /** Up to `k` the strings are alike, and there the first of them ends or has the lesser character. */
  ghost predicate LessAt(a: string, b: string, k: nat)
  {
    k <= |a| && k < |b| && (forall i | 0 <= i < k :: a[i] == b[i]) && (k == |a| || a[k] < b[k])
  }

  /** The order is lexicographic. */
  lemma {:induction false} BelowIsLexicographic(a: string, b: string)
    ensures Below(a, b) <==> exists k: nat :: LessAt(a, b, k)
  {
    if a != [] && b != [] && a[0] == b[0] {
      BelowIsLexicographic(a[1..], b[1..]);
      if k: nat :| LessAt(a[1..], b[1..], k) {
        LessBehind(a, b, k);
        assert LessAt(a, b, k + 1);
      }
      if k: nat :| LessAt(a, b, k) {
        LessBehind(a, b, k - 1);
        assert LessAt(a[1..], b[1..], k - 1);
      }
    } else {
      assert LessAt(a, b, 0) <==> Below(a, b);
      assert forall k: nat :: LessAt(a, b, k) ==> k == 0;
    }
  }

  lemma LessBehind(a: string, b: string, k: nat)
    requires a != [] && b != [] && a[0] == b[0]
    ensures LessAt(a, b, k + 1) <==> LessAt(a[1..], b[1..], k)
  {
    if LessAt(a[1..], b[1..], k) {
      forall i | 0 <= i < k + 1 ensures a[i] == b[i] {
        if i > 0 { assert a[1..][i - 1] == b[1..][i - 1]; }
      }
    }
  }

  ghost predicate IsLeast(m: string, s: set<string>)
  {
    m in s && forall x | x in s :: x == m || Below(m, x)
  }

  lemma {:induction false} LeastExists(s: set<string>)
    requires s != {}
    ensures exists m :: IsLeast(m, s)
    decreases |s|
  {
    var a :| a in s;
    var rest := s - {a};
    assert s == {a} + rest;
    if rest == {} {
      assert IsLeast(a, s);
    } else {
      LeastExists(rest);
      var b :| IsLeast(b, rest);
      BelowTotal(a, b);
      if Below(b, a) {
        assert IsLeast(b, s);
      } else {
        forall x | x in rest && x != b ensures Below(a, x) { BelowTransitive(a, b, x); }
        assert IsLeast(a, s);
      }
    }
  }

  ghost function Least(s: set<string>): (m: string)
    requires s != {}
    ensures IsLeast(m, s)
  {
    LeastExists(s);
    var m :| IsLeast(m, s);
    m
  }

  lemma LeastUnique(m: string, s: set<string>)
    requires IsLeast(m, s)
    ensures m == Least(s)
  {
    if m != Least(s) { BelowStrict(m, Least(s)); }
  }

  ghost function InOrder(s: set<string>): seq<string>
    decreases |s|
  {
    if s == {} then [] else [Least(s)] + InOrder(s - {Least(s)})
  }

  ghost function Elements(ss: seq<string>): set<string>
  {
    set s | s in ss
  }

  lemma {:induction false} InOrderElements(s: set<string>)
    ensures Elements(InOrder(s)) == s
    decreases |s|
  {
    if s != {} {
      var rest := s - {Least(s)};
      InOrderElements(rest);
      ElementsOfConcat([Least(s)], InOrder(rest));
    }
  }

  lemma ElementsOfConcat(a: seq<string>, b: seq<string>)
    ensures Elements(a + b) == Elements(a) + Elements(b)
  {
  }

  lemma {:induction false} InOrderAscends(s: set<string>, i: nat, j: nat)
    requires i < j < |InOrder(s)|
    ensures Below(InOrder(s)[i], InOrder(s)[j])
    decreases |s|
  {
    var rest := s - {Least(s)};
    if i == 0 {
      InOrderElements(rest);
      assert InOrder(rest)[j - 1] in Elements(InOrder(rest));
    } else {
      InOrderAscends(rest, i - 1, j - 1);
    }
  }

  // ----- The list/set conversions of Utils.cpp -----

  method StringSetToStringList(strings: set<string>) returns (result: seq<string>)
    ensures result == InOrder(strings)
  {
    result := [];
    var rest := strings;
    while rest != {}
      invariant result + InOrder(rest) == InOrder(strings)
      decreases |rest|
    {
      LeastExists(rest);
      var s :| s in rest && forall x | x in rest :: x == s || Below(s, x);
      LeastUnique(s, rest);
      Assoc(result, [s], InOrder(rest - {s}));
      result, rest := result + [s], rest - {s};
    }
  }

  method StringListToStringSet(strings: seq<string>) returns (result: set<string>)
    ensures result == Elements(strings)
  {
    result := {};
    for i := 0 to |strings|
      invariant result == Elements(strings[..i])
    {
      result := result + {strings[i]};
    }
    assert strings[..|strings|] == strings;
  }

  // ----- What the driver makes of a set, and what a client reads back -----

  ghost predicate Cleanly(s: set<string>)
  {
    forall x | x in s :: Clean(x)
  }

  /** The driver's list after a client has set `s`. */
  ghost function Stored(s: set<string>): seq<string>
  {
    RegistryDecode(ClientEncode(InOrder(s)))
  }

  /** Reading a driver's list back, through its size query and fill, gives its elements. */
  lemma FetchedList(listed: string)
    ensures Elements(ClientDecode(Encode(RegistryDecode(listed)))) == Elements(RegistryDecode(listed))
  {
    RegistryDecodeClean(listed);
    DriverRoundTrip(RegistryDecode(listed));
  }

  lemma InOrderClean(s: set<string>)
    ensures AllClean(InOrder(s)) <==> Cleanly(s)
  {
    InOrderElements(s);
    assert forall i | 0 <= i < |InOrder(s)| :: InOrder(s)[i] in Elements(InOrder(s));
    if AllClean(InOrder(s)) {
      forall x | x in s ensures Clean(x) {
        assert x in Elements(InOrder(s));
      }
    }
  }

  /** A set survives exactly when it has no empty string and no embedded terminator. */
  lemma SetRoundTrip(s: set<string>)
    ensures Elements(Stored(s)) == s <==> Cleanly(s)
    ensures Cleanly(s) ==> Stored(s) == InOrder(s)
  {
    InOrderElements(s);
    InOrderClean(s);
    RegistryRoundTrip(InOrder(s));
    StoredCleanly(s);
  }

  lemma StoredCleanly(s: set<string>)
    ensures Cleanly(Elements(Stored(s)))
  {
    RegistryDecodeClean(ClientEncode(InOrder(s)));
  }

  /** What a client reads back never changes by setting it again. */
  lemma StoredTwice(s: set<string>)
    ensures Elements(Stored(Elements(Stored(s)))) == Elements(Stored(s))
  {
    StoredCleanly(s);
    SetRoundTrip(Elements(Stored(s)));
  }

  /** One empty string is enough to lose everything, because it sorts first. */
  lemma EmptyStringWipes(s: set<string>)
    requires "" in s
    ensures Stored(s) == []
  {
    if Least(s) != "" { BelowStrict(Least(s), ""); }
    RegistryKeeps(InOrder(s));
  }
}
