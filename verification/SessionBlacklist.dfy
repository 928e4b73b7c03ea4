/** HidHide/src/Logic.c: the process-lifetime blacklist, an intrusive circular doubly linked list. */
module SessionBlacklist {
  import opened Names
  import opened MultiString
  import opened Seqs

  datatype SessionEntry = SessionEntry(ownerPid: nat, path: string)

  datatype AddStatus = Added | Malformed | NoResources | StringCreateFailed

  // ----- LIST_ENTRY rings -----

  /** A LIST_ENTRY with the SESSION_BLACKLIST_ENTRY around it; a list head leaves `entry` unused. */
  class Link {
    var flink: Link?
    var blink: Link?
    const entry: SessionEntry

    constructor (entry: SessionEntry)
      ensures this.entry == entry
    {
      this.entry := entry;
      flink, blink := null, null;
    }
  }

  /** The `i`th link met when walking forward from `head`, which is met again at the end. */
  ghost function At(head: Link, links: seq<Link>, i: nat): Link
    requires i <= |links| + 1
  {
    if i == 0 || i == |links| + 1 then head else links[i - 1]
  }

  /** The `i`th link and its successor point at each other. */
  ghost predicate Joined(head: Link, links: seq<Link>, i: nat)
    requires i <= |links|
    reads head, links
  {
    var a, b := At(head, links, i), At(head, links, i + 1);
    a.flink == b && b.blink == a
  }

  /** Forward and backward, the ring of `head` is `head` followed by `links`. */
  ghost predicate Ring(head: Link, links: seq<Link>)
    reads head, links
  {
    && (forall i | 0 <= i < |links| :: links[i] != head)
    && (forall i | 0 <= i <= |links| :: Joined(head, links, i))
  }

  /** No link occurs twice in a ring: walking on from two equal places would reach the head early. */
  lemma {:induction false} RingDistinct(head: Link, links: seq<Link>, i: nat, j: nat)
    requires Ring(head, links) && i < j < |links|
    ensures links[i] != links[j]
    decreases |links| - j
  {
    assert Joined(head, links, i + 1) && Joined(head, links, j + 1);
    if j + 1 < |links| {
      RingDistinct(head, links, i + 1, j + 1);
    }
  }

  lemma AtDistinct(head: Link, links: seq<Link>, i: nat, j: nat)
    requires Ring(head, links) && i <= |links| && j <= |links| && i != j
    ensures At(head, links, i) != At(head, links, j)
  {
    if 0 < i < j { RingDistinct(head, links, i - 1, j - 1); }
    if 0 < j < i { RingDistinct(head, links, j - 1, i - 1); }
  }

  /** A head is on one ring only: walking forward meets the same links whoever looks. */
  lemma {:induction false} SameWalk(head: Link, links: seq<Link>, other: seq<Link>, i: nat)
    requires Ring(head, links) && Ring(head, other) && i <= |links| + 1 && i <= |other| + 1
    ensures At(head, links, i) == At(head, other, i)
  {
    if i != 0 {
      SameWalk(head, links, other, i - 1);
      assert Joined(head, links, i - 1) && Joined(head, other, i - 1);
    }
  }

  lemma RingUnique(head: Link, links: seq<Link>, other: seq<Link>)
    requires Ring(head, links) && Ring(head, other)
    ensures links == other
  {
    var shorter := if |links| <= |other| then |links| else |other|;
    SameWalk(head, links, other, shorter + 1);
    forall i | 0 <= i < shorter ensures links[i] == other[i] {
      SameWalk(head, links, other, i + 1);
    }
  }

  /** Two rings without a common link. */
  ghost predicate Apart(head: Link, links: seq<Link>, other: Link, chain: seq<Link>)
  {
    forall i, j | 0 <= i <= |links| && 0 <= j <= |chain| :: At(head, links, i) != At(other, chain, j)
  }

  method InitializeListHead(head: Link)
    modifies head
    ensures Ring(head, [])
  {
    head.flink := head;
    head.blink := head;
  }

  method InsertTailList(head: Link, link: Link, ghost links: seq<Link>)
    requires Ring(head, links) && link != head && link !in links
    modifies head, links, link
    ensures Ring(head, links + [link])
  {
    assert Joined(head, links, |links|);
    var last := head.blink;
    link.flink := head;
    link.blink := last;
    last.flink := link;
    head.blink := link;
    ghost var links' := links + [link];
    forall i | 0 <= i <= |links'|
      ensures Joined(head, links', i)
    {
      if i < |links| { assert old(Joined(head, links, i)); }
    }
  }

  ghost predicate IsWithout(links: seq<Link>, k: nat, rest: seq<Link>)
    requires k < |links|
  {
    && |rest| == |links| - 1
    && (forall i | 0 <= i < k :: rest[i] == links[i])
    && (forall i | k <= i < |rest| :: rest[i] == links[i + 1])
  }

  method RemoveEntryList(link: Link, ghost head: Link, ghost links: seq<Link>, ghost k: nat)
    returns (ghost rest: seq<Link>)
    requires Ring(head, links) && k < |links| && links[k] == link
    modifies At(head, links, k), At(head, links, k + 2)
    ensures IsWithout(links, k, rest) && Ring(head, rest)
  {
    assert Joined(head, links, k);
    assert Joined(head, links, k + 1);
    ghost var last := if k + 2 == |links| + 1 then 0 else k + 2;
    forall j | 0 <= j <= |links|
      ensures j != k ==> At(head, links, j) != At(head, links, k)
      ensures j != last ==> At(head, links, j) != At(head, links, last)
    {
      if j != k { AtDistinct(head, links, j, k); }
      if j != last { AtDistinct(head, links, j, last); }
    }
    var next, previous := link.flink, link.blink;
    previous.flink := next;
    next.blink := previous;
    rest := links[..k] + links[k + 1..];
    forall i | 0 <= i <= |rest|
      ensures Joined(head, rest, i)
    {
      ghost var j := if i < k then i else i + 1;
      assert old(Joined(head, links, j));
    }
  }

  /** The same ring, read from its first link. */
  lemma Rotate(head: Link, links: seq<Link>)
    requires Ring(head, links) && links != []
    ensures Ring(links[0], links[1..] + [head])
  {
    var links' := links[1..] + [head];
    forall i | 0 <= i < |links'|
      ensures links'[i] != links[0]
    {
      if i + 1 < |links| { RingDistinct(head, links, 0, i + 1); }
    }
    forall i | 0 <= i <= |links'|
      ensures Joined(links[0], links', i)
    {
      if i < |links'| {
        assert Joined(head, links, i + 1);
      } else {
        assert Joined(head, links, 0);
      }
    }
  }

  /** The documented meaning of AppendTailList: `first` is the first entry of the chain to append. */
  method AppendTailList(head: Link, first: Link, ghost links: seq<Link>, ghost rest: seq<Link>)
    requires Ring(head, links) && Ring(first, rest)
    requires Apart(head, links, first, rest)
    modifies head, links, first, rest
    ensures Ring(head, links + [first] + rest)
  {
    assert Joined(head, links, |links|);
    assert Joined(first, rest, |rest|);
    var listEnd := head.blink;
    listEnd.flink := first;
    head.blink := first.blink;
    first.blink.flink := head;
    first.blink := listEnd;
    ghost var links' := links + [first] + rest;
    forall i | 0 <= i < |links'|
      ensures links'[i] != head
    {
      if |links| <= i {
        assert links'[i] == At(first, rest, i - |links|);
        assert At(head, links, 0) != At(first, rest, i - |links|);
      }
    }
    forall i | 0 <= i <= |links'|
      ensures Joined(head, links', i)
    {
      if i < |links| {
        assert old(Joined(head, links, i));
      } else if |links| < i < |links'| {
        assert old(Joined(first, rest, i - |links| - 1));
      }
    }
  }

  // ----- The list as a value -----

  function Values(links: seq<Link>): (es: seq<SessionEntry>)
    ensures |es| == |links| && forall i | 0 <= i < |links| :: es[i] == links[i].entry
  {
    seq(|links|, i requires 0 <= i < |links| => links[i].entry)
  }

  /** The links of everybody but `pid`, in order. */
  ghost function OtherLinks(links: seq<Link>, n: nat, pid: nat): seq<Link>
    requires n <= |links|
  {
    if n == 0 then []
    else if links[n - 1].entry.ownerPid == pid then OtherLinks(links, n - 1, pid)
    else OtherLinks(links, n - 1, pid) + [links[n - 1]]
  }

  /** Those of `pid`, in order. */
  ghost function OwnLinks(links: seq<Link>, n: nat, pid: nat): seq<Link>
    requires n <= |links|
  {
    if n == 0 then []
    else if links[n - 1].entry.ownerPid == pid then OwnLinks(links, n - 1, pid) + [links[n - 1]]
    else OwnLinks(links, n - 1, pid)
  }

  /** After `k` turns of the removal loop: the survivors so far, then what was not visited yet. */
  ghost predicate Swept(all: seq<Link>, k: nat, pid: nat, ring: seq<Link>)
    requires k <= |all|
  {
    ring == OtherLinks(all, k, pid) + all[k..]
  }

  lemma SweptStep(head: Link, all: seq<Link>, k: nat, pid: nat, ring: seq<Link>) returns (m: nat)
    requires k < |all| && Swept(all, k, pid, ring)
    ensures m < |ring| && ring[m] == all[k] && At(head, ring, m + 2) == At(head, all, k + 2)
    ensures At(head, ring, m) == head || At(head, ring, m) in all
    ensures all[k].entry.ownerPid != pid ==> Swept(all, k + 1, pid, ring)
    ensures all[k].entry.ownerPid == pid ==> forall rest | IsWithout(ring, m, rest) :: Swept(all, k + 1, pid, rest)
  {
    var done := OtherLinks(all, k, pid);
    m := |done|;
    OtherLinksSubset(all, k, pid);
    assert all[k..] == [all[k]] + all[k + 1..];
    assert k + 1 < |all| ==> ring[m + 1] == all[k..][1];
  }

  lemma {:induction false} OtherLinksSubset(links: seq<Link>, n: nat, pid: nat)
    requires n <= |links|
    ensures forall i | 0 <= i < |OtherLinks(links, n, pid)| :: OtherLinks(links, n, pid)[i] in links
  {
    if n != 0 { OtherLinksSubset(links, n - 1, pid); }
  }

  function Others(es: seq<SessionEntry>, n: nat, pid: nat): seq<SessionEntry>
    requires n <= |es|
  {
    if n == 0 then []
    else if es[n - 1].ownerPid == pid then Others(es, n - 1, pid)
    else Others(es, n - 1, pid) + [es[n - 1]]
  }

  lemma {:induction false} OthersValues(links: seq<Link>, n: nat, pid: nat)
    requires n <= |links|
    ensures Values(OtherLinks(links, n, pid)) == Others(Values(links), n, pid)
  {
    if n != 0 {
      OthersValues(links, n - 1, pid);
    }
  }

  // ----- Parsing a request -----

  /** A UNICODE_STRING's two sizes, in bytes; both are USHORTs. */
  datatype UnicodeSizes = UnicodeSizes(length: nat, maximumLength: nat)

  /** What the parse loop puts in front of a path of `len` characters, at lines 641-642. */
  function SizesFor(len: nat): UnicodeSizes
  {
    var length := len * 2 % 0x1_0000;
    UnicodeSizes(length, (length + 2) % 0x1_0000)
  }

  predicate Sound(sizes: UnicodeSizes)
  {
    sizes.length <= sizes.maximumLength
  }

  /** The length wraps at 2^15 characters, and the maximum one character earlier. */
  lemma SizesWrap(len: nat)
    ensures SizesFor(len).length == 2 * (len % 0x8000)
    ensures Sound(SizesFor(len)) <==> len % 0x8000 != 0x7fff
  {
  }

  /** What a path's length says of it: the length modulo 2^15 characters. */
  function Truncated(s: string): string
  {
    s[..|s| % 0x8000]
  }

  function TruncatedAll(ss: seq<string>): (r: seq<string>)
    ensures |r| == |ss| && forall i | 0 <= i < |ss| :: r[i] == Truncated(ss[i])
  {
    seq(|ss|, i requires 0 <= i < |ss| => Truncated(ss[i]))
  }

  predicate WellFormed(inputBufferLength: nat, buffer: string)
  {
    && 4 <= inputBufferLength && inputBufferLength % 2 == 0 && |buffer| == inputBufferLength / 2
    && buffer[|buffer| - 1] == NUL && buffer[|buffer| - 2] == NUL
  }

  function TruncatedFrom(m: string, i: nat): seq<string>
    requires i <= |m|
    decreases |m| - i
  {
    var n := Wcsnlen(m, i);
    if n == 0 || i + n == |m| then [] else [Truncated(Sub(m, i, n))] + TruncatedFrom(m, i + n + 1)
  }

  /** The paths the driver extracts from a request. */
  function Parsed(buffer: string): seq<string>
  {
    TruncatedFrom(buffer, 0)
  }

  /** Every path in a request is handed over with sound sizes. */
  ghost predicate SoundRequest(buffer: string)
  {
    forall i | 0 <= i < |PathsFrom(buffer, 0)| :: Sound(SizesFor(|PathsFrom(buffer, 0)[i]|))
  }

  lemma {:induction false} TruncatedFromPaths(m: string, i: nat)
    requires i <= |m|
    ensures TruncatedFrom(m, i) == TruncatedAll(PathsFrom(m, i))
    decreases |m| - i
  {
    var n := Wcsnlen(m, i);
    if n != 0 && i + n < |m| {
      TruncatedFromPaths(m, i + n + 1);
    }
  }

  function OwnedBy(pid: nat, paths: seq<string>): (es: seq<SessionEntry>)
    ensures |es| == |paths| && forall i | 0 <= i < |paths| :: es[i] == SessionEntry(pid, paths[i])
  {
    seq(|paths|, i requires 0 <= i < |paths| => SessionEntry(pid, paths[i]))
  }

  /** The first of `n` allocations that does not succeed decides; `outcome` is the system's answer. */
  function FirstFailure(n: nat, outcome: nat -> AddStatus): AddStatus
  {
    if n == 0 then Added
    else
      var earlier := FirstFailure(n - 1, outcome);
      if earlier != Added then earlier else outcome(n - 1)
  }

  function AddResult(inputBufferLength: nat, buffer: string, outcome: nat -> AddStatus): AddStatus
  {
    if !WellFormed(inputBufferLength, buffer) then Malformed
    else FirstFailure(|Parsed(buffer)|, outcome)
  }

  /** A request is malformed exactly if it is not a whole number of characters, at least two, the last
      two of them terminators; otherwise the first path that cannot be stored decides. */
  lemma AddIsRead(inputBufferLength: nat, buffer: string, outcome: nat -> AddStatus)
    requires |buffer| == inputBufferLength / 2
    ensures var status := AddResult(inputBufferLength, buffer, outcome);
      var framed := inputBufferLength % 2 == 0 && |buffer| >= 2 && buffer[|buffer| - 2..] == "\0\0";
      && (!framed ==> status == Malformed)
      && (framed ==> (status == Added <==> forall i | 0 <= i < |Parsed(buffer)| :: outcome(i) == Added))
      && (framed && status != Added ==>
            exists i | 0 <= i < |Parsed(buffer)| :: status == outcome(i) && forall j | 0 <= j < i :: outcome(j) == Added)
  {
    FirstFailureIsFirst(|Parsed(buffer)|, outcome);
  }

  lemma {:induction false} FirstFailureIsFirst(n: nat, outcome: nat -> AddStatus)
    ensures FirstFailure(n, outcome) == Added <==> forall i | 0 <= i < n :: outcome(i) == Added
    ensures FirstFailure(n, outcome) != Added ==>
            exists i | 0 <= i < n :: FirstFailure(n, outcome) == outcome(i) && forall j | 0 <= j < i :: outcome(j) == Added
  {
    if n != 0 { FirstFailureIsFirst(n - 1, outcome); }
  }

  lemma {:induction false} FirstFailureStays(n: nat, m: nat, outcome: nat -> AddStatus)
    requires n <= m && FirstFailure(n, outcome) != Added
    ensures FirstFailure(m, outcome) == FirstFailure(n, outcome)
  {
    if n < m { FirstFailureStays(n, m - 1, outcome); }
  }

  /** What the driver makes of any request a client encodes: it is always well formed, and the paths
      come back whole exactly when they are clean and shorter than the wrap-around of their length. */
  lemma ParsedClientEncoding(ss: seq<string>)
    requires ss != []
    ensures WellFormed(2 * |ClientEncode(ss)|, ClientEncode(ss))
    ensures Parsed(ClientEncode(ss)) == TruncatedAll(Kept(ss))
    ensures Parsed(ClientEncode(ss)) == ss <==> AllClean(ss) && forall s | s in ss :: |s| < 0x8000
  {
    EndsTwice(ss);
    PathsKept(ss);
    TruncatedFromPaths(ClientEncode(ss), 0);
    KeptClean(ss);
    KeptSize(ss);
    TruncationExact(ss, Kept(ss));
  }

  /** The paths come back whole from descriptors that are sound as well exactly when they are shorter
      by one more character: at 32767 the maximum length has already wrapped to zero. */
  lemma ParsedSoundly(ss: seq<string>)
    requires ss != []
    ensures Parsed(ClientEncode(ss)) == ss && SoundRequest(ClientEncode(ss)) <==>
            AllClean(ss) && forall s | s in ss :: |s| < 0x7fff
  {
    ParsedClientEncoding(ss);
    PathsKept(ss);
    KeptClean(ss);
    if AllClean(ss) && forall s | s in ss :: |s| < 0x8000 {
      SoundSizes(ss);
    }
  }

  lemma SoundSizes(ss: seq<string>)
    requires forall s | s in ss :: |s| < 0x8000
    ensures (forall i | 0 <= i < |ss| :: Sound(SizesFor(|ss[i]|))) <==> forall s | s in ss :: |s| < 0x7fff
  {
    forall i | 0 <= i < |ss| ensures Sound(SizesFor(|ss[i]|)) <==> |ss[i]| < 0x7fff {
      assert ss[i] in ss;
      SizesWrap(|ss[i]|);
    }
  }

  lemma TruncationExact(ss: seq<string>, kept: seq<string>)
    requires |kept| <= |ss| && forall i | 0 <= i < |kept| :: |kept[i]| <= |ss[i]|
    ensures TruncatedAll(kept) == ss <==> kept == ss && forall s | s in ss :: |s| < 0x8000
  {
    var cut := TruncatedAll(kept);
    if cut == ss {
      forall i | 0 <= i < |ss|
        ensures kept[i] == ss[i] && |ss[i]| < 0x8000
      {
        assert cut[i] == Truncated(kept[i]);
      }
    }
    if kept == ss && forall s | s in ss :: |s| < 0x8000 {
      forall i | 0 <= i < |ss|
        ensures cut[i] == ss[i]
      {
        assert ss[i] in ss;
      }
    }
  }

  lemma {:induction false} KeptSize(ss: seq<string>)
    ensures |Kept(ss)| <= |ss|
    ensures forall i | 0 <= i < |Kept(ss)| :: |Kept(ss)[i]| <= |ss[i]|
  {
    if ss != [] { KeptSize(ss[1..]); }
  }

  lemma {:induction false} EndsTwice(ss: seq<string>)
    requires ss != []
    ensures var m := ClientEncode(ss); |m| >= 2 && m[|m| - 1] == NUL && m[|m| - 2] == NUL
  {
    if |ss| > 1 { EndsTwice(ss[1..]); }
  }

  /** Removing one owner's entries neither loses nor invents any other. */
  lemma {:induction false} OthersExact(es: seq<SessionEntry>, n: nat, pid: nat)
    requires n <= |es|
    ensures forall e :: e in Others(es, n, pid) <==> e in es[..n] && e.ownerPid != pid
  {
    if n != 0 {
      OthersExact(es, n - 1, pid);
      assert es[..n] == es[..n - 1] + [es[n - 1]];
    }
  }

  lemma ApartRotated(head: Link, links: seq<Link>, other: Link, chain: seq<Link>)
    requires Apart(head, links, other, chain) && chain != []
    ensures Apart(head, links, chain[0], chain[1..] + [other])
    ensures Apart(head, links, chain[0], chain[1..])
  {
    forall i, j | 0 <= i <= |links| && 0 <= j <= |chain|
      ensures At(head, links, i) != At(chain[0], chain[1..] + [other], j)
    {
      assert At(head, links, i) != At(other, chain, if j == |chain| then 0 else j + 1);
    }
    forall i, j | 0 <= i <= |links| && 0 <= j <= |chain| - 1
      ensures At(head, links, i) != At(chain[0], chain[1..], j)
    {
      assert At(head, links, i) != At(other, chain, j + 1);
    }
  }

  class SessionList {
    const head: Link
    ghost var links: seq<Link>
    ghost var pool: set<Link>

    /** The list head and every link are this list's own. */
    ghost predicate Owns()
      reads this
    {
      head in pool && forall i | 0 <= i < |links| :: links[i] in pool
    }

    ghost predicate Valid()
      reads this, pool
    {
      Owns() && Ring(head, links)
    }

    ghost function Contents(): seq<SessionEntry>
      reads this
    {
      Values(links)
    }

    constructor ()
      ensures Valid() && links == [] && fresh(pool)
    {
      head := new Link(SessionEntry(0, ""));
      links, pool := [], {head};
      new;
      InitializeListHead(head);
    }

    /** SessionBlacklistCleanupForPid. */
    method CleanupForPid(processId: nat) returns (ghost freed: seq<Link>)
      requires Valid()
      modifies this`links, pool
      ensures Valid()
      ensures links == OtherLinks(old(links), |old(links)|, processId)
      ensures Contents() == Others(old(Contents()), |old(Contents())|, processId)
      ensures freed == OwnLinks(old(links), |old(links)|, processId)
    {
      OthersValues(links, |links|, processId);
      OtherLinksSubset(links, |links|, processId);
      ghost var rest;
      rest, freed := Sweep(head, links, processId);
      links := rest;
    }

    /** The loop of lines 724-738: removal in the middle of the traversal. */
    static method Sweep(head: Link, ghost all: seq<Link>, processId: nat)
      returns (ghost ring: seq<Link>, ghost freed: seq<Link>)
      requires Ring(head, all)
      modifies head, all
      ensures ring == OtherLinks(all, |all|, processId) && Ring(head, ring)
      ensures freed == OwnLinks(all, |all|, processId)
    {
      freed := [];
      assert Joined(head, all, 0);
      var entry := head.flink;
      ghost var k := 0;
      ring := all;
      while entry != head
        invariant k <= |all| && entry == At(head, all, k + 1)
        invariant freed == OwnLinks(all, k, processId)
        invariant Ring(head, ring) && Swept(all, k, processId, ring)
        decreases |all| - k
      {
        ghost var m := SweptStep(head, all, k, processId, ring);
        assert Joined(head, ring, m + 1);
        var sbe, next := entry, entry.flink;
        if sbe.entry.ownerPid == processId {
          ring := RemoveEntryList(entry, head, ring, m);
          freed := freed + [entry];
        }
        entry, k := next, k + 1;
      }
    }

    /** The session half of Blacklisted. */
    method Lists(fold: char -> char, deviceInstancePath: string) returns (listed: bool)
      requires Valid()
      ensures listed <==> exists i | 0 <= i < |links| :: SameName(fold, links[i].entry.path, deviceInstancePath)
    {
      assert Joined(head, links, 0);
      var entry := head.flink;
      ghost var k := 0;
      while entry != head
        invariant k <= |links| && entry == At(head, links, k + 1)
        invariant forall i | 0 <= i < k :: !SameName(fold, links[i].entry.path, deviceInstancePath)
        decreases |links| - k
      {
        assert Joined(head, links, k + 1);
        if SameName(fold, entry.entry.path, deviceInstancePath) {
          assert entry == links[k];
          return true;
        }
        entry, k := entry.flink, k + 1;
      }
      return false;
    }

    /** Line 683 as written: the argument is a list head, which stays behind in the global ring. */
    method SpliceAsWritten(localHead: Link, ghost chain: seq<Link>)
      requires Valid() && Ring(localHead, chain) && Apart(head, links, localHead, chain)
      modifies head, links, localHead, chain
      ensures Ring(head, links + [localHead] + chain)
    {
      AppendTailList(head, localHead, links, chain);
    }

    /** The splice that line 679 announces: the entries, and only they, move to the global ring. */
    method Splice(localHead: Link, ghost chain: seq<Link>)
      requires Valid() && Ring(localHead, chain) && chain != []
      requires Apart(head, links, localHead, chain)
      modifies this`links, this`pool, pool, localHead, chain
      ensures Valid() && links == old(links) + chain && pool == old(pool) + set l | l in chain
    {
      assert Joined(localHead, chain, 0);
      var first: Link := localHead.flink;
      ghost var rest := chain[1..] + [localHead];
      Rotate(localHead, chain);
      ApartRotated(head, links, localHead, chain);
      ghost var without := RemoveEntryList(localHead, first, rest, |rest| - 1);
      assert without == chain[1..];
      forall i | 0 <= i <= |links|
        ensures Joined(head, links, i)
      {
        ghost var next := if i == |links| then 0 else i + 1;
        assert At(head, links, i) != At(first, rest, 0) && At(head, links, next) != At(first, rest, 0);
        assert At(head, links, i) != At(first, rest, |rest| - 1) && At(head, links, next) != At(first, rest, |rest| - 1);
        assert old(Joined(head, links, i));
      }
      AppendTailList(head, first, links, without);
      assert links + [first] + without == links + chain;
      links, pool := links + chain, pool + set l | l in chain;
    }

    /** The cleanup loop at lines 667-675. */
    static method FreeAll(localHead: Link, ghost built: seq<Link>) returns (ghost freed: seq<Link>)
      requires Ring(localHead, built)
      modifies localHead, built
      ensures Ring(localHead, []) && freed == built
    {
      freed := [];
      assert Joined(localHead, built, 0);
      var le := localHead.flink;
      ghost var ring, k := built, 0;
      while le != localHead
        invariant k <= |built| && le == At(localHead, built, k + 1)
        invariant Ring(localHead, ring)
        invariant freed == built[..k] && ring == built[k..]
        decreases |built| - k
      {
        assert ring[0] == le && At(localHead, ring, 2) == At(localHead, built, k + 2);
        assert Joined(localHead, ring, 1);
        var sbe := le;
        le := le.flink;
        ring := RemoveEntryList(sbe, localHead, ring, 0);
        assert ring == built[k + 1..];
        freed, k := freed + [built[k]], k + 1;
      }
      assert ring == [];
    }

    /** OnControlDeviceIoAddSessionBlacklist.  All entries of a request reach the list, or none. */
    method Add(callerPid: nat, inputBufferLength: nat, buffer: string, outcome: nat -> AddStatus)
      returns (status: AddStatus, ghost built: seq<Link>, ghost freed: seq<Link>)
      requires Valid() && |buffer| == inputBufferLength / 2
      modifies this`links, this`pool, pool
      ensures Valid() && fresh(built) && fresh(pool - old(pool))
      ensures status == AddResult(inputBufferLength, buffer, outcome)
      ensures status == Added ==>
        links == old(links) + built && Values(built) == OwnedBy(callerPid, Parsed(buffer)) && freed == []
      ensures status != Added ==> links == old(links) && freed == built
    {
      built, freed := [], [];
      if inputBufferLength < 4 || inputBufferLength % 2 != 0 {
        return Malformed, built, freed;
      }
      var totalChars := inputBufferLength / 2;
      if buffer[totalChars - 1] != NUL || buffer[totalChars - 2] != NUL {
        return Malformed, built, freed;
      }
      var localHead := new Link(SessionEntry(0, ""));
      InitializeListHead(localHead);
      status, built := BuildLocalList(localHead, callerPid, buffer, outcome);
      if status != Added {
        freed := FreeAll(localHead, built);
        return;
      }
      assert Joined(localHead, built, 0);
      assert Apart(head, links, localHead, built);
      if localHead.flink != localHead {
        Splice(localHead, built);
      } else {
        assert built == [];
      }
    }

    /** The same request with line 683 as written.  The head of the local list, a variable of the
        call, is left in the global ring unless the request lists no path at all, and then only does
        the ring hold the entries built and nothing else. */
    method AddAsWritten(callerPid: nat, inputBufferLength: nat, buffer: string, outcome: nat -> AddStatus)
      returns (status: AddStatus, ghost built: seq<Link>, ghost localHead: Link?)
      requires Valid() && |buffer| == inputBufferLength / 2
      modifies this`links, this`pool, pool
      ensures Valid() && fresh(pool - old(pool)) && pool >= old(pool)
      ensures status == AddResult(inputBufferLength, buffer, outcome)
      ensures status != Added ==> links == old(links)
      ensures status == Added ==>
        && localHead != null && fresh(localHead) && fresh(built) && localHead !in built
        && Values(built) == OwnedBy(callerPid, Parsed(buffer))
        && links == (if Parsed(buffer) == [] then old(links) else old(links) + [localHead] + built)
        && (Ring(head, old(links) + built) <==> Parsed(buffer) == [])
    {
      built, localHead := [], null;
      if inputBufferLength < 4 || inputBufferLength % 2 != 0 {
        return Malformed, built, localHead;
      }
      var totalChars := inputBufferLength / 2;
      if buffer[totalChars - 1] != NUL || buffer[totalChars - 2] != NUL {
        return Malformed, built, localHead;
      }
      var local := new Link(SessionEntry(0, ""));
      localHead := local;
      InitializeListHead(local);
      status, built := BuildLocalList(local, callerPid, buffer, outcome);
      if status != Added {
        ghost var freed := FreeAll(local, built);
        return;
      }
      CommitAsWritten(local, built);
    }

    /** Lines 680-685, with line 683 as written. */
    method CommitAsWritten(localHead: Link, ghost built: seq<Link>)
      requires Valid() && Ring(localHead, built) && Apart(head, links, localHead, built)
      modifies this`links, this`pool, pool, localHead, built
      ensures Valid() && old(pool) <= pool <= old(pool) + {localHead} + set l | l in built
      ensures links == if built == [] then old(links) else old(links) + [localHead] + built
      ensures Ring(head, old(links) + built) <==> built == []
    {
      assert Joined(localHead, built, 0);
      if localHead.flink != localHead {
        SpliceAsWritten(localHead, built);
        ghost var ring := links + [localHead] + built;
        assert |ring| == |links + built| + 1;
        if Ring(head, links + built) {
          RingUnique(head, ring, links + built);
          assert false;
        }
        links, pool := ring, pool + {localHead} + set l | l in built;
      } else {
        assert built == [] && links + built == links;
      }
    }

    /** Lines 644-659. */
    static method AddLocally(localHead: Link, callerPid: nat, path: string, ghost built: seq<Link>)
      returns (entry: Link)
      requires Ring(localHead, built)
      modifies localHead, built
      ensures fresh(entry) && entry.entry == SessionEntry(callerPid, path)
      ensures Ring(localHead, built + [entry])
    {
      entry := new Link(SessionEntry(callerPid, path));
      InsertTailList(localHead, entry, built);
    }

    /** Lines 630-642: a terminator is always found, and the path is as long as its length says. */
    static method ReadPath(buffer: string, current: nat) returns (path: string, next: nat)
      requires current < |buffer| && buffer[current] != NUL && buffer[|buffer| - 1] == NUL
      ensures current < next <= |buffer|
      ensures TruncatedFrom(buffer, current) == [path] + TruncatedFrom(buffer, next)
    {
      var len := Wcsnlen(buffer, current);
      assert current + len < |buffer|;
      var sizes := SizesFor(len);
      SizesWrap(len);
      SubIsSlice(buffer, current, len);
      path, next := buffer[current..current + sizes.length / 2], current + len + 1;
      assert path == Truncated(buffer[current..current + len]);
    }

    /** The parse loop at lines 626-662.  It never meets a string without a terminator. */
    static method BuildLocalList(localHead: Link, callerPid: nat, buffer: string, outcome: nat -> AddStatus)
      returns (status: AddStatus, ghost built: seq<Link>)
      requires Ring(localHead, []) && buffer != [] && buffer[|buffer| - 1] == NUL
      modifies localHead
      ensures fresh(built) && Ring(localHead, built)
      ensures status == FirstFailure(|Parsed(buffer)|, outcome)
      ensures status == Added ==> Values(built) == OwnedBy(callerPid, Parsed(buffer))
    {
      ghost var all := Parsed(buffer);
      ghost var done: seq<string> := [];
      built, status := [], Added;
      var current, index := 0, 0;
      while status == Added && current < |buffer| && buffer[current] != NUL
        invariant 0 <= current <= |buffer|
        invariant fresh(built) && Ring(localHead, built)
        invariant 0 <= index == |done| == |built|
        invariant forall i | 0 <= i < |done| :: built[i].entry == SessionEntry(callerPid, done[i])
        invariant status == Added ==> FirstFailure(index, outcome) == Added
        invariant done + TruncatedFrom(buffer, current) == all
        invariant status != Added ==> status == FirstFailure(|all|, outcome)
        decreases |buffer| - current + if status == Added then 1 else 0
      {
        var path, next := ReadPath(buffer, current);
        Assoc(done, [path], TruncatedFrom(buffer, next));
        status := outcome(index);
        if status != Added {
          FirstFailureStays(index + 1, |all|, outcome);
        } else {
          var entry := AddLocally(localHead, callerPid, path, built);
          built := built + [entry];
          done, index := done + [path], index + 1;
          current := next;
        }
      }
    }
  }
}
