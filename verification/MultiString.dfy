/** The MULTI_SZ codecs on both sides of the IOCTL boundary: HidHideCLI/src/Utils.cpp for the
    client, HidHide/src/Config.c for the driver, and the registry value in between. */
module MultiString {
  import opened Names
  import opened Seqs

  // ----- What a multi-string holds -----

  /** What a multi-string can carry faithfully: no empty string and no embedded terminator. */
  predicate Clean(s: string)
  {
    s != [] && NUL !in s
  }

  predicate AllClean(ss: seq<string>)
  {
    forall i | 0 <= i < |ss| :: Clean(ss[i])
  }

  /** Every string followed by its terminator, and the list terminator. */
  function Encode(ss: seq<string>): (m: string)
    ensures m != []
  {
    if ss == [] then [NUL] else ss[0] + [NUL] + Encode(ss[1..])
  }

  /** wcsnlen of what starts at `i`. */
  function Wcsnlen(m: string, i: nat): (n: nat)
    requires i <= |m|
    ensures i + n <= |m|
    ensures if i + n < |m| then m[i + n] == NUL else n != 0 ==> m[|m| - 1] != NUL
    decreases |m| - i
  {
    if i == |m| || m[i] == NUL then 0 else 1 + Wcsnlen(m, i + 1)
  }

  function AddUnlessEmpty(s: string, ss: seq<string>): seq<string>
  {
    if s == [] then ss else [s] + ss
  }

  /** The client's reading: all non-empty strings that start at `i` or later. */
  function StringsFrom(m: string, i: nat): seq<string>
    requires i <= |m|
    decreases |m| - i
  {
    var n := Wcsnlen(m, i);
    if i + n == |m| then []
    else AddUnlessEmpty(Sub(m, i, n), StringsFrom(m, i + n + 1))
  }

  /** The driver's reading: the strings from `i` on, up to an empty or unterminated one. */
  function PathsFrom(m: string, i: nat): seq<string>
    requires i <= |m|
    decreases |m| - i
  {
    var n := Wcsnlen(m, i);
    if n == 0 || i + n == |m| then [] else [Sub(m, i, n)] + PathsFrom(m, i + n + 1)
  }

  function ClientDecode(m: string): seq<string>
  {
    StringsFrom(m, 0)
  }

  /** A value of at most two characters (four bytes) counts as empty without being decoded. */
  function RegistryDecode(m: string): seq<string>
  {
    if |m| <= 2 then [] else PathsFrom(m, 0)
  }

  // ----- Reading one string -----

  lemma {:induction false} WcsnlenIs(m: string, i: nat, n: nat)
    requires i + n < |m| && m[i + n] == NUL
    requires forall j | i <= j < i + n :: m[j] != NUL
    ensures Wcsnlen(m, i) == n
    decreases n
  {
    if n != 0 { WcsnlenIs(m, i + 1, n - 1); }
  }

  lemma {:induction false} WcsnlenSkips(m: string, i: nat)
    requires i <= |m|
    ensures forall j | i <= j < i + Wcsnlen(m, i) :: m[j] != NUL
    decreases |m| - i
  {
    if i < |m| && m[i] != NUL { WcsnlenSkips(m, i + 1); }
  }

  lemma {:induction false} WcsnlenShift(m: string, d: nat, b: string, i: nat)
    requires IsTail(m, d, b) && i <= |b|
    ensures Wcsnlen(m, d + i) == Wcsnlen(b, i)
    decreases |b| - i
  {
    if i < |b| {
      assert m[d + i] == b[i];
      if b[i] != NUL { WcsnlenShift(m, d, b, i + 1); }
    }
  }

  /** Neither reader looks back. */
  lemma {:induction false} StringsShift(m: string, d: nat, b: string, i: nat)
    requires IsTail(m, d, b) && i <= |b|
    ensures StringsFrom(m, d + i) == StringsFrom(b, i)
    decreases |b| - i
  {
    var next := i + Wcsnlen(b, i) + 1;
    if next <= |b| { StringsShift(m, d, b, next); }
    StringsShiftOne(m, d, b, i);
  }

  lemma StringsShiftOne(m: string, d: nat, b: string, i: nat)
    requires IsTail(m, d, b) && i <= |b|
    requires i + Wcsnlen(b, i) < |b| ==>
               StringsFrom(m, d + i + Wcsnlen(b, i) + 1) == StringsFrom(b, i + Wcsnlen(b, i) + 1)
    ensures StringsFrom(m, d + i) == StringsFrom(b, i)
  {
    WcsnlenShift(m, d, b, i);
    SubShift(m, d, b, i, Wcsnlen(b, i));
  }

  lemma {:induction false} PathsShift(m: string, d: nat, b: string, i: nat)
    requires IsTail(m, d, b) && i <= |b|
    ensures PathsFrom(m, d + i) == PathsFrom(b, i)
    decreases |b| - i
  {
    var next := i + Wcsnlen(b, i) + 1;
    if next <= |b| { PathsShift(m, d, b, next); }
    PathsShiftOne(m, d, b, i);
  }

  lemma PathsShiftOne(m: string, d: nat, b: string, i: nat)
    requires IsTail(m, d, b) && i <= |b|
    requires i + Wcsnlen(b, i) < |b| ==>
               PathsFrom(m, d + i + Wcsnlen(b, i) + 1) == PathsFrom(b, i + Wcsnlen(b, i) + 1)
    ensures PathsFrom(m, d + i) == PathsFrom(b, i)
  {
    WcsnlenShift(m, d, b, i);
    SubShift(m, d, b, i, Wcsnlen(b, i));
  }

  lemma ReadCons(s: string, t: string)
    requires NUL !in s
    ensures StringsFrom(s + [NUL] + t, 0) == if s == [] then StringsFrom(t, 0) else [s] + StringsFrom(t, 0)
    ensures PathsFrom(s + [NUL] + t, 0) == if s == [] then [] else [s] + PathsFrom(t, 0)
  {
    var m := s + [NUL] + t;
    WcsnlenIs(m, 0, |s|);
    Assoc(s, [NUL], t);
    SubOfPrefix(s, [NUL] + t);
    TailOfSum(s + [NUL], t);
    StringsShift(m, |s| + 1, t, 0);
    PathsShift(m, |s| + 1, t, 0);
  }

  /** Text without a terminator holds no string for either reader, and a registry value of at most
      four bytes none whatever it holds.  With ReadCons this says what any value holds. */
  lemma ReadNothing(t: string)
    ensures NUL !in t ==> StringsFrom(t, 0) == [] && PathsFrom(t, 0) == []
    ensures 2 * |t| <= 4 ==> RegistryDecode(t) == []
    ensures 2 * |t| > 4 ==> RegistryDecode(t) == PathsFrom(t, 0)
  {
    if NUL !in t { WcsnlenWhole(t, 0); }
  }

  lemma {:induction false} WcsnlenWhole(t: string, i: nat)
    requires NUL !in t && i <= |t|
    ensures Wcsnlen(t, i) == |t| - i
    decreases |t| - i
  {
    if i < |t| {
      assert t[i] in t;
      WcsnlenWhole(t, i + 1);
    }
  }

  lemma {:induction false} PathsClean(m: string, i: nat)
    requires i <= |m|
    ensures AllClean(PathsFrom(m, i))
    decreases |m| - i
  {
    var n := Wcsnlen(m, i);
    if n != 0 && i + n < |m| {
      PathsClean(m, i + n + 1);
      WcsnlenSkips(m, i);
      SubIsSlice(m, i, n);
    }
  }

  /** Whatever is in the registry, the driver only ever holds clean strings. */
  lemma RegistryDecodeClean(m: string)
    ensures AllClean(RegistryDecode(m))
  {
    PathsClean(m, 0);
  }

  // ----- The driver's encoding -----

  lemma {:induction false} EncodeSize(ss: seq<string>)
    ensures |Encode(ss)| >= 1 + |ss|
    ensures ss != [] && AllClean(ss) ==> |Encode(ss)| > 2
  {
    if ss != [] { EncodeSize(ss[1..]); }
  }

  lemma {:induction false} EncodeReads(ss: seq<string>)
    requires AllClean(ss)
    ensures StringsFrom(Encode(ss), 0) == ss && PathsFrom(Encode(ss), 0) == ss
  {
    if ss != [] {
      ReadCons(ss[0], Encode(ss[1..]));
      EncodeReads(ss[1..]);
    }
  }

  /** On the driver's own encoding both readers agree, and give the list back. */
  lemma DriverRoundTrip(ss: seq<string>)
    requires AllClean(ss)
    ensures ClientDecode(Encode(ss)) == ss
    ensures RegistryDecode(Encode(ss)) == ss
  {
    EncodeReads(ss);
    EncodeSize(ss);
  }

  // ----- The client: Utils.cpp -----

  function Repeat<T>(k: nat, x: T): (r: seq<T>)
    ensures |r| == k && forall i | 0 <= i < k :: r[i] == x
  {
    if k == 0 then [] else [x] + Repeat(k - 1, x)
  }

  /** What wcsncpy_s leaves in the |s| + 1 zeroed characters reserved for `s`. */
  function Padded(s: string): (p: string)
    ensures |p| == |s| + 1
  {
    CString(s) + Repeat(|s| + 1 - |CString(s)|, NUL)
  }

  function ClientEncode(ss: seq<string>): (m: string)
    ensures m != []
  {
    if ss == [] then [NUL] else Padded(ss[0]) + ClientEncode(ss[1..])
  }

  method StringListToMultiString(strings: seq<string>) returns (result: string)
    ensures result == ClientEncode(strings)
  {
    result := [];
    for i := 0 to |strings|
      invariant result + ClientEncode(strings[i..]) == ClientEncode(strings)
    {
      var appendSize, copied := |strings[i]| + 1, CString(strings[i]);
      var field := Repeat(appendSize, NUL);
      field := copied + [NUL] + field[|copied| + 1..];
      assert field == Padded(strings[i]);
      assert strings[i..][1..] == strings[i + 1..];
      Assoc(result, field, ClientEncode(strings[i + 1..]));
      result := result + field;
    }
    result := result + [NUL];
  }

  /** One terminator met: the piece in front of it, unless it is empty, and the rest behind it. */
  lemma StringsAt(m: string, start: nat, index: nat)
    requires start <= index < |m| && m[index] == NUL && Wcsnlen(m, start) == index - start
    ensures StringsFrom(m, start) ==
            if index == start then StringsFrom(m, index + 1) else [m[start..index]] + StringsFrom(m, index + 1)
  {
    SubIsSlice(m, start, index - start);
  }

  method MultiStringToStringList(multiString: string) returns (result: seq<string>)
    ensures result == ClientDecode(multiString)
  {
    result := [];
    var index, start, size := 0, 0, |multiString|;
    EmptyLeft(StringsFrom(multiString, 0));
    while index < size
      invariant 0 <= start <= index <= size
      invariant Wcsnlen(multiString, start) == index - start + Wcsnlen(multiString, index)
      invariant result + StringsFrom(multiString, start) == StringsFrom(multiString, 0)
    {
      if multiString[index] == NUL {
        var piece := multiString[start..index];
        StringsAt(multiString, start, index);
        if piece != [] {
          Assoc(result, [piece], StringsFrom(multiString, index + 1));
          result := result + [piece];
        }
        start := index + 1;
      }
      index := index + 1;
    }
    EmptyRight(result);
  }

  lemma PaddedIsTerminated(s: string)
    requires NUL !in s
    ensures Padded(s) == s + [NUL]
  {
  }

  /** Client and driver write the same characters for strings without embedded terminators. */
  lemma {:induction false} SameEncoding(ss: seq<string>)
    requires forall i | 0 <= i < |ss| :: NUL !in ss[i]
    ensures ClientEncode(ss) == Encode(ss)
  {
    if ss != [] {
      PaddedIsTerminated(ss[0]);
      SameEncoding(ss[1..]);
    }
  }

  lemma {:induction false} ReadGap(k: nat, t: string)
    ensures StringsFrom(Repeat(k, NUL) + t, 0) == StringsFrom(t, 0)
    ensures PathsFrom(Repeat(k, NUL) + t, 0) == if k == 0 then PathsFrom(t, 0) else []
  {
    if k == 0 {
      EmptyLeft(t);
    } else {
      ReadGap(k - 1, t);
      Assoc([NUL], Repeat(k - 1, NUL), t);
      EmptyLeft([NUL]);
      ReadCons([], Repeat(k - 1, NUL) + t);
    }
  }

  /** Reading a padded string: what precedes its first terminator, then a gap. */
  lemma ReadPadded(s: string, t: string)
    ensures StringsFrom(Padded(s) + t, 0) ==
            if CString(s) == [] then StringsFrom(t, 0) else [CString(s)] + StringsFrom(t, 0)
    ensures PathsFrom(Padded(s) + t, 0) ==
            if CString(s) == [] then [] else if NUL in s then [CString(s)] else [s] + PathsFrom(t, 0)
  {
    var c, k := CString(s), |s| - |CString(s)|;
    var gap := Repeat(k, NUL);
    assert Repeat(k + 1, NUL) == [NUL] + gap;
    Assoc(c, [NUL], gap);
    Assoc(c + [NUL], gap, t);
    ReadCons(c, gap + t);
    ReadGap(k, t);
  }

  /** What survives the trip to the registry: everything before the first string that is not
      clean, and of that string the part before its embedded terminator. */
  function Kept(ss: seq<string>): seq<string>
  {
    if ss == [] || CString(ss[0]) == [] then []
    else if NUL in ss[0] then [CString(ss[0])]
    else [ss[0]] + Kept(ss[1..])
  }

  lemma {:induction false} PathsKept(ss: seq<string>)
    ensures PathsFrom(ClientEncode(ss), 0) == Kept(ss)
  {
    if ss != [] {
      ReadPadded(ss[0], ClientEncode(ss[1..]));
      PathsKept(ss[1..]);
    }
  }

  lemma ClientEncodeSize(ss: seq<string>)
    ensures |ClientEncode(ss)| <= 2 ==> ss == [] || ss == [[]]
  {
    if |ss| > 1 { assert |ClientEncode(ss[1..])| > |ClientEncode(ss[2..])|; }
  }

  /** The driver's list, for every list a client can send. */
  lemma RegistryKeeps(ss: seq<string>)
    ensures RegistryDecode(ClientEncode(ss)) == Kept(ss)
  {
    PathsKept(ss);
    ClientEncodeSize(ss);
  }

  lemma {:induction false} KeptClean(ss: seq<string>)
    ensures Kept(ss) == ss <==> AllClean(ss)
  {
    if ss != [] {
      KeptClean(ss[1..]);
      if Kept(ss) == ss && Clean(ss[0]) {
        TailOfCons(ss[0], Kept(ss[1..]));
      }
      assert AllClean(ss) <==> Clean(ss[0]) && AllClean(ss[1..]);
    }
  }

  /** The registry gives the client's list back exactly when every string in it is clean. */
  lemma RegistryRoundTrip(ss: seq<string>)
    ensures RegistryDecode(ClientEncode(ss)) == ss <==> AllClean(ss)
  {
    RegistryKeeps(ss);
    KeptClean(ss);
  }

  /** The non-empty strings among `ss`, each cut at its first terminator. */
  function Cut(ss: seq<string>): seq<string>
  {
    if ss == [] then []
    else if CString(ss[0]) == [] then Cut(ss[1..])
    else [CString(ss[0])] + Cut(ss[1..])
  }

  /** The client's own reader drops what is empty and cuts what embeds a terminator. */
  lemma {:induction false} ClientKeeps(ss: seq<string>)
    ensures ClientDecode(ClientEncode(ss)) == Cut(ss)
  {
    if ss == [] {
      assert StringsFrom([NUL], 1) == [];
    } else {
      ReadPadded(ss[0], ClientEncode(ss[1..]));
      ClientKeeps(ss[1..]);
    }
  }

  // ----- The driver's two-pass encoder: Config.c -----

  datatype EncodeStatus = Success | BufferTooSmall | InvalidParameter | BufferOverflow

  // NTSTRSAFE_MAX_CCH: the largest destination a strsafe copy accepts
  const STRSAFE_MAX_CCH := 0x7fff_ffff

  /** RtlStringCchCopyUnicodeStringEx with STRSAFE_NO_TRUNCATION, writing at `destination`. */
  method CopyUnicodeString(buffer: array<char>, destination: nat, cch: nat, source: string)
    returns (status: EncodeStatus, destinationEnd: nat, remaining: nat)
    requires destination + cch <= buffer.Length
    modifies buffer
    ensures status == if cch > STRSAFE_MAX_CCH then InvalidParameter
                      else if cch <= |source| then BufferOverflow else Success
    ensures status == InvalidParameter ==> buffer[..] == old(buffer[..])
    ensures status == BufferOverflow ==>
      && (cch > 0 ==> buffer[destination] == NUL)
      && forall k | 0 <= k < buffer.Length && (cch == 0 || k != destination) :: buffer[k] == old(buffer[k])
    ensures status == Success ==>
      && destinationEnd == destination + |source| && remaining == cch - |source|
      && (forall k | destination <= k < destinationEnd :: buffer[k] == source[k - destination])
      && buffer[destinationEnd] == NUL
      && (forall k | 0 <= k < buffer.Length && (k < destination || destinationEnd < k) :: buffer[k] == old(buffer[k]))
  {
    destinationEnd, remaining := destination, cch;
    if cch > STRSAFE_MAX_CCH {
      return InvalidParameter, destinationEnd, remaining;
    }
    if cch <= |source| {
      if 0 < cch {
        buffer[destination] := NUL;
      }
      return BufferOverflow, destinationEnd, remaining;
    }
    for i := 0 to |source|
      invariant forall k | destination <= k < destination + i :: buffer[k] == source[k - destination]
      invariant forall k | 0 <= k < buffer.Length && (k < destination || destination + i <= k) :: buffer[k] == old(buffer[k])
    {
      buffer[destination + i] := source[i];
    }
    destinationEnd, remaining := destination + |source|, cch - |source|;
    buffer[destinationEnd] := NUL;
    status := Success;
  }

  /** The first pass of HidHideCollectionToMultiString. */
  method NeededSize(collection: seq<string>) returns (neededSizeInCharacters: nat)
    ensures neededSizeInCharacters == |Encode(collection)|
  {
    neededSizeInCharacters := 0;
    for index := 0 to |collection|
      invariant neededSizeInCharacters + |Encode(collection[index..])| == |Encode(collection)|
    {
      assert collection[index..][1..] == collection[index + 1..];
      neededSizeInCharacters := neededSizeInCharacters + |collection[index]|;
      neededSizeInCharacters := neededSizeInCharacters + 1;
    }
    assert collection[|collection|..] == [];
    neededSizeInCharacters := neededSizeInCharacters + 1;
  }

  /** Where the `i`-th string starts in the encoding. */
  function Offset(ss: seq<string>, i: nat): nat
    requires i <= |ss|
  {
    if i == 0 then 0 else Offset(ss, i - 1) + |ss[i - 1]| + 1
  }

  lemma {:induction false} EncodedFrom(ss: seq<string>, i: nat)
    requires i <= |ss|
    ensures Offset(ss, i) <= |Encode(ss)| && Encode(ss)[Offset(ss, i)..] == Encode(ss[i..])
  {
    if i == 0 {
      assert ss[0..] == ss;
    } else {
      EncodedFrom(ss, i - 1);
      EncodedAt(Encode(ss), Offset(ss, i - 1), ss, i - 1);
    }
  }

  /** The `i`-th string and its terminator stand at its offset. */
  lemma EncodedString(ss: seq<string>, i: nat, m: string)
    requires i < |ss| && m == Encode(ss)
    ensures Offset(ss, i) + |ss[i]| < |m| && m[Offset(ss, i) + |ss[i]|] == NUL
    ensures forall k | Offset(ss, i) <= k < Offset(ss, i) + |ss[i]| :: m[k] == ss[i][k - Offset(ss, i)]
  {
    EncodedFrom(ss, i);
    EncodedAt(m, Offset(ss, i), ss, i);
  }

  lemma EncodedEnd(ss: seq<string>, m: string)
    requires m == Encode(ss)
    ensures Offset(ss, |ss|) + 1 == |m| && m[Offset(ss, |ss|)] == NUL
  {
    EncodedFrom(ss, |ss|);
    assert ss[|ss|..] == [] && m[Offset(ss, |ss|)..][0] == m[Offset(ss, |ss|)];
  }

  /** Its second pass.  `buffer` advances as an offset into the caller's memory. */
  method FillBuffer(collection: seq<string>, buffer: array<char>, bufferSizeInCharacters: nat)
    returns (status: EncodeStatus)
    requires |Encode(collection)| <= bufferSizeInCharacters <= buffer.Length
    modifies buffer
    ensures status == if collection != [] && bufferSizeInCharacters > STRSAFE_MAX_CCH then InvalidParameter else Success
    ensures status == Success ==>
      && (forall k | 0 <= k < |Encode(collection)| :: buffer[k] == Encode(collection)[k])
      && forall k | |Encode(collection)| <= k < buffer.Length :: buffer[k] == old(buffer[k])
    ensures status != Success ==> forall k | 0 <= k < buffer.Length :: buffer[k] == old(buffer[k])
  {
    var at, size := 0, bufferSizeInCharacters;
    ghost var m := Encode(collection);
    for index := 0 to |collection|
      invariant at == Offset(collection, index) <= |m| && at + size == bufferSizeInCharacters
      invariant 0 < index ==> bufferSizeInCharacters <= STRSAFE_MAX_CCH
      invariant forall k | 0 <= k < at :: buffer[k] == m[k]
      invariant forall k | 0 <= k < buffer.Length && at <= k :: buffer[k] == old(buffer[k])
    {
      EncodedString(collection, index, m);
      var copied, destinationEnd, remaining := CopyUnicodeString(buffer, at, size, collection[index]);
      if copied != Success {
        return copied;
      }
      at, size := destinationEnd + 1, remaining - 1;
    }
    EncodedEnd(collection, m);
    buffer[at] := NUL;
    status := Success;
  }

  /** HidHideCollectionToMultiString. */
  method CollectionToMultiString(collection: seq<string>, buffer: array?<char>, bufferSizeInCharacters: nat)
    returns (status: EncodeStatus, neededSizeInCharacters: nat)
    requires buffer != null ==> bufferSizeInCharacters <= buffer.Length
    modifies buffer
    ensures neededSizeInCharacters == |Encode(collection)|
    ensures buffer == null ==> status == Success
    ensures buffer != null ==>
      status == if bufferSizeInCharacters < |Encode(collection)| then BufferTooSmall
                else if collection != [] && bufferSizeInCharacters > 2147483647 then InvalidParameter
                else Success
    ensures buffer != null && status == Success ==>
      buffer[..] == Encode(collection) + old(buffer[|Encode(collection)|..])
    ensures buffer != null && status != Success ==> buffer[..] == old(buffer[..])
  {
    neededSizeInCharacters := NeededSize(collection);
    if buffer == null {
      return Success, neededSizeInCharacters;
    }
    if bufferSizeInCharacters < neededSizeInCharacters {
      return BufferTooSmall, neededSizeInCharacters;
    }
    status := FillBuffer(collection, buffer, bufferSizeInCharacters);
  }

  lemma EncodedAt(m: string, at: nat, ss: seq<string>, index: nat)
    requires index < |ss| && at <= |m| && m[at..] == Encode(ss[index..])
    ensures at + |ss[index]| < |m| && m[at + |ss[index]|] == NUL
    ensures forall k | 0 <= k < |ss[index]| :: m[at + k] == ss[index][k]
    ensures m[at + |ss[index]| + 1..] == Encode(ss[index + 1..])
  {
    var s, rest := ss[index], Encode(ss[index + 1..]);
    assert ss[index..][1..] == ss[index + 1..];
    assert m[at..] == s + [NUL] + rest;
    assert forall k | 0 <= k < |s| :: m[at + k] == m[at..][k];
    assert m[at + |s|] == m[at..][|s|];
    assert m[at + |s| + 1..] == m[at..][|s| + 1..];
  }
}
