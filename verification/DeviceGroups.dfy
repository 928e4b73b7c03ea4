/** HidHideCLI/src/HID.cpp: clustering HID devices by their base container, and the friendly name of
    each cluster. */
module DeviceGroups {
  import opened Seqs
  import opened CliParsing
  import opened CliRoundTrip
  import opened ConfigStore
  import opened Multimap

  datatype Device = Device(container: string, vendor: string, product: string, description: string, gaming: bool)

  function ContainerOf(d: Device): string
  {
    d.container
  }

  /** The multimap the enumeration fills. */
  function Clustered(devices: seq<Device>): seq<Device>
  {
    Collected(ContainerOf, devices, |devices|)
  }

  method Cluster(devices: seq<Device>) returns (ds: seq<Device>)
    ensures ds == Clustered(devices)
  {
    ds := [];
    for n := 0 to |devices|
      invariant ds == Collected(ContainerOf, devices, n)
    {
      ds := Emplace(ContainerOf, ds, devices[n]);
    }
  }

  // ----- One group per container -----

  /** Where the entries with `key` that start at `i` end. */
  function RunEnd(ds: seq<Device>, key: string, i: nat): (k: nat)
    requires i <= |ds|
    ensures i <= k <= |ds| && (k < |ds| ==> ds[k].container != key)
    ensures forall j | i <= j < k :: ds[j].container == key
    decreases |ds| - i
  {
    if i == |ds| || ds[i].container != key then i else RunEnd(ds, key, i + 1)
  }

  /** Where the group that starts at `i` ends; a device without a container stands alone. */
  function GroupEnd(ds: seq<Device>, i: nat): (k: nat)
    requires i < |ds|
    ensures i < k <= |ds|
  {
    if ds[i].container == "" then i + 1 else RunEnd(ds, ds[i].container, i + 1)
  }

  function GroupsFrom(ds: seq<Device>, i: nat): seq<seq<Device>>
    requires i <= |ds|
    decreases |ds| - i
  {
    if i == |ds| then [] else [ds[i..GroupEnd(ds, i)]] + GroupsFrom(ds, GroupEnd(ds, i))
  }

  function Groups(devices: seq<Device>): seq<seq<Device>>
  {
    GroupsFrom(Clustered(devices), 0)
  }

  function Flatten(groups: seq<seq<Device>>): seq<Device>
  {
    if groups == [] then [] else groups[0] + Flatten(groups[1..])
  }

  /** No group is cut in two at `i`. */
  ghost predicate Boundary(ds: seq<Device>, i: nat)
    requires i <= |ds|
  {
    i == 0 || i == |ds| || ds[i].container == "" || ds[i - 1].container != ds[i].container
  }

  lemma NoneBefore(ds: seq<Device>, i: nat, j: nat)
    requires Ordered(ContainerOf, ds) && j < i < |ds| && Boundary(ds, i) && ds[i].container != ""
    ensures ds[j].container != ds[i].container
  {
    BelowTotal(ds[i - 1].container, ds[i].container);
  }

  lemma NoneAfter(ds: seq<Device>, i: nat, k: nat, j: nat)
    requires Ordered(ContainerOf, ds) && i < k <= j < |ds| && ds[k].container != ds[i].container
    ensures ds[j].container != ds[i].container
  {
    BelowTotal(ds[k].container, ds[i].container);
  }

  lemma OnlyBetween(key: string, a: seq<Device>, b: seq<Device>, c: seq<Device>)
    requires forall j | 0 <= j < |a| :: a[j].container != key
    requires forall j | 0 <= j < |b| :: b[j].container == key
    requires forall j | 0 <= j < |c| :: c[j].container != key
    ensures Of(ContainerOf, key, a + b + c) == b
  {
    OfConcat(ContainerOf, key, a + b, c);
    OfConcat(ContainerOf, key, a, b);
    OfNone(ContainerOf, key, a);
    OfAll(ContainerOf, key, b);
    OfNone(ContainerOf, key, c);
    EmptyLeft(b);
    EmptyRight(b);
  }

  lemma OnlyAt(key: string, ds: seq<Device>, i: nat, k: nat)
    requires i <= k <= |ds|
    requires forall j | 0 <= j < |ds| :: ds[j].container == key <==> i <= j < k
    ensures Of(ContainerOf, key, ds) == ds[i..k]
  {
    assert ds == ds[..i] + ds[i..k] + ds[k..];
    OnlyBetween(key, ds[..i], ds[i..k], ds[k..]);
  }

  lemma EndIsBoundary(ds: seq<Device>, i: nat)
    requires i < |ds|
    ensures Boundary(ds, GroupEnd(ds, i))
    ensures ds[i].container != "" ==>
              forall j | i <= j < GroupEnd(ds, i) :: ds[j].container == ds[i].container
    ensures ds[i].container != "" && GroupEnd(ds, i) < |ds| ==> ds[GroupEnd(ds, i)].container != ds[i].container
  {
  }

  /** A group holds all devices of its container, and none of them are left behind it. */
  lemma GroupIsOf(ds: seq<Device>, i: nat)
    requires Ordered(ContainerOf, ds) && i < |ds| && Boundary(ds, i)
    ensures Boundary(ds, GroupEnd(ds, i))
    ensures ds[i].container != "" ==> Of(ContainerOf, ds[i].container, ds) == ds[i..GroupEnd(ds, i)]
    ensures ds[i].container != "" ==> forall j | GroupEnd(ds, i) <= j < |ds| :: ds[j].container != ds[i].container
  {
    var key, k := ds[i].container, GroupEnd(ds, i);
    EndIsBoundary(ds, i);
    if key != "" {
      forall j | 0 <= j < i ensures ds[j].container != key { NoneBefore(ds, i, j); }
      forall j | k <= j < |ds| ensures ds[j].container != key { NoneAfter(ds, i, k, j); }
      OnlyAt(key, ds, i, k);
    }
  }

  ghost predicate GoodGroup(ds: seq<Device>, group: seq<Device>)
  {
    group != [] && if group[0].container == "" then |group| == 1 else group == Of(ContainerOf, group[0].container, ds)
  }

  lemma {:induction false} GroupsFlatten(ds: seq<Device>, i: nat)
    requires i <= |ds|
    ensures Flatten(GroupsFrom(ds, i)) == ds[i..]
    decreases |ds| - i
  {
    if i < |ds| {
      var k := GroupEnd(ds, i);
      GroupsFlatten(ds, k);
      TailOfCons(ds[i..k], GroupsFrom(ds, k));
      assert ds[i..] == ds[i..k] + ds[k..];
    }
  }

  lemma {:induction false} GroupIsGood(ds: seq<Device>, i: nat, g: nat)
    requires Ordered(ContainerOf, ds) && i <= |ds| && Boundary(ds, i) && g < |GroupsFrom(ds, i)|
    ensures GoodGroup(ds, GroupsFrom(ds, i)[g])
    ensures exists j | i <= j < |ds| :: ds[j].container == GroupsFrom(ds, i)[g][0].container
    decreases |ds| - i
  {
    var k := GroupEnd(ds, i);
    GroupIsOf(ds, i);
    if g == 0 {
      assert GroupsFrom(ds, i)[0] == ds[i..k];
    } else {
      GroupIsGood(ds, k, g - 1);
      assert GroupsFrom(ds, i)[g] == GroupsFrom(ds, k)[g - 1];
    }
  }

  lemma GroupsIndex(ds: seq<Device>, i: nat, g: nat)
    requires i < |ds| && g < |GroupsFrom(ds, i)|
    ensures GroupsFrom(ds, i)[g] == if g == 0 then ds[i..GroupEnd(ds, i)] else GroupsFrom(ds, GroupEnd(ds, i))[g - 1]
  {
  }

  lemma FirstApart(ds: seq<Device>, i: nat, b: nat)
    requires Ordered(ContainerOf, ds) && i < |ds| && Boundary(ds, i) && 0 < b < |GroupsFrom(ds, i)|
    ensures Apart(ds[i..GroupEnd(ds, i)], GroupsFrom(ds, i)[b])
  {
    GroupIsOf(ds, i);
    GroupIsGood(ds, GroupEnd(ds, i), b - 1);
    GroupsIndex(ds, i, b);
  }

  lemma {:induction false} GroupsApart(ds: seq<Device>, i: nat, a: nat, b: nat)
    requires Ordered(ContainerOf, ds) && i <= |ds| && Boundary(ds, i)
    requires a < b < |GroupsFrom(ds, i)|
    ensures Apart(GroupsFrom(ds, i)[a], GroupsFrom(ds, i)[b])
    decreases |ds| - i
  {
    GroupsIndex(ds, i, a);
    GroupsIndex(ds, i, b);
    if a == 0 {
      FirstApart(ds, i, b);
    } else {
      EndIsBoundary(ds, i);
      GroupsApart(ds, GroupEnd(ds, i), a - 1, b - 1);
    }
  }

  /** For every enumeration: no device is lost or doubled, each group with a container holds all the
      enumeration's devices of that container, in order, no two groups share a container, and a
      device without one stands alone. */
  lemma Partition(devices: seq<Device>)
    ensures multiset(Flatten(Groups(devices))) == multiset(devices)
    ensures forall g | 0 <= g < |Groups(devices)| :: GoodGroup(devices, Groups(devices)[g])
    ensures forall a, b | 0 <= a < b < |Groups(devices)| :: Apart(Groups(devices)[a], Groups(devices)[b])
  {
    var n := |devices|;
    var ds := Clustered(devices);
    assert devices[..n] == devices;
    CollectedKeeps(ContainerOf, devices, n);
    CollectedOrdered(ContainerOf, devices, n);
    GroupsFlatten(ds, 0);
    assert ds[0..] == ds;
    forall g | 0 <= g < |Groups(devices)| ensures GoodGroup(devices, Groups(devices)[g]) {
      GroupIsGood(ds, 0, g);
      CollectedOf(ContainerOf, devices, n, Groups(devices)[g][0].container);
    }
    forall a, b | 0 <= a < b < |Groups(devices)| ensures Apart(Groups(devices)[a], Groups(devices)[b]) {
      GroupsApart(ds, 0, a, b);
    }
  }

  ghost predicate Apart(a: seq<Device>, b: seq<Device>)
  {
    a != [] && b != [] && (a[0].container == "" || a[0].container != b[0].container)
  }

  // ----- SplitStringAtWhitespaces, Utils.cpp -----

  predicate IsBlank(c: char)
  {
    c == ' '
  }

  function SplitFrom(value: string, begin: nat): seq<string>
    requires begin <= |value|
    decreases |value| - begin
  {
    var position := Find(IsBlank, value, begin);
    if position == |value| then (if begin < |value| then [value[begin..]] else [])
    else if begin != position then [value[begin..position]] + SplitFrom(value, position + 1)
    else SplitFrom(value, position + 1)
  }

  function Split(value: string): seq<string>
  {
    SplitFrom(value, 0)
  }

  method SplitStringAtWhitespaces(value: string) returns (result: seq<string>)
    ensures result == Split(value)
  {
    result := [];
    var begin := 0;
    EmptyLeft(Split(value));
    while true
      invariant 0 <= begin <= |value|
      invariant result + SplitFrom(value, begin) == Split(value)
      decreases |value| - begin
    {
      var position := FindIf(IsBlank, value, begin);
      if position == |value| {
        if begin < |value| {
          result := result + [value[begin..]];
        } else {
          EmptyRight(result);
        }
        break;
      }
      if begin != position {
        Assoc(result, [value[begin..position]], SplitFrom(value, position + 1));
        result := result + [value[begin..position]];
      }
      begin := position + 1;
    }
  }

  predicate Part(s: string)
  {
    s != [] && forall i | 0 <= i < |s| :: s[i] != ' '
  }

  lemma {:induction false} SplitParts(value: string, begin: nat)
    requires begin <= |value|
    ensures forall k | 0 <= k < |SplitFrom(value, begin)| :: Part(SplitFrom(value, begin)[k])
    decreases |value| - begin
  {
    var position := Find(IsBlank, value, begin);
    FindSkips(IsBlank, value, begin);
    if position < |value| { SplitParts(value, position + 1); }
  }

  lemma {:induction false} FindShift(m: string, d: nat, b: string, i: nat)
    requires IsTail(m, d, b) && i <= |b|
    ensures Find(IsBlank, m, d + i) == d + Find(IsBlank, b, i)
    decreases |b| - i
  {
    if i < |b| {
      assert m[d + i] == b[i];
      if b[i] != ' ' { FindShift(m, d, b, i + 1); }
    }
  }

  lemma SliceShift(m: string, d: nat, b: string, i: nat, k: nat)
    requires IsTail(m, d, b) && i <= k <= |b|
    ensures m[d + i..d + k] == b[i..k] && m[d + i..] == b[i..]
  {
  }

  lemma {:induction false} SplitShift(m: string, d: nat, b: string, i: nat)
    requires IsTail(m, d, b) && i <= |b|
    ensures SplitFrom(m, d + i) == SplitFrom(b, i)
    decreases |b| - i
  {
    var next := Find(IsBlank, b, i) + 1;
    if next <= |b| { SplitShift(m, d, b, next); }
    SplitShiftOne(m, d, b, i);
  }

  lemma SplitShiftOne(m: string, d: nat, b: string, i: nat)
    requires IsTail(m, d, b) && i <= |b|
    requires Find(IsBlank, b, i) < |b| ==>
               SplitFrom(m, d + Find(IsBlank, b, i) + 1) == SplitFrom(b, Find(IsBlank, b, i) + 1)
    ensures SplitFrom(m, d + i) == SplitFrom(b, i)
  {
    FindShift(m, d, b, i);
    SliceShift(m, d, b, i, Find(IsBlank, b, i));
  }

  lemma FindSpaced(a: string, b: string, i: nat)
    requires i <= |a|
    ensures Find(IsBlank, a + " " + b, i) == Find(IsBlank, a, i)
  {
    var whole, position := a + " " + b, Find(IsBlank, a, i);
    FindSkips(IsBlank, a, i);
    assert whole[|a|] == ' ' && forall k | 0 <= k < |a| :: whole[k] == a[k];
    FindIs(IsBlank, whole, i, position);
  }

  /** The rest behind the blank that separates `a` from `b`. */
  lemma SplitBehind(a: string, b: string)
    ensures SplitFrom(a + " " + b, |a| + 1) == Split(b)
  {
    TailOfSum(a + " ", b);
    SplitShift(a + " " + b, |a| + 1, b, 0);
  }

  /** Past the last blank of `a`, the text of `a` ends and that of `b` begins. */
  lemma SplitSpacedEnd(a: string, b: string, i: nat)
    requires i <= |a| && Find(IsBlank, a, i) == |a|
    ensures SplitFrom(a + " " + b, i) == SplitFrom(a, i) + Split(b)
  {
    FindSpaced(a, b, i);
    SplitBehind(a, b);
    Assoc(a, " ", b);
    PrefixSlice(a, " " + b, i);
    if i == |a| { EmptyLeft(Split(b)); }
  }

  lemma PrefixSlice(a: string, b: string, i: nat)
    requires i <= |a|
    ensures (a + b)[i..|a|] == a[i..]
  {
  }

  /** A blank between two texts separates what they split into. */
  lemma {:induction false} SplitSpaced(a: string, b: string, i: nat)
    requires i <= |a|
    ensures SplitFrom(a + " " + b, i) == SplitFrom(a, i) + Split(b)
    decreases |a| - i
  {
    var position := Find(IsBlank, a, i);
    if position == |a| {
      SplitSpacedEnd(a, b, i);
    } else {
      FindSpaced(a, b, i);
      assert (a + " " + b)[i..position] == a[i..position];
      SplitSpaced(a, b, position + 1);
      Assoc([a[i..position]], SplitFrom(a, position + 1), Split(b));
    }
  }

  // ----- Friendly names -----

  /** `same` stands for StrCmpLogicalW answering zero. */
  predicate Known(same: (string, string) -> bool, model: seq<string>, part: string)
  {
    exists i | 0 <= i < |model| :: same(model[i], part)
  }

  function Added(same: (string, string) -> bool, model: seq<string>, part: string): seq<string>
  {
    if Known(same, model, part) then model else model + [part]
  }

  /** The model after the first `n` parts have been offered. */
  function Merged(same: (string, string) -> bool, model: seq<string>, parts: seq<string>, n: nat): seq<string>
    requires n <= |parts|
  {
    if n == 0 then model else Added(same, Merged(same, model, parts, n - 1), parts[n - 1])
  }

  function MergedText(same: (string, string) -> bool, model: seq<string>, text: string): seq<string>
  {
    Merged(same, model, Split(text), |Split(text)|)
  }

  method MergeModelInformation(same: (string, string) -> bool, model: seq<string>, append: string)
    returns (result: seq<string>)
    ensures result == MergedText(same, model, append)
  {
    result := model;
    var parts := SplitStringAtWhitespaces(append);
    for n := 0 to |parts|
      invariant result == Merged(same, model, parts, n)
    {
      var i := 0;
      while i < |result| && !same(result[i], parts[n])
        invariant 0 <= i <= |result| && forall k | 0 <= k < i :: !same(result[k], parts[n])
      {
        i := i + 1;
      }
      if i == |result| {
        result := result + [parts[n]];
      }
    }
  }

  function WithDevice(same: (string, string) -> bool, model: seq<string>, d: Device): seq<string>
  {
    MergedText(same, MergedText(same, model, d.vendor), d.product)
  }

  /** The model information of the devices from `i` up to `k`. */
  function Model(same: (string, string) -> bool, ds: seq<Device>, i: nat, k: nat): seq<string>
    requires i <= k <= |ds|
  {
    if k == i then [] else WithDevice(same, Model(same, ds, i, k - 1), ds[k - 1])
  }

  ghost predicate Distinct(same: (string, string) -> bool, model: seq<string>)
  {
    && (forall i | 0 <= i < |model| :: Part(model[i]))
    && (forall i, j | 0 <= i < j < |model| :: !same(model[i], model[j]))
  }

  lemma {:induction false} MergedDistinct(same: (string, string) -> bool, model: seq<string>, parts: seq<string>, n: nat)
    requires n <= |parts| && Distinct(same, model) && forall i | 0 <= i < |parts| :: Part(parts[i])
    ensures Distinct(same, Merged(same, model, parts, n))
    ensures model <= Merged(same, model, parts, n)
  {
    if n != 0 { MergedDistinct(same, model, parts, n - 1); }
  }

  lemma {:induction false} ModelDistinct(same: (string, string) -> bool, ds: seq<Device>, i: nat, k: nat)
    requires i <= k <= |ds|
    ensures Distinct(same, Model(same, ds, i, k))
  {
    if k != i {
      var d, model := ds[k - 1], Model(same, ds, i, k - 1);
      ModelDistinct(same, ds, i, k - 1);
      SplitParts(d.vendor, 0);
      SplitParts(d.product, 0);
      MergedDistinct(same, model, Split(d.vendor), |Split(d.vendor)|);
      MergedDistinct(same, MergedText(same, model, d.vendor), Split(d.product), |Split(d.product)|);
    }
  }

  /** The first `n` parts, separated by blanks. */
  function Joined(model: seq<string>, n: nat): string
    requires n <= |model|
  {
    if n == 0 then []
    else if Joined(model, n - 1) == [] then model[n - 1]
    else Joined(model, n - 1) + " " + model[n - 1]
  }

  lemma SplitPart(part: string)
    requires Part(part)
    ensures Split(part) == [part]
  {
    FindIs(IsBlank, part, 0, |part|);
    assert part[0..] == part;
  }

  lemma {:induction false} JoinedSplits(model: seq<string>, n: nat)
    requires n <= |model| && forall i | 0 <= i < |model| :: Part(model[i])
    ensures Split(Joined(model, n)) == model[..n]
    ensures Joined(model, n) == [] <==> n == 0
  {
    if n != 0 {
      JoinedSplits(model, n - 1);
      SplitPart(model[n - 1]);
      if n > 1 {
        SplitSpaced(Joined(model, n - 1), model[n - 1], 0);
      }
      assert model[..n] == model[..n - 1] + [model[n - 1]];
    }
  }

  /** The name of the group that runs from `i` up to `k`. */
  function FriendlyName(same: (string, string) -> bool, ds: seq<Device>, i: nat, k: nat): string
    requires i < k <= |ds|
  {
    var model := Model(same, ds, i, k);
    var name := Joined(model, |model|);
    if name == [] then ds[k - 1].description else name
  }

  /** A name built from model information splits back into exactly that information, which has no
      duplicates; without any, the last device's description stands in. */
  lemma NameSplitsBack(same: (string, string) -> bool, ds: seq<Device>, i: nat, k: nat)
    requires i < k <= |ds|
    ensures var model := Model(same, ds, i, k);
      && Distinct(same, model)
      && (model != [] ==> Split(FriendlyName(same, ds, i, k)) == model)
      && (model == [] ==> FriendlyName(same, ds, i, k) == ds[k - 1].description)
  {
    var model := Model(same, ds, i, k);
    ModelDistinct(same, ds, i, k);
    JoinedSplits(model, |model|);
    assert model[..|model|] == model;
  }

  // ----- A second account of the name: which pieces of the devices' texts it keeps -----

  /** The pieces of vendor and product of the devices from `i` up to `k`, device by device. */
  function Pieces(ds: seq<Device>, i: nat, k: nat): seq<string>
    requires i <= k <= |ds|
  {
    if k == i then [] else Pieces(ds, i, k - 1) + (Split(ds[k - 1].vendor) + Split(ds[k - 1].product))
  }

  /** Each piece is kept unless one kept before it is the same. */
  ghost predicate KeepsFirst(same: (string, string) -> bool, pieces: seq<string>, keep: seq<bool>)
  {
    && |keep| == |pieces|
    && forall n | 0 <= n < |pieces| :: keep[n] <==> !SeenBefore(same, pieces, keep, n, pieces[n])
  }

  ghost predicate SeenBefore(same: (string, string) -> bool, pieces: seq<string>, keep: seq<bool>, n: nat, x: string)
    requires n <= |pieces| && |keep| == |pieces|
  {
    exists m | 0 <= m < n :: keep[m] && same(pieces[m], x)
  }

  /** The kept ones among the first `n` pieces, in order. */
  function Selected(pieces: seq<string>, keep: seq<bool>, n: nat): seq<string>
    requires n <= |pieces| && |keep| == |pieces|
  {
    if n == 0 then []
    else if keep[n - 1] then Selected(pieces, keep, n - 1) + [pieces[n - 1]]
    else Selected(pieces, keep, n - 1)
  }

  lemma {:induction false} SelectedPrefix(pieces: seq<string>, keep: seq<bool>, x: string, b: bool, n: nat)
    requires n <= |pieces| && |keep| == |pieces|
    ensures Selected(pieces + [x], keep + [b], n) == Selected(pieces, keep, n)
  {
    if n != 0 { SelectedPrefix(pieces, keep, x, b, n - 1); }
  }

  lemma {:induction false} KnownIfSeen(same: (string, string) -> bool, pieces: seq<string>, keep: seq<bool>, n: nat, x: string)
    requires n <= |pieces| && |keep| == |pieces|
    ensures Known(same, Selected(pieces, keep, n), x) <==> SeenBefore(same, pieces, keep, n, x)
  {
    if n != 0 {
      KnownIfSeen(same, pieces, keep, n - 1, x);
      if keep[n - 1] {
        KnownMore(same, Selected(pieces, keep, n - 1), pieces[n - 1], x);
      }
    }
  }

  lemma KnownMore(same: (string, string) -> bool, model: seq<string>, part: string, x: string)
    ensures Known(same, model + [part], x) <==> Known(same, model, x) || same(part, x)
  {
    var more := model + [part];
    assert more[|model|] == part && forall i | 0 <= i < |model| :: more[i] == model[i];
  }

  /** A model made of the kept pieces. */
  ghost predicate Picks(same: (string, string) -> bool, model: seq<string>, pieces: seq<string>, keep: seq<bool>)
  {
    KeepsFirst(same, pieces, keep) && model == Selected(pieces, keep, |pieces|)
  }

  lemma PickNext(same: (string, string) -> bool, model: seq<string>, pieces: seq<string>, keep: seq<bool>, x: string)
    returns (more: seq<bool>)
    requires Picks(same, model, pieces, keep)
    ensures Picks(same, Added(same, model, x), pieces + [x], more)
  {
    var n := |pieces|;
    more := keep + [!Known(same, model, x)];
    KnownIfSeen(same, pieces, keep, n, x);
    SelectedPrefix(pieces, keep, x, more[n], n);
    forall j | 0 <= j <= n
      ensures SeenBefore(same, pieces + [x], more, j, (pieces + [x])[j]) <==> SeenBefore(same, pieces, keep, j, (pieces + [x])[j])
    {
      SeenPrefix(same, pieces, keep, x, more[n], j, (pieces + [x])[j]);
    }
  }

  lemma SeenPrefix(same: (string, string) -> bool, pieces: seq<string>, keep: seq<bool>, x: string, b: bool, n: nat, y: string)
    requires n <= |pieces| && |keep| == |pieces|
    ensures SeenBefore(same, pieces + [x], keep + [b], n, y) <==> SeenBefore(same, pieces, keep, n, y)
  {
    var p, k := pieces + [x], keep + [b];
    assert forall m | 0 <= m < n :: p[m] == pieces[m] && k[m] == keep[m];
  }

  lemma {:induction false} MergedPicks(same: (string, string) -> bool, model: seq<string>, pieces: seq<string>, keep: seq<bool>,
                                       parts: seq<string>, n: nat) returns (more: seq<bool>)
    requires Picks(same, model, pieces, keep) && n <= |parts|
    ensures Picks(same, Merged(same, model, parts, n), pieces + parts[..n], more)
  {
    if n == 0 {
      EmptyRight(pieces);
      more := keep;
    } else {
      var before := MergedPicks(same, model, pieces, keep, parts, n - 1);
      more := PickNext(same, Merged(same, model, parts, n - 1), pieces + parts[..n - 1], before, parts[n - 1]);
      assert pieces + parts[..n - 1] + [parts[n - 1]] == pieces + parts[..n];
    }
  }

  lemma TextPicks(same: (string, string) -> bool, model: seq<string>, pieces: seq<string>, keep: seq<bool>, text: string)
    returns (more: seq<bool>)
    requires Picks(same, model, pieces, keep)
    ensures Picks(same, MergedText(same, model, text), pieces + Split(text), more)
  {
    more := MergedPicks(same, model, pieces, keep, Split(text), |Split(text)|);
    assert Split(text)[..|Split(text)|] == Split(text);
  }

  lemma {:induction false} ModelPicks(same: (string, string) -> bool, ds: seq<Device>, i: nat, k: nat)
    returns (keep: seq<bool>)
    requires i <= k <= |ds|
    ensures Picks(same, Model(same, ds, i, k), Pieces(ds, i, k), keep)
  {
    if k == i {
      keep := [];
    } else {
      var d, pieces := ds[k - 1], Pieces(ds, i, k - 1);
      keep := ModelPicks(same, ds, i, k - 1);
      keep := TextPicks(same, Model(same, ds, i, k - 1), pieces, keep, d.vendor);
      keep := TextPicks(same, MergedText(same, Model(same, ds, i, k - 1), d.vendor), pieces + Split(d.vendor), keep, d.product);
      Assoc(pieces, Split(d.vendor), Split(d.product));
    }
  }

  /** The characters of all parts and of one blank between any two. */
  function Spread(parts: seq<string>): nat
  {
    if parts == [] then 0 else Spread(parts[..|parts| - 1]) + |parts[|parts| - 1]| + if |parts| == 1 then 0 else 1
  }

  lemma {:induction false} JoinedSpread(model: seq<string>, n: nat)
    requires n <= |model| && forall i | 0 <= i < |model| :: Part(model[i])
    ensures |Joined(model, n)| == Spread(model[..n])
  {
    if n != 0 {
      JoinedSpread(model, n - 1);
      JoinedSplits(model, n - 1);
      assert model[..n][..n - 1] == model[..n - 1];
    }
  }

  /** The name of a group: the description of its last device if no text of any of its devices has a
      piece, and otherwise the pieces not the same as an earlier one, with one blank between any two. */
  ghost predicate NamedBy(same: (string, string) -> bool, name: string, group: seq<Device>)
  {
    && group != []
    && var pieces := Pieces(group, 0, |group|);
       if pieces == [] then name == group[|group| - 1].description
       else
         && |name| == Spread(Split(name))
         && exists keep :: KeepsFirst(same, pieces, keep) && Split(name) == Selected(pieces, keep, |pieces|)
  }

  lemma {:induction false} PiecesOfSlice(ds: seq<Device>, group: seq<Device>, i: nat, n: nat)
    requires n <= |group| && i + |group| <= |ds| && forall j | 0 <= j < |group| :: group[j] == ds[i + j]
    ensures Pieces(group, 0, n) == Pieces(ds, i, i + n)
  {
    if n != 0 {
      PiecesOfSlice(ds, group, i, n - 1);
      assert group[n - 1] == ds[i + n - 1];
    }
  }

  lemma GroupIsNamed(same: (string, string) -> bool, ds: seq<Device>, i: nat, k: nat)
    requires i < k <= |ds|
    ensures NamedBy(same, FriendlyName(same, ds, i, k), ds[i..k])
  {
    var group := ds[i..k];
    PiecesOfSlice(ds, group, i, k - i);
    NamedByPieces(same, ds, i, k);
    assert group[|group| - 1] == ds[k - 1] && Pieces(group, 0, |group|) == Pieces(ds, i, k);
  }

  lemma NamedByPieces(same: (string, string) -> bool, ds: seq<Device>, i: nat, k: nat)
    requires i < k <= |ds|
    ensures var pieces, name := Pieces(ds, i, k), FriendlyName(same, ds, i, k);
      if pieces == [] then name == ds[k - 1].description
      else
        && |name| == Spread(Split(name))
        && exists keep :: KeepsFirst(same, pieces, keep) && Split(name) == Selected(pieces, keep, |pieces|)
  {
    var model, pieces := Model(same, ds, i, k), Pieces(ds, i, k);
    var keep := ModelPicks(same, ds, i, k);
    NameSplitsBack(same, ds, i, k);
    if pieces != [] {
      FirstIsKept(same, pieces, keep, |pieces|);
      NameSpread(same, ds, i, k);
      assert KeepsFirst(same, pieces, keep);
    }
  }

  lemma NameSpread(same: (string, string) -> bool, ds: seq<Device>, i: nat, k: nat)
    requires i < k <= |ds| && Model(same, ds, i, k) != []
    ensures |FriendlyName(same, ds, i, k)| == Spread(Model(same, ds, i, k))
  {
    var model := Model(same, ds, i, k);
    ModelDistinct(same, ds, i, k);
    JoinedSpread(model, |model|);
    JoinedSplits(model, |model|);
    assert model[..|model|] == model;
  }

  lemma {:induction false} FirstIsKept(same: (string, string) -> bool, pieces: seq<string>, keep: seq<bool>, n: nat)
    requires KeepsFirst(same, pieces, keep) && 0 < n <= |pieces|
    ensures Selected(pieces, keep, n) != []
  {
    if n == 1 {
      assert !SeenBefore(same, pieces, keep, 0, pieces[0]);
    } else {
      FirstIsKept(same, pieces, keep, n - 1);
    }
  }

  // ----- HidDevices -----

  datatype Entry = Entry(friendlyName: string, devices: seq<Device>)

  predicate AnyGaming(ds: seq<Device>, i: nat, k: nat)
    requires k <= |ds|
  {
    exists j | i <= j < k :: ds[j].gaming
  }

  predicate Wanted(gamingDevicesOnly: bool, ds: seq<Device>, i: nat, k: nat)
    requires k <= |ds|
  {
    !gamingDevicesOnly || AnyGaming(ds, i, k)
  }

  /** The entries for the groups from `i` on: a group is kept if any of its devices is wanted. */
  function EntriesFrom(same: (string, string) -> bool, gamingDevicesOnly: bool, ds: seq<Device>, i: nat): seq<Entry>
    requires i <= |ds|
    decreases |ds| - i
  {
    if i == |ds| then []
    else EntryAt(same, gamingDevicesOnly, ds, i) + EntriesFrom(same, gamingDevicesOnly, ds, GroupEnd(ds, i))
  }

  /** The entry for the group at `i`, if it is wanted. */
  function EntryAt(same: (string, string) -> bool, gamingDevicesOnly: bool, ds: seq<Device>, i: nat): (e: seq<Entry>)
    requires i < |ds|
    ensures |e| <= 1
  {
    var k := GroupEnd(ds, i);
    if Wanted(gamingDevicesOnly, ds, i, k) then [Entry(FriendlyName(same, ds, i, k), ds[i..k])] else []
  }

  method AddDevice(same: (string, string) -> bool, model: seq<string>, d: Device) returns (result: seq<string>)
    ensures result == WithDevice(same, model, d)
  {
    result := MergeModelInformation(same, model, d.vendor);
    result := MergeModelInformation(same, result, d.product);
  }

  lemma OneLonger(ds: seq<Device>, i: nat, k: nat)
    requires i <= k < |ds|
    ensures ds[i..k + 1] == ds[i..k] + [ds[k]]
    ensures AnyGaming(ds, i, k + 1) <==> AnyGaming(ds, i, k) || ds[k].gaming
  {
  }

  /** The body of the outer loop up to the step back: what the group at `start` amounts to. */
  method GatherGroup(same: (string, string) -> bool, ds: seq<Device>, start: nat)
    returns (hidDevices: seq<Device>, model: seq<string>, gamingDevice: bool, it: nat)
    requires start < |ds|
    ensures it + 1 == GroupEnd(ds, start) && hidDevices == ds[start..it + 1]
    ensures model == Model(same, ds, start, it + 1) && gamingDevice == AnyGaming(ds, start, it + 1)
  {
    it, model, hidDevices, gamingDevice := start, [], [], ds[start].gaming;
    if ds[it].container == "" {
      model := AddDevice(same, model, ds[it]);
      hidDevices := [ds[it]];
    } else {
      hidDevices, model, gamingDevice, it := GatherContainer(same, ds, start);
      it := it - 1;
    }
  }

  /** The inner loop, which runs past the last device of the container. */
  method GatherContainer(same: (string, string) -> bool, ds: seq<Device>, start: nat)
    returns (hidDevices: seq<Device>, model: seq<string>, gamingDevice: bool, it: nat)
    requires start < |ds|
    ensures it == RunEnd(ds, ds[start].container, start + 1) && hidDevices == ds[start..it]
    ensures model == Model(same, ds, start, it) && gamingDevice == AnyGaming(ds, start, it)
  {
    it, model, hidDevices, gamingDevice := start, [], [], ds[start].gaming;
    var key := ds[it].container;
    while it != |ds| && ds[it].container == key
      invariant start <= it <= |ds| && RunEnd(ds, key, it) == RunEnd(ds, key, start)
      invariant hidDevices == ds[start..it] && model == Model(same, ds, start, it)
      invariant gamingDevice == (ds[start].gaming || AnyGaming(ds, start, it))
    {
      gamingDevice := gamingDevice || ds[it].gaming;
      model := AddDevice(same, model, ds[it]);
      OneLonger(ds, start, it);
      hidDevices := hidDevices + [ds[it]];
      it := it + 1;
    }
  }

  /** What the outer loop adds to the result for the group at `start`, and where it goes on. */
  method NextEntry(same: (string, string) -> bool, gamingDevicesOnly: bool, ds: seq<Device>, start: nat)
    returns (entries: seq<Entry>, next: nat)
    requires start < |ds|
    ensures next == GroupEnd(ds, start)
    ensures entries == EntryAt(same, gamingDevicesOnly, ds, start)
  {
    var hidDevices, model, gamingDevice, it := GatherGroup(same, ds, start);
    entries := [];
    if !gamingDevicesOnly || gamingDevice {
      var friendlyName := JoinModel(model);
      if friendlyName == [] {
        friendlyName := ds[it].description;
      }
      entries := [Entry(friendlyName, hidDevices)];
    }
    next := it + 1;
  }

  function NameOf(entry: Entry): string
  {
    entry.friendlyName
  }

  /** The entries of all groups, in the order of the containers. */
  function Entries(same: (string, string) -> bool, gamingDevicesOnly: bool, devices: seq<Device>): seq<Entry>
  {
    EntriesFrom(same, gamingDevicesOnly, Clustered(devices), 0)
  }

  /** The result is the entries sorted by friendly name, equal names in the order of the containers. */
  method HidDevices(same: (string, string) -> bool, gamingDevicesOnly: bool, devices: seq<Device>)
    returns (result: seq<Entry>)
    ensures var entries := Entries(same, gamingDevicesOnly, devices);
      && result == SortedEntries(entries)
      && Ordered(NameOf, result)
      && multiset(result) == multiset(entries)
      && forall name :: Of(NameOf, name, result) == Of(NameOf, name, entries)
    ensures forall e | e in result ::
      NamedBy(same, e.friendlyName, e.devices) && e.devices in Groups(devices) && (gamingDevicesOnly ==> Gaming(e.devices))
  {
    var ds := Cluster(devices);
    result := [];
    var it := 0;
    while it != |ds|
      invariant 0 <= it <= |ds|
      invariant AddedFrom(same, gamingDevicesOnly, ds, it, result) == AddedFrom(same, gamingDevicesOnly, ds, 0, [])
      decreases |ds| - it
    {
      var entries, next := NextEntry(same, gamingDevicesOnly, ds, it);
      if entries != [] {
        result := Emplace(NameOf, result, entries[0]);
      }
      it := next;
    }
    AddedCollects(same, gamingDevicesOnly, ds, 0, [], []);
    EmptyLeft(EntriesFrom(same, gamingDevicesOnly, ds, 0));
    SortedByName(Entries(same, gamingDevicesOnly, devices));
    ResultIsRead(same, gamingDevicesOnly, devices, result);
  }

  lemma ResultIsRead(same: (string, string) -> bool, only: bool, devices: seq<Device>, result: seq<Entry>)
    requires multiset(result) == multiset(Entries(same, only, devices))
    ensures forall e | e in result ::
      NamedBy(same, e.friendlyName, e.devices) && e.devices in Groups(devices) && (only ==> Gaming(e.devices))
  {
    var entries := Entries(same, only, devices);
    forall e | e in result
      ensures NamedBy(same, e.friendlyName, e.devices) && e.devices in Groups(devices) && (only ==> Gaming(e.devices))
    {
      assert e in multiset(result);
      var j :| 0 <= j < |entries| && entries[j] == e;
      ListIsRead(same, only, devices, e.devices);
      assert entries[j].devices == e.devices;
    }
  }

  /** The result once the groups from `i` on have been added to it. */
  function AddedFrom(same: (string, string) -> bool, only: bool, ds: seq<Device>, i: nat, result: seq<Entry>): seq<Entry>
    requires i <= |ds|
    decreases |ds| - i
  {
    if i == |ds| then result
    else
      var e := EntryAt(same, only, ds, i);
      AddedFrom(same, only, ds, GroupEnd(ds, i), if e == [] then result else Emplaced(NameOf, result, e[0]))
  }

  function SortedEntries(entries: seq<Entry>): seq<Entry>
  {
    Collected(NameOf, entries, |entries|)
  }

  lemma SortedMore(taken: seq<Entry>, e: seq<Entry>)
    requires |e| <= 1
    ensures SortedEntries(taken + e) ==
            if e == [] then SortedEntries(taken) else Emplaced(NameOf, SortedEntries(taken), e[0])
  {
    if e == [] {
      EmptyRight(taken);
    } else {
      assert e == [e[0]];
      CollectedMore(NameOf, taken, e[0]);
    }
  }

  lemma {:induction false} AddedCollects(same: (string, string) -> bool, only: bool, ds: seq<Device>, i: nat,
                                         taken: seq<Entry>, result: seq<Entry>)
    requires i <= |ds| && result == SortedEntries(taken)
    ensures AddedFrom(same, only, ds, i, result) == SortedEntries(taken + EntriesFrom(same, only, ds, i))
    decreases |ds| - i
  {
    if i == |ds| {
      EmptyRight(taken);
    } else {
      var e, rest := EntryAt(same, only, ds, i), EntriesFrom(same, only, ds, GroupEnd(ds, i));
      SortedMore(taken, e);
      Assoc(taken, e, rest);
      var next := if e == [] then result else Emplaced(NameOf, result, e[0]);
      AddedCollects(same, only, ds, GroupEnd(ds, i), taken + e, next);
    }
  }

  lemma SortedByName(entries: seq<Entry>)
    ensures var result := SortedEntries(entries);
      && Ordered(NameOf, result)
      && multiset(result) == multiset(entries)
      && forall name :: Of(NameOf, name, result) == Of(NameOf, name, entries)
  {
    var n := |entries|;
    assert entries[..n] == entries;
    CollectedOrdered(NameOf, entries, n);
    CollectedKeeps(NameOf, entries, n);
    forall name ensures Of(NameOf, name, Collected(NameOf, entries, n)) == Of(NameOf, name, entries) {
      CollectedOf(NameOf, entries, n, name);
    }
  }

  method JoinModel(model: seq<string>) returns (friendlyName: string)
    ensures friendlyName == Joined(model, |model|)
  {
    friendlyName := [];
    for n := 0 to |model|
      invariant friendlyName == Joined(model, n)
    {
      friendlyName := if friendlyName == [] then model[n] else friendlyName + " " + model[n];
    }
  }

  // ----- What the list shows of the partition -----

  function KeptGroups(gamingDevicesOnly: bool, groups: seq<seq<Device>>): seq<seq<Device>>
  {
    if groups == [] then []
    else
      (if !gamingDevicesOnly || AnyGaming(groups[0], 0, |groups[0]|) then [groups[0]] else [])
      + KeptGroups(gamingDevicesOnly, groups[1..])
  }

  function DevicesOf(entries: seq<Entry>): seq<seq<Device>>
  {
    if entries == [] then [] else [entries[0].devices] + DevicesOf(entries[1..])
  }

  lemma GamingGroup(ds: seq<Device>, i: nat, k: nat)
    requires i <= k <= |ds|
    ensures AnyGaming(ds[i..k], 0, k - i) <==> AnyGaming(ds, i, k)
  {
    if AnyGaming(ds, i, k) {
      var j :| i <= j < k && ds[j].gaming;
      assert ds[i..k][j - i].gaming;
    }
  }

  /** The list shows every group, or those with a gaming device in them, and no others. */
  lemma {:induction false} ShowsKeptGroups(same: (string, string) -> bool, only: bool, ds: seq<Device>, i: nat)
    requires i <= |ds|
    ensures DevicesOf(EntriesFrom(same, only, ds, i)) == KeptGroups(only, GroupsFrom(ds, i))
    decreases |ds| - i
  {
    if i < |ds| {
      var k := GroupEnd(ds, i);
      var entry, rest := Entry(FriendlyName(same, ds, i, k), ds[i..k]), EntriesFrom(same, only, ds, k);
      GamingGroup(ds, i, k);
      ShowsKeptGroups(same, only, ds, k);
      KeptFirst(only, ds[i..k], GroupsFrom(ds, k));
      TailOfCons(entry, rest);
      EmptyLeft(rest);
    }
  }

  /** A group with a gaming device in it, wherever. */
  ghost predicate Gaming(group: seq<Device>)
  {
    exists j | 0 <= j < |group| :: group[j].gaming
  }

  lemma {:induction false} KeptMember(only: bool, groups: seq<seq<Device>>, g: seq<Device>)
    ensures g in KeptGroups(only, groups) <==> g in groups && (!only || Gaming(g))
  {
    if groups != [] {
      KeptMember(only, groups[1..], g);
      assert groups == [groups[0]] + groups[1..];
    }
  }

  lemma {:induction false} DevicesMember(entries: seq<Entry>, g: seq<Device>)
    ensures g in DevicesOf(entries) <==> exists j | 0 <= j < |entries| :: entries[j].devices == g
  {
    if entries != [] {
      DevicesMember(entries[1..], g);
      if j :| 0 <= j < |entries[1..]| && entries[1..][j].devices == g {
        assert entries[j + 1].devices == g;
      }
      if j :| 0 < j < |entries| && entries[j].devices == g {
        assert entries[1..][j - 1].devices == g;
      }
    }
  }

  lemma {:induction false} EntriesAreNamed(same: (string, string) -> bool, only: bool, ds: seq<Device>, i: nat)
    requires i <= |ds|
    ensures forall e | e in EntriesFrom(same, only, ds, i) :: NamedBy(same, e.friendlyName, e.devices)
    decreases |ds| - i
  {
    if i < |ds| {
      EntriesAreNamed(same, only, ds, GroupEnd(ds, i));
      GroupIsNamed(same, ds, i, GroupEnd(ds, i));
    }
  }

  /** For every enumeration: every entry of the list is named after the texts of its own devices, and
      a group of the partition has an entry exactly if all are asked for or a device in it is gaming. */
  lemma ListIsRead(same: (string, string) -> bool, only: bool, devices: seq<Device>, g: seq<Device>)
    ensures var entries := Entries(same, only, devices);
      && (forall e | e in entries :: NamedBy(same, e.friendlyName, e.devices))
      && ((exists j | 0 <= j < |entries| :: entries[j].devices == g) <==> g in Groups(devices) && (!only || Gaming(g)))
  {
    var ds := Clustered(devices);
    EntriesAreNamed(same, only, ds, 0);
    ShowsKeptGroups(same, only, ds, 0);
    KeptMember(only, Groups(devices), g);
    DevicesMember(Entries(same, only, devices), g);
  }

  lemma KeptFirst(only: bool, group: seq<Device>, rest: seq<seq<Device>>)
    ensures KeptGroups(only, [group] + rest) ==
            if !only || AnyGaming(group, 0, |group|) then [group] + KeptGroups(only, rest) else KeptGroups(only, rest)
  {
    TailOfCons(group, rest);
    EmptyLeft(KeptGroups(only, rest));
  }
}
