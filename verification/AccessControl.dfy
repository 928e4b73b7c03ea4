/** HidHide/src/Logic.c as a state machine: what each callback and request does to the driver's
    state, and what an open request is answered.  Every call is one step. */
module AccessControl {
  import opened Names
  import opened VerdictCache
  import opened MultiString
  import opened SessionBlacklist

  /** The system routines the driver relies on: per-character case folding and the conversion of
      a string to a ULONG (zero when it fails). */
  datatype System = System(fold: char -> char, toInteger: string -> nat)

  const SYSTEM_PID := 4

  // ----- Blacklist entries: a device instance path, optionally followed by '!' and a session id -----

  const DELIMITER := '!'

  /** Where the first delimiter is; zero also when there is none. */
  function DelimiterPosition(input: string): (d: nat)
    ensures d == 0 || (d < |input| && input[d] == DELIMITER && forall i | 0 <= i < d :: input[i] != DELIMITER)
    ensures d == 0 ==> (input != [] && input[0] == DELIMITER) || DELIMITER !in input
  {
    FindDelimiter(input, 0)
  }

  function FindDelimiter(input: string, from: nat): (d: nat)
    requires from <= |input|
    ensures d == 0 || (from <= d < |input| && input[d] == DELIMITER && forall i | from <= i < d :: input[i] != DELIMITER)
    ensures d != 0 || (from == 0 && input != [] && input[0] == DELIMITER) ||
            forall i | from <= i < |input| :: input[i] != DELIMITER
    decreases |input| - from
  {
    if from == |input| then 0
    else if input[from] == DELIMITER then from
    else FindDelimiter(input, from + 1)
  }

  function PathPart(input: string): string
  {
    var d := DelimiterPosition(input);
    if d > 0 then input[..d] else input
  }

  function JailSession(sys: System, input: string): nat
  {
    var d := DelimiterPosition(input);
    if d > 0 then sys.toInteger(input[d + 1..]) else 0
  }

  method SplitDeviceData(sys: System, input: string) returns (deviceInstancePath: string, sessionId: nat)
    ensures deviceInstancePath == PathPart(input) && sessionId == JailSession(sys, input)
  {
    var delimiterPosition, i := 0, 0;
    while i < |input|
      invariant 0 <= i <= |input|
      invariant delimiterPosition == 0 && FindDelimiter(input, i) == DelimiterPosition(input)
    {
      if input[i] == DELIMITER {
        delimiterPosition := i;
        break;
      }
      i := i + 1;
    }
    deviceInstancePath := if delimiterPosition > 0 then input[..delimiterPosition] else input;
    sessionId := 0;
    if delimiterPosition > 0 {
      sessionId := sys.toInteger(input[delimiterPosition + 1..]);
    }
  }

  /** An entry composed of a path and a session id splits into them again. */
  lemma SplitComposed(sys: System, path: string, session: string)
    requires path != [] && DELIMITER !in path
    ensures PathPart(path + [DELIMITER] + session) == path
    ensures JailSession(sys, path + [DELIMITER] + session) == sys.toInteger(session)
  {
    var input := path + [DELIMITER] + session;
    var d := DelimiterPosition(input);
    assert input[|path|] == DELIMITER;
    assert input[0] == path[0];
    assert forall i | 0 <= i < |path| :: input[i] == path[i] && path[i] in path;
    assert d == |path|;
    assert input[d + 1..] == session;
  }

  /** The session found in the entry is the caller's. */
  predicate Exempt(sys: System, entry: string, sessionId: nat)
  {
    sessionId != 0 && JailSession(sys, entry) != 0 && sessionId == JailSession(sys, entry)
  }

  /** The first persistent entry from `i` on whose path matches decides. */
  datatype Finding = Hide | Show | Silent

  function Consult(sys: System, blacklist: seq<string>, i: nat, path: string, sessionId: nat): Finding
    requires i <= |blacklist|
    decreases |blacklist| - i
  {
    if i == |blacklist| then Silent
    else if SameName(sys.fold, PathPart(blacklist[i]), path) then
      if Exempt(sys, blacklist[i], sessionId) then Show else Hide
    else Consult(sys, blacklist, i + 1, path, sessionId)
  }

  predicate Blacklisted(sys: System, blacklist: seq<string>, session: seq<SessionEntry>, path: string, sessionId: nat)
  {
    match Consult(sys, blacklist, 0, path, sessionId)
    case Hide => true
    case Show => false
    case Silent => exists i | 0 <= i < |session| :: SameName(sys.fold, session[i].path, path)
  }

  // ----- The state machine -----

  datatype State = State(
    table: Table,
    whitelist: seq<string>,
    blacklist: seq<string>,
    active: bool,
    inverse: bool,
    session: seq<SessionEntry>)

  datatype Event =
    | LoadImage(handle: nat, fullImageName: Option<string>, memory: bool)
    | ProcessChange(handle: nat, create: bool)
    | SetWhitelist(buffer: string)
    | SetBlacklist(buffer: string)
    | SetActive(active: bool)
    | SetInverse(inverse: bool)
    | AddSession(handle: nat, inputBufferLength: nat, buffer: string, outcome: nat -> AddStatus)
    | ClearSession(handle: nat)
    | Open(handle: nat, sessionId: nat, path: string)

  /** Whether an open request gets as far as asking for the caller's image name. */
  predicate Challenged(sys: System, s: State, e: Event)
    requires e.Open?
  {
    ProcessId(e.handle) != SYSTEM_PID && s.active && Blacklisted(sys, s.blacklist, s.session, e.path, e.sessionId)
  }

  predicate Whitelisted(sys: System, s: State, pid: nat)
  {
    (CheckStatus(sys.fold, s.table, pid, s.whitelist) == InJob) != s.inverse
  }

  predicate AccessDenied(sys: System, s: State, e: Event)
    requires e.Open?
  {
    Challenged(sys, s, e) && !Whitelisted(sys, s, ProcessId(e.handle))
  }

  predicate Accepted(e: Event)
    requires e.AddSession?
  {
    AddResult(e.inputBufferLength, e.buffer, e.outcome) == Added
  }

  function Step(sys: System, s: State, e: Event): State
  {
    match e
    case LoadImage(handle, name, memory) =>
      if name.None? || handle == 0 then s
      else s.(table := Registered(s.table, ProcessId(handle), name.value, memory))
    case ProcessChange(handle, create) =>
      if create then s
      else s.(table := Unregistered(s.table, ProcessId(handle)), session := Others(s.session, |s.session|, handle))
    case SetWhitelist(buffer) => s.(whitelist := RegistryDecode(buffer), table := Flushed(s.table))
    case SetBlacklist(buffer) => s.(blacklist := RegistryDecode(buffer))
    case SetActive(active) => s.(active := active)
    case SetInverse(inverse) => s.(inverse := inverse)
    case AddSession(handle, _, buffer, _) =>
      if Accepted(e) then s.(session := s.session + OwnedBy(handle, Parsed(buffer))) else s
    case ClearSession(handle) => s.(session := Others(s.session, |s.session|, handle))
    case Open(handle, _, _) =>
      if Challenged(sys, s, e) then s.(table := Checked(sys.fold, s.table, ProcessId(handle), s.whitelist)) else s
  }

  predicate Initial(s: State)
  {
    s.table == map[] && s.session == []
  }

  /** The state after the first `n` events. */
  function Run(sys: System, init: State, h: seq<Event>, n: nat): State
    requires n <= |h|
  {
    if n == 0 then init else Step(sys, Run(sys, init, h, n - 1), h[n - 1])
  }

  // ----- The reference: verdicts straight from the history, without any cache or list -----

  predicate IsExit(e: Event, pid: nat)
  {
    e.ProcessChange? && !e.create && ProcessId(e.handle) == pid
  }

  /** An image load that the driver is able to record for `pid`. */
  predicate IsLoad(e: Event, pid: nat)
  {
    && e.LoadImage? && e.fullImageName.Some? && e.handle != 0 && ProcessId(e.handle) == pid
    && e.memory && Storable(e.fullImageName.value)
  }

  /** The position just after the last exit of `pid` among the first `n` events. */
  function SinceExit(h: seq<Event>, n: nat, pid: nat): (i: nat)
    requires n <= |h|
    ensures i <= n
  {
    if n == 0 then 0 else if IsExit(h[n - 1], pid) then n else SinceExit(h, n - 1, pid)
  }

  function FirstLoad(h: seq<Event>, from: nat, n: nat, pid: nat): Option<string>
    requires from <= n <= |h|
    decreases n - from
  {
    if from == n then None
    else if IsLoad(h[from], pid) then Some(CString(h[from].fullImageName.value))
    else FirstLoad(h, from + 1, n, pid)
  }

  /** A process goes by the first image loaded since its pid last exited. */
  function NameAt(h: seq<Event>, n: nat, pid: nat): Option<string>
    requires n <= |h|
  {
    FirstLoad(h, SinceExit(h, n, pid), n, pid)
  }

  function WhitelistAt(init: State, h: seq<Event>, n: nat): seq<string>
    requires n <= |h|
  {
    if n == 0 then init.whitelist
    else if h[n - 1].SetWhitelist? then RegistryDecode(h[n - 1].buffer)
    else WhitelistAt(init, h, n - 1)
  }

  function BlacklistAt(init: State, h: seq<Event>, n: nat): seq<string>
    requires n <= |h|
  {
    if n == 0 then init.blacklist
    else if h[n - 1].SetBlacklist? then RegistryDecode(h[n - 1].buffer)
    else BlacklistAt(init, h, n - 1)
  }

  function ActiveAt(init: State, h: seq<Event>, n: nat): bool
    requires n <= |h|
  {
    if n == 0 then init.active else if h[n - 1].SetActive? then h[n - 1].active else ActiveAt(init, h, n - 1)
  }

  function InverseAt(init: State, h: seq<Event>, n: nat): bool
    requires n <= |h|
  {
    if n == 0 then init.inverse else if h[n - 1].SetInverse? then h[n - 1].inverse else InverseAt(init, h, n - 1)
  }

  /** The exit or the clear request of a handle: its session entries end here. */
  predicate Drops(e: Event, handle: nat)
  {
    (e.ProcessChange? && !e.create && e.handle == handle) || (e.ClearSession? && e.handle == handle)
  }

  /** The event put `entry` on the session list. */
  ghost predicate Put(e: Event, entry: SessionEntry)
  {
    e.AddSession? && Accepted(e) && e.handle == entry.ownerPid && entry.path in Parsed(e.buffer)
  }

  /** `entry` was put on the list by an event that no exit or clear of its owner followed. */
  ghost predicate InForce(h: seq<Event>, n: nat, entry: SessionEntry)
    requires n <= |h|
  {
    exists i | 0 <= i < n :: Put(h[i], entry) && forall k | i < k < n :: !Drops(h[k], entry.ownerPid)
  }

  /** An entry is a device instance path, or one followed by '!' and a session number. */
  predicate Plain(entry: string)
  {
    '!' !in entry || entry[0] == '!'
  }

  predicate Composed(entry: string, path: string, number: string)
  {
    path != [] && '!' !in path && entry == path + ['!'] + number
  }

  ghost predicate Matches(sys: System, entry: string, path: string)
  {
    || (Plain(entry) && SameName(sys.fold, entry, path))
    || exists part, number :: Composed(entry, part, number) && SameName(sys.fold, part, path)
  }

  /** The entry leaves the device visible to the caller's session. */
  ghost predicate VisibleTo(sys: System, entry: string, sessionId: nat)
  {
    sessionId != 0 && exists part, number :: Composed(entry, part, number) && sys.toInteger(number) == sessionId
  }

  /** The first persistent entry whose path matches, if any. */
  ghost predicate Decides(sys: System, blacklist: seq<string>, i: nat, path: string)
  {
    i < |blacklist| && Matches(sys, blacklist[i], path) && forall j | 0 <= j < i :: !Matches(sys, blacklist[j], path)
  }

  ghost predicate HiddenAt(sys: System, init: State, h: seq<Event>, n: nat, path: string, sessionId: nat)
    requires n <= |h|
  {
    var blacklist := BlacklistAt(init, h, n);
    if exists i: nat :: Decides(sys, blacklist, i, path) then
      exists i: nat :: Decides(sys, blacklist, i, path) && !VisibleTo(sys, blacklist[i], sessionId)
    else
      exists entry :: InForce(h, n, entry) && SameName(sys.fold, entry.path, path)
  }

  ghost predicate ListedAt(sys: System, init: State, h: seq<Event>, n: nat, pid: nat)
    requires n <= |h|
  {
    NameAt(h, n, pid).Some? && Listed(sys.fold, WhitelistAt(init, h, n), NameAt(h, n, pid).value)
  }

  /** The documented rule for the open request at position `n`. */
  ghost predicate DeniedByRule(sys: System, init: State, h: seq<Event>, n: nat)
    requires n < |h| && h[n].Open?
  {
    && ProcessId(h[n].handle) != SYSTEM_PID
    && ActiveAt(init, h, n)
    && HiddenAt(sys, init, h, n, h[n].path, h[n].sessionId)
    && (ListedAt(sys, init, h, n, ProcessId(h[n].handle)) == InverseAt(init, h, n))
  }

  // ----- Proof: the state is the history -----

  lemma StepSettings(sys: System, s: State, e: Event)
    ensures var t := Step(sys, s, e);
      && t.whitelist == (if e.SetWhitelist? then RegistryDecode(e.buffer) else s.whitelist)
      && t.blacklist == (if e.SetBlacklist? then RegistryDecode(e.buffer) else s.blacklist)
      && t.active == (if e.SetActive? then e.active else s.active)
      && t.inverse == (if e.SetInverse? then e.inverse else s.inverse)
  {
  }

  lemma {:induction false} SettingsAt(sys: System, init: State, h: seq<Event>, n: nat)
    requires n <= |h|
    ensures var s := Run(sys, init, h, n);
      && s.whitelist == WhitelistAt(init, h, n) && s.blacklist == BlacklistAt(init, h, n)
      && s.active == ActiveAt(init, h, n) && s.inverse == InverseAt(init, h, n)
  {
    if n != 0 {
      SettingsAt(sys, init, h, n - 1);
      StepSettings(sys, Run(sys, init, h, n - 1), h[n - 1]);
    }
  }

  lemma StepCoherent(sys: System, s: State, e: Event)
    requires Coherent(sys.fold, s.table, s.whitelist)
    ensures Coherent(sys.fold, Step(sys, s, e).table, Step(sys, s, e).whitelist)
  {
    if e.Open? {
      CheckedIsCoherent(sys.fold, s.table, ProcessId(e.handle), s.whitelist);
    }
  }

  /** What every step keeps: a non-empty cached verdict is the verdict of the current whitelist. */
  lemma {:induction false} AlwaysCoherent(sys: System, init: State, h: seq<Event>, n: nat)
    requires n <= |h| && Initial(init)
    ensures Coherent(sys.fold, Run(sys, init, h, n).table, Run(sys, init, h, n).whitelist)
  {
    if n != 0 {
      AlwaysCoherent(sys, init, h, n - 1);
      StepCoherent(sys, Run(sys, init, h, n - 1), h[n - 1]);
    }
  }

  lemma {:induction false} FirstLoadMore(h: seq<Event>, from: nat, n: nat, pid: nat)
    requires from <= n < |h|
    ensures FirstLoad(h, from, n + 1, pid) ==
            if FirstLoad(h, from, n, pid).Some? then FirstLoad(h, from, n, pid)
            else if IsLoad(h[n], pid) then Some(CString(h[n].fullImageName.value)) else None
    decreases n - from
  {
    if from < n { FirstLoadMore(h, from + 1, n, pid); }
  }

  /** Who is in the table, and under which name, after one step. */
  lemma StepNames(sys: System, s: State, e: Event, pid: nat)
    ensures var t := Step(sys, s, e).table;
      && (pid in t <==> !IsExit(e, pid) && (pid in s.table || IsLoad(e, pid)))
      && (pid in t && pid in s.table ==> t[pid].fullImageName == s.table[pid].fullImageName)
      && (pid in t && pid !in s.table ==> t[pid].fullImageName == CString(e.fullImageName.value))
  {
  }

  lemma {:induction false} NamesAt(sys: System, init: State, h: seq<Event>, n: nat, pid: nat)
    requires n <= |h| && Initial(init)
    ensures var t := Run(sys, init, h, n).table;
      && (pid in t <==> NameAt(h, n, pid).Some?)
      && (pid in t ==> t[pid].fullImageName == NameAt(h, n, pid).value)
  {
    if n != 0 {
      NamesAt(sys, init, h, n - 1, pid);
      FirstLoadMore(h, SinceExit(h, n - 1, pid), n - 1, pid);
      StepNames(sys, Run(sys, init, h, n - 1), h[n - 1], pid);
    }
  }

  /** An entry without a number is its own path and names no session. */
  lemma PlainSplits(sys: System, entry: string)
    requires Plain(entry)
    ensures PathPart(entry) == entry && JailSession(sys, entry) == 0
  {
  }

  /** Every other entry is composed, in one way only. */
  lemma ComposedSplits(sys: System, entry: string)
    requires !Plain(entry)
    ensures Composed(entry, PathPart(entry), entry[|PathPart(entry)| + 1..])
    ensures JailSession(sys, entry) == sys.toInteger(entry[|PathPart(entry)| + 1..])
  {
    var d := DelimiterPosition(entry);
    assert d > 0;
    assert entry == entry[..d] + ['!'] + entry[d + 1..];
  }

  lemma ComposedOnce(sys: System, entry: string, path: string, number: string)
    requires Composed(entry, path, number)
    ensures !Plain(entry) && PathPart(entry) == path && JailSession(sys, entry) == sys.toInteger(number)
  {
    assert entry[|path|] == '!' && entry[0] == path[0];
    SplitComposed(sys, path, number);
  }

  /** What the code finds in an entry is what the entry says. */
  lemma EntryRead(sys: System, entry: string, path: string, sessionId: nat)
    ensures Matches(sys, entry, path) <==> SameName(sys.fold, PathPart(entry), path)
    ensures VisibleTo(sys, entry, sessionId) <==> Exempt(sys, entry, sessionId)
  {
    if Plain(entry) {
      PlainSplits(sys, entry);
    } else {
      ComposedSplits(sys, entry);
    }
    forall part, number | Composed(entry, part, number)
      ensures !Plain(entry) && PathPart(entry) == part && JailSession(sys, entry) == sys.toInteger(number)
    {
      ComposedOnce(sys, entry, part, number);
    }
  }

  lemma {:induction false} ConsultDecides(sys: System, blacklist: seq<string>, i: nat, path: string, sessionId: nat)
    requires i <= |blacklist| && forall j | 0 <= j < i :: !Matches(sys, blacklist[j], path)
    ensures match Consult(sys, blacklist, i, path, sessionId)
            case Silent => !exists k: nat :: Decides(sys, blacklist, k, path)
            case Show => exists k: nat :: Decides(sys, blacklist, k, path) && VisibleTo(sys, blacklist[k], sessionId)
            case Hide => exists k: nat :: Decides(sys, blacklist, k, path) && !VisibleTo(sys, blacklist[k], sessionId)
    decreases |blacklist| - i
  {
    if i < |blacklist| {
      EntryRead(sys, blacklist[i], path, sessionId);
      if Matches(sys, blacklist[i], path) {
        assert Decides(sys, blacklist, i, path);
      } else {
        ConsultDecides(sys, blacklist, i + 1, path, sessionId);
      }
    }
  }

  lemma DecidesUnique(sys: System, blacklist: seq<string>, i: nat, k: nat, path: string)
    requires Decides(sys, blacklist, i, path) && Decides(sys, blacklist, k, path)
    ensures i == k
  {
  }

  lemma StepSession(sys: System, s: State, e: Event, entry: SessionEntry)
    ensures entry in Step(sys, s, e).session <==> Put(e, entry) || (entry in s.session && !Drops(e, entry.ownerPid))
  {
    if e.ProcessChange? || e.ClearSession? {
      OthersExact(s.session, |s.session|, e.handle);
      assert s.session[..|s.session|] == s.session;
    }
  }

  /** An entry is on the session list exactly as long as it is in force; so none outlives its owner. */
  lemma {:induction false} SessionAt(sys: System, init: State, h: seq<Event>, n: nat, entry: SessionEntry)
    requires n <= |h| && Initial(init)
    ensures entry in Run(sys, init, h, n).session <==> InForce(h, n, entry)
  {
    if n != 0 {
      SessionAt(sys, init, h, n - 1, entry);
      InForceMore(h, n - 1, entry);
      StepSession(sys, Run(sys, init, h, n - 1), h[n - 1], entry);
    }
  }

  lemma InForceMore(h: seq<Event>, n: nat, entry: SessionEntry)
    requires n < |h|
    ensures InForce(h, n + 1, entry) <==> Put(h[n], entry) || (InForce(h, n, entry) && !Drops(h[n], entry.ownerPid))
  {
    if Put(h[n], entry) {
      assert InForce(h, n + 1, entry);
    }
  }

  /** Every verdict of every run is the one the documented rule gives for the history so far. */
  lemma VerdictFollowsRule(sys: System, init: State, h: seq<Event>, n: nat)
    requires Initial(init) && n < |h| && h[n].Open?
    ensures AccessDenied(sys, Run(sys, init, h, n), h[n]) <==> DeniedByRule(sys, init, h, n)
  {
    var s, e := Run(sys, init, h, n), h[n];
    var pid := ProcessId(e.handle);
    SettingsAt(sys, init, h, n);
    NamesAt(sys, init, h, n, pid);
    AlwaysCoherent(sys, init, h, n);
    CheckIsScan(sys.fold, s.table, pid, s.whitelist);
    HiddenIsBlacklisted(sys, init, h, n, e.path, e.sessionId);
  }

  /** With one plain entry, a device of that path is denied by pid, flag, listing and sense alone. */
  lemma PlainEntryDenies(sys: System, init: State, h: seq<Event>, n: nat, path: string)
    requires Initial(init) && n < |h| && h[n].Open? && h[n].path == path
    requires BlacklistAt(init, h, n) == [path] && '!' !in path
    ensures AccessDenied(sys, Run(sys, init, h, n), h[n]) <==>
      && ProcessId(h[n].handle) != 4 && ActiveAt(init, h, n)
      && ListedAt(sys, init, h, n, ProcessId(h[n].handle)) == InverseAt(init, h, n)
  {
    VerdictFollowsRule(sys, init, h, n);
    assert Decides(sys, [path], 0, path);
  }

  /** With a session number behind it, the same unless the caller's session is that number. */
  lemma ComposedEntryDenies(sys: System, init: State, h: seq<Event>, n: nat, path: string, number: string)
    requires Initial(init) && n < |h| && h[n].Open? && h[n].path == path
    requires BlacklistAt(init, h, n) == [path + ['!'] + number] && '!' !in path && path != []
    ensures AccessDenied(sys, Run(sys, init, h, n), h[n]) <==>
      && ProcessId(h[n].handle) != 4 && ActiveAt(init, h, n)
      && !(h[n].sessionId != 0 && h[n].sessionId == sys.toInteger(number))
      && ListedAt(sys, init, h, n, ProcessId(h[n].handle)) == InverseAt(init, h, n)
  {
    var entry := path + ['!'] + number;
    VerdictFollowsRule(sys, init, h, n);
    assert Composed(entry, path, number);
    assert Decides(sys, [entry], 0, path);
    forall part, other | Composed(entry, part, other)
      ensures sys.toInteger(other) == sys.toInteger(number)
    {
      ComposedOnce(sys, entry, part, other);
      ComposedOnce(sys, entry, path, number);
    }
  }

  // ----- The session splice as written -----

  /** The request leaves the head of its own local list in the global ring: line 683 as written. */
  predicate Entangles(e: Event)
  {
    e.AddSession? && Accepted(e) && Parsed(e.buffer) != []
  }

  /** Any client's request to hide one ordinary path does. */
  lemma OnePathEntangles(handle: nat, path: string, outcome: nat -> AddStatus)
    requires Clean(path) && |path| < 0x8000 && outcome(0) == Added
    ensures var m := ClientEncode([path]); Entangles(AddSession(handle, 2 * |m|, m, outcome))
  {
    ParsedClientEncoding([path]);
    assert FirstFailure(1, outcome) == Added;
  }

  /** The state after the first `n` events with line 683 as written: none once a request has left the
      address of its own variable in the session list. */
  function RunAsWritten(sys: System, init: State, h: seq<Event>, n: nat): Option<State>
    requires n <= |h|
  {
    if n == 0 then Some(init)
    else
      var before := RunAsWritten(sys, init, h, n - 1);
      if before.None? || Entangles(h[n - 1]) then None else Some(Step(sys, before.value, h[n - 1]))
  }

  ghost predicate EntangledBefore(h: seq<Event>, n: nat)
    requires n <= |h|
  {
    exists i | 0 <= i < n :: Entangles(h[i])
  }

  /** The written code keeps a list of entries, the one the comment describes, exactly as long as no
      request with a path has been accepted. */
  lemma {:induction false} AsWrittenUntilEntangled(sys: System, init: State, h: seq<Event>, n: nat)
    requires n <= |h|
    ensures RunAsWritten(sys, init, h, n) == if EntangledBefore(h, n) then None else Some(Run(sys, init, h, n))
  {
    if n != 0 {
      AsWrittenUntilEntangled(sys, init, h, n - 1);
      assert EntangledBefore(h, n) <==> EntangledBefore(h, n - 1) || Entangles(h[n - 1]);
    }
  }

  /** So far, and no further, its verdicts follow the documented rule. */
  lemma VerdictAsWritten(sys: System, init: State, h: seq<Event>, n: nat)
    requires Initial(init) && n < |h| && h[n].Open?
    ensures RunAsWritten(sys, init, h, n).Some? <==> !EntangledBefore(h, n)
    ensures RunAsWritten(sys, init, h, n).Some? ==>
            (AccessDenied(sys, RunAsWritten(sys, init, h, n).value, h[n]) <==> DeniedByRule(sys, init, h, n))
  {
    AsWrittenUntilEntangled(sys, init, h, n);
    VerdictFollowsRule(sys, init, h, n);
  }

  lemma HiddenIsBlacklisted(sys: System, init: State, h: seq<Event>, n: nat, path: string, sessionId: nat)
    requires Initial(init) && n <= |h|
    ensures var s := Run(sys, init, h, n);
      Blacklisted(sys, s.blacklist, s.session, path, sessionId) <==> HiddenAt(sys, init, h, n, path, sessionId)
  {
    var s := Run(sys, init, h, n);
    SettingsAt(sys, init, h, n);
    ConsultDecides(sys, s.blacklist, 0, path, sessionId);
    forall i: nat, k: nat | Decides(sys, s.blacklist, i, path) && Decides(sys, s.blacklist, k, path)
      ensures i == k
    {
      DecidesUnique(sys, s.blacklist, i, k, path);
    }
    forall entry
      ensures entry in s.session <==> InForce(h, n, entry)
    {
      SessionAt(sys, init, h, n, entry);
    }
    if Consult(sys, s.blacklist, 0, path, sessionId) == Silent {
      if i :| 0 <= i < |s.session| && SameName(sys.fold, s.session[i].path, path) {
        assert InForce(h, n, s.session[i]);
      }
      if entry :| InForce(h, n, entry) && SameName(sys.fold, entry.path, path) {
        var i :| 0 <= i < |s.session| && s.session[i] == entry;
      }
    }
  }
}
