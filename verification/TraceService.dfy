/** Watchdog/DiagnosticsTraceService.cpp: recording, its capture file and the visibility of the
    diagnostics channels, under every pattern of failing system calls. */
module TraceService {
  import opened Names
  import opened TraceSession

  // ----- The diagnostics channels -----

  datatype Channel = DriverChannel | ClientChannel | CliChannel

  function Channels(scope: Scope): seq<Channel>
  {
    match scope
    case Full => [DriverChannel, ClientChannel, CliChannel]
    case Driver => [DriverChannel]
    case Userspace => [ClientChannel, CliChannel]
  }

  function ChannelSet(scope: Scope): set<Channel>
  {
    set c | c in Channels(scope)
  }

  /** The channels changed, one after the other, up to the first failure. */
  function Reached(channels: seq<Channel>, failing: set<Channel>): set<Channel>
  {
    if channels == [] || channels[0] in failing then {} else {channels[0]} + Reached(channels[1..], failing)
  }

  predicate Fails(channels: seq<Channel>, failing: set<Channel>)
  {
    channels != [] && (channels[0] in failing || Fails(channels[1..], failing))
  }

  lemma ReachedFirst(c: Channel, rest: seq<Channel>, failing: set<Channel>)
    ensures Reached([c] + rest, failing) == if c in failing then {} else {c} + Reached(rest, failing)
    ensures Fails([c] + rest, failing) <==> c in failing || Fails(rest, failing)
  {
    assert ([c] + rest)[1..] == rest;
  }

  lemma {:induction false} ReachedAll(channels: seq<Channel>, failing: set<Channel>)
    ensures Reached(channels, failing) <= set c | c in channels
    ensures Reached(channels, failing) !! failing
    ensures !Fails(channels, failing) ==> Reached(channels, failing) == set c | c in channels
    ensures Fails(channels, failing) <==> exists c | c in channels :: c in failing
    ensures Reached(channels, failing) == {} <==> channels == [] || channels[0] in failing
  {
    if channels != [] {
      ReachedAll(channels[1..], failing);
      assert channels == [channels[0]] + channels[1..];
    }
  }

  /** The scope's channels, one by one. */
  predicate Recorded(c: Channel, scope: Scope)
  {
    match c
    case DriverChannel => scope == Full || scope == Driver
    case ClientChannel | CliChannel => scope == Full || scope == Userspace
  }

  lemma ScopeRecords(scope: Scope, c: Channel)
    ensures c in Channels(scope) <==> Recorded(c, scope)
    ensures c in ChannelSet(scope) <==> Recorded(c, scope)
  {
  }

  /** The order of change is driver, client, command line: each is reached exactly if the scope has it
      and neither it nor one of the scope before it fails. */
  lemma ReachedInOrder(scope: Scope, failing: set<Channel>)
    ensures DriverChannel in Reached(Channels(scope), failing) <==>
            Recorded(DriverChannel, scope) && DriverChannel !in failing
    ensures ClientChannel in Reached(Channels(scope), failing) <==>
            && Recorded(ClientChannel, scope) && ClientChannel !in failing
            && !(Recorded(DriverChannel, scope) && DriverChannel in failing)
    ensures CliChannel in Reached(Channels(scope), failing) <==>
            && Recorded(CliChannel, scope) && CliChannel !in failing && ClientChannel !in failing
            && !(Recorded(DriverChannel, scope) && DriverChannel in failing)
    ensures Fails(Channels(scope), failing) <==> exists c: Channel :: Recorded(c, scope) && c in failing
  {
    ReachedFirst(DriverChannel, [ClientChannel, CliChannel], failing);
    ReachedFirst(DriverChannel, [], failing);
    ReachedFirst(ClientChannel, [CliChannel], failing);
    ReachedFirst(CliChannel, [], failing);
    assert Channels(Full) == [DriverChannel] + [ClientChannel, CliChannel];
    assert Channels(Userspace) == [ClientChannel] + [CliChannel];
    assert Channels(Driver) == [DriverChannel] + [] && [CliChannel] == [CliChannel] + [];
    assert [ClientChannel, CliChannel] == [ClientChannel] + [CliChannel];
    FailsInScope(scope, failing);
  }

  lemma FailsInScope(scope: Scope, failing: set<Channel>)
    ensures Fails(Channels(scope), failing) <==> exists c: Channel :: Recorded(c, scope) && c in failing
  {
    ReachedAll(Channels(scope), failing);
    forall c: Channel ensures c in Channels(scope) <==> Recorded(c, scope) { ScopeRecords(scope, c); }
  }

  /** The event log's channel configuration: which channels are at maximum visibility. */
  class EventLog {
    var maximum: set<Channel>

    constructor ()
      ensures maximum == {}
    {
      maximum := {};
    }

    method InvokeTune(channel: Channel, restore: bool, failing: set<Channel>) returns (ok: bool)
      modifies this
      ensures ok == (channel !in failing)
      ensures maximum == if !ok then old(maximum) else if restore then old(maximum) - {channel} else old(maximum) + {channel}
    {
      ok := channel !in failing;
      if ok {
        maximum := if restore then maximum - {channel} else maximum + {channel};
      }
    }

    method TuneScopeChannels(scope: Scope, restore: bool, failing: set<Channel>) returns (ok: bool)
      modifies this
      ensures ok == !Fails(Channels(scope), failing)
      ensures maximum == if restore then old(maximum) - Reached(Channels(scope), failing)
                         else old(maximum) + Reached(Channels(scope), failing)
    {
      ReachedFirst(DriverChannel, [ClientChannel, CliChannel], failing);
      ReachedFirst(DriverChannel, [], failing);
      ReachedFirst(ClientChannel, [CliChannel], failing);
      ReachedFirst(CliChannel, [], failing);
      assert Channels(Full) == [DriverChannel] + [ClientChannel, CliChannel];
      assert Channels(Userspace) == [ClientChannel] + [CliChannel];
      assert Channels(Driver) == [DriverChannel] + [] && [CliChannel] == [CliChannel] + [];
      match scope
      case Full =>
        ok := InvokeTune(DriverChannel, restore, failing);
        if !ok { return; }
        ok := InvokeTune(ClientChannel, restore, failing);
        if !ok { return; }
        ok := InvokeTune(CliChannel, restore, failing);
      case Driver =>
        ok := InvokeTune(DriverChannel, restore, failing);
      case Userspace =>
        ok := InvokeTune(ClientChannel, restore, failing);
        if !ok { return; }
        ok := InvokeTune(CliChannel, restore, failing);
    }
  }

  // ----- The service -----

  datatype Phase = Idle | Recording | Ready

  datatype Service = Service(
    phase: Phase,
    startedAt: Option<int>,
    stoppedAt: Option<int>,
    path: string,
    fileName: string,
    scope: Scope,
    tune: bool,          // what the request asked for
    didTune: bool,
    session: nat,        // the trace session's handle
    maximum: set<Channel>)

  const INITIAL := Service(Idle, None, None, [], [], Full, true, false, 0, {})

  /** What the system answers during one request. */
  datatype System = System(
    trace: Answers,
    tuneFails: set<Channel>,
    restoreFails: set<Channel>,
    removes: bool,       // std::filesystem::remove succeeds
    onDisk: bool,        // std::filesystem::exists
    now: int,
    path: string,        // MakeUniqueEtlPath
    fileName: string)    // its file name

  /** A unique path is never empty and ends in a file name. */
  predicate Plausible(y: System)
  {
    y.path != [] && y.fileName != []
  }

  datatype Request = Start(scope: Scope, tune: bool) | Stop | Discard

  datatype Reply = Done | RecordingInProgress | PreviousCaptureDeleteFailed | ChannelTuneFailed
                 | TraceStartFailed | NotRecording | TraceStopFailed | CaptureDeleteFailed

  datatype Download = Path(path: string) | NotReady | PathUnknown | FileMissing

  predicate StartsTrace(s: Service, y: System, scope: Scope)
  {
    StartOutcome(s.session, y.trace, scope) == Ok
  }

  // ----- What each request amounts to -----

  function Tuned(s: Service, y: System): set<Channel>
  {
    s.maximum + Reached(Channels(s.scope), y.tuneFails)
  }

  function Restored(s: Service, y: System): set<Channel>
  {
    s.maximum - Reached(Channels(s.scope), y.restoreFails)
  }

  /** Whether a stop, or a discard of something recorded, has channels to restore. */
  predicate Owes(s: Service)
  {
    s.didTune && s.tune
  }

  function StartResult(s: Service, y: System, scope: Scope, tune: bool): (Service, Reply)
  {
    if s.phase.Recording? then (s, RecordingInProgress)
    else if s.phase.Ready? && s.path != [] && !y.removes then (s, PreviousCaptureDeleteFailed)
    else
      StartIdleResult(if s.phase.Ready? then s.(phase := Idle, startedAt := None, stoppedAt := None) else s,
                      y, scope, tune)
  }

  function StartIdleResult(s: Service, y: System, scope: Scope, tune: bool): (Service, Reply)
  {
    var t := s.(scope := scope, tune := tune, didTune := false, path := y.path, fileName := y.fileName);
    if tune && Fails(Channels(scope), y.tuneFails) then
      (t.(maximum := Tuned(t, y), path := [], fileName := []), ChannelTuneFailed)
    else
      StartTrace(t.(maximum := if tune then Tuned(t, y) else s.maximum, didTune := tune), y)
  }

  /** From the start of the trace session on. */
  function StartTrace(s: Service, y: System): (Service, Reply)
  {
    var t := s.(session := SessionAfterStart(s.session, y.trace, s.scope));
    if StartsTrace(s, y, s.scope) then
      (t.(phase := Recording, startedAt := Some(y.now), stoppedAt := None), Done)
    else if s.didTune && Fails(Channels(s.scope), y.restoreFails) then (t.(maximum := Restored(t, y)), ChannelTuneFailed)
    else
      (t.(maximum := if s.didTune then Restored(t, y) else t.maximum, didTune := false, path := [], fileName := [],
          startedAt := None, stoppedAt := None),
       TraceStartFailed)
  }

  /** The part of Stop and DiscardCapture that ends a recording. */
  function EndRecording(s: Service, y: System): (Service, Reply)
  {
    if s.session != 0 && !y.trace.stops then (s, TraceStopFailed)
    else
      var t := s.(session := 0, phase := Ready, stoppedAt := Some(y.now));
      if !Owes(s) then (t, Done)
      else (t.(maximum := Restored(s, y)),
            if Fails(Channels(s.scope), y.restoreFails) then ChannelTuneFailed else Done)
  }

  function StopResult(s: Service, y: System): (Service, Reply)
  {
    if s.phase.Recording? then EndRecording(s, y) else (s, NotRecording)
  }

  function DiscardResult(s: Service, y: System): (Service, Reply)
  {
    var (t, reply) :=
      if s.phase.Recording? then EndRecording(s, y)
      else if s.phase.Ready? && Owes(s) then
        if Fails(Channels(s.scope), y.restoreFails) then
          (s.(maximum := Restored(s, y), stoppedAt := Some(y.now)), ChannelTuneFailed)
        else (s.(maximum := Restored(s, y)), Done)
      else (s, Done);
    if reply != Done then (t, reply)
    else if t.path != [] && !y.removes then (t, CaptureDeleteFailed)
    else (t.(path := [], fileName := [], startedAt := None, stoppedAt := None, didTune := false, phase := Idle), Done)
  }

  function PathForDownload(s: Service, y: System): Download
  {
    if !s.phase.Ready? then NotReady
    else if s.path == [] then PathUnknown
    else if !y.onDisk then FileMissing
    else Path(s.path)
  }

  function Step(s: Service, r: Request, y: System): Service
  {
    match r
    case Start(scope, tune) => StartResult(s, y, scope, tune).0
    case Stop => StopResult(s, y).0
    case Discard => DiscardResult(s, y).0
  }

  // ----- The class -----

  class DiagnosticsTraceService {
    var phase: Phase
    var startedAtEpoch: Option<int>
    var stoppedAtEpoch: Option<int>
    var etlPath: string
    var suggestedFileName: string
    var scope: Scope
    var tuneChannels: bool
    var didTuneChannels: bool
    const trace: EtwTraceSession
    const log: EventLog

    ghost function Value(): Service
      reads this, trace, log
    {
      Service(phase, startedAtEpoch, stoppedAtEpoch, etlPath, suggestedFileName, scope,
              tuneChannels, didTuneChannels, trace.sessionHandle, log.maximum)
    }

    constructor ()
      ensures Value() == INITIAL
    {
      phase, startedAtEpoch, stoppedAtEpoch, etlPath, suggestedFileName := Idle, None, None, [], [];
      scope, tuneChannels, didTuneChannels := Full, true, false;
      trace := new EtwTraceSession();
      log := new EventLog();
    }

    method Start(requestedScope: Scope, tune: bool, y: System) returns (reply: Reply)
      modifies this, trace, log
      ensures (Value(), reply) == StartResult(old(Value()), y, requestedScope, tune)
    {
      if phase == Recording {
        return RecordingInProgress;
      }
      if phase == Ready {
        if etlPath != [] && !y.removes {
          return PreviousCaptureDeleteFailed;
        }
        stoppedAtEpoch, startedAtEpoch, suggestedFileName := None, None, [];
        phase := Idle;
      }
      reply := StartIdle(requestedScope, tune, y);
    }

    method StartIdle(requestedScope: Scope, tune: bool, y: System) returns (reply: Reply)
      modifies this, trace, log
      ensures (Value(), reply) == StartIdleResult(old(Value()), y, requestedScope, tune)
    {
      scope, tuneChannels, didTuneChannels := requestedScope, tune, false;
      etlPath, suggestedFileName := y.path, y.fileName;
      if tuneChannels {
        var tuned := log.TuneScopeChannels(scope, false, y.tuneFails);
        if !tuned {
          etlPath, suggestedFileName := [], [];
          return ChannelTuneFailed;
        }
        didTuneChannels := true;
      }
      reply := BeginTrace(y);
    }

    method BeginTrace(y: System) returns (reply: Reply)
      modifies this, trace, log
      ensures (Value(), reply) == StartTrace(old(Value()), y)
    {
      var outcome := trace.Start(y.trace, scope);
      if outcome != Ok {
        if didTuneChannels {
          var restored := log.TuneScopeChannels(scope, true, y.restoreFails);
          if !restored {
            return ChannelTuneFailed;
          }
        }
        didTuneChannels := false;
        etlPath, suggestedFileName, startedAtEpoch, stoppedAtEpoch := [], [], None, None;
        return TraceStartFailed;
      }
      startedAtEpoch, stoppedAtEpoch, phase := Some(y.now), None, Recording;
      reply := Done;
    }

    method Stop(y: System) returns (reply: Reply)
      modifies this, trace, log
      ensures (Value(), reply) == StopResult(old(Value()), y)
    {
      if phase != Recording {
        return NotRecording;
      }
      var stopped := trace.Stop(y.trace);
      if !stopped {
        return TraceStopFailed;
      }
      if didTuneChannels && tuneChannels {
        var restored := log.TuneScopeChannels(scope, true, y.restoreFails);
        if !restored {
          stoppedAtEpoch, phase := Some(y.now), Ready;
          return ChannelTuneFailed;
        }
      }
      stoppedAtEpoch, phase := Some(y.now), Ready;
      reply := Done;
    }

    method GetEtlPathForDownload(y: System) returns (r: Download)
      ensures r == PathForDownload(Value(), y)
      ensures Consistent(Value()) ==>
        && r != PathUnknown && (r.Path? <==> phase == Ready && y.onDisk) && (r.Path? ==> r.path == etlPath)
    {
      if phase != Ready {
        return NotReady;
      }
      if etlPath == [] {
        return PathUnknown;
      }
      if !y.onDisk {
        return FileMissing;
      }
      r := Path(etlPath);
    }

    method DiscardCapture(y: System) returns (reply: Reply)
      modifies this, trace, log
      ensures (Value(), reply) == DiscardResult(old(Value()), y)
    {
      if phase == Recording {
        var stopped := trace.Stop(y.trace);
        if !stopped {
          return TraceStopFailed;
        }
        if didTuneChannels && tuneChannels {
          var restored := log.TuneScopeChannels(scope, true, y.restoreFails);
          if !restored {
            stoppedAtEpoch, phase := Some(y.now), Ready;
            return ChannelTuneFailed;
          }
        }
        stoppedAtEpoch, phase := Some(y.now), Ready;
      } else if phase == Ready && didTuneChannels && tuneChannels {
        var restored := log.TuneScopeChannels(scope, true, y.restoreFails);
        if !restored {
          stoppedAtEpoch, phase := Some(y.now), Ready;
          return ChannelTuneFailed;
        }
      }
      if etlPath != [] && !y.removes {
        return CaptureDeleteFailed;
      }
      etlPath, suggestedFileName, startedAtEpoch, stoppedAtEpoch := [], [], None, None;
      didTuneChannels, phase := false, Idle;
      reply := Done;
    }
  }

  // ----- What holds in every run, whatever fails -----

  predicate Consistent(s: Service)
  {
    match s.phase
    case Idle => s.startedAt.None? && s.stoppedAt.None?
    case Recording =>
      s.session != 0 && s.path != [] && s.fileName != [] && s.startedAt.Some? && s.stoppedAt.None? && s.didTune == s.tune
    case Ready =>
      s.session == 0 && s.path != [] && s.fileName != [] && s.startedAt.Some? && s.stoppedAt.Some?
  }

  datatype Call = Call(request: Request, system: System)

  /** The service after the first `n` of `calls`, from `s` on. */
  function Continued(s: Service, calls: seq<Call>, n: nat): Service
    requires n <= |calls|
  {
    if n == 0 then s else Step(Continued(s, calls, n - 1), calls[n - 1].request, calls[n - 1].system)
  }

  function Run(calls: seq<Call>, n: nat): Service
    requires n <= |calls|
  {
    Continued(INITIAL, calls, n)
  }

  predicate AllPlausible(calls: seq<Call>)
  {
    forall i | 0 <= i < |calls| :: Plausible(calls[i].system)
  }

  lemma StartConsistent(s: Service, y: System, scope: Scope, tune: bool)
    requires Consistent(s) && Plausible(y)
    ensures Consistent(StartResult(s, y, scope, tune).0)
  {
  }

  lemma EndConsistent(s: Service, y: System)
    requires Consistent(s) && s.phase.Recording?
    ensures Consistent(EndRecording(s, y).0)
  {
  }

  lemma StepConsistent(s: Service, r: Request, y: System)
    requires Consistent(s) && Plausible(y)
    ensures Consistent(Step(s, r, y))
  {
    if r.Start? {
      StartConsistent(s, y, r.scope, r.tune);
    } else if s.phase.Recording? {
      EndConsistent(s, y);
    }
  }

  lemma {:induction false} AlwaysConsistent(calls: seq<Call>, n: nat)
    requires n <= |calls| && AllPlausible(calls)
    ensures Consistent(Run(calls, n))
  {
    if n != 0 {
      AlwaysConsistent(calls, n - 1);
      StepConsistent(Run(calls, n - 1), calls[n - 1].request, calls[n - 1].system);
    }
  }

  /** A finished recording can always be named: the reply that its path is unknown never occurs. */
  lemma PathAlwaysKnown(calls: seq<Call>, n: nat, y: System)
    requires n <= |calls| && AllPlausible(calls)
    ensures PathForDownload(Run(calls, n), y) != PathUnknown
  {
    AlwaysConsistent(calls, n);
  }

  predicate Begins(calls: seq<Call>, n: nat)
    requires 0 < n <= |calls|
  {
    !Run(calls, n - 1).phase.Recording? && Run(calls, n).phase.Recording?
  }

  /** The position just after the last call among the first `n` that began a recording. */
  function LastBegun(calls: seq<Call>, n: nat): (i: nat)
    requires n <= |calls|
    ensures i <= n
  {
    if n == 0 then 0 else if Begins(calls, n) then n else LastBegun(calls, n - 1)
  }

  /** Where a recording comes from. */
  datatype Origin = Origin(path: string, fileName: string, scope: Scope, tune: bool, startedAt: Option<int>)

  function OriginGiven(call: Call): Origin
    requires call.request.Start?
  {
    Origin(call.system.path, call.system.fileName, call.request.scope, call.request.tune, Some(call.system.now))
  }

  function OriginOf(s: Service): Origin
  {
    Origin(s.path, s.fileName, s.scope, s.tune, s.startedAt)
  }

  lemma StepKeepsOrigin(s: Service, r: Request, y: System)
    requires !Step(s, r, y).phase.Idle?
    ensures if s.phase.Recording? || !Step(s, r, y).phase.Recording?
            then !s.phase.Idle? && OriginOf(Step(s, r, y)) == OriginOf(s)
            else r.Start? && OriginOf(Step(s, r, y)) == Origin(y.path, y.fileName, r.scope, r.tune, Some(y.now))
  {
  }

  lemma OriginAfterCall(calls: seq<Call>, n: nat)
    requires 0 < n <= |calls| && !Run(calls, n).phase.Idle?
    ensures
      if Begins(calls, n) then calls[n - 1].request.Start? && OriginOf(Run(calls, n)) == OriginGiven(calls[n - 1])
      else !Run(calls, n - 1).phase.Idle? && OriginOf(Run(calls, n)) == OriginOf(Run(calls, n - 1))
  {
    StepKeepsOrigin(Run(calls, n - 1), calls[n - 1].request, calls[n - 1].system);
  }

  /** In every run, path, file name, scope, tuning and start stamp of what is recording or recorded are
      those of the last start that began a recording. */
  lemma {:induction false} OriginOfLastBegun(calls: seq<Call>, n: nat)
    requires n <= |calls| && !Run(calls, n).phase.Idle?
    ensures var i := LastBegun(calls, n);
      i > 0 && calls[i - 1].request.Start? && OriginOf(Run(calls, n)) == OriginGiven(calls[i - 1])
  {
    if n != 0 {
      OriginAfterCall(calls, n);
      if !Begins(calls, n) {
        OriginOfLastBegun(calls, n - 1);
      }
    }
  }

  lemma PathOfLastBegun(calls: seq<Call>, n: nat)
    requires n <= |calls| && !Run(calls, n).phase.Idle?
    ensures LastBegun(calls, n) > 0 && Run(calls, n).path == calls[LastBegun(calls, n) - 1].system.path
  {
    OriginOfLastBegun(calls, n);
  }

  /** In every run, a download is served exactly while a finished recording is on disk, and what it
      serves is the file that the last start to begin a recording was given. */
  lemma DownloadServesLastRecording(calls: seq<Call>, n: nat, y: System)
    requires n <= |calls| && AllPlausible(calls)
    ensures var r := PathForDownload(Run(calls, n), y);
      && (r.Path? <==> Run(calls, n).phase.Ready? && y.onDisk)
      && (r.Path? ==> LastBegun(calls, n) > 0 && r.path == calls[LastBegun(calls, n) - 1].system.path)
  {
    AlwaysConsistent(calls, n);
    if Run(calls, n).phase.Ready? {
      PathOfLastBegun(calls, n);
    }
  }

  // ----- What the replies mean -----

  ghost predicate SomeFails(scope: Scope, failing: set<Channel>)
  {
    exists c: Channel :: Recorded(c, scope) && c in failing
  }

  /** Each reply of a start says where it stopped, and only success leaves a new recording. */
  lemma StartReplies(s: Service, y: System, scope: Scope, tune: bool)
    requires Consistent(s)
    ensures var (t, reply) := StartResult(s, y, scope, tune);
      var reached := !s.phase.Recording? && !(s.phase.Ready? && !y.removes && s.path != []);
      var tuned := reached && !(tune && SomeFails(scope, y.tuneFails));
      && (reply == RecordingInProgress <==> s.phase.Recording?)
      && (reply == PreviousCaptureDeleteFailed <==> !s.phase.Recording? && !reached)
      && (reply == ChannelTuneFailed <==>
            reached && tune && (!tuned || (!StartsTrace(s, y, scope) && SomeFails(scope, y.restoreFails))))
      && (reply == TraceStartFailed <==> tuned && !StartsTrace(s, y, scope) && !(tune && SomeFails(scope, y.restoreFails)))
      && (reply == Done <==> tuned && StartsTrace(s, y, scope))
      && (reply == Done <==> !s.phase.Recording? && t.phase.Recording?)
      && (!reached ==> t == s)
  {
    FailsInScope(scope, y.tuneFails);
    FailsInScope(scope, y.restoreFails);
  }

  /** Each reply of a stop says where it stopped; short of the trace nothing changes, and from there
      on the recording is finished and stamped. */
  lemma StopReplies(s: Service, y: System)
    requires Consistent(s)
    ensures var (t, reply) := StopResult(s, y);
      && (reply == NotRecording <==> !s.phase.Recording?)
      && (reply == TraceStopFailed <==> s.phase.Recording? && !y.trace.stops)
      && (reply == ChannelTuneFailed <==>
            s.phase.Recording? && y.trace.stops && s.tune && SomeFails(s.scope, y.restoreFails))
      && (reply in {NotRecording, TraceStopFailed} ==> t == s)
      && (reply in {Done, ChannelTuneFailed} ==> t.phase.Ready? && t.session == 0 && t.stoppedAt == Some(y.now))
      && reply in {NotRecording, TraceStopFailed, ChannelTuneFailed, Done}
  {
    FailsInScope(s.scope, y.restoreFails);
  }

  /** Each reply of a discard says where it stopped; success leaves nothing of the recording. */
  lemma DiscardReplies(s: Service, y: System)
    requires Consistent(s)
    ensures var (t, reply) := DiscardResult(s, y);
      var ended := !(s.phase.Recording? && !y.trace.stops);
      var restored := ended && !(!s.phase.Idle? && s.didTune && s.tune && SomeFails(s.scope, y.restoreFails));
      && (reply == TraceStopFailed <==> !ended)
      && (reply == ChannelTuneFailed <==> ended && !restored)
      && (reply == CaptureDeleteFailed <==> restored && s.path != [] && !y.removes)
      && (reply == Done <==> restored && (s.path == [] || y.removes))
      && (reply == Done ==> t.phase.Idle? && OriginOf(t) == Origin([], [], s.scope, s.tune, None) && t.stoppedAt == None)
      && (!ended ==> t == s)
  {
    FailsInScope(s.scope, y.restoreFails);
  }

  // ----- Channel conservation -----

  /** Exactly the recorded scope's channels are at maximum visibility, and only while recording. */
  predicate Conserved(s: Service)
  {
    s.maximum == if s.phase.Recording? && s.tune then ChannelSet(s.scope) else {}
  }

  /** What a start owes the channels: the trace must start, or every channel must be put back; and
      tuning must not stop half-way. */
  predicate StartKeepsChannels(s: Service, y: System, scope: Scope, tune: bool)
  {
    var channels := Channels(scope);
    || !tune || s.phase.Recording? || (s.phase.Ready? && s.path != [] && !y.removes)
    || (if Fails(channels, y.tuneFails) then channels[0] in y.tuneFails
        else StartsTrace(s, y, scope) || !Fails(channels, y.restoreFails))
  }

  lemma StartConserves(s: Service, y: System, scope: Scope, tune: bool)
    requires Consistent(s) && Conserved(s)
    ensures Conserved(StartResult(s, y, scope, tune).0) <==> StartKeepsChannels(s, y, scope, tune)
  {
    ReachedAll(Channels(scope), y.tuneFails);
    ReachedAll(Channels(scope), y.restoreFails);
  }

  /** Ending a recording keeps the channels exactly if it cannot be stopped or all of them restore. */
  predicate EndKeepsChannels(s: Service, y: System)
  {
    !s.phase.Recording? || !y.trace.stops || !s.tune || !Fails(Channels(s.scope), y.restoreFails)
  }

  lemma StopConserves(s: Service, y: System)
    requires Consistent(s) && Conserved(s)
    ensures Conserved(StopResult(s, y).0) <==> EndKeepsChannels(s, y)
  {
    ReachedAll(Channels(s.scope), y.restoreFails);
  }

  lemma DiscardConserves(s: Service, y: System)
    requires Consistent(s) && Conserved(s)
    ensures Conserved(DiscardResult(s, y).0) <==> EndKeepsChannels(s, y)
  {
    ReachedAll(Channels(s.scope), y.restoreFails);
  }

  /** A call during which no channel the service touches fails to change. */
  predicate Smooth(calls: seq<Call>)
  {
    forall i | 0 <= i < |calls| :: calls[i].system.tuneFails == {} && calls[i].system.restoreFails == {}
  }

  lemma NoneFails(scope: Scope)
    ensures !Fails(Channels(scope), {})
  {
    ReachedAll(Channels(scope), {});
  }

  lemma {:induction false} AlwaysConserved(calls: seq<Call>, n: nat)
    requires n <= |calls| && AllPlausible(calls) && Smooth(calls)
    ensures Conserved(Run(calls, n))
  {
    if n != 0 {
      var s, call := Run(calls, n - 1), calls[n - 1];
      AlwaysConsistent(calls, n - 1);
      AlwaysConserved(calls, n - 1);
      StepConserves(s, call.request, call.system);
    }
  }

  /** The same channel by channel: the driver's is up exactly while the driver, or everything, is
      recorded with tuning, and the two of user space while user space, or everything, is. */
  lemma ChannelsWhileRecording(calls: seq<Call>, n: nat)
    requires n <= |calls| && AllPlausible(calls) && Smooth(calls)
    ensures var s := Run(calls, n);
      && (DriverChannel in s.maximum <==> s.phase.Recording? && s.tune && (s.scope == Full || s.scope == Driver))
      && (ClientChannel in s.maximum <==> s.phase.Recording? && s.tune && (s.scope == Full || s.scope == Userspace))
      && (CliChannel in s.maximum <==> s.phase.Recording? && s.tune && (s.scope == Full || s.scope == Userspace))
  {
    AlwaysConserved(calls, n);
    ScopeRecords(Run(calls, n).scope, DriverChannel);
    ScopeRecords(Run(calls, n).scope, ClientChannel);
    ScopeRecords(Run(calls, n).scope, CliChannel);
  }

  lemma StepConserves(s: Service, r: Request, y: System)
    requires Consistent(s) && Conserved(s) && y.tuneFails == {} && y.restoreFails == {}
    ensures Conserved(Step(s, r, y))
  {
    NoneFails(s.scope);
    match r
    case Start(scope, tune) =>
      NoneFails(scope);
      StartConserves(s, y, scope, tune);
    case Stop => StopConserves(s, y);
    case Discard => DiscardConserves(s, y);
  }

  /** A stop whose restore failed is made good by discarding the recording. */
  lemma DiscardRestores(s: Service, y: System, z: System)
    requires Consistent(s) && s.phase.Recording? && s.tune && y.trace.stops
    requires Fails(Channels(s.scope), y.restoreFails)
    requires !Fails(Channels(s.scope), z.restoreFails) && z.removes
    ensures var t := StopResult(s, y).0;
      && t.phase.Ready? && StopResult(s, y).1 == ChannelTuneFailed
      && DiscardResult(t, z).0.phase.Idle? && DiscardResult(t, z).1 == Done
      && DiscardResult(t, z).0.maximum == s.maximum - ChannelSet(s.scope)
  {
    ReachedAll(Channels(s.scope), y.restoreFails);
    ReachedAll(Channels(s.scope), z.restoreFails);
  }

  lemma StepFromIdle(s: Service, r: Request, y: System)
    requires s.phase.Idle? && !r.Start?
    ensures Step(s, r, y).phase.Idle? && Step(s, r, y).maximum == s.maximum
  {
  }

  lemma {:induction false} IdleKeepsChannels(s: Service, calls: seq<Call>, n: nat)
    requires n <= |calls| && s.phase.Idle? && forall i | 0 <= i < n :: !calls[i].request.Start?
    ensures Continued(s, calls, n).phase.Idle? && Continued(s, calls, n).maximum == s.maximum
  {
    if n != 0 {
      IdleKeepsChannels(s, calls, n - 1);
      StepFromIdle(Continued(s, calls, n - 1), calls[n - 1].request, calls[n - 1].system);
    }
  }

  /** But nothing short of another start makes good a start that did not keep the channels: whatever
      stops and discards follow, and whatever they are answered, the same channels stay at maximum
      visibility, whether the tuning or the restoring had failed. */
  lemma FailedStartLeaks(s: Service, y: System, scope: Scope, tune: bool, calls: seq<Call>, n: nat)
    requires Consistent(s) && Conserved(s) && !StartKeepsChannels(s, y, scope, tune)
    requires n <= |calls| && forall i | 0 <= i < n :: !calls[i].request.Start?
    ensures var t := StartResult(s, y, scope, tune).0;
      t.phase.Idle? && t.maximum != {} && Continued(t, calls, n).maximum == t.maximum
  {
    StartConserves(s, y, scope, tune);
    IdleKeepsChannels(StartResult(s, y, scope, tune).0, calls, n);
  }

  /** A first start whose second channel cannot be tuned leaves the driver's channel behind. */
  lemma FirstStartCanLeak(y: System, calls: seq<Call>, n: nat)
    requires y.tuneFails == {ClientChannel}
    requires n <= |calls| && forall i | 0 <= i < n :: !calls[i].request.Start?
    ensures !StartKeepsChannels(INITIAL, y, Full, true)
    ensures Continued(StartResult(INITIAL, y, Full, true).0, calls, n).maximum == {DriverChannel}
  {
    ReachedFirst(DriverChannel, [ClientChannel, CliChannel], y.tuneFails);
    ReachedFirst(ClientChannel, [CliChannel], y.tuneFails);
    assert Channels(Full) == [DriverChannel] + [ClientChannel, CliChannel];
    assert [ClientChannel, CliChannel] == [ClientChannel] + [CliChannel];
    FailedStartLeaks(INITIAL, y, Full, true, calls, n);
  }

  // ----- A session that cannot be stopped -----

  predicate Blocked(s: Service)
  {
    s.phase.Idle? && s.session != 0
  }

  /** The start gets as far as the trace session. */
  predicate ReachesTrace(s: Service, y: System, scope: Scope, tune: bool)
  {
    && !s.phase.Recording? && !(s.phase.Ready? && s.path != [] && !y.removes)
    && !(tune && Fails(Channels(scope), y.tuneFails))
  }

  /** The request starts a session whose rollback cannot stop it. */
  predicate RollbackFails(s: Service, r: Request, y: System)
  {
    r.Start? && ReachesTrace(s, y, r.scope, r.tune) && StartOutcome(s.session, y.trace, r.scope) == StopFailed
  }

  predicate RollbackFailsAt(calls: seq<Call>, i: nat)
    requires i < |calls|
  {
    RollbackFails(Run(calls, i), calls[i].request, calls[i].system)
  }

  lemma StepBlocks(s: Service, r: Request, y: System)
    requires Consistent(s)
    ensures Blocked(Step(s, r, y)) <==> Blocked(s) || RollbackFails(s, r, y)
    ensures Blocked(s) ==> Step(s, r, y).session == s.session
  {
  }

  lemma BlockedNext(calls: seq<Call>, n: nat)
    requires 0 < n <= |calls| && AllPlausible(calls)
    ensures Blocked(Run(calls, n)) <==> Blocked(Run(calls, n - 1)) || RollbackFailsAt(calls, n - 1)
  {
    AlwaysConsistent(calls, n - 1);
    StepBlocks(Run(calls, n - 1), calls[n - 1].request, calls[n - 1].system);
  }

  ghost predicate RollbackFailedBefore(calls: seq<Call>, n: nat)
    requires n <= |calls|
  {
    exists i | 0 <= i < n :: RollbackFailsAt(calls, i)
  }

  lemma FailedBeforeNext(calls: seq<Call>, n: nat)
    requires 0 < n <= |calls|
    ensures RollbackFailedBefore(calls, n) <==> RollbackFailedBefore(calls, n - 1) || RollbackFailsAt(calls, n - 1)
  {
  }

  /** In every run the service is idle with a session on its hands exactly if the rollback of some
      earlier start could not stop it; from then on no request reaches a recording. */
  lemma {:induction false} BlockedForever(calls: seq<Call>, n: nat)
    requires n <= |calls| && AllPlausible(calls)
    ensures Blocked(Run(calls, n)) <==> RollbackFailedBefore(calls, n)
  {
    if n != 0 {
      BlockedForever(calls, n - 1);
      BlockedNext(calls, n);
      FailedBeforeNext(calls, n);
    }
  }

  /** A first start reaches it: one provider is refused and the session does not stop. */
  lemma FirstStartCanBlock(scope: Scope, refused: Provider, path: string, fileName: string, later: seq<Call>)
    requires refused in ProvidersForScope(scope) && path != [] && fileName != [] && AllPlausible(later)
    ensures
      var answers := Answers(Handle(1), false, OtherError, {refused}, false);
      var first := Call(Start(scope, false), System(answers, {}, {}, true, true, 0, path, fileName));
      forall n | 0 < n <= |later| + 1 :: Blocked(Run([first] + later, n))
  {
    var answers := Answers(Handle(1), false, OtherError, {refused}, false);
    var first := Call(Start(scope, false), System(answers, {}, {}, true, true, 0, path, fileName));
    var calls := [first] + later;
    assert Run(calls, 0) == INITIAL && calls[0] == first;
    assert RollbackFailsAt(calls, 0);
    forall n | 0 < n <= |calls| ensures Blocked(Run(calls, n)) {
      BlockedForever(calls, n);
      assert RollbackFailedBefore(calls, n);
    }
  }
}
