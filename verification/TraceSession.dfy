/** Watchdog/EtwTraceSession.cpp: the one trace session, started with a retry and rolled back when a
    provider cannot be enabled. */
module TraceSession {

  datatype Scope = Full | Driver | Userspace

  datatype Provider = DriverLogging | DriverTracing | ClientLogging | ClientTracing | CliLogging | CliTracing

  function ProvidersForScope(scope: Scope): seq<Provider>
  {
    match scope
    case Full => [DriverLogging, DriverTracing, ClientLogging, ClientTracing, CliLogging, CliTracing]
    case Driver => [DriverLogging, DriverTracing]
    case Userspace => [ClientLogging, ClientTracing, CliLogging, CliTracing]
  }

  type TraceHandle = h: nat | h != 0 witness 1

  /** StartTraceW's answers. */
  datatype Started = Handle(handle: TraceHandle) | AlreadyExists | OtherError

  /** What the system answers during one call. */
  datatype Answers = Answers(
    first: Started,          // to StartTraceW
    staleStopped: bool,      // TryStopStaleOurSession
    second: Started,         // to StartTraceW tried again
    refused: set<Provider>,  // EnableTraceEx2 fails for these
    stops: bool)             // ControlTraceW(STOP) succeeds

  datatype Outcome = Ok | SessionExists | StartTraceFailed | EnableTraceFailed | StopFailed

  /** The handle a start obtains, zero for none. */
  function Obtained(a: Answers): nat
  {
    match a.first
    case Handle(h) => h
    case AlreadyExists => if a.staleStopped && a.second.Handle? then a.second.handle else 0
    case OtherError => 0
  }

  predicate Refuses(a: Answers, scope: Scope)
  {
    exists g | g in ProvidersForScope(scope) :: g in a.refused
  }

  /** The driver's two providers are asked for unless only user space is recorded, and the other four
      unless only the driver is. */
  predicate Asked(g: Provider, scope: Scope)
  {
    match g
    case DriverLogging | DriverTracing => scope != Userspace
    case ClientLogging | ClientTracing | CliLogging | CliTracing => scope != Driver
  }

  lemma ScopeAsks(scope: Scope, g: Provider)
    ensures g in ProvidersForScope(scope) <==> Asked(g, scope)
  {
  }

  lemma EnabledAsAsked(enabled: set<Provider>, scope: Scope)
    requires enabled == set g | g in ProvidersForScope(scope)
    ensures forall g: Provider :: g in enabled <==> Asked(g, scope)
  {
    forall g: Provider ensures g in enabled <==> Asked(g, scope) { ScopeAsks(scope, g); }
  }

  /** How a start ends, by what the system answered. */
  function StartOutcome(session: nat, a: Answers, scope: Scope): Outcome
  {
    if session != 0 then SessionExists
    else if Obtained(a) == 0 then StartTraceFailed
    else if !Refuses(a, scope) then Ok
    else if a.stops then EnableTraceFailed
    else StopFailed
  }

  /** A session is left behind exactly by success and by a rollback that failed. */
  function SessionAfterStart(session: nat, a: Answers, scope: Scope): nat
  {
    if session != 0 then session
    else if StartOutcome(session, a, scope) in {Ok, StopFailed} then Obtained(a)
    else 0
  }

  /** Told by the answers alone: without a session of its own, a start is left with one exactly if the
      first attempt, or the second after a stale session was stopped, yields a handle, and then either
      no provider asked for is refused, which is success, or the session cannot be stopped again. */
  lemma StartIsRead(a: Answers, scope: Scope)
    ensures var started := a.first.Handle? || (a.first.AlreadyExists? && a.staleStopped && a.second.Handle?);
      var refused := exists g: Provider :: Asked(g, scope) && g in a.refused;
      && (SessionAfterStart(0, a, scope) != 0 <==> started && (!refused || !a.stops))
      && (SessionAfterStart(0, a, scope) != 0 ==>
            SessionAfterStart(0, a, scope) == if a.first.Handle? then a.first.handle else a.second.handle)
      && (StartOutcome(0, a, scope) == Ok <==> started && !refused)
      && (StartOutcome(0, a, scope) == StopFailed <==> started && refused && !a.stops)
      && (StartOutcome(0, a, scope) == EnableTraceFailed <==> started && refused && a.stops)
      && (StartOutcome(0, a, scope) == StartTraceFailed <==> !started)
  {
    forall g: Provider ensures g in ProvidersForScope(scope) <==> Asked(g, scope) { ScopeAsks(scope, g); }
  }

  function SessionAfterStop(session: nat, a: Answers): nat
  {
    if a.stops then 0 else session
  }

  class EtwTraceSession {
    var sessionHandle: nat
    ghost var enabled: set<Provider>

    constructor ()
      ensures sessionHandle == 0
    {
      sessionHandle, enabled := 0, {};
    }

    method Start(a: Answers, scope: Scope) returns (outcome: Outcome)
      modifies this
      ensures outcome == StartOutcome(old(sessionHandle), a, scope)
      ensures sessionHandle == SessionAfterStart(old(sessionHandle), a, scope)
      ensures outcome == Ok ==> forall g: Provider :: g in enabled <==> Asked(g, scope)
    {
      if sessionHandle != 0 {
        return SessionExists;
      }
      var status := a.first;
      if status.Handle? {
        sessionHandle := status.handle;
      } else {
        sessionHandle := 0;
        if status.AlreadyExists? && a.staleStopped {
          status := a.second;
          if status.Handle? {
            sessionHandle := status.handle;
          }
        }
        if !status.Handle? {
          sessionHandle := 0;
          return StartTraceFailed;
        }
      }
      outcome := EnableProviders(a, scope);
    }

    /** The provider loop, which rolls back at the first refusal. */
    method EnableProviders(a: Answers, scope: Scope) returns (outcome: Outcome)
      requires sessionHandle != 0
      modifies this
      ensures outcome == if !Refuses(a, scope) then Ok else if a.stops then EnableTraceFailed else StopFailed
      ensures sessionHandle == if outcome == EnableTraceFailed then 0 else old(sessionHandle)
      ensures outcome == Ok ==> forall g: Provider :: g in enabled <==> Asked(g, scope)
    {
      enabled := {};
      var providers := ProvidersForScope(scope);
      for i := 0 to |providers|
        invariant sessionHandle == old(sessionHandle)
        invariant forall k | 0 <= k < i :: providers[k] !in a.refused
        invariant enabled == set g | g in providers[..i]
      {
        if providers[i] in a.refused {
          assert providers[i] in ProvidersForScope(scope);
          var stopped := Stop(a);
          if !stopped {
            return StopFailed;
          }
          return EnableTraceFailed;
        }
        assert providers[..i + 1] == providers[..i] + [providers[i]];
        enabled := enabled + {providers[i]};
      }
      assert providers[..|providers|] == providers;
      EnabledAsAsked(enabled, scope);
      outcome := Ok;
    }

    method Stop(a: Answers) returns (ok: bool)
      modifies this`sessionHandle
      ensures ok == (old(sessionHandle) == 0 || a.stops)
      ensures sessionHandle == SessionAfterStop(old(sessionHandle), a)
    {
      if sessionHandle == 0 {
        return true;
      }
      if !a.stops {
        return false;
      }
      sessionHandle := 0;
      ok := true;
    }
  }
}
