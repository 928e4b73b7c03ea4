/** The open verdict of HidHide/src/Logic.c when the four reads of OnDeviceFileCreate happen at
    different times.  Everything else, opens of other threads included, runs in between, one whole
    event of AccessControl at a time; OpenSections takes these apart as well. */
module OpenReads {
  import opened Names
  import opened MultiString
  import opened VerdictCache
  import opened AccessControl
  import opened OpenAnswers

  function AnswersOf(sys: System, s: State, e: Event): Answers
    requires e.Open?
  {
    Answers(s.active, Blacklisted(sys, s.blacklist, s.session, e.path, e.sessionId),
            CheckStatus(sys.fold, s.table, ProcessId(e.handle), s.whitelist) == InJob, s.inverse)
  }

  function AnswersAt(sys: System, init: State, h: seq<Event>, n: nat, e: Event): Answers
    requires n <= |h| && e.Open?
  {
    AnswersOf(sys, Run(sys, init, h, n), e)
  }

  /** What an open would learn at every moment of a history. */
  function Trace(sys: System, init: State, h: seq<Event>, e: Event): (t: seq<Answers>)
    requires e.Open?
    ensures |t| == |h| + 1 && forall n | 0 <= n <= |h| :: t[n] == AnswersAt(sys, init, h, n, e)
  {
    seq(|h| + 1, n requires 0 <= n <= |h| => AnswersAt(sys, init, h, n, e))
  }

  /** The verdict when the four reads happen at `m`. */
  predicate DeniedAcross(sys: System, init: State, h: seq<Event>, m: Moments, e: Event)
    requires InOrder(m, |h|) && e.Open?
  {
    Denies(ProcessId(e.handle), Across(Trace(sys, init, h, e), m))
  }

  /** The verdict of the atomic open at the moment `n`. */
  predicate DeniedAt(sys: System, init: State, h: seq<Event>, n: nat, e: Event)
    requires n <= |h| && e.Open?
  {
    AccessDenied(sys, Run(sys, init, h, n), e)
  }

  /** In one step, the code learns all four at once. */
  lemma AtomicVerdict(sys: System, init: State, h: seq<Event>, n: nat, e: Event)
    requires n <= |h| && e.Open?
    ensures DeniedAt(sys, init, h, n, e) <==> Denies(ProcessId(e.handle), AnswersAt(sys, init, h, n, e))
  {
  }

  /** For every interleaving the verdict is the documented rule with each part read at its own time. */
  lemma AcrossFollowsRule(sys: System, init: State, h: seq<Event>, m: Moments, e: Event)
    requires Initial(init) && InOrder(m, |h|) && e.Open?
    ensures DeniedAcross(sys, init, h, m, e) <==>
      && ProcessId(e.handle) != SYSTEM_PID
      && ActiveAt(init, h, m.active)
      && HiddenAt(sys, init, h, m.hidden, e.path, e.sessionId)
      && ListedAt(sys, init, h, m.listed, ProcessId(e.handle)) == InverseAt(init, h, m.inverse)
  {
    SettingsAt(sys, init, h, m.active);
    SettingsAt(sys, init, h, m.inverse);
    HiddenIsBlacklisted(sys, init, h, m.hidden, e.path, e.sessionId);
    ListedIsChecked(sys, init, h, m.listed, ProcessId(e.handle));
  }

  lemma ListedIsChecked(sys: System, init: State, h: seq<Event>, n: nat, pid: nat)
    requires Initial(init) && n <= |h|
    ensures var s := Run(sys, init, h, n);
      (CheckStatus(sys.fold, s.table, pid, s.whitelist) == InJob) == ListedAt(sys, init, h, n, pid)
  {
    SettingsAt(sys, init, h, n);
    NamesAt(sys, init, h, n, pid);
    AlwaysCoherent(sys, init, h, n);
    CheckIsScan(sys.fold, Run(sys, init, h, n).table, pid, Run(sys, init, h, n).whitelist);
  }

  // ----- Which events change which answers -----

  /** No event changes both the caller's listing and the sense of the list. */
  lemma EventKeepsOne(sys: System, s: State, other: Event, e: Event)
    requires Coherent(sys.fold, s.table, s.whitelist) && e.Open?
    ensures KeepsOne(AnswersOf(sys, s, e), AnswersOf(sys, Step(sys, s, other), e))
  {
  }

  /** Opens change no answer; anything but the exit of the caller itself changes at most one. */
  lemma EventAnswers(sys: System, s: State, other: Event, e: Event)
    requires Coherent(sys.fold, s.table, s.whitelist) && e.Open?
    ensures other.Open? ==> AnswersOf(sys, Step(sys, s, other), e) == AnswersOf(sys, s, e)
    ensures !IsExit(other, ProcessId(e.handle)) ==>
            OneApart(AnswersOf(sys, s, e), AnswersOf(sys, Step(sys, s, other), e))
  {
  }

  // ----- When the verdict is the atomic one of some moment -----

  /** Some moment of the call would have denied it, or granted it, had it been atomic. */
  ghost predicate AtSomeMoment(sys: System, init: State, h: seq<Event>, m: Moments, e: Event, denied: bool)
    requires InOrder(m, |h|) && e.Open?
  {
    exists n | m.active <= n <= m.inverse :: DeniedAt(sys, init, h, n, e) == denied
  }

  lemma SomeMomentIsAtomic(sys: System, init: State, h: seq<Event>, m: Moments, e: Event, denied: bool)
    requires InOrder(m, |h|) && e.Open?
    ensures AtSomeMoment(sys, init, h, m, e, denied) <==>
            SomeMoment(ProcessId(e.handle), Trace(sys, init, h, e), m, denied)
  {
    var t := Trace(sys, init, h, e);
    forall n | 0 <= n <= |h| ensures DeniedAt(sys, init, h, n, e) == Denies(ProcessId(e.handle), t[n]) {
      AtomicVerdict(sys, init, h, n, e);
    }
    if n :| m.active <= n <= m.inverse && Denies(ProcessId(e.handle), t[n]) == denied {
      assert DeniedAt(sys, init, h, n, e) == denied;
    }
  }

  lemma TraceKeepsOne(sys: System, init: State, h: seq<Event>, e: Event, first: nat, last: nat)
    requires Initial(init) && first <= last <= |h| && e.Open?
    ensures StepByStep(Trace(sys, init, h, e), first, last)
  {
    var t := Trace(sys, init, h, e);
    forall k | first <= k < last ensures KeepsOne(t[k], t[k + 1]) {
      AlwaysCoherent(sys, init, h, k);
      EventKeepsOne(sys, Run(sys, init, h, k), h[k], e);
    }
  }

  /** A granted open is never torn: whatever runs between its reads, exits included, it would have
      been granted at some moment of the call. */
  lemma GrantIsAtomic(sys: System, init: State, h: seq<Event>, m: Moments, e: Event)
    requires Initial(init) && InOrder(m, |h|) && e.Open?
    requires !DeniedAcross(sys, init, h, m, e)
    ensures AtSomeMoment(sys, init, h, m, e, false)
  {
    TraceKeepsOne(sys, init, h, e, m.listed, m.inverse);
    GrantIsNeverTorn(ProcessId(e.handle), Trace(sys, init, h, e), m);
    SomeMomentIsAtomic(sys, init, h, m, e, false);
  }

  /** The verdict is that of some moment of the call if and only if it grants, or some moment denies. */
  lemma AtomicExactly(sys: System, init: State, h: seq<Event>, m: Moments, e: Event)
    requires Initial(init) && InOrder(m, |h|) && e.Open?
    ensures AtSomeMoment(sys, init, h, m, e, DeniedAcross(sys, init, h, m, e)) <==>
            !DeniedAcross(sys, init, h, m, e) || AtSomeMoment(sys, init, h, m, e, true)
  {
    if !DeniedAcross(sys, init, h, m, e) {
      GrantIsAtomic(sys, init, h, m, e);
    }
  }

  predicate OnlyOpens(h: seq<Event>, first: nat, last: nat)
    requires last <= |h|
  {
    forall k | first <= k < last :: h[k].Open?
  }

  lemma {:induction false} OpensKeepAnswers(sys: System, init: State, h: seq<Event>, first: nat, last: nat, e: Event)
    requires Initial(init) && first <= last <= |h| && OnlyOpens(h, first, last) && e.Open?
    ensures AnswersAt(sys, init, h, last, e) == AnswersAt(sys, init, h, first, e)
    decreases last
  {
    if first != last {
      OpensKeepAnswers(sys, init, h, first, last - 1, e);
      AlwaysCoherent(sys, init, h, last - 1);
      EventAnswers(sys, Run(sys, init, h, last - 1), h[last - 1], e);
    }
  }

  lemma OpensAreConstant(sys: System, init: State, h: seq<Event>, first: nat, last: nat, e: Event)
    requires Initial(init) && first <= last <= |h| && OnlyOpens(h, first, last) && e.Open?
    ensures Constant(Trace(sys, init, h, e), first, last)
  {
    forall n | first <= n <= last ensures Trace(sys, init, h, e)[n] == Trace(sys, init, h, e)[first] {
      OpensKeepAnswers(sys, init, h, first, n, e);
    }
  }

  /** While only opens run between the first and the last read, the verdict is the atomic one. */
  lemma UndisturbedIsAtomic(sys: System, init: State, h: seq<Event>, m: Moments, e: Event)
    requires Initial(init) && InOrder(m, |h|) && OnlyOpens(h, m.active, m.inverse) && e.Open?
    ensures DeniedAcross(sys, init, h, m, e) <==> DeniedAt(sys, init, h, m.active, e)
  {
    OpensAreConstant(sys, init, h, m.active, m.inverse, e);
    UndisturbedVerdict(ProcessId(e.handle), Trace(sys, init, h, e), m);
    AtomicVerdict(sys, init, h, m.active, e);
  }

  /** One other event in between, unless it is the caller's own exit, is harmless: the verdict is the
      atomic one of the moment before or of the moment after. */
  lemma OneChangeIsAtomic(sys: System, init: State, h: seq<Event>, m: Moments, k: nat, e: Event)
    requires Initial(init) && InOrder(m, |h|) && m.active <= k < m.inverse && e.Open?
    requires !IsExit(h[k], ProcessId(e.handle))
    requires OnlyOpens(h, m.active, k) && OnlyOpens(h, k + 1, m.inverse)
    ensures || (DeniedAcross(sys, init, h, m, e) <==> DeniedAt(sys, init, h, m.active, e))
            || (DeniedAcross(sys, init, h, m, e) <==> DeniedAt(sys, init, h, m.inverse, e))
  {
    OpensAreConstant(sys, init, h, m.active, k, e);
    OpensAreConstant(sys, init, h, k + 1, m.inverse, e);
    AlwaysCoherent(sys, init, h, k);
    EventAnswers(sys, Run(sys, init, h, k), h[k], e);
    OneChangeVerdict(ProcessId(e.handle), Trace(sys, init, h, e), m, k);
    AtomicVerdict(sys, init, h, m.active, e);
    AtomicVerdict(sys, init, h, m.inverse, e);
  }

  /** Two changes are not: hiding is switched off before the device is listed, and still the open that
      read the flag before and the list after is denied, as at no single moment it would have been. */
  lemma TornDenial(sys: System, init: State, buffer: string, e: Event)
    requires Initial(init) && e.Open? && ProcessId(e.handle) != SYSTEM_PID
    requires init.active && !init.inverse && init.blacklist == []
    requires Blacklisted(sys, RegistryDecode(buffer), [], e.path, e.sessionId)
    ensures
      var h := [SetActive(false), SetBlacklist(buffer)];
      && DeniedAcross(sys, init, h, Moments(0, 2, 2, 2), e)
      && forall n | 0 <= n <= 2 :: !DeniedAt(sys, init, h, n, e)
  {
    var h := [SetActive(false), SetBlacklist(buffer)];
    assert Run(sys, init, h, 0) == init;
    assert Run(sys, init, h, 1) == init.(active := false);
    assert Run(sys, init, h, 2) == init.(active := false, blacklist := RegistryDecode(buffer));
  }

  /** Nor is the exit of the caller itself, if its own session entry hid the device: read before and
      after it, the entry is still there and the caller's name is not. */
  lemma OwnExitTears(sys: System, init: State, e: Event)
    requires e.Open? && ProcessId(e.handle) != SYSTEM_PID
    requires AnswersOf(sys, init, e) == Answers(true, true, true, false)
    requires !AnswersOf(sys, Step(sys, init, ProcessChange(e.handle, false)), e).hidden
    ensures
      var h := [ProcessChange(e.handle, false)];
      && DeniedAcross(sys, init, h, Moments(0, 0, 1, 1), e)
      && forall n | 0 <= n <= 1 :: !DeniedAt(sys, init, h, n, e)
  {
    var h := [ProcessChange(e.handle, false)];
    assert Run(sys, init, h, 0) == init;
    assert Run(sys, init, h, 1) == Step(sys, init, h[0]);
  }
}
