/** The open verdict of HidHide/src/Logic.c against single lock sections.  A whitelist swap and its
    flush, and the two sections of a process exit at lines 104-105, are separate here, and registry
    writes happen outside the lock: everything LockProtocol interleaves can fall between any two of
    the four reads, and so can the sections that LockProtocol leaves out. */
module OpenSections {
  import opened Names
  import opened VerdictCache
  import opened SessionBlacklist
  import opened AccessControl
  import opened OpenAnswers
  import L = LockProtocol

  datatype World = World(shared: L.Shared, active: bool, inverse: bool, session: seq<SessionEntry>)

  datatype Section =
    | Lists(action: L.Action)                      // lists and verdict cache, as in LockProtocol
    | StoreActive(active: bool)                    // SetActive
    | StoreInverse(inverse: bool)                  // SetInverse
    | Append(handle: nat, paths: seq<string>)      // the splice of an accepted session add
    | Drop(handle: nat)                            // SessionBlacklistCleanupForPid

  function Next(sys: System, w: World, a: Section): World
  {
    match a
    case Lists(action) => w.(shared := L.Next(sys.fold, w.shared, action))
    case StoreActive(active) => w.(active := active)
    case StoreInverse(inverse) => w.(inverse := inverse)
    case Append(handle, paths) => w.(session := w.session + OwnedBy(handle, paths))
    case Drop(handle) => w.(session := Others(w.session, |w.session|, handle))
  }

  function After(sys: System, init: World, run: seq<Section>, n: nat): World
    requires n <= |run|
  {
    if n == 0 then init else Next(sys, After(sys, init, run, n - 1), run[n - 1])
  }

  // ----- The events of AccessControl, section by section -----

  function StateOf(w: World): State
  {
    State(w.shared.table, w.shared.whitelist.memory, w.shared.blacklist.memory, w.active, w.inverse, w.session)
  }

  /** The lock sections of one event, in order; `t` is the thread it runs on. */
  function SectionsOf(sys: System, s: State, e: Event, t: nat): seq<Section>
  {
    match e
    case LoadImage(handle, name, memory) =>
      if name.None? || handle == 0 then [] else [Lists(L.Register(ProcessId(handle), name.value, memory))]
    case ProcessChange(handle, create) =>
      if create then [] else [Lists(L.Unregister(ProcessId(handle))), Drop(handle)]
    case SetWhitelist(buffer) =>
      [Lists(L.Write(t, L.Whitelist, buffer)), Lists(L.Reload(t, L.Whitelist)), Lists(L.Flush(t))]
    case SetBlacklist(buffer) => [Lists(L.Write(t, L.Blacklist, buffer)), Lists(L.Reload(t, L.Blacklist))]
    case SetActive(active) => [StoreActive(active)]
    case SetInverse(inverse) => [StoreInverse(inverse)]
    case AddSession(handle, _, buffer, _) => if Accepted(e) then [Append(handle, Parsed(buffer))] else []
    case ClearSession(handle) => [Drop(handle)]
    case Open(handle, _, _) => if Challenged(sys, s, e) then [Lists(L.Check(ProcessId(handle)))] else []
  }

  /** Run without a break, the sections of an event are its step. */
  lemma SectionsMakeTheStep(sys: System, w: World, e: Event, t: nat)
    ensures var run := SectionsOf(sys, StateOf(w), e, t);
      StateOf(After(sys, w, run, |run|)) == Step(sys, StateOf(w), e)
  {
    var run := SectionsOf(sys, StateOf(w), e, t);
    if |run| > 0 { AfterOne(sys, w, run, 1); }
    if |run| > 1 { AfterOne(sys, w, run, 2); }
    if |run| > 2 { AfterOne(sys, w, run, 3); }
  }

  lemma AfterOne(sys: System, init: World, run: seq<Section>, n: nat)
    requires 0 < n <= |run|
    ensures After(sys, init, run, n) == Next(sys, After(sys, init, run, n - 1), run[n - 1])
  {
  }

  // ----- The answers at every moment -----

  function AnswersIn(sys: System, w: World, e: Event): Answers
    requires e.Open?
  {
    Answers(w.active, Blacklisted(sys, w.shared.blacklist.memory, w.session, e.path, e.sessionId),
            CheckStatus(sys.fold, w.shared.table, ProcessId(e.handle), w.shared.whitelist.memory) == InJob, w.inverse)
  }

  function Trace(sys: System, init: World, run: seq<Section>, e: Event): (t: seq<Answers>)
    requires e.Open?
    ensures |t| == |run| + 1 && forall n | 0 <= n <= |run| :: t[n] == AnswersIn(sys, After(sys, init, run, n), e)
  {
    seq(|run| + 1, n requires 0 <= n <= |run| => AnswersIn(sys, After(sys, init, run, n), e))
  }

  predicate DeniedAcross(sys: System, init: World, run: seq<Section>, m: Moments, e: Event)
    requires InOrder(m, |run|) && e.Open?
  {
    Denies(ProcessId(e.handle), Across(Trace(sys, init, run, e), m))
  }

  predicate DeniedAt(sys: System, init: World, run: seq<Section>, n: nat, e: Event)
    requires n <= |run| && e.Open?
  {
    Denies(ProcessId(e.handle), AnswersIn(sys, After(sys, init, run, n), e))
  }

  ghost predicate AtSomeMoment(sys: System, init: World, run: seq<Section>, m: Moments, e: Event, denied: bool)
    requires InOrder(m, |run|) && e.Open?
  {
    exists n | m.active <= n <= m.inverse :: DeniedAt(sys, init, run, n, e) == denied
  }

  // ----- A section changes at most one answer -----

  /** Sections that change no answer: checks, registry writes, and image loads and exits of others. */
  predicate Silent(a: Section, pid: nat)
  {
    && a.Lists?
    && (a.action.Check? || a.action.Write? || (a.action.Register? && a.action.pid != pid)
        || (a.action.Unregister? && a.action.pid != pid))
  }

  lemma ListsAnswers(sys: System, w: World, action: L.Action, e: Event)
    requires e.Open?
    ensures var before, after := AnswersIn(sys, w, e), AnswersIn(sys, Next(sys, w, Lists(action)), e);
      && after.active == before.active && after.inverse == before.inverse
      && (after.hidden == before.hidden || after.listed == before.listed)
  {
  }

  lemma SilentAnswers(sys: System, w: World, action: L.Action, e: Event)
    requires e.Open? && Silent(Lists(action), ProcessId(e.handle))
    ensures AnswersIn(sys, Next(sys, w, Lists(action)), e) == AnswersIn(sys, w, e)
  {
  }

  /** Whatever the state of the cache, and without exception. */
  lemma SectionAnswers(sys: System, w: World, a: Section, e: Event)
    requires e.Open?
    ensures OneApart(AnswersIn(sys, w, e), AnswersIn(sys, Next(sys, w, a), e))
    ensures KeepsOne(AnswersIn(sys, w, e), AnswersIn(sys, Next(sys, w, a), e))
    ensures Silent(a, ProcessId(e.handle)) ==> AnswersIn(sys, Next(sys, w, a), e) == AnswersIn(sys, w, e)
  {
    if a.Lists? {
      ListsAnswers(sys, w, a.action, e);
      if Silent(a, ProcessId(e.handle)) {
        SilentAnswers(sys, w, a.action, e);
      }
    }
  }

  // ----- When the verdict is that of some moment -----

  lemma SectionsKeepOne(sys: System, init: World, run: seq<Section>, e: Event, first: nat, last: nat)
    requires first <= last <= |run| && e.Open?
    ensures StepByStep(Trace(sys, init, run, e), first, last)
  {
    var t := Trace(sys, init, run, e);
    forall k | first <= k < last ensures KeepsOne(t[k], t[k + 1]) {
      SectionAnswers(sys, After(sys, init, run, k), run[k], e);
    }
  }

  lemma SomeMomentIs(sys: System, init: World, run: seq<Section>, m: Moments, e: Event, denied: bool)
    requires InOrder(m, |run|) && e.Open?
    ensures AtSomeMoment(sys, init, run, m, e, denied) <==>
            SomeMoment(ProcessId(e.handle), Trace(sys, init, run, e), m, denied)
  {
    var t := Trace(sys, init, run, e);
    forall n | 0 <= n <= |run| ensures DeniedAt(sys, init, run, n, e) == Denies(ProcessId(e.handle), t[n]) {
    }
    if n :| m.active <= n <= m.inverse && Denies(ProcessId(e.handle), t[n]) == denied {
      assert DeniedAt(sys, init, run, n, e) == denied;
    }
  }

  /** At lock granularity a granted open is never torn. */
  lemma GrantIsAtomic(sys: System, init: World, run: seq<Section>, m: Moments, e: Event)
    requires InOrder(m, |run|) && e.Open? && !DeniedAcross(sys, init, run, m, e)
    ensures AtSomeMoment(sys, init, run, m, e, false)
  {
    SectionsKeepOne(sys, init, run, e, m.listed, m.inverse);
    GrantIsNeverTorn(ProcessId(e.handle), Trace(sys, init, run, e), m);
    SomeMomentIs(sys, init, run, m, e, false);
  }

  /** The verdict is that of some moment of the call if and only if it grants, or some moment denies. */
  lemma AtomicExactly(sys: System, init: World, run: seq<Section>, m: Moments, e: Event)
    requires InOrder(m, |run|) && e.Open?
    ensures AtSomeMoment(sys, init, run, m, e, DeniedAcross(sys, init, run, m, e)) <==>
            !DeniedAcross(sys, init, run, m, e) || AtSomeMoment(sys, init, run, m, e, true)
  {
    if !DeniedAcross(sys, init, run, m, e) {
      GrantIsAtomic(sys, init, run, m, e);
    }
  }

  predicate OnlySilent(run: seq<Section>, first: nat, last: nat, pid: nat)
    requires last <= |run|
  {
    forall k | first <= k < last :: Silent(run[k], pid)
  }

  lemma {:induction false} SilentKeepAnswers(sys: System, init: World, run: seq<Section>, first: nat, last: nat, e: Event)
    requires first <= last <= |run| && e.Open? && OnlySilent(run, first, last, ProcessId(e.handle))
    ensures AnswersIn(sys, After(sys, init, run, last), e) == AnswersIn(sys, After(sys, init, run, first), e)
    decreases last
  {
    if first != last {
      SilentKeepAnswers(sys, init, run, first, last - 1, e);
      SectionAnswers(sys, After(sys, init, run, last - 1), run[last - 1], e);
    }
  }

  lemma SilentIsConstant(sys: System, init: World, run: seq<Section>, first: nat, last: nat, e: Event)
    requires first <= last <= |run| && e.Open? && OnlySilent(run, first, last, ProcessId(e.handle))
    ensures Constant(Trace(sys, init, run, e), first, last)
  {
    forall n | first <= n <= last ensures Trace(sys, init, run, e)[n] == Trace(sys, init, run, e)[first] {
      SilentKeepAnswers(sys, init, run, first, n, e);
    }
  }

  /** Any one lock section in between, the caller's own exit included, is harmless: the verdict is the
      one of the moment before or of the moment after. */
  lemma OneSectionIsAtomic(sys: System, init: World, run: seq<Section>, m: Moments, k: nat, e: Event)
    requires InOrder(m, |run|) && m.active <= k < m.inverse && e.Open?
    requires OnlySilent(run, m.active, k, ProcessId(e.handle)) && OnlySilent(run, k + 1, m.inverse, ProcessId(e.handle))
    ensures || DeniedAcross(sys, init, run, m, e) == DeniedAt(sys, init, run, m.active, e)
            || DeniedAcross(sys, init, run, m, e) == DeniedAt(sys, init, run, m.inverse, e)
  {
    SilentIsConstant(sys, init, run, m.active, k, e);
    SilentIsConstant(sys, init, run, k + 1, m.inverse, e);
    SectionAnswers(sys, After(sys, init, run, k), run[k], e);
    OneChangeVerdict(ProcessId(e.handle), Trace(sys, init, run, e), m, k);
  }

  // ----- What the listing read is told -----

  /** The part of a run that LockProtocol speaks of. */
  function ListActions(run: seq<Section>, n: nat): seq<L.Action>
    requires n <= |run|
  {
    if n == 0 then []
    else if run[n - 1].Lists? then ListActions(run, n - 1) + [run[n - 1].action]
    else ListActions(run, n - 1)
  }

  lemma {:induction false} ListsRunAlone(sys: System, init: World, run: seq<Section>, n: nat)
    requires n <= |run|
    ensures var actions := ListActions(run, n);
      After(sys, init, run, n).shared == L.After(sys.fold, init.shared, actions, |actions|)
  {
    if n != 0 {
      ListsRunAlone(sys, init, run, n - 1);
      if run[n - 1].Lists? {
        OneMoreAction(sys.fold, init.shared, ListActions(run, n - 1), run[n - 1].action);
      }
    }
  }

  lemma OneMoreAction(fold: char -> char, init: L.Shared, actions: seq<L.Action>, a: L.Action)
    ensures L.After(fold, init, actions + [a], |actions| + 1) == L.Next(fold, L.After(fold, init, actions, |actions|), a)
  {
    ActionsPrefix(fold, init, actions, [a], |actions|);
    assert (actions + [a])[|actions|] == a;
  }

  lemma {:induction false} ActionsPrefix(fold: char -> char, init: L.Shared, a: seq<L.Action>, b: seq<L.Action>, n: nat)
    requires n <= |a|
    ensures L.After(fold, init, a + b, n) == L.After(fold, init, a, n)
  {
    if n != 0 { ActionsPrefix(fold, init, a, b, n - 1); }
  }

  /** Between a swap of the whitelist and the next flush, the read is told the verdict that was cached
      at the swap, if there was one and the process has not exited since, and otherwise what the new
      list says of its name. */
  lemma ListedUntilFlush(sys: System, init: World, run: seq<Section>, n: nat, i: nat, e: Event)
    requires n <= |run| && e.Open?
    requires var actions := ListActions(run, n);
      i < |actions| && L.Swaps(actions[i]) && L.NoSwapOrFlush(actions, i + 1, |actions|)
    ensures var actions, pid := ListActions(run, n), ProcessId(e.handle);
      var was, now := L.After(sys.fold, init.shared, actions, i), After(sys, init, run, n).shared;
      AnswersIn(sys, After(sys, init, run, n), e).listed ==
      if pid in L.CarriedPids(actions, was.table, i + 1, |actions|) then was.table[pid].cache == Found
      else pid in now.table && Listed(sys.fold, now.whitelist.memory, now.table[pid].fullImageName)
  {
    ListsRunAlone(sys, init, run, n);
    L.SwapVerdict(sys.fold, init.shared, ListActions(run, n), i, |ListActions(run, n)|, ProcessId(e.handle));
  }

  /** Once any thread has flushed behind the latest swap, it is told what the list says. */
  lemma ListedOnceFlushed(sys: System, init: World, run: seq<Section>, n: nat, e: Event)
    requires n <= |run| && e.Open?
    requires var actions := ListActions(run, n);
      && L.Initial(sys.fold, init.shared) && L.Interleaving(sys.fold, init.shared, actions)
      && (L.SinceSwap(actions, |actions|) == 0 || L.FlushedSince(actions, L.SinceSwap(actions, |actions|), |actions|))
    ensures var pid, now := ProcessId(e.handle), After(sys, init, run, n).shared;
      AnswersIn(sys, After(sys, init, run, n), e).listed <==>
      pid in now.table && Listed(sys.fold, now.whitelist.memory, now.table[pid].fullImageName)
  {
    var actions := ListActions(run, n);
    ListsRunAlone(sys, init, run, n);
    L.CoherentOnceFlushed(sys.fold, init.shared, actions, |actions|);
    CheckIsScan(sys.fold, After(sys, init, run, n).shared.table, ProcessId(e.handle),
                After(sys, init, run, n).shared.whitelist.memory);
  }
}
