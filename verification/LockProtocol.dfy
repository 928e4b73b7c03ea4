/** HidHide/src/Logic.c at lock granularity.  SetWhitelist is three separate actions of its thread:
    the registry write (outside the lock), the reload of the in-memory list (lock), and the flush of
    the verdict cache (lock); SetBlacklist is a write and a reload.  Any number of threads interleave
    with each other and with whitelist checks, process registrations and process exits. */
module LockProtocol {
  import opened Names
  import opened VerdictCache
  import opened MultiString

  datatype Which = Whitelist | Blacklist

  datatype Phase = Idle | Written(which: Which) | Reloaded

  /** One of the two lists: its registry value, and the collection in memory. */
  datatype Setting = Setting(registry: string, memory: seq<string>)

  datatype Shared = Shared(whitelist: Setting, blacklist: Setting, table: Table, phases: map<nat, Phase>)

  datatype Action =
    | Write(thread: nat, which: Which, buffer: string)
    | Reload(thread: nat, which: Which)
    | Flush(thread: nat)
    | Check(pid: nat)
    | Register(pid: nat, fullImageName: string, memory: bool)
    | Unregister(pid: nat)

  function Of(s: Shared, which: Which): Setting
  {
    match which
    case Whitelist => s.whitelist
    case Blacklist => s.blacklist
  }

  function PhaseOf(s: Shared, thread: nat): Phase
  {
    if thread in s.phases then s.phases[thread] else Idle
  }

  /** Each thread runs write, reload and, for the whitelist, flush in this order. */
  predicate Enabled(s: Shared, a: Action)
  {
    match a
    case Write(t, _, _) => PhaseOf(s, t) == Idle
    case Reload(t, which) => PhaseOf(s, t) == Written(which)
    case Flush(t) => PhaseOf(s, t) == Reloaded
    case _ => true
  }

  function Next(fold: char -> char, s: Shared, a: Action): Shared
  {
    match a
    case Write(t, Whitelist, buffer) =>
      s.(whitelist := s.whitelist.(registry := buffer), phases := s.phases[t := Written(Whitelist)])
    case Write(t, Blacklist, buffer) =>
      s.(blacklist := s.blacklist.(registry := buffer), phases := s.phases[t := Written(Blacklist)])
    case Reload(t, Whitelist) =>
      s.(whitelist := s.whitelist.(memory := RegistryDecode(s.whitelist.registry)), phases := s.phases[t := Reloaded])
    case Reload(t, Blacklist) =>
      s.(blacklist := s.blacklist.(memory := RegistryDecode(s.blacklist.registry)), phases := s.phases[t := Idle])
    case Flush(t) => s.(table := Flushed(s.table), phases := s.phases[t := Idle])
    case Check(pid) => s.(table := Checked(fold, s.table, pid, s.whitelist.memory))
    case Register(pid, name, memory) => s.(table := Registered(s.table, pid, name, memory))
    case Unregister(pid) => s.(table := Unregistered(s.table, pid))
  }

  predicate Quiet(s: Shared)
  {
    forall t | t in s.phases :: s.phases[t] == Idle
  }

  ghost predicate Converged(s: Shared, which: Which)
  {
    Of(s, which).memory == RegistryDecode(Of(s, which).registry)
  }

  /** The driver as it is created: no thread is setting anything, and no verdict is wrong. */
  ghost predicate Initial(fold: char -> char, s: Shared)
  {
    Quiet(s) && Converged(s, Whitelist) && Converged(s, Blacklist) && Coherent(fold, s.table, s.whitelist.memory)
  }

  function After(fold: char -> char, init: Shared, run: seq<Action>, n: nat): Shared
    requires n <= |run|
  {
    if n == 0 then init else Next(fold, After(fold, init, run, n - 1), run[n - 1])
  }

  predicate InTurn(fold: char -> char, init: Shared, run: seq<Action>, i: nat)
    requires i < |run|
  {
    Enabled(After(fold, init, run, i), run[i])
  }

  /** An interleaving in which every action is the next one of its thread. */
  predicate Interleaving(fold: char -> char, init: Shared, run: seq<Action>)
  {
    forall i | 0 <= i < |run| :: InTurn(fold, init, run, i)
  }

  /** Some thread has written this list's registry value and not yet reloaded it. */
  ghost predicate InFlight(s: Shared, which: Which)
  {
    exists t | t in s.phases :: s.phases[t] == Written(which)
  }

  lemma StepConverges(fold: char -> char, s: Shared, a: Action, which: Which)
    requires Enabled(s, a) && (InFlight(s, which) || Converged(s, which))
    ensures InFlight(Next(fold, s, a), which) || Converged(Next(fold, s, a), which)
  {
    var after := Next(fold, s, a);
    if a.Write? && a.which == which {
      assert a.thread in after.phases && after.phases[a.thread] == Written(which);
    } else if !(a.Reload? && a.which == which) && InFlight(s, which) {
      var t :| t in s.phases && s.phases[t] == Written(which);
      assert t in after.phases && after.phases[t] == Written(which);
    }
  }

  lemma {:induction false} MemoryLagsOnlyInFlight(fold: char -> char, init: Shared, run: seq<Action>, n: nat, which: Which)
    requires Initial(fold, init) && Interleaving(fold, init, run) && n <= |run|
    ensures InFlight(After(fold, init, run, n), which) || Converged(After(fold, init, run, n), which)
  {
    if n != 0 {
      MemoryLagsOnlyInFlight(fold, init, run, n - 1, which);
      assert InTurn(fold, init, run, n - 1);
      StepConverges(fold, After(fold, init, run, n - 1), run[n - 1], which);
    }
  }

  /** The buffer that the last write of a list among the first `n` actions carried. */
  function LastWritten(run: seq<Action>, which: Which, before: string, n: nat): string
    requires n <= |run|
  {
    if n == 0 then before
    else if run[n - 1].Write? && run[n - 1].which == which then run[n - 1].buffer
    else LastWritten(run, which, before, n - 1)
  }

  /** The registry holds what was written last, for either list. */
  lemma {:induction false} RegistryIsLastWritten(fold: char -> char, init: Shared, run: seq<Action>, n: nat)
    requires n <= |run|
    ensures var s := After(fold, init, run, n);
      && s.whitelist.registry == LastWritten(run, Whitelist, init.whitelist.registry, n)
      && s.blacklist.registry == LastWritten(run, Blacklist, init.blacklist.registry, n)
  {
    if n != 0 { RegistryIsLastWritten(fold, init, run, n - 1); }
  }

  /** So whenever no write of a list awaits its reload, the list in memory is the last one written. */
  lemma MemoryIsLastWritten(fold: char -> char, init: Shared, run: seq<Action>, n: nat)
    requires Initial(fold, init) && Interleaving(fold, init, run) && n <= |run|
    ensures var s := After(fold, init, run, n);
      && (InFlight(s, Whitelist) ||
            s.whitelist.memory == RegistryDecode(LastWritten(run, Whitelist, init.whitelist.registry, n)))
      && (InFlight(s, Blacklist) ||
            s.blacklist.memory == RegistryDecode(LastWritten(run, Blacklist, init.blacklist.registry, n)))
  {
    RegistryIsLastWritten(fold, init, run, n);
    MemoryLagsOnlyInFlight(fold, init, run, n, Whitelist);
    MemoryLagsOnlyInFlight(fold, init, run, n, Blacklist);
  }

  // ----- The verdict cache -----

  predicate Swaps(a: Action)
  {
    a.Reload? && a.which == Whitelist
  }

  /** The position just after the last swap of the whitelist among the first `n` actions; zero if
      there was none. */
  function SinceSwap(run: seq<Action>, n: nat): (i: nat)
    requires n <= |run|
    ensures i <= n && (i > 0 ==> Swaps(run[i - 1]))
    ensures forall k | i <= k < n :: !Swaps(run[k])
  {
    if n == 0 then 0 else if Swaps(run[n - 1]) then n else SinceSwap(run, n - 1)
  }

  ghost predicate FlushedSince(run: seq<Action>, i: nat, n: nat)
    requires n <= |run|
  {
    exists k | i <= k < n :: run[k].Flush?
  }

  lemma StepKeepsCoherence(fold: char -> char, s: Shared, a: Action)
    requires !Swaps(a) && Coherent(fold, s.table, s.whitelist.memory)
    ensures Coherent(fold, Next(fold, s, a).table, Next(fold, s, a).whitelist.memory)
  {
    if a.Check? {
      CheckedIsCoherent(fold, s.table, a.pid, s.whitelist.memory);
    }
  }

  /** Once any thread has flushed after the latest swap of the list, or if there was no swap,
      every cached verdict is the current list's, whatever else has run in between. */
  lemma {:induction false} CoherentOnceFlushed(fold: char -> char, init: Shared, run: seq<Action>, n: nat)
    requires Initial(fold, init) && Interleaving(fold, init, run) && n <= |run|
    requires SinceSwap(run, n) == 0 || FlushedSince(run, SinceSwap(run, n), n)
    ensures Coherent(fold, After(fold, init, run, n).table, After(fold, init, run, n).whitelist.memory)
  {
    if n != 0 {
      var before, a := After(fold, init, run, n - 1), run[n - 1];
      if !a.Flush? && !Swaps(a) {
        CoherentOnceFlushed(fold, init, run, n - 1);
        StepKeepsCoherence(fold, before, a);
      }
    }
  }

  /** After its swap a thread is still in the middle of its call until it flushes. */
  lemma {:induction false} SwapOwesFlush(fold: char -> char, init: Shared, run: seq<Action>, i: nat, n: nat)
    requires Interleaving(fold, init, run) && i < n <= |run| && Swaps(run[i])
    ensures PhaseOf(After(fold, init, run, n), run[i].thread) == Reloaded ||
            exists k | i < k < n :: run[k] == Flush(run[i].thread)
    decreases n
  {
    if i + 1 < n {
      SwapOwesFlush(fold, init, run, i, n - 1);
      assert InTurn(fold, init, run, n - 1);
    }
  }

  /** In particular: once the thread that made the latest swap has moved on, and so has run its own
      flush, the cache is right. */
  lemma OwnFlushSuffices(fold: char -> char, init: Shared, run: seq<Action>, n: nat)
    requires Initial(fold, init) && Interleaving(fold, init, run) && n <= |run|
    requires SinceSwap(run, n) > 0
    requires PhaseOf(After(fold, init, run, n), run[SinceSwap(run, n) - 1].thread) != Reloaded
    ensures Coherent(fold, After(fold, init, run, n).table, After(fold, init, run, n).whitelist.memory)
  {
    SwapOwesFlush(fold, init, run, SinceSwap(run, n) - 1, n);
    CoherentOnceFlushed(fold, init, run, n);
  }

  /** When no setter is under way, a check answers what a plain scan of the registry's list would. */
  lemma QuietVerdicts(fold: char -> char, init: Shared, run: seq<Action>, n: nat, pid: nat)
    requires Initial(fold, init) && Interleaving(fold, init, run) && n <= |run|
    requires Quiet(After(fold, init, run, n))
    ensures var s := After(fold, init, run, n);
      CheckStatus(fold, s.table, pid, s.whitelist.memory) ==
      if pid !in s.table then Status.Success
      else if Listed(fold, RegistryDecode(s.whitelist.registry), s.table[pid].fullImageName) then InJob else NotInJob
  {
    var s := After(fold, init, run, n);
    MemoryLagsOnlyInFlight(fold, init, run, n, Whitelist);
    if SinceSwap(run, n) == 0 {
      CoherentOnceFlushed(fold, init, run, n);
    } else {
      OwnFlushSuffices(fold, init, run, n);
    }
    CheckIsScan(fold, s.table, pid, s.whitelist.memory);
  }

  lemma StepAt(fold: char -> char, init: Shared, run: seq<Action>, n: nat)
    requires 0 < n <= |run|
    ensures After(fold, init, run, n) == Next(fold, After(fold, init, run, n - 1), run[n - 1])
  {
  }

  // ----- What a swap leaves behind until the flush -----

  ghost predicate SameAnswers(fold: char -> char, t: Table, was: seq<string>, now: seq<string>, pid: nat)
    requires pid in t
  {
    Listed(fold, was, t[pid].fullImageName) <==> Listed(fold, now, t[pid].fullImageName)
  }

  /** Both lists answer alike for every one of these processes. */
  ghost predicate Agree(fold: char -> char, t: Table, was: seq<string>, now: seq<string>, pids: set<nat>)
    requires pids <= t.Keys
  {
    forall pid | pid in pids :: SameAnswers(fold, t, was, now, pid)
  }

  ghost function CachedPids(t: Table): (pids: set<nat>)
    ensures pids <= t.Keys
  {
    set pid | pid in t && t[pid].cache != Empty
  }

  /** A list can be swapped without a flush exactly if both lists give every cached name the same answer. */
  lemma SwapKeepsCoherence(fold: char -> char, t: Table, was: seq<string>, now: seq<string>)
    requires Coherent(fold, t, was)
    ensures Coherent(fold, t, now) <==>
            Agree(fold, t, was, now, CachedPids(t))
  {
    CoherentMixture(fold, t, t, now, CachedPids(t));
    AgreeConfirms(fold, t, was, now, CachedPids(t));
  }

  /** A verdict that was in the cache at the `i`-th action and whose process has not exited since. */
  predicate Carried(run: seq<Action>, t: Table, i: nat, n: nat, pid: nat)
    requires i <= n <= |run|
  {
    pid in t && t[pid].cache != Empty && forall k | i <= k < n :: run[k] != Unregister(pid)
  }

  predicate NoSwapOrFlush(run: seq<Action>, i: nat, n: nat)
    requires i <= n <= |run|
  {
    forall k | i <= k < n :: !Swaps(run[k]) && !run[k].Flush?
  }

  /** Without swap or flush a carried verdict stays as it is, and every other is the list's own. */
  lemma {:induction false} VerdictBetween(fold: char -> char, init: Shared, run: seq<Action>, i: nat, n: nat, pid: nat)
    requires i <= n <= |run| && NoSwapOrFlush(run, i, n)
    ensures var s, t := After(fold, init, run, i), After(fold, init, run, n);
      && t.whitelist.memory == s.whitelist.memory
      && (Carried(run, s.table, i, n, pid) ==> pid in t.table && t.table[pid] == s.table[pid])
      && (!Carried(run, s.table, i, n, pid) && pid in t.table && t.table[pid].cache != Empty ==>
            t.table[pid].cache == Evaluate(fold, t.whitelist.memory, t.table[pid].fullImageName))
    decreases n
  {
    if i < n {
      VerdictBetween(fold, init, run, i, n - 1, pid);
      var t, a := After(fold, init, run, n - 1), run[n - 1];
      VerdictStep(fold, t, a, pid);
    }
  }

  lemma VerdictStep(fold: char -> char, s: Shared, a: Action, pid: nat)
    requires !Swaps(a) && !a.Flush?
    ensures var t := Next(fold, s, a);
      && t.whitelist.memory == s.whitelist.memory
      && (pid in s.table && s.table[pid].cache != Empty && a != Unregister(pid) ==>
            pid in t.table && t.table[pid] == s.table[pid])
      && (pid in t.table && t.table[pid].cache != Empty && (pid !in s.table || s.table[pid].cache == Empty) ==>
            t.table[pid].cache == Evaluate(fold, t.whitelist.memory, t.table[pid].fullImageName))
      && (a == Unregister(pid) ==> pid !in t.table)
  {
  }

  /** The list gives every one of these processes the verdict that is cached for it. */
  ghost predicate Confirms(fold: char -> char, t: Table, now: seq<string>, pids: set<nat>)
    requires pids <= t.Keys
  {
    forall pid | pid in pids :: t[pid].cache == Evaluate(fold, now, t[pid].fullImageName)
  }

  lemma CoherentMixture(fold: char -> char, t: Table, u: Table, now: seq<string>, carried: set<nat>)
    requires carried <= t.Keys
    requires forall pid | pid in carried :: t[pid].cache != Empty && pid in u && u[pid] == t[pid]
    requires forall pid | pid in u && pid !in carried ::
               u[pid].cache == Empty || u[pid].cache == Evaluate(fold, now, u[pid].fullImageName)
    ensures Coherent(fold, u, now) <==> Confirms(fold, t, now, carried)
  {
  }

  /** From a coherent cache, a list confirms its verdicts if and only if it agrees with the old one. */
  lemma AgreeConfirms(fold: char -> char, t: Table, was: seq<string>, now: seq<string>, pids: set<nat>)
    requires Coherent(fold, t, was) && pids <= CachedPids(t)
    ensures Confirms(fold, t, now, pids) <==> Agree(fold, t, was, now, pids)
  {
    forall pid | pid in pids
      ensures t[pid].cache == Evaluate(fold, now, t[pid].fullImageName) <==> SameAnswers(fold, t, was, now, pid)
    {
      assert t[pid].cache == Evaluate(fold, was, t[pid].fullImageName);
    }
  }

  ghost function CarriedPids(run: seq<Action>, t: Table, i: nat, n: nat): (pids: set<nat>)
    requires i <= n <= |run|
    ensures pids <= CachedPids(t)
  {
    set pid | pid in t && Carried(run, t, i, n, pid)
  }

  /** The exact state of the cache between a swap and the next flush, in every interleaving, whatever
      earlier swaps may still owe their flush: it is right if and only if the new list confirms every
      verdict that was cached at the swap and whose process has not exited since. */
  lemma CoherentUntilFlush(fold: char -> char, init: Shared, run: seq<Action>, i: nat, n: nat)
    requires i < n <= |run| && Swaps(run[i]) && NoSwapOrFlush(run, i + 1, n)
    ensures var was, now := After(fold, init, run, i), After(fold, init, run, n);
      Coherent(fold, now.table, now.whitelist.memory) <==>
      Confirms(fold, was.table, now.whitelist.memory, CarriedPids(run, was.table, i + 1, n))
  {
    var was, now := After(fold, init, run, i), After(fold, init, run, n);
    var carried := CarriedPids(run, was.table, i + 1, n);
    forall pid
      ensures pid in carried ==> pid in now.table && now.table[pid] == was.table[pid]
      ensures pid !in carried && pid in now.table && now.table[pid].cache != Empty ==>
              now.table[pid].cache == Evaluate(fold, now.whitelist.memory, now.table[pid].fullImageName)
    {
      SwapVerdict(fold, init, run, i, n, pid);
    }
    CoherentMixture(fold, was.table, now.table, now.whitelist.memory, carried);
  }

  /** In particular, a swap that meets a right cache leaves a right one if and only if old and new list
      agree on those verdicts. */
  lemma CoherentSwapUntilFlush(fold: char -> char, init: Shared, run: seq<Action>, i: nat, n: nat)
    requires i < n <= |run| && Swaps(run[i]) && NoSwapOrFlush(run, i + 1, n)
    requires Coherent(fold, After(fold, init, run, i).table, After(fold, init, run, i).whitelist.memory)
    ensures var was, now := After(fold, init, run, i), After(fold, init, run, n);
      Coherent(fold, now.table, now.whitelist.memory) <==>
      Agree(fold, was.table, was.whitelist.memory, now.whitelist.memory, CarriedPids(run, was.table, i + 1, n))
  {
    var was, now := After(fold, init, run, i), After(fold, init, run, n);
    CoherentUntilFlush(fold, init, run, i, n);
    AgreeConfirms(fold, was.table, was.whitelist.memory, now.whitelist.memory, CarriedPids(run, was.table, i + 1, n));
  }

  lemma SwapVerdict(fold: char -> char, init: Shared, run: seq<Action>, i: nat, n: nat, pid: nat)
    requires i < n <= |run| && Swaps(run[i]) && NoSwapOrFlush(run, i + 1, n)
    ensures var was, now := After(fold, init, run, i), After(fold, init, run, n);
      var carried := pid in CarriedPids(run, was.table, i + 1, n);
      && (carried ==> pid in now.table && now.table[pid] == was.table[pid])
      && (!carried && pid in now.table && now.table[pid].cache != Empty ==>
            now.table[pid].cache == Evaluate(fold, now.whitelist.memory, now.table[pid].fullImageName))
  {
    StepAt(fold, init, run, i + 1);
    VerdictBetween(fold, init, run, i + 1, n, pid);
  }

  /** Between a thread's reload and its flush the promise does not hold: from any quiet state,
      taking a process's name off the list has a run that still serves the dropped verdict. */
  lemma StaleBetweenReloadAndFlush(fold: char -> char, init: Shared, pid: nat, thread: nat, now: seq<string>)
    requires Initial(fold, init) && pid in init.table
    requires Listed(fold, init.whitelist.memory, init.table[pid].fullImageName)
    requires AllClean(now) && !Listed(fold, now, init.table[pid].fullImageName)
    ensures
      var run := [Check(pid), Write(thread, Whitelist, Encode(now)), Reload(thread, Whitelist)];
      var s := After(fold, init, run, 3);
      && Interleaving(fold, init, run)
      && s.whitelist.memory == now && CheckStatus(fold, s.table, pid, now) == Status.InJob
  {
    var run := [Check(pid), Write(thread, Whitelist, Encode(now)), Reload(thread, Whitelist)];
    DriverRoundTrip(now);
    StepAt(fold, init, run, 1);
    StepAt(fold, init, run, 2);
    StepAt(fold, init, run, 3);
    assert InTurn(fold, init, run, 0) && InTurn(fold, init, run, 1) && InTurn(fold, init, run, 2);
  }

  /** With overlapping swaps agreement is not enough: of two lists without the name, the second agrees
      with the first, and still the verdict cached for the initial list is served. */
  lemma StaleAcrossOverlappingSwaps(fold: char -> char, init: Shared, pid: nat, one: nat, two: nat,
                                    first: seq<string>, second: seq<string>)
    requires Initial(fold, init) && pid in init.table && one != two
    requires Listed(fold, init.whitelist.memory, init.table[pid].fullImageName)
    requires AllClean(first) && !Listed(fold, first, init.table[pid].fullImageName)
    requires AllClean(second) && !Listed(fold, second, init.table[pid].fullImageName)
    ensures
      var run := OverlappingSwaps(pid, one, two, first, second);
      var before, s := After(fold, init, run, 4), After(fold, init, run, 5);
      && Interleaving(fold, init, run)
      && pid in before.table && SameAnswers(fold, before.table, before.whitelist.memory, s.whitelist.memory, pid)
      && s.whitelist.memory == second && CheckStatus(fold, s.table, pid, second) == Status.InJob
      && !Coherent(fold, s.table, s.whitelist.memory)
  {
    var run := OverlappingSwaps(pid, one, two, first, second);
    DriverRoundTrip(first);
    DriverRoundTrip(second);
    StepAt(fold, init, run, 1);
    StepAt(fold, init, run, 2);
    StepAt(fold, init, run, 3);
    StepAt(fold, init, run, 4);
    StepAt(fold, init, run, 5);
    assert InTurn(fold, init, run, 0) && InTurn(fold, init, run, 1) && InTurn(fold, init, run, 2);
    assert InTurn(fold, init, run, 3) && InTurn(fold, init, run, 4);
  }

  function OverlappingSwaps(pid: nat, one: nat, two: nat, first: seq<string>, second: seq<string>): (run: seq<Action>)
    ensures |run| == 5
  {
    [Check(pid), Write(one, Whitelist, Encode(first)), Reload(one, Whitelist),
     Write(two, Whitelist, Encode(second)), Reload(two, Whitelist)]
  }
}
