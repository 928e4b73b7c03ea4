/** The process table as a value: what HidHide/src/Config.c keeps per process id,
    and what each of its entry points does to that value. */
module VerdictCache {
  import opened Names

  datatype EvaluationCache = Empty | Found | NotFound

  datatype Entry = Entry(fullImageName: string, cache: EvaluationCache)

  type Table = map<nat, Entry>

  datatype Status = Success | InJob | NotInJob | AlreadyInitialized | NoMemory | BufferOverflow

  // WCHAR fullImageName[NTSTRSAFE_UNICODE_STRING_MAX_CCH], terminator included
  const MAX_NAME_CCH := 32767

  predicate Storable(fullImageName: string)
  {
    |fullImageName| < MAX_NAME_CCH
  }

  function Registered(t: Table, pid: nat, fullImageName: string, memory: bool): Table
  {
    if pid in t || !memory || !Storable(fullImageName) then t
    else t[pid := Entry(CString(fullImageName), Empty)]
  }

  function RegisterStatus(t: Table, pid: nat, fullImageName: string, memory: bool): Status
  {
    if pid in t then InJob
    else if !memory then NoMemory
    else if !Storable(fullImageName) then BufferOverflow
    else Success
  }

  function Unregistered(t: Table, pid: nat): Table
  {
    t - {pid}
  }

  function Flushed(t: Table): Table
  {
    map pid | pid in t :: t[pid].(cache := Empty)
  }

  function Evaluate(fold: char -> char, whitelist: seq<string>, fullImageName: string): EvaluationCache
  {
    if Listed(fold, whitelist, fullImageName) then Found else NotFound
  }

  /** The table after a whitelist check: a miss leaves the freshly computed verdict behind. */
  function Checked(fold: char -> char, t: Table, pid: nat, whitelist: seq<string>): Table
  {
    if pid !in t || t[pid].cache != Empty then t
    else t[pid := t[pid].(cache := Evaluate(fold, whitelist, t[pid].fullImageName))]
  }

  /** The answer of a whitelist check, which trusts any verdict already cached. */
  function CheckStatus(fold: char -> char, t: Table, pid: nat, whitelist: seq<string>): Status
  {
    if pid !in t then Success
    else match Checked(fold, t, pid, whitelist)[pid].cache
      case Found => InJob
      case _ => NotInJob
  }

  /** Every verdict in the cache is the one a fresh scan of `whitelist` would give. */
  ghost predicate Coherent(fold: char -> char, t: Table, whitelist: seq<string>)
  {
    forall pid | pid in t ::
      t[pid].cache == Empty || t[pid].cache == Evaluate(fold, whitelist, t[pid].fullImageName)
  }

  lemma CheckedIsCoherent(fold: char -> char, t: Table, pid: nat, whitelist: seq<string>)
    requires Coherent(fold, t, whitelist)
    ensures Coherent(fold, Checked(fold, t, pid, whitelist), whitelist)
  {
  }

  /** A check leaves a verdict behind, does not revise one, and touches nothing else. */
  lemma CheckedRemembers(fold: char -> char, t: Table, pid: nat, whitelist: seq<string>)
    ensures var u := Checked(fold, t, pid, whitelist);
      && u.Keys == t.Keys
      && (forall other | other in t :: u[other].fullImageName == t[other].fullImageName)
      && (forall other | other in t && (other != pid || t[other].cache != Empty) :: u[other] == t[other])
      && (pid in t ==> u[pid].cache in {Found, NotFound} && Checked(fold, u, pid, whitelist) == u)
  {
  }

  /** The status of a registration tells what became of it. */
  lemma RegisterIsRead(t: Table, pid: nat, fullImageName: string, memory: bool)
    ensures var u, status := Registered(t, pid, fullImageName, memory), RegisterStatus(t, pid, fullImageName, memory);
      && (status == Success <==> pid !in t && pid in u)
      && (status == InJob <==> pid in t)
      && (status == NoMemory <==> pid !in t && !memory)
      && (status == BufferOverflow <==> pid !in t && memory && |fullImageName| > 32766)
      && (status != Success ==> u == t)
  {
  }

  /** On a coherent cache the memoised answer is the plain scan's answer. */
  lemma CheckIsScan(fold: char -> char, t: Table, pid: nat, whitelist: seq<string>)
    requires Coherent(fold, t, whitelist)
    ensures CheckStatus(fold, t, pid, whitelist) ==
            if pid !in t then Success
            else if Listed(fold, whitelist, t[pid].fullImageName) then InJob else NotInJob
  {
  }
}
