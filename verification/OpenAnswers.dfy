/** An open of HidHide/src/Logic.c asks four questions, each under its own lock: is hiding active, is
    the device hidden, is the caller listed, is the list inverse.  What one open is told, against what
    each moment of its duration would have told it. */
module OpenAnswers {
  import opened AccessControl

  /** The moments of the four questions. */
  datatype Moments = Moments(active: nat, hidden: nat, listed: nat, inverse: nat)

  predicate InOrder(m: Moments, last: nat)
  {
    m.active <= m.hidden <= m.listed <= m.inverse <= last
  }

  datatype Answers = Answers(active: bool, hidden: bool, listed: bool, inverse: bool)

  predicate Denies(pid: nat, a: Answers)
  {
    pid != SYSTEM_PID && a.active && a.hidden && !(a.listed != a.inverse)
  }

  /** What an open is told, if `t` holds the answers of every moment. */
  function Across(t: seq<Answers>, m: Moments): Answers
    requires t != [] && InOrder(m, |t| - 1)
  {
    Answers(t[m.active].active, t[m.hidden].hidden, t[m.listed].listed, t[m.inverse].inverse)
  }

  /** Some moment of the call would have denied it, or granted it. */
  ghost predicate SomeMoment(pid: nat, t: seq<Answers>, m: Moments, denied: bool)
    requires t != [] && InOrder(m, |t| - 1)
  {
    exists n | m.active <= n <= m.inverse :: Denies(pid, t[n]) == denied
  }

  // ----- Grants are never torn -----

  /** Not both the caller's listing and the sense of the list change. */
  predicate KeepsOne(a: Answers, b: Answers)
  {
    a.listed == b.listed || a.inverse == b.inverse
  }

  predicate StepByStep(t: seq<Answers>, first: nat, last: nat)
    requires first <= last < |t|
  {
    forall k | first <= k < last :: KeepsOne(t[k], t[k + 1])
  }

  /** As long as listing and sense agree, neither can have changed. */
  lemma {:induction false} AgreeingStays(t: seq<Answers>, first: nat, last: nat)
    requires first <= last < |t| && StepByStep(t, first, last)
    requires forall n | first <= n <= last :: t[n].listed == t[n].inverse
    ensures t[last].inverse == t[first].inverse
    decreases last
  {
    if first != last {
      AgreeingStays(t, first, last - 1);
      assert KeepsOne(t[last - 1], t[last - 1 + 1]);
    }
  }

  /** An open that is granted would have been granted at some moment of its call. */
  lemma GrantIsNeverTorn(pid: nat, t: seq<Answers>, m: Moments)
    requires t != [] && InOrder(m, |t| - 1) && StepByStep(t, m.listed, m.inverse)
    requires !Denies(pid, Across(t, m))
    ensures SomeMoment(pid, t, m, false)
  {
    if forall n | m.active <= n <= m.inverse :: Denies(pid, t[n]) {
      assert Denies(pid, t[m.active]) && Denies(pid, t[m.hidden]) && Denies(pid, t[m.listed]);
      AgreeingStays(t, m.listed, m.inverse);
      assert false;
    }
  }

  /** The verdict is that of some moment of the call if and only if it grants, or some moment denies. */
  lemma TornExactly(pid: nat, t: seq<Answers>, m: Moments)
    requires t != [] && InOrder(m, |t| - 1) && StepByStep(t, m.listed, m.inverse)
    ensures SomeMoment(pid, t, m, Denies(pid, Across(t, m))) <==>
            !Denies(pid, Across(t, m)) || SomeMoment(pid, t, m, true)
  {
    if !Denies(pid, Across(t, m)) {
      GrantIsNeverTorn(pid, t, m);
    }
  }

  // ----- One change -----

  /** At most one of the four answers differs. */
  predicate OneApart(a: Answers, b: Answers)
  {
    || (a.hidden == b.hidden && a.listed == b.listed && a.inverse == b.inverse)
    || (a.active == b.active && a.listed == b.listed && a.inverse == b.inverse)
    || (a.active == b.active && a.hidden == b.hidden && a.inverse == b.inverse)
    || (a.active == b.active && a.hidden == b.hidden && a.listed == b.listed)
  }

  predicate Constant(t: seq<Answers>, first: nat, last: nat)
    requires first <= last < |t|
  {
    forall n | first <= n <= last :: t[n] == t[first]
  }

  /** While nothing changes an answer, the verdict is the atomic one. */
  lemma UndisturbedVerdict(pid: nat, t: seq<Answers>, m: Moments)
    requires t != [] && InOrder(m, |t| - 1) && Constant(t, m.active, m.inverse)
    ensures forall n | m.active <= n <= m.inverse :: Denies(pid, Across(t, m)) == Denies(pid, t[n])
  {
    assert t[m.hidden] == t[m.active] && t[m.listed] == t[m.active] && t[m.inverse] == t[m.active];
  }

  /** One change of one answer is harmless: the verdict is the atomic one before it or after it. */
  lemma OneChangeVerdict(pid: nat, t: seq<Answers>, m: Moments, k: nat)
    requires t != [] && InOrder(m, |t| - 1) && m.active <= k < m.inverse
    requires Constant(t, m.active, k) && Constant(t, k + 1, m.inverse) && OneApart(t[k], t[k + 1])
    ensures Denies(pid, Across(t, m)) == Denies(pid, t[m.active]) || Denies(pid, Across(t, m)) == Denies(pid, t[m.inverse])
  {
    assert t[k] == t[m.active] && t[m.inverse] == t[k + 1];
    assert t[m.hidden] == if m.hidden <= k then t[m.active] else t[m.inverse];
    assert t[m.listed] == if m.listed <= k then t[m.active] else t[m.inverse];
  }
}
