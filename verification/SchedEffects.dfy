/** What each call and each interrupt does to the lists, the states and the current task. */
module SchedEffects {
  import opened Common
  import opened SchedModel

  /** The ring without task p: the others are on it in their old order. */
  ghost predicate TakenOff(ring: seq<int>, ring': seq<int>, p: int) {
    exists k :: 0 <= k < |ring| && ring[k] == p && ring' == ring[..k] + ring[k + 1..]
  }

  /** Task q comes behind task p on the ring. */
  ghost predicate Behind(ring: seq<int>, p: int, q: int) {
    exists k :: 0 <= k < |ring| && ring[k] == p && q == ring[if k + 1 == |ring| then 0 else k + 1]
  }

  /** The tasks on the ring, but for p, are in the states they were in. */
  ghost predicate OthersKept(s: State, t: State, p: int) {
    forall q :: q in s.ring && q != p ==> q in s.status && q in t.status && t.status[q] == s.status[q]
  }

  lemma TakenOffIs(ring: seq<int>, p: int)
    requires Distinct(ring) && p in ring
    ensures TakenOff(ring, Remove(ring, p), p) && Behind(ring, p, Successor(ring, p))
  {
    var k := IndexOf(ring, p);
    RemoveAt(ring, k);
    assert ring[k] == p;
  }

  /** A new task is READY and the last of the ring; nothing else changes. */
  lemma CreateEffect(s: State)
    requires Inv(s) && Enabled(s, Create)
    ensures var t := Step(s, Create);
            && t.ring == s.ring + [s.nextPid] && t.nextPid == s.nextPid + 1
            && s.nextPid !in s.ring && s.nextPid !in s.zombies && s.nextPid !in s.freed
            && t.status == s.status[s.nextPid := Ready]
            && t.zombies == s.zombies && t.freed == s.freed && t.current == s.current
  {
    ConservedIsDisjoint(s);
    WhereIs(s, s.nextPid);
  }

  /** All zombies are freed, in their order; nothing else changes. */
  lemma ReapEffect(s: State)
    requires Inv(s) && Enabled(s, Reap)
    ensures var t := Step(s, Reap);
            && t.ring == s.ring && t.zombies == [] && t.freed == s.freed + s.zombies
            && t.current == s.current && t.nextPid == s.nextPid
            && (forall p :: p in s.ring ==> p in s.status && p in t.status && t.status[p] == s.status[p])
            && (forall p :: p in s.zombies ==> p !in t.status)
  {
    InvFacts(s);
    ConservedIsDisjoint(s);
  }

  /** task_stop frees the old zombies. A task that is not on the ring changes nothing more. The
      current task becomes the only zombie and leaves the ring; any other one is freed as well. */
  lemma StopEffect(s: State, pid: int)
    requires Inv(s) && Enabled(s, Stop(pid))
    ensures var t := Step(s, Stop(pid));
            && t.nextPid == s.nextPid && OthersKept(s, t, pid)
            && (pid !in s.ring ==>
                  t.ring == s.ring && t.zombies == [] && t.freed == s.freed + s.zombies && t.current == s.current)
            && (pid in s.ring ==> TakenOff(s.ring, t.ring, pid) && pid !in t.ring)
            && (pid in s.ring && s.current != OnRing(pid) ==>
                  && t.freed == s.freed + s.zombies + [pid] && t.zombies == []
                  && pid !in t.status && t.current == s.current)
            && (s.current == OnRing(pid) ==> Left(s, t, pid))
  {
    ReapEffect(s);
    ConservedIsDisjoint(s);
    if s.current == OnRing(pid) {
      LeaveEffect(s, Step(s, Reap), pid);
    } else if pid in s.ring {
      DropEffect(s, Step(s, Reap), pid);
    }
  }

  /** What it means for another task to be stopped, after the zombies have been reaped. */
  lemma DropEffect(s: State, r: State, p: int)
    requires Distinct(s.ring) && p in s.ring && r.ring == s.ring && r.zombies == []
    requires forall q :: q in s.ring ==> q in s.status && q in r.status && r.status[q] == s.status[q]
    ensures var t := DropStep(r, p);
            && TakenOff(s.ring, t.ring, p) && p !in t.ring && OthersKept(s, t, p) && p !in t.status
            && t.freed == r.freed + [p] && t.zombies == [] && t.current == r.current && t.nextPid == r.nextPid
  {
    TakenOffIs(s.ring, p);
    RemoveFacts(s.ring, p);
  }

  /** The current task p has left the ring, is the only zombie, and waits to be switched away from
      to the task behind it. */
  ghost predicate Left(s: State, t: State, p: int) {
    && t.freed == s.freed + s.zombies && t.zombies == [p]
    && p in t.status && t.status[p] == Zombie
    && t.current.Exited? && t.current.pid == p && Behind(s.ring, p, t.current.next)
  }

  /** task_exit frees the old zombies, and the caller, unless it is init, leaves. */
  lemma ExitEffect(s: State)
    requires Inv(s) && Enabled(s, Exit)
    ensures var t := Step(s, Exit);
            && t.nextPid == s.nextPid
            && (s.current.OnRing? && s.current.pid != INIT_PID ==>
                  && TakenOff(s.ring, t.ring, s.current.pid) && s.current.pid !in t.ring
                  && OthersKept(s, t, s.current.pid) && Left(s, t, s.current.pid))
            && (s.current == Boot || s.current == OnRing(INIT_PID) ==>
                  && t.ring == s.ring && t.zombies == [] && t.freed == s.freed + s.zombies && t.current == s.current
                  && OthersKept(s, t, -1))
  {
    ReapEffect(s);
    ConservedIsDisjoint(s);
    if s.current.OnRing? && s.current.pid != INIT_PID {
      LeaveEffect(s, Step(s, Reap), s.current.pid);
    }
  }

  /** What it means for the current task to leave, after the zombies have been reaped. */
  lemma LeaveEffect(s: State, r: State, p: int)
    requires Distinct(s.ring) && p in s.ring && r.ring == s.ring && r.zombies == [] && r.freed == s.freed + s.zombies
    requires forall q :: q in s.ring ==> q in s.status && q in r.status && r.status[q] == s.status[q]
    ensures var t := LeaveStep(r, p);
            TakenOff(s.ring, t.ring, p) && p !in t.ring && OthersKept(s, t, p) && Left(s, t, p)
  {
    TakenOffIs(s.ring, p);
    RemoveFacts(s.ring, p);
  }

  /** kill_all_tasks leaves init alone, current and RUNNING; every other task has been freed. */
  lemma KillAllEffect(s: State)
    requires Inv(s) && Enabled(s, KillAll)
    ensures var t := Step(s, KillAll);
            && t.ring == [INIT_PID] && t.zombies == [] && t.current == OnRing(INIT_PID)
            && t.status == map[INIT_PID := Running] && t.nextPid == s.nextPid
            && s.freed <= t.freed && (forall p :: 0 <= p < s.nextPid && p != INIT_PID ==> p in t.freed)
  {
    ConservedIsDisjoint(s);
    KillAllLeavesInit(s);
    KillAllStatus(s);
    KillAllConserves(s);
    AllFreed(s, Step(s, KillAll));
  }

  lemma AllFreed(s: State, t: State)
    requires Conserved(t) && t.ring == [INIT_PID] && t.zombies == [] && t.nextPid == s.nextPid
    ensures forall p :: 0 <= p < s.nextPid && p != INIT_PID ==> p in t.freed
  {
    ConservedIsDisjoint(t);
  }

  /** The state of a task that has been switched away from. */
  function Suspended(st: TaskState): TaskState {
    if st == Running then Ready else st
  }

  /** An interrupt changes no list. Without the reschedule flag it leaves the current task current;
      the one that is current afterwards is RUNNING, one that was switched away from while RUNNING
      is READY, and no other state changes. */
  lemma TickEffect(s: State, reschedule: bool)
    requires Inv(s)
    ensures var t := Step(s, Tick(reschedule));
            && t.ring == s.ring && t.zombies == s.zombies && t.freed == s.freed && t.nextPid == s.nextPid
            && !t.current.Boot? && (s.current.Boot? ==> t.current == OnRing(INIT_PID))
            && (!reschedule && !s.current.Boot? ==> t.current == s.current)
            && t.current.pid in t.status && t.status[t.current.pid] == Running
            && (!s.current.Boot? && t.current != s.current && s.current.pid in s.status ==>
                  && s.current.pid in t.status
                  && t.status[s.current.pid] == Suspended(s.status[s.current.pid]))
            && (forall p :: p in s.status && p != t.current.pid && (s.current.Boot? || p != s.current.pid) ==>
                  p in t.status && t.status[p] == s.status[p])
  {
    if !s.current.Boot? {
      TickPicks(s);
    }
  }
}
