/** The scheduler as a state machine over process ids.

    A state records the ring of tasks (head first, so the last element is the tail
    `task_ring`), the zombie list (head first), the log of freed tasks, and the current
    task. A step is one kernel call or one timer tick, each of which runs to completion
    on the single processor.
 */
module SchedModel {
  import opened Common

  datatype TaskState = Running | Ready | Blocked | Zombie

  /** The `current` pointer. A task that has exited stays current, spinning in its halt
      loop, until a tick switches away from it; `next` is where its ring link still points. */
  datatype Current = Boot | OnRing(pid: int) | Exited(pid: int, next: int)

  datatype State = State(
    ring: seq<int>,
    zombies: seq<int>,
    freed: seq<int>,
    current: Current,
    status: map<int, TaskState>,
    nextPid: int)

  datatype Op =
    | Create
    | Exit
    | Stop(pid: int)
    | Reap
    | KillAll
    | Tick(reschedule: bool)

  const INIT_PID := 0
  const INT_MAX := 0x7FFF_FFFF

  //////////////////////////////////////////////////////////////////////////
  // The steps
  //////////////////////////////////////////////////////////////////////////

  function Initial(): State {
    State([INIT_PID], [], [], Boot, map[INIT_PID := Running], 1)
  }

  function Remove(s: seq<int>, p: int): seq<int> {
    if s == [] then []
    else if s[0] == p then s[1..]
    else [s[0]] + Remove(s[1..], p)
  }

  function RemoveAll(s: seq<int>, ps: seq<int>): seq<int>
    decreases |ps|
  {
    if ps == [] then s else RemoveAll(Remove(s, ps[0]), ps[1..])
  }

  function IndexOf(s: seq<int>, p: int): (i: nat)
    requires p in s
    ensures i < |s| && s[i] == p
  {
    if s[0] == p then 0 else 1 + IndexOf(s[1..], p)
  }

  /** The position after i on a ring of n. */
  function After(i: nat, n: nat): nat {
    if i + 1 == n then 0 else i + 1
  }

  /** The task after p on the ring. */
  function Successor(ring: seq<int>, p: int): int {
    if p in ring then ring[After(IndexOf(ring, p), |ring|)] else p
  }

  function ToSet(s: seq<int>): set<int> {
    set p | p in s
  }

  /** Frees every task on the zombie list, unlinking those still on the ring. */
  function ReapStep(s: State): State {
    s.(ring := RemoveAll(s.ring, s.zombies),
       freed := s.freed + s.zombies,
       zombies := [],
       status := s.status - ToSet(s.zombies))
  }

  function CreateStep(s: State): State {
    s.(ring := s.ring + [s.nextPid], status := s.status[s.nextPid := Ready], nextPid := s.nextPid + 1)
  }

  /** The current task p turns itself into a zombie and leaves the ring. */
  function LeaveStep(s: State, p: int): State {
    s.(ring := Remove(s.ring, p),
       zombies := [p] + s.zombies,
       status := s.status[p := Zombie],
       current := Exited(p, Successor(s.ring, p)))
  }

  function ExitStep(s: State): State {
    var t := ReapStep(s);
    if t.current.OnRing? && t.current.pid != INIT_PID then LeaveStep(t, t.current.pid) else t
  }

  function StopStep(s: State, pid: int): State {
    var t := ReapStep(s);
    if pid !in t.ring then t
    else if t.current == OnRing(pid) then LeaveStep(t, pid)
    else DropStep(t, pid)
  }

  /** Every task but init goes on the zombie list, last of the ring first; the list is
      reaped and init becomes current. */
  function KillAllStep(s: State): State {
    var t := ReapStep(s.(zombies := Victims(s) + s.zombies));
    t.(current := OnRing(INIT_PID), status := t.status[INIT_PID := Running])
  }

  predicate Runnable(st: TaskState) {
    st == Ready || st == Running
  }

  predicate CanRun(status: map<int, TaskState>, p: int) {
    p in status && Runnable(status[p])
  }

  /** The ring read once around, from the task after the current one. */
  function Rotation(s: State): seq<int> {
    var start :=
      match s.current
      case Boot => 0
      case OnRing(p) => if p in s.ring then After(IndexOf(s.ring, p), |s.ring|) else 0
      case Exited(_, n) => if n in s.ring then IndexOf(s.ring, n) else 0;
    s.ring[start..] + s.ring[..start]
  }

  /** The tasks of the ring that can run, in the order the scan meets them. */
  function Queue(ring: seq<int>, status: map<int, TaskState>): seq<int> {
    if ring == [] then []
    else (if CanRun(status, ring[0]) then [ring[0]] else []) + Queue(ring[1..], status)
  }

  /** The interrupted task, if it was running, is ready again. */
  function TickStatus(s: State): map<int, TaskState>
    requires !s.current.Boot?
  {
    var p := s.current.pid;
    if p in s.status && s.status[p] == Running then s.status[p := Ready] else s.status
  }

  /** One timer interrupt. */
  function TickStep(s: State, reschedule: bool): State {
    if s.current.Boot? then
      s.(current := OnRing(INIT_PID), status := s.status[INIT_PID := Running])
    else
      var p := s.current.pid;
      var status1 := TickStatus(s);
      var queue := Queue(Rotation(s), status1);
      var current1 := if reschedule && queue != [] && queue[0] != p then OnRing(queue[0]) else s.current;
      s.(current := current1, status := status1[current1.pid := Running])
  }

  /** A call is made by the running task, so none is made while the current task spins
      in its halt loop; process ids are 32-bit; pid 0 is not to be stopped. */
  predicate Enabled(s: State, op: Op) {
    match op
    case Tick(_) => true
    case Create => !s.current.Exited? && s.nextPid < INT_MAX
    case Stop(pid) => !s.current.Exited? && pid != INIT_PID
    case _ => !s.current.Exited?
  }

  function Step(s: State, op: Op): State {
    match op
    case Create => CreateStep(s)
    case Exit => ExitStep(s)
    case Stop(pid) => StopStep(s, pid)
    case Reap => ReapStep(s)
    case KillAll => KillAllStep(s)
    case Tick(r) => TickStep(s, r)
  }

  //////////////////////////////////////////////////////////////////////////
  // What every run keeps
  //////////////////////////////////////////////////////////////////////////

  /** The process ids 0 .. n-1, each once. */
  function Pids(n: nat): multiset<int> {
    if n == 0 then multiset{} else Pids(n - 1) + multiset{n - 1}
  }

  /** The ring is a non-empty cycle of known tasks, and the current pointer leads onto it. */
  predicate OnTheRing(s: State) {
    && s.ring != []
    && match s.current
       case Boot => true
       case OnRing(p) => p in s.ring
       case Exited(p, n) => p in s.zombies && p !in s.ring && n in s.ring
  }

  /** Every task ever created is in exactly one of ring, zombie list and freed log. */
  ghost predicate Conserved(s: State) {
    s.nextPid >= 1 && multiset(s.ring) + multiset(s.zombies) + multiset(s.freed) == Pids(s.nextPid)
  }

  /** A ring task that is RUNNING is the current one; before the first tick it is init. */
  predicate OneRunning(s: State) {
    forall p :: p in s.ring ==>
      && CanRun(s.status, p)
      && (s.status[p] == Running ==> s.current == OnRing(p) || (s.current == Boot && p == INIT_PID))
  }

  ghost predicate Inv(s: State) {
    && OnTheRing(s)
    && INIT_PID in s.ring
    && Conserved(s)
    && OneRunning(s)
    && s.status.Keys == ToSet(s.ring) + ToSet(s.zombies)
  }

  lemma {:induction false} PidsCount(n: nat, p: int)
    ensures Pids(n)[p] == if 0 <= p < n then 1 else 0
  {
    if n > 0 {
      PidsCount(n - 1, p);
    }
  }

  lemma CountAtMostOne(s: seq<int>)
    requires forall p :: p in s ==> multiset(s)[p] <= 1
    ensures Distinct(s)
  {
    forall i, j | 0 <= i < j < |s|
      ensures s[i] != s[j]
    {
      TwicePresent(s, i, j);
    }
  }

  lemma TwicePresent(s: seq<int>, i: nat, j: nat)
    requires i < j < |s|
    ensures s[i] in s && (s[i] == s[j] ==> multiset(s)[s[i]] >= 2)
  {
    var a, b := s[..j], s[j..];
    assert s == a + b;
    assert a[i] == s[i] && b[0] == s[j];
    assert a[i] in multiset(a) && b[0] in multiset(b);
  }

  lemma WhereIs(s: State, p: int)
    requires Conserved(s)
    ensures multiset(s.ring)[p] + multiset(s.zombies)[p] + multiset(s.freed)[p] == if 0 <= p < s.nextPid then 1 else 0
    ensures p in s.ring <==> multiset(s.ring)[p] == 1
    ensures p in s.zombies <==> multiset(s.zombies)[p] == 1
    ensures p in s.freed <==> multiset(s.freed)[p] == 1
  {
    PidsCount(s.nextPid, p);
    assert p in s.ring <==> p in multiset(s.ring);
    assert p in s.zombies <==> p in multiset(s.zombies);
    assert p in s.freed <==> p in multiset(s.freed);
  }

  /** Conservation means: no list holds a task twice, and no task is on two lists. */
  lemma ConservedIsDisjoint(s: State)
    requires Conserved(s)
    ensures Distinct(s.ring) && Distinct(s.zombies) && Distinct(s.freed)
    ensures forall p :: p in s.ring ==> p !in s.zombies && p !in s.freed && 0 <= p < s.nextPid
    ensures forall p :: p in s.zombies ==> p !in s.freed && 0 <= p < s.nextPid
    ensures forall p :: 0 <= p < s.nextPid ==> p in s.ring || p in s.zombies || p in s.freed
  {
    forall p
      ensures p in s.ring ==> p !in s.zombies && p !in s.freed && 0 <= p < s.nextPid && multiset(s.ring)[p] == 1
      ensures p in s.zombies ==> p !in s.freed && 0 <= p < s.nextPid && multiset(s.zombies)[p] == 1
      ensures p in s.freed ==> multiset(s.freed)[p] == 1
      ensures 0 <= p < s.nextPid ==> p in s.ring || p in s.zombies || p in s.freed
    {
      WhereIs(s, p);
    }
    CountAtMostOne(s.ring);
    CountAtMostOne(s.zombies);
    CountAtMostOne(s.freed);
  }

  lemma {:induction false} RemoveAbsent(s: seq<int>, p: int)
    requires p !in s
    ensures Remove(s, p) == s
  {
    if s != [] {
      RemoveAbsent(s[1..], p);
    }
  }

  lemma {:induction false} RemoveCount(s: seq<int>, p: int)
    requires p in s
    ensures multiset(Remove(s, p)) + multiset{p} == multiset(s)
  {
    assert s == [s[0]] + s[1..];
    if s[0] != p {
      RemoveCount(s[1..], p);
    }
  }

  lemma {:induction false} RemoveAllAbsent(s: seq<int>, ps: seq<int>)
    requires forall p :: p in ps ==> p !in s
    ensures RemoveAll(s, ps) == s
  {
    if ps != [] {
      RemoveAbsent(s, ps[0]);
      RemoveAllAbsent(s, ps[1..]);
    }
  }

  lemma InvFacts(s: State)
    requires Inv(s)
    ensures RemoveAll(s.ring, s.zombies) == s.ring
    ensures ReapStep(s).ring == s.ring
  {
    ConservedIsDisjoint(s);
    RemoveAllAbsent(s.ring, s.zombies);
  }

  lemma {:induction false} RemoveMembers(s: seq<int>, p: int, q: int)
    ensures q in Remove(s, p) ==> q in s
    ensures q != p ==> (q in Remove(s, p) <==> q in s)
    ensures Distinct(s) ==> p !in Remove(s, p) && Distinct(Remove(s, p))
  {
    if s != [] {
      assert s == [s[0]] + s[1..];
      if s[0] != p {
        RemoveMembers(s[1..], p, q);
        assert Distinct(s) ==> s[0] !in s[1..];
        if Distinct(s) && s[0] in Remove(s[1..], p) {
          RemoveMembers(s[1..], p, s[0]);
        }
      }
    }
  }

  lemma InitialInv()
    ensures Inv(Initial())
  {
    var s := Initial();
    assert Pids(1) == Pids(0) + multiset{0};
    assert multiset(s.ring) + multiset(s.zombies) + multiset(s.freed) == Pids(s.nextPid);
  }

  lemma CreateKeepsInv(s: State)
    requires Inv(s) && Enabled(s, Create)
    ensures Inv(CreateStep(s))
  {
    var t := CreateStep(s);
    ConservedIsDisjoint(s);
    assert multiset(t.ring) == multiset(s.ring) + multiset{s.nextPid};
    assert s.nextPid !in s.ring && s.nextPid !in s.zombies;
    assert ToSet(t.ring) == ToSet(s.ring) + {s.nextPid};
  }

  lemma ReapKeepsInv(s: State)
    requires Inv(s) && !s.current.Exited?
    ensures Inv(ReapStep(s)) && ReapStep(s).ring == s.ring
  {
    var t := ReapStep(s);
    InvFacts(s);
    ConservedIsDisjoint(s);
    assert multiset(t.freed) == multiset(s.freed) + multiset(s.zombies);
    assert ToSet(t.ring) !! ToSet(s.zombies);
  }

  /** Ring members after a removal. */
  lemma {:induction false} RemoveAt(s: seq<int>, k: nat)
    requires Distinct(s) && k < |s|
    ensures Remove(s, s[k]) == s[..k] + s[k + 1..]
  {
    if k > 0 {
      var rest := s[1..];
      assert Distinct(rest) && rest[k - 1] == s[k] && s[0] != s[k];
      RemoveAt(rest, k - 1);
      Rejoin(s, k);
    }
  }

  lemma Rejoin(s: seq<int>, k: nat)
    requires 0 < k < |s|
    ensures [s[0]] + (s[1..][..k - 1] + s[1..][k..]) == s[..k] + s[k + 1..]
  {
  }

  lemma RemoveFacts(ring: seq<int>, p: int)
    requires Distinct(ring) && p in ring
    ensures multiset(Remove(ring, p)) + multiset{p} == multiset(ring)
    ensures p !in Remove(ring, p)
    ensures forall q :: q in Remove(ring, p) <==> q in ring && q != p
    ensures ToSet(Remove(ring, p)) == ToSet(ring) - {p}
  {
    RemoveCount(ring, p);
    forall q
      ensures q in Remove(ring, p) <==> q in ring && q != p
    {
      RemoveMembers(ring, p, q);
    }
  }

  lemma LeaveConserves(s: State, p: int)
    requires Conserved(s) && p in s.ring
    ensures Conserved(LeaveStep(s, p))
  {
    RemoveCount(s.ring, p);
    assert multiset([p] + s.zombies) == multiset{p} + multiset(s.zombies);
  }

  lemma LeaveKeepsInv(s: State)
    requires Inv(s) && s.current.OnRing? && s.current.pid != INIT_PID && s.zombies == []
    ensures Inv(LeaveStep(s, s.current.pid))
  {
    var p := s.current.pid;
    var t := LeaveStep(s, p);
    LeaveConserves(s, p);
    ConservedIsDisjoint(s);
    RemoveFacts(s.ring, p);
    SuccessorDiffers(s.ring, p, INIT_PID);
    assert ToSet(t.zombies) == {p};
  }

  /** On a ring with a second task, no task follows itself. */
  lemma SuccessorDiffers(ring: seq<int>, p: int, q: int)
    requires Distinct(ring) && p in ring && q in ring && p != q
    ensures Successor(ring, p) in ring && Successor(ring, p) != p
  {
    var i, j := IndexOf(ring, p), IndexOf(ring, q);
    assert i != j;
  }

  lemma ExitKeepsInv(s: State)
    requires Inv(s) && Enabled(s, Exit)
    ensures Inv(Step(s, Exit))
  {
    ReapKeepsInv(s);
    var t := ReapStep(s);
    if t.current.OnRing? && t.current.pid != INIT_PID {
      LeaveKeepsInv(t);
    }
  }

  /** The part of task_stop that unlinks and frees another task. */
  function DropStep(s: State, pid: int): State {
    s.(ring := Remove(s.ring, pid), freed := s.freed + [pid], status := s.status - {pid})
  }

  lemma DropConserves(s: State, pid: int)
    requires Conserved(s) && pid in s.ring
    ensures Conserved(DropStep(s, pid))
  {
    RemoveCount(s.ring, pid);
    assert multiset(s.freed + [pid]) == multiset(s.freed) + multiset{pid};
  }

  lemma DropKeepsInv(s: State, pid: int)
    requires Inv(s) && pid in s.ring && pid != INIT_PID && s.current != OnRing(pid) && !s.current.Exited?
    ensures Inv(DropStep(s, pid))
  {
    var t := DropStep(s, pid);
    DropConserves(s, pid);
    ConservedIsDisjoint(s);
    RemoveFacts(s.ring, pid);
    assert t.status.Keys == ToSet(t.ring) + ToSet(t.zombies);
  }

  lemma StopKeepsInv(s: State, pid: int)
    requires Inv(s) && Enabled(s, Stop(pid))
    ensures Inv(StopStep(s, pid))
  {
    ReapKeepsInv(s);
    var t := ReapStep(s);
    if pid in t.ring {
      if t.current == OnRing(pid) {
        LeaveKeepsInv(t);
      } else {
        DropKeepsInv(t, pid);
      }
    }
  }

  lemma {:induction false} ReversedCount(s: seq<int>)
    ensures multiset(Reversed(s)) == multiset(s)
  {
    if s != [] {
      ReversedCount(s[1..]);
      assert s == [s[0]] + s[1..];
    }
  }

  lemma Cancel(a: multiset<int>, b: multiset<int>, c: multiset<int>)
    requires a + c == b + c
    ensures a == b
  {
    forall p
      ensures a[p] == b[p]
    {
      assert (a + c)[p] == (b + c)[p];
    }
  }

  /** Removing all of a ring but `rest`, in any order, leaves `rest`. */
  lemma {:induction false} RemoveAllCount(s: seq<int>, ps: seq<int>, rest: multiset<int>)
    requires multiset(s) == multiset(ps) + rest
    ensures multiset(RemoveAll(s, ps)) == rest
    decreases |ps|
  {
    if ps != [] {
      var t := Remove(s, ps[0]);
      assert ps == [ps[0]] + ps[1..];
      assert ps[0] in multiset(s);
      RemoveCount(s, ps[0]);
      assert multiset(t) + multiset{ps[0]} == multiset(ps[1..]) + rest + multiset{ps[0]};
      Cancel(multiset(t), multiset(ps[1..]) + rest, multiset{ps[0]});
      RemoveAllCount(t, ps[1..], rest);
    }
  }

  lemma {:induction false} RemoveAllSplit(s: seq<int>, ps: seq<int>, qs: seq<int>)
    ensures RemoveAll(s, ps + qs) == RemoveAll(RemoveAll(s, ps), qs)
    decreases |ps|
  {
    if ps == [] {
      assert ps + qs == qs;
    } else {
      assert (ps + qs)[1..] == ps[1..] + qs;
      RemoveAllSplit(Remove(s, ps[0]), ps[1..], qs);
    }
  }

  /** The tasks that kill_all_tasks puts on the zombie list. */
  function Victims(s: State): seq<int> {
    Reversed(Remove(s.ring, INIT_PID))
  }

  /** What kill_all_tasks needs of the lists it finds. */
  predicate TwoLists(s: State) {
    Distinct(s.ring) && INIT_PID in s.ring && forall p :: p in s.zombies ==> p !in s.ring
  }

  lemma {:induction false} ReversedMembers(s: seq<int>, p: int)
    ensures p in Reversed(s) <==> p in s
  {
    if s != [] {
      ReversedMembers(s[1..], p);
      assert s == [s[0]] + s[1..];
    }
  }

  lemma VictimsAreTheOthers(s: State)
    requires TwoLists(s)
    ensures multiset(Victims(s)) + multiset{INIT_PID} == multiset(s.ring)
    ensures ToSet(Victims(s)) == ToSet(s.ring) - {INIT_PID}
  {
    var others := Remove(s.ring, INIT_PID);
    RemoveFacts(s.ring, INIT_PID);
    ReversedCount(others);
    forall p
      ensures p in Victims(s) <==> p in others
    {
      ReversedMembers(others, p);
    }
  }

  /** After kill_all_tasks the ring is init alone, so the repair code at its end, for a
      ring whose tail is not init, has nothing to do. */
  lemma KillAllLeavesInit(s: State)
    requires TwoLists(s)
    ensures KillAllStep(s).ring == [INIT_PID]
  {
    VictimsAreTheOthers(s);
    RemoveAllCount(s.ring, Victims(s), multiset{INIT_PID});
    var left := RemoveAll(s.ring, Victims(s));
    SingletonOf(left, INIT_PID);
    RemoveAllAbsent(left, s.zombies);
    RemoveAllSplit(s.ring, Victims(s), s.zombies);
  }

  lemma SingletonOf(s: seq<int>, p: int)
    requires multiset(s) == multiset{p}
    ensures s == [p]
  {
    assert |s| == |multiset(s)| == 1;
    assert s == [s[0]];
  }

  lemma KillAllStatus(s: State)
    requires TwoLists(s) && forall p :: p in s.status ==> p in s.ring || p in s.zombies
    ensures KillAllStep(s).status == map[INIT_PID := Running]
  {
    forall p | p in s.status.Keys
      ensures p in ToSet(s.ring) + ToSet(s.zombies)
    {
      assert p in s.status;
    }
    VictimsAreTheOthers(s);
    OnlyOneLeft(s.status, ToSet(s.ring), ToSet(s.zombies), ToSet(Victims(s) + s.zombies));
  }

  lemma OnlyOneLeft(status: map<int, TaskState>, ring: set<int>, zombies: set<int>, gone: set<int>)
    requires status.Keys <= ring + zombies && INIT_PID in ring && INIT_PID !in zombies
    requires gone == (ring - {INIT_PID}) + zombies
    ensures (status - gone)[INIT_PID := Running] == map[INIT_PID := Running]
  {
    assert (status - gone).Keys <= {INIT_PID};
  }

  lemma KillAllConserves(s: State)
    requires Inv(s)
    ensures Conserved(KillAllStep(s))
  {
    ConservedIsDisjoint(s);
    VictimsAreTheOthers(s);
    KillAllLeavesInit(s);
    var t := KillAllStep(s);
    assert t.freed == s.freed + (Victims(s) + s.zombies);
    assert multiset(t.freed) == multiset(s.freed) + (multiset(Victims(s)) + multiset(s.zombies));
    assert multiset(t.ring) == multiset{INIT_PID};
    assert multiset(t.zombies) == multiset{};
  }

  lemma KillAllKeepsInv(s: State)
    requires Inv(s) && Enabled(s, KillAll)
    ensures Inv(KillAllStep(s))
  {
    ConservedIsDisjoint(s);
    KillAllLeavesInit(s);
    assert forall p :: p in s.status.Keys ==> p in s.ring || p in s.zombies;
    KillAllStatus(s);
    KillAllConserves(s);
  }

  lemma {:induction false} QueueMembers(ring: seq<int>, status: map<int, TaskState>, p: int)
    ensures p in Queue(ring, status) <==> p in ring && CanRun(status, p)
  {
    if ring != [] {
      QueueMembers(ring[1..], status, p);
      assert ring == [ring[0]] + ring[1..];
    }
  }

  /** pick_next finds nothing only if no ring task can run. */
  lemma PickFails(s: State, status: map<int, TaskState>)
    ensures Queue(Rotation(s), status) == [] <==> forall p :: p in s.ring ==> !CanRun(status, p)
  {
    var rot := Rotation(s);
    if Queue(rot, status) == [] {
      forall p | p in s.ring
        ensures !CanRun(status, p)
      {
        RotationMembers(s, p);
        QueueMembers(rot, status, p);
      }
    } else {
      var p := Queue(rot, status)[0];
      QueueMembers(rot, status, p);
      RotationMembers(s, p);
    }
  }

  lemma RotationMembers(s: State, p: int)
    ensures p in Rotation(s) <==> p in s.ring
  {
    var rot := Rotation(s);
    var k :| 0 <= k <= |s.ring| && rot == s.ring[k..] + s.ring[..k];
    assert s.ring == s.ring[..k] + s.ring[k..];
  }

  /** The task that a rescheduling tick switches to. */
  lemma TickPicks(s: State)
    requires OnTheRing(s) && !s.current.Boot?
    ensures var status1 := TickStatus(s);
            var queue := Queue(Rotation(s), status1);
            && (queue != [] ==> queue[0] in s.ring && CanRun(status1, queue[0]))
            && (forall p :: CanRun(status1, p) <==> CanRun(s.status, p))
            && ((exists p :: p in s.ring && CanRun(s.status, p)) ==> queue != [])
  {
    var status1 := TickStatus(s);
    var queue := Queue(Rotation(s), status1);
    PickFails(s, status1);
    if queue != [] {
      QueueMembers(Rotation(s), status1, queue[0]);
      RotationMembers(s, queue[0]);
    }
  }

  lemma TickKeepsInv(s: State, reschedule: bool)
    requires Inv(s)
    ensures Inv(TickStep(s, reschedule))
  {
    if !s.current.Boot? {
      TickPicks(s);
      assert s.current.pid in s.status.Keys;
      assert INIT_PID in s.ring && CanRun(s.status, INIT_PID);
    }
  }

  /** Every step a kernel run can take keeps the invariant. */
  lemma StepKeepsInv(s: State, op: Op)
    requires Inv(s) && Enabled(s, op)
    ensures Inv(Step(s, op))
  {
    match op
    case Create => CreateKeepsInv(s);
    case Exit => ExitKeepsInv(s);
    case Stop(pid) => StopKeepsInv(s, pid);
    case Reap => ReapKeepsInv(s);
    case KillAll => KillAllKeepsInv(s);
    case Tick(r) => TickKeepsInv(s, r);
  }

  //////////////////////////////////////////////////////////////////////////
  // Runs
  //////////////////////////////////////////////////////////////////////////

  predicate Allowed(s: State, ops: seq<Op>)
    decreases |ops|
  {
    ops == [] || (Enabled(s, ops[0]) && Allowed(Step(s, ops[0]), ops[1..]))
  }

  function Run(s: State, ops: seq<Op>): State
    decreases |ops|
  {
    if ops == [] then s else Run(Step(s, ops[0]), ops[1..])
  }

  /** The rest of a run, one step further. */
  lemma RunOn(s: State, ops: seq<Op>, i: nat)
    requires i < |ops| && Allowed(s, ops[i..])
    ensures Enabled(s, ops[i]) && Allowed(Step(s, ops[i]), ops[i + 1..])
    ensures Run(s, ops[i..]) == Run(Step(s, ops[i]), ops[i + 1..])
  {
    assert ops[i..][1..] == ops[i + 1..];
  }

  /** Over every run: the ring is a cycle with init on it, and each task ever created is
      in exactly one of ring, zombie list and freed log. */
  lemma {:induction false} RunKeepsInv(s: State, ops: seq<Op>)
    requires Inv(s) && Allowed(s, ops)
    ensures Inv(Run(s, ops))
    decreases |ops|
  {
    if ops != [] {
      StepKeepsInv(s, ops[0]);
      RunKeepsInv(Step(s, ops[0]), ops[1..]);
    }
  }

  /** Spelled out from boot: no task is lost and none is freed twice. */
  lemma NoTaskLostOrFreedTwice(ops: seq<Op>)
    requires Allowed(Initial(), ops)
    ensures var s := Run(Initial(), ops);
            && INIT_PID in s.ring && Distinct(s.ring) && Distinct(s.freed)
            && forall p :: 0 <= p < s.nextPid ==>
                 multiset(s.ring)[p] + multiset(s.zombies)[p] + multiset(s.freed)[p] == 1
  {
    InitialInv();
    RunKeepsInv(Initial(), ops);
    var s := Run(Initial(), ops);
    ConservedIsDisjoint(s);
    forall p | 0 <= p < s.nextPid
      ensures multiset(s.ring)[p] + multiset(s.zombies)[p] + multiset(s.freed)[p] == 1
    {
      WhereIs(s, p);
    }
  }

  /** After a tick exactly one ring task is RUNNING, and it is current; none is while an
      exited task still waits to be switched away from. */
  lemma OneRunningAfterTick(s: State, reschedule: bool, p: int)
    requires Inv(s)
    ensures var t := TickStep(s, reschedule);
            && !t.current.Boot?
            && (p in t.ring ==> p in t.status && (t.status[p] == Running <==> t.current == OnRing(p)))
            && (reschedule ==> t.current.OnRing?)
  {
    TickKeepsInv(s, reschedule);
    if !s.current.Boot? {
      TickPicks(s);
      assert INIT_PID in s.ring && CanRun(s.status, INIT_PID);
    }
  }

  /** Task p has left the ring and is not current. */
  predicate Gone(s: State, p: int) {
    0 <= p < s.nextPid && p !in s.ring && (s.current.Boot? || s.current.pid != p)
  }

  lemma StepKeepsGone(s: State, op: Op, p: int)
    requires Inv(s) && Enabled(s, op) && Gone(s, p)
    ensures Gone(Step(s, op), p)
  {
    match op
    case Create =>
    case Exit =>
      InvFacts(s);
      LeavingKeepsOut(ReapStep(s).ring, p);
    case Stop(pid) =>
      InvFacts(s);
      LeavingKeepsOut(ReapStep(s).ring, p);
    case Reap =>
      InvFacts(s);
    case KillAll =>
      ConservedIsDisjoint(s);
      KillAllLeavesInit(s);
    case Tick(r) =>
      if !s.current.Boot? {
        TickPicks(s);
      }
  }

  lemma LeavingKeepsOut(ring: seq<int>, p: int)
    requires p !in ring
    ensures forall q :: p !in Remove(ring, q)
  {
    forall q
      ensures p !in Remove(ring, q)
    {
      RemoveMembers(ring, q, p);
    }
  }

  /** Once an exited task has been switched away from, no later run makes it current. */
  lemma {:induction false} GoneForever(s: State, ops: seq<Op>, p: int)
    requires Inv(s) && Allowed(s, ops) && Gone(s, p)
    ensures Gone(Run(s, ops), p)
    decreases |ops|
  {
    if ops != [] {
      StepKeepsInv(s, ops[0]);
      StepKeepsGone(s, ops[0], p);
      GoneForever(Step(s, ops[0]), ops[1..], p);
    }
  }

  /** A task that exits is switched away from by the next rescheduling tick, whatever
      ticks come in between, and stays gone. */
  lemma ExitedIsSwitchedAway(s: State)
    requires Inv(s) && s.current.Exited?
    ensures TickStep(s, false).current == s.current
    ensures Gone(TickStep(s, true), s.current.pid)
  {
    TickPicks(s);
    ConservedIsDisjoint(s);
    assert INIT_PID in s.ring && CanRun(s.status, INIT_PID);
  }
}
