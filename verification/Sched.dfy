/** The scheduler's linked structures: a circular ring of tasks reached through its tail,
    a separate zombie list, and the calls that change them in place. Each call is proved
    to take the step of SchedModel with the same name.

    Stacks, registers, page tables and the memory of a freed task are not modelled; a
    freed task is recorded in the log `model.freed`. The endless halt loop at the end of
    an exiting task is the out-parameter `halts`: the call does not return to its caller.
 */
module Sched {
  import opened Common
  import opened SchedModel

  class Task {
    const pid: int
    var state: TaskState
    var exitCode: int
    var next: Task?   // circular task list
    var znext: Task?  // zombie list

    constructor (pid: int, state: TaskState)
      ensures this.pid == pid && this.state == state && next == null && znext == null
    {
      this.pid := pid;
      this.state := state;
      exitCode := 0;
      next := null;
      znext := null;
    }
  }

  /** Every task ever created, under its pid. */
  type Table = map<int, Task>

  ghost predicate Numbered(tasks: Table) {
    forall p :: p in tasks ==> tasks[p].pid == p
  }

  ghost predicate AllIn(ps: seq<int>, tasks: Table) {
    forall i :: 0 <= i < |ps| ==> ps[i] in tasks
  }

  /** The `next` links run through `ring` in order and from its last task, `tail`, back to
      its first. */
  ghost predicate IsRing(ring: seq<int>, tail: Task, tasks: Table)
    reads tasks.Values`next
  {
    && ring != [] && AllIn(ring, tasks)
    && tail == tasks[ring[|ring| - 1]] && tail.next == tasks[ring[0]]
    && forall i {:trigger tasks[ring[i]].next} :: 0 <= i < |ring| - 1 ==> tasks[ring[i]].next == tasks[ring[i + 1]]
  }

  /** The `znext` links run from `head` through `zs` in order and end there. */
  ghost predicate IsZombieList(zs: seq<int>, head: Task?, tasks: Table)
    reads tasks.Values`znext
  {
    && AllIn(zs, tasks)
    && (zs == [] ==> head == null)
    && (zs != [] ==> head == tasks[zs[0]] && tasks[zs[|zs| - 1]].znext == null)
    && forall i {:trigger tasks[zs[i]].znext} :: 0 <= i < |zs| - 1 ==> tasks[zs[i]].znext == tasks[zs[i + 1]]
  }

  class Scheduler {
    const initTask: Task
    var taskRing: Task  // tail of the ring
    var current: Task?
    var nextPid: int
    var zombieList: Task?
    var needReschedule: bool
    ghost var tasks: Table
    ghost var model: State

    ghost predicate Tabled()
      reads this`tasks, this`nextPid
    {
      && Numbered(tasks) && INIT_PID in tasks && tasks[INIT_PID] == initTask
      && forall p :: p in tasks ==> p < nextPid
    }

    ghost predicate Known(t: Task)
      reads this`tasks
    {
      t.pid in tasks && tasks[t.pid] == t
    }

    /** Both lists are linked as the model says. A task can be on both while
        kill_all_tasks is collecting its victims. */
    ghost predicate Linked()
      reads this`tasks, this`nextPid, this`model, this`taskRing, this`zombieList, tasks.Values`next, tasks.Values`znext
    {
      && Tabled() && nextPid == model.nextPid
      && IsRing(model.ring, taskRing, tasks) && Distinct(model.ring)
      && IsZombieList(model.zombies, zombieList, tasks)
      && INIT_PID in model.ring && INIT_PID !in model.zombies
    }

    /** No task is on both lists. */
    ghost predicate Apart()
      reads this`model
    {
      forall p :: p in model.zombies ==> p !in model.ring
    }

    /** The states that the model records are those of the tasks. */
    ghost predicate StatesAgree()
      reads this`tasks, this`model, tasks.Values`state
    {
      && (forall p :: p in model.status ==> p in tasks && model.status[p] == tasks[p].state)
      && (forall p :: p in model.status ==> p in model.ring || p in model.zombies)
      && (forall p :: p in model.ring ==> p in model.status)
      && (forall p :: p in model.zombies ==> p in model.status)
    }

    ghost predicate CurrentAgrees()
      reads this`tasks, this`model, this`current, tasks.Values`next
    {
      match model.current
      case Boot => current == null
      case OnRing(p) => p in model.ring && p in tasks && current == tasks[p]
      case Exited(p, n) => && p in model.zombies && p in tasks && n in model.ring && n in tasks
                           && current == tasks[p] && tasks[p].next == tasks[n]
    }

    /** The linked structures are in the state that the model describes. */
    ghost predicate Valid()
      reads this`tasks, this`nextPid, this`model, this`taskRing, this`zombieList, this`current, tasks.Values
    {
      Linked() && Apart() && StatesAgree() && CurrentAgrees()
    }

    /** scheduler_init: the ring is init alone. */
    constructor ()
      ensures Valid() && model == Initial() && forall t :: t in tasks.Values ==> fresh(t)
    {
      initTask := new Task(INIT_PID, Running);
      taskRing := initTask;
      current := null;
      nextPid := 1;
      zombieList := null;
      needReschedule := false;
      tasks := map[INIT_PID := initTask];
      model := Initial();
      new;
      initTask.next := initTask;
    }

    method AddToZombieList(t: Task)
      requires Numbered(tasks) && Known(t)
      requires IsZombieList(model.zombies, zombieList, tasks) && t.pid !in model.zombies
      modifies this`zombieList, this`model, t`znext
      ensures IsZombieList(model.zombies, zombieList, tasks)
      ensures model == old(model).(zombies := [t.pid] + old(model.zombies))
    {
      ghost var zs := model.zombies;
      NotListed(zs, t, tasks);
      t.znext := zombieList;
      zombieList := t;
      model := model.(zombies := [t.pid] + model.zombies);
    }

    /** Takes the task at position k off the ring, given the one before it. */
    method Bypass(prev: Task, it: Task, ghost k: nat)
      requires Numbered(tasks) && IsRing(model.ring, taskRing, tasks) && Distinct(model.ring)
      requires k < |model.ring| && |model.ring| > 1 && it == tasks[model.ring[k]]
      requires prev == tasks[model.ring[if k == 0 then |model.ring| - 1 else k - 1]]
      modifies this`taskRing, this`model, prev`next
      ensures IsRing(model.ring, taskRing, tasks)
      ensures model == old(model).(ring := old(model.ring)[..k] + old(model.ring)[k + 1..])
      ensures it.next == old(it.next)
    {
      ghost var ring := model.ring;
      assert ring[if k == 0 then |ring| - 1 else k - 1] != ring[k];
      prev.next := it.next;
      if taskRing == it {
        taskRing := prev;
      }
      model := model.(ring := ring[..k] + ring[k + 1..]);
    }

    /** Takes t off the ring if it is there. The last task of a ring is never taken off:
        init stays, and any other task is replaced by init. */
    method UnlinkFromRing(t: Task) returns (r: int)
      requires Tabled() && Known(t)
      requires IsRing(model.ring, taskRing, tasks) && Distinct(model.ring)
      modifies this`taskRing, this`model, tasks.Values`next
      ensures IsRing(model.ring, taskRing, tasks)
      ensures r == if t.pid in old(model.ring) && old(model.ring) != [INIT_PID] then 0 else -1
      ensures model == old(model).(ring :=
                if old(model.ring) == [t.pid] then [INIT_PID] else Remove(old(model.ring), t.pid))
      ensures t != initTask ==> t.next == old(t.next)
    {
      ghost var ring := model.ring;
      if taskRing.next == taskRing {
        assert ring[0] == ring[|ring| - 1] == taskRing.pid;
        assert ring == [taskRing.pid];
        if taskRing == t {
          if initTask == t {
            return -1;
          }
          taskRing := initTask;
          initTask.next := initTask;
          model := model.(ring := [INIT_PID]);
          return 0;
        }
        RemoveAbsent(ring, t.pid);
        return -1;
      }
      var prev := taskRing;
      var it := taskRing.next;
      ghost var k := 0;
      while it != t
        invariant 0 <= k < |ring| && it == tasks[ring[k]]
        invariant prev == tasks[ring[if k == 0 then |ring| - 1 else k - 1]]
        invariant t.pid !in ring[..k]
        decreases |ring| - k
      {
        prev := it;
        it := it.next;
        k := k + 1;
        assert k < |ring| ==> ring[0] != ring[k];
        if it == taskRing.next {
          assert ring[..k] == ring;
          RemoveAbsent(ring, t.pid);
          return -1;
        }
      }
      Bypass(prev, it, k);
      RemoveAt(ring, k);
      return 0;
    }

    /** Takes one task other than init off the ring, if it is there, and frees it. */
    method UnlinkAndFree(z: Task)
      requires Tabled() && Known(z) && z.pid != INIT_PID
      requires IsRing(model.ring, taskRing, tasks) && Distinct(model.ring) && INIT_PID in model.ring
      modifies this`taskRing, this`model, tasks.Values`next
      ensures IsRing(model.ring, taskRing, tasks) && Distinct(model.ring) && INIT_PID in model.ring
      ensures model == old(model).(ring := Remove(old(model.ring), z.pid), freed := old(model.freed) + [z.pid])
    {
      RemoveMembers(model.ring, z.pid, INIT_PID);
      assert model.ring != [z.pid];
      var _ := UnlinkFromRing(z);
      model := model.(freed := model.freed + [z.pid]);  // free_task_resources
    }

    /** One turn of the loop over a detached zombie list. */
    method ReapOne(z: Task, ghost was: State, ghost zs: seq<int>, ghost rest: seq<int>) returns (nextZ: Task?)
      requires Tabled() && IsRing(model.ring, taskRing, tasks) && Distinct(model.ring) && INIT_PID in model.ring
      requires IsZombieList(rest, z, tasks) && INIT_PID !in rest && Freeing(was, zs, model, rest)
      modifies this`taskRing, this`model, tasks.Values`next
      ensures IsRing(model.ring, taskRing, tasks) && Distinct(model.ring) && INIT_PID in model.ring
      ensures rest != [] && IsZombieList(rest[1..], nextZ, tasks) && INIT_PID !in rest[1..]
      ensures Freeing(was, zs, model, rest[1..])
    {
      nextZ := z.znext;
      ZombieTail(rest, z, tasks);
      FreeingOn(was, zs, model, rest);
      UnlinkAndFree(z);
    }

    /** Unlinks and frees the tasks of a detached zombie list, one by one. */
    method ReapList(head: Task?, ghost zs: seq<int>)
      requires Tabled() && IsRing(model.ring, taskRing, tasks) && Distinct(model.ring)
      requires INIT_PID in model.ring && IsZombieList(zs, head, tasks) && INIT_PID !in zs
      modifies this`taskRing, this`model, tasks.Values`next
      ensures IsRing(model.ring, taskRing, tasks) && Distinct(model.ring) && INIT_PID in model.ring
      ensures model == old(model).(ring := RemoveAll(old(model.ring), zs), freed := old(model.freed) + zs)
    {
      var z := head;
      ghost var rest := zs;
      while z != null
        invariant IsZombieList(rest, z, tasks) && INIT_PID !in rest
        invariant IsRing(model.ring, taskRing, tasks) && Distinct(model.ring) && INIT_PID in model.ring
        invariant Freeing(old(model), zs, model, rest)
        decreases |rest|
      {
        z := ReapOne(z, old(model), zs, rest);
        rest := rest[1..];
      }
    }

    /** reap_zombies: frees every zombie, taking those still on the ring off it first. */
    method ReapZombies()
      requires Linked()
      modifies this`taskRing, this`model, this`zombieList, tasks.Values`next
      ensures Linked() && model == ReapStep(old(model))
    {
      var z := zombieList;
      zombieList := null;
      ghost var zs := model.zombies;
      model := model.(zombies := [], status := model.status - ToSet(zs));
      ReapList(z, zs);
    }

    /** reap_zombies as a running task calls it: no zombie is on the ring. */
    method Reap()
      requires Valid() && !model.current.Exited?
      modifies this`taskRing, this`model, this`zombieList, tasks.Values`next
      ensures Valid() && model == ReapStep(old(model)) && model.ring == old(model.ring)
    {
      RemoveAllAbsent(model.ring, model.zombies);
      ReapZombies();
    }

    /** Links t in as the tail of the ring. */
    method InsertAtTail(t: Task)
      requires Numbered(tasks) && Known(t) && t.pid !in model.ring
      requires IsRing(model.ring, taskRing, tasks) && Distinct(model.ring)
      modifies this`taskRing, this`model, taskRing`next, t`next
      ensures IsRing(model.ring, taskRing, tasks)
      ensures model == old(model).(ring := old(model.ring) + [t.pid])
    {
      ghost var ring := model.ring;
      NotListed(ring, t, tasks);
      t.next := taskRing.next;
      taskRing.next := t;
      taskRing := t;
      model := model.(ring := ring + [t.pid]);
    }

    /** A new task, which is on no list yet. */
    method NewTask() returns (t: Task)
      requires Linked()
      modifies this`nextPid, this`tasks, this`model
      ensures Linked() && Known(t) && model == old(model).(nextPid := old(nextPid) + 1)
      ensures fresh(t) && t.state == Ready && t.pid == old(nextPid) && tasks == old(tasks)[t.pid := t]
      ensures t.pid !in model.ring && t.pid !in model.zombies
    {
      t := new Task(nextPid, Ready);
      nextPid := nextPid + 1;
      tasks := tasks[t.pid := t];
      model := model.(nextPid := nextPid);
    }

    /** Allocates a task and links it in as the tail of the ring. */
    method AddTask() returns (t: Task)
      requires Linked()
      modifies this`nextPid, this`taskRing, this`tasks, this`model, taskRing`next
      ensures Linked()
      ensures model == old(model).(ring := old(model.ring) + [old(nextPid)], nextPid := old(nextPid) + 1)
      ensures fresh(t) && t.state == Ready && t.pid == old(nextPid) && tasks == old(tasks)[t.pid := t]
    {
      t := NewTask();
      InsertAtTail(t);
    }

    /** task_create: the new task becomes the tail of the ring. Its entry point, stack and
        name are not modelled, nor the panics when they cannot be allocated. */
    method TaskCreate() returns (t: Task)
      requires Valid() && nextPid < INT_MAX && !model.current.Exited?
      modifies this`nextPid, this`taskRing, this`tasks, this`model, taskRing`next
      ensures Valid() && model == CreateStep(old(model))
      ensures fresh(t) && tasks == old(tasks)[t.pid := t]
    {
      t := AddTask();
      model := model.(status := model.status[t.pid := Ready]);
    }

    /** Moves t from the ring to the zombie list; its `next` link stays as it is. */
    method MoveToZombies(t: Task)
      requires Linked() && Known(t) && t.pid in model.ring && t.pid !in model.zombies && t.pid != INIT_PID
      modifies this`taskRing, this`zombieList, this`model, tasks.Values`next, t`state, t`znext
      ensures Linked() && t.next == old(t.next) && t.state == Zombie
      ensures model == old(model).(ring := Remove(old(model.ring), t.pid), zombies := [t.pid] + old(model.zombies))
    {
      t.state := Zombie;
      AddToZombieList(t);
      RemoveMembers(model.ring, t.pid, INIT_PID);
      assert model.ring != [t.pid];
      var _ := UnlinkFromRing(t);
    }

    /** The states of all tasks but one are those recorded in s. */
    ghost predicate OthersAgree(s: State, pid: int)
      reads this`tasks, tasks.Values`state
    {
      forall p :: p in s.status && p != pid ==> p in tasks && s.status[p] == tasks[p].state
    }

    /** The record of a task that has just been moved to the empty zombie list. */
    ghost method RecordLeaving(t: Task, was: State)
      requires Linked() && Known(t) && t == current && t.state == Zombie && OthersAgree(was, t.pid)
      requires was.zombies == [] && model == was.(ring := Remove(was.ring, t.pid), zombies := [t.pid])
      requires forall p :: p in was.status <==> p in was.ring
      requires forall p :: p in model.ring <==> p in was.ring && p != t.pid
      requires Successor(was.ring, t.pid) in model.ring && Successor(was.ring, t.pid) in tasks
      requires t.next == tasks[Successor(was.ring, t.pid)]
      modifies this`model
      ensures Valid() && model == LeaveStep(was, t.pid)
    {
      model := LeaveStep(was, t.pid);
    }

    /** What task_exit and task_stop do to the task that calls them. */
    method Depart(t: Task)
      requires Valid() && model.zombies == [] && t.pid != INIT_PID && model.current == OnRing(t.pid) && t == current
      modifies this`taskRing, this`zombieList, this`model, tasks.Values`next, t`state, t`znext
      ensures Valid() && model == LeaveStep(old(model), t.pid)
    {
      ghost var was := model;
      NextIsSuccessor(model.ring, taskRing, tasks, t.pid);
      DepartureFacts(model.ring, t.pid);
      MoveToZombies(t);
      RecordLeaving(t, was);
    }

    /** task_exit: returns to its caller only before the first tick or when init calls it. */
    method TaskExit(exitCode: int) returns (halts: bool)
      requires Valid() && !model.current.Exited?
      modifies this`taskRing, this`zombieList, this`model, tasks.Values
      ensures Valid() && model == ExitStep(old(model)) && halts == model.current.Exited?
      ensures halts ==> current != null && current.exitCode == exitCode
    {
      Reap();
      if current == null || current == initTask {
        return false;
      }
      current.exitCode := exitCode;
      Depart(current);
      return true;
    }

    /** The search loop of task_stop: the ring task with this pid, if there is one. */
    method FindOnRing(pid: int) returns (found: Task?)
      requires Linked()
      ensures found == if pid in model.ring then tasks[pid] else null
    {
      ghost var ring := model.ring;
      var it := taskRing.next;
      ghost var k := 0;
      while it.pid != pid
        invariant 0 <= k < |ring| && it == tasks[ring[k]] && pid !in ring[..k]
        decreases |ring| - k
      {
        assert ring[k] != pid;
        it := it.next;
        k := k + 1;
        assert k < |ring| ==> ring[0] != ring[k];
        if it == taskRing.next {
          assert ring[..k] == ring;
          return null;
        }
      }
      assert ring[k] in ring && tasks[ring[k]].pid == ring[k];
      return it;
    }

    /** A freed task has no state any more. */
    ghost method Forget(pid: int)
      requires Linked() && Apart() && CurrentAgrees()
      requires forall p :: p in model.status ==> p in tasks && model.status[p] == tasks[p].state
      requires forall p :: p in model.status && p != pid ==> p in model.ring || p in model.zombies
      requires forall p :: p in model.ring ==> p in model.status && p != pid
      requires forall p :: p in model.zombies ==> p in model.status && p != pid
      modifies this`model
      ensures Valid() && model == old(model).(status := old(model.status) - {pid})
    {
      model := model.(status := model.status - {pid});
    }

    /** The part of task_stop that unlinks and frees another task. */
    method Drop(t: Task)
      requires Valid() && !model.current.Exited? && Known(t) && t.pid in model.ring && t.pid != INIT_PID
      requires model.current != OnRing(t.pid)
      modifies this`taskRing, this`model, tasks.Values`next
      ensures Valid() && model == DropStep(old(model), t.pid)
    {
      DroppedStates(model, t.pid);
      UnlinkAndFree(t);
      Forget(t.pid);
    }

    /** task_stop for a pid other than 0. */
    method TaskStop(pid: int) returns (r: int, halts: bool)
      requires Valid() && !model.current.Exited? && pid != INIT_PID
      modifies this`taskRing, this`zombieList, this`model, tasks.Values
      ensures Valid() && model == StopStep(old(model), pid)
      ensures halts == model.current.Exited?
      ensures !halts ==> r == if pid in old(model.ring) then 0 else -1
    {
      Reap();
      var found := FindOnRing(pid);
      if found == null {
        return -1, false;
      }
      if found == current {
        Depart(found);
        return 0, true;
      }
      Drop(found);
      return 0, false;
    }

    /** pick_next: the first ring task that can run, from the one after the current. */
    method PickNext() returns (next: Task?)
      requires Linked() && StatesAgree() && CurrentAgrees()
      ensures next == null <==> Queue(Rotation(model), model.status) == []
      ensures next != null ==>
                Known(next) && next.pid in model.ring && next.pid == Queue(Rotation(model), model.status)[0]
    {
      ghost var rot := RotationLinks(model.ring, taskRing, tasks, model);
      var start := if current != null then current.next else taskRing.next;
      next := ScanFrom(start, rot);
    }

    /** The loop of pick_next: once around the ring from a given task. */
    method ScanFrom(start: Task, ghost rot: seq<int>) returns (next: Task?)
      requires Numbered(tasks) && rot != [] && Distinct(rot) && AllIn(rot, tasks) && start == tasks[rot[0]]
      requires forall i :: 0 <= i < |rot| ==> rot[i] in model.status && model.status[rot[i]] == tasks[rot[i]].state
      requires forall i {:trigger tasks[rot[i]].next} :: 0 <= i < |rot| - 1 ==> tasks[rot[i]].next == tasks[rot[i + 1]]
      requires tasks[rot[|rot| - 1]].next == start
      ensures next == null <==> Queue(rot, model.status) == []
      ensures next != null ==> Known(next) && next.pid in rot && next.pid == Queue(rot, model.status)[0]
    {
      ghost var queue := Queue(rot, model.status);
      var it := start;
      ghost var k := 0;
      while it.state != Ready && it.state != Running
        invariant 0 <= k < |rot| && it == tasks[rot[k]]
        invariant Queue(rot[k..], model.status) == queue
        decreases |rot| - k
      {
        QueueSkips(rot, k, model.status);
        it := it.next;
        k := k + 1;
        assert k < |rot| ==> rot[0] != rot[k];
        if it == start {
          assert rot[k..] == [];
          return null;
        }
      }
      assert rot[k] in rot;
      QueueStarts(rot, k, model.status);
      return it;
    }

    /** Sets the state of the current task. */
    method SetState(t: Task, st: TaskState)
      requires Valid() && Known(t) && t.pid in model.status
      modifies this`model, t`state
      ensures Valid() && model == old(model).(status := old(model.status)[t.pid := st])
    {
      t.state := st;
      model := model.(status := model.status[t.pid := st]);
    }

    /** The switch of schedule_from_isr, for a set reschedule flag. */
    method Switch()
      requires Valid() && current != null
      modifies this`current, this`model, this`needReschedule
      ensures Valid() && current != null && !needReschedule
      ensures var queue := Queue(Rotation(old(model)), old(model.status));
              model == old(model).(current :=
                if queue != [] && queue[0] != old(model.current.pid) then OnRing(queue[0]) else old(model.current))
    {
      var next := PickNext();
      SwitchTo(next);
    }

    /** The task that was picked, if any, becomes current. */
    method SwitchTo(next: Task?)
      requires Valid() && current != null && (next != null ==> Known(next) && next.pid in model.ring)
      modifies this`current, this`model, this`needReschedule
      ensures Valid() && current != null && !needReschedule
      ensures model == old(model).(current :=
                if next != null && next.pid != old(model.current.pid) then OnRing(next.pid) else old(model.current))
    {
      if next != null && next != current {
        current := next;
        model := model.(current := OnRing(next.pid));
      }
      needReschedule := false;
    }

    /** The very first interrupt: the code it interrupts becomes init. */
    method FirstTick()
      requires Valid() && current == null
      modifies this`current, this`needReschedule, this`model, initTask`state
      ensures Valid() && !needReschedule && model == TickStep(old(model), false)
    {
      current := initTask;
      needReschedule := false;
      model := model.(current := OnRing(INIT_PID));
      SetState(initTask, Running);
    }

    /** The interrupted task, if it was running, is ready again. */
    method Suspend()
      requires Valid() && current != null
      modifies this`model, current`state
      ensures Valid() && model == old(model).(status := TickStatus(old(model)))
    {
      if current.state == Running {
        SetState(current, Ready);
      }
    }

    /** Every later interrupt. */
    method LaterTick()
      requires Valid() && current != null
      modifies this`current, this`needReschedule, this`model, tasks.Values`state
      ensures Valid() && model == TickStep(old(model), old(needReschedule)) && !needReschedule
    {
      Suspend();
      if needReschedule {
        Switch();
      }
      SetState(current, Running);
    }

    /** schedule_from_isr: one timer interrupt. */
    method ScheduleFromIsr()
      requires Valid()
      modifies this`current, this`needReschedule, this`model, tasks.Values`state
      ensures Valid() && model == TickStep(old(model), old(needReschedule)) && !needReschedule
    {
      if current == null {
        FirstTick();
      } else {
        LaterTick();
      }
    }

    /** Marks one task as killed and puts it on the zombie list, unless it is init. */
    method Condemn(t: Task)
      requires Tabled() && Known(t)
      requires IsZombieList(model.zombies, zombieList, tasks) && t.pid !in model.zombies
      modifies this`zombieList, this`model, t`state, t`exitCode, t`znext
      ensures IsZombieList(model.zombies, zombieList, tasks)
      ensures model == old(model).(zombies := (if t.pid == INIT_PID then [] else [t.pid]) + old(model.zombies))
    {
      if t.pid != INIT_PID && t != initTask {
        t.state := Zombie;
        t.exitCode := -1;
        AddToZombieList(t);
      } else {
        assert [] + model.zombies == model.zombies;
      }
    }

    /** One turn of the first loop of kill_all_tasks, for the k-th task of the ring. */
    method CollectNext(it: Task, ghost was: State, ghost k: nat) returns (next: Task)
      requires Tabled() && Distinct(was.ring) && (forall p :: p in was.zombies ==> p !in was.ring)
      requires k < |was.ring| && AllIn(was.ring, tasks) && it == tasks[was.ring[k]]
      requires model == Collected(was, k) && IsZombieList(model.zombies, zombieList, tasks)
      requires IsRing(was.ring, taskRing, tasks)
      modifies this`zombieList, this`model, it`state, it`exitCode, it`znext
      ensures model == Collected(was, k + 1) && IsZombieList(model.zombies, zombieList, tasks)
      ensures if k + 1 < |was.ring| then next == tasks[was.ring[k + 1]] && next != tasks[was.ring[0]]
              else next == tasks[was.ring[0]]
    {
      RingStep(was.ring, taskRing, tasks, k);
      NotCollected(was.ring, k, was.zombies);
      CollectOne(was.ring, k, was.zombies);
      Condemn(it);
      next := it.next;
    }

    /** The first loop of kill_all_tasks: every ring task but init goes on the zombie list. */
    method CollectVictims()
      requires Linked() && Apart()
      modifies this`zombieList, this`model, tasks.Values`state, tasks.Values`exitCode, tasks.Values`znext
      ensures IsZombieList(model.zombies, zombieList, tasks)
      ensures model == old(model).(zombies := Victims(old(model)) + old(model.zombies))
    {
      ghost var was, ring := model, model.ring;
      ghost var collected := (k: nat) requires k <= |ring| => Collected(was, k);
      CollectedEnds(was);
      var start := taskRing.next;
      var it := start;
      ghost var k := 0;
      while true
        invariant 0 <= k < |ring| && it == tasks[ring[k]]
        invariant model == collected(k) && IsZombieList(model.zombies, zombieList, tasks)
        decreases |ring| - k
      {
        it := CollectNext(it, was, k);
        k := k + 1;
        if it == start {
          break;
        }
      }
    }

    /** The end of kill_all_tasks: init, alone on the ring, becomes current. */
    method TakeOver()
      requires Linked() && model.ring == [INIT_PID] && model.zombies == []
      requires model.status[INIT_PID := Running] == map[INIT_PID := Running]
      modifies this`current, this`model, initTask`state
      ensures Valid() && taskRing == initTask
      ensures model == old(model).(current := OnRing(INIT_PID), status := map[INIT_PID := Running])
    {
      current := initTask;
      initTask.state := Running;
      model := model.(current := OnRing(INIT_PID), status := map[INIT_PID := Running]);
    }

    /** kill_all_tasks. The code after its TakeOver, for a ring whose tail is not init,
        would do nothing: the tail is init. */
    method KillAllTasks()
      requires Valid() && !model.current.Exited?
      modifies this`taskRing, this`zombieList, this`current, this`model, tasks.Values
      ensures Valid() && model == KillAllStep(old(model))
      ensures taskRing == initTask
    {
      ghost var was := model;
      KillAllLeavesInit(was);
      KillAllStatus(was);
      InitIsSpared(was);
      CollectVictims();
      ReapZombies();
      TakeOver();
    }

    /** Every task is an old one or has been created since. */
    twostate predicate OldOrNew()
      reads this`tasks
    {
      forall t :: t in tasks.Values ==> t in old(tasks.Values) || fresh(t)
    }

    /** One call, or one timer interrupt, which finds the reschedule flag as the timer left it. */
    method Perform(op: Op)
      requires Valid() && Enabled(model, op)
      modifies this, tasks.Values
      ensures Valid() && model == Step(old(model), op) && OldOrNew()
    {
      match op
      case Create =>
        var _ := TaskCreate();
      case Exit =>
        var _ := TaskExit(0);
      case Stop(pid) =>
        var _, _ := TaskStop(pid);
      case Reap =>
        Reap();
      case KillAll =>
        KillAllTasks();
      case Tick(reschedule) =>
        needReschedule := reschedule;
        ScheduleFromIsr();
    }

    /** A run of the linked structures is a run of the model. */
    method Run(ops: seq<Op>)
      requires Valid() && Allowed(model, ops)
      modifies this, tasks.Values
      ensures Valid() && model == SchedModel.Run(old(model), ops)
    {
      var i := 0;
      ghost var whole := SchedModel.Run(model, ops);
      ghost var left := (s: State, i: nat) =>
        i <= |ops| && Allowed(s, ops[i..]) && SchedModel.Run(s, ops[i..]) == whole;
      assert ops[0..] == ops;
      while i < |ops|
        invariant 0 <= i <= |ops| && Valid() && OldOrNew() && left(model, i)
      {
        RunOn(model, ops, i);
        Perform(ops[i]);
        i := i + 1;
      }
    }
  }

  /** From boot on: whatever is called, no task is lost and none is freed twice. */
  method RunFromBoot(ops: seq<Op>) returns (s: Scheduler)
    requires Allowed(Initial(), ops)
    ensures s.Valid() && INIT_PID in s.model.ring && Distinct(s.model.ring)
    ensures forall p :: 0 <= p < s.nextPid ==>
              multiset(s.model.ring)[p] + multiset(s.model.zombies)[p] + multiset(s.model.freed)[p] == 1
  {
    s := new Scheduler();
    s.Run(ops);
    NoTaskLostOrFreedTwice(ops);
  }

  /** The state after k turns of the first loop of kill_all_tasks. */
  ghost function Collected(was: State, k: nat): State
    requires k <= |was.ring|
  {
    was.(zombies := Reversed(Remove(was.ring[..k], INIT_PID)) + was.zombies)
  }

  /** One step along the ring: to the next task, and from the last one to the first. */
  lemma RingStep(ring: seq<int>, tail: Task, tasks: Table, k: nat)
    requires IsRing(ring, tail, tasks) && Distinct(ring) && Numbered(tasks) && k < |ring|
    ensures k + 1 < |ring| ==> tasks[ring[k]].next == tasks[ring[k + 1]]
    ensures tasks[ring[k]].next == tasks[ring[0]] <==> k + 1 == |ring|
  {
    assert k + 1 < |ring| ==> ring[0] != ring[k + 1];
  }

  lemma CollectedEnds(was: State)
    ensures Collected(was, 0) == was
    ensures Collected(was, |was.ring|) == was.(zombies := Victims(was) + was.zombies)
  {
    assert was.ring[..0] == [] && was.ring[..|was.ring|] == was.ring;
    assert [] + was.zombies == was.zombies;
  }

  lemma InitIsSpared(s: State)
    requires Distinct(s.ring)
    ensures INIT_PID !in Victims(s)
  {
    ReversedMembers(Remove(s.ring, INIT_PID), INIT_PID);
    RemoveMembers(s.ring, INIT_PID, INIT_PID);
  }

  /** A ring task that has not been collected yet is on no list. */
  lemma NotCollected(ring: seq<int>, k: nat, zs: seq<int>)
    requires k < |ring| && Distinct(ring) && forall p :: p in zs ==> p !in ring
    ensures ring[k] !in Reversed(Remove(ring[..k], INIT_PID)) + zs
  {
    ReversedMembers(Remove(ring[..k], INIT_PID), ring[k]);
    RemoveMembers(ring[..k], INIT_PID, ring[k]);
    assert ring[k] in ring;
  }

  /** Collecting one more ring task. */
  lemma CollectOne(ring: seq<int>, k: nat, zs: seq<int>)
    requires k < |ring| && Distinct(ring)
    ensures Reversed(Remove(ring[..k + 1], INIT_PID)) + zs ==
            (if ring[k] == INIT_PID then [] else [ring[k]]) + (Reversed(Remove(ring[..k], INIT_PID)) + zs)
  {
    var done, x := ring[..k], ring[k];
    assert ring[..k + 1] == done + [x] && x !in done;
    RemoveOfSnoc(done, x, INIT_PID);
    if x == INIT_PID {
      RemoveAbsent(done, INIT_PID);
      Associate([], Reversed(done), zs);
    } else {
      var rest := Remove(done, INIT_PID);
      ReversedOfSnoc(rest, x);
      Associate([x], Reversed(rest), zs);
    }
  }

  lemma Associate(a: seq<int>, b: seq<int>, c: seq<int>)
    ensures a + b + c == a + (b + c) && [] + b == b
  {
  }

  lemma {:induction false} RemoveOfSnoc(s: seq<int>, x: int, p: int)
    requires x !in s
    ensures Remove(s + [x], p) == if x == p then s else Remove(s, p) + [x]
  {
    if s == [] {
      assert s + [x] == [x];
    } else {
      assert (s + [x])[1..] == s[1..] + [x];
      RemoveOfSnoc(s[1..], x, p);
    }
  }

  lemma {:induction false} ReversedOfSnoc(s: seq<int>, x: int)
    ensures Reversed(s + [x]) == [x] + Reversed(s)
  {
    if s == [] {
      assert s + [x] == [x];
    } else {
      assert (s + [x])[1..] == s[1..] + [x];
      ReversedOfSnoc(s[1..], x);
    }
  }

  /** The `next` link of a ring task leads to its successor in the model. */
  lemma NextIsSuccessor(ring: seq<int>, tail: Task, tasks: Table, p: int)
    requires IsRing(ring, tail, tasks) && p in ring
    ensures Successor(ring, p) in tasks && p in tasks && tasks[p].next == tasks[Successor(ring, p)]
  {
    var k := IndexOf(ring, p);
    assert ring[k] in tasks && ring[After(k, |ring|)] in tasks;
  }

  lemma QueueSkips(rot: seq<int>, k: nat, status: map<int, TaskState>)
    requires k < |rot| && !CanRun(status, rot[k])
    ensures Queue(rot[k..], status) == Queue(rot[k + 1..], status)
  {
    assert rot[k..][1..] == rot[k + 1..];
  }

  lemma QueueStarts(rot: seq<int>, k: nat, status: map<int, TaskState>)
    requires k < |rot| && CanRun(status, rot[k])
    ensures Queue(rot[k..], status) != [] && Queue(rot[k..], status)[0] == rot[k]
  {
  }

  /** A ring read from any position follows the `next` links once around. */
  lemma RotatedLinks(ring: seq<int>, tail: Task, tasks: Table, start: nat) returns (rot: seq<int>)
    requires IsRing(ring, tail, tasks) && Distinct(ring) && start < |ring|
    ensures rot == ring[start..] + ring[..start] && |rot| == |ring| && rot[0] == ring[start]
    ensures Distinct(rot) && AllIn(rot, tasks) && forall i :: 0 <= i < |rot| ==> rot[i] in ring
    ensures forall i {:trigger tasks[rot[i]].next} :: 0 <= i < |rot| - 1 ==> tasks[rot[i]].next == tasks[rot[i + 1]]
    ensures tasks[rot[|rot| - 1]].next == tasks[rot[0]]
  {
    rot := ring[start..] + ring[..start];
    var n := |ring|;
    assert forall i :: 0 <= i < n ==> rot[i] == ring[if i < n - start then i + start else i + start - n];
  }

  /** The rotation follows the `next` links once around. */
  lemma RotationLinks(ring: seq<int>, tail: Task, tasks: Table, model: State) returns (rot: seq<int>)
    requires IsRing(ring, tail, tasks) && Distinct(ring) && Numbered(tasks) && model.ring == ring
    requires model.current.OnRing? ==> model.current.pid in ring
    requires model.current.Exited? ==> model.current.next in ring
    ensures rot == Rotation(model) && |rot| == |ring| && Distinct(rot) && AllIn(rot, tasks)
    ensures forall i :: 0 <= i < |rot| ==> rot[i] in ring
    ensures forall i {:trigger tasks[rot[i]].next} :: 0 <= i < |rot| - 1 ==> tasks[rot[i]].next == tasks[rot[i + 1]]
    ensures tasks[rot[|rot| - 1]].next == tasks[rot[0]]
    ensures model.current.Boot? ==> tasks[rot[0]] == tail.next
    ensures model.current.OnRing? ==> tasks[model.current.pid].next == tasks[rot[0]]
    ensures model.current.Exited? ==> rot[0] == model.current.next
  {
    match model.current
    case Boot =>
      rot := RotatedLinks(ring, tail, tasks, 0);
    case OnRing(p) =>
      rot := RotatedLinks(ring, tail, tasks, After(IndexOf(ring, p), |ring|));
      NextIsSuccessor(ring, tail, tasks, p);
    case Exited(_, next) =>
      rot := RotatedLinks(ring, tail, tasks, IndexOf(ring, next));
  }

  lemma DepartureFacts(ring: seq<int>, p: int)
    requires Distinct(ring) && p in ring && INIT_PID in ring && p != INIT_PID
    ensures forall q :: q in Remove(ring, p) <==> q in ring && q != p
    ensures Successor(ring, p) in Remove(ring, p)
  {
    RemoveFacts(ring, p);
    SuccessorDiffers(ring, p, INIT_PID);
  }

  /** The lists after a task has been dropped. */
  lemma DroppedStates(s: State, pid: int)
    requires Distinct(s.ring) && pid in s.ring && INIT_PID in s.ring && pid != INIT_PID
    requires forall p :: p in s.zombies ==> p !in s.ring
    ensures var ring := Remove(s.ring, pid);
            && (forall p :: p in ring <==> p in s.ring && p != pid)
            && (forall p :: p in s.zombies ==> p !in ring && p != pid)
  {
    RemoveFacts(s.ring, pid);
  }

  lemma NotListed(ps: seq<int>, t: Task, tasks: Table)
    requires Numbered(tasks) && AllIn(ps, tasks) && t.pid !in ps
    ensures forall i :: 0 <= i < |ps| ==> tasks[ps[i]] != t
  {
    forall i | 0 <= i < |ps|
      ensures tasks[ps[i]] != t
    {
      assert ps[i] in ps && tasks[ps[i]].pid == ps[i];
    }
  }

  /** Part-way through freeing the tasks zs, with `rest` still to be done. */
  ghost predicate Freeing(was: State, zs: seq<int>, now: State, rest: seq<int>) {
    && now == was.(ring := now.ring, freed := now.freed)
    && RemoveAll(now.ring, rest) == RemoveAll(was.ring, zs)
    && now.freed + rest == was.freed + zs
  }

  lemma FreeingOn(was: State, zs: seq<int>, now: State, rest: seq<int>)
    requires Freeing(was, zs, now, rest) && rest != []
    ensures Freeing(was, zs, now.(ring := Remove(now.ring, rest[0]), freed := now.freed + [rest[0]]), rest[1..])
  {
    assert rest == [rest[0]] + rest[1..];
  }

  lemma ZombieTail(zs: seq<int>, head: Task, tasks: Table)
    requires IsZombieList(zs, head, tasks) && Numbered(tasks)
    ensures zs != [] && head.pid == zs[0] && head.pid in tasks && tasks[head.pid] == head
    ensures IsZombieList(zs[1..], head.znext, tasks)
  {
  }
}
