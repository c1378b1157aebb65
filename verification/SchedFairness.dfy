/** Round-robin fairness of the timer tick, for rings whose tasks may be in any state. */
module SchedFairness {
  import opened Common
  import opened SchedModel

  /** The process made current by each of k rescheduling ticks in a row. */
  function Trace(s: State, k: nat): (r: seq<int>)
    ensures |r| == k
    decreases k
  {
    if k == 0 then []
    else
      var t := TickStep(s, true);
      [if t.current.Boot? then INIT_PID else t.current.pid] + Trace(t, k - 1)
  }

  /** A tick is pending on a well-formed ring with at least one task that can run. */
  predicate Schedulable(s: State) {
    OnTheRing(s) && Distinct(s.ring) && !s.current.Boot? && Queue(Rotation(s), s.status) != []
  }

  lemma {:induction false} QueueOfConcat(a: seq<int>, b: seq<int>, status: map<int, TaskState>)
    ensures Queue(a + b, status) == Queue(a, status) + Queue(b, status)
  {
    if a == [] {
      assert a + b == b;
    } else {
      assert (a + b)[1..] == a[1..] + b;
      QueueOfConcat(a[1..], b, status);
    }
  }

  lemma {:induction false} QueueBySameTasks(ring: seq<int>, st1: map<int, TaskState>, st2: map<int, TaskState>)
    requires forall p :: CanRun(st1, p) <==> CanRun(st2, p)
    ensures Queue(ring, st1) == Queue(ring, st2)
  {
    if ring != [] {
      QueueBySameTasks(ring[1..], st1, st2);
    }
  }

  /** Where the scan stops: everything before it cannot run. */
  lemma {:induction false} ScanStops(rot: seq<int>, status: map<int, TaskState>) returns (k: nat)
    requires Queue(rot, status) != []
    ensures k < |rot| && rot[k] == Queue(rot, status)[0]
    ensures Queue(rot[..k + 1], status) == [rot[k]]
    ensures Queue(rot, status) == [rot[k]] + Queue(rot[k + 1..], status)
  {
    if CanRun(status, rot[0]) {
      k := 0;
      assert rot[..1] == [rot[0]];
      assert rot[..1][1..] == [];
    } else {
      var j := ScanStops(rot[1..], status);
      k := j + 1;
      assert rot[..k + 1][1..] == rot[1..][..j + 1];
      assert rot[k + 1..] == rot[1..][j + 1..];
    }
  }

  function RotateBy(ring: seq<int>, start: nat): seq<int>
    requires start <= |ring|
  {
    ring[start..] + ring[..start]
  }

  lemma RotateParts(x: seq<int>, y: seq<int>, z: seq<int>)
    ensures RotateBy(x + y + z, |x|) == y + z + x
    ensures RotateBy(x + y + z, |x + y|) == z + x + y
  {
    var r := x + y + z;
    assert r[..|x|] == x && r[|x|..] == y + z;
    assert r[..|x + y|] == x + y && r[|x + y|..] == z;
  }

  /** Rotating on from element k of a rotation. */
  lemma RotateOn(ring: seq<int>, start: nat, k: nat) returns (j: nat)
    requires start < |ring| && k < |ring|
    ensures j < |ring| && ring[j] == RotateBy(ring, start)[k]
    ensures RotateBy(ring, After(j, |ring|)) ==
            RotateBy(ring, start)[k + 1..] + RotateBy(ring, start)[..k + 1]
  {
    if start + k < |ring| {
      j := start + k;
      RotateOnInside(ring, start, j);
    } else {
      j := start + k - |ring|;
      RotateOnWrapped(ring, start, j);
    }
  }

  lemma RotateOnInside(ring: seq<int>, start: nat, j: nat)
    requires start <= j < |ring|
    ensures var k := j - start;
            && ring[j] == RotateBy(ring, start)[k]
            && RotateBy(ring, After(j, |ring|)) == RotateBy(ring, start)[k + 1..] + RotateBy(ring, start)[..k + 1]
  {
    var x, y, z := ring[..start], ring[start..j + 1], ring[j + 1..];
    assert ring == x + y + z;
    RotateParts(x, y, z);
    assert (y + z + x)[..|y|] == y && (y + z + x)[|y|..] == z + x;
    if j + 1 == |ring| {
      assert RotateBy(ring, 0) == ring == x + y;
    }
  }

  lemma RotateOnWrapped(ring: seq<int>, start: nat, j: nat)
    requires j < start < |ring|
    ensures var k := j + |ring| - start;
            && ring[j] == RotateBy(ring, start)[k]
            && RotateBy(ring, After(j, |ring|)) == RotateBy(ring, start)[k + 1..] + RotateBy(ring, start)[..k + 1]
  {
    var x, y, z := ring[..j + 1], ring[j + 1..start], ring[start..];
    assert ring == x + y + z;
    RotateParts(x, y, z);
    assert (z + x + y)[..|z + x|] == z + x && (z + x + y)[|z + x|..] == y;
    assert y + (z + x) == y + z + x;
  }

  lemma IndexIsUnique(ring: seq<int>, j: nat)
    requires Distinct(ring) && j < |ring|
    ensures IndexOf(ring, ring[j]) == j
  {
  }

  function Start(s: State): (start: nat)
    requires OnTheRing(s) && !s.current.Boot?
    ensures start < |s.ring| && Rotation(s) == RotateBy(s.ring, start)
  {
    match s.current
    case OnRing(p) => After(IndexOf(s.ring, p), |s.ring|)
    case Exited(_, n) => IndexOf(s.ring, n)
  }

  /** A tick changes no task's ability to run, and makes the head of the queue current. */
  lemma TickRunsHead(s: State)
    requires Schedulable(s)
    ensures var q := Queue(Rotation(s), s.status);
            var t := TickStep(s, true);
            && t.current == OnRing(q[0]) && t.ring == s.ring && q[0] in s.ring
            && forall p :: CanRun(t.status, p) <==> CanRun(s.status, p)
  {
    TickPicks(s);
    QueueBySameTasks(Rotation(s), s.status, TickStatus(s));
  }

  /** The rotation after the head of the queue has become current. */
  lemma HeadRotates(s: State, t: State)
    requires Schedulable(s) && t.ring == s.ring
    requires t.current == OnRing(Queue(Rotation(s), s.status)[0])
    ensures var q := Queue(Rotation(s), s.status);
            Queue(Rotation(t), s.status) == q[1..] + [q[0]]
  {
    var rot := Rotation(s);
    var k := ScanStops(rot, s.status);
    var j := RotateOn(s.ring, Start(s), k);
    IndexIsUnique(s.ring, j);
    assert Rotation(t) == RotateBy(s.ring, After(j, |s.ring|));
    QueueOfConcat(rot[k + 1..], rot[..k + 1], s.status);
  }

  /** One rescheduling tick runs the first task of the queue and sends it to the back. */
  lemma TickRotatesQueue(s: State)
    requires Schedulable(s)
    ensures var q := Queue(Rotation(s), s.status);
            var t := TickStep(s, true);
            && t.current == OnRing(q[0])
            && Schedulable(t)
            && Queue(Rotation(t), t.status) == q[1..] + [q[0]]
  {
    var t := TickStep(s, true);
    TickRunsHead(s);
    HeadRotates(s, t);
    QueueBySameTasks(Rotation(t), s.status, t.status);
  }

  /** Over any number of rescheduling ticks the runnable tasks take turns, in ring order:
      tick i runs task i (modulo their number) of the queue that stood at the start. */
  lemma {:induction false} RoundRobin(s: State, k: nat, i: nat)
    requires Schedulable(s) && i < k
    ensures var q := Queue(Rotation(s), s.status);
            Trace(s, k)[i] == q[i % |q|]
    decreases k
  {
    var q, t := Queue(Rotation(s), s.status), TickStep(s, true);
    TickRotatesQueue(s);
    TraceStep(s, k, t, q[0]);
    if i == 0 {
      SmallMod(0, |q|);
    } else {
      RoundRobin(t, k - 1, i - 1);
      NextInTurn(q, q[1..] + [q[0]], i - 1);
    }
  }

  lemma TraceStep(s: State, k: nat, t: State, p: int)
    requires k > 0 && t == TickStep(s, true) && t.current == OnRing(p)
    ensures Trace(s, k) == [p] + Trace(t, k - 1)
  {
  }

  lemma NextInTurn(q: seq<int>, next: seq<int>, i: nat)
    requires q != [] && next == q[1..] + [q[0]]
    ensures next[i % |next|] == q[(i + 1) % |q|]
  {
    NextTurn(i, |q|);
  }

  lemma QuotientOf(i: nat, m: nat) returns (q: nat, r: nat)
    requires m > 0
    ensures q == i / m && r == i % m < m && i == q * m + r
  {
    q, r := i / m, i % m;
  }

  lemma OneMoreTimes(q: nat, m: nat)
    ensures (q + 1) * m == q * m + m
  {
  }

  lemma NextTurn(i: nat, m: nat)
    requires m > 0
    ensures (i % m + 1) % m == (i + 1) % m
    ensures i % m + 1 == m ==> (i % m + 1) % m == 0
    ensures i % m + 1 < m ==> (i % m + 1) % m == i % m + 1
  {
    var q, r := QuotientOf(i, m);
    if r + 1 == m {
      OneMoreTimes(q, m);
      ModOfSum(q + 1, m, 0);
      ModOfSum(1, m, 0);
    } else {
      ModOfSum(q, m, r + 1);
      SmallMod(r + 1, m);
    }
  }

  lemma ModOfSum(q: nat, m: nat, r: nat)
    requires r < m
    ensures (q * m + r) % m == r
  {
    var x := q * m + r;
    var d, e := x / m, x % m;
    assert x == d * m + e;
    assert (q - d) * m == q * m - d * m;
    assert (d - q) * m == d * m - q * m;
    if q > d {
      AtLeast(q - d, m);
    } else if q < d {
      AtLeast(d - q, m);
    }
  }

  lemma SmallMod(i: nat, m: nat)
    requires i < m
    ensures i % m == i
  {
  }

  lemma AtLeast(a: int, m: nat)
    requires a >= 1
    ensures a * m >= m
  {
  }

  lemma {:induction false} QueueCounts(ring: seq<int>, status: map<int, TaskState>, p: int)
    ensures multiset(Queue(ring, status))[p] == if CanRun(status, p) then multiset(ring)[p] else 0
  {
    if ring != [] {
      QueueCounts(ring[1..], status, p);
      assert ring == [ring[0]] + ring[1..];
    }
  }

  /** In one round of m ticks, m being the number of runnable tasks, the trace is the
      queue itself. */
  lemma OneRound(s: State)
    requires Schedulable(s)
    ensures var q := Queue(Rotation(s), s.status);
            Trace(s, |q|) == q
  {
    var q := Queue(Rotation(s), s.status);
    forall i | 0 <= i < |q|
      ensures Trace(s, |q|)[i] == q[i]
    {
      RoundRobin(s, |q|, i);
      SmallMod(i, |q|);
    }
  }

  /** So each runnable task is made current exactly once a round, and no other task is. */
  lemma OnceARound(s: State, p: int)
    requires Schedulable(s)
    ensures var q := Queue(Rotation(s), s.status);
            multiset(Trace(s, |q|))[p] == if p in s.ring && CanRun(s.status, p) then 1 else 0
  {
    OneRound(s);
    QueueCounts(Rotation(s), s.status, p);
    RotationCounts(s, p);
  }

  lemma RotationCounts(s: State, p: int)
    requires Distinct(s.ring)
    ensures multiset(Rotation(s))[p] == if p in s.ring then 1 else 0
  {
    var rot := Rotation(s);
    var k :| 0 <= k <= |s.ring| && rot == s.ring[k..] + s.ring[..k];
    assert s.ring == s.ring[..k] + s.ring[k..];
    assert multiset(rot) == multiset(s.ring);
    CountOnce(s.ring, p);
  }

  lemma {:induction false} CountOnce(s: seq<int>, p: int)
    requires Distinct(s)
    ensures multiset(s)[p] == if p in s then 1 else 0
  {
    if s != [] {
      assert s == [s[0]] + s[1..];
      CountOnce(s[1..], p);
    }
  }
}
