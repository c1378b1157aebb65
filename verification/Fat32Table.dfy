/**
  The FAT32 allocator as values: the table, the FSInfo free count and hint, and what
  allocating and releasing clusters does to them.
*/
module Fat32Table {
  import opened Common
  import opened Chains

  const BAD := 0x0FFF_FFF7
  const EOC := 0x0FFF_FFF8
  const MAX_ENTRIES := 0x0FFF_FFF0

  /** fat_cache and the two FSInfo fields. */
  datatype Table = Table(fat: seq<int>, freeCount: int, nextFree: int)

  ghost predicate Valid(t: Table) {
    2 <= |t.fat| <= MAX_ENTRIES && 0 <= t.freeCount < U32 && forall i :: 0 <= i < |t.fat| ==> t.fat[i] >= 0
  }

  ////// The free count, which wraps at 32 bits

  function Dec(n: int): int {
    if n == 0 then U32 - 1 else n - 1
  }

  function Inc(n: int): int {
    if n == U32 - 1 then 0 else n + 1
  }

  /** How far the free count is from the number of FREE entries, modulo 2^32. */
  function Drift(t: Table): int {
    var d := t.freeCount - CountFree(t.fat);
    if d < 0 then d + U32 else d
  }

  ////// The search for a free cluster

  predicate InRange(fat: seq<int>, c: int) {
    2 <= c < |fat|
  }

  predicate CanStart(fat: seq<int>, start: int) {
    start >= 2 && (|fat| > 2 ==> start < |fat|)
  }

  /** The cluster after c in a chain that is being followed, or EOC. */
  function Following(fat: seq<int>, c: int): int {
    if !InRange(fat, c) || fat[c] >= EOC || fat[c] == FREE || fat[c] == BAD then EOC else fat[c]
  }

  /** Where the search begins. */
  function Hint(t: Table): int {
    if InRange(t.fat, t.nextFree) then t.nextFree else 2
  }

  /** The i-th cluster the search looks at. */
  function Cyclic(start: int, i: int, n: int): int {
    if start + i >= n then 2 + (start + i - n) else start + i
  }

  /** The first FREE cluster from turn i on, or 0. */
  function Scan(fat: seq<int>, start: int, i: nat): (c: int)
    requires CanStart(fat, start)
    ensures c == 0 || (InRange(fat, c) && fat[c] == FREE)
    decreases |fat| - i
  {
    if i >= |fat| - 2 then 0
    else
      var c := Cyclic(start, i, |fat|);
      if fat[c] == FREE then c else Scan(fat, start, i + 1)
  }

  /** The turn at which the search looks at cluster c. */
  function TurnOf(start: int, c: int, n: int): int {
    if c >= start then c - start else c - 2 + (n - start)
  }

  /** The wrapped search looks at every cluster exactly once, from any hint. */
  lemma SearchIsComplete(start: int, c: int, n: int, i: int)
    requires 2 <= start < n && 2 <= c < n && 0 <= i < n - 2
    ensures 0 <= TurnOf(start, c, n) < n - 2
    ensures Cyclic(start, i, n) == c <==> i == TurnOf(start, c, n)
  {
  }

  lemma {:induction false} ScanMisses(fat: seq<int>, start: int, i: nat, j: nat)
    requires InRange(fat, start) && i <= j < |fat| - 2
    requires Scan(fat, start, i) == 0 || TurnOf(start, Scan(fat, start, i), |fat|) > j
    ensures fat[Cyclic(start, j, |fat|)] != FREE
    decreases j - i
  {
    var c := Cyclic(start, i, |fat|);
    SearchIsComplete(start, c, |fat|, i);
    if i < j {
      if fat[c] != FREE {
        ScanMisses(fat, start, i + 1, j);
      }
    }
  }

  /** The search fails only when no cluster is free, and otherwise finds the free one that
      comes first in its order. */
  lemma ScanIsFirst(fat: seq<int>, start: int, c: int)
    requires InRange(fat, start) && InRange(fat, c) && fat[c] == FREE
    ensures Scan(fat, start, 0) != 0
    ensures TurnOf(start, Scan(fat, start, 0), |fat|) <= TurnOf(start, c, |fat|)
  {
    var j := TurnOf(start, c, |fat|);
    SearchIsComplete(start, c, |fat|, 0);
    SearchIsComplete(start, c, |fat|, j);
    if Scan(fat, start, 0) == 0 || TurnOf(start, Scan(fat, start, 0), |fat|) > j {
      ScanMisses(fat, start, 0, j);
    }
  }

  ////// Allocating one cluster

  function After(fat: seq<int>, c: int): int {
    if c + 1 >= |fat| then 2 else c + 1
  }

  /** fat32_alloc_cluster: the table afterwards and the cluster taken, or 0. */
  function Take(t: Table): (r: (Table, int))
    requires |t.fat| >= 2
  {
    var c := Scan(t.fat, Hint(t), 0);
    if c == 0 then (t, 0) else (Table(t.fat[c := EOC], Dec(t.freeCount), After(t.fat, c)), c)
  }

  /** How far cluster c lies behind `from`, when the table is read as a cycle without its first
      two entries. */
  function Ahead(from: int, c: int, n: int): int {
    if from <= c then c - from else c - from + (n - 2)
  }

  /** The cluster taken is the first free one from the hint on, or from cluster 2 on when the hint
      is outside the table, cyclically; the next hint is the cluster behind it. */
  lemma TakesFirstFree(t: Table, x: int)
    requires Valid(t) && 2 <= x < |t.fat| && t.fat[x] == FREE
    ensures var (t', c) := Take(t);
            && 2 <= c < |t.fat| && t.fat[c] == FREE
            && (if 2 <= t.nextFree < |t.fat| then Ahead(t.nextFree, c, |t.fat|) <= Ahead(t.nextFree, x, |t.fat|)
                else c <= x)
            && t'.nextFree == if c == |t.fat| - 1 then 2 else c + 1
  {
    ScanIsFirst(t.fat, Hint(t), x);
  }

  lemma TakeIsExact(t: Table)
    requires Valid(t)
    ensures var (t', c) := Take(t);
            && Valid(t') && Drift(t') == Drift(t)
            && (c == 0 <==> CountFree(t.fat) == 0) && (c == 0 ==> t' == t)
            && (c != 0 ==> InRange(t.fat, c) && t.fat[c] == FREE && t'.fat == t.fat[c := EOC]
                           && CountFree(t'.fat) == CountFree(t.fat) - 1)
  {
    NoneFreeBelow(t.fat, |t.fat|);
    var (t', c) := Take(t);
    if c != 0 {
      CountUpdate(t.fat, c, EOC);
    } else {
      forall x | InRange(t.fat, x)
        ensures t.fat[x] != FREE
      {
        if t.fat[x] == FREE {
          ScanIsFirst(t.fat, Hint(t), x);
        }
      }
    }
  }

  ////// Releasing a chain

  function NonFree(fat: seq<int>): nat {
    if |fat| <= 2 then 0 else |fat| - 2 - CountFree(fat)
  }

  /** What makes the release loop end, whatever the table holds: every turn but the last
      turns an entry FREE. */
  function Measure(fat: seq<int>, c: int): nat {
    if InRange(fat, c) then NonFree(fat) + 1 else 0
  }

  /** The cluster the loop goes on with. */
  function Onward(next: int): int {
    if next < EOC then next else 0
  }

  lemma MeasureDrops(fat: seq<int>, c: int)
    requires InRange(fat, c)
    ensures Measure(fat[c := FREE], Onward(fat[c])) < Measure(fat, c)
  {
    CountUpdate(fat, c, FREE);
  }

  /** The table after the release loop. */
  function Released(fat: seq<int>, c: int): (r: seq<int>)
    ensures |r| == |fat|
    decreases Measure(fat, c)
  {
    if !InRange(fat, c) then fat
    else
      MeasureDrops(fat, c);
      Released(fat[c := FREE], Onward(fat[c]))
  }

  /** The number of turns, each of which raises the free count. */
  function Turns(fat: seq<int>, c: int): nat
    decreases Measure(fat, c)
  {
    if !InRange(fat, c) then 0
    else
      MeasureDrops(fat, c);
      1 + Turns(fat[c := FREE], Onward(fat[c]))
  }

  /** The loop comes to an entry that is FREE, from the start or because it has been there. */
  predicate HitsFree(fat: seq<int>, c: int)
    decreases Measure(fat, c)
  {
    if !InRange(fat, c) then false
    else
      MeasureDrops(fat, c);
      fat[c] == FREE || HitsFree(fat[c := FREE], Onward(fat[c]))
  }

  lemma {:induction false} TurnsCount(fat: seq<int>, c: int)
    ensures Turns(fat, c) == CountFree(Released(fat, c)) - CountFree(fat) + if HitsFree(fat, c) then 1 else 0
    decreases Measure(fat, c)
  {
    if InRange(fat, c) {
      MeasureDrops(fat, c);
      CountUpdate(fat, c, FREE);
      TurnsCount(fat[c := FREE], Onward(fat[c]));
    }
  }

  /** n turns of the free count. */
  function Plus(count: int, n: nat): int {
    if n == 0 then count else Inc(Plus(count, n - 1))
  }

  lemma {:induction false} PlusOne(count: int, n: nat)
    ensures Plus(Inc(count), n) == Plus(count, n + 1)
  {
    if n > 0 {
      PlusOne(count, n - 1);
    }
  }

  lemma {:induction false} PlusIsSum(count: int, n: nat)
    requires 0 <= count < U32 && n < U32
    ensures Plus(count, n) == if count + n < U32 then count + n else count + n - U32
  {
    if n > 0 {
      PlusIsSum(count, n - 1);
    }
  }

  /** fat32_free_cluster_chain. */
  function Release(t: Table, c: int): Table {
    Table(Released(t.fat, c), Plus(t.freeCount, Turns(t.fat, c)), t.nextFree)
  }

  lemma {:induction false} ReleasedKeeps(fat: seq<int>, c: int)
    requires forall i :: 0 <= i < |fat| ==> fat[i] >= 0
    ensures forall i :: 0 <= i < |fat| ==> Released(fat, c)[i] == fat[i] || Released(fat, c)[i] == FREE
    decreases Measure(fat, c)
  {
    if InRange(fat, c) {
      MeasureDrops(fat, c);
      ReleasedKeeps(fat[c := FREE], Onward(fat[c]));
    }
  }

  /** Releasing keeps the free count in step exactly when the walk meets no FREE entry. */
  lemma ReleaseDrift(t: Table, c: int)
    requires Valid(t)
    ensures Valid(Release(t, c))
    ensures Drift(Release(t, c)) == Drift(t) <==> !HitsFree(t.fat, c)
  {
    TurnsCount(t.fat, c);
    ReleasedKeeps(t.fat, c);
    PlusIsSum(t.freeCount, Turns(t.fat, c));
  }

  ////// Chains

  /** Clusters that follow each other in the table; the last entry leads out of it. */
  ghost predicate IsChain(fat: seq<int>, first: int, chain: seq<int>)
    decreases |chain|
  {
    if chain == [] then !InRange(fat, first) else
      && first == chain[0] && InRange(fat, first) && fat[first] != FREE && first !in chain[1..]
      && IsChain(fat, Onward(fat[first]), chain[1..])
  }

  lemma {:induction false} ChainSame(fat: seq<int>, fat': seq<int>, first: int, chain: seq<int>)
    requires IsChain(fat, first, chain) && |fat'| == |fat|
    requires forall x :: x in chain && InRange(fat, x) ==> fat'[x] == fat[x]
    ensures IsChain(fat', first, chain)
    decreases |chain|
  {
    if chain != [] {
      ChainSame(fat, fat', Onward(fat[first]), chain[1..]);
    }
  }

  lemma {:induction false} ChainElements(fat: seq<int>, first: int, chain: seq<int>, x: int)
    requires IsChain(fat, first, chain) && x in chain
    ensures InRange(fat, x) && fat[x] != FREE
    decreases |chain|
  {
    if x != chain[0] {
      ChainElements(fat, Onward(fat[first]), chain[1..], x);
    }
  }

  /** A well-formed chain is released exactly: its clusters become FREE, nothing else
      changes, and the free count rises by its length. */
  lemma {:induction false} ChainIsReleased(fat: seq<int>, first: int, chain: seq<int>)
    requires IsChain(fat, first, chain)
    ensures !HitsFree(fat, first) && Turns(fat, first) == |chain|
    ensures forall x :: 0 <= x < |fat| ==> Released(fat, first)[x] == if x in chain then FREE else fat[x]
    decreases |chain|
  {
    if chain != [] {
      MeasureDrops(fat, first);
      var rest, fat' := chain[1..], fat[first := FREE];
      ChainSame(fat, fat', Onward(fat[first]), rest);
      ChainIsReleased(fat', Onward(fat[first]), rest);
      assert chain == [first] + rest;
    }
  }

  /** The clusters the loop visits, when it meets no FREE entry. */
  ghost function Visited(fat: seq<int>, c: int): seq<int>
    decreases Measure(fat, c)
  {
    if !InRange(fat, c) then []
    else
      MeasureDrops(fat, c);
      [c] + Visited(fat[c := FREE], Onward(fat[c]))
  }

  lemma {:induction false} VisitedIsChain(fat: seq<int>, c: int)
    requires !HitsFree(fat, c)
    ensures IsChain(fat, c, Visited(fat, c))
    decreases Measure(fat, c)
  {
    if InRange(fat, c) {
      MeasureDrops(fat, c);
      var fat' := fat[c := FREE];
      var rest := Visited(fat', Onward(fat[c]));
      VisitedIsChain(fat', Onward(fat[c]));
      if c in rest {
        ChainElements(fat', Onward(fat[c]), rest, c);
      }
      ChainSame(fat', fat, Onward(fat[c]), rest);
      assert ([c] + rest)[1..] == rest;
    }
  }

  ghost predicate ChainFrom(fat: seq<int>, c: int, chain: seq<int>) {
    IsChain(fat, c, chain)
  }

  /** Cluster c begins a well-formed chain (the empty one when it is out of range). */
  ghost predicate BeginsChain(fat: seq<int>, c: int) {
    exists chain :: ChainFrom(fat, c, chain)
  }

  lemma BeginsChainIff(fat: seq<int>, c: int)
    ensures BeginsChain(fat, c) <==> !HitsFree(fat, c)
  {
    if HitsFree(fat, c) {
      forall chain
        ensures !ChainFrom(fat, c, chain)
      {
        if ChainFrom(fat, c, chain) {
          ChainIsReleased(fat, c, chain);
        }
      }
    } else {
      VisitedIsChain(fat, c);
      assert ChainFrom(fat, c, Visited(fat, c));
    }
  }

  /** The free count stays in step exactly when what is released is a well-formed chain. */
  lemma ReleaseIff(t: Table, c: int)
    requires Valid(t)
    ensures Drift(Release(t, c)) == Drift(t) <==> BeginsChain(t.fat, c)
  {
    ReleaseDrift(t, c);
    BeginsChainIff(t.fat, c);
  }

  /** A chain that runs into a free cluster: three are counted, two are free. */
  lemma ReleaseIntoFree(t: Table)
    requires t == Table([EOC, EOC, 3, FREE], 1, 2)
    ensures Release(t, 2) == Table([EOC, EOC, FREE, FREE], 3, 2)
    ensures CountFree(t.fat) == 1 && CountFree(Release(t, 2).fat) == 2
  {
    var fat1 := t.fat[2 := FREE];
    var fat2 := fat1[3 := FREE];
    assert fat1 == fat2 == [EOC, EOC, FREE, FREE];
    MeasureDrops(t.fat, 2);
    MeasureDrops(fat1, 3);
    assert Released(fat2, Onward(FREE)) == fat2 && Turns(fat2, Onward(FREE)) == 0;
    assert Released(fat1, 3) == fat2 && Turns(fat1, 3) == 1;
    assert FreeBelow(fat2, 3) == 1 && FreeBelow(t.fat, 3) == 0;
  }

  ////// Allocating a chain

  /** The free count after n clusters have been taken. */
  function Minus(count: int, n: nat): int {
    if n == 0 then count else Dec(Minus(count, n - 1))
  }

  lemma {:induction false} MinusIsDifference(count: int, n: nat)
    requires 0 <= count < U32 && n < U32
    ensures Minus(count, n) == if count >= n then count - n else count - n + U32
  {
    if n > 0 {
      MinusIsDifference(count, n - 1);
    }
  }

  /** Taking a chain keeps the free count in step. */
  lemma TookKeepsDrift(t: Table, t': Table, chain: seq<int>)
    requires Took(t, t', chain)
    ensures Drift(t') == Drift(t)
  {
    MinusIsDifference(t.freeCount, |chain|);
  }

  /** The clusters of the chain have been taken from t, and nothing else has changed. */
  ghost predicate Took(t: Table, t': Table, chain: seq<int>) {
    && Valid(t) && Valid(t') && |t'.fat| == |t.fat| && t'.freeCount == Minus(t.freeCount, |chain|)
    && Linked(t'.fat, chain, EOC)
    && (forall i :: 0 <= i < |chain| ==> t.fat[chain[i]] == FREE)
    && (forall x :: 0 <= x < |t.fat| && x !in chain ==> t'.fat[x] == t.fat[x])
    && CountFree(t'.fat) == CountFree(t.fat) - |chain|
  }

  lemma {:induction false} LinkedIsChain(fat: seq<int>, chain: seq<int>, k: nat)
    requires Linked(fat, chain, EOC) && |fat| <= MAX_ENTRIES && k <= |chain|
    ensures IsChain(fat, if k < |chain| then chain[k] else 0, chain[k..])
    decreases |chain| - k
  {
    if k < |chain| {
      LinkedIsChain(fat, chain, k + 1);
      assert fat[chain[k]] == NextOf(chain, k, EOC);
      assert chain[k..][1..] == chain[k + 1..];
    }
  }

  /** The next cluster, linked behind the last one. */
  function Attach(fat: seq<int>, chain: seq<int>, c: int): seq<int>
    requires chain != [] ==> InRange(fat, chain[|chain| - 1])
  {
    if chain == [] then fat else fat[chain[|chain| - 1] := c]
  }

  lemma LinkedGrows(fat: seq<int>, chain: seq<int>, c: int)
    requires Linked(fat, chain, EOC) && InRange(fat, c) && c !in chain
    ensures Linked(Attach(fat[c := EOC], chain, c), chain + [c], EOC)
  {
    var longer, fat' := chain + [c], Attach(fat[c := EOC], chain, c);
    forall i | 0 <= i < |longer|
      ensures fat'[longer[i]] == NextOf(longer, i, EOC)
    {
      if i + 1 < |chain| {
        assert chain[i] != chain[|chain| - 1] && chain[i] != c;
        assert fat[chain[i]] == NextOf(chain, i, EOC);
      }
    }
  }

  lemma TookOne(t: Table, t': Table, chain: seq<int>)
    requires Took(t, t', chain) && Take(t').1 != 0
    ensures var (next, c) := Take(t');
            c !in chain && Took(t, next.(fat := Attach(next.fat, chain, c)), chain + [c])
  {
    var (next, c) := Take(t');
    TakeIsExact(t');
    if c in chain {
      LinkedIsUsed(t'.fat, chain, EOC, c);
    }
    LinkedGrows(t'.fat, chain, c);
    var longer, fat' := chain + [c], Attach(next.fat, chain, c);
    if chain != [] {
      var last := chain[|chain| - 1];
      assert t'.fat[last] == NextOf(chain, |chain| - 1, EOC);
      CountUpdate(next.fat, last, c);
    }
    forall x | 0 <= x < |t.fat| && x !in longer
      ensures fat'[x] == t.fat[x]
    {
      assert longer[|chain|] == c;
    }
  }

  /** Taking a chain and releasing it again gives back the table and the free count. */
  lemma GiveBack(t: Table, t': Table, chain: seq<int>)
    requires Took(t, t', chain)
    ensures var first := if chain == [] then 0 else chain[0];
            Release(t', first).fat == t.fat && Release(t', first).freeCount == t.freeCount
  {
    var first := if chain == [] then 0 else chain[0];
    TookKeepsDrift(t, t', chain);
    LinkedIsChain(t'.fat, chain, 0);
    assert chain[0..] == chain;
    ChainIsReleased(t'.fat, first, chain);
    ReleaseDrift(t', first);
    assert Released(t'.fat, first) == t.fat;
  }

  ////// Runs

  /** The chains in use, each begun by a cluster that someone holds, share nothing. */
  ghost predicate InUse(fat: seq<int>, firsts: seq<int>, chains: seq<seq<int>>) {
    && |chains| == |firsts|
    && (forall i :: 0 <= i < |firsts| ==> ChainFrom(fat, firsts[i], chains[i]))
    && (forall i, j :: 0 <= i < j < |chains| ==> Disjoint(chains[i], chains[j]))
  }

  lemma OtherChainsKept(fat: seq<int>, fat': seq<int>, firsts: seq<int>, chains: seq<seq<int>>)
    requires InUse(fat, firsts, chains) && |fat'| == |fat|
    requires forall i, x :: 0 <= i < |chains| && x in chains[i] && InRange(fat, x) ==> fat'[x] == fat[x]
    ensures InUse(fat', firsts, chains)
  {
    forall i | 0 <= i < |firsts|
      ensures ChainFrom(fat', firsts[i], chains[i])
    {
      assert ChainFrom(fat, firsts[i], chains[i]);
      ChainSame(fat, fat', firsts[i], chains[i]);
    }
  }

  lemma UsedIsNotFree(fat: seq<int>, firsts: seq<int>, chains: seq<seq<int>>, i: nat, x: int)
    requires InUse(fat, firsts, chains) && i < |chains| && x in chains[i]
    ensures InRange(fat, x) && fat[x] != FREE
  {
    assert ChainFrom(fat, firsts[i], chains[i]);
    ChainElements(fat, firsts[i], chains[i], x);
  }

  /** A chain that has been taken is one more in use. */
  lemma TookInUse(t: Table, t': Table, chain: seq<int>, firsts: seq<int>, chains: seq<seq<int>>)
    requires Took(t, t', chain) && InUse(t.fat, firsts, chains)
    ensures InUse(t'.fat, firsts + [if chain == [] then 0 else chain[0]], chains + [chain])
  {
    forall i, x | 0 <= i < |chains| && x in chains[i]
      ensures x !in chain && InRange(t.fat, x)
    {
      UsedIsNotFree(t.fat, firsts, chains, i, x);
    }
    OtherChainsKept(t.fat, t'.fat, firsts, chains);
    LinkedIsChain(t'.fat, chain, 0);
    assert chain[0..] == chain;
  }

  /** A chain that is released is no longer in use, and the others still are. */
  lemma ReleasedInUse(t: Table, firsts: seq<int>, chains: seq<seq<int>>, k: nat)
    requires Valid(t) && InUse(t.fat, firsts, chains) && k < |firsts|
    ensures Valid(Release(t, firsts[k])) && Drift(Release(t, firsts[k])) == Drift(t)
    ensures InUse(Release(t, firsts[k]).fat, firsts[..k] + firsts[k + 1..], chains[..k] + chains[k + 1..])
  {
    assert ChainFrom(t.fat, firsts[k], chains[k]);
    ReleaseIff(t, firsts[k]);
    ReleaseDrift(t, firsts[k]);
    ChainIsReleased(t.fat, firsts[k], chains[k]);
    var firsts', chains' := firsts[..k] + firsts[k + 1..], chains[..k] + chains[k + 1..];
    forall i, x | 0 <= i < |chains'| && x in chains'[i]
      ensures x !in chains[k]
    {
      assert chains'[i] == if i < k then chains[i] else chains[i + 1];
    }
    OtherChainsKept(t.fat, Release(t, firsts[k]).fat, firsts', chains');
  }

  /** Operations of a run: take a chain of so many clusters, or give back the k-th of the
      chains in use. */
  datatype Op = TakeChain(count: nat) | GiveBackChain(k: nat)
}
