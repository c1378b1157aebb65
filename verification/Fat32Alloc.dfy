/**
  The FAT32 driver's allocator: the cached table, the FSInfo free count and hint, and the
  dirty flag are changed in place.
*/
module Fat32Alloc {
  import opened Common
  import opened Chains
  import opened Fat32Table

  class Allocator {
    const fat: array<int>
    var freeCount: int
    var nextFree: int
    var dirty: bool

    ghost function State(): Table
      reads this`freeCount, this`nextFree, fat
    {
      Table(fat[..], freeCount, nextFree)
    }

    ghost predicate Usable()
      reads this`freeCount, this`nextFree, fat
    {
      Valid(State())
    }

    /** Mounting a volume without an FSInfo sector: the free clusters are counted. */
    constructor Rebuild(fat: array<int>)
      requires 2 <= fat.Length <= MAX_ENTRIES && forall i :: 0 <= i < fat.Length ==> fat[i] >= 0
      ensures Usable() && this.fat == fat && !dirty
      ensures freeCount == CountFree(fat[..]) && nextFree == 2
    {
      var count, i := 0, 2;
      while i < fat.Length
        invariant 2 <= i <= fat.Length && count == FreeBelow(fat[..], i)
      {
        if fat[i] == FREE {
          count := count + 1;
        }
        i := i + 1;
      }
      this.fat, freeCount, nextFree, dirty := fat, count, 2, false;
    }

    /** Mounting a volume with an FSInfo sector: its two fields are taken as they are. */
    constructor (fat: array<int>, freeCount: int, nextFree: int)
      ensures this.fat == fat && State() == Table(fat[..], freeCount, nextFree) && !dirty
    {
      this.fat, this.freeCount, this.nextFree, dirty := fat, freeCount, nextFree, false;
    }

    /** fat32_next_cluster. */
    function NextCluster(cluster: int): (next: int)
      reads fat
      ensures next == Following(fat[..], cluster)
    {
      if cluster < 2 || cluster >= fat.Length then EOC
      else if fat[cluster] >= EOC then EOC
      else if fat[cluster] == FREE || fat[cluster] == BAD then EOC
      else fat[cluster]
    }

    /** The free cluster that was found becomes a chain of its own. */
    method TakeAt(cluster: int)
      requires InRange(fat[..], cluster)
      modifies this, fat
      ensures State() == Table(old(fat[..])[cluster := EOC], Dec(old(freeCount)), After(old(fat[..]), cluster)) && dirty
    {
      fat[cluster] := EOC;
      freeCount := Dec(freeCount);
      nextFree := cluster + 1;
      if nextFree >= fat.Length {
        nextFree := 2;
      }
      dirty := true;
    }

    /** fat32_alloc_cluster. */
    method AllocCluster() returns (cluster: int)
      requires Usable()
      modifies this, fat
      ensures Usable() && (State(), cluster) == Take(old(State()))
      ensures dirty == (old(dirty) || cluster != 0)
    {
      TakeIsExact(State());
      var start := if nextFree < 2 || nextFree >= fat.Length then 2 else nextFree;
      var i := 0;
      while i < fat.Length - 2
        invariant 0 <= i <= fat.Length - 2 && Scan(fat[..], start, i) == Scan(fat[..], start, 0)
        invariant State() == old(State()) && dirty == old(dirty)
      {
        cluster := start + i;
        if cluster >= fat.Length {
          cluster := 2 + (cluster - fat.Length);
        }
        if fat[cluster] == FREE {
          TakeAt(cluster);
          return;
        }
        i := i + 1;
      }
      cluster := 0;
    }

    /** fat32_free_cluster_chain. */
    method FreeClusterChain(first: int)
      requires Usable()
      modifies this, fat
      ensures Usable() && State() == Release(old(State()), first)
      ensures dirty == (old(dirty) || InRange(old(fat[..]), first))
    {
      ReleaseDrift(State(), first);
      var cluster := first;
      ghost var k := 0;
      while cluster >= 2 && cluster < fat.Length
        invariant Released(fat[..], cluster) == Released(old(fat[..]), first)
        invariant Turns(fat[..], cluster) + k == Turns(old(fat[..]), first) && freeCount == Plus(old(freeCount), k)
        invariant nextFree == old(nextFree)
        invariant if k == 0 then cluster == first && dirty == old(dirty) else dirty && InRange(old(fat[..]), first)
        decreases Measure(fat[..], cluster)
      {
        MeasureDrops(fat[..], cluster);
        ghost var table := fat[..];
        var next := fat[cluster];
        fat[cluster] := FREE;
        assert fat[..] == table[cluster := FREE];
        freeCount := Inc(freeCount);
        cluster := if next < EOC then next else 0;
        dirty := true;
        k := k + 1;
      }
    }

    /** fat32_alloc_clusters: all of them, or none. */
    method AllocClusters(count: nat) returns (taken: nat, first: int, ghost chain: seq<int>)
      requires Usable()
      modifies this, fat
      ensures taken == (if CountFree(old(fat[..])) >= count then count else 0)
      ensures CountFree(old(fat[..])) >= count ==>
                |chain| == count && Took(old(State()), State(), chain) && first == if count == 0 then 0 else chain[0]
      ensures CountFree(old(fat[..])) < count ==> fat[..] == old(fat[..]) && freeCount == old(freeCount)
      ensures Usable()
    {
      first, chain := 0, [];
      var prev, i := 0, 0;
      ghost var before := State();
      while i < count
        invariant 0 <= i <= count && i == |chain| && Took(before, State(), chain)
        invariant if chain == [] then first == 0 == prev else first == chain[0] && prev == chain[|chain| - 1]
      {
        ghost var t := State();
        TakeIsExact(t);
        var cluster := AllocCluster();
        if cluster == 0 {
          GiveBack(before, t, chain);
          if first != 0 {
            FreeClusterChain(first);
          }
          return 0, first, chain;
        }
        TookOne(before, t, chain);
        if first == 0 {
          first := cluster;
        }
        if prev != 0 {
          fat[prev] := cluster;
        }
        prev := cluster;
        chain := chain + [cluster];
        i := i + 1;
      }
      taken := count;
    }

    /** Over every run of taking chains and giving them back the free count and the number of
        FREE entries move together; if they agree once, as after Rebuild, they agree for ever. */
    method Run(held: seq<int>, ops: seq<Op>, ghost chains: seq<seq<int>>)
      returns (firsts: seq<int>, ghost inUse: seq<seq<int>>)
      requires Usable() && InUse(fat[..], held, chains)
      modifies this, fat
      ensures Usable() && InUse(fat[..], firsts, inUse)
      ensures Drift(State()) == old(Drift(State()))
      ensures old(freeCount) == CountFree(old(fat[..])) ==> freeCount == CountFree(fat[..])
    {
      firsts, inUse := held, chains;
      var i := 0;
      while i < |ops|
        invariant 0 <= i <= |ops| && Usable() && InUse(fat[..], firsts, inUse) && Drift(State()) == old(Drift(State()))
      {
        firsts, inUse := Perform(firsts, ops[i], inUse);
        i := i + 1;
      }
    }

    /** One operation of a run. */
    method Perform(held: seq<int>, op: Op, ghost chains: seq<seq<int>>)
      returns (firsts: seq<int>, ghost inUse: seq<seq<int>>)
      requires Usable() && InUse(fat[..], held, chains)
      modifies this, fat
      ensures Usable() && InUse(fat[..], firsts, inUse) && Drift(State()) == old(Drift(State()))
    {
      firsts, inUse := held, chains;
      match op
      case TakeChain(count) =>
        ghost var before := State();
        var taken, first;
        ghost var chain;
        taken, first, chain := AllocClusters(count);
        if taken > 0 {
          TookKeepsDrift(before, State(), chain);
          TookInUse(before, State(), chain, held, chains);
          firsts, inUse := held + [first], chains + [chain];
        } else {
          assert fat[..] == before.fat;
        }
      case GiveBackChain(k) =>
        if k < |held| {
          ReleasedInUse(State(), held, chains, k);
          FreeClusterChain(held[k]);
          firsts, inUse := held[..k] + held[k + 1..], chains[..k] + chains[k + 1..];
        }
    }
  }
}
