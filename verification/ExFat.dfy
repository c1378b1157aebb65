/**
  The exFAT driver's read and write paths: the cached file allocation table and the disk
  are changed in place, cluster by cluster.
*/
module ExFat {
  import opened Common
  import opened Chains
  import opened ExFatModel
  import opened ExFatFiles

  class Inode {
    var first: int        // first_cluster
    var size: nat         // i_size
    const dirCluster: nat // where its directory entry is
    const dirEntry: nat

    constructor (first: int, size: nat, dirCluster: nat, dirEntry: nat)
      ensures this.first == first && this.size == size && this.dirCluster == dirCluster && this.dirEntry == dirEntry
    {
      this.first, this.size, this.dirCluster, this.dirEntry := first, size, dirCluster, dirEntry;
    }
  }

  class ExFat {
    const clusterSize: nat
    const fat: array<int>
    var disk: Disk

    /** Every index of the table has its cluster on disk. */
    ghost predicate Valid()
      reads this`disk, fat
    {
      && clusterSize > 0 && 2 < fat.Length < END
      && fat.Length <= |disk| && Sized(disk, clusterSize)
      && (forall i :: 0 <= i < fat.Length ==> fat[i] >= 0)
    }

    constructor (clusterSize: nat, fat: array<int>, disk: Disk)
      ensures this.clusterSize == clusterSize && this.fat == fat && this.disk == disk
    {
      this.clusterSize, this.fat, this.disk := clusterSize, fat, disk;
    }

    /** exfat_next_cluster. */
    function NextCluster(cluster: int): (next: int)
      requires cluster >= 0
      reads fat
      ensures next == Next(fat[..], cluster)
    {
      if cluster >= fat.Length then 0 else fat[cluster]
    }

    /** The walk to the cluster a file position falls into. */
    method SkipTo(first: int, k: nat, ghost chain: seq<int>) returns (cluster: int)
      requires Valid() && first >= 0 && IsChain(fat[..], first, chain)
      ensures cluster == ClusterAt(first, chain, k) >= 0
    {
      cluster := first;
      var i := 0;
      while i < k && cluster >= 2
        invariant i <= k && cluster == ClusterAt(first, chain, i) >= 0
      {
        assert i < |chain| ==> fat[..][chain[i]] == NextOf(chain, i, END);
        cluster := NextCluster(cluster);
        i := i + 1;
      }
    }

    /** exfat_read. */
    method Read(inode: Inode, offset: nat, size: nat, ghost chain: seq<int>) returns (ok: bool, bytes: seq<Byte>)
      requires Valid() && inode.first >= 0 && IsChain(fat[..], inode.first, chain)
      requires inode.size <= U32 * clusterSize
      ensures ok <==> offset >= inode.size || ClusterAt(inode.first, chain, ClusterOf(offset, clusterSize)) >= 2
      ensures bytes == ReadBytes(disk, clusterSize, chain, inode.size, offset, size)
    {
      if offset >= inode.size {
        return true, [];
      }
      var toRead := if offset + size > inode.size then inode.size - offset else size;
      var skip, at := Locate(offset);
      var cluster := SkipTo(inode.first, skip, chain);
      if cluster < 2 {
        ReadBegins(disk, clusterSize, chain, skip, at, offset, toRead);
        return false, [];
      }
      ok := true;
      bytes := ReadFrom(cluster, at, toRead, offset, chain, skip);
    }

    /** The cluster a position falls into, and the position within it. */
    method Locate(offset: nat) returns (k: nat, at: nat)
      requires clusterSize > 0
      ensures k == ClusterOf(offset, clusterSize) && at == offset % clusterSize < clusterSize
      ensures offset == k * clusterSize + at
    {
      k, at := ClusterOf(offset, clusterSize), offset % clusterSize;
      ghost var _, _ := Quotient(offset, clusterSize);
    }

    /** One turn of the reading loop, for cluster j of the chain. */
    method ReadTurn(cluster: int, clusterOffset: nat, toRead: nat, bytes: seq<Byte>,
                    ghost chain: seq<int>, ghost k: nat, ghost at: nat, ghost offset: nat, ghost j: nat)
      returns (bytes': seq<Byte>)
      requires OnDisk(disk, clusterSize, chain) && k <= j < |chain| && cluster == chain[j]
      requires at < clusterSize && offset == k * clusterSize + at && clusterOffset == if j == k then at else 0
      requires bytes == Slice(DataTo(disk, clusterSize, chain, j), offset, toRead)
      ensures bytes' == Slice(DataTo(disk, clusterSize, chain, j + 1), offset, toRead)
    {
      var copySize := clusterSize - clusterOffset;
      if copySize > toRead - |bytes| {
        copySize := toRead - |bytes|;
      }
      ReadStep(disk, clusterSize, chain, k, at, offset, toRead, j, bytes, cluster, clusterOffset, copySize);
      bytes' := bytes + disk[cluster][clusterOffset..clusterOffset + copySize];
    }

    /** The reading loop, from cluster k of the chain on. */
    method ReadFrom(start: int, at: nat, toRead: nat, ghost offset: nat, ghost chain: seq<int>,
                    ghost k: nat) returns (bytes: seq<Byte>)
      requires OnDisk(disk, clusterSize, chain) && Follows(fat[..], chain, END) && fat.Length < END
      requires at < clusterSize && offset == k * clusterSize + at && start == if k < |chain| then chain[k] else END
      ensures bytes == Slice(Data(disk, clusterSize, chain), offset, toRead)
    {
      bytes := [];
      var cluster, clusterOffset := start, at;
      ghost var j := Min(k, |chain|);
      ReadBegins(disk, clusterSize, chain, k, at, offset, toRead);
      while |bytes| < toRead && cluster >= 2 && cluster != END
        invariant j <= |chain| && cluster == if j < |chain| then chain[j] else END
        invariant j < |chain| ==> j >= k && clusterOffset == if j == k then at else 0
        invariant bytes == Slice(DataTo(disk, clusterSize, chain, j), offset, toRead)
        decreases |chain| - j
      {
        bytes := ReadTurn(cluster, clusterOffset, toRead, bytes, chain, k, at, offset, j);
        NextInChain(fat[..], chain, j);
        clusterOffset := 0;
        cluster := NextCluster(cluster);
        j := j + 1;
      }
      ReadDone(disk, clusterSize, chain, offset, toRead, j);
    }

    /** The search for a free cluster: the lowest one, or 0. */
    method FindFree() returns (x: int)
      ensures x == 0 <==> forall i :: 2 <= i < fat.Length ==> fat[i] != FREE
      ensures x != 0 ==> 2 <= x < fat.Length && fat[x] == FREE && forall i :: 2 <= i < x ==> fat[i] != FREE
    {
      var i := 2;
      while i < fat.Length
        invariant 2 <= i && forall j :: 2 <= j < i && j < fat.Length ==> fat[j] != FREE
      {
        if fat[i] == FREE {
          return i;
        }
        i := i + 1;
      }
      return 0;
    }

    /** A new cluster is linked behind the last one collected, or becomes the file's first. */
    method Extend(inode: Inode, clusters: seq<int>, ghost before: seq<int>, ghost base: seq<int>,
                  ghost chain: seq<int>) returns (x: int)
      requires Valid() && Grown(before, fat[..], base, chain)
      requires if clusters == [] then chain == [] else chain != [] && clusters[|clusters| - 1] == chain[|chain| - 1]
      modifies fat, inode`first
      ensures Valid() && fat[0] == old(fat[0]) && fat[1] == old(fat[1])
      ensures x == 0 <==> forall i :: 2 <= i < fat.Length ==> old(fat[i]) != FREE
      ensures x == 0 ==> fat[..] == old(fat[..]) && inode.first == old(inode.first)
      ensures x != 0 ==> x >= 2 && Grown(before, fat[..], base, chain + [x])
      ensures x != 0 ==> CountFree(fat[..]) == CountFree(old(fat[..])) - 1
      ensures x != 0 ==> inode.first == if chain == [] then x else old(inode.first)
    {
      x := FindFree();
      if x == 0 {
        return;
      }
      GrowStep(before, fat[..], base, chain, x);
      GrowTakesOne(fat[..], chain, x);
      if clusters == [] {
        inode.first := x;
      } else {
        fat[clusters[|clusters| - 1]] := x;
      }
      fat[x] := END;
      assert fat[..] == Appended(old(fat[..]), chain, x);
    }

    /** The clusters a write will go to: the file's own as far as they reach, then new ones.
        `base` is the chain they are taken from, and the first of them is its k-th. */
    method Collect(inode: Inode, start: int, needed: nat, ghost base: seq<int>, ghost k: nat)
      returns (ok: bool, clusters: seq<int>, ghost chain: seq<int>)
      requires Valid() && Linked(fat[..], base, END) && start >= 0
      requires if base == [] then k == 0 && Ends(start) else k < |base| && start == base[k]
      modifies fat, inode`first
      ensures Valid() && fat[0] == old(fat[0]) && fat[1] == old(fat[1])
      ensures Grown(old(fat[..]), fat[..], base, chain)
      ensures inode.first == if base == [] && chain != [] then chain[0] else old(inode.first)
      ensures ok ==> |clusters| == needed && |chain| == Max(|base|, k + needed) && clusters == chain[k..k + needed]
      ensures !ok ==> |chain| < k + needed && forall i :: 2 <= i < fat.Length ==> fat[i] != FREE
      ensures CountFree(fat[..]) == CountFree(old(fat[..])) - (|chain| - |base|)
    {
      ghost var before := fat[..];
      ghost var collected := (table: seq<int>, chain: seq<int>, clusters: seq<int>, cluster: int) =>
        Collected(before, table, base, k, chain, clusters, cluster);
      clusters, chain := [], base;
      var cluster, c := start, 0;
      while c < needed
        invariant c == |clusters| <= needed && cluster >= 0
        invariant Valid() && fat[0] == old(fat[0]) && fat[1] == old(fat[1])
        invariant collected(fat[..], chain, clusters, cluster)
        invariant inode.first == if base == [] && chain != [] then chain[0] else old(inode.first)
      {
        if cluster < 2 || cluster == END {
          CollectEnd(before, fat[..], base, k, chain, clusters, cluster);
          ghost var table := fat[..];
          var x := Extend(inode, clusters, before, base, chain);
          if x == 0 {
            return false, clusters, chain;
          }
          CollectNew(before, table, fat[..], base, k, chain, clusters, cluster, x);
          chain := chain + [x];
          clusters := clusters + [x];
        } else {
          CollectOld(before, fat[..], base, k, chain, clusters, cluster);
          clusters := clusters + [cluster];
          cluster := NextCluster(cluster);
        }
        c := c + 1;
      }
      ok := true;
    }

    /** One cluster of the data: a whole cluster is overwritten, otherwise read, modified and
        written back. */
    method PutCluster(cluster: int, at: nat, piece: seq<Byte>)
      requires 0 <= cluster < |disk| && at + |piece| <= |disk[cluster]| == clusterSize
      modifies this`disk
      ensures disk == old(disk)[cluster := Over(old(disk)[cluster], at, piece)]
    {
      if |piece| == clusterSize {
        assert Over(disk[cluster], at, piece) == piece;
        disk := disk[cluster := piece];
      } else {
        disk := disk[cluster := Over(disk[cluster], at, piece)];
      }
    }

    /** One turn of the data loop, for cluster j of the chain. */
    method PutTurn(cluster: int, clusterOffset: nat, data: seq<Byte>, done: nat,
                   ghost before: Disk, ghost chain: seq<int>, ghost k: nat, ghost at: nat, ghost offset: nat,
                   ghost j: nat)
      returns (done': nat)
      requires Writing(before, disk, clusterSize, chain, offset, data, j, done) && Distinct(chain)
      requires k <= j < |chain| && at < clusterSize && offset == k * clusterSize + at
      requires cluster == chain[j] && clusterOffset == if j == k then at else 0
      modifies this`disk
      ensures Writing(before, disk, clusterSize, chain, offset, data, j + 1, done')
    {
      ghost var d := disk;
      var writeSize := clusterSize - clusterOffset;
      if writeSize > |data| - done {
        writeSize := |data| - done;
      }
      var piece := data[done..done + writeSize];
      PutCluster(cluster, clusterOffset, piece);
      WriteTurn(before, d, disk, clusterSize, chain, k, at, offset, data, j, done, cluster, clusterOffset,
                writeSize, piece);
      done' := done + writeSize;
    }

    /** The data loop. */
    method PutData(clusters: seq<int>, at: nat, data: seq<Byte>, ghost chain: seq<int>, ghost k: nat)
      requires at < clusterSize && Sized(disk, clusterSize) && OnDisk(disk, clusterSize, chain) && Distinct(chain)
      requires data != []
      requires k + |clusters| <= |chain| && clusters == chain[k..k + |clusters|]
      requires at + |data| <= |clusters| * clusterSize
      modifies this`disk
      ensures Wrote(old(disk), disk, clusterSize, chain, k * clusterSize + at, data)
      ensures |disk| == |old(disk)| && Sized(disk, clusterSize)
      ensures forall x :: 0 <= x < |disk| && x !in chain ==> disk[x] == old(disk)[x]
    {
      ghost var before, offset := disk, k * clusterSize + at;
      WriteBegins(before, clusterSize, chain, k, at, data);
      var i, done: nat := 0, 0;
      ghost var j := k;
      while i < |clusters|
        invariant 0 <= i <= |clusters| && j == k + i
        invariant Writing(before, disk, clusterSize, chain, offset, data, j, done)
      {
        done := PutTurn(clusters[i], if i == 0 then at else 0, data, done, before, chain, k, at, offset, j);
        i, j := i + 1, j + 1;
      }
      WriteComplete(before, disk, clusterSize, chain, k, at, offset, data, i, done);
      StillSized(before, disk, clusterSize, chain);
    }

    /** The size of the file and of its directory entry, when the write ended beyond them. */
    method UpdateSize(inode: Inode, end: nat)
      requires Sized(disk, clusterSize) && 2 <= inode.dirCluster < |disk| && inode.dirEntry * 32 + 64 <= clusterSize
      modifies this`disk, inode`size
      ensures inode.size == Max(old(inode.size), end) && Sized(disk, clusterSize)
      ensures disk == if end > old(inode.size)
                      then old(disk)[inode.dirCluster := WithSize(old(disk)[inode.dirCluster], inode.dirEntry, end)]
                      else old(disk)
    {
      if end > inode.size {
        inode.size := end;
        disk := disk[inode.dirCluster := WithSize(disk[inode.dirCluster], inode.dirEntry, end)];
      }
    }

    /** The walk to the first cluster of the write, and the clusters from there on. */
    method Gather(inode: Inode, k: nat, needed: nat, ghost files: seq<File>, ghost f: nat)
      returns (ok: bool, clusters: seq<int>, ghost grown: seq<int>, ghost chain: seq<int>)
      requires Valid() && Volume(fat[..], files) && f < |files| && files[f].first == inode.first >= 0
      modifies fat, inode`first
      ensures Valid() && Volume(fat[..], files[f := File(inode.first, chain)]) && inode.first >= 0
      ensures chain == FileChain(files[f].chain, grown) && fat[0] == old(fat[0]) && fat[1] == old(fat[1])
      ensures Grown(old(fat[..]), fat[..], Base(files[f].chain, k), grown)
      ensures Inside(files[f].chain, k) ==> chain == grown
      ensures ok ==> |clusters| == needed
      ensures ok ==> |grown| == Max(|Base(files[f].chain, k)|, Start(files[f].chain, k) + needed)
      ensures ok ==> clusters == grown[Start(files[f].chain, k)..Start(files[f].chain, k) + needed]
      ensures !ok ==> NoneFree(fat[..])
      ensures !ok ==> (files[f].chain <= chain <==> Harmless(old(fat[..]), files[f].chain, k))
      ensures ok <==> CountFree(old(fat[..])) >= ToTake(files[f].chain, k, needed)
      ensures CountFree(fat[..]) == if ok then CountFree(old(fat[..])) - ToTake(files[f].chain, k, needed) else 0
      ensures Inside(files[f].chain, k) ==> |chain| == |files[f].chain| + CountFree(old(fat[..])) - CountFree(fat[..])
    {
      ghost var own := files[f].chain;
      var cluster := SkipTo(inode.first, k, own);
      ok, clusters, grown := Collect(inode, cluster, needed, Base(own, k), Start(own, k));
      CollectKeepsVolume(old(fat[..]), fat[..], files, f, k, grown, inode.first);
      CollectIff(old(fat[..]), fat[..], own, k, needed, grown, ok);
      if !ok {
        FailedWriteKeepsIff(old(fat[..]), fat[..], own, k, grown);
      }
      chain := FileChain(own, grown);
    }

    method SetDirty(ghost files: seq<File>)
      requires Valid() && Volume(fat[..], files)
      modifies fat
      ensures Valid() && Volume(fat[..], files) && fat[..] == old(fat[..])[0 := Dirty(old(fat[0]))]
      ensures CountFree(fat[..]) == CountFree(old(fat[..]))
    {
      CountUpdate(fat[..], 0, Dirty(fat[0]));
      DirtyKeepsVolume(fat[..], files, Dirty(fat[0]));
      fat[0] := Dirty(fat[0]);
    }

    /** The data, the size and the dirty flag. */
    method Store(inode: Inode, clusters: seq<int>, at: nat, data: seq<Byte>, end: nat,
                 ghost chain: seq<int>, ghost k: nat, ghost pos: nat, ghost files: seq<File>, ghost f: nat,
                 ghost d: nat)
      requires Valid() && Volume(fat[..], files) && f < |files| && files[f].chain == chain && data != []
      requires at < clusterSize && at + |data| <= |clusters| * clusterSize && pos == k * clusterSize + at
      requires k + |clusters| <= |chain| && clusters == chain[k..k + |clusters|]
      requires d < |files| && d != f && inode.dirCluster in files[d].chain && inode.dirEntry * 32 + 64 <= clusterSize
      modifies this`disk, fat, inode`size
      ensures Valid() && Volume(fat[..], files) && fat[..] == old(fat[..])[0 := Dirty(old(fat[0]))]
      ensures CountFree(fat[..]) == CountFree(old(fat[..]))
      ensures inode.size == Max(old(inode.size), end)
      ensures Wrote(old(disk), disk, clusterSize, chain, pos, data)
      ensures inode.dirCluster !in chain && Elsewhere(old(disk), disk, chain, inode.dirCluster)
      ensures EntryUpdated(old(disk), disk, inode.dirCluster, inode.dirEntry, old(inode.size), end)
    {
      assert Disjoint(chain, files[d].chain);
      PutData(clusters, at, data, chain, k);
      ghost var before, size := disk, inode.size;
      UpdateSize(inode, end);
      SizeSaved(old(disk), before, disk, clusterSize, chain, pos, data, inode.dirCluster, inode.dirEntry, size, end);
      SetDirty(files);
    }

    /** The same, for clusters from the k-th on of a file whose chain was `own`. */
    method StoreAt(inode: Inode, clusters: seq<int>, ghost k: nat, at: nat, data: seq<Byte>, end: nat,
                   ghost own: seq<int>, ghost chain: seq<int>, ghost files: seq<File>, ghost f: nat, ghost d: nat)
      requires Valid() && Volume(fat[..], files) && f < |files| && files[f].chain == chain && data != []
      requires at < clusterSize && at + |data| <= |clusters| * clusterSize
      requires Base(own, k) <= chain && |chain| == Max(|Base(own, k)|, Start(own, k) + |clusters|)
      requires clusters == chain[Start(own, k)..Start(own, k) + |clusters|]
      requires d < |files| && d != f && inode.dirCluster in files[d].chain && inode.dirEntry * 32 + 64 <= clusterSize
      modifies this`disk, fat, inode`size
      ensures Valid() && Volume(fat[..], files) && fat[..] == old(fat[..])[0 := Dirty(old(fat[0]))]
      ensures CountFree(fat[..]) == CountFree(old(fat[..]))
      ensures inode.size == Max(old(inode.size), end)
      ensures WriteResultAt(old(disk), disk, clusterSize, own, chain, k, at, |clusters|, data)
      ensures inode.dirCluster !in chain && Elsewhere(old(disk), disk, chain, inode.dirCluster)
      ensures EntryUpdated(old(disk), disk, inode.dirCluster, inode.dirEntry, old(inode.size), end)
    {
      ghost var pos := StartPosition(own, k, at, clusterSize);
      Store(inode, clusters, at, data, end, chain, Start(own, k), pos, files, f, d);
    }

    /** The write proper: there is data, and memory for the list of clusters; it begins at
        position `at` of cluster k and needs so many clusters. */
    method WriteSome(inode: Inode, k: nat, at: nat, needed: nat, end: nat, data: seq<Byte>, ghost files: seq<File>,
                     ghost f: nat, ghost d: nat)
      returns (ok: bool, ghost chain: seq<int>)
      requires Valid() && Volume(fat[..], files) && f < |files| && files[f].first == inode.first >= 0
      requires d < |files| && d != f && inode.dirCluster in files[d].chain && inode.dirEntry * 32 + 64 <= clusterSize
      requires data != [] && at < clusterSize && at + |data| <= needed * clusterSize
      modifies this`disk, fat, inode
      ensures Valid() && Volume(fat[..], files[f := File(inode.first, chain)]) && inode.first >= 0
      ensures !ok ==> disk == old(disk) && inode.size == old(inode.size) && NoneFree(fat[..])
      ensures !ok ==> (files[f].chain <= chain <==> Harmless(old(fat[..]), files[f].chain, k))
      ensures Inside(files[f].chain, k) ==> Grown(old(fat[..]), fat[..], files[f].chain, chain)
      ensures ok <==> CountFree(old(fat[..])) >= ToTake(files[f].chain, k, needed)
      ensures CountFree(fat[..]) == if ok then CountFree(old(fat[..])) - ToTake(files[f].chain, k, needed) else 0
      ensures Inside(files[f].chain, k) ==> |chain| == |files[f].chain| + CountFree(old(fat[..])) - CountFree(fat[..])
      ensures ok ==> WriteResultAt(old(disk), disk, clusterSize, files[f].chain, chain, k, at, needed, data)
      ensures ok ==> inode.size == Max(old(inode.size), end)
      ensures fat[1] == old(fat[1]) && (if ok then BitSet(old(fat[0]), fat[0]) else fat[0] == old(fat[0]))
      ensures ok ==> inode.dirCluster !in chain && Elsewhere(old(disk), disk, chain, inode.dirCluster)
      ensures ok ==> EntryUpdated(old(disk), disk, inode.dirCluster, inode.dirEntry, old(inode.size), end)
    {
      ghost var own := files[f].chain;
      var clusters: seq<int>;
      ghost var grown: seq<int>;
      ok, clusters, grown, chain := Gather(inode, k, needed, files, f);
      if !ok {
        return;
      }
      ghost var table := fat[..];
      StoreAt(inode, clusters, k, at, data, end, own, chain, files[f := File(inode.first, chain)], f, d);
      if Inside(own, k) {
        DirtyKeepsGrown(old(fat[..]), table, own, chain, Dirty(table[0]));
      }
      DirtySetsBit(table[0]);
    }

    /** exfat_write. `memory` says whether the list of clusters could be allocated. */
    method Write(inode: Inode, offset: nat, data: seq<Byte>, memory: bool, ghost files: seq<File>, ghost f: nat,
                 ghost d: nat)
      returns (ok: bool, written: nat, ghost chain: seq<int>)
      requires Valid() && Volume(fat[..], files) && f < |files| && files[f].first == inode.first >= 0
      requires d < |files| && d != f && inode.dirCluster in files[d].chain && inode.dirEntry * 32 + 64 <= clusterSize
      requires offset + |data| <= U32 * clusterSize
      modifies this`disk, fat, inode
      ensures Valid() && Volume(fat[..], files[f := File(inode.first, chain)]) && inode.first >= 0
      ensures ok <==>
                data == [] || (memory && CountFree(old(fat[..])) >= Wanted(files[f].chain, offset, |data|, clusterSize))
      ensures written == if ok then |data| else 0
      ensures memory && ok ==>
                CountFree(fat[..]) == CountFree(old(fat[..])) - Wanted(files[f].chain, offset, |data|, clusterSize)
      ensures memory && !ok ==> CountFree(fat[..]) == 0
      ensures Inside(files[f].chain, ClusterOf(offset, clusterSize)) ==>
                |chain| == |files[f].chain| + CountFree(old(fat[..])) - CountFree(fat[..])
      ensures !ok || data == [] ==> disk == old(disk) && inode.size == old(inode.size)
      ensures data == [] || !memory ==> fat[..] == old(fat[..]) && inode.first == old(inode.first)
      ensures data == [] || !memory ==> chain == files[f].chain
      ensures !ok && memory ==> NoneFree(fat[..])
      ensures !ok && memory ==>
                (files[f].chain <= chain <==> Harmless(old(fat[..]), files[f].chain, ClusterOf(offset, clusterSize)))
      ensures Inside(files[f].chain, ClusterOf(offset, clusterSize)) ==>
                Grown(old(fat[..]), fat[..], files[f].chain, chain)
      ensures ok && data != [] ==> WriteResult(old(disk), disk, clusterSize, files[f].chain, chain, offset, data)
      ensures ok && data != [] ==> inode.size == Max(old(inode.size), offset + |data|)
      ensures ok && data != [] ==> BitSet(old(fat[0]), fat[0])
      ensures !ok || data == [] ==> fat[0] == old(fat[0])
      ensures fat[1] == old(fat[1])
      ensures ok && data != [] ==> inode.dirCluster !in chain && Elsewhere(old(disk), disk, chain, inode.dirCluster)
      ensures ok && data != [] ==>
              EntryUpdated(old(disk), disk, inode.dirCluster, inode.dirEntry, old(inode.size), offset + |data|)
    {
      chain := files[f].chain;
      if |data| == 0 || !memory {
        assert files[f := File(inode.first, chain)] == files;
        return |data| == 0, 0, chain;
      }
      var k, at := Locate(offset);
      var last, _ := Locate(offset + |data| - 1);
      ClustersNeeded(offset, |data|, clusterSize);
      ok, chain := WriteSome(inode, k, at, last - k + 1, offset + |data|, data, files, f, d);
      written := if ok then |data| else 0;
    }

    /** A write followed by a read of the same range: the data comes back exactly when the
        write began inside the chain or in the first cluster. */
    method WriteThenRead(inode: Inode, offset: nat, data: seq<Byte>, memory: bool, ghost files: seq<File>, ghost f: nat,
                         ghost d: nat)
      returns (ok: bool, bytes: seq<Byte>)
      requires Valid() && Volume(fat[..], files) && f < |files| && files[f].first == inode.first >= 0
      requires d < |files| && d != f && inode.dirCluster in files[d].chain && inode.dirEntry * 32 + 64 <= clusterSize
      requires data != [] && offset + |data| <= U32 * clusterSize && inode.size <= U32 * clusterSize
      modifies this`disk, fat, inode
      ensures ok ==> (bytes == data <==> Inside(files[f].chain, ClusterOf(offset, clusterSize)))
    {
      bytes := [];
      ghost var size := inode.size;
      var written;
      ghost var chain;
      ok, written, chain := Write(inode, offset, data, memory, files, f, d);
      if ok {
        ReadBackIff(old(disk), disk, clusterSize, files[f].chain, chain, size, offset, data);
        assert IsChain(fat[..], inode.first, chain) by {
          ghost var files' := files[f := File(inode.first, chain)];
          assert files'[f] == File(inode.first, chain);
        }
        var _, read := Read(inode, offset, |data|, chain);
        bytes := read;
      }
    }

    ////// Runs

    /** The inodes of different files, and the volume that holds these. */
    ghost predicate Mounted(inodes: seq<Inode>, files: seq<File>, dirs: seq<nat>)
      reads this`disk, fat, inodes
    {
      Valid() && Distinct(inodes) && Holds(fat[..], disk, clusterSize, FieldsOf(inodes), files, dirs)
    }

    /** What a program sees of the files. */
    ghost function Seen(inodes: seq<Inode>, files: seq<File>): Files
      requires |inodes| <= |files|
      reads this`disk, fat, inodes
    {
      View(fat[..], disk, clusterSize, FieldsOf(inodes), files)
    }

    method WriteOne(inodes: seq<Inode>, i: nat, offset: nat, data: seq<Byte>, ghost files: seq<File>,
                    ghost dirs: seq<nat>)
      returns (ok: bool, ghost files': seq<File>)
      requires Mounted(inodes, files, dirs) && i < |inodes| && data != []
      requires BeginsInside(inodes[i].size, offset, clusterSize) && offset + |data| <= U32 * clusterSize
      modifies this`disk, fat, inodes
      ensures Mounted(inodes, files', dirs)
      ensures (Seen(inodes, files'), ok, [])
              == Step(old(Seen(inodes, files)), WriteFile(i, offset, data, true), clusterSize)
    {
      ghost var was := FieldsOf(inodes);
      assert OneFile(was[i], files[i], clusterSize) && Entered(was[i], files[dirs[i]], clusterSize);
      BeginsIsInside(files[i].chain, was[i].size, offset, clusterSize);
      var written;
      ghost var chain;
      ok, written, chain := Write(inodes[i], offset, data, true, files, i, dirs[i]);
      files' := files[i := File(inodes[i].first, chain)];
      assert FieldsOf(inodes) == was[i := FieldsOf(inodes)[i]];
      WriteIsStep(old(fat[..]), old(disk), fat[..], disk, clusterSize, was, files, dirs, i, FieldsOf(inodes)[i],
                  chain, offset, data, ok);
    }

    method ReadOne(inodes: seq<Inode>, i: nat, offset: nat, size: nat, ghost files: seq<File>, ghost dirs: seq<nat>)
      returns (ok: bool, bytes: seq<Byte>)
      requires Mounted(inodes, files, dirs) && i < |inodes|
      ensures (Seen(inodes, files), ok, bytes) == Step(Seen(inodes, files), ReadFile(i, offset, size), clusterSize)
    {
      ghost var fields := FieldsOf(inodes);
      assert OneFile(fields[i], files[i], clusterSize);
      ok, bytes := Read(inodes[i], offset, size, files[i].chain);
      ReadIsStep(fat[..], disk, clusterSize, fields, files, dirs, i, offset, size, ok, bytes);
    }

    /** One call of a run, by a caller that looks first where a write would begin. */
    method PerformFile(inodes: seq<Inode>, op: FileOp, ghost files: seq<File>, ghost dirs: seq<nat>)
      returns (ok: bool, bytes: seq<Byte>, ghost files': seq<File>)
      requires Mounted(inodes, files, dirs)
      modifies this`disk, fat, inodes
      ensures Mounted(inodes, files', dirs)
      ensures (Seen(inodes, files'), ok, bytes) == Step(old(Seen(inodes, files)), op, clusterSize)
    {
      ok, bytes, files' := false, [], files;
      AllowedIs(fat[..], disk, clusterSize, FieldsOf(inodes), files, dirs, op);
      if op.i < |inodes| {
        match op
        case ReadFile(i, offset, size) =>
          ok, bytes := ReadOne(inodes, i, offset, size, files, dirs);
        case WriteFile(i, offset, data, memory) =>
          if BeginsInside(inodes[i].size, offset, clusterSize) && offset + |data| <= U32 * clusterSize {
            if |data| == 0 || !memory {
              ok := |data| == 0;
            } else {
              ok, files' := WriteOne(inodes, i, offset, data, files, dirs);
            }
          }
      }
    }

    /** Over every run of reads, and of writes that begin inside their files, each file is a byte
        sequence, and every call returns what that says. */
    method RunFiles(inodes: seq<Inode>, ops: seq<FileOp>, ghost files: seq<File>, ghost dirs: seq<nat>)
      returns (oks: seq<bool>, answers: seq<seq<Byte>>, ghost files': seq<File>)
      requires Mounted(inodes, files, dirs)
      modifies this`disk, fat, inodes
      ensures Mounted(inodes, files', dirs)
      ensures (Seen(inodes, files'), oks, answers) == Replay(old(Seen(inodes, files)), ops, clusterSize)
      decreases |ops|
    {
      if ops == [] {
        return [], [], files;
      }
      var ok, bytes;
      ghost var next;
      ok, bytes, next := PerformFile(inodes, ops[0], files, dirs);
      oks, answers, files' := RunFiles(inodes, ops[1..], next, dirs);
      oks, answers := [ok] + oks, [bytes] + answers;
    }
  }

  ghost function FieldsOf(inodes: seq<Inode>): seq<Fields>
    reads inodes
  {
    seq(|inodes|, i requires 0 <= i < |inodes| reads inodes =>
      Fields(inodes[i].first, inodes[i].size, inodes[i].dirCluster, inodes[i].dirEntry))
  }

  /** The lowest bit is set, and the others are what they were: h is the number they make. */
  ghost predicate BitSet(was: int, now: int) {
    exists h :: SetAbove(was, now, h)
  }

  predicate SetAbove(was: int, now: int, h: int) {
    now == 2 * h + 1 && (was == 2 * h || was == 2 * h + 1)
  }

  lemma DirtySetsBit(flag: int)
    ensures BitSet(flag, Dirty(flag))
  {
    assert SetAbove(flag, Dirty(flag), flag / 2);
  }

  function Dirty(flag: int): int {
    if flag % 2 == 0 then flag + 1 else flag
  }
}
