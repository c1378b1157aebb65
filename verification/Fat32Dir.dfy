/**
  The FAT32 driver's directory operations on regular files with 8.3 names: the clusters of
  a directory are searched slot by slot and written back in place.
*/
module Fat32Dir {
  import opened Common
  import opened Fat32Name
  import opened Chains
  import opened Fat32Table
  import opened Fat32DirModel
  import opened Fat32Files
  import opened Fat32Alloc

  /** The inode of a directory. */
  class Directory {
    var first: int  // first_cluster
    ghost var chain: seq<int>
    ghost var index: map<Name, int>
    ghost var files: map<Name, seq<int>>

    /** The directory at a cluster; what is there is known to the proof only. */
    constructor (first: int, ghost chain: seq<int>, ghost index: map<Name, int>, ghost files: map<Name, seq<int>>)
      ensures Value() == Dir(first, chain, index, files)
    {
      this.first, this.chain, this.index, this.files := first, chain, index, files;
    }

    ghost function Value(): Dir
      reads this
    {
      Dir(first, chain, index, files)
    }

    ghost method Become(d: Dir)
      modifies this`chain, this`index, this`files
      ensures chain == d.chain && index == d.index && files == d.files
    {
      chain, index, files := d.chain, d.index, d.files;
    }
  }

  class Volume {
    const table: Allocator
    const slotsPerCluster: nat
    var disk: Disk

    constructor (table: Allocator, slotsPerCluster: nat, disk: Disk)
      ensures this.table == table && this.slotsPerCluster == slotsPerCluster && this.disk == disk
    {
      this.table, this.slotsPerCluster, this.disk := table, slotsPerCluster, disk;
    }

    ghost predicate Usable()
      reads this`disk, table, table.fat
    {
      table.Usable() && slotsPerCluster > 0 && table.fat.Length <= |disk| && Sized(disk, slotsPerCluster)
    }

    ghost predicate Holds(dir: Directory)
      reads this`disk, table.fat, dir
    {
      DirOk(table.fat[..], disk, slotsPerCluster, dir.Value())
    }

    ghost function Files(dir: Directory): map<Name, Entry>
      requires Holds(dir)
      reads this`disk, table.fat, dir
    {
      Contents(disk, slotsPerCluster, dir.Value())
    }

    /** The slots of one cluster, up to a match or the end mark. */
    method SearchCluster(cluster: int, name: Name) returns (r: Search, i: nat)
      requires 0 <= cluster < |disk| && forall j :: 0 <= j < |disk[cluster]| ==> |disk[cluster][j].name| == 11
      ensures Searched(disk[cluster], name, r, i)
    {
      i := 0;
      while i < |disk[cluster]|
        invariant i <= |disk[cluster]|
        invariant forall j :: 0 <= j < i ==> !IsEnd(disk[cluster][j]) && !Matches(disk[cluster][j], name)
      {
        var s := disk[cluster][i];
        if s.name[0] == 0 {
          return End, i;
        }
        if s.name[0] != DELETED && s.attr != LFN {
          var entryName := NameFromEntry(s.name);
          if CString(entryName) == name {
            return Hit, i;
          }
        }
        i := i + 1;
      }
      r := Miss;
    }

    /** fat32_lookup: a name is found exactly when it is in the map, with its first cluster
        and size, and with the cluster and slot of its entry. */
    method Lookup(dir: Directory, name: Name) returns (found: bool, entry: Entry, cluster: int, i: nat, ghost k: nat)
      requires Usable() && Holds(dir)
      ensures found <==> name in Files(dir)
      ensures found ==> entry == Files(dir)[name]
      ensures found ==> At(disk, slotsPerCluster, dir.Value(), name, k, i) && cluster == dir.chain[k]
      ensures found ==> Matches(disk[cluster][i], name) && Says(disk[cluster][i], entry)
    {
      found, cluster, i, k := SearchDirectory(dir.first, name, dir.Value());
      entry := Entry(0, 0, 0);
      if found {
        EntryAt(disk, slotsPerCluster, dir.Value(), name, k, i);
        entry := EntryOf(disk[cluster][i]);
      }
    }

    method SearchDirectory(first: int, name: Name, ghost d: Dir)
      returns (found: bool, cluster: int, i: nat, ghost k: nat)
      requires DirChain(table.fat[..], first, d.chain) && table.fat.Length <= MAX_ENTRIES
      requires Located(disk, slotsPerCluster, d)
      ensures found <==> name in d.index
      ensures found ==> At(disk, slotsPerCluster, d, name, k, i) && cluster == d.chain[k]
    {
      cluster, k := first, 0;
      ghost var m, chain := slotsPerCluster, d.chain;
      while cluster != 0 && cluster < EOC
        invariant k <= |chain| && cluster == WalkAt(chain, k) && PassedTo(disk, m, d, name, k)
        decreases |chain| - k
      {
        WalkEnds(table.fat[..], first, chain, k);
        ClusterSlots(disk, m, chain, k);
        var r;
        r, i := SearchCluster(cluster, name);
        ClusterSearched(disk, m, d, name, k, r, i);
        if r != Miss {
          return r == Hit, cluster, i, k;
        }
        cluster := table.NextCluster(cluster);
        k := k + 1;
      }
      WalkEnds(table.fat[..], first, chain, k);
      AllSearched(disk, m, d, name);
      return false, cluster, 0, k;
    }

    method SearchClusterFree(cluster: int) returns (found: bool, i: nat)
      requires 0 <= cluster < |disk| && forall j :: 0 <= j < |disk[cluster]| ==> |disk[cluster][j].name| == 11
      ensures SearchedFree(disk[cluster], found, i)
    {
      i := 0;
      while i < |disk[cluster]|
        invariant i <= |disk[cluster]| && forall j :: 0 <= j < i ==> !IsFree(disk[cluster][j])
      {
        if disk[cluster][i].name[0] == 0 || disk[cluster][i].name[0] == DELETED {
          return true, i;
        }
        i := i + 1;
      }
      found := false;
    }

    /** The search for a slot a new entry can go to. */
    method FindFreeSlot(first: int, ghost d: Dir) returns (found: bool, cluster: int, i: nat, ghost k: nat)
      requires DirChain(table.fat[..], first, d.chain) && table.fat.Length <= MAX_ENTRIES
      requires Located(disk, slotsPerCluster, d)
      ensures found ==> FreeAt(disk, slotsPerCluster, d.chain, k, i) && cluster == d.chain[k]
      ensures !found ==> NoFreeSlot(Data(disk, slotsPerCluster, d.chain))
    {
      cluster, k := first, 0;
      ghost var m, chain := slotsPerCluster, d.chain;
      while cluster != 0 && cluster < EOC
        invariant k <= |chain| && cluster == WalkAt(chain, k) && UsedTo(disk, m, chain, k)
        decreases |chain| - k
      {
        WalkEnds(table.fat[..], first, chain, k);
        ClusterSlots(disk, m, chain, k);
        found, i := SearchClusterFree(cluster);
        ClusterSearchedFree(disk, m, chain, k, found, i);
        if found {
          return;
        }
        cluster := table.NextCluster(cluster);
        k := k + 1;
      }
      WalkEnds(table.fat[..], first, chain, k);
      return false, cluster, 0, k;
    }

    /** The last cluster of a directory. */
    method LastCluster(first: int, ghost chain: seq<int>) returns (last: int)
      requires DirChain(table.fat[..], first, chain) && table.fat.Length <= MAX_ENTRIES && chain != []
      ensures last == chain[|chain| - 1]
    {
      last := first;
      ghost var k := 0;
      WalkEnds(table.fat[..], first, chain, 0);
      var next := table.NextCluster(last);
      while next != 0 && next < EOC
        invariant k < |chain| && last == chain[k] && next == WalkAt(chain, k + 1)
        decreases |chain| - k
      {
        WalkEnds(table.fat[..], first, chain, k + 1);
        last := next;
        next := table.NextCluster(last);
        k := k + 1;
      }
      WalkEnds(table.fat[..], first, chain, k + 1);
    }

    /** One more cluster for a directory, or 0. */
    method GrowDirectory(dir: Directory) returns (c: int)
      requires table.Usable() && DirChain(table.fat[..], dir.first, dir.chain)
      modifies table, table.fat, dir`first
      ensures table.Usable() && Drift(table.State()) == old(Drift(table.State()))
      ensures c == 0 <==> CountFree(old(table.fat[..])) == 0
      ensures c == 0 ==> table.State() == old(table.State()) && dir.first == old(dir.first)
      ensures c != 0 ==> InRange(old(table.fat[..]), c) && old(table.fat[..])[c] == FREE
      ensures c != 0 ==> table.fat[..] == Attach(old(table.fat[..])[c := EOC], dir.chain, c)
      ensures c != 0 ==> CountFree(table.fat[..]) == CountFree(old(table.fat[..])) - 1
      ensures c != 0 ==> dir.first == if dir.chain == [] then c else old(dir.first)
    {
      ghost var before := table.fat[..];
      TakeIsExact(table.State());
      c := table.AllocCluster();
      if c == 0 {
        return;
      }
      if dir.first == 0 {
        dir.first := c;
      } else {
        DirChainSame(before, before[c := EOC], dir.first, dir.chain);
        var last := LastCluster(dir.first, dir.chain);
        CountUpdate(before[c := EOC], last, c);
        table.fat[last] := c;
      }
    }

    /** A new entry in a slot of the directory that is free. */
    method PutInSlot(dir: Directory, s: Slot, name: Name, cluster: int, i: nat, ghost k: nat, ghost file: seq<int>)
      requires Usable() && Holds(dir) && name !in dir.index && Matches(s, name) && !IsDirectory(s)
      requires Joins(table.fat[..], dir.Value(), s.first, file)
      requires FreeAt(disk, slotsPerCluster, dir.chain, k, i) && cluster == dir.chain[k]
      modifies this`disk, dir`chain, dir`index, dir`files
      ensures Usable() && dir.chain == old(dir.chain)
      ensures Added(table.fat[..], table.fat[..], old(disk), disk, slotsPerCluster, old(dir.Value()), dir.Value(), name,
                    EntryOf(s), file)
    {
      ghost var d, m := dir.Value(), slotsPerCluster;
      ghost var d' := d.(index := d.index[name := Position(disk, m, d.chain, k, i)], files := d.files[name := file]);
      disk := SetSlot(disk, cluster, i, s);
      PutAdds(table.fat[..], old(disk), disk, m, d, name, s, file, k, i);
      dir.Become(d');
    }

    /** A new entry in a new cluster, when every slot is in use. */
    method PutInNewCluster(dir: Directory, s: Slot, name: Name, ghost file: seq<int>) returns (ok: bool)
      requires Usable() && Holds(dir) && name !in dir.index && Matches(s, name) && !IsDirectory(s)
      requires Joins(table.fat[..], dir.Value(), s.first, file)
      requires NoFreeSlot(Data(disk, slotsPerCluster, dir.chain))
      modifies this`disk, table, table.fat, dir
      ensures Usable() && Drift(table.State()) == old(Drift(table.State()))
      ensures ok <==> CountFree(old(table.fat[..])) > 0
      ensures ok ==> |dir.chain| == |old(dir.chain)| + 1
      ensures ok ==> CountFree(table.fat[..]) == CountFree(old(table.fat[..])) - 1
      ensures !ok ==> table.State() == old(table.State()) && disk == old(disk) && dir.Value() == old(dir.Value())
      ensures ok ==>
              Added(old(table.fat[..]), table.fat[..], old(disk), disk, slotsPerCluster, old(dir.Value()), dir.Value(),
                    name, EntryOf(s), file)
    {
      ghost var d, fat := dir.Value(), table.fat[..];
      var c := GrowDirectory(dir);
      ok := c != 0;
      if ok {
        FillCluster(dir, c, s, name, fat, d, file);
      }
    }

    /** The new cluster: the entry, and nothing behind it. */
    method FillCluster(dir: Directory, c: int, s: Slot, name: Name, ghost fat: seq<int>, ghost d: Dir,
                       ghost file: seq<int>)
      requires slotsPerCluster > 0 && Sized(disk, slotsPerCluster)
      requires InRange(fat, c) && fat[c] == FREE && c < |disk| && |fat| <= MAX_ENTRIES
      requires DirOk(fat, disk, slotsPerCluster, d) && name !in d.index
      requires Matches(s, name) && !IsDirectory(s) && Joins(fat, d, s.first, file)
      requires NoFreeSlot(Data(disk, slotsPerCluster, d.chain))
      requires table.fat[..] == Attach(fat[c := EOC], d.chain, c) && dir.first == if d.chain == [] then c else d.first
      modifies this`disk, dir`chain, dir`index, dir`files
      ensures |disk| == |old(disk)| && Sized(disk, slotsPerCluster) && |dir.chain| == |d.chain| + 1
      ensures Added(fat, table.fat[..], old(disk), disk, slotsPerCluster, d, dir.Value(), name, EntryOf(s), file)
    {
      ghost var p := |Data(disk, slotsPerCluster, d.chain)|;
      var cluster := [s] + seq(slotsPerCluster - 1, _ => EMPTY);
      disk := disk[c := cluster];
      ExtendAdds(fat, table.fat[..], old(disk), disk, slotsPerCluster, d, name, s, file, c, cluster);
      dir.Become(Extended(d, c, name, p, file));
      assert dir.Value() == Extended(d, c, name, p, file);
    }

    /** A new entry: in the first free slot, or in a new cluster. */
    method Insert(dir: Directory, s: Slot, name: Name, ghost file: seq<int>) returns (ok: bool)
      requires Usable() && Holds(dir) && name !in dir.index && Matches(s, name) && !IsDirectory(s)
      requires Joins(table.fat[..], dir.Value(), s.first, file)
      modifies this`disk, table, table.fat, dir
      ensures Usable() && Drift(table.State()) == old(Drift(table.State()))
      ensures ok <==> !NoFreeSlot(Data(old(disk), slotsPerCluster, old(dir.chain))) || CountFree(old(table.fat[..])) > 0
      ensures ok ==> TakesSlot(old(table.fat[..]), old(disk), slotsPerCluster, old(dir.Value()), table.fat[..],
                               dir.Value())
      ensures !ok ==> table.State() == old(table.State()) && disk == old(disk) && dir.Value() == old(dir.Value())
      ensures ok ==>
              Added(old(table.fat[..]), table.fat[..], old(disk), disk, slotsPerCluster, old(dir.Value()), dir.Value(),
                    name, EntryOf(s), file)
    {
      var found, cluster, i;
      ghost var k;
      found, cluster, i, k := FindFreeSlot(dir.first, dir.Value());
      if found {
        PutInSlot(dir, s, name, cluster, i, k, file);
        ok := true;
      } else {
        ok := PutInNewCluster(dir, s, name, file);
      }
    }

    /** The entry of a name is marked deleted. */
    method Mark(dir: Directory, name: Name, cluster: int, i: nat, ghost k: nat)
      requires Usable() && Holds(dir) && At(disk, slotsPerCluster, dir.Value(), name, k, i) && cluster == dir.chain[k]
      requires |disk[cluster][i].name| == 11
      modifies this`disk, dir`index, dir`files
      ensures Usable() && disk == SetSlot(old(disk), cluster, i, Tomb(old(disk)[cluster][i]))
      ensures Removed(table.fat[..], table.fat[..], old(disk), disk, slotsPerCluster, old(dir.Value()), dir.Value(),
                      name)
    {
      ghost var d := dir.Value();
      disk := SetSlot(disk, cluster, i, Tomb(disk[cluster][i]));
      MarkRemoves(table.fat[..], old(disk), disk, slotsPerCluster, d, name, k, i);
      dir.index, dir.files := dir.index - {name}, dir.files - {name};
    }

    /** fat32_create, of a regular file. */
    method Create(dir: Directory, name: Name) returns (ok: bool)
      requires Usable() && Holds(dir) && FileName(name)
      modifies this`disk, table, table.fat, dir
      ensures Usable() && Holds(dir) && Drift(table.State()) == old(Drift(table.State()))
      ensures !ok ==> table.State() == old(table.State()) && disk == old(disk) && dir.Value() == old(dir.Value())
      ensures ok <==> name !in old(dir.index) &&
                      (!NoFreeSlot(Data(old(disk), slotsPerCluster, old(dir.chain))) ||
                       CountFree(old(table.fat[..])) > 0)
      ensures ok ==> TakesSlot(old(table.fat[..]), old(disk), slotsPerCluster, old(dir.Value()), table.fat[..],
                               dir.Value())
      ensures ok ==>
              Added(old(table.fat[..]), table.fat[..], old(disk), disk, slotsPerCluster, old(dir.Value()), dir.Value(),
                    name, Entry(ARCHIVE, 0, 0), [])
    {
      var exists', entry, cluster, i;
      ghost var k;
      exists', entry, cluster, i, k := Lookup(dir, name);
      if exists' {
        return false;
      }
      var shortName := NameToEntry(name);
      var s := Slot(shortName, ARCHIVE, 0, 0);
      EncodedIsFound(name, s);
      assert ChainFrom(table.fat[..], 0, []);
      ok := Insert(dir, s, name, []);
    }

    /** The clusters of a file are released and its entry is marked deleted. */
    method Erase(dir: Directory, name: Name, cluster: int, i: nat, ghost k: nat)
      requires Usable() && Holds(dir) && At(disk, slotsPerCluster, dir.Value(), name, k, i) && cluster == dir.chain[k]
      requires name in dir.files
      modifies this`disk, table, table.fat, dir`index, dir`files
      ensures Usable() && Drift(table.State()) == old(Drift(table.State()))
      ensures Removed(old(table.fat[..]), table.fat[..], old(disk), disk, slotsPerCluster, old(dir.Value()),
                      dir.Value(), name)
      ensures Freed(old(table.fat[..]), table.fat[..], old(dir.files)[name])
      ensures CountFree(table.fat[..]) == CountFree(old(table.fat[..])) + |old(dir.files)[name]|
    {
      ghost var before, d := table.State(), dir.Value();
      EntryAt(disk, slotsPerCluster, d, name, k, i);
      var s := disk[cluster][i];
      ReleaseAndMark(s, cluster, i);
      Drop(dir, name);
      UnlinkRemoves(before, table.State(), old(disk), disk, slotsPerCluster, d, dir.Value(), name, k, i, s);
    }

    method ReleaseAndMark(s: Slot, cluster: int, i: nat)
      requires Usable() && 0 <= cluster < |disk| && i < |disk[cluster]| && |s.name| == 11
      modifies this`disk, table, table.fat
      ensures Usable() && table.State() == Release(old(table.State()), s.first)
      ensures disk == SetSlot(old(disk), cluster, i, Tomb(s))
    {
      ReleaseFile(s.first);
      disk := SetSlot(disk, cluster, i, Tomb(s));
    }

    ghost method Drop(dir: Directory, name: Name)
      modifies dir`index, dir`files
      ensures dir.Value() == Without(old(dir.Value()), name)
    {
      dir.index, dir.files := dir.index - {name}, dir.files - {name};
    }

    method ReleaseFile(first: int)
      requires table.Usable()
      modifies table, table.fat
      ensures table.Usable() && table.State() == Release(old(table.State()), first)
    {
      if first != 0 {
        table.FreeClusterChain(first);
      }
    }

    /** fat32_unlink, of a regular file. */
    method Unlink(dir: Directory, name: Name) returns (ok: bool)
      requires Usable() && Holds(dir) && (name in Files(dir) ==> !Files(dir)[name].IsDir())
      modifies this`disk, table, table.fat, dir`index, dir`files
      ensures Usable() && Holds(dir) && Drift(table.State()) == old(Drift(table.State()))
      ensures ok <==> name in old(dir.index)
      ensures !ok ==> table.State() == old(table.State()) && disk == old(disk) && dir.Value() == old(dir.Value())
      ensures ok ==>
              Removed(old(table.fat[..]), table.fat[..], old(disk), disk, slotsPerCluster, old(dir.Value()),
                      dir.Value(), name)
      ensures ok ==> name in old(dir.files) && Freed(old(table.fat[..]), table.fat[..], old(dir.files)[name])
      ensures ok ==> CountFree(table.fat[..]) == CountFree(old(table.fat[..])) + |old(dir.files)[name]|
    {
      var entry, cluster, i;
      ghost var k;
      ok, entry, cluster, i, k := Lookup(dir, name);
      if ok {
        Erase(dir, name, cluster, i, k);
      }
    }

    /** The entry marked deleted, and the entry it is to become. */
    method TakeOut(dir: Directory, oldName: Name, newName: Name, cluster: int, i: nat, ghost k: nat) returns (s: Slot)
      requires Usable() && Holds(dir) && FileName(newName) && oldName in dir.files
      requires At(disk, slotsPerCluster, dir.Value(), oldName, k, i) && cluster == dir.chain[k]
      modifies this`disk, dir`index, dir`files
      ensures Usable() && |old(disk)[cluster][i].name| == 11
      ensures disk == SetSlot(old(disk), cluster, i, Tomb(old(disk)[cluster][i]))
      ensures Removed(table.fat[..], table.fat[..], old(disk), disk, slotsPerCluster, old(dir.Value()), dir.Value(),
                      oldName)
      ensures Matches(s, newName) && oldName in old(Files(dir)) && EntryOf(s) == old(Files(dir))[oldName]
      ensures Joins(table.fat[..], dir.Value(), s.first, old(dir.files)[oldName])
      ensures !NoFreeSlot(Data(disk, slotsPerCluster, dir.chain))
    {
      EntryAt(disk, slotsPerCluster, dir.Value(), oldName, k, i);
      RemovedJoins(table.fat[..], disk, slotsPerCluster, dir.Value(), oldName);
      s := disk[cluster][i];
      Mark(dir, oldName, cluster, i, k);
      MarkedIsFree(disk, slotsPerCluster, dir.chain, k, i);
      var shortName := NameToEntry(newName);
      s := s.(name := shortName);
      EncodedIsFound(newName, s);
    }

    /** The renaming of an entry within its directory. The new entry always finds room,
        because the old slot is free again. */
    method RenameEntry(dir: Directory, oldName: Name, newName: Name, cluster: int, i: nat, ghost k: nat)
      requires Usable() && Holds(dir) && FileName(newName) && (newName !in dir.index || newName == oldName)
      requires At(disk, slotsPerCluster, dir.Value(), oldName, k, i) && cluster == dir.chain[k] && oldName in dir.files
      modifies this`disk, table, table.fat, dir
      ensures Usable() && Drift(table.State()) == old(Drift(table.State()))
      ensures Renamed(old(table.fat[..]), table.fat[..], old(disk), disk, slotsPerCluster, old(dir.Value()),
                      dir.Value(), oldName, newName)
      ensures |dir.chain| == |old(dir.chain)| && CountFree(table.fat[..]) == CountFree(old(table.fat[..]))
    {
      ghost var fat, d := table.fat[..], dir.Value();
      var s := TakeOut(dir, oldName, newName, cluster, i, k);
      ghost var disk1, d1 := disk, dir.Value();
      var ok := Insert(dir, s, newName, d.files[oldName]);
      RenamedInPlace(fat, table.fat[..], old(disk), disk1, disk, slotsPerCluster, d, d1, dir.Value(), oldName, newName);
    }

    /** fat32_rename, of a regular file, within one directory. */
    method Rename(dir: Directory, oldName: Name, newName: Name) returns (ok: bool)
      requires Usable() && Holds(dir) && FileName(newName) && (newName !in dir.index || newName == oldName)
      requires oldName in Files(dir) ==> !Files(dir)[oldName].IsDir()
      modifies this`disk, table, table.fat, dir
      ensures Usable() && Holds(dir) && Drift(table.State()) == old(Drift(table.State()))
      ensures ok <==> oldName in old(dir.index)
      ensures !ok ==> table.State() == old(table.State()) && disk == old(disk) && dir.Value() == old(dir.Value())
      ensures ok ==>
              Renamed(old(table.fat[..]), table.fat[..], old(disk), disk, slotsPerCluster, old(dir.Value()),
                      dir.Value(), oldName, newName)
      ensures |dir.chain| == |old(dir.chain)| && CountFree(table.fat[..]) == CountFree(old(table.fat[..]))
      ensures ok ==> Carried(old(disk), disk, slotsPerCluster, old(dir.Value()), dir.Value(), oldName, newName)
    {
      ghost var d := dir.Value();
      var entry, cluster, i;
      ghost var k;
      ok, entry, cluster, i, k := Lookup(dir, oldName);
      if ok {
        RenameEntry(dir, oldName, newName, cluster, i, k);
        CarriedIs(old(disk), disk, slotsPerCluster, d, dir.Value(), oldName, newName);
      }
    }

    /** The entry taken out of one directory, for another one that shares nothing with it. */
    method TakeOutFor(oldDir: Directory, oldName: Name, newDir: Directory, newName: Name, cluster: int, i: nat,
                      ghost k: nat)
      returns (s: Slot)
      requires Usable() && Holds(oldDir) && Holds(newDir) && FileName(newName) && oldName in oldDir.files
      requires oldDir != newDir && Apart(oldDir.Value(), newDir.Value())
      requires At(disk, slotsPerCluster, oldDir.Value(), oldName, k, i) && cluster == oldDir.chain[k]
      modifies this`disk, oldDir`index, oldDir`files
      ensures Usable() && Matches(s, newName)
      ensures Marked(old(disk), disk, cluster, i)
      ensures Joins(table.fat[..], newDir.Value(), s.first, old(oldDir.files)[oldName])
      ensures TakenOut(table.fat[..], old(disk), disk, slotsPerCluster, old(oldDir.Value()), oldDir.Value(),
                       newDir.Value(), oldName, s)
    {
      s := TakeOut(oldDir, oldName, newName, cluster, i, k);
      ReadyToReceive(table.fat[..], old(disk), disk, slotsPerCluster, old(oldDir.Value()), oldDir.Value(),
                     newDir.Value(), oldName, s.first);
    }

    /** The rollback: the saved entry is written back to its slot. */
    method PutBack(dir: Directory, saved: Slot, cluster: int, i: nat, ghost before: Disk, ghost d: Dir)
      requires Usable() && Marked(before, disk, cluster, i) && saved == before[cluster][i]
      requires dir.first == d.first && dir.chain == d.chain
      modifies this`disk, dir`index, dir`files
      ensures Usable() && disk == before && dir.Value() == d && table.State() == old(table.State())
    {
      Restored(before, cluster, i, saved);
      disk := SetSlot(disk, cluster, i, saved);
      dir.index, dir.files := d.index, d.files;
    }

    /** The entry put into the other directory, if there is room for it. */
    method InsertTaken(oldName: Name, newDir: Directory, newName: Name, s: Slot, ghost before: Disk, ghost d: Dir,
                       ghost d': Dir)
      returns (ok: bool)
      requires Usable() && newName !in newDir.index && Matches(s, newName)
      requires TakenOut(table.fat[..], before, disk, slotsPerCluster, d, d', newDir.Value(), oldName, s)
      requires Joins(table.fat[..], newDir.Value(), s.first, d.files[oldName])
      modifies this`disk, table, table.fat, newDir
      ensures Usable() && (ok ==> Drift(table.State()) == old(Drift(table.State())))
      ensures !ok ==> table.State() == old(table.State()) && disk == old(disk) && newDir.Value() == old(newDir.Value())
      ensures !ok ==> Full(old(table.fat[..]), before, slotsPerCluster, old(newDir.Value()))
      ensures ok ==>
              Moved(old(table.fat[..]), table.fat[..], before, disk, slotsPerCluster, d, d', old(newDir.Value()),
                    newDir.Value(), oldName, newName)
    {
      TakenOutFacts(table.fat[..], before, disk, slotsPerCluster, d, d', newDir.Value(), oldName, s);
      ok := Insert(newDir, s, newName, d.files[oldName]);
      if ok {
        MovedAcross(old(table.fat[..]), table.fat[..], before, old(disk), disk, slotsPerCluster,
                    d, d', old(newDir.Value()), newDir.Value(), oldName, newName, s);
      }
    }

    /** The entry put into the other directory, or back where it was when that one is full. */
    method Deliver(oldDir: Directory, oldName: Name, newDir: Directory, newName: Name, s: Slot, saved: Slot,
                   cluster: int, i: nat, ghost before: Disk, ghost d: Dir)
      returns (ok: bool)
      requires Usable() && oldDir != newDir && newName !in newDir.index && Matches(s, newName)
      requires TakenOut(table.fat[..], before, disk, slotsPerCluster, d, oldDir.Value(), newDir.Value(), oldName, s)
      requires Joins(table.fat[..], newDir.Value(), s.first, d.files[oldName])
      requires Marked(before, disk, cluster, i) && saved == before[cluster][i]
      modifies this`disk, table, table.fat, oldDir`index, oldDir`files, newDir
      ensures Usable() && (ok ==> Drift(table.State()) == old(Drift(table.State())))
      ensures !ok ==> table.State() == old(table.State()) && disk == before
      ensures !ok ==> oldDir.Value() == d && newDir.Value() == old(newDir.Value())
      ensures !ok ==> Full(old(table.fat[..]), before, slotsPerCluster, old(newDir.Value()))
      ensures ok ==>
              Moved(old(table.fat[..]), table.fat[..], before, disk, slotsPerCluster, d, oldDir.Value(),
                    old(newDir.Value()), newDir.Value(), oldName, newName)
    {
      ok := InsertTaken(oldName, newDir, newName, s, before, d, oldDir.Value());
      if !ok {
        PutBack(oldDir, saved, cluster, i, before, d);
      }
    }

    /** fat32_rename, of a regular file, to another directory. */
    method Move(oldDir: Directory, oldName: Name, newDir: Directory, newName: Name) returns (ok: bool)
      requires Usable() && Holds(oldDir) && Holds(newDir) && FileName(newName) && newName !in newDir.index
      requires oldName in Files(oldDir) ==> !Files(oldDir)[oldName].IsDir()
      requires oldDir != newDir && Apart(oldDir.Value(), newDir.Value())
      modifies this`disk, table, table.fat, oldDir`index, oldDir`files, newDir
      ensures Usable() && (ok ==> Drift(table.State()) == old(Drift(table.State())))
      ensures !ok ==> table.State() == old(table.State()) && disk == old(disk)
      ensures !ok ==> oldDir.Value() == old(oldDir.Value()) && newDir.Value() == old(newDir.Value())
      ensures !ok ==>
                oldName !in oldDir.index || Full(old(table.fat[..]), old(disk), slotsPerCluster, old(newDir.Value()))
      ensures ok ==> Moved(old(table.fat[..]), table.fat[..], old(disk), disk, slotsPerCluster,
                           old(oldDir.Value()), oldDir.Value(), old(newDir.Value()), newDir.Value(), oldName, newName)
      ensures ok ==>
                Carried(old(disk), disk, slotsPerCluster, old(oldDir.Value()), newDir.Value(), oldName, newName)
    {
      var entry, cluster, i;
      ghost var k;
      ok, entry, cluster, i, k := Lookup(oldDir, oldName);
      if ok {
        ghost var d := oldDir.Value();
        var saved := disk[cluster][i];
        var s := TakeOutFor(oldDir, oldName, newDir, newName, cluster, i, k);
        ok := Deliver(oldDir, oldName, newDir, newName, s, saved, cluster, i, old(disk), d);
        if ok {
          CarriedIs(old(disk), disk, slotsPerCluster, d, newDir.Value(), oldName, newName);
        }
      }
    }

    ////// Runs

    ghost predicate Ready(dir: Directory)
      reads this`disk, table, table.fat, dir
    {
      Usable() && Holds(dir)
    }

    /** What a program sees of a directory. */
    ghost function Seen(dir: Directory): DirState
      requires Ready(dir)
      reads this`disk, table, table.fat, dir
    {
      View(table.fat[..], disk, slotsPerCluster, dir.Value())
    }

    method CreateOne(dir: Directory, name: Name) returns (ok: bool)
      requires Ready(dir) && FileName(name)
      modifies this`disk, table, table.fat, dir
      ensures Ready(dir) && Drift(table.State()) == old(Drift(table.State()))
      ensures (Seen(dir), ok) == Step(old(Seen(dir)), CreateFile(name), slotsPerCluster)
    {
      ghost var fat, d := table.fat[..], dir.Value();
      ok := Create(dir, name);
      if ok {
        AddedMap(fat, table.fat[..], old(disk), disk, slotsPerCluster, d, dir.Value(), name, Entry(ARCHIVE, 0, 0), []);
        CreateIsStep(fat, table.fat[..], old(disk), disk, slotsPerCluster, d, dir.Value(), name);
      } else {
        FileIs(fat, disk, slotsPerCluster, d, name);
        CreateFails(fat, disk, slotsPerCluster, d, name);
      }
    }

    /** An unlink by a caller that looks first whether the name is a regular file's. */
    method UnlinkOne(dir: Directory, name: Name) returns (ok: bool)
      requires Ready(dir)
      modifies this`disk, table, table.fat, dir
      ensures Ready(dir) && Drift(table.State()) == old(Drift(table.State()))
      ensures (Seen(dir), ok) == Step(old(Seen(dir)), UnlinkFile(name), slotsPerCluster)
    {
      ghost var fat, d := table.fat[..], dir.Value();
      var found, entry, _, _, _ := Lookup(dir, name);
      FileIs(fat, disk, slotsPerCluster, d, name);
      ok := false;
      if found && !entry.IsDir() {
        ok := Unlink(dir, name);
        RemovedMap(fat, table.fat[..], old(disk), disk, slotsPerCluster, d, dir.Value(), name);
        UnlinkIsStep(fat, table.fat[..], old(disk), disk, slotsPerCluster, d, dir.Value(), name);
      }
    }

    /** A renaming by a caller that looks first whether the old name is a regular file's and
        the new one is unused. */
    method RenameOne(dir: Directory, from: Name, to: Name) returns (ok: bool)
      requires Ready(dir) && FileName(to)
      modifies this`disk, table, table.fat, dir
      ensures Ready(dir) && Drift(table.State()) == old(Drift(table.State()))
      ensures (Seen(dir), ok) == Step(old(Seen(dir)), RenameFile(from, to), slotsPerCluster)
    {
      ghost var fat, d := table.fat[..], dir.Value();
      var found, entry, _, _, _ := Lookup(dir, from);
      var used, _, _, _, _ := Lookup(dir, to);
      FileIs(fat, disk, slotsPerCluster, d, from);
      FileIs(fat, disk, slotsPerCluster, d, to);
      ok := false;
      if found && !entry.IsDir() && (!used || to == from) {
        ok := Rename(dir, from, to);
        RenamedMap(fat, table.fat[..], old(disk), disk, slotsPerCluster, d, dir.Value(), from, to);
        RenameIsStep(fat, table.fat[..], old(disk), disk, slotsPerCluster, d, dir.Value(), from, to);
      }
    }

    /** One operation of a run. */
    method Perform(dir: Directory, op: DirOp) returns (ok: bool)
      requires Ready(dir) && ProperName(op)
      modifies this`disk, table, table.fat, dir
      ensures Ready(dir) && Drift(table.State()) == old(Drift(table.State()))
      ensures (Seen(dir), ok) == Step(old(Seen(dir)), op, slotsPerCluster)
    {
      match op
      case CreateFile(name) =>
        ok := CreateOne(dir, name);
      case UnlinkFile(name) =>
        ok := UnlinkOne(dir, name);
      case RenameFile(from, to) =>
        ok := RenameOne(dir, from, to);
    }

    /** Over every run of create, unlink and rename the directory is the map, each call succeeds
        or fails as the map and the room left say, and the free count stays in step with the table. */
    method Run(dir: Directory, ops: seq<DirOp>) returns (oks: seq<bool>)
      requires Ready(dir) && forall i :: 0 <= i < |ops| ==> ProperName(ops[i])
      modifies this`disk, table, table.fat, dir
      ensures Ready(dir) && Drift(table.State()) == old(Drift(table.State()))
      ensures (Seen(dir), oks) == Replay(old(Seen(dir)), ops, slotsPerCluster)
      decreases |ops|
    {
      if ops == [] {
        return [];
      }
      var ok := Perform(dir, ops[0]);
      oks := Run(dir, ops[1..]);
      oks := [ok] + oks;
    }
  }
}
