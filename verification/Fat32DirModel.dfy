/**
  A FAT32 directory as values: 32-byte slots over a chain of clusters, some live, some
  deleted, and an end mark; what it means is a finite map from names to files.
*/
module Fat32DirModel {
  import opened Common
  import opened Chains
  import opened Fat32Name
  import opened Fat32Table

  const DELETED := 0xE5
  const LFN := 0x0F
  const ARCHIVE := 0x20

  /** The fields of a directory entry that a file is found by. */
  datatype Slot = Slot(name: Name, attr: int, first: int, size: int)

  const NO_NAME: Name := [0, 0, 0, 0, 0, 0, 0, 0, 0, 0, 0]
  const EMPTY := Slot(NO_NAME, 0, 0, 0)

  /** attr & FAT_ATTR_DIRECTORY */
  predicate IsDirectory(s: Slot) {
    s.attr / 16 % 2 == 1
  }

  predicate IsEnd(s: Slot) {
    |s.name| == 11 && s.name[0] == 0
  }

  predicate IsFree(s: Slot) {
    |s.name| == 11 && (s.name[0] == 0 || s.name[0] == DELETED)
  }

  predicate IsLive(s: Slot) {
    |s.name| == 11 && s.name[0] != 0 && s.name[0] != DELETED && s.attr != LFN
  }

  /** What a C string comparison sees of a buffer. */
  function CString(buffer: Name): Name {
    if buffer == [] || buffer[0] == 0 then [] else [buffer[0]] + CString(buffer[1..])
  }

  lemma {:induction false} CStringOf(name: Name)
    requires Lacks(name, 0)
    ensures CString(name) == name
  {
    if name != [] {
      CStringOf(name[1..]);
    }
  }

  function NameOf(s: Slot): Name
    requires |s.name| == 11
  {
    CString(Decode(s.name))
  }

  predicate Matches(s: Slot, name: Name) {
    IsLive(s) && NameOf(s) == name
  }

  function Tomb(s: Slot): Slot
    requires |s.name| == 11
  {
    s.(name := s.name[0 := DELETED])
  }

  /** Names a file can be found by again. */
  predicate FileName(name: Name) {
    Canonical(name) && Lacks(name, 0) && name != [] && name[0] != DELETED
  }

  lemma EncodedIsFound(name: Name, s: Slot)
    requires FileName(name) && s.name == Encode(name) && s.attr != LFN
    ensures Matches(s, name)
  {
    CanonicalRoundTrip(name);
    CStringOf(name);
    assert s.name[0] == EntryByte(name, 0);
  }

  ////// The map

  /** `index` says which slot each name is in. */
  ghost predicate Represents(slots: seq<Slot>, index: map<Name, int>) {
    && (forall i :: 0 <= i < |slots| ==> |slots[i].name| == 11 && slots[i].attr != LFN)
    && (forall n :: n in index ==> 0 <= index[n] < |slots| && Matches(slots[index[n]], n))
    && (forall i :: 0 <= i < |slots| && IsLive(slots[i]) ==> NameOf(slots[i]) in index && index[NameOf(slots[i])] == i)
    && (forall i, j :: 0 <= i < j < |slots| && IsEnd(slots[i]) ==> IsEnd(slots[j]))
  }

  /** What a lookup makes of an entry: its attributes, the first cluster and the size. */
  datatype Entry = Entry(attr: int, first: int, size: int) {
    /** It is a directory rather than a regular file. */
    predicate IsDir() {
      attr / 16 % 2 == 1
    }
  }

  function EntryOf(s: Slot): Entry {
    Entry(s.attr, s.first, s.size)
  }

  /** The files of the directory. */
  ghost function Files(slots: seq<Slot>, index: map<Name, int>): map<Name, Entry>
    requires Represents(slots, index)
  {
    map n | n in index :: EntryOf(slots[index[n]])
  }

  /** The search has passed p slots: no match and no end mark among them. */
  ghost predicate Passed(slots: seq<Slot>, name: Name, p: nat) {
    p <= |slots| && forall i :: 0 <= i < p ==> !IsEnd(slots[i]) && !Matches(slots[i], name)
  }

  /** A match is the one slot of that name, and the end mark means there is none. */
  lemma SearchIsExact(slots: seq<Slot>, index: map<Name, int>, name: Name, p: nat)
    requires Represents(slots, index) && Passed(slots, name, p)
    ensures p < |slots| && Matches(slots[p], name) ==> name in index && index[name] == p
    ensures p == |slots| || IsEnd(slots[p]) ==> name !in index
  {
    if (p == |slots| || IsEnd(slots[p])) && name in index {
      var i := index[name];
      assert Matches(slots[i], name);
      assert i > p ==> IsEnd(slots[i]);
    }
  }

  /** p is the first slot that can be used for a new entry. */
  ghost predicate FirstFree(slots: seq<Slot>, p: nat) {
    p < |slots| && IsFree(slots[p]) && forall i :: 0 <= i < p ==> !IsFree(slots[i])
  }

  lemma AddKeepsSlots(slots: seq<Slot>, index: map<Name, int>, p: nat, name: Name, s: Slot)
    requires Represents(slots, index) && FirstFree(slots, p) && name !in index && Matches(s, name)
    ensures Represents(slots[p := s], index[name := p])
  {
    var slots', index' := slots[p := s], index[name := p];
    forall n | n in index'
      ensures 0 <= index'[n] < |slots'| && Matches(slots'[index'[n]], n)
    {
      assert n != name ==> Matches(slots[index[n]], n);
    }
    forall i | 0 <= i < |slots'| && IsLive(slots'[i])
      ensures NameOf(slots'[i]) in index' && index'[NameOf(slots'[i])] == i
    {
      assert i != p ==> slots'[i] == slots[i];
    }
  }

  lemma AddEntry(slots: seq<Slot>, index: map<Name, int>, p: nat, name: Name, s: Slot)
    requires Represents(slots, index) && FirstFree(slots, p) && name !in index && Matches(s, name)
    ensures Represents(slots[p := s], index[name := p])
    ensures Files(slots[p := s], index[name := p]) == Files(slots, index)[name := EntryOf(s)]
  {
    AddKeepsSlots(slots, index, p, name, s);
    forall n | n in index
      ensures index[n] != p
    {
      assert Matches(slots[index[n]], n);
    }
  }

  /** The slots of a longer directory: the old ones, the new entry, empty ones. */
  lemma ExtendedSlot(slots: seq<Slot>, s: Slot, blank: seq<Slot>, i: nat)
    requires i < |slots| + 1 + |blank| && forall j :: 0 <= j < |blank| ==> blank[j] == EMPTY
    ensures (slots + [s] + blank)[i] == if i < |slots| then slots[i] else if i == |slots| then s else EMPTY
  {
  }

  lemma ExtendKeepsSlots(slots: seq<Slot>, index: map<Name, int>, name: Name, s: Slot, blank: seq<Slot>)
    requires Represents(slots, index) && name !in index && Matches(s, name)
    requires forall i :: 0 <= i < |slots| ==> !IsFree(slots[i])
    requires forall i :: 0 <= i < |blank| ==> blank[i] == EMPTY
    ensures Represents(slots + [s] + blank, index[name := |slots|])
  {
    var slots', index' := slots + [s] + blank, index[name := |slots|];
    forall i: nat | i < |slots'|
      ensures slots'[i] == if i < |slots| then slots[i] else if i == |slots| then s else EMPTY
    {
      ExtendedSlot(slots, s, blank, i);
    }
    forall n | n in index'
      ensures 0 <= index'[n] < |slots'| && Matches(slots'[index'[n]], n)
    {
      assert n != name ==> Matches(slots[index[n]], n);
    }
    assert !IsLive(EMPTY);
    forall i | 0 <= i < |slots'| && IsLive(slots'[i])
      ensures NameOf(slots'[i]) in index' && index'[NameOf(slots'[i])] == i
    {
    }
  }

  lemma ExtendWithEntry(slots: seq<Slot>, index: map<Name, int>, name: Name, s: Slot, blank: seq<Slot>)
    requires Represents(slots, index) && name !in index && Matches(s, name)
    requires forall i :: 0 <= i < |slots| ==> !IsFree(slots[i])
    requires forall i :: 0 <= i < |blank| ==> blank[i] == EMPTY
    ensures var slots' := slots + [s] + blank;
            && Represents(slots', index[name := |slots|])
            && Files(slots', index[name := |slots|]) == Files(slots, index)[name := EntryOf(s)]
  {
    ExtendKeepsSlots(slots, index, name, s, blank);
    var slots', index' := slots + [s] + blank, index[name := |slots|];
    forall n | n in index
      ensures slots'[index[n]] == slots[index[n]]
    {
      ExtendedSlot(slots, s, blank, index[n]);
    }
    ExtendedSlot(slots, s, blank, |slots|);
  }

  lemma OneSlotEach(slots: seq<Slot>, index: map<Name, int>, a: Name, b: Name)
    requires Represents(slots, index) && a in index && b in index && index[a] == index[b]
    ensures a == b
  {
    assert Matches(slots[index[a]], a) && Matches(slots[index[b]], b);
  }

  lemma RemoveKeepsSlots(slots: seq<Slot>, index: map<Name, int>, name: Name)
    requires Represents(slots, index) && name in index
    ensures Represents(slots[index[name] := Tomb(slots[index[name]])], index - {name})
  {
    var p, index' := index[name], index - {name};
    var slots' := slots[p := Tomb(slots[p])];
    forall n | n in index'
      ensures 0 <= index'[n] < |slots'| && Matches(slots'[index'[n]], n)
    {
      if index[n] == p {
        OneSlotEach(slots, index, n, name);
      }
    }
    forall i | 0 <= i < |slots'| && IsLive(slots'[i])
      ensures NameOf(slots'[i]) in index' && index'[NameOf(slots'[i])] == i
    {
      assert i != p && slots'[i] == slots[i];
      assert Matches(slots[p], name);
    }
  }

  lemma RemoveEntry(slots: seq<Slot>, index: map<Name, int>, name: Name)
    requires Represents(slots, index) && name in index
    ensures Represents(slots[index[name] := Tomb(slots[index[name]])], index - {name})
    ensures Files(slots[index[name] := Tomb(slots[index[name]])], index - {name}) == Files(slots, index) - {name}
  {
    RemoveKeepsSlots(slots, index, name);
    forall n | n in index && index[n] == index[name]
      ensures n == name
    {
      OneSlotEach(slots, index, n, name);
    }
  }

  ghost predicate IsMap(slots: seq<Slot>) {
    exists index :: Represents(slots, index)
  }

  lemma TwiceIsNoMap(slots: seq<Slot>, index: map<Name, int>, p: nat, q: nat, name: Name)
    requires p < |slots| && q < |slots| && p != q && Matches(slots[p], name) && Matches(slots[q], name)
    ensures !Represents(slots, index)
  {
  }

  /** A name put in twice leaves no map at all, so an entry can be added exactly when its
      name is unused. */
  lemma AddEntryIff(slots: seq<Slot>, index: map<Name, int>, p: nat, name: Name, s: Slot)
    requires Represents(slots, index) && FirstFree(slots, p) && Matches(s, name)
    ensures IsMap(slots[p := s]) <==> name !in index
  {
    var slots' := slots[p := s];
    if name in index {
      var q := index[name];
      assert Matches(slots[q], name);
      forall index'
        ensures !Represents(slots', index')
      {
        TwiceIsNoMap(slots', index', p, q, name);
      }
    } else {
      AddKeepsSlots(slots, index, p, name, s);
    }
  }

  /** Marking the entry of one name and adding one of another leaves a map exactly when the
      other name was unused, or is the same. */
  lemma RenameIff(slots: seq<Slot>, index: map<Name, int>, from: Name, to: Name, p: nat, s: Slot)
    requires Represents(slots, index) && from in index && Matches(s, to)
    requires FirstFree(slots[index[from] := Tomb(slots[index[from]])], p)
    ensures IsMap(slots[index[from] := Tomb(slots[index[from]])][p := s]) <==> to !in index || to == from
  {
    RemoveEntry(slots, index, from);
    AddEntryIff(slots[index[from] := Tomb(slots[index[from]])], index - {from}, p, to, s);
  }

  /** A directory with the files a and b, after a has been renamed to b. */
  lemma RenameToUsedName(a: Slot, b: Slot)
    requires a == Slot(Encode([97]), 32, 0, 0) && b == Slot(Encode([98]), 32, 0, 0)
    ensures Represents([a, b], map[[97] := 0, [98] := 1])
    ensures !IsMap([b, b])
  {
    BaseEndIs([97], 0, 1);
    BaseEndIs([98], 0, 1);
    EncodedIsFound([97], a);
    EncodedIsFound([98], b);
    forall index
      ensures !Represents([b, b], index)
    {
      TwiceIsNoMap([b, b], index, 0, 1, [98]);
    }
  }

  ////// Slots on disk

  type Disk = seq<seq<Slot>>

  /** The position in the directory of slot i of its k-th cluster. */
  ghost function Position(disk: Disk, m: nat, chain: seq<int>, k: nat, i: nat): nat
    requires OnDisk(disk, m, chain) && k <= |chain|
  {
    |DataTo(disk, m, chain, k)| + i
  }

  lemma SlotAt(disk: Disk, m: nat, chain: seq<int>, k: nat, i: nat)
    requires OnDisk(disk, m, chain) && k < |chain| && i < m
    ensures var p := Position(disk, m, chain, k, i);
            p < |Data(disk, m, chain)| && Data(disk, m, chain)[p] == disk[chain[k]][i]
  {
    DataPrefix(disk, m, chain, k + 1, |chain|);
    assert DataTo(disk, m, chain, k + 1)[Position(disk, m, chain, k, i)] == disk[chain[k]][i];
  }

  function SetSlot(disk: Disk, c: int, i: nat, s: Slot): Disk
    requires 0 <= c < |disk| && i < |disk[c]|
  {
    disk[c := disk[c][i := s]]
  }

  /** Writing one slot back is an update of the directory at its position. */
  lemma {:induction false} SetSlotUpdates(disk: Disk, m: nat, chain: seq<int>, k: nat, i: nat, s: Slot, n: nat)
    requires OnDisk(disk, m, chain) && Distinct(chain) && k < n <= |chain| && i < m
    ensures var disk' := SetSlot(disk, chain[k], i, s);
            && OnDisk(disk', m, chain) && Position(disk, m, chain, k, i) < |DataTo(disk, m, chain, n)|
            && DataTo(disk', m, chain, n) == DataTo(disk, m, chain, n)[Position(disk, m, chain, k, i) := s]
    decreases n
  {
    var disk' := SetSlot(disk, chain[k], i, s);
    if n == k + 1 {
      SameData(disk, disk', m, chain, chain, k);
      assert DataTo(disk', m, chain, n) == DataTo(disk, m, chain, k) + disk[chain[k]][i := s];
    } else {
      SetSlotUpdates(disk, m, chain, k, i, s, n - 1);
      assert disk'[chain[n - 1]] == disk[chain[n - 1]];
    }
  }

  /** A further cluster adds its slots at the end. */
  lemma ExtendedSlots(disk: Disk, m: nat, chain: seq<int>, c: int, cluster: seq<Slot>)
    requires OnDisk(disk, m, chain) && 0 <= c < |disk| && c !in chain && |cluster| == m
    ensures OnDisk(disk[c := cluster], m, chain + [c])
    ensures Data(disk[c := cluster], m, chain + [c]) == Data(disk, m, chain) + cluster
  {
    SameData(disk, disk[c := cluster], m, chain, chain + [c], |chain|);
  }

  ////// Chains of directories

  ghost predicate DirChain(fat: seq<int>, first: int, chain: seq<int>) {
    && first == (if chain == [] then 0 else chain[0])
    && (forall i :: 0 <= i < |chain| ==> InRange(fat, chain[i]) && fat[chain[i]] != FREE)
    && (forall i {:trigger NextOf(chain, i, EOC)} :: 0 <= i < |chain| ==>
          Following(fat, chain[i]) == NextOf(chain, i, EOC))
    && Distinct(chain)
  }

  lemma DirChainSame(fat: seq<int>, fat': seq<int>, first: int, chain: seq<int>)
    requires DirChain(fat, first, chain) && |fat'| == |fat|
    requires forall x :: x in chain && InRange(fat, x) ==> fat'[x] == fat[x]
    ensures DirChain(fat', first, chain)
  {
  }

  lemma FollowInChain(fat: seq<int>, first: int, chain: seq<int>, k: nat)
    requires DirChain(fat, first, chain) && k < |chain|
    ensures Following(fat, chain[k]) == NextOf(chain, k, EOC)
  {
  }

  /** A new cluster, already marked EOC, linked behind the last one. */
  lemma DirChainGrows(fat: seq<int>, first: int, chain: seq<int>, c: int)
    requires DirChain(fat, first, chain) && InRange(fat, c) && c !in chain && |fat| <= MAX_ENTRIES
    ensures DirChain(Attach(fat[c := EOC], chain, c), if chain == [] then c else first, chain + [c])
  {
    var longer, fat' := chain + [c], Attach(fat[c := EOC], chain, c);
    forall i | 0 <= i < |longer|
      ensures Following(fat', longer[i]) == NextOf(longer, i, EOC)
    {
      if i + 1 < |chain| {
        assert chain[i] != chain[|chain| - 1] && chain[i] != c;
        assert Following(fat, chain[i]) == NextOf(chain, i, EOC);
      }
    }
  }

  ////// Directories and the chains of their files

  /** Every regular file has a well-formed chain of its own, apart from the directory's.
      Nothing is asked of entries that are directories, such as "." and "..". */
  ghost predicate FilesOk(fat: seq<int>, entries: map<Name, Entry>, files: map<Name, seq<int>>, chain: seq<int>) {
    && (forall n :: n in files <==> n in entries && !entries[n].IsDir())
    && (forall n :: n in files ==> ChainFrom(fat, entries[n].first, files[n]))
    && (forall n :: n in files ==> Disjoint(files[n], chain))
    && (forall a, b :: a in files && b in files && a != b ==> Disjoint(files[a], files[b]))
  }

  /** A directory: first_cluster, its clusters, where each name is, and the clusters of each
      regular file. */
  datatype Dir = Dir(first: int, chain: seq<int>, index: map<Name, int>, files: map<Name, seq<int>>)

  ghost predicate Located(disk: Disk, m: nat, d: Dir) {
    OnDisk(disk, m, d.chain) && Represents(Data(disk, m, d.chain), d.index)
  }

  ghost function Contents(disk: Disk, m: nat, d: Dir): map<Name, Entry>
    requires Located(disk, m, d)
  {
    Files(Data(disk, m, d.chain), d.index)
  }

  ghost predicate DirOk(fat: seq<int>, disk: Disk, m: nat, d: Dir) {
    && DirChain(fat, d.first, d.chain) && Located(disk, m, d)
    && FilesOk(fat, Contents(disk, m, d), d.files, d.chain)
  }

  /** Cluster x belongs to the directory or to one of its files. */
  ghost predicate Owns(d: Dir, x: int) {
    x in d.chain || exists n :: n in d.files && x in d.files[n]
  }

  lemma OwnedIsUsed(fat: seq<int>, disk: Disk, m: nat, d: Dir, x: int)
    requires DirOk(fat, disk, m, d) && Owns(d, x)
    ensures InRange(fat, x) && fat[x] != FREE
  {
    if x !in d.chain {
      var n :| n in d.files && x in d.files[n];
      assert ChainFrom(fat, Contents(disk, m, d)[n].first, d.files[n]);
      ChainElements(fat, Contents(disk, m, d)[n].first, d.files[n], x);
    }
  }

  lemma FilesOkSame(fat: seq<int>, fat': seq<int>, entries: map<Name, Entry>, files: map<Name, seq<int>>,
                    chain: seq<int>)
    requires FilesOk(fat, entries, files, chain) && |fat'| == |fat|
    requires forall n, x :: n in files && x in files[n] && InRange(fat, x) ==> fat'[x] == fat[x]
    ensures FilesOk(fat', entries, files, chain)
  {
    forall n | n in files
      ensures ChainFrom(fat', entries[n].first, files[n])
    {
      assert ChainFrom(fat, entries[n].first, files[n]);
      ChainSame(fat, fat', entries[n].first, files[n]);
    }
  }

  /** What does not touch a directory's clusters leaves it as it was. */
  lemma DirKept(fat: seq<int>, fat': seq<int>, disk: Disk, disk': Disk, m: nat, d: Dir)
    requires DirOk(fat, disk, m, d) && |fat'| == |fat| && |disk'| == |disk|
    requires forall x :: Owns(d, x) && InRange(fat, x) ==> fat'[x] == fat[x]
    requires forall x :: x in d.chain && 0 <= x < |disk| ==> disk'[x] == disk[x]
    ensures DirOk(fat', disk', m, d) && Contents(disk', m, d) == Contents(disk, m, d)
    ensures Data(disk', m, d.chain) == Data(disk, m, d.chain)
  {
    DirChainKept(fat, fat', d);
    LocatedKept(disk, disk', m, d);
    forall n, x | n in d.files && x in d.files[n]
      ensures Owns(d, x)
    {
    }
    FilesOkSame(fat, fat', Contents(disk, m, d), d.files, d.chain);
  }

  lemma DirChainKept(fat: seq<int>, fat': seq<int>, d: Dir)
    requires DirChain(fat, d.first, d.chain) && |fat'| == |fat|
    requires forall x :: Owns(d, x) && InRange(fat, x) ==> fat'[x] == fat[x]
    ensures DirChain(fat', d.first, d.chain)
  {
    assert forall x :: x in d.chain ==> Owns(d, x);
    DirChainSame(fat, fat', d.first, d.chain);
  }

  lemma LocatedKept(disk: Disk, disk': Disk, m: nat, d: Dir)
    requires Located(disk, m, d) && |disk'| == |disk|
    requires forall x :: x in d.chain && 0 <= x < |disk| ==> disk'[x] == disk[x]
    ensures Located(disk', m, d) && Contents(disk', m, d) == Contents(disk, m, d)
    ensures Data(disk', m, d.chain) == Data(disk, m, d.chain)
  {
    SameData(disk, disk', m, d.chain, d.chain, |d.chain|);
  }

  /** A name's entry is slot i of the k-th cluster. */
  ghost predicate At(disk: Disk, m: nat, d: Dir, name: Name, k: nat, i: nat) {
    && Located(disk, m, d) && k < |d.chain| && i < m
    && name in d.index && d.index[name] == Position(disk, m, d.chain, k, i)
  }

  /** The slots of the k-th cluster, as slots of the directory. */
  lemma ClusterSlots(disk: Disk, m: nat, chain: seq<int>, k: nat)
    requires OnDisk(disk, m, chain) && k < |chain|
    ensures var slots, p := Data(disk, m, chain), Position(disk, m, chain, k, 0);
            && Position(disk, m, chain, k + 1, 0) == p + m <= |slots|
            && forall i :: 0 <= i < m ==> slots[p + i] == disk[chain[k]][i]
  {
    DataPrefix(disk, m, chain, k + 1, |chain|);
    forall i | 0 <= i < m
      ensures Data(disk, m, chain)[Position(disk, m, chain, k, 0) + i] == disk[chain[k]][i]
    {
      SlotAt(disk, m, chain, k, i);
    }
  }

  /** i more slots have been passed. */
  lemma PassedMore(disk: Disk, m: nat, chain: seq<int>, name: Name, k: nat, i: nat)
    requires OnDisk(disk, m, chain) && k < |chain| && i <= m
    requires Passed(Data(disk, m, chain), name, Position(disk, m, chain, k, 0))
    requires forall j :: 0 <= j < i ==> !IsEnd(disk[chain[k]][j]) && !Matches(disk[chain[k]][j], name)
    ensures Passed(Data(disk, m, chain), name, Position(disk, m, chain, k, i))
  {
    ClusterSlots(disk, m, chain, k);
    var slots, p := Data(disk, m, chain), Position(disk, m, chain, k, 0);
    forall q | p <= q < p + i
      ensures !IsEnd(slots[q]) && !Matches(slots[q], name)
    {
      assert slots[p + (q - p)] == disk[chain[k]][q - p];
    }
  }

  datatype Search = Hit | End | Miss

  /** The search of one cluster came to slot i. */
  ghost predicate Searched(cluster: seq<Slot>, name: Name, r: Search, i: nat) {
    && i <= |cluster| && (r == Miss <==> i == |cluster|)
    && (forall j :: 0 <= j < i ==> !IsEnd(cluster[j]) && !Matches(cluster[j], name))
    && (r == Hit ==> Matches(cluster[i], name)) && (r == End ==> IsEnd(cluster[i]))
  }

  /** Nothing of interest in the first k clusters. */
  ghost predicate PassedTo(disk: Disk, m: nat, d: Dir, name: Name, k: nat) {
    && Located(disk, m, d) && k <= |d.chain|
    && Passed(Data(disk, m, d.chain), name, Position(disk, m, d.chain, k, 0))
  }

  lemma ClusterSearched(disk: Disk, m: nat, d: Dir, name: Name, k: nat, r: Search, i: nat)
    requires PassedTo(disk, m, d, name, k) && k < |d.chain| && Searched(disk[d.chain[k]], name, r, i)
    ensures r == Hit ==> At(disk, m, d, name, k, i)
    ensures r == End ==> name !in d.index
    ensures r == Miss ==> PassedTo(disk, m, d, name, k + 1)
  {
    ClusterSlots(disk, m, d.chain, k);
    PassedMore(disk, m, d.chain, name, k, i);
    SearchIsExact(Data(disk, m, d.chain), d.index, name, Position(disk, m, d.chain, k, i));
    if r != Miss {
      SlotAt(disk, m, d.chain, k, i);
    }
  }

  lemma AllSearched(disk: Disk, m: nat, d: Dir, name: Name)
    requires PassedTo(disk, m, d, name, |d.chain|)
    ensures name !in d.index
  {
    SearchIsExact(Data(disk, m, d.chain), d.index, name, Position(disk, m, d.chain, |d.chain|, 0));
  }

  /** The k-th step of a walk along a directory. */
  function WalkAt(chain: seq<int>, k: nat): int {
    if chain == [] then 0 else if k < |chain| then chain[k] else EOC
  }

  lemma WalkEnds(fat: seq<int>, first: int, chain: seq<int>, k: nat)
    requires DirChain(fat, first, chain) && |fat| <= MAX_ENTRIES && k <= |chain|
    ensures WalkAt(chain, k) == 0 || WalkAt(chain, k) >= EOC <==> k == |chain|
    ensures k < |chain| ==> WalkAt(chain, k) == chain[k] && Following(fat, chain[k]) == WalkAt(chain, k + 1)
  {
    if k < |chain| {
      FollowInChain(fat, first, chain, k);
    }
  }

  /** The search of one cluster for a free slot came to slot i. */
  ghost predicate SearchedFree(cluster: seq<Slot>, found: bool, i: nat) {
    && i <= |cluster| && (found <==> i < |cluster|) && (found ==> IsFree(cluster[i]))
    && (forall j :: 0 <= j < i ==> !IsFree(cluster[j]))
  }

  ghost predicate UsedTo(disk: Disk, m: nat, chain: seq<int>, k: nat) {
    && OnDisk(disk, m, chain) && k <= |chain|
    && NoFreeSlot(DataTo(disk, m, chain, k))
  }

  /** Slot i of the k-th cluster is the first free one of the directory. */
  ghost predicate FreeAt(disk: Disk, m: nat, chain: seq<int>, k: nat, i: nat) {
    && OnDisk(disk, m, chain) && k < |chain| && i < m
    && FirstFree(Data(disk, m, chain), Position(disk, m, chain, k, i))
  }

  lemma ClusterSearchedFree(disk: Disk, m: nat, chain: seq<int>, k: nat, found: bool, i: nat)
    requires UsedTo(disk, m, chain, k) && k < |chain| && SearchedFree(disk[chain[k]], found, i)
    ensures found ==> FreeAt(disk, m, chain, k, i)
    ensures !found ==> UsedTo(disk, m, chain, k + 1)
  {
    var slots, before := Data(disk, m, chain), DataTo(disk, m, chain, k);
    DataPrefix(disk, m, chain, k, |chain|);
    ClusterSlots(disk, m, chain, k);
    if found {
      var p := |before|;
      forall q | 0 <= q < p + i
        ensures !IsFree(slots[q])
      {
        if q < p {
          assert slots[q] == before[q];
        } else {
          assert slots[p + (q - p)] == disk[chain[k]][q - p];
        }
      }
    }
  }

  ////// What the operations do to a directory

  /** The entry of a name deleted, slot i of the k-th cluster. */
  lemma DirMark(fat: seq<int>, disk: Disk, m: nat, d: Dir, name: Name, k: nat, i: nat)
    requires DirOk(fat, disk, m, d) && name in d.index && k < |d.chain| && i < m
    requires d.index[name] == Position(disk, m, d.chain, k, i) && |disk[d.chain[k]][i].name| == 11
    ensures var disk' := SetSlot(disk, d.chain[k], i, Tomb(disk[d.chain[k]][i]));
            var d' := d.(index := d.index - {name}, files := d.files - {name});
            DirOk(fat, disk', m, d') && Contents(disk', m, d') == Contents(disk, m, d) - {name}
  {
    SlotAt(disk, m, d.chain, k, i);
    SetSlotUpdates(disk, m, d.chain, k, i, Tomb(disk[d.chain[k]][i]), |d.chain|);
    RemoveEntry(Data(disk, m, d.chain), d.index, name);
    FilesOkLess(fat, Contents(disk, m, d), d.files, d.chain, name);
  }

  lemma FilesOkLess(fat: seq<int>, entries: map<Name, Entry>, files: map<Name, seq<int>>, chain: seq<int>, name: Name)
    requires FilesOk(fat, entries, files, chain)
    ensures FilesOk(fat, entries - {name}, files - {name}, chain)
  {
  }

  /** A file whose chain shares nothing with what is there already. */
  ghost predicate Joins(fat: seq<int>, d: Dir, first: int, chain: seq<int>) {
    ChainFrom(fat, first, chain) && forall x :: x in chain ==> !Owns(d, x)
  }

  lemma FilesOkMore(fat: seq<int>, entries: map<Name, Entry>, d: Dir, name: Name, entry: Entry, file: seq<int>)
    requires FilesOk(fat, entries, d.files, d.chain) && Joins(fat, d, entry.first, file) && name !in entries
    requires !entry.IsDir()
    ensures FilesOk(fat, entries[name := entry], d.files[name := file], d.chain)
  {
    forall a | a in d.files
      ensures Disjoint(d.files[a], file) && Disjoint(file, d.files[a])
    {
      assert forall x :: x in d.files[a] ==> Owns(d, x);
    }
    assert forall x :: x in d.chain ==> Owns(d, x);
  }

  /** A new entry in a free slot. */
  lemma DirPut(fat: seq<int>, disk: Disk, m: nat, d: Dir, name: Name, s: Slot, file: seq<int>, k: nat, i: nat)
    requires DirOk(fat, disk, m, d) && name !in d.index && Matches(s, name) && !IsDirectory(s)
    requires Joins(fat, d, s.first, file)
    requires k < |d.chain| && i < m && FirstFree(Data(disk, m, d.chain), Position(disk, m, d.chain, k, i))
    ensures var disk' := SetSlot(disk, d.chain[k], i, s);
            var d' := d.(index := d.index[name := Position(disk, m, d.chain, k, i)], files := d.files[name := file]);
            DirOk(fat, disk', m, d') && Contents(disk', m, d') == Contents(disk, m, d)[name := EntryOf(s)]
  {
    SetSlotUpdates(disk, m, d.chain, k, i, s, |d.chain|);
    AddEntry(Data(disk, m, d.chain), d.index, Position(disk, m, d.chain, k, i), name, s);
    FilesOkMore(fat, Contents(disk, m, d), d, name, EntryOf(s), file);
  }

  ghost predicate NoFreeSlot(slots: seq<Slot>) {
    forall i :: 0 <= i < |slots| ==> !IsFree(slots[i])
  }

  /** A new entry takes a slot, and when there is none, a cluster of them. */
  ghost predicate TakesSlot(fat: seq<int>, disk: Disk, m: nat, d: Dir, fat': seq<int>, d': Dir) {
    && OnDisk(disk, m, d.chain)
    && if NoFreeSlot(Data(disk, m, d.chain)) then |d'.chain| == |d.chain| + 1 && CountFree(fat') == CountFree(fat) - 1
       else |d'.chain| == |d.chain| && CountFree(fat') == CountFree(fat)
  }

  ghost predicate AllEmpty(slots: seq<Slot>) {
    forall i :: 0 <= i < |slots| ==> slots[i] == EMPTY
  }

  /** The directory with one more cluster, whose first slot is the new entry. */
  function Extended(d: Dir, c: int, name: Name, p: int, file: seq<int>): Dir {
    Dir(if d.chain == [] then c else d.first, d.chain + [c], d.index[name := p], d.files[name := file])
  }

  /** A new entry when every slot is in use. */
  lemma DirExtend(fat: seq<int>, disk: Disk, m: nat, d: Dir, name: Name, s: Slot, file: seq<int>, c: int,
                  cluster: seq<Slot>)
    requires DirOk(fat, disk, m, d) && name !in d.index && Matches(s, name) && !IsDirectory(s)
    requires Joins(fat, d, s.first, file)
    requires NoFreeSlot(Data(disk, m, d.chain)) && InRange(fat, c) && fat[c] == FREE && c < |disk|
    requires |fat| <= MAX_ENTRIES
    requires |cluster| == m > 0 && cluster[0] == s && AllEmpty(cluster[1..])
    ensures c !in d.chain
    ensures var fat', disk' := Attach(fat[c := EOC], d.chain, c), disk[c := cluster];
            var d' := Extended(d, c, name, |Data(disk, m, d.chain)|, file);
            DirOk(fat', disk', m, d') && Contents(disk', m, d') == Contents(disk, m, d)[name := EntryOf(s)]
  {
    var fat', disk' := Attach(fat[c := EOC], d.chain, c), disk[c := cluster];
    if Owns(d, c) {
      OwnedIsUsed(fat, disk, m, d, c);
    }
    DirChainGrows(fat, d.first, d.chain, c);
    ExtendedSlots(disk, m, d.chain, c, cluster);
    var slots := Data(disk, m, d.chain);
    ExtendWithEntry(slots, d.index, name, s, cluster[1..]);
    assert slots + [s] + cluster[1..] == slots + cluster;
    FilesOkMore(fat, Contents(disk, m, d), d, name, EntryOf(s), file);
    FilesGrow(fat, Contents(disk, m, d)[name := EntryOf(s)], d.files[name := file], d.chain, c);
  }

  lemma FilesGrow(fat: seq<int>, entries: map<Name, Entry>, files: map<Name, seq<int>>, chain: seq<int>, c: int)
    requires FilesOk(fat, entries, files, chain) && InRange(fat, c) && fat[c] == FREE
    requires chain != [] ==> InRange(fat, chain[|chain| - 1])
    ensures FilesOk(Attach(fat[c := EOC], chain, c), entries, files, chain + [c])
  {
    forall n, x | n in files && x in files[n]
      ensures x != c && x !in chain
    {
      assert ChainFrom(fat, entries[n].first, files[n]);
      ChainElements(fat, entries[n].first, files[n], x);
    }
    FilesOkSame(fat, Attach(fat[c := EOC], chain, c), entries, files, chain);
  }

  ////// What the operations leave alone

  /** Only free clusters and the directory's own have been touched; what it owns now it
      owned before, or was free, or has been handed to it. */
  ghost predicate Beside(fat: seq<int>, fat': seq<int>, disk: Disk, disk': Disk, d: Dir, d': Dir, handed: seq<int>) {
    && |fat'| == |fat| && |disk'| == |disk| && d.chain <= d'.chain
    && (forall x :: InRange(fat, x) && fat[x] != FREE && !Owns(d, x) ==> fat'[x] == fat[x])
    && (forall x :: 0 <= x < |disk| && x !in d'.chain ==> disk'[x] == disk[x])
    && (forall x :: Owns(d', x) ==> Owns(d, x) || x in handed || (InRange(fat, x) && fat[x] == FREE))
  }

  ghost predicate Apart(a: Dir, b: Dir) {
    forall x :: Owns(a, x) ==> !Owns(b, x)
  }

  /** Another directory is untouched, and still shares nothing with this one. */
  lemma BesideKeeps(fat: seq<int>, fat': seq<int>, disk: Disk, disk': Disk, m: nat, d: Dir, d': Dir,
                    handed: seq<int>, other: Dir)
    requires Beside(fat, fat', disk, disk', d, d', handed) && Apart(d, other) && DirOk(fat, disk, m, other)
    requires forall x :: x in handed ==> !Owns(other, x)
    ensures DirOk(fat', disk', m, other) && Contents(disk', m, other) == Contents(disk, m, other)
    ensures Data(disk', m, other.chain) == Data(disk, m, other.chain)
    ensures Apart(d', other)
  {
    forall x | Owns(other, x)
      ensures InRange(fat, x) && fat'[x] == fat[x] && !Owns(d', x)
    {
      OwnedIsUsed(fat, disk, m, other, x);
    }
    forall x | x in other.chain && 0 <= x < |disk|
      ensures disk'[x] == disk[x]
    {
      assert Owns(other, x);
      assert !Owns(d', x);
    }
    DirKept(fat, fat', disk, disk', m, other);
  }

  lemma PutBeside(fat: seq<int>, disk: Disk, disk': Disk, d: Dir, d': Dir, c: int, handed: seq<int>)
    requires |disk'| == |disk| && (forall x :: 0 <= x < |disk| && x != c ==> disk'[x] == disk[x])
    requires c in d.chain && d'.chain == d.chain
    requires forall n :: n in d'.files ==> d'.files[n] == handed || (n in d.files && d'.files[n] == d.files[n])
    ensures Beside(fat, fat, disk, disk', d, d', handed)
  {
  }

  lemma ExtendBeside(fat: seq<int>, disk: Disk, disk': Disk, d: Dir, c: int, name: Name, p: int, handed: seq<int>)
    requires InRange(fat, c) && fat[c] == FREE && (d.chain != [] ==> InRange(fat, d.chain[|d.chain| - 1]))
    requires |disk'| == |disk| && (forall x :: 0 <= x < |disk| && x != c ==> disk'[x] == disk[x])
    ensures Beside(fat, Attach(fat[c := EOC], d.chain, c), disk, disk', d, Extended(d, c, name, p, handed), handed)
  {
    var d' := Extended(d, c, name, p, handed);
    forall x | Owns(d', x)
      ensures Owns(d, x) || x in handed || x == c
    {
      if x !in d'.chain {
        var n :| n in d'.files && x in d'.files[n];
        assert n != name ==> n in d.files && x in d.files[n];
      }
    }
    assert d.chain != [] ==> Owns(d, d.chain[|d.chain| - 1]);
    assert d'.chain[|d.chain|] == c;
  }

  /** A file has come into the directory, and nothing else has changed for anyone. */
  ghost predicate Added(fat: seq<int>, fat': seq<int>, disk: Disk, disk': Disk, m: nat, d: Dir, d': Dir, name: Name,
                        entry: Entry, file: seq<int>) {
    && DirOk(fat, disk, m, d) && DirOk(fat', disk', m, d')
    && Contents(disk', m, d') == Contents(disk, m, d)[name := entry]
    && d'.files == d.files[name := file]
    && Beside(fat, fat', disk, disk', d, d', file)
  }

  lemma PutAdds(fat: seq<int>, disk: Disk, disk': Disk, m: nat, d: Dir, name: Name, s: Slot, file: seq<int>, k: nat,
                i: nat)
    requires DirOk(fat, disk, m, d) && name !in d.index && Matches(s, name) && !IsDirectory(s)
    requires Joins(fat, d, s.first, file)
    requires FreeAt(disk, m, d.chain, k, i) && disk' == SetSlot(disk, d.chain[k], i, s)
    ensures Added(fat, fat, disk, disk', m, d,
                  d.(index := d.index[name := Position(disk, m, d.chain, k, i)], files := d.files[name := file]),
                  name, EntryOf(s), file)
  {
    DirPut(fat, disk, m, d, name, s, file, k, i);
    var d' := d.(index := d.index[name := Position(disk, m, d.chain, k, i)], files := d.files[name := file]);
    PutBeside(fat, disk, disk', d, d', d.chain[k], file);
  }

  lemma ExtendAdds(fat: seq<int>, fat': seq<int>, disk: Disk, disk': Disk, m: nat, d: Dir, name: Name, s: Slot,
                   file: seq<int>, c: int, cluster: seq<Slot>)
    requires DirOk(fat, disk, m, d) && name !in d.index && Matches(s, name) && !IsDirectory(s)
    requires Joins(fat, d, s.first, file)
    requires NoFreeSlot(Data(disk, m, d.chain)) && InRange(fat, c) && fat[c] == FREE && c < |disk|
    requires |fat| <= MAX_ENTRIES
    requires |cluster| == m > 0 && cluster[0] == s && AllEmpty(cluster[1..])
    requires fat' == Attach(fat[c := EOC], d.chain, c) && disk' == disk[c := cluster]
    ensures Added(fat, fat', disk, disk', m, d, Extended(d, c, name, |Data(disk, m, d.chain)|, file), name,
                  EntryOf(s), file)
  {
    DirExtend(fat, disk, m, d, name, s, file, c, cluster);
    ExtendBeside(fat, disk, disk', d, c, name, |Data(disk, m, d.chain)|, file);
  }

  function Without(d: Dir, name: Name): Dir {
    d.(index := d.index - {name}, files := d.files - {name})
  }

  /** A file has gone from the directory, and nothing else has changed for anyone. */
  ghost predicate Removed(fat: seq<int>, fat': seq<int>, disk: Disk, disk': Disk, m: nat, d: Dir, d': Dir, name: Name) {
    && DirOk(fat, disk, m, d) && DirOk(fat', disk', m, d') && d' == Without(d, name)
    && Contents(disk', m, d') == Contents(disk, m, d) - {name}
    && Beside(fat, fat', disk, disk', d, d', [])
  }

  lemma MarkRemoves(fat: seq<int>, disk: Disk, disk': Disk, m: nat, d: Dir, name: Name, k: nat, i: nat)
    requires DirOk(fat, disk, m, d) && At(disk, m, d, name, k, i) && |disk[d.chain[k]][i].name| == 11
    requires disk' == SetSlot(disk, d.chain[k], i, Tomb(disk[d.chain[k]][i]))
    ensures Removed(fat, fat, disk, disk', m, d, Without(d, name), name)
  {
    DirMark(fat, disk, m, d, name, k, i);
    PutBeside(fat, disk, disk', d, Without(d, name), d.chain[k], []);
  }

  /** What an entry says, and the slot it says it in. */
  lemma EntryAt(disk: Disk, m: nat, d: Dir, name: Name, k: nat, i: nat)
    requires At(disk, m, d, name, k, i)
    ensures name in Contents(disk, m, d)
    ensures Matches(disk[d.chain[k]][i], name)
    ensures Contents(disk, m, d)[name] == EntryOf(disk[d.chain[k]][i])
    ensures Says(disk[d.chain[k]][i], Contents(disk, m, d)[name])
  {
    SlotAt(disk, m, d.chain, k, i);
  }

  /** The fields of the slot are those of the entry, one by one. */
  predicate Says(s: Slot, e: Entry) {
    s.attr == e.attr && s.first == e.first && s.size == e.size && (e.IsDir() <==> s.attr / 16 % 2 == 1)
  }

  /** Slot s has been written again under another name: its other fields are the same. */
  predicate SameFields(s: Slot, s': Slot) {
    s'.attr == s.attr && s'.first == s.first && s'.size == s.size
  }

  /** Slot i of the k-th cluster is that of one name, slot i' of the k'-th cluster of what may be
      another directory is that of another, and their fields are the same. */
  ghost predicate CarriedTo(disk: Disk, disk': Disk, m: nat, d: Dir, d': Dir, a: Name, b: Name, k: nat, i: nat,
                            k': nat, i': nat) {
    && At(disk, m, d, a, k, i) && At(disk', m, d', b, k', i')
    && SameFields(disk[d.chain[k]][i], disk'[d'.chain[k']][i']) && Matches(disk'[d'.chain[k']][i'], b)
  }

  ghost predicate Carried(disk: Disk, disk': Disk, m: nat, d: Dir, d': Dir, a: Name, b: Name) {
    exists k: nat, i: nat, k': nat, i': nat :: CarriedTo(disk, disk', m, d, d', a, b, k, i, k', i')
  }

  lemma CarriedIs(disk: Disk, disk': Disk, m: nat, d: Dir, d': Dir, a: Name, b: Name)
    requires Located(disk, m, d) && Located(disk', m, d') && a in Contents(disk, m, d) && b in Contents(disk', m, d')
    requires Contents(disk', m, d')[b] == Contents(disk, m, d)[a]
    ensures Carried(disk, disk', m, d, d', a, b)
  {
    var k, i := NameIsAt(disk, m, d, a);
    var k', i' := NameIsAt(disk', m, d', b);
    EntryAt(disk, m, d, a, k, i);
    EntryAt(disk', m, d', b, k', i');
    assert CarriedTo(disk, disk', m, d, d', a, b, k, i, k', i');
  }

  /** Every name has a slot in one of the clusters. */
  lemma {:induction false} SlotExists(disk: Disk, m: nat, chain: seq<int>, n: nat, p: nat) returns (k: nat, i: nat)
    requires OnDisk(disk, m, chain) && n <= |chain| && p < |DataTo(disk, m, chain, n)|
    ensures k < n && i < m && p == Position(disk, m, chain, k, i)
  {
    if p < |DataTo(disk, m, chain, n - 1)| {
      k, i := SlotExists(disk, m, chain, n - 1, p);
    } else {
      k, i := n - 1, p - |DataTo(disk, m, chain, n - 1)|;
    }
  }

  lemma NameIsAt(disk: Disk, m: nat, d: Dir, name: Name) returns (k: nat, i: nat)
    requires Located(disk, m, d) && name in d.index
    ensures At(disk, m, d, name, k, i)
  {
    k, i := SlotExists(disk, m, d.chain, |d.chain|, d.index[name]);
  }

  /** The clusters of a file that has gone belong to no one in the directory. */
  lemma RemovedJoins(fat: seq<int>, disk: Disk, m: nat, d: Dir, name: Name)
    requires DirOk(fat, disk, m, d) && name in d.files
    ensures Joins(fat, Without(d, name), Contents(disk, m, d)[name].first, d.files[name])
  {
    var file := d.files[name];
    forall x, n | x in file && n in d.files && n != name
      ensures x !in d.files[n]
    {
      assert Disjoint(file, d.files[n]);
    }
  }

  /** Exactly the clusters of a file have become FREE. */
  ghost predicate Freed(fat: seq<int>, fat': seq<int>, file: seq<int>) {
    |fat'| == |fat| && forall x :: 0 <= x < |fat| ==> fat'[x] == if x in file then FREE else fat[x]
  }

  /** Releasing the clusters of the file as well. */
  lemma ReleaseRemoves(fat: seq<int>, disk: Disk, disk': Disk, m: nat, d: Dir, name: Name)
    requires Removed(fat, fat, disk, disk', m, d, Without(d, name), name) && name in d.files
    ensures Removed(fat, Released(fat, Contents(disk, m, d)[name].first), disk, disk', m, d, Without(d, name), name)
    ensures Freed(fat, Released(fat, Contents(disk, m, d)[name].first), d.files[name])
  {
    RemovedJoins(fat, disk, m, d, name);
    var first, file, d' := Contents(disk, m, d)[name].first, d.files[name], Without(d, name);
    var fat' := Released(fat, first);
    ChainIsReleased(fat, first, file);
    DirKept(fat, fat', disk', disk', m, d');
    forall x | InRange(fat, x) && fat[x] != FREE && !Owns(d, x)
      ensures fat'[x] == fat[x]
    {
      assert x !in file;
    }
  }

  /** The whole of an unlink: the entry marked and the file's clusters released. */
  lemma UnlinkRemoves(t: Table, t': Table, disk: Disk, disk': Disk, m: nat, d: Dir, d': Dir, name: Name, k: nat,
                      i: nat, s: Slot)
    requires Valid(t) && DirOk(t.fat, disk, m, d) && At(disk, m, d, name, k, i) && name in d.files
    requires d' == Without(d, name)
    requires s == disk[d.chain[k]][i] && |s.name| == 11 && disk' == SetSlot(disk, d.chain[k], i, Tomb(s))
    requires t' == Release(t, s.first)
    ensures Drift(t') == Drift(t) && CountFree(t'.fat) == CountFree(t.fat) + |d.files[name]|
    ensures Freed(t.fat, t'.fat, d.files[name])
    ensures Removed(t.fat, t'.fat, disk, disk', m, d, d', name)
  {
    EntryAt(disk, m, d, name, k, i);
    MarkRemoves(t.fat, disk, disk', m, d, name, k, i);
    ReleaseRemoves(t.fat, disk, disk', m, d, name);
    assert ChainFrom(t.fat, s.first, d.files[name]);
    ReleaseIff(t, s.first);
    ChainIsReleased(t.fat, s.first, d.files[name]);
    TurnsCount(t.fat, s.first);
  }

  /** A file has a new name in the same directory. */
  ghost predicate Renamed(fat: seq<int>, fat': seq<int>, disk: Disk, disk': Disk, m: nat, d: Dir, d': Dir, a: Name,
                          b: Name) {
    && DirOk(fat, disk, m, d) && DirOk(fat', disk', m, d')
    && a in d.files && a in Contents(disk, m, d)
    && Contents(disk', m, d') == (Contents(disk, m, d) - {a})[b := Contents(disk, m, d)[a]]
    && d'.files == (d.files - {a})[b := d.files[a]]
    && Beside(fat, fat', disk, disk', d, d', [])
  }

  lemma BesideTwice(fat: seq<int>, fat': seq<int>, disk: Disk, disk1: Disk, disk': Disk, d: Dir, d1: Dir, d': Dir,
                    file: seq<int>)
    requires Beside(fat, fat, disk, disk1, d, d1, []) && Beside(fat, fat', disk1, disk', d1, d', file)
    requires forall x :: x in file ==> Owns(d, x)
    ensures Beside(fat, fat', disk, disk', d, d', [])
  {
    forall x | 0 <= x < |disk| && x !in d'.chain
      ensures disk'[x] == disk[x]
    {
      assert x !in d1.chain;
    }
  }

  /** Marking the old entry and adding the new one is a renaming. */
  lemma RenamedInPlace(fat: seq<int>, fat': seq<int>, disk: Disk, disk1: Disk, disk': Disk, m: nat, d: Dir, d1: Dir,
                       d': Dir, a: Name, b: Name)
    requires Removed(fat, fat, disk, disk1, m, d, d1, a)
    requires a in Contents(disk, m, d) && a in d.files
    requires Added(fat, fat', disk1, disk', m, d1, d', b, Contents(disk, m, d)[a], d.files[a])
    ensures Renamed(fat, fat', disk, disk', m, d, d', a, b)
  {
    assert forall x :: x in d.files[a] ==> Owns(d, x);
    BesideTwice(fat, fat', disk, disk1, disk', d, d1, d', d.files[a]);
  }

  /** A file has gone from one directory to another. */
  ghost predicate Moved(fat: seq<int>, fat': seq<int>, disk: Disk, disk': Disk, m: nat, d: Dir, d': Dir, e: Dir,
                        e': Dir, a: Name, b: Name) {
    && DirOk(fat, disk, m, d) && DirOk(fat', disk', m, d') && DirOk(fat, disk, m, e) && DirOk(fat', disk', m, e')
    && a in d.files && a in Contents(disk, m, d)
    && Contents(disk', m, d') == Contents(disk, m, d) - {a}
    && Contents(disk', m, e') == Contents(disk, m, e)[b := Contents(disk, m, d)[a]]
    && e'.files == e.files[b := d.files[a]] && d'.files == d.files - {a}
    && Apart(e', d')
  }

  /** An entry has been taken out of one directory, and another one has not noticed. */
  ghost predicate TakenOut(fat: seq<int>, disk: Disk, disk': Disk, m: nat, d: Dir, d': Dir, e: Dir, name: Name,
                           s: Slot) {
    && Removed(fat, fat, disk, disk', m, d, d', name)
    && name in d.index && name in Contents(disk, m, d) && name in d.files && EntryOf(s) == Contents(disk, m, d)[name]
    && DirOk(fat, disk, m, e) && DirOk(fat, disk', m, e) && Apart(d, e)
    && Data(disk', m, e.chain) == Data(disk, m, e.chain)
  }

  lemma TakenOutFacts(fat: seq<int>, disk: Disk, disk': Disk, m: nat, d: Dir, d': Dir, e: Dir, name: Name, s: Slot)
    requires TakenOut(fat, disk, disk', m, d, d', e, name, s)
    ensures DirOk(fat, disk', m, e) && !IsDirectory(s)
    ensures Full(fat, disk', m, e) ==> Full(fat, disk, m, e)
  {
  }

  lemma MovedAcross(fat: seq<int>, fat': seq<int>, disk: Disk, disk1: Disk, disk': Disk, m: nat, d: Dir, d': Dir,
                    e: Dir, e': Dir, a: Name, b: Name, s: Slot)
    requires TakenOut(fat, disk, disk1, m, d, d', e, a, s)
    requires Added(fat, fat', disk1, disk', m, e, e', b, EntryOf(s), d.files[a])
    ensures Moved(fat, fat', disk, disk', m, d, d', e, e', a, b)
  {
    RemovedJoins(fat, disk, m, d, a);
    BesideKeeps(fat, fat, disk, disk1, m, d, d', [], e);
    BesideKeeps(fat, fat', disk1, disk', m, e, e', d.files[a], d');
  }

  /** The slot an entry was marked in can be used again. */
  lemma MarkedIsFree(disk: Disk, m: nat, chain: seq<int>, k: nat, i: nat)
    requires OnDisk(disk, m, chain) && k < |chain| && i < m && IsFree(disk[chain[k]][i])
    ensures !NoFreeSlot(Data(disk, m, chain))
  {
    SlotAt(disk, m, chain, k, i);
  }

  /** Taking an entry out of one directory leaves another one ready to receive it. */
  lemma ReadyToReceive(fat: seq<int>, disk: Disk, disk': Disk, m: nat, d: Dir, d': Dir, e: Dir, name: Name, first: int)
    requires Removed(fat, fat, disk, disk', m, d, d', name) && DirOk(fat, disk, m, e) && Apart(d, e)
    requires name in d.files && ChainFrom(fat, first, d.files[name])
    ensures DirOk(fat, disk', m, e) && Contents(disk', m, e) == Contents(disk, m, e)
    ensures Data(disk', m, e.chain) == Data(disk, m, e.chain)
    ensures Joins(fat, e, first, d.files[name])
  {
    assert forall x :: x in d.files[name] ==> Owns(d, x);
    BesideKeeps(fat, fat, disk, disk', m, d, d', [], e);
  }

  /** Slot i of cluster c has been marked deleted. */
  ghost predicate Marked(disk: Disk, disk': Disk, c: int, i: nat) {
    && 0 <= c < |disk| && i < |disk[c]| && |disk[c][i].name| == 11
    && disk' == SetSlot(disk, c, i, Tomb(disk[c][i]))
  }

  /** There is no room for another entry: every slot is in use and no cluster is free. */
  ghost predicate Full(fat: seq<int>, disk: Disk, m: nat, d: Dir) {
    OnDisk(disk, m, d.chain) && NoFreeSlot(Data(disk, m, d.chain)) && CountFree(fat) == 0
  }

  /** Putting the old slot back undoes the marking. */
  lemma Restored(disk: Disk, c: int, i: nat, s: Slot)
    requires 0 <= c < |disk| && i < |disk[c]| && |disk[c][i].name| == 11 && s == disk[c][i]
    ensures SetSlot(SetSlot(disk, c, i, Tomb(s)), c, i, s) == disk
  {
    assert disk[c][i := Tomb(s)][i := s] == disk[c];
  }

  ////// A new directory

  const DIRECTORY := 0x10
  const DOT_ENTRY: Name := [DOT, BLANK, BLANK, BLANK, BLANK, BLANK, BLANK, BLANK, BLANK, BLANK, BLANK]
  const DOTDOT_ENTRY: Name := [DOT, DOT, BLANK, BLANK, BLANK, BLANK, BLANK, BLANK, BLANK, BLANK, BLANK]

  /** The cluster that fat32_create writes for a new directory: "." leads to itself, ".." to
      its parent. */
  ghost predicate NewDirectory(cluster: seq<Slot>, c: int, parent: int) {
    && |cluster| >= 2
    && cluster[0] == Slot(DOT_ENTRY, DIRECTORY, c, 0) && cluster[1] == Slot(DOTDOT_ENTRY, DIRECTORY, parent, 0)
    && forall i :: 2 <= i < |cluster| ==> cluster[i] == EMPTY
  }

  lemma DotNames()
    ensures Decode(DOT_ENTRY) == [DOT] && Decode(DOTDOT_ENTRY) == [DOT, DOT]
    ensures CString([DOT]) == [DOT] && CString([DOT, DOT]) == [DOT, DOT]
  {
    assert UpTo(DOT_ENTRY, 1, 8) == [] && UpTo(DOTDOT_ENTRY, 2, 8) == [];
    assert UpTo(DOTDOT_ENTRY, 1, 8) == [DOT];
    CStringOf([DOT]);
    CStringOf([DOT, DOT]);
  }

  lemma DotSlots(cluster: seq<Slot>, c: int, parent: int)
    requires NewDirectory(cluster, c, parent)
    ensures Matches(cluster[0], [DOT]) && Matches(cluster[1], [DOT, DOT])
    ensures forall i :: 2 <= i < |cluster| ==> IsEnd(cluster[i]) && !IsLive(cluster[i])
  {
    DotNames();
  }

  lemma DotsAreMapped(cluster: seq<Slot>, index: map<Name, int>, dot: Name, dots: Name)
    requires |cluster| >= 2 && Matches(cluster[0], dot) && Matches(cluster[1], dots) && dot != dots
    requires forall i :: 2 <= i < |cluster| ==> IsEnd(cluster[i]) && !IsLive(cluster[i])
    requires forall i :: 0 <= i < |cluster| ==> |cluster[i].name| == 11 && cluster[i].attr != LFN
    requires index == map[dot := 0, dots := 1]
    ensures Represents(cluster, index)
  {
    forall n | n in index
      ensures 0 <= index[n] < |cluster| && Matches(cluster[index[n]], n)
    {
      assert n == dot || n == dots;
    }
    forall i | 0 <= i < |cluster| && IsLive(cluster[i])
      ensures NameOf(cluster[i]) in index && index[NameOf(cluster[i])] == i
    {
      assert i == 0 || i == 1;
    }
  }

  /** A new directory is one that all the operations can be used on. */
  lemma NewDirectoryIsOk(fat: seq<int>, disk: Disk, m: nat, c: int, parent: int, d: Dir)
    requires InRange(fat, c) && fat[c] == EOC && c < |disk| && |disk[c]| == m && NewDirectory(disk[c], c, parent)
    requires d == Dir(c, [c], map[[DOT] := 0, [DOT, DOT] := 1], map[])
    ensures DirOk(fat, disk, m, d)
    ensures Contents(disk, m, d) == map[[DOT] := Entry(DIRECTORY, c, 0), [DOT, DOT] := Entry(DIRECTORY, parent, 0)]
  {
    DotSlots(disk[c], c, parent);
    DotsAreMapped(disk[c], d.index, [DOT], [DOT, DOT]);
    OneCluster(disk, m, c);
    DotEntries(disk[c], d.index, Entry(DIRECTORY, c, 0), Entry(DIRECTORY, parent, 0), [DOT], [DOT, DOT]);
    NoFiles(fat, Files(disk[c], d.index), [c]);
    OneClusterChain(fat, c);
  }

  lemma DotEntries(cluster: seq<Slot>, index: map<Name, int>, e: Entry, e': Entry, dot: Name, dots: Name)
    requires Represents(cluster, index) && dot != dots && index == map[dot := 0, dots := 1] && |cluster| >= 2
    requires EntryOf(cluster[0]) == e && EntryOf(cluster[1]) == e' && e.IsDir() && e'.IsDir()
    ensures Files(cluster, index) == map[dot := e, dots := e']
    ensures forall n :: n in Files(cluster, index) ==> Files(cluster, index)[n].IsDir()
  {
    var files := Files(cluster, index);
    assert dot in files && files[dot] == e && dots in files && files[dots] == e';
    assert forall n :: n in files ==> n in index;
    TwoEntries(files, e, e', dot, dots);
  }

  lemma TwoEntries(files: map<Name, Entry>, e: Entry, e': Entry, dot: Name, dots: Name)
    requires dot in files && files[dot] == e && dots in files && files[dots] == e' && dot != dots
    requires forall n :: n in files ==> n == dot || n == dots
    ensures files == map[dot := e, dots := e']
  {
  }

  lemma NoFiles(fat: seq<int>, entries: map<Name, Entry>, chain: seq<int>)
    requires forall n :: n in entries ==> entries[n].IsDir()
    ensures FilesOk(fat, entries, map[], chain)
  {
  }

  lemma OneClusterChain(fat: seq<int>, c: int)
    requires InRange(fat, c) && fat[c] == EOC
    ensures DirChain(fat, c, [c])
  {
  }

  lemma OneCluster(disk: Disk, m: nat, c: int)
    requires 0 <= c < |disk| && |disk[c]| == m
    ensures OnDisk(disk, m, [c]) && Data(disk, m, [c]) == disk[c]
  {
    assert DataTo(disk, m, [c], 0) == [];
  }
}
