/**
  A FAT32 directory as a program sees it: the map from names to entries, together with the
  number of clusters of each regular file, of the directory and of free clusters, on which it
  depends whether a new entry finds room.
*/
module Fat32Files {
  import opened Common
  import opened Chains
  import opened Fat32Name
  import opened Fat32Table
  import opened Fat32DirModel

  datatype DirState = DirState(files: map<Name, Entry>, lengths: map<Name, nat>, clusters: nat, free: nat)

  datatype DirOp = CreateFile(name: Name) | UnlinkFile(name: Name) | RenameFile(from: Name, to: Name)

  predicate ProperName(op: DirOp) {
    match op
    case CreateFile(name) => FileName(name)
    case UnlinkFile(_) => true
    case RenameFile(_, to) => FileName(to)
  }

  predicate IsFile(s: DirState, name: Name) {
    name in s.files && !s.files[name].IsDir() && name in s.lengths
  }

  /** One call, for a directory with m slots in a cluster: the directory afterwards and whether
      the call succeeds. A caller unlinks and renames regular files only, and renames to unused
      names only. */
  function Step(s: DirState, op: DirOp, m: nat): (DirState, bool) {
    match op
    case CreateFile(name) =>
      var t := s.(files := s.files[name := Entry(ARCHIVE, 0, 0)], lengths := s.lengths[name := 0]);
      if name in s.files then (s, false)
      else if |s.files| < s.clusters * m then (t, true)
      else if s.free > 0 then (t.(clusters := s.clusters + 1, free := s.free - 1), true)
      else (s, false)
    case UnlinkFile(name) =>
      if !IsFile(s, name) then (s, false)
      else (s.(files := s.files - {name}, lengths := s.lengths - {name}, free := s.free + s.lengths[name]), true)
    case RenameFile(from, to) =>
      if !IsFile(s, from) || (to in s.files && to != from) then (s, false)
      else (s.(files := (s.files - {from})[to := s.files[from]],
               lengths := (s.lengths - {from})[to := s.lengths[from]]), true)
  }

  /** The directory after a run, and which of its calls succeed. */
  function Replay(s: DirState, ops: seq<DirOp>, m: nat): (DirState, seq<bool>)
    decreases |ops|
  {
    if ops == [] then (s, [])
    else
      var (s1, ok) := Step(s, ops[0], m);
      var (s2, oks) := Replay(s1, ops[1..], m);
      (s2, [ok] + oks)
  }

  ////// Slots in use

  function LiveSlots(slots: seq<Slot>): nat {
    if slots == [] then 0 else LiveSlots(slots[..|slots| - 1]) + if IsLive(slots[|slots| - 1]) then 1 else 0
  }

  /** A directory has as many names as slots in use. */
  lemma {:induction false} NamesAreSlots(slots: seq<Slot>, index: map<Name, int>)
    requires Represents(slots, index)
    ensures |index| == LiveSlots(slots)
    decreases |slots|
  {
    if slots == [] {
      assert index.Keys == {};
    } else if IsLive(slots[|slots| - 1]) {
      var name := NameOf(slots[|slots| - 1]);
      WithoutLast(slots, index, name);
      NamesAreSlots(slots[..|slots| - 1], index - {name});
      assert index.Keys == (index - {name}).Keys + {name};
    } else {
      WithoutUnused(slots, index);
      NamesAreSlots(slots[..|slots| - 1], index);
    }
  }

  lemma WithoutLast(slots: seq<Slot>, index: map<Name, int>, name: Name)
    requires Represents(slots, index) && slots != [] && Matches(slots[|slots| - 1], name)
    ensures name in index && Represents(slots[..|slots| - 1], index - {name})
  {
    assert index[name] == |slots| - 1;
  }

  lemma WithoutUnused(slots: seq<Slot>, index: map<Name, int>)
    requires Represents(slots, index) && slots != [] && !IsLive(slots[|slots| - 1])
    ensures Represents(slots[..|slots| - 1], index)
  {
  }

  lemma {:induction false} AllLive(slots: seq<Slot>)
    requires forall i :: 0 <= i < |slots| ==> |slots[i].name| == 11 && slots[i].attr != LFN
    ensures LiveSlots(slots) <= |slots|
    ensures NoFreeSlot(slots) <==> LiveSlots(slots) == |slots|
    decreases |slots|
  {
    if slots != [] {
      var n := |slots| - 1;
      AllLive(slots[..n]);
      if NoFreeSlot(slots) {
        assert NoFreeSlot(slots[..n]);
      }
    }
  }

  /** There is a free slot exactly when there are fewer names than slots. */
  lemma FreeSlotIff(slots: seq<Slot>, index: map<Name, int>)
    requires Represents(slots, index)
    ensures !NoFreeSlot(slots) <==> |index| < |slots|
  {
    NamesAreSlots(slots, index);
    AllLive(slots);
  }

  ////// The directory that stands for it

  ghost function View(fat: seq<int>, disk: Disk, m: nat, d: Dir): DirState
    requires Located(disk, m, d)
  {
    DirState(Contents(disk, m, d), Lengths(d.files), |d.chain|, CountFree(fat))
  }

  ghost function Lengths(files: map<Name, seq<int>>): map<Name, nat> {
    map n | n in files :: |files[n]|
  }

  lemma LengthsWith(files: map<Name, seq<int>>, name: Name, file: seq<int>)
    ensures Lengths(files[name := file]) == Lengths(files)[name := |file|]
  {
  }

  lemma LengthsWithout(files: map<Name, seq<int>>, name: Name)
    ensures Lengths(files - {name}) == Lengths(files) - {name}
  {
  }

  lemma RoomIff(fat: seq<int>, disk: Disk, m: nat, d: Dir)
    requires Located(disk, m, d)
    ensures !NoFreeSlot(Data(disk, m, d.chain)) <==> |View(fat, disk, m, d).files| < |d.chain| * m
  {
    FreeSlotIff(Data(disk, m, d.chain), d.index);
    SlotCount(disk, m, d.chain, |d.chain|);
    assert Contents(disk, m, d).Keys == d.index.Keys;
  }

  lemma {:induction false} SlotCount(disk: Disk, m: nat, chain: seq<int>, k: nat)
    requires OnDisk(disk, m, chain) && k <= |chain|
    ensures |DataTo(disk, m, chain, k)| == k * m
  {
    if k > 0 {
      SlotCount(disk, m, chain, k - 1);
      assert k * m == (k - 1) * m + m;
    }
  }

  lemma FileIs(fat: seq<int>, disk: Disk, m: nat, d: Dir, name: Name)
    requires DirOk(fat, disk, m, d)
    ensures IsFile(View(fat, disk, m, d), name) <==> name in Contents(disk, m, d) && !Contents(disk, m, d)[name].IsDir()
    ensures IsFile(View(fat, disk, m, d), name) <==> name in d.files
    ensures name in Contents(disk, m, d) <==> name in d.index
  {
  }

  /** What the predicates of a call say about the map. */
  lemma AddedMap(fat: seq<int>, fat': seq<int>, disk: Disk, disk': Disk, m: nat, d: Dir, d': Dir, name: Name,
                 entry: Entry, file: seq<int>)
    requires Added(fat, fat', disk, disk', m, d, d', name, entry, file)
    ensures Located(disk, m, d) && Located(disk', m, d') && d'.files == d.files[name := file]
    ensures Contents(disk', m, d') == Contents(disk, m, d)[name := entry]
    ensures name in Contents(disk, m, d) <==> name in d.index
  {
  }

  lemma RemovedMap(fat: seq<int>, fat': seq<int>, disk: Disk, disk': Disk, m: nat, d: Dir, d': Dir, name: Name)
    requires Removed(fat, fat', disk, disk', m, d, d', name)
    ensures DirOk(fat, disk, m, d) && Located(disk', m, d') && d'.files == d.files - {name} && d'.chain == d.chain
    ensures Contents(disk', m, d') == Contents(disk, m, d) - {name}
  {
  }

  lemma RenamedMap(fat: seq<int>, fat': seq<int>, disk: Disk, disk': Disk, m: nat, d: Dir, d': Dir, from: Name,
                   to: Name)
    requires Renamed(fat, fat', disk, disk', m, d, d', from, to)
    ensures DirOk(fat, disk, m, d) && Located(disk', m, d') && from in d.files && from in Contents(disk, m, d)
    ensures d'.files == (d.files - {from})[to := d.files[from]]
    ensures Contents(disk', m, d') == (Contents(disk, m, d) - {from})[to := Contents(disk, m, d)[from]]
  {
  }

  /** Creating a file is the step of the map. */
  lemma CreateIsStep(fat: seq<int>, fat': seq<int>, disk: Disk, disk': Disk, m: nat, d: Dir, d': Dir, name: Name)
    requires Located(disk, m, d) && Located(disk', m, d') && d'.files == d.files[name := []]
    requires name !in Contents(disk, m, d)
    requires Contents(disk', m, d') == Contents(disk, m, d)[name := Entry(ARCHIVE, 0, 0)]
    requires TakesSlot(fat, disk, m, d, fat', d') && (!NoFreeSlot(Data(disk, m, d.chain)) || CountFree(fat) > 0)
    ensures (View(fat', disk', m, d'), true) == Step(View(fat, disk, m, d), CreateFile(name), m)
  {
    RoomIff(fat, disk, m, d);
    LengthsWith(d.files, name, []);
  }

  lemma CreateFails(fat: seq<int>, disk: Disk, m: nat, d: Dir, name: Name)
    requires Located(disk, m, d)
    requires name in Contents(disk, m, d) || (NoFreeSlot(Data(disk, m, d.chain)) && CountFree(fat) == 0)
    ensures (View(fat, disk, m, d), false) == Step(View(fat, disk, m, d), CreateFile(name), m)
  {
    RoomIff(fat, disk, m, d);
  }

  lemma UnlinkIsStep(fat: seq<int>, fat': seq<int>, disk: Disk, disk': Disk, m: nat, d: Dir, d': Dir, name: Name)
    requires Located(disk, m, d) && Located(disk', m, d') && IsFile(View(fat, disk, m, d), name)
    requires d'.files == d.files - {name} && d'.chain == d.chain
    requires Contents(disk', m, d') == Contents(disk, m, d) - {name}
    requires name in d.files && CountFree(fat') == CountFree(fat) + |d.files[name]|
    ensures (View(fat', disk', m, d'), true) == Step(View(fat, disk, m, d), UnlinkFile(name), m)
  {
    LengthsWithout(d.files, name);
  }

  lemma RenameIsStep(fat: seq<int>, fat': seq<int>, disk: Disk, disk': Disk, m: nat, d: Dir, d': Dir, from: Name,
                     to: Name)
    requires Located(disk, m, d) && Located(disk', m, d') && IsFile(View(fat, disk, m, d), from) && from in d.files
    requires d'.files == (d.files - {from})[to := d.files[from]]
    requires Contents(disk', m, d') == (Contents(disk, m, d) - {from})[to := Contents(disk, m, d)[from]]
    requires (to !in Contents(disk, m, d) || to == from) && |d'.chain| == |d.chain| && CountFree(fat') == CountFree(fat)
    ensures (View(fat', disk', m, d'), true) == Step(View(fat, disk, m, d), RenameFile(from, to), m)
  {
    LengthsWithout(d.files, from);
    LengthsWith(d.files - {from}, to, d.files[from]);
  }
}
