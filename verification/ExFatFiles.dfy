/**
  Files as byte sequences: what a program sees of an exFAT volume, and how reads and writes
  change it, together with the number of clusters of each file and of free clusters, on which
  it depends whether a write succeeds.
*/
module ExFatFiles {
  import opened Common
  import opened Chains
  import opened ExFatModel

  datatype Files = Files(contents: seq<seq<Byte>>, lengths: seq<nat>, free: nat)

  datatype FileOp =
    | ReadFile(i: nat, offset: nat, size: nat)
    | WriteFile(i: nat, offset: nat, data: seq<Byte>, memory: bool)

  /** A write that begins in the file, or at its end unless that is the end of a cluster. */
  predicate BeginsInside(size: nat, offset: nat, clusterSize: nat)
    requires clusterSize > 0
  {
    offset < size || (offset == size && (size == 0 || size % clusterSize != 0))
  }

  predicate Allowed(s: Files, op: FileOp, clusterSize: nat)
    requires clusterSize > 0
  {
    && op.i < |s.contents| == |s.lengths|
    && (op.WriteFile? ==> BeginsInside(|s.contents[op.i]|, op.offset, clusterSize))
    && (op.WriteFile? ==> op.offset + |op.data| <= U32 * clusterSize)
  }

  function Overwrite(s: seq<Byte>, offset: nat, data: seq<Byte>): (r: seq<Byte>)
    requires offset <= |s|
    ensures |r| == Max(|s|, offset + |data|)
  {
    s[..offset] + data + if offset + |data| < |s| then s[offset + |data|..] else []
  }

  /** The number of clusters of a file after a write. */
  function NewLength(length: nat, offset: nat, size: nat, clusterSize: nat): nat
    requires clusterSize > 0
  {
    if size == 0 then length else Max(length, ClusterOf(offset + size - 1, clusterSize) + 1)
  }

  /** One call: the files afterwards, whether it succeeds, and the bytes read. A write that runs
      out of space leaves the bytes alone, but keeps the clusters it has taken. */
  function Step(s: Files, op: FileOp, clusterSize: nat): (Files, bool, seq<Byte>)
    requires clusterSize > 0
  {
    if !Allowed(s, op, clusterSize) then (s, false, [])
    else
      match op
      case ReadFile(i, offset, size) => (s, true, Slice(s.contents[i], offset, size))
      case WriteFile(i, offset, data, memory) =>
        if data == [] then (s, true, [])
        else if !memory then (s, false, [])
        else
          var length := NewLength(s.lengths[i], offset, |data|, clusterSize);
          if s.free >= length - s.lengths[i] then
            (Files(s.contents[i := Overwrite(s.contents[i], offset, data)], s.lengths[i := length],
                   s.free - (length - s.lengths[i])), true, [])
          else (Files(s.contents, s.lengths[i := s.lengths[i] + s.free], 0), false, [])
  }

  /** The files after a run, and what its calls return. */
  function Replay(s: Files, ops: seq<FileOp>, clusterSize: nat): (Files, seq<bool>, seq<seq<Byte>>)
    requires clusterSize > 0
    decreases |ops|
  {
    if ops == [] then (s, [], [])
    else
      var (s1, ok, bytes) := Step(s, ops[0], clusterSize);
      var (s2, oks, answers) := Replay(s1, ops[1..], clusterSize);
      (s2, [ok] + oks, [bytes] + answers)
  }

  ////// The volume that stands for them

  /** The fields of an inode. */
  datatype Fields = Fields(first: int, size: nat, dirCluster: nat, dirEntry: nat)

  ghost predicate OneFile(f: Fields, file: File, clusterSize: nat) {
    f.first == file.first >= 0 && f.size <= |file.chain| * clusterSize && f.size <= U32 * clusterSize
  }

  /** Where its directory entry is. */
  ghost predicate Entered(f: Fields, dir: File, clusterSize: nat) {
    f.dirCluster in dir.chain && f.dirEntry * 32 + 64 <= clusterSize
  }

  /** The first of the files of the volume are those of the inodes; the entries of these are in
      directories behind them. */
  ghost predicate Holds(fat: seq<int>, disk: Disk, clusterSize: nat, inodes: seq<Fields>, files: seq<File>,
                        dirs: seq<nat>) {
    && clusterSize > 0 && Volume(fat, files) && |fat| <= |disk| && Sized(disk, clusterSize)
    && |inodes| == |dirs| <= |files|
    && (forall i :: 0 <= i < |inodes| ==> OneFile(inodes[i], files[i], clusterSize))
    && (forall i :: 0 <= i < |inodes| ==>
          |inodes| <= dirs[i] < |files| && Entered(inodes[i], files[dirs[i]], clusterSize))
  }

  ghost function Content(disk: Disk, clusterSize: nat, chain: seq<int>, size: nat): seq<Byte> {
    if OnDisk(disk, clusterSize, chain) && size <= |Data(disk, clusterSize, chain)|
    then Data(disk, clusterSize, chain)[..size]
    else []
  }

  ghost function View(fat: seq<int>, disk: Disk, clusterSize: nat, inodes: seq<Fields>, files: seq<File>): Files
    requires |inodes| <= |files|
  {
    Files(seq(|inodes|, i requires 0 <= i < |inodes| => Content(disk, clusterSize, files[i].chain, inodes[i].size)),
          seq(|inodes|, i requires 0 <= i < |inodes| => |files[i].chain|),
          CountFree(fat))
  }

  lemma FileData(fat: seq<int>, disk: Disk, clusterSize: nat, file: File)
    requires IsChain(fat, file.first, file.chain) && |fat| <= |disk| && Sized(disk, clusterSize)
    ensures OnDisk(disk, clusterSize, file.chain) && |Data(disk, clusterSize, file.chain)| == |file.chain| * clusterSize
  {
    Length(disk, clusterSize, file.chain, |file.chain|);
  }

  /** Reading through the chain is reading the file's bytes. */
  lemma ReadIsSlice(data: seq<Byte>, size: nat, offset: nat, n: nat)
    requires size <= |data|
    ensures Slice(data, offset, Below(size, offset, n)) == Slice(data[..size], offset, n)
  {
  }

  lemma BeginsIsInside(chain: seq<int>, size: nat, offset: nat, clusterSize: nat)
    requires clusterSize > 0 && size <= |chain| * clusterSize && BeginsInside(size, offset, clusterSize)
    ensures Inside(chain, ClusterOf(offset, clusterSize))
  {
    var k, r := Quotient(offset, clusterSize);
    if k >= |chain| {
      Monotone(|chain|, k, clusterSize);
      assert offset == size && r == 0;
    }
  }

  /** What a write inside a file does to a volume. */
  ghost predicate Written(fat: seq<int>, disk: Disk, fat': seq<int>, disk': Disk, clusterSize: nat, f: Fields,
                          f': Fields, chain: seq<int>, chain': seq<int>, offset: nat, data: seq<Byte>, ok: bool)
    requires clusterSize > 0
  {
    && |fat'| == |fat| && |disk'| == |disk| && Sized(disk', clusterSize) && chain <= chain'
    && f' == Fields(f'.first, f'.size, f.dirCluster, f.dirEntry) && f'.first >= 0
    && (ok <==> CountFree(fat) >= Wanted(chain, offset, |data|, clusterSize))
    && CountFree(fat') == (if ok then CountFree(fat) - Wanted(chain, offset, |data|, clusterSize) else 0)
    && |chain'| == |chain| + CountFree(fat) - CountFree(fat')
    && (ok ==> WriteResult(disk, disk', clusterSize, chain, chain', offset, data))
    && (ok ==> f'.size == Max(f.size, offset + |data|))
    && (ok ==> Elsewhere(disk, disk', chain', f.dirCluster))
    && (!ok ==> disk' == disk && f'.size == f.size)
  }

  /** The bytes of the file after a write that succeeds. */
  lemma WrittenContent(disk: Disk, disk': Disk, clusterSize: nat, chain: seq<int>, chain': seq<int>, size: nat,
                       offset: nat, data: seq<Byte>)
    requires clusterSize > 0 && Inside(chain, ClusterOf(offset, clusterSize))
    requires offset <= size <= |chain| * clusterSize && data != []
    requires WriteResult(disk, disk', clusterSize, chain, chain', offset, data)
    requires OnDisk(disk, clusterSize, chain) && OnDisk(disk', clusterSize, chain')
    ensures Max(size, offset + |data|) <= |chain'| * clusterSize == |Data(disk', clusterSize, chain')|
    ensures |Data(disk, clusterSize, chain)| == |chain| * clusterSize
    ensures Data(disk', clusterSize, chain')[..Max(size, offset + |data|)]
            == Overwrite(Data(disk, clusterSize, chain)[..size], offset, data)
  {
    Length(disk, clusterSize, chain, |chain|);
    WriteUpdates(disk, disk', clusterSize, chain, chain', size, offset, data, 0);
    var before, after := Data(disk, clusterSize, chain), Data(disk', clusterSize, chain');
    forall p: nat | p < Max(size, offset + |data|)
      ensures after[p] == if offset <= p < offset + |data| then data[p - offset] else before[p]
    {
      WriteUpdates(disk, disk', clusterSize, chain, chain', size, offset, data, p);
    }
    OverwriteIs(before[..size], offset, data, after[..Max(size, offset + |data|)]);
  }

  lemma OverwriteIs(s: seq<Byte>, offset: nat, data: seq<Byte>, t: seq<Byte>)
    requires offset <= |s| && |t| == Max(|s|, offset + |data|)
    requires forall p :: 0 <= p < |t| ==> t[p] == if offset <= p < offset + |data| then data[p - offset] else s[p]
    ensures t == Overwrite(s, offset, data)
  {
  }

  /** The bytes of a file to which clusters have been added. */
  lemma LongerContent(disk: Disk, clusterSize: nat, chain: seq<int>, chain': seq<int>, size: nat)
    requires OnDisk(disk, clusterSize, chain) && OnDisk(disk, clusterSize, chain') && chain <= chain'
    requires size <= |chain| * clusterSize
    ensures size <= |chain'| * clusterSize
    ensures Content(disk, clusterSize, chain', size) == Content(disk, clusterSize, chain, size)
  {
    OldBytes(disk, clusterSize, chain, chain');
    Length(disk, clusterSize, chain', |chain'|);
    Monotone(|chain|, |chain'|, clusterSize);
  }

  lemma WantedIs(chain: seq<int>, offset: nat, size: nat, clusterSize: nat)
    requires clusterSize > 0 && size > 0 && Inside(chain, ClusterOf(offset, clusterSize))
    ensures Wanted(chain, offset, size, clusterSize) == NewLength(|chain|, offset, size, clusterSize) - |chain|
  {
    ClustersInOrder(offset, offset + size - 1, clusterSize);
  }

  /** The file that is written. */
  lemma WrittenFile(fat: seq<int>, disk: Disk, fat': seq<int>, disk': Disk, clusterSize: nat, f: Fields, f': Fields,
                    file: File, chain': seq<int>, offset: nat, data: seq<Byte>, ok: bool)
    requires clusterSize > 0 && IsChain(fat, file.first, file.chain) && |fat| <= |disk| && Sized(disk, clusterSize)
    requires OneFile(f, file, clusterSize) && BeginsInside(f.size, offset, clusterSize)
    requires offset + |data| <= U32 * clusterSize
    requires data != [] && Written(fat, disk, fat', disk', clusterSize, f, f', file.chain, chain', offset, data, ok)
    requires IsChain(fat', f'.first, chain')
    ensures OneFile(f', File(f'.first, chain'), clusterSize)
    ensures |Content(disk, clusterSize, file.chain, f.size)| == f.size >= offset
    ensures Content(disk', clusterSize, chain', f'.size)
            == if ok then Overwrite(Content(disk, clusterSize, file.chain, f.size), offset, data)
               else Content(disk, clusterSize, file.chain, f.size)
  {
    FileData(fat, disk, clusterSize, file);
    FileData(fat', disk', clusterSize, File(f'.first, chain'));
    if ok {
      BeginsIsInside(file.chain, f.size, offset, clusterSize);
      WrittenContent(disk, disk', clusterSize, file.chain, chain', f.size, offset, data);
    } else {
      LongerContent(disk, clusterSize, file.chain, chain', f.size);
    }
  }

  /** A file that is not written. */
  lemma OtherFile(disk: Disk, disk': Disk, clusterSize: nat, chain': seq<int>, dirCluster: nat, dir: File,
                  other: seq<int>, size: nat)
    requires Elsewhere(disk, disk', chain', dirCluster) || disk' == disk
    requires Disjoint(chain', other) && dirCluster in dir.chain && Disjoint(dir.chain, other)
    requires OnDisk(disk, clusterSize, other)
    ensures Content(disk', clusterSize, other, size) == Content(disk, clusterSize, other, size)
  {
    if disk' != disk {
      OtherFilesKept(disk, disk', clusterSize, chain', dirCluster, other);
    }
  }

  lemma OtherFileKept(fat: seq<int>, disk: Disk, fat': seq<int>, disk': Disk, clusterSize: nat, inodes: seq<Fields>,
                      files: seq<File>, dirs: seq<nat>, i: nat, f': Fields, chain': seq<int>, j: nat)
    requires Holds(fat, disk, clusterSize, inodes, files, dirs) && i < |inodes| && j < |inodes| && j != i
    requires Elsewhere(disk, disk', chain', inodes[i].dirCluster) || disk' == disk
    requires Volume(fat', files[i := File(f'.first, chain')])
    ensures Content(disk', clusterSize, files[j].chain, inodes[j].size)
            == Content(disk, clusterSize, files[j].chain, inodes[j].size)
  {
    var files' := files[i := File(f'.first, chain')];
    assert Disjoint(files'[i].chain, files'[j].chain) && files'[j] == files[j];
    FileData(fat, disk, clusterSize, files[j]);
    OtherFile(disk, disk', clusterSize, chain', inodes[i].dirCluster, files[dirs[i]], files[j].chain, inodes[j].size);
  }

  /** So a write that begins inside its file is the step of the byte sequences. */
  lemma WriteIsStep(fat: seq<int>, disk: Disk, fat': seq<int>, disk': Disk, clusterSize: nat, inodes: seq<Fields>,
                    files: seq<File>, dirs: seq<nat>, i: nat, f': Fields, chain': seq<int>, offset: nat,
                    data: seq<Byte>, ok: bool)
    requires Holds(fat, disk, clusterSize, inodes, files, dirs) && i < |inodes| && data != []
    requires BeginsInside(inodes[i].size, offset, clusterSize) && offset + |data| <= U32 * clusterSize
    requires Written(fat, disk, fat', disk', clusterSize, inodes[i], f', files[i].chain, chain', offset, data, ok)
    requires Volume(fat', files[i := File(f'.first, chain')])
    ensures Holds(fat', disk', clusterSize, inodes[i := f'], files[i := File(f'.first, chain')], dirs)
    ensures (View(fat', disk', clusterSize, inodes[i := f'], files[i := File(f'.first, chain')]), ok, [])
            == Step(View(fat, disk, clusterSize, inodes, files), WriteFile(i, offset, data, true), clusterSize)
  {
    var inodes', files' := inodes[i := f'], files[i := File(f'.first, chain')];
    var s, s' := View(fat, disk, clusterSize, inodes, files), View(fat', disk', clusterSize, inodes', files');
    assert files'[i] == File(f'.first, chain');
    WrittenFile(fat, disk, fat', disk', clusterSize, inodes[i], f', files[i], chain', offset, data, ok);
    StillHolds(fat, disk, fat', disk', clusterSize, inodes, files, dirs, i, f', chain');
    forall j | 0 <= j < |inodes| && j != i
      ensures s'.contents[j] == s.contents[j]
    {
      OtherFileKept(fat, disk, fat', disk', clusterSize, inodes, files, dirs, i, f', chain', j);
    }
    BeginsIsInside(files[i].chain, inodes[i].size, offset, clusterSize);
    WantedIs(files[i].chain, offset, |data|, clusterSize);
    SameViews(s, s', i, offset, data, ok, clusterSize);
  }

  lemma StillHolds(fat: seq<int>, disk: Disk, fat': seq<int>, disk': Disk, clusterSize: nat, inodes: seq<Fields>,
                   files: seq<File>, dirs: seq<nat>, i: nat, f': Fields, chain': seq<int>)
    requires Holds(fat, disk, clusterSize, inodes, files, dirs) && i < |inodes|
    requires |fat'| == |fat| && |disk'| == |disk| && Sized(disk', clusterSize)
    requires Volume(fat', files[i := File(f'.first, chain')]) && OneFile(f', File(f'.first, chain'), clusterSize)
    requires f'.dirCluster == inodes[i].dirCluster && f'.dirEntry == inodes[i].dirEntry
    ensures Holds(fat', disk', clusterSize, inodes[i := f'], files[i := File(f'.first, chain')], dirs)
  {
  }

  lemma SameViews(s: Files, s': Files, i: nat, offset: nat, data: seq<Byte>, ok: bool, clusterSize: nat)
    requires clusterSize > 0 && data != [] && Allowed(s, WriteFile(i, offset, data, true), clusterSize)
    requires |s'.contents| == |s.contents| && |s'.lengths| == |s.lengths|
    requires forall j :: 0 <= j < |s.contents| && j != i ==>
               s'.contents[j] == s.contents[j] && s'.lengths[j] == s.lengths[j]
    requires var length := NewLength(s.lengths[i], offset, |data|, clusterSize);
             && (ok <==> s.free >= length - s.lengths[i])
             && s'.free == (if ok then s.free - (length - s.lengths[i]) else 0)
    requires s'.lengths[i] == s.lengths[i] + s.free - s'.free
    requires s'.contents[i] == if ok then Overwrite(s.contents[i], offset, data) else s.contents[i]
    ensures (s', ok, []) == Step(s, WriteFile(i, offset, data, true), clusterSize)
  {
    var t := Step(s, WriteFile(i, offset, data, true), clusterSize).0;
    assert s'.contents == t.contents && s'.lengths == t.lengths;
  }

  /** When a call is allowed, in terms of the inodes. */
  lemma AllowedIs(fat: seq<int>, disk: Disk, clusterSize: nat, inodes: seq<Fields>, files: seq<File>,
                  dirs: seq<nat>, op: FileOp)
    requires Holds(fat, disk, clusterSize, inodes, files, dirs)
    ensures Allowed(View(fat, disk, clusterSize, inodes, files), op, clusterSize) <==>
            && op.i < |inodes|
            && (op.WriteFile? ==> BeginsInside(inodes[op.i].size, op.offset, clusterSize))
            && (op.WriteFile? ==> op.offset + |op.data| <= U32 * clusterSize)
  {
    if op.i < |inodes| {
      FileData(fat, disk, clusterSize, files[op.i]);
    }
  }

  lemma ReadIsStep(fat: seq<int>, disk: Disk, clusterSize: nat, inodes: seq<Fields>, files: seq<File>, dirs: seq<nat>,
                   i: nat, offset: nat, size: nat, ok: bool, bytes: seq<Byte>)
    requires Holds(fat, disk, clusterSize, inodes, files, dirs) && i < |inodes|
    requires OnDisk(disk, clusterSize, files[i].chain)
    requires var k := ClusterOf(offset, clusterSize);
             ok <==> offset >= inodes[i].size || ClusterAt(inodes[i].first, files[i].chain, k) >= 2
    requires bytes == ReadBytes(disk, clusterSize, files[i].chain, inodes[i].size, offset, size)
    ensures var s := View(fat, disk, clusterSize, inodes, files);
            (s, ok, bytes) == Step(s, ReadFile(i, offset, size), clusterSize)
  {
    var s := View(fat, disk, clusterSize, inodes, files);
    FileData(fat, disk, clusterSize, files[i]);
    ReadIsSlice(Data(disk, clusterSize, files[i].chain), inodes[i].size, offset, size);
    assert s.contents[i] == Data(disk, clusterSize, files[i].chain)[..inodes[i].size];
    if offset < inodes[i].size {
      ReadSucceeds(fat, files[i], inodes[i].size, offset, clusterSize);
    }
  }

  lemma ReadSucceeds(fat: seq<int>, file: File, size: nat, offset: nat, clusterSize: nat)
    requires clusterSize > 0 && IsChain(fat, file.first, file.chain) && offset < size <= |file.chain| * clusterSize
    ensures ClusterAt(file.first, file.chain, ClusterOf(offset, clusterSize)) >= 2
  {
    BeginsIsInside(file.chain, size, offset, clusterSize);
    assert file.chain != [] && file.chain[0] >= 2;
  }
}
