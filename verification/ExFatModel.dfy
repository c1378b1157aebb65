/**
  exFAT file data as values: chains of clusters in the file allocation table, the bytes a
  chain holds, and what growing a chain or writing through it does to both.
*/
module ExFatModel {
  import opened Common
  import opened Chains

  type Cluster = seq<Byte>
  type Disk = seq<Cluster>

  const END := 0xFFFF_FFFF

  ////// Chains

  predicate Ends(cluster: int) {
    cluster < 2 || cluster == END
  }

  /** `first` is the first_cluster field of a file whose clusters are `chain`. */
  ghost predicate IsChain(fat: seq<int>, first: int, chain: seq<int>) {
    && Linked(fat, chain, END)
    && (if chain == [] then Ends(first) else first == chain[0])
  }

  datatype File = File(first: int, chain: seq<int>)

  /** Every file has a chain of its own. */
  ghost predicate Volume(fat: seq<int>, files: seq<File>) {
    && (forall i :: 0 <= i < |files| ==> IsChain(fat, files[i].first, files[i].chain))
    && (forall i, j :: 0 <= i < |files| && 0 <= j < |files| && i != j ==> Disjoint(files[i].chain, files[j].chain))
  }

  /** Where a walk of k steps from first_cluster ends up. */
  function ClusterAt(first: int, chain: seq<int>, k: nat): int {
    if k < |chain| then chain[k]
    else if chain == [] && (k == 0 || first < 2) then first
    else if chain != [] && k == |chain| then END
    else 0
  }

  function Next(fat: seq<int>, cluster: int): int
    requires cluster >= 0
  {
    if cluster >= |fat| then 0 else fat[cluster]
  }

  /** Nothing but `chain` has changed, and it has grown out of `base` by free clusters only. */
  ghost predicate Grown(fat: seq<int>, fat': seq<int>, base: seq<int>, chain: seq<int>) {
    && |fat'| == |fat|
    && base <= chain
    && Linked(fat', chain, END)
    && (forall i :: |base| <= i < |chain| ==> fat[chain[i]] == FREE)
    && (forall x :: 2 <= x < |fat| && x !in chain ==> fat'[x] == fat[x])
  }

  /** The table after free cluster x has been put at the end of the chain. */
  function Appended(fat: seq<int>, chain: seq<int>, x: int): seq<int>
    requires 2 <= x < |fat|
    requires chain != [] ==> 0 <= chain[|chain| - 1] < |fat|
  {
    if chain == [] then fat[x := END] else fat[chain[|chain| - 1] := x][x := END]
  }

  lemma LinkedAppended(fat: seq<int>, chain: seq<int>, x: int)
    requires Linked(fat, chain, END) && 2 <= x < |fat| && x !in chain
    ensures Linked(Appended(fat, chain, x), chain + [x], END)
  {
    var longer, next := chain + [x], Appended(fat, chain, x);
    forall i | 0 <= i < |longer|
      ensures next[longer[i]] == NextOf(longer, i, END)
    {
      if i + 1 < |chain| {
        assert chain[i] != chain[|chain| - 1] && chain[i] != x;
        assert fat[chain[i]] == NextOf(chain, i, END);
      }
    }
  }

  /** A free cluster put at the end: one more step of growth. */
  lemma GrowStep(fat: seq<int>, fat': seq<int>, base: seq<int>, chain: seq<int>, x: int)
    requires Grown(fat, fat', base, chain)
    requires 2 <= x < |fat| && fat'[x] == FREE
    ensures x !in chain && Grown(fat, Appended(fat', chain, x), base, chain + [x])
  {
    if x in chain {
      LinkedIsUsed(fat', chain, END, x);
    }
    LinkedAppended(fat', chain, x);
    var longer, next := chain + [x], Appended(fat', chain, x);
    forall i | |base| <= i < |longer|
      ensures fat[longer[i]] == FREE
    {
      assert i < |chain| ==> longer[i] == chain[i];
    }
    forall y | 2 <= y < |fat| && y !in longer
      ensures next[y] == fat[y]
    {
      assert longer[|chain|] == x;
    }
  }

  /** Entry 0 carries the dirty flag and belongs to no chain. */
  lemma DirtyKeepsGrown(fat: seq<int>, fat': seq<int>, base: seq<int>, chain: seq<int>, flag: int)
    requires Grown(fat, fat', base, chain) && |fat| > 0
    ensures Grown(fat, fat'[0 := flag], base, chain)
  {
  }

  lemma DirtyKeepsVolume(fat: seq<int>, files: seq<File>, flag: int)
    requires Volume(fat, files) && |fat| > 0
    ensures Volume(fat[0 := flag], files)
  {
    forall i | 0 <= i < |files|
      ensures IsChain(fat[0 := flag], files[i].first, files[i].chain)
    {
      assert IsChain(fat, files[i].first, files[i].chain);
    }
  }

  /** That takes one free cluster. */
  lemma GrowTakesOne(fat: seq<int>, chain: seq<int>, x: int)
    requires Linked(fat, chain, END) && 2 <= x < |fat| && fat[x] == FREE && x !in chain
    ensures CountFree(Appended(fat, chain, x)) == CountFree(fat) - 1
  {
    if chain == [] {
      CountUpdate(fat, x, END);
    } else {
      var last := chain[|chain| - 1];
      LinkedIsUsed(fat, chain, END, last);
      CountUpdate(fat, last, x);
      CountUpdate(fat[last := x], x, END);
    }
  }

  ////// Collecting the clusters of a write

  /** `clusters` are those of the chain from the k-th on, and `cluster` is what the walk
      along the old chain has come to. */
  ghost predicate Collected(fat: seq<int>, fat': seq<int>, base: seq<int>, k: nat, chain: seq<int>, clusters: seq<int>,
                            cluster: int) {
    && Grown(fat, fat', base, chain) && |fat| < END
    && (base == [] ==> k == 0) && (base != [] ==> k < |base|)
    && |chain| == Max(|base|, k + |clusters|) && clusters == chain[k..k + |clusters|]
    && CountFree(fat') == CountFree(fat) - (|chain| - |base|)
    && (if k + |clusters| < |base| then cluster == base[k + |clusters|] else Ends(cluster))
  }

  lemma CollectOld(fat: seq<int>, fat': seq<int>, base: seq<int>, k: nat, chain: seq<int>, clusters: seq<int>,
                   cluster: int)
    requires Collected(fat, fat', base, k, chain, clusters, cluster) && !Ends(cluster)
    ensures Collected(fat, fat', base, k, chain, clusters + [cluster], Next(fat', cluster))
  {
    var c := k + |clusters|;
    SamePrefix(base, chain);
    assert Next(fat', cluster) == NextOf(base, c, END) by {
      NextInChain(fat', base, c);
    }
    SliceAppend(base, k, c);
  }

  lemma SamePrefix(base: seq<int>, chain: seq<int>)
    requires base <= chain && |chain| == |base|
    ensures chain == base
  {
  }

  lemma SliceAppend(s: seq<int>, k: nat, c: nat)
    requires k <= c < |s|
    ensures s[k..c] + [s[c]] == s[k..c + 1]
  {
  }

  lemma CollectEnd(fat: seq<int>, fat': seq<int>, base: seq<int>, k: nat, chain: seq<int>, clusters: seq<int>,
                   cluster: int)
    requires Collected(fat, fat', base, k, chain, clusters, cluster) && Ends(cluster)
    ensures k + |clusters| == |chain|
    ensures if clusters == [] then chain == [] else chain != [] && clusters[|clusters| - 1] == chain[|chain| - 1]
  {
    assert forall i :: 0 <= i < |base| ==> chain[i] == base[i];
  }

  lemma CollectNew(fat: seq<int>, fat': seq<int>, next: seq<int>, base: seq<int>, k: nat, chain: seq<int>,
                   clusters: seq<int>, cluster: int, x: int)
    requires Collected(fat, fat', base, k, chain, clusters, cluster) && Ends(cluster)
    requires Grown(fat, next, base, chain + [x]) && CountFree(next) == CountFree(fat') - 1
    ensures Collected(fat, next, base, k, chain + [x], clusters + [x], cluster)
  {
    CollectEnd(fat, fat', base, k, chain, clusters, cluster);
    assert (chain + [x])[k..|chain| + 1] == chain[k..|chain|] + [x];
  }

  /** Growing one file's chain keeps every file's chain. */
  lemma GrownKeepsVolume(fat: seq<int>, fat': seq<int>, files: seq<File>, f: nat, base: seq<int>, chain: seq<int>,
                         first: int)
    requires Volume(fat, files) && f < |files|
    requires base == files[f].chain || base == []
    requires Grown(fat, fat', base, chain) && IsChain(fat', first, chain)
    ensures Volume(fat', files[f := File(first, chain)])
  {
    var files' := files[f := File(first, chain)];
    forall j | 0 <= j < |files| && j != f
      ensures IsChain(fat', files[j].first, files[j].chain) && Disjoint(chain, files[j].chain)
    {
      OtherChainKept(fat, fat', base, chain, files[j].first, files[j].chain);
    }
    forall i, j | 0 <= i < |files| && 0 <= j < |files| && i != j
      ensures Disjoint(files'[i].chain, files'[j].chain)
    {
      if j == f {
        assert Disjoint(chain, files[i].chain);
      }
    }
  }

  lemma OtherChainKept(fat: seq<int>, fat': seq<int>, base: seq<int>, chain: seq<int>, first: int, other: seq<int>)
    requires Grown(fat, fat', base, chain) && IsChain(fat, first, other) && Disjoint(base, other)
    ensures IsChain(fat', first, other) && Disjoint(chain, other)
  {
    forall x | x in chain
      ensures x !in other
    {
      var i :| 0 <= i < |chain| && chain[i] == x;
      if i < |base| {
        assert base[i] == x;
      } else if x in other {
        LinkedIsUsed(fat, other, END, x);
      }
    }
  }

  ////// Bytes

  /** Clusters that are on the chain, or have not changed, have the size they should have. */
  lemma StillSized(disk: Disk, disk': Disk, clusterSize: nat, chain: seq<int>)
    requires Sized(disk, clusterSize) && OnDisk(disk', clusterSize, chain) && |disk'| == |disk|
    requires forall x :: 0 <= x < |disk| && x !in chain ==> disk'[x] == disk[x]
    ensures Sized(disk', clusterSize)
  {
    forall x | 0 <= x < |disk'|
      ensures |disk'[x]| == clusterSize
    {
      if x in chain {
        var i :| 0 <= i < |chain| && chain[i] == x;
      }
    }
  }

  lemma {:induction false} Length(disk: Disk, clusterSize: nat, chain: seq<int>, k: nat)
    requires OnDisk(disk, clusterSize, chain) && k <= |chain|
    ensures |DataTo(disk, clusterSize, chain, k)| == k * clusterSize
  {
    if k == 0 {
    } else {
      Length(disk, clusterSize, chain, k - 1);
      OneMore(k - 1, clusterSize);
    }
  }

  lemma OneMore(n: nat, clusterSize: nat)
    ensures n * clusterSize + clusterSize == (n + 1) * clusterSize
  {
  }

  lemma Monotone(n: nat, k: nat, clusterSize: nat)
    requires n <= k
    ensures n * clusterSize <= k * clusterSize
  {
  }

  /** How many of n bytes from a position on lie below a given length. */
  function Below(length: nat, offset: nat, n: nat): nat {
    if length <= offset then 0 else Min(n, length - offset)
  }

  ////// Reading

  /** The n bytes from the offset on, as far as there are any. */
  function Slice(s: seq<Byte>, offset: nat, n: nat): (r: seq<Byte>)
    ensures |r| == Below(|s|, offset, n)
  {
    if |s| <= offset then [] else s[offset..offset + Below(|s|, offset, n)]
  }

  /** One cluster more of a slice. */
  lemma SliceGrows(s: seq<Byte>, d: seq<Byte>, offset: nat, n: nat, at: nat)
    requires at <= |d| && (if |s| <= offset then at == offset - |s| else at == 0)
    ensures var left := n - Below(|s|, offset, n);
            Slice(s + d, offset, n) == Slice(s, offset, n) + d[at..at + Min(|d| - at, left)]
  {
    var had, more := Below(|s|, offset, n), Min(|d| - at, n - Below(|s|, offset, n));
    if |s| <= offset {
      SliceAfter(s, d, offset, at, more);
    } else {
      SliceAcross(s, d, offset, had, more);
    }
  }

  lemma SliceAfter(s: seq<Byte>, d: seq<Byte>, offset: nat, at: nat, more: nat)
    requires offset == |s| + at && at + more <= |d|
    ensures (s + d)[offset..offset + more] == d[at..at + more]
  {
  }

  lemma SliceAcross(s: seq<Byte>, d: seq<Byte>, offset: nat, had: nat, more: nat)
    requires offset + had <= |s| && more <= |d| && (more > 0 ==> offset + had == |s|)
    ensures (s + d)[offset..offset + had + more] == s[offset..offset + had] + d[..more]
  {
  }

  lemma NextInChain(fat: seq<int>, chain: seq<int>, k: nat)
    requires Follows(fat, chain, END) && k < |chain|
    ensures Next(fat, chain[k]) == NextOf(chain, k, END)
  {
  }

  /** Before the first turn of the reading loop nothing below its cluster is wanted. */
  lemma ReadBegins(disk: Disk, clusterSize: nat, chain: seq<int>, k: nat, r: nat, offset: nat, n: nat)
    requires OnDisk(disk, clusterSize, chain) && offset == k * clusterSize + r
    ensures Slice(DataTo(disk, clusterSize, chain, Min(k, |chain|)), offset, n) == []
  {
    Length(disk, clusterSize, chain, Min(k, |chain|));
    Monotone(Min(k, |chain|), k, clusterSize);
  }

  /** One turn of the reading loop. */
  lemma ReadStep(disk: Disk, clusterSize: nat, chain: seq<int>, k: nat, r: nat, offset: nat, n: nat, j: nat,
                 bytes: seq<Byte>, cluster: int, at: nat, w: nat)
    requires OnDisk(disk, clusterSize, chain) && k <= j < |chain| && cluster == chain[j]
    requires r < clusterSize && offset == k * clusterSize + r && at == if j == k then r else 0
    requires bytes == Slice(DataTo(disk, clusterSize, chain, j), offset, n) && w == Min(clusterSize - at, n - |bytes|)
    ensures bytes + disk[cluster][at..at + w] == Slice(DataTo(disk, clusterSize, chain, j + 1), offset, n)
  {
    TurnPosition(clusterSize, k, r, j);
    Length(disk, clusterSize, chain, j);
    SliceGrows(DataTo(disk, clusterSize, chain, j), disk[chain[j]], offset, n, at);
  }

  lemma ReadDone(disk: Disk, clusterSize: nat, chain: seq<int>, offset: nat, n: nat, j: nat)
    requires OnDisk(disk, clusterSize, chain) && j <= |chain|
    requires j == |chain| || |Slice(DataTo(disk, clusterSize, chain, j), offset, n)| == n
    ensures Slice(DataTo(disk, clusterSize, chain, j), offset, n) == Slice(Data(disk, clusterSize, chain), offset, n)
  {
    DataPrefix(disk, clusterSize, chain, j, |chain|);
  }

  ////// Writing

  /** s with d written over it from position r on. */
  function Over(s: seq<Byte>, r: nat, d: seq<Byte>): (o: seq<Byte>)
    requires r + |d| <= |s|
    ensures |o| == |s|
  {
    s[..r] + d + s[r + |d|..]
  }

  /** s with as much of the data written over it as it reaches. */
  function Patched(s: seq<Byte>, offset: nat, data: seq<Byte>): (o: seq<Byte>)
    ensures |o| == |s|
  {
    if |s| <= offset then s else Over(s, offset, data[..Below(|s|, offset, |data|)])
  }

  /** One cluster more of a patched sequence, when the data begins in or behind it. */
  lemma PatchBegins(s: seq<Byte>, d: seq<Byte>, offset: nat, data: seq<Byte>, w: nat)
    requires |s| <= offset <= |s| + |d| && w == Min(|s| + |d| - offset, |data|)
    ensures Patched(s + d, offset, data) == s + Over(d, offset - |s|, data[..w])
  {
    OverSecond(s, d, offset, data[..w]);
    if offset == |s| + |d| {
      assert data[..w] == [];
    } else {
      assert Below(|s + d|, offset, |data|) == w;
    }
  }

  /** One cluster more of a patched sequence, when the data has begun before it. */
  lemma PatchGoesOn(s: seq<Byte>, d: seq<Byte>, offset: nat, data: seq<Byte>, done: nat, w: nat)
    requires offset < |s| && done == Min(|s| - offset, |data|) && w == Min(|d|, |data| - done)
    ensures Patched(s + d, offset, data) == Patched(s, offset, data) + Over(d, 0, data[done..done + w])
  {
    OverBoth(s, d, offset, data[..done], data[done..done + w]);
    assert data[..done + w] == data[..done] + data[done..done + w];
    assert Below(|s + d|, offset, |data|) == done + w;
  }

  /** One cluster more of a patched sequence. */
  lemma PatchGrows(s: seq<Byte>, d: seq<Byte>, offset: nat, data: seq<Byte>, at: nat, done: nat, w: nat)
    requires at <= |d| && (if |s| <= offset then at == offset - |s| else at == 0)
    requires done == Below(|s|, offset, |data|) && w == Min(|d| - at, |data| - done)
    ensures Patched(s + d, offset, data) == Patched(s, offset, data) + Over(d, at, data[done..done + w])
    ensures Below(|s| + |d|, offset, |data|) == done + w
  {
    if |s| <= offset {
      PatchBegins(s, d, offset, data, w);
    } else {
      PatchGoesOn(s, d, offset, data, done, w);
    }
  }

  lemma OverSecond(s: seq<Byte>, d: seq<Byte>, offset: nat, b: seq<Byte>)
    requires |s| <= offset && offset + |b| <= |s| + |d|
    ensures s + Over(d, offset - |s|, b) == Over(s + d, offset, b)
  {
  }

  lemma OverBoth(s: seq<Byte>, d: seq<Byte>, offset: nat, a: seq<Byte>, b: seq<Byte>)
    requires offset + |a| <= |s| && |b| <= |d| && (b != [] ==> offset + |a| == |s|)
    ensures Over(s, offset, a) + Over(d, 0, b) == Over(s + d, offset, a + b)
  {
  }

  ////// A whole write

  /** The number, within its file, of the cluster that a position falls into. */
  function ClusterOf(offset: nat, clusterSize: nat): nat
    requires clusterSize > 0
  {
    offset / clusterSize
  }

  lemma Quotient(offset: nat, clusterSize: nat) returns (k: nat, r: nat)
    requires clusterSize > 0
    ensures k == ClusterOf(offset, clusterSize) == offset / clusterSize && r == offset % clusterSize < clusterSize
    ensures offset == k * clusterSize + r
  {
    k, r := ClusterOf(offset, clusterSize), offset % clusterSize;
  }

  lemma ClustersInOrder(a: nat, b: nat, clusterSize: nat)
    requires clusterSize > 0 && a <= b
    ensures ClusterOf(a, clusterSize) <= ClusterOf(b, clusterSize)
  {
    var k, r := Quotient(a, clusterSize);
    var last, r' := Quotient(b, clusterSize);
    if last < k {
      Monotone(last + 1, k, clusterSize);
    }
  }

  /** The number of clusters that a range of positions falls into, as the source computes it. */
  function Span(offset: nat, size: nat, clusterSize: nat): nat
    requires clusterSize > 0
  {
    if size == 0 then 0
    else
      ClustersInOrder(offset, offset + size - 1, clusterSize);
      ClusterOf(offset + size - 1, clusterSize) - ClusterOf(offset, clusterSize) + 1
  }

  /** That is the number it takes to hold the data. */
  lemma ClustersNeeded(offset: nat, size: nat, clusterSize: nat)
    requires clusterSize > 0 && size > 0
    ensures var n := Span(offset, size, clusterSize);
            n >= 1 && (n - 1) * clusterSize < offset % clusterSize + size <= n * clusterSize
  {
    var k, r := Quotient(offset, clusterSize);
    var last, r' := Quotient(offset + size - 1, clusterSize);
    ClustersInOrder(offset, offset + size - 1, clusterSize);
    var n := last - k + 1;
    assert n * clusterSize == (last + 1) * clusterSize - k * clusterSize;
    assert (n - 1) * clusterSize == last * clusterSize - k * clusterSize;
  }

  /** The condition on the start of a write: the cluster it falls into is on the chain, or
      it is the first cluster. */
  predicate Inside(chain: seq<int>, k: nat) {
    k == 0 || k < |chain|
  }

  /** The bytes of the chain have been overwritten from position `at` on. */
  ghost predicate Wrote(disk: Disk, disk': Disk, clusterSize: nat, chain: seq<int>, at: nat, data: seq<Byte>) {
    && OnDisk(disk, clusterSize, chain) && OnDisk(disk', clusterSize, chain)
    && at + |data| <= |Data(disk, clusterSize, chain)|
    && Data(disk', clusterSize, chain) == Over(Data(disk, clusterSize, chain), at, data)
  }

  /** What a successful write leaves in the file's clusters, when it begins at position r of
      cluster k and takes n clusters. Inside its chain the data is where it was meant to be;
      otherwise the file now consists of the new clusters alone, and the data is at the start
      of those. */
  ghost predicate WriteResultAt(disk: Disk, disk': Disk, clusterSize: nat, chain: seq<int>, chain': seq<int>,
                                k: nat, r: nat, n: nat, data: seq<Byte>)
  {
    if Inside(chain, k) then
      && chain <= chain' && |chain'| == Max(|chain|, k + n)
      && Wrote(disk, disk', clusterSize, chain', k * clusterSize + r, data)
    else
      |chain'| == n && Wrote(disk, disk', clusterSize, chain', 0 * clusterSize + r, data)
  }

  /** The same for a write at a file offset. */
  ghost predicate WriteResult(disk: Disk, disk': Disk, clusterSize: nat, chain: seq<int>, chain': seq<int>, offset: nat,
                              data: seq<Byte>)
    requires clusterSize > 0
  {
    WriteResultAt(disk, disk', clusterSize, chain, chain', ClusterOf(offset, clusterSize), offset % clusterSize,
                  Span(offset, |data|, clusterSize), data)
  }

  /** A change outside the chain does not matter to it. */
  lemma WroteKept(disk: Disk, disk': Disk, next: Disk, clusterSize: nat, chain: seq<int>, at: nat, data: seq<Byte>)
    requires Wrote(disk, disk', clusterSize, chain, at, data)
    requires |next| == |disk'| && forall x :: 0 <= x < |disk'| && x in chain ==> next[x] == disk'[x]
    ensures Wrote(disk, next, clusterSize, chain, at, data)
  {
    SameData(disk', next, clusterSize, chain, chain, |chain|);
  }

  /** The chain new clusters are added to, and the place in it where the write begins: the
      file's own, or none at all when the write does not begin inside it. */
  function Base(chain: seq<int>, k: nat): seq<int> {
    if Inside(chain, k) then chain else []
  }

  function Start(chain: seq<int>, k: nat): nat {
    if Inside(chain, k) then k else 0
  }

  /** Where in its chain the write begins. */
  lemma StartPosition(chain: seq<int>, k: nat, r: nat, clusterSize: nat) returns (pos: nat)
    ensures pos == Start(chain, k) * clusterSize + r
    ensures pos == if Inside(chain, k) then k * clusterSize + r else 0 * clusterSize + r
  {
    pos := Start(chain, k) * clusterSize + r;
  }

  /** How many clusters have to be taken for n clusters from the k-th on. */
  function ToTake(chain: seq<int>, k: nat, n: nat): nat {
    Max(|Base(chain, k)|, Start(chain, k) + n) - |Base(chain, k)|
  }

  /** How many clusters a write has to take. */
  function Wanted(chain: seq<int>, offset: nat, size: nat, clusterSize: nat): nat
    requires clusterSize > 0
  {
    if size == 0 then 0 else ToTake(chain, ClusterOf(offset, clusterSize), Span(offset, size, clusterSize))
  }

  /** Collecting succeeds exactly when there are enough free clusters. */
  lemma CollectIff(fat: seq<int>, fat': seq<int>, chain: seq<int>, k: nat, n: nat, grown: seq<int>, ok: bool)
    requires |grown| >= |Base(chain, k)| && CountFree(fat') == CountFree(fat) - (|grown| - |Base(chain, k)|)
    requires ok ==> |grown| == Max(|Base(chain, k)|, Start(chain, k) + n)
    requires !ok ==> |grown| < Start(chain, k) + n && NoneFree(fat')
    ensures ok <==> CountFree(fat) >= ToTake(chain, k, n)
    ensures CountFree(fat') == if ok then CountFree(fat) - ToTake(chain, k, n) else 0
  {
    NoneFreeBelow(fat', |fat'|);
  }

  /** The file's chain afterwards, when collecting clusters has made `grown` out of its base. */
  function FileChain(chain: seq<int>, grown: seq<int>): seq<int> {
    if grown == [] then chain else grown
  }

  /** Every file still has a chain of its own. */
  lemma CollectKeepsVolume(fat: seq<int>, fat': seq<int>, files: seq<File>, f: nat, k: nat, grown: seq<int>, first: int)
    requires Volume(fat, files) && f < |files|
    requires Grown(fat, fat', Base(files[f].chain, k), grown)
    requires first == if Base(files[f].chain, k) == [] && grown != [] then grown[0] else files[f].first
    ensures Volume(fat', files[f := File(first, FileChain(files[f].chain, grown))])
    ensures Inside(files[f].chain, k) ==> FileChain(files[f].chain, grown) == grown
  {
    var chain := files[f].chain;
    if grown == [] {
      assert chain == [] || Base(chain, k) == [];
      assert Grown(fat, fat', chain, chain) || chain == [];
      GrownKeepsVolume(fat, fat', files, f, chain, chain, first);
    } else {
      GrownKeepsVolume(fat, fat', files, f, Base(chain, k), grown, first);
    }
  }

  ghost predicate NoneFree(fat: seq<int>) {
    forall i :: 2 <= i < |fat| ==> fat[i] != FREE
  }

  /** A write that fails for lack of space can do no harm: it begins inside the chain, or there
      is nothing to lose, or nothing can be taken. */
  ghost predicate Harmless(fat: seq<int>, chain: seq<int>, k: nat) {
    Inside(chain, k) || chain == [] || NoneFree(fat)
  }

  /** A write that runs out of space leaves the file's old clusters at the front of its chain
      exactly when it began inside the chain, or the file had none, or there was not a single
      free cluster to begin with; otherwise the file begins with a new cluster. */
  lemma FailedWriteKeepsIff(fat: seq<int>, fat': seq<int>, chain: seq<int>, k: nat, grown: seq<int>)
    requires Linked(fat, chain, END) && Grown(fat, fat', Base(chain, k), grown) && NoneFree(fat')
    ensures chain <= FileChain(chain, grown) <==> Harmless(fat, chain, k)
  {
    if !Inside(chain, k) && chain != [] {
      if grown == [] {
        assert forall i :: 2 <= i < |fat| ==> fat'[i] == fat[i];
      } else {
        assert fat[grown[0]] == FREE;
        LinkedIsUsed(fat, chain, END, chain[0]);
      }
    }
  }

  /** What a read of a file of the given size returns. */
  ghost function ReadBytes(disk: Disk, clusterSize: nat, chain: seq<int>, fileSize: nat, offset: nat,
                           size: nat): seq<Byte>
    requires OnDisk(disk, clusterSize, chain)
  {
    Slice(Data(disk, clusterSize, chain), offset, Below(fileSize, offset, size))
  }

  /** Two clusters appended to a file of one cluster, when one is free: the file has lost its own. */
  lemma FailedAppend(fat: seq<int>, fat': seq<int>)
    requires fat == [0, END, END, FREE] && fat' == [0, END, END, END]
    ensures Linked(fat, [2], END) && Grown(fat, fat', Base([2], 1), [3]) && NoneFree(fat')
    ensures FileChain([2], [3]) == [3] && !Harmless(fat, [2], 1)
  {
    assert fat[3] == FREE;
  }

  /** What was written at an offset inside the chain can be read back there. */
  lemma ReadBackInside(disk: Disk, disk': Disk, clusterSize: nat, chain: seq<int>, size: nat, offset: nat,
                       data: seq<Byte>)
    requires Wrote(disk, disk', clusterSize, chain, offset, data) && OnDisk(disk', clusterSize, chain) && data != []
    ensures ReadBytes(disk', clusterSize, chain, Max(size, offset + |data|), offset, |data|) == data
  {
    var before, after := Data(disk, clusterSize, chain), Data(disk', clusterSize, chain);
    assert after[offset..offset + |data|] == data;
  }

  /** A file of n clusters cannot give back data that needs n clusters behind its first one. */
  lemma ReadBackShort(disk: Disk, clusterSize: nat, chain: seq<int>, k: nat, r: nat, size: nat, offset: nat,
                      length: nat)
    requires OnDisk(disk, clusterSize, chain) && chain != [] && k >= 1 && offset == k * clusterSize + r
    requires (|chain| - 1) * clusterSize < r + length
    ensures |ReadBytes(disk, clusterSize, chain, size, offset, length)| < length || length == 0
  {
    Length(disk, clusterSize, chain, |chain|);
    Monotone(1, k, clusterSize);
    OneMore(|chain| - 1, clusterSize);
  }

  /** Reading back what was written gives the data exactly when the write began inside the
      chain or in the first cluster. */
  lemma ReadBackIff(disk: Disk, disk': Disk, clusterSize: nat, chain: seq<int>, chain': seq<int>, size: nat,
                    offset: nat, data: seq<Byte>)
    requires clusterSize > 0 && data != [] && OnDisk(disk', clusterSize, chain')
    requires WriteResult(disk, disk', clusterSize, chain, chain', offset, data)
    ensures ReadBytes(disk', clusterSize, chain', Max(size, offset + |data|), offset, |data|) == data
            <==> Inside(chain, ClusterOf(offset, clusterSize))
  {
    if Inside(chain, ClusterOf(offset, clusterSize)) {
      WroteAtOffset(disk, disk', clusterSize, chain, chain', offset, data);
      ReadBackInside(disk, disk', clusterSize, chain', size, offset, data);
    } else {
      ReadBackOutside(disk, disk', clusterSize, chain, chain', Max(size, offset + |data|), offset, data);
    }
  }

  lemma ReadBackOutside(disk: Disk, disk': Disk, clusterSize: nat, chain: seq<int>, chain': seq<int>, size: nat,
                        offset: nat, data: seq<Byte>)
    requires clusterSize > 0 && data != [] && OnDisk(disk', clusterSize, chain')
    requires WriteResult(disk, disk', clusterSize, chain, chain', offset, data)
    requires !Inside(chain, ClusterOf(offset, clusterSize))
    ensures |ReadBytes(disk', clusterSize, chain', size, offset, |data|)| < |data|
  {
    var k, r := Quotient(offset, clusterSize);
    ClustersNeeded(offset, |data|, clusterSize);
    ReadBackShort(disk', clusterSize, chain', k, r, size, offset, |data|);
  }

  /** Inside the chain the data is at its offset. */
  lemma WroteAtOffset(disk: Disk, disk': Disk, clusterSize: nat, chain: seq<int>, chain': seq<int>, offset: nat,
                      data: seq<Byte>)
    requires clusterSize > 0 && Inside(chain, ClusterOf(offset, clusterSize))
    requires WriteResult(disk, disk', clusterSize, chain, chain', offset, data)
    ensures chain <= chain' && Wrote(disk, disk', clusterSize, chain', offset, data)
  {
    var k, r := Quotient(offset, clusterSize);
  }

  lemma OverAt(s: seq<Byte>, r: nat, d: seq<Byte>, p: nat)
    requires r + |d| <= |s| && p < |s|
    ensures Over(s, r, d)[p] == if r <= p < r + |d| then d[p - r] else s[p]
  {
  }

  /** Inside the chain a write is an update of the file's bytes: the new ones are the data,
      the others, up to the old size, are what they were, and the file still fits its chain. */
  lemma WriteUpdates(disk: Disk, disk': Disk, clusterSize: nat, chain: seq<int>, chain': seq<int>, size: nat,
                     offset: nat, data: seq<Byte>, p: nat)
    requires clusterSize > 0 && Inside(chain, ClusterOf(offset, clusterSize)) && size <= |chain| * clusterSize
    requires WriteResult(disk, disk', clusterSize, chain, chain', offset, data)
    requires OnDisk(disk, clusterSize, chain) && OnDisk(disk', clusterSize, chain')
    ensures Max(size, offset + |data|) <= |chain'| * clusterSize == |Data(disk', clusterSize, chain')|
    ensures size <= |Data(disk, clusterSize, chain)|
    ensures offset <= p < offset + |data| ==> Data(disk', clusterSize, chain')[p] == data[p - offset]
    ensures p < size && !(offset <= p < offset + |data|) ==>
              Data(disk', clusterSize, chain')[p] == Data(disk, clusterSize, chain)[p]
  {
    WroteAtOffset(disk, disk', clusterSize, chain, chain', offset, data);
    Length(disk', clusterSize, chain', |chain'|);
    Length(disk, clusterSize, chain', |chain'|);
    Monotone(|chain|, |chain'|, clusterSize);
    if p < |Data(disk, clusterSize, chain')| {
      OverAt(Data(disk, clusterSize, chain'), offset, data, p);
    }
    OldBytes(disk, clusterSize, chain, chain');
  }

  /** A longer chain begins with the same bytes. */
  lemma OldBytes(disk: Disk, clusterSize: nat, chain: seq<int>, chain': seq<int>)
    requires OnDisk(disk, clusterSize, chain) && OnDisk(disk, clusterSize, chain') && chain <= chain'
    ensures |Data(disk, clusterSize, chain)| == |chain| * clusterSize
    ensures Data(disk, clusterSize, chain) <= Data(disk, clusterSize, chain')
  {
    Length(disk, clusterSize, chain, |chain|);
    assert forall i :: 0 <= i < |chain| ==> chain[i] == chain'[i];
    SameData(disk, disk, clusterSize, chain, chain', |chain|);
    DataPrefix(disk, clusterSize, chain', |chain|, |chain'|);
  }

  /** Only the given clusters and one directory cluster differ. */
  ghost predicate Elsewhere(disk: Disk, disk': Disk, chain: seq<int>, dirCluster: int) {
    |disk'| == |disk| && forall x :: 0 <= x < |disk| && x !in chain && x != dirCluster ==> disk'[x] == disk[x]
  }

  /** The bytes of every other file are what they were. */
  lemma OtherFilesKept(disk: Disk, disk': Disk, clusterSize: nat, chain: seq<int>, dirCluster: int, other: seq<int>)
    requires Elsewhere(disk, disk', chain, dirCluster) && Disjoint(chain, other) && dirCluster !in other
    requires OnDisk(disk, clusterSize, other)
    ensures OnDisk(disk', clusterSize, other) && Data(disk', clusterSize, other) == Data(disk, clusterSize, other)
  {
    forall i | 0 <= i < |other|
      ensures disk'[other[i]] == disk[other[i]]
    {
      assert other[i] in other;
    }
    SameData(disk, disk', clusterSize, other, other, |other|);
  }

  /** One byte appended to a file that fills its only cluster of 512 bytes cannot be read back. */
  lemma AppendAtClusterEnd(disk: Disk, disk': Disk, taken: int)
    requires OnDisk(disk', 512, [taken]) && WriteResult(disk, disk', 512, [2], [taken], 512, [7])
    ensures ReadBytes(disk', 512, [taken], 513, 512, 1) == []
  {
    Length(disk', 512, [taken], 1);
  }

  /** A write that ran out of space has changed nothing that can be read. */
  lemma LongerChainReadsSame(disk: Disk, clusterSize: nat, chain: seq<int>, chain': seq<int>, fileSize: nat,
                             offset: nat, size: nat)
    requires OnDisk(disk, clusterSize, chain') && chain <= chain' && fileSize <= |chain| * clusterSize
    ensures OnDisk(disk, clusterSize, chain)
    ensures ReadBytes(disk, clusterSize, chain', fileSize, offset, size)
            == ReadBytes(disk, clusterSize, chain, fileSize, offset, size)
  {
    assert forall i :: 0 <= i < |chain| ==> chain[i] == chain'[i];
    SameData(disk, disk, clusterSize, chain, chain', |chain|);
    Length(disk, clusterSize, chain, |chain|);
    DataPrefix(disk, clusterSize, chain', |chain|, |chain'|);
  }

  /** The data loop before it comes to cluster j: what lies below has been patched,
      everything else is untouched. */
  ghost predicate Writing(disk: Disk, disk': Disk, clusterSize: nat, chain: seq<int>, offset: nat, data: seq<Byte>,
                          j: nat, done: nat) {
    && |disk'| == |disk| && j <= |chain| && done <= |data|
    && OnDisk(disk, clusterSize, chain) && OnDisk(disk', clusterSize, chain)
    && (forall i :: j <= i < |chain| ==> disk'[chain[i]] == disk[chain[i]])
    && (forall x :: 0 <= x < |disk| && x !in chain ==> disk'[x] == disk[x])
    && DataTo(disk', clusterSize, chain, j) == Patched(DataTo(disk, clusterSize, chain, j), offset, data)
    && done == Below(|DataTo(disk, clusterSize, chain, j)|, offset, |data|)
  }

  lemma WriteBegins(disk: Disk, clusterSize: nat, chain: seq<int>, k: nat, r: nat, data: seq<Byte>)
    requires OnDisk(disk, clusterSize, chain) && k <= |chain|
    ensures Writing(disk, disk, clusterSize, chain, k * clusterSize + r, data, k, 0)
  {
    Length(disk, clusterSize, chain, k);
  }

  /** Where in cluster j the transfer goes on. */
  lemma TurnPosition(clusterSize: nat, k: nat, r: nat, j: nat)
    requires r < clusterSize && k <= j
    ensures var offset := k * clusterSize + r;
            if j == k then j * clusterSize <= offset && offset - j * clusterSize == r else offset < j * clusterSize
  {
    if j > k {
      OneMore(k, clusterSize);
      Monotone(k + 1, j, clusterSize);
    }
  }

  lemma WriteStep(disk: Disk, disk': Disk, next: Disk, clusterSize: nat, chain: seq<int>, offset: nat, data: seq<Byte>,
                  j: nat, done: nat, at: nat, w: nat)
    requires Writing(disk, disk', clusterSize, chain, offset, data, j, done) && j < |chain| && Distinct(chain)
    requires var length := |DataTo(disk, clusterSize, chain, j)|;
             at <= clusterSize && (if length <= offset then at == offset - length else at == 0)
    requires w == Min(clusterSize - at, |data| - done)
    requires next == disk'[chain[j] := Over(disk'[chain[j]], at, data[done..done + w])]
    ensures Writing(disk, next, clusterSize, chain, offset, data, j + 1, done + w)
  {
    var c := chain[j];
    assert disk'[c] == disk[c];
    PatchGrows(DataTo(disk, clusterSize, chain, j), disk[c], offset, data, at, done, w);
    SameData(disk', next, clusterSize, chain, chain, j);
    assert DataTo(next, clusterSize, chain, j + 1) == DataTo(disk', clusterSize, chain, j) + next[c];
  }

  /** One turn of the data loop, which starts at position r of cluster k. */
  lemma WriteTurn(disk: Disk, disk': Disk, next: Disk, clusterSize: nat, chain: seq<int>, k: nat, r: nat, offset: nat,
                  data: seq<Byte>, j: nat, done: nat, cluster: int, at: nat, w: nat, piece: seq<Byte>)
    requires Writing(disk, disk', clusterSize, chain, offset, data, j, done) && k <= j < |chain| && Distinct(chain)
    requires r < clusterSize && offset == k * clusterSize + r
    requires cluster == chain[j] && at == (if j == k then r else 0) && w == Min(clusterSize - at, |data| - done)
    requires piece == data[done..done + w] && next == disk'[cluster := Over(disk'[cluster], at, piece)]
    ensures Writing(disk, next, clusterSize, chain, offset, data, j + 1, done + w)
  {
    TurnPosition(clusterSize, k, r, j);
    Length(disk, clusterSize, chain, j);
    WriteStep(disk, disk', next, clusterSize, chain, offset, data, j, done, at, w);
  }

  /** Once all the data has been written, the rest of the chain only has to be left alone. */
  lemma {:induction false} WriteDone(disk: Disk, disk': Disk, clusterSize: nat, chain: seq<int>, offset: nat,
                                     data: seq<Byte>, j: nat)
    requires Writing(disk, disk', clusterSize, chain, offset, data, j, |data|) && data != [] && Distinct(chain)
    ensures Wrote(disk, disk', clusterSize, chain, offset, data)
    ensures forall x :: 0 <= x < |disk| && x !in chain ==> disk'[x] == disk[x]
    decreases |chain| - j
  {
    if j < |chain| {
      var c := chain[j];
      assert Over(disk'[c], 0, data[|data|..|data|]) == disk'[c];
      assert disk'[c := disk'[c]] == disk';
      WriteStep(disk, disk', disk', clusterSize, chain, offset, data, j, |data|, 0, 0);
      WriteDone(disk, disk', clusterSize, chain, offset, data, j + 1);
    } else {
      assert data[..|data|] == data;
    }
  }

  /** After as many clusters as are needed, all the data has been written. */
  lemma WriteComplete(disk: Disk, disk': Disk, clusterSize: nat, chain: seq<int>, k: nat, r: nat, offset: nat,
                      data: seq<Byte>, n: nat, done: nat)
    requires Writing(disk, disk', clusterSize, chain, offset, data, k + n, done)
    requires offset == k * clusterSize + r && r + |data| <= n * clusterSize && data != []
    requires Distinct(chain)
    ensures Wrote(disk, disk', clusterSize, chain, offset, data)
    ensures forall x :: 0 <= x < |disk| && x !in chain ==> disk'[x] == disk[x]
  {
    Length(disk, clusterSize, chain, k + n);
    assert (k + n) * clusterSize == k * clusterSize + n * clusterSize;
    WriteDone(disk, disk', clusterSize, chain, offset, data, k + n);
  }

  ////// The size fields of the directory entry

  /** n as eight little-endian bytes. */
  function LittleEndian(n: nat, count: nat): (s: seq<Byte>)
    ensures |s| == count
  {
    if count == 0 then [] else [n % 256] + LittleEndian(n / 256, count - 1)
  }

  function ValueOf(s: seq<Byte>): nat {
    if s == [] then 0 else s[0] + 256 * ValueOf(s[1..])
  }

  function Power256(count: nat): nat {
    if count == 0 then 1 else 256 * Power256(count - 1)
  }

  lemma {:induction false} SizeFieldRoundTrip(n: nat, count: nat)
    requires n < Power256(count)
    ensures ValueOf(LittleEndian(n, count)) == n
  {
    if count != 0 {
      SizeFieldRoundTrip(n / 256, count - 1);
    }
  }

  /** The directory cluster with both length fields of the entry's stream record set. */
  function WithSize(cluster: Cluster, entry: nat, size: nat): Cluster
    requires entry * 32 + 64 <= |cluster|
  {
    Over(Over(cluster, entry * 32 + 40, LittleEndian(size, 8)), entry * 32 + 56, LittleEndian(size, 8))
  }

  /** The directory entry of a file of the given size after a write that ended at `end`. */
  ghost predicate EntryUpdated(disk: Disk, disk': Disk, dirCluster: nat, entry: nat, size: nat, end: nat) {
    && dirCluster < |disk| == |disk'| && entry * 32 + 64 <= |disk[dirCluster]|
    && disk'[dirCluster] == if end > size then WithSize(disk[dirCluster], entry, end) else disk[dirCluster]
  }

  /** The size fields are outside the file's own clusters. */
  lemma SizeSaved(disk: Disk, disk': Disk, next: Disk, clusterSize: nat, chain: seq<int>, pos: nat, data: seq<Byte>,
                  dirCluster: nat, entry: nat, size: nat, end: nat)
    requires Wrote(disk, disk', clusterSize, chain, pos, data) && |disk'| == |disk| && dirCluster !in chain
    requires forall x :: 0 <= x < |disk| && x !in chain ==> disk'[x] == disk[x]
    requires dirCluster < |disk| && entry * 32 + 64 <= |disk[dirCluster]| == |disk'[dirCluster]|
    requires next == if end > size then disk'[dirCluster := WithSize(disk'[dirCluster], entry, end)] else disk'
    ensures Wrote(disk, next, clusterSize, chain, pos, data)
    ensures Elsewhere(disk, next, chain, dirCluster) && EntryUpdated(disk, next, dirCluster, entry, size, end)
  {
    WroteKept(disk, disk', next, clusterSize, chain, pos, data);
  }

  /** Byte p is in one of the two length fields of the entry. */
  predicate InSizeField(entry: nat, p: int) {
    entry * 32 + 40 <= p < entry * 32 + 48 || entry * 32 + 56 <= p < entry * 32 + 64
  }

  /** Both length fields read back as the size, and no other byte of the directory differs. */
  lemma WithSizeFields(cluster: Cluster, entry: nat, size: nat)
    requires entry * 32 + 64 <= |cluster| && size < 0x1_0000_0000_0000_0000
    ensures var c := WithSize(cluster, entry, size);
            && |c| == |cluster|
            && ValueOf(c[entry * 32 + 40..entry * 32 + 48]) == size == ValueOf(c[entry * 32 + 56..entry * 32 + 64])
            && (forall p :: 0 <= p < |c| && !InSizeField(entry, p) ==> c[p] == cluster[p])
  {
    var c, field := WithSize(cluster, entry, size), LittleEndian(size, 8);
    assert Over(cluster, entry * 32 + 40, field)[entry * 32 + 40..entry * 32 + 48] == field;
    assert c[entry * 32 + 40..entry * 32 + 48] == LittleEndian(size, 8);
    assert c[entry * 32 + 56..entry * 32 + 64] == LittleEndian(size, 8);
    SizeFieldRoundTrip(size, 8);
  }
}
