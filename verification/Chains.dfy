/**
  Chains of clusters in a file allocation table, as both the exFAT and the FAT32 driver keep
  them: each entry holds the number of the next cluster, the last one an end mark.
*/
module Chains {
  import opened Common

  const FREE := 0

  ghost predicate Disjoint(a: seq<int>, b: seq<int>) {
    forall x :: x in a ==> x !in b
  }

  /** What the entry of the i-th cluster of a chain holds. */
  function NextOf(chain: seq<int>, i: nat, end: int): int {
    if i + 1 < |chain| then chain[i + 1] else end
  }

  ghost predicate Follows(fat: seq<int>, chain: seq<int>, end: int) {
    && (forall i :: 0 <= i < |chain| ==> 2 <= chain[i] < |fat|)
    && (forall i {:trigger NextOf(chain, i, end)} :: 0 <= i < |chain| ==> fat[chain[i]] == NextOf(chain, i, end))
  }

  /** The clusters follow each other in the table, the last one holds the end mark, none repeats. */
  ghost predicate Linked(fat: seq<int>, chain: seq<int>, end: int) {
    Follows(fat, chain, end) && Distinct(chain)
  }

  lemma LinkedIsUsed(fat: seq<int>, chain: seq<int>, end: int, x: int)
    requires Linked(fat, chain, end) && x in chain && end != FREE
    ensures 2 <= x < |fat| && fat[x] != FREE
  {
    var i: nat :| i < |chain| && chain[i] == x;
    assert fat[chain[i]] == NextOf(chain, i, end);
  }

  ////// Free clusters

  /** The number of FREE entries in [2, k). */
  function FreeBelow(fat: seq<int>, k: nat): (n: nat)
    requires k <= |fat|
    ensures n <= if k <= 2 then 0 else k - 2
  {
    if k <= 2 then 0 else FreeBelow(fat, k - 1) + if fat[k - 1] == FREE then 1 else 0
  }

  function CountFree(fat: seq<int>): nat {
    FreeBelow(fat, |fat|)
  }

  function Weight(value: int): nat {
    if value == FREE then 1 else 0
  }

  lemma {:induction false} FreeBelowUpdate(fat: seq<int>, k: nat, c: nat, value: int)
    requires k <= |fat| && c < |fat|
    ensures FreeBelow(fat[c := value], k)
            == FreeBelow(fat, k) + if 2 <= c < k then Weight(value) - Weight(fat[c]) else 0
  {
    if k > 2 {
      FreeBelowUpdate(fat, k - 1, c, value);
    }
  }

  lemma CountUpdate(fat: seq<int>, c: nat, value: int)
    requires c < |fat|
    ensures CountFree(fat[c := value]) == CountFree(fat) + if c < 2 then 0 else Weight(value) - Weight(fat[c])
  {
    FreeBelowUpdate(fat, |fat|, c, value);
  }

  lemma {:induction false} NoneFreeBelow(fat: seq<int>, k: nat)
    requires k <= |fat|
    ensures FreeBelow(fat, k) == 0 <==> forall c :: 2 <= c < k ==> fat[c] != FREE
  {
    if k > 2 {
      NoneFreeBelow(fat, k - 1);
    }
  }

  ////// What the clusters of a chain hold: bytes of a file, or slots of a directory

  ghost predicate OnDisk<T>(disk: seq<seq<T>>, clusterSize: nat, chain: seq<int>) {
    forall i :: 0 <= i < |chain| ==> 0 <= chain[i] < |disk| && |disk[chain[i]]| == clusterSize
  }

  /** Every cluster has the same size. */
  ghost predicate Sized<T>(disk: seq<seq<T>>, clusterSize: nat) {
    forall i :: 0 <= i < |disk| ==> |disk[i]| == clusterSize
  }

  /** What the first k clusters hold, in order. */
  ghost function DataTo<T>(disk: seq<seq<T>>, clusterSize: nat, chain: seq<int>, k: nat): seq<T>
    requires OnDisk(disk, clusterSize, chain) && k <= |chain|
  {
    if k == 0 then [] else DataTo(disk, clusterSize, chain, k - 1) + disk[chain[k - 1]]
  }

  /** All that the clusters of a chain can hold, in order. */
  ghost function Data<T>(disk: seq<seq<T>>, clusterSize: nat, chain: seq<int>): seq<T>
    requires OnDisk(disk, clusterSize, chain)
  {
    DataTo(disk, clusterSize, chain, |chain|)
  }

  lemma {:induction false} DataPrefix<T>(disk: seq<seq<T>>, clusterSize: nat, chain: seq<int>, j: nat, k: nat)
    requires OnDisk(disk, clusterSize, chain) && j <= k <= |chain|
    ensures DataTo(disk, clusterSize, chain, j) <= DataTo(disk, clusterSize, chain, k)
    decreases k
  {
    if j == k {
    } else {
      DataPrefix(disk, clusterSize, chain, j, k - 1);
    }
  }

  /** Only the clusters themselves matter, and only the first k of them. */
  lemma {:induction false} SameData<T>(disk: seq<seq<T>>, disk': seq<seq<T>>, clusterSize: nat, chain: seq<int>,
                                       chain': seq<int>, k: nat)
    requires OnDisk(disk, clusterSize, chain) && OnDisk(disk', clusterSize, chain')
    requires k <= |chain| && k <= |chain'|
    requires forall i :: 0 <= i < k ==> chain'[i] == chain[i] && disk'[chain[i]] == disk[chain[i]]
    ensures DataTo(disk', clusterSize, chain', k) == DataTo(disk, clusterSize, chain, k)
  {
    if k == 0 {
    } else {
      SameData(disk, disk', clusterSize, chain, chain', k - 1);
    }
  }
}
