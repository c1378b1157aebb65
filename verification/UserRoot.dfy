/** A new user address space: a fresh root whose upper half is copied from the kernel's. */
module UserRoot {
  import opened Common
  import opened PageWalk
  import opened PageTeardown
  import opened AddressSpace

  /** The root table that paging_create_user_task builds from the kernel's. */
  function KernelHalf(kernel: seq<nat>, n: nat): (table: seq<nat>)
    requires |kernel| == ENTRIES && n <= ENTRIES
    ensures |table| == n
    ensures forall i :: 0 <= i < n ==> table[i] == if i >= USER_HALF && Present(kernel[i]) then kernel[i] else 0
  {
    if n == 0 then []
    else KernelHalf(kernel, n - 1) + [if n - 1 >= USER_HALF && Present(kernel[n - 1]) then kernel[n - 1] else 0]
  }

  /** Memory with a new root page. */
  function WithRoot(m: Memory, kroot: nat, root: nat): Memory
    requires IsTable(m, kroot)
  {
    m[root := KernelHalf(m[kroot], ENTRIES)]
  }

  /** The kernel's entries have been copied up to the i-th, and nothing else has changed. */
  ghost predicate HalfCopied(m: Memory, m': Memory, kroot: nat, root: nat, i: nat) {
    && m'.Keys == m.Keys && (forall t :: t in m && t != root ==> m'[t] == m[t])
    && root != kroot && IsTable(m, kroot) && IsTable(m', root)
    && forall k :: 0 <= k < ENTRIES ==>
         m'[root][k] == if USER_HALF <= k < i && Present(m[kroot][k]) then m[kroot][k] else 0
  }

  lemma CopyBegins(m: Memory, kroot: nat, root: nat)
    requires IsTable(m, kroot) && IsTable(m, root) && root != kroot
    ensures HalfCopied(m, m[root := Zeros(ENTRIES)], kroot, root, USER_HALF)
  {
  }

  lemma CopyTurn(m: Memory, m': Memory, kroot: nat, root: nat, i: nat)
    requires HalfCopied(m, m', kroot, root, i) && USER_HALF <= i < ENTRIES
    ensures IsTable(m', kroot) && m'[kroot][i] == m[kroot][i] && IsTable(m', root)
    ensures HalfCopied(m, if Present(m[kroot][i]) then SetEntry(m', root, i, m[kroot][i]) else m', kroot, root, i + 1)
  {
  }

  lemma CopyEnds(m: Memory, m': Memory, kroot: nat, root: nat)
    requires HalfCopied(m, m', kroot, root, ENTRIES)
    ensures IsTable(m, kroot) && m' == WithRoot(m, kroot, root)
  {
    assert m'[root] == KernelHalf(m[kroot], ENTRIES);
  }

  lemma FreshRootChild(m: Memory, kroot: nat, root: nat, j: nat)
    requires IsTable(m, kroot)
    ensures Child(WithRoot(m, kroot, root), root, j) == if j < USER_HALF then None else Child(m, kroot, j)
  {
    assert !Present(0);
  }

  lemma OtherChild(m: Memory, kroot: nat, root: nat, t: nat, j: nat)
    requires IsTable(m, kroot) && t != root
    ensures Child(WithRoot(m, kroot, root), t, j) == Child(m, t, j)
  {
  }

  /** What paging_create_user_task relies on of the kernel's root: it is a table, the tables
      of its upper half form a tree without huge pages, and none of these pages is free.
      Nothing is asked of its lower half. */
  ghost predicate KernelRoot(m: Memory, free: set<nat>, kroot: nat) {
    && FreePages(m, free) && IsTable(m, kroot) && kroot !in free
    && (forall q :: UpperPath(q) && |q| <= 3 && Node(m, kroot, q).Some? ==>
          var t := Node(m, kroot, q).value; IsTable(m, t) && t != 0 && t !in free)
    && (forall p, q :: UpperPath(p) && UpperPath(q) && |p| <= 3 && |q| <= 3 ==>
          Node(m, kroot, p).Some? && Node(m, kroot, q) == Node(m, kroot, p) ==> p == q)
    && (forall i: nat :: USER_HALF <= i < ENTRIES && Present(m[kroot][i]) ==> !Huge(m[kroot][i]))
    && (forall q, i: nat ::
          UpperPath(q) && |q| <= 2 && Node(m, kroot, q).Some? && Child(m, Node(m, kroot, q).value, i).Some? ==>
          !Huge(m[Node(m, kroot, q).value][i]))
  }

  lemma {:induction false} EmptyUpperHalf(m: Memory, kroot: nat, q: Path)
    requires IsTable(m, kroot) && (forall i :: USER_HALF <= i < ENTRIES ==> !Present(m[kroot][i]))
    requires UpperPath(q)
    ensures Node(m, kroot, q).None?
  {
    if |q| == 1 {
      assert q[..0] == [];
      assert Node(m, kroot, q) == Child(m, kroot, q[0]);
    } else {
      EmptyUpperHalf(m, kroot, q[..|q| - 1]);
    }
  }

  /** The root that the boot code builds uses its first two entries only, so it qualifies,
      whatever its page directories hold. */
  lemma BootRootIsKernelRoot(m: Memory, free: set<nat>, kroot: nat)
    requires FreePages(m, free) && IsTable(m, kroot) && kroot !in free
    requires forall i :: 2 <= i < ENTRIES ==> m[kroot][i] == 0
    ensures KernelRoot(m, free, kroot) && SharedTables(m, kroot) == {}
  {
    assert !Present(0);
    forall q | UpperPath(q)
      ensures Node(m, kroot, q).None?
    {
      EmptyUpperHalf(m, kroot, q);
    }
  }

  /** Table t is not reached through the upper half. */
  ghost predicate NotAbove(m: Memory, kroot: nat, t: nat) {
    forall q :: UpperPath(q) && |q| <= 3 ==> Node(m, kroot, q) != Some(t)
  }

  lemma {:induction false} WalkFromCopy(m: Memory, kroot: nat, root: nat, q: Path)
    requires IsTable(m, kroot) && NotAbove(m, kroot, root) && 1 <= |q| <= 4
    ensures Node(WithRoot(m, kroot, root), root, q) == if q[0] < USER_HALF then None else Node(m, kroot, q)
  {
    var m' := WithRoot(m, kroot, root);
    var q', j := q[..|q| - 1], q[|q| - 1];
    assert q == q' + [j];
    NodeExtend(m', root, q', j);
    NodeExtend(m, kroot, q', j);
    if q' == [] {
      FreshRootChild(m, kroot, root, j);
    } else {
      WalkFromCopy(m, kroot, root, q');
      if UpperPath(q') && Node(m, kroot, q').Some? {
        OtherChild(m, kroot, root, Node(m, kroot, q').value, j);
      }
    }
  }

  /** Walks from the new root: none in the user half, the kernel's in the upper half. */
  lemma FreshRootWalk(m: Memory, free: set<nat>, kroot: nat, root: nat, q: Path)
    requires KernelRoot(m, free, kroot) && root in free && 1 <= |q| <= 4
    ensures Node(WithRoot(m, kroot, root), root, q) == if q[0] < USER_HALF then None else Node(m, kroot, q)
  {
    WalkFromCopy(m, kroot, root, q);
  }

  /** Table t is reached from the kernel's root through its upper half. */
  ghost predicate InUpperHalf(m: Memory, kroot: nat, t: nat) {
    exists q :: UpperPath(q) && |q| <= 3 && Node(m, kroot, q) == Some(t)
  }

  /** The kernel's tables that a new address space shares. */
  ghost function SharedTables(m: Memory, kroot: nat): set<nat> {
    set t | t in m && InUpperHalf(m, kroot, t)
  }

  lemma FreshRootIsTree(m: Memory, free: set<nat>, kroot: nat, root: nat)
    requires KernelRoot(m, free, kroot) && root in free
    ensures Tree(WithRoot(m, kroot, root), root)
  {
    var m' := WithRoot(m, kroot, root);
    forall q | |q| <= 3 && Node(m', root, q).Some?
      ensures q != [] ==> UpperPath(q) && Node(m', root, q) == Node(m, kroot, q) && Node(m', root, q).value != root
      ensures IsTable(m', Node(m', root, q).value) && Node(m', root, q).value != 0
    {
      if q != [] {
        FreshRootWalk(m, free, kroot, root, q);
      }
    }
    forall p, q | |p| <= 3 && |q| <= 3 && Node(m', root, p).Some? && Node(m', root, q) == Node(m', root, p)
      ensures p == q
    {
      assert p == [] <==> Node(m', root, p) == Some(root);
      assert q == [] <==> Node(m', root, q) == Some(root);
    }
  }

  lemma FreshRootIsPlain(m: Memory, free: set<nat>, kroot: nat, root: nat)
    requires KernelRoot(m, free, kroot) && root in free
    ensures Plain(WithRoot(m, kroot, root), root)
  {
    var m' := WithRoot(m, kroot, root);
    forall q, i: nat | |q| <= 2 && Node(m', root, q).Some? && Child(m', Node(m', root, q).value, i).Some?
      ensures !Huge(m'[Node(m', root, q).value][i])
    {
      if q == [] {
        FreshRootChild(m, kroot, root, i);
        assert m'[root][i] == m[kroot][i];
      } else {
        FreshRootWalk(m, free, kroot, root, q);
        OtherChild(m, kroot, root, Node(m, kroot, q).value, i);
      }
    }
  }

  lemma FreshRootIsSpace(m: Memory, free: set<nat>, kroot: nat, root: nat)
    requires KernelRoot(m, free, kroot) && root in free
    ensures Space(WithRoot(m, kroot, root), free - {root}, root, SharedTables(m, kroot) + {root})
  {
    var m' := WithRoot(m, kroot, root);
    var own := SharedTables(m, kroot) + {root};
    FreshRootIsTree(m, free, kroot, root);
    FreshRootIsPlain(m, free, kroot, root);
    forall q | |q| <= 3 && Node(m', root, q).Some?
      ensures Node(m', root, q).value in own
    {
      if q != [] {
        FreshRootWalk(m, free, kroot, root, q);
        assert InUpperHalf(m, kroot, Node(m, kroot, q).value);
      }
    }
    forall t | t in own
      ensures InTree(m', root, t)
    {
      if t == root {
        assert Node(m', root, []) == Some(root);
      } else {
        var q :| UpperPath(q) && |q| <= 3 && Node(m, kroot, q) == Some(t);
        FreshRootWalk(m, free, kroot, root, q);
      }
    }
    SharedIsNotFree(m, free, kroot);
  }

  lemma SharedIsNotFree(m: Memory, free: set<nat>, kroot: nat)
    requires KernelRoot(m, free, kroot)
    ensures SharedTables(m, kroot) !! free
  {
    forall t | t in SharedTables(m, kroot)
      ensures t !in free
    {
      var q :| UpperPath(q) && |q| <= 3 && Node(m, kroot, q) == Some(t);
    }
  }

  const UPPER_PAGES := 0x8_0000_0000  // page numbers from 2^35 on belong to the kernel

  ghost function UpperHalf(mapped: map<int, int>): map<int, int> {
    map v | v in mapped && v >= UPPER_PAGES :: mapped[v]
  }

  lemma RootIndex(v: nat)
    requires v < FRAMES
    ensures PathOf(v * 4096)[0] < USER_HALF <==> v < UPPER_PAGES
  {
    assert v * 4096 / 0x80_0000_0000 == v / 0x800_0000;
  }

  lemma FreshRootPage(m: Memory, free: set<nat>, kroot: nat, root: nat, v: nat)
    requires KernelRoot(m, free, kroot) && root in free && v < FRAMES
    ensures Walk(WithRoot(m, kroot, root), root, v * 4096) == if v < UPPER_PAGES then None else Walk(m, kroot, v * 4096)
  {
    FreshRootWalk(m, free, kroot, root, PathOf(v * 4096));
    RootIndex(v);
  }

  lemma UpperHalfMaps(m: Memory, m': Memory, kroot: nat, root: nat)
    requires forall v: nat :: v < FRAMES ==>
            Walk(m', root, v * 4096) == if v < UPPER_PAGES then None else Walk(m, kroot, v * 4096)
    ensures Mapping(m', root) == UpperHalf(Mapping(m, kroot))
  {
    MapsAsMapping(m, kroot, Mapping(m, kroot));
    MapsAsMapping(m', root, UpperHalf(Mapping(m, kroot)));
  }

  /** A new address space maps what the kernel maps in its upper half, and nothing else. */
  lemma FreshRootMapping(m: Memory, free: set<nat>, kroot: nat, root: nat)
    requires KernelRoot(m, free, kroot) && root in free
    ensures Mapping(WithRoot(m, kroot, root), root) == UpperHalf(Mapping(m, kroot))
  {
    var m' := WithRoot(m, kroot, root);
    forall v: nat | v < FRAMES
      ensures Walk(m', root, v * 4096) == if v < UPPER_PAGES then None else Walk(m, kroot, v * 4096)
    {
      FreshRootPage(m, free, kroot, root, v);
    }
    UpperHalfMaps(m, m', kroot, root);
  }

  /** The page a four-step path belongs to. */
  lemma PathIsPage(p: Path) returns (v: nat)
    requires |p| == 4 && p[0] < 512 && p[1] < 512 && p[2] < 512 && p[3] < 512
    ensures v < FRAMES && PathOf(v * 4096) == p
  {
    v := Number(p[0], p[1], p[2], p[3]);
    PathDigits(v * 4096);
    PageOfNumber(v);
    var q := PathOf(v * 4096);
    DigitsAreUnique(p[0], p[1], p[2], p[3], q[0], q[1], q[2], q[3]);
  }

  /** In the user half no two pages share a frame and no table is mapped. */
  ghost predicate PrivateMapping(mapped: map<int, int>, own: set<nat>) {
    && (forall u, v :: u in mapped && v in mapped && 0 <= u < v < UPPER_PAGES ==> mapped[u] != mapped[v])
    && (forall v :: v in mapped && 0 <= v < UPPER_PAGES ==> mapped[v] !in own)
  }

  lemma MappedFrame(m: Memory, root: nat, p: Path) returns (v: nat)
    requires |p| == 4 && UserPath(p) && Node(m, root, p).Some?
    ensures v < UPPER_PAGES && PathOf(v * 4096) == p
    ensures v in Mapping(m, root) && Node(m, root, p) == Some(Mapping(m, root)[v])
  {
    IndicesInRange(m, root, p, 0);
    IndicesInRange(m, root, p, 1);
    IndicesInRange(m, root, p, 2);
    IndicesInRange(m, root, p, 3);
    v := PathIsPage(p);
    RootIndex(v);
  }

  /** An address space whose user pages are mapped to distinct frames that are not its
      tables can be torn down exactly. */
  lemma PrivateSpaceIsUnshared(m: Memory, free: set<nat>, root: nat, own: set<nat>)
    requires Space(m, free, root, own) && PrivateMapping(Mapping(m, root), own)
    ensures NoSharing(m, root) && NoHugePages(m, root)
  {
    forall p, q | UserPath(p) && UserPath(q) && Node(m, root, p).Some? && Node(m, root, q) == Node(m, root, p)
      ensures p == q
    {
      assert |p| < 4 ==> Node(m, root, p).value in own;
      assert |q| < 4 ==> Node(m, root, q).value in own;
      if |p| == 4 {
        var v := MappedFrame(m, root, p);
        assert Node(m, root, p).value !in own;
      }
      if |q| == 4 {
        var w := MappedFrame(m, root, q);
        assert Node(m, root, q).value !in own;
      }
      assert |p| == 4 <==> |q| == 4;
      if |p| == 4 {
        var v := MappedFrame(m, root, p);
        var w := MappedFrame(m, root, q);
        assert v == w;
      }
    }
  }

  /** What paging_create_user_task builds for user memory below the kernel's half is such
      an address space, provided the user's pages are not page tables themselves. */
  lemma CreatedSpaceIsPrivate(kernel: map<int, int>, v: nat, n: nat, own: set<nat>)
    requires v + n <= UPPER_PAGES
    requires forall k :: v <= k < v + n ==> k !in own
    ensures PrivateMapping(Ranged(UpperHalf(kernel), v, v, n), own)
    ensures forall u :: 0 <= u < UPPER_PAGES ==> (u in Ranged(UpperHalf(kernel), v, v, n) <==> v <= u < v + n)
    ensures forall u :: v <= u < v + n ==> Ranged(UpperHalf(kernel), v, v, n)[u] == u
  {
    var mapped := Ranged(UpperHalf(kernel), v, v, n);
    forall u | 0 <= u < UPPER_PAGES
      ensures u in mapped <==> v <= u < v + n
      ensures u in mapped ==> mapped[u] == u
    {
      if v <= u < v + n {
        RangedPages(UpperHalf(kernel), v, v, n, u - v);
      } else {
        forall j: nat | j < n
          ensures u != PageAfter(v, j)
        {
        }
        RangedElsewhere(UpperHalf(kernel), v, v, n, u);
      }
    }
  }

  /** The kernel's half of the address space at `root` is the one copied from kroot in m0. */
  ghost predicate Copied(m0: Memory, kroot: nat, m: Memory, root: nat) {
    forall q :: UpperPath(q) && |q| <= 3 ==> Node(m, root, q) == Node(m0, kroot, q)
  }

  lemma FreshRootIsCopied(m: Memory, free: set<nat>, kroot: nat, root: nat)
    requires KernelRoot(m, free, kroot) && root in free
    ensures Copied(m, kroot, WithRoot(m, kroot, root), root)
  {
    forall q | UpperPath(q) && |q| <= 3
      ensures Node(WithRoot(m, kroot, root), root, q) == Node(m, kroot, q)
    {
      FreshRootWalk(m, free, kroot, root, q);
    }
  }

  /** The tables of an address space that the user half leads to are those that are not
      shared with the kernel. */
  lemma UserTables(m0: Memory, free0: set<nat>, kroot: nat, m: Memory, free: set<nat>, root: nat, taken: set<nat>,
                   x: nat)
    requires KernelRoot(m0, free0, kroot) && Copied(m0, kroot, m, root)
    requires Space(m, free, root, SharedTables(m0, kroot) + taken) && taken !! SharedTables(m0, kroot)
    ensures (exists p :: UserPath(p) && |p| <= 3 && Node(m, root, p) == Some(x)) <==> x in taken
  {
    forall p | UpperPath(p) && |p| <= 3 && Node(m, root, p).Some?
      ensures Node(m, root, p).value in SharedTables(m0, kroot)
    {
      assert InUpperHalf(m0, kroot, Node(m, root, p).value);
    }
    if x in taken {
      var p :| |p| <= 3 && Node(m, root, p) == Some(x);
      assert UserPath(p);
    } else {
      forall p | UserPath(p) && |p| <= 3 && Node(m, root, p).Some?
        ensures Node(m, root, p) != Some(x)
      {
        if x in SharedTables(m0, kroot) {
          var q :| UpperPath(q) && |q| <= 3 && Node(m0, kroot, q) == Some(x);
          assert Node(m, root, q) == Some(x);
        }
      }
    }
  }

  lemma UserPages(m: Memory, root: nat, kernel: map<int, int>, v: nat, n: nat, own: set<nat>, x: nat)
    requires Mapping(m, root) == Ranged(UpperHalf(kernel), v, v, n)
    requires v + n <= UPPER_PAGES && forall k :: v <= k < v + n ==> k !in own
    ensures (exists p :: UserPath(p) && |p| == 4 && Node(m, root, p) == Some(x)) <==> v <= x < v + n
  {
    CreatedSpaceIsPrivate(kernel, v, n, own);
    if v <= x < v + n {
      RootIndex(x);
      assert x in Mapping(m, root) && Mapping(m, root)[x] == x;
      assert Walk(m, root, x * 4096) == Some(x);
      assert UserPath(PathOf(x * 4096));
    } else {
      forall p | UserPath(p) && |p| == 4 && Node(m, root, p).Some?
        ensures Node(m, root, p) != Some(x)
      {
        var u := MappedFrame(m, root, p);
      }
    }
  }

  /** The end of a user task: the tables taken for it and the pages of its memory are freed,
      each exactly once, and nothing else: none of the tables it shares with the kernel. */
  lemma CreatedTaskTeardown(m0: Memory, free0: set<nat>, kroot: nat, m: Memory, free: set<nat>, root: nat,
                            taken: set<nat>, kernel: map<int, int>, v: nat, n: nat, x: nat)
    requires KernelRoot(m0, free0, kroot) && Copied(m0, kroot, m, root)
    requires Space(m, free, root, SharedTables(m0, kroot) + taken) && taken !! SharedTables(m0, kroot)
    requires Mapping(m, root) == Ranged(UpperHalf(kernel), v, v, n)
    requires v + n <= UPPER_PAGES && forall k :: v <= k < v + n ==> k !in SharedTables(m0, kroot) + taken
    ensures Distinct(FreedBy(m, root))
    ensures x in FreedBy(m, root) <==> x in taken || v <= x < v + n
  {
    var own := SharedTables(m0, kroot) + taken;
    CreatedSpaceIsPrivate(kernel, v, n, own);
    PrivateSpaceIsUnshared(m, free, root, own);
    TeardownIsExact(m, root, x);
    UserTables(m0, free0, kroot, m, free, root, taken, x);
    UserPages(m, root, kernel, v, n, own, x);
  }

  /** Building a user's address space changes only pages that were free: the tables it shares
      with the kernel stay as they are. */
  lemma CreatedApart(m0: Memory, f0: set<nat>, kroot: nat, m1: Memory, m: Memory, f: set<nat>, root: nat)
    requires KernelRoot(m0, f0, kroot) && root in f0 && Copied(m0, kroot, m1, root) && ChangedOnly(m0, m1, {root})
    requires Updated(m1, f0 - {root}, m, f, root, SharedTables(m0, kroot) + {root}) && UpperKept(m1, m, root)
    ensures ChangedOnly(m0, m, f0) && Copied(m0, kroot, m, root)
  {
    forall t | t in m0 && t !in f0
      ensures m[t] == m0[t]
    {
      if t in SharedTables(m0, kroot) {
        var q :| UpperPath(q) && |q| <= 3 && Node(m0, kroot, q) == Some(t);
        assert Node(m1, root, q) == Some(t) && SameTable(m1, m, Node(m1, root, q));
      }
    }
  }

  /** Memory that ends below the kernel's half has its last page there too. */
  lemma PagesBelowUpperHalf(start: nat, end: nat)
    requires start <= end <= UPPER_HALF
    ensures start / 4096 + PagesUpTo(start, end) <= UPPER_PAGES
  {
  }
}
