/** An address space as its user sees it: the pages it maps, and what may be done with each. */
module SpaceViews {
  import opened PageWalk
  import opened AddressSpace
  import opened HugePages
  import opened PageRights
  import opened Descent
  import opened PageRanges
  import opened UserRoot

  ////// Rights from flags

  ghost function FlagsOn(flags: Flags, q: Path): Option<nat> {
    if q in flags then Some(flags[q]) else None
  }

  /** What the flags of an address space allow for the page at path p. */
  ghost function RightsIn(flags: Flags, p: Path): Option<Rights>
    requires |p| == 4
  {
    RightsBy(FlagsOn(flags, p[..1]), FlagsOn(flags, p[..2]), FlagsOn(flags, p[..3]), FlagsOn(flags, p))
  }

  /** That is what the processor allows. */
  lemma AccessIsRights(m: Memory, free: set<nat>, root: nat, own: set<nat>, va: nat)
    requires Space(m, free, root, own)
    ensures Access(m, root, PathOf(va)) == RightsIn(TreeFlags(m, root), PathOf(va))
  {
    PlainTranslates(m, root, va);
    AccessIn(m, root, PathOf(va));
  }

  lemma AccessIn(m: Memory, root: nat, p: Path)
    requires |p| == 4 && !MeetsHuge(m, root, p)
    ensures Access(m, root, p) == RightsIn(TreeFlags(m, root), p)
  {
    AccessByFlags(m, root, p);
    FlagsAsTree(m, root, TreeFlags(m, root));
  }

  /** Mapping or unmapping a page leaves the rights of every other page alone. */
  lemma OthersKeepRights(flags: Flags, p: Path, mark: nat, q: Path)
    requires |p| == 4 && |q| == 4 && q != p && RightsIn(flags, q).Some?
    ensures RightsIn(Marked(flags, p, mark), q) == RightsIn(flags, q)
    ensures RightsIn(Without(flags, p), q) == RightsIn(flags, q)
  {
    MarkedAt(flags, p, mark, q[..1]);
    MarkedAt(flags, p, mark, q[..2]);
    MarkedAt(flags, p, mark, q[..3]);
    MarkedAt(flags, p, mark, q);
  }

  /** And so does making tables. */
  lemma TablesKeepRights(was: Flags, flags: Flags, p: Path, mark: nat, q: Path)
    requires OnlyTables(was, flags, p, mark) && |q| == 4 && RightsIn(was, q).Some?
    ensures RightsIn(flags, q) == RightsIn(was, q)
  {
    var k := TablesMade(was, flags, p, mark);
    MarkedToAt(was, p, k, mark, q[..1]);
    MarkedToAt(was, p, k, mark, q[..2]);
    MarkedToAt(was, p, k, mark, q[..3]);
    MarkedToAt(was, p, k, mark, q);
  }

  ////// A new address space

  ghost function UpperFlags(flags: Flags): Flags {
    imap q | q in flags && UpperPath(q) :: flags[q]
  }

  lemma FreshRootFlagsAt(m: Memory, free: set<nat>, kroot: nat, root: nat, q: Path, j: nat)
    requires KernelRoot(m, free, kroot) && root in free && |q| <= 3
    ensures FlagsAt(WithRoot(m, kroot, root), root, q + [j])
            == if UpperPath(q + [j]) then FlagsAt(m, kroot, q + [j]) else None
  {
    var m' := WithRoot(m, kroot, root);
    FlagsExtend(m, kroot, q, j);
    FlagsExtend(m', root, q, j);
    if q == [] {
      FreshRootChild(m, kroot, root, j);
    } else {
      assert (q + [j])[0] == q[0];
      FreshRootWalk(m, free, kroot, root, q);
      if UpperPath(q) && Node(m, kroot, q).Some? {
        OtherChild(m, kroot, root, Node(m, kroot, q).value, j);
      }
    }
  }

  /** A new address space has the flags of the kernel's upper half, and no others. */
  lemma FreshRootFlags(m: Memory, free: set<nat>, kroot: nat, root: nat)
    requires KernelRoot(m, free, kroot) && root in free
    ensures TreeFlags(WithRoot(m, kroot, root), root) == UpperFlags(TreeFlags(m, kroot))
  {
    var m' := WithRoot(m, kroot, root);
    forall q | 1 <= |q| <= 4
      ensures FlagsAt(m', root, q) == if UpperPath(q) then FlagsAt(m, kroot, q) else None
    {
      var front, last := q[..|q| - 1], q[|q| - 1];
      assert q == front + [last];
      FreshRootFlagsAt(m, free, kroot, root, front, last);
    }
    UpperFlagsAre(m, m', kroot, root);
  }

  lemma UpperFlagsAre(m: Memory, m': Memory, kroot: nat, root: nat)
    requires forall q :: 1 <= |q| <= 4 ==>
              FlagsAt(m', root, q) == if UpperPath(q) then FlagsAt(m, kroot, q) else None
    ensures TreeFlags(m', root) == UpperFlags(TreeFlags(m, kroot))
  {
    FlagsAsTree(m, kroot, TreeFlags(m, kroot));
    FlagsAsTree(m', root, UpperFlags(TreeFlags(m, kroot)));
  }

  ////// User memory

  const USER_WRITABLE := 6  // PTE_USER | PTE_WRITABLE

  /** In the user half there are only entries with the mark. */
  ghost predicate OnlyMarks(flags: Flags, mark: nat) {
    forall q :: q in flags && !UpperPath(q) ==> flags[q] == mark
  }

  lemma {:induction false} RangedHasOnlyMarks(kernel: Flags, v: nat, n: nat, mark: nat)
    ensures OnlyMarks(RangedFlags(UpperFlags(kernel), v, n, mark), mark)
  {
    if n > 0 {
      var before, p := RangedFlags(UpperFlags(kernel), v, n - 1, mark), PathOf((v + n - 1) * 4096);
      RangedHasOnlyMarks(kernel, v, n - 1, mark);
      forall q | q in Marked(before, p, mark) && !UpperPath(q)
        ensures Marked(before, p, mark)[q] == mark
      {
        MarkedAt(before, p, mark, q);
      }
    }
  }

  /** The entries on the way to a page of the range are there. */
  lemma {:induction false} RangedHasPages(flags: Flags, v: nat, n: nat, mark: nat, k: nat, j: nat)
    requires k < n && 1 <= j <= 4
    ensures PathOf((v + k) * 4096)[..j] in RangedFlags(flags, v, n, mark)
  {
    var before, p := RangedFlags(flags, v, n - 1, mark), PathOf((v + n - 1) * 4096);
    var q := PathOf((v + k) * 4096)[..j];
    MarkedAt(before, p, mark, q);
    if k < n - 1 {
      RangedHasPages(flags, v, n - 1, mark, k, j);
    }
  }

  /** Every page of a user's memory can be used from user mode, and written. */
  lemma UserMemoryRights(kernel: Flags, v: nat, n: nat, k: nat, mark: nat)
    requires k < n && PathOf((v + k) * 4096)[0] < USER_HALF
    requires Bit(mark, USER_BIT) && Bit(mark, WRITABLE_BIT)
    ensures RightsIn(RangedFlags(UpperFlags(kernel), v, n, mark), PathOf((v + k) * 4096))
            == Some(Rights(true, true, mark))
  {
    var flags, p := RangedFlags(UpperFlags(kernel), v, n, mark), PathOf((v + k) * 4096);
    RangedHasOnlyMarks(kernel, v, n, mark);
    RangedHasPages(UpperFlags(kernel), v, n, mark, k, 1);
    RangedHasPages(UpperFlags(kernel), v, n, mark, k, 2);
    RangedHasPages(UpperFlags(kernel), v, n, mark, k, 3);
    RangedHasPages(UpperFlags(kernel), v, n, mark, k, 4);
    assert p[..4] == p && !UpperPath(p[..1]) && !UpperPath(p[..2]) && !UpperPath(p[..3]) && !UpperPath(p);
    FourBits(mark, mark, mark, mark);
  }

  /** The flags of a user's memory: present, writable, user. */
  lemma UserWritableBits()
    ensures PresentWritable(USER_WRITABLE) == 7 && Bit(7, USER_BIT) && Bit(7, WRITABLE_BIT) && IsFlags(USER_WRITABLE)
  {
    assert Bit(7, 2) == Bit(7 / 2, 1) == Bit(7 / 2 / 2, 0);
  }

  /** User mode may use and write every address of the n pages from v on that is in the user half. */
  ghost predicate UserMayUse(m: Memory, root: nat, v: nat, n: nat) {
    forall va: nat :: v <= va / 4096 < v + n && PathOf(va)[0] < USER_HALF ==>
      Access(m, root, PathOf(va)) == Some(Rights(true, true, 7))
  }

  lemma PathOfPage(va: nat)
    ensures PathOf(va / 4096 * 4096) == PathOf(va)
  {
    PageOfMultiple(va / 4096 * 4096, va / 4096);
    SamePathSamePage(va / 4096 * 4096, va);
  }

  lemma UserPageAccess(m: Memory, free: set<nat>, root: nat, own: set<nat>, kernel: Flags, v: nat, n: nat, va: nat)
    requires Space(m, free, root, own) && TreeFlags(m, root) == RangedFlags(UpperFlags(kernel), v, n, 7)
    requires v <= va / 4096 < v + n && PathOf(va)[0] < USER_HALF
    ensures Access(m, root, PathOf(va)) == Some(Rights(true, true, 7))
  {
    var k: nat := va / 4096 - v;
    assert (v + k) * 4096 == va / 4096 * 4096;
    PathOfPage(va);
    UserWritableBits();
    AccessIsRights(m, free, root, own, va);
    UserMemoryRights(kernel, v, n, k, 7);
  }

  lemma UserMemoryAccess(m: Memory, free: set<nat>, root: nat, own: set<nat>, kernel: Flags, v: nat, n: nat)
    requires Space(m, free, root, own) && TreeFlags(m, root) == RangedFlags(UpperFlags(kernel), v, n, 7)
    ensures UserMayUse(m, root, v, n)
  {
    forall va: nat | v <= va / 4096 < v + n && PathOf(va)[0] < USER_HALF
      ensures Access(m, root, PathOf(va)) == Some(Rights(true, true, 7))
    {
      UserPageAccess(m, free, root, own, kernel, v, n, va);
    }
  }

  /** A page mapped with PTE_USER below tables that were made for one without it. */
  lemma BehindKernelTables(flags: Flags, p: Path, q: Path, a: nat, b: nat)
    requires |p| == 4 && |q| == 4 && p != q && p[..3] == q[..3] && (forall r :: r in flags ==> UpperPath(r))
    requires !UpperPath(p) && !UpperPath(q) && !Bit(a, USER_BIT)
    ensures RightsIn(Marked(Marked(flags, p, a), q, b), q).Some?
    ensures RightsIn(Marked(Marked(flags, p, a), q, b), q).value.flags == b
    ensures !RightsIn(Marked(Marked(flags, p, a), q, b), q).value.user
  {
    var first := Marked(flags, p, a);
    assert q[..1] == q[..3][..1] == p[..3][..1] == p[..1] && q[..2] == q[..3][..2] == p[..3][..2] == p[..2];
    MarkedAt(flags, p, a, p[..1]);
    MarkedAt(flags, p, a, p[..2]);
    MarkedAt(flags, p, a, p[..3]);
    MarkedAt(first, q, b, q[..1]);
    MarkedAt(first, q, b, q[..2]);
    MarkedAt(first, q, b, q[..3]);
    FourBits(a, a, a, b);
  }

  lemma FirstPaths()
    ensures PathOf(0x1000) == [0, 0, 0, 1] && PathOf(0x2000) == [0, 0, 0, 2] && PresentWritable(0) == 3
  {
  }

  lemma NotForUsers()
    ensures !Bit(3, USER_BIT)
  {
    assert Bit(3, 2) == Bit(3 / 2, 1) == Bit(3 / 2 / 2, 0);
  }

  /** For one: the second page of an empty user half, after the first has been mapped without it. */
  lemma SecondPageIsHidden(p: Path, q: Path)
    requires p == PathOf(0x1000) && q == PathOf(0x2000)
    ensures var rights := RightsIn(Marked(Marked(imap[], p, PresentWritable(0)), q, PresentWritable(USER_WRITABLE)), q);
            rights.Some? && rights.value.flags == 7 && !rights.value.user
  {
    FirstPaths();
    assert p[..3] == [0, 0, 0] == q[..3];
    UserWritableBits();
    NotForUsers();
    BehindKernelTables(imap[], p, q, 3, 7);
  }

  ////// Views

  /** What an address space maps, and the flags of its entries. */
  datatype View = View(pages: map<int, int>, flags: Flags)

  ghost function ViewOf(m: Memory, root: nat): View {
    View(Mapping(m, root), TreeFlags(m, root))
  }

  ghost function UpperView(view: View): View {
    View(UpperHalf(view.pages), UpperFlags(view.flags))
  }

  /** The frame of a page, and what may be done with it. */
  datatype PageView = PageView(frame: int, rights: Option<Rights>)

  ghost function Pages(view: View): map<int, PageView> {
    map v | v in view.pages && 0 <= v :: PageView(view.pages[v], RightsIn(view.flags, PathOf(v * 4096)))
  }

  lemma PageInView(view: View, v: nat, p: Path)
    requires p == PathOf(v * 4096)
    ensures v in Pages(view) <==> v in view.pages
    ensures v in view.pages ==> Pages(view)[v] == PageView(view.pages[v], RightsIn(view.flags, p))
  {
  }

  /** The processor allows something for a page exactly when it finds it. */
  lemma AllowedIsFound(m: Memory, root: nat, p: Path)
    requires |p| == 4
    ensures Access(m, root, p).Some? <==> Translate(m, root, p).Some?
  {
    MetIsFound(m, root, p);
  }

  /** The pages of a view are those that the processor finds, in the frames where it finds them
      and with the rights that it gives them. */
  lemma PagesAreSeen(m: Memory, free: set<nat>, root: nat, own: set<nat>, v: nat)
    requires Space(m, free, root, own) && v < FRAMES
    ensures v in Pages(ViewOf(m, root)) <==> Translate(m, root, PathOf(v * 4096)).Some?
    ensures v in Pages(ViewOf(m, root)) ==>
              && Translate(m, root, PathOf(v * 4096)) == Some(Pages(ViewOf(m, root))[v].frame)
              && Access(m, root, PathOf(v * 4096)) == Pages(ViewOf(m, root))[v].rights
              && Pages(ViewOf(m, root))[v].rights.Some?
  {
    PlainTranslates(m, root, v * 4096);
    AccessIsRights(m, free, root, own, v * 4096);
    AllowedIsFound(m, root, PathOf(v * 4096));
    PageInView(ViewOf(m, root), v, PathOf(v * 4096));
    MapsAsMapping(m, root, Mapping(m, root));
  }

  lemma PageStillSeen(m: Memory, free: set<nat>, root: nat, own: set<nat>, flags: Flags, p: Path, mark: nat, v: nat)
    requires Space(m, free, root, own) && OnlyTables(TreeFlags(m, root), flags, p, mark) && v in Mapping(m, root)
    ensures var now, was := Pages(View(Mapping(m, root), flags)), Pages(ViewOf(m, root));
            v in now && v in was && now[v] == was[v]
  {
    var q := PathOf(v * 4096);
    PageInView(ViewOf(m, root), v, q);
    PageInView(View(Mapping(m, root), flags), v, q);
    PagesAreSeen(m, free, root, own, v);
    TablesKeepRights(TreeFlags(m, root), flags, p, mark, q);
  }

  lemma SamePages(a: View, b: View)
    requires a.pages == b.pages
    requires forall v: nat :: v in a.pages ==> v in Pages(a) && v in Pages(b) && Pages(a)[v] == Pages(b)[v]
    ensures Pages(a) == Pages(b)
  {
  }

  /** Tables made for a page that was not mapped in the end are not seen. */
  lemma TablesAreNotSeen(m: Memory, free: set<nat>, root: nat, own: set<nat>, flags: Flags, p: Path, mark: nat)
    requires Space(m, free, root, own) && OnlyTables(TreeFlags(m, root), flags, p, mark)
    ensures Pages(View(Mapping(m, root), flags)) == Pages(ViewOf(m, root))
  {
    var now, was := View(Mapping(m, root), flags), ViewOf(m, root);
    forall v: nat | v in now.pages
      ensures v in Pages(now) && v in Pages(was) && Pages(now)[v] == Pages(was)[v]
    {
      PageStillSeen(m, free, root, own, flags, p, mark, v);
    }
    SamePages(now, was);
  }
}
