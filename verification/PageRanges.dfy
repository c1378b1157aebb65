/** The loops of paging_map_range and paging_unmap_range: what they have done after n pages, to
    the flat map of the address space and to the flags of its entries.
 */
module PageRanges {
  import opened PageWalk
  import opened AddressSpace
  import opened HugePages
  import opened PageRights
  import opened Descent

  /** n pages from v on mapped, one after another. */
  ghost function RangedFlags(flags: Flags, v: nat, n: nat, mark: nat): Flags {
    if n == 0 then flags else Marked(RangedFlags(flags, v, n - 1, mark), PathOf((v + n - 1) * 4096), mark)
  }

  /** n pages from v on unmapped. */
  ghost function UnrangedFlags(flags: Flags, v: nat, n: nat): Flags {
    if n == 0 then flags else Without(UnrangedFlags(flags, v, n - 1), PathOf((v + n - 1) * 4096))
  }

  /** The loop of paging_map_range after n pages: they are mapped, and it has come to the
      addresses of the next ones and made k tables on the way there. */
  ghost predicate MapProgress(m: Memory, f: set<nat>, m': Memory, f': set<nat>, root: nat, own: set<nat>,
                              before: map<int, int>, marks: Flags, v0: nat, p0: nat, mark: nat, n: nat, virt: nat,
                              phys: nat, k: nat, user: bool)
  {
    && Updated(m, f, m', f', root, own) && (user ==> UpperKept(m, m', root))
    && MapsAs(m', root, Ranged(before, v0, p0, n)) && k <= 3
    && TreeFlags(m', root) == MarkedTo(RangedFlags(marks, v0, n, mark), PathOf(virt), k, mark)
    && virt == (v0 + n) * 4096 && p0 * 4096 < WORD && phys == AddPages(p0 * 4096, n)
  }

  type Progress = (Memory, set<nat>, nat, nat, nat, nat) -> bool

  /** `progress` says of a memory, its free pages, two addresses and two counts that they are where
      the loop has come to. */
  ghost predicate IsProgress(progress: Progress, m: Memory, f: set<nat>, root: nat, own: set<nat>,
                             before: map<int, int>, marks: Flags, v0: nat, p0: nat, mark: nat, user: bool)
  {
    forall m', f', virt: nat, phys: nat, n: nat, k: nat
      {:trigger MapProgress(m, f, m', f', root, own, before, marks, v0, p0, mark, n, virt, phys, k, user)} ::
      progress(m', f', virt, phys, n, k)
      == MapProgress(m, f, m', f', root, own, before, marks, v0, p0, mark, n, virt, phys, k, user)
  }

  lemma MapProgressStart(m: Memory, f: set<nat>, root: nat, own: set<nat>, v0: nat, p0: nat, mark: nat, user: bool)
    requires Space(m, f, root, own) && p0 * 4096 < WORD
    ensures MapProgress(m, f, m, f, root, own, Mapping(m, root), TreeFlags(m, root), v0, p0, mark, 0, v0 * 4096,
                        p0 * 4096, 0, user)
  {
    UpdatedNot(m, f, root, own);
    MapsAsMapping(m, root, Mapping(m, root));
  }

  /** One more page. */
  lemma MapProgressNext(m: Memory, f: set<nat>, m': Memory, f': set<nat>, root: nat, own: set<nat>,
                        before: map<int, int>, marks: Flags, v0: nat, p0: nat, mark: nat, n: nat, virt: nat, phys: nat,
                        user: bool)
    requires Updated(m, f, m', f', root, own) && (user ==> UpperKept(m, m', root))
    requires virt == (v0 + n) * 4096 && virt + 4096 < WORD && p0 * 4096 < WORD && phys == AddPages(p0 * 4096, n)
    requires MapsAs(m', root, Ranged(before, v0, p0, n)[Page(virt) := Frame(phys)])
    requires TreeFlags(m', root) == Marked(RangedFlags(marks, v0, n, mark), PathOf(virt), mark)
    ensures MapProgress(m, f, m', f', root, own, before, marks, v0, p0, mark, n + 1, Add(virt, 4096),
                        Add(phys, 4096), 0, user)
  {
    var page, frame := RangedNext(before, v0, p0, n, virt, phys);
    RangedFlagsNext(marks, v0, n, mark, virt);
  }

  lemma MapProgressEnd(m: Memory, f: set<nat>, m': Memory, f': set<nat>, root: nat, own: set<nat>,
                       before: map<int, int>, marks: Flags, v0: nat, p0: nat, mark: nat, n: nat, virt: nat, phys: nat,
                       k: nat, user: bool)
    requires MapProgress(m, f, m', f', root, own, before, marks, v0, p0, mark, n, virt, phys, k, user)
    ensures Updated(m, f, m', f', root, own) && (user ==> UpperKept(m, m', root))
    ensures virt == (v0 + n) * 4096 && Mapping(m', root) == Ranged(before, v0, p0, n)
    ensures k == 0 ==> RangeMarked(marks, TreeFlags(m', root), v0, n, mark, true)
    ensures RangeMarked(marks, TreeFlags(m', root), v0, n, mark, false)
  {
    MapsAsMapping(m', root, Ranged(before, v0, p0, n));
  }

  /** The loop of paging_unmap_range after n pages. */
  ghost predicate UnmapProgress(m: Memory, f: set<nat>, m': Memory, f': set<nat>, root: nat, own: set<nat>,
                                before: map<int, int>, marks: Flags, v0: nat, n: nat, virt: nat)
  {
    && Updated(m, f, m', f', root, own) && f' == f && virt == (v0 + n) * 4096
    && MapsAs(m', root, Unranged(before, v0, n)) && TreeFlags(m', root) == UnrangedFlags(marks, v0, n)
  }

  type Clearing = (Memory, set<nat>, nat, nat) -> bool

  ghost predicate IsClearing(progress: Clearing, m: Memory, f: set<nat>, root: nat, own: set<nat>,
                             before: map<int, int>, marks: Flags, v0: nat)
  {
    forall m', f', virt: nat, n: nat
      {:trigger UnmapProgress(m, f, m', f', root, own, before, marks, v0, n, virt)} ::
      progress(m', f', virt, n) == UnmapProgress(m, f, m', f', root, own, before, marks, v0, n, virt)
  }

  lemma UnmapProgressStart(m: Memory, f: set<nat>, root: nat, own: set<nat>, v0: nat)
    requires Space(m, f, root, own)
    ensures UnmapProgress(m, f, m, f, root, own, Mapping(m, root), TreeFlags(m, root), v0, 0, v0 * 4096)
  {
    UpdatedNot(m, f, root, own);
    MapsAsMapping(m, root, Mapping(m, root));
  }

  lemma UnmapProgressEnd(m: Memory, f: set<nat>, m': Memory, f': set<nat>, root: nat, own: set<nat>,
                         before: map<int, int>, marks: Flags, v0: nat, n: nat, virt: nat)
    requires UnmapProgress(m, f, m', f', root, own, before, marks, v0, n, virt)
    ensures Updated(m, f, m', f', root, own) && f' == f && virt == (v0 + n) * 4096
    ensures Mapping(m', root) == Unranged(before, v0, n) && TreeFlags(m', root) == UnrangedFlags(marks, v0, n)
  {
    MapsAsMapping(m', root, Unranged(before, v0, n));
  }

  /** n pages from v on carry the mark, and so do the tables made for them, and perhaps for the
      page that was to follow. */
  ghost predicate RangeMarked(was: Flags, flags: Flags, v: nat, n: nat, mark: nat, done: bool) {
    if done then flags == RangedFlags(was, v, n, mark)
    else OnlyTables(RangedFlags(was, v, n, mark), flags, PathOf((v + n) * 4096), mark)
  }

  /** How many steps of the way to p have tables made for them. */
  ghost function TablesMade(was: Flags, flags: Flags, p: Path, mark: nat): (k: nat)
    requires OnlyTables(was, flags, p, mark)
    ensures k <= 3 && flags == MarkedTo(was, p, k, mark)
  {
    var k :| 0 <= k <= 3 && flags == MarkedTo(was, p, k, mark);
    k
  }

  /** A turn of the loop, as far as the flags go. */
  lemma RangedFlagsNext(marks: Flags, v0: nat, n: nat, mark: nat, virt: nat)
    requires virt == (v0 + n) * 4096
    ensures RangedFlags(marks, v0, n + 1, mark) == Marked(RangedFlags(marks, v0, n, mark), PathOf(virt), mark)
  {
  }

  lemma UnrangedFlagsNext(marks: Flags, v0: nat, n: nat, virt: nat)
    requires virt == (v0 + n) * 4096
    ensures UnrangedFlags(marks, v0, n + 1) == Without(UnrangedFlags(marks, v0, n), PathOf(virt))
  {
  }
}
