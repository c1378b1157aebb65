/** The calls that build, change and tear down page tables in place.

    Physical memory is mapped onto itself, so a table's address is its frame number. The
    physical page allocator is known by its contract: it hands out a page it has not
    handed out already, or 0 when there is none. `panic` does not return; the outcome
    Panicked stands for it. Flushing the translation cache is not modelled.
 */
module Paging {
  import opened Common
  import opened PageWalk
  import opened AddressSpace
  import opened PageTeardown
  import opened UserRoot
  import opened HugePages
  import opened PageRights
  import opened Descent
  import opened PageRanges
  import opened SpaceViews
  import opened UserSpaces

  datatype Outcome = Done | Failed | Panicked

  class PageTables {
    var mem: Memory
    var free: set<nat>         // pages that pmm_alloc_page may hand out
    ghost var freed: seq<nat>  // arguments of pmm_free_page, in call order
    var kernelPml4: nat

    constructor (mem: Memory, free: set<nat>, kernelPml4: nat)
      ensures this.mem == mem && this.free == free && this.kernelPml4 == kernelPml4 && freed == []
    {
      this.mem := mem;
      this.free := free;
      this.kernelPml4 := kernelPml4;
      freed := [];
    }

    method PmmAllocPage() returns (page: nat)
      requires 0 !in free
      modifies this`free
      ensures page == 0 <==> old(free) == {}
      ensures page != 0 ==> page in old(free)
      ensures free == old(free) - {page}
    {
      if free == {} {
        return 0;
      }
      page :| page in free;
      free := free - {page};
    }

    /** get_next_level: the table under entry `index`, made now if need be. */
    method GetNextLevel(table: nat, index: nat, flags: nat, allocate: bool) returns (next: nat, panicked: bool)
      requires IsTable(mem, table) && index < ENTRIES && FreePages(mem, free)
      modifies this`mem, this`free
      ensures Entered(old(mem), old(free), mem, free, table, index, flags, allocate, next, panicked)
    {
      var entry := mem[table][index];
      if !Present(entry) {
        if !allocate {
          return 0, false;
        }
        var newTable := PmmAllocPage();
        if newTable == 0 {
          return 0, true;  // panic
        }
        mem := mem[newTable := Zeros(ENTRIES)];
        mem := SetEntry(mem, table, index, MakeEntry(newTable, PresentWritable(flags)));
        return newTable, false;
      }
      return Frame(entry), false;
    }

    /** The three steps down to the last-level table that paging_map_page and
        paging_unmap_page both take; k of them have been taken. */
    method Descend(pml4: nat, va: nat, flags: nat, allocate: bool, ghost own: set<nat>)
      returns (ptbl: nat, panicked: bool, ghost k: nat)
      requires pml4 != 0 && ClearWay(mem, free, pml4, PathOf(va)) && IsFlags(flags)
      modifies this`mem, this`free
      ensures ptbl != 0 ==> !panicked && k == 3 && IsTable(mem, ptbl)
      ensures ptbl != 0 ==> Partway(old(mem), old(free), mem, free, pml4, PathOf(va), 3, ptbl, allocate)
      ensures ptbl == 0 ==> Stopped(old(mem), old(free), mem, free, pml4, PathOf(va), allocate, panicked)
      ensures DescendedIn(old(mem), old(free), mem, free, pml4, own, PathOf(va), k, PresentWritable(flags))
    {
      ghost var p := PathOf(va);
      ghost var m0, f0 := mem, free;
      DescentBegins(m0, f0, pml4, own, p, PresentWritable(flags), allocate);
      var pdpt, panic1 := GetNextLevel(pml4, va / 0x80_0000_0000 % 512, flags, allocate);
      ghost var m1, f1 := mem, free;
      k := DescentNext(m0, f0, m0, f0, m1, f1, pml4, own, p, 0, pml4, flags, allocate, pdpt, panic1);
      if pdpt == 0 {
        return 0, panic1, k;
      }
      var pdir, panic2 := GetNextLevel(pdpt, va / 0x4000_0000 % 512, flags, allocate);
      ghost var m2, f2 := mem, free;
      k := DescentNext(m0, f0, m1, f1, m2, f2, pml4, own, p, 1, pdpt, flags, allocate, pdir, panic2);
      if pdir == 0 {
        return 0, panic2, k;
      }
      ptbl, panicked := GetNextLevel(pdir, va / 0x20_0000 % 512, flags, allocate);
      k := DescentNext(m0, f0, m2, f2, mem, free, pml4, own, p, 2, pdir, flags, allocate, ptbl, panicked);
      if ptbl != 0 {
        Arrived(m0, f0, mem, free, pml4, p, ptbl, allocate);
      }
    }

    /** paging_map_page, on any root. What the processor finds and allows afterwards, how many
        tables are made, and when the call fails or panics; and for an address space without huge
        entries, the flat map that it stands for and the flags of all its entries. */
    method MapPage(pml4: nat, va: nat, phys: nat, flags: nat, ghost own: set<nat>) returns (r: Outcome)
      requires pml4 != 0 ==> ClearWay(mem, free, pml4, PathOf(va))
      requires IsFlags(flags)
      modifies this`mem, this`free
      ensures r == Failed <==> pml4 == 0 || LeadsToZero(old(mem), pml4, PathOf(va))
      ensures r == Failed ==> mem == old(mem) && free == old(free)
      ensures r == Done ==> MapsUnlessHuge(old(mem), mem, pml4, PathOf(va), Frame(phys))
      ensures r == Done ==> Granted(old(mem), mem, pml4, PathOf(va), PresentWritable(flags))
      ensures r == Done ==> |old(free)| == |free| + Missing(old(mem), pml4, PathOf(va))
      ensures r == Panicked ==> free == {} && |old(free)| < Missing(old(mem), pml4, PathOf(va))
      ensures r == Panicked ==> SameView(old(mem), mem, pml4, PathOf(va))
      ensures MappedIn(old(mem), old(free), mem, free, pml4, own, va, if r == Done then Some(Frame(phys)) else None,
                       PresentWritable(flags))
    {
      if pml4 == 0 {
        NoSpaceAtZero(mem, free, own);
        return Failed;
      }
      var pw, entry := EntryFor(Frame(phys), flags);
      r := MapAt(pml4, va, pw, entry, own);
    }

    /** The walk and the write of paging_map_page. */
    method MapAt(pml4: nat, va: nat, pw: nat, entry: nat, ghost own: set<nat>) returns (r: Outcome)
      requires pml4 != 0 && ClearWay(mem, free, pml4, PathOf(va)) && IsFlags(pw)
      requires Present(entry) && FlagsOf(entry) == pw == PresentWritable(pw)
      modifies this`mem, this`free
      ensures MapCall(old(mem), old(free), mem, free, pml4, own, va, Frame(entry), pw, r)
    {
      var ptbl, panicked, k := Descend(pml4, va, pw, true, own);
      ghost var m1 := mem;
      if ptbl != 0 {
        mem := SetEntry(mem, ptbl, va / 0x1000 % 512, entry);
      }
      r := if ptbl != 0 then Done else if panicked then Panicked else Failed;
      MapCallEnds(old(mem), old(free), m1, mem, free, pml4, own, va, k, ptbl, panicked, entry, r);
    }

    /** paging_unmap_page, on any root. */
    method UnmapPage(pml4: nat, va: nat, ghost own: set<nat>)
      requires pml4 != 0 ==> ClearWay(mem, free, pml4, PathOf(va))
      modifies this`mem, this`free
      ensures pml4 == 0 ==> mem == old(mem)
      ensures pml4 != 0 && (MeetsHuge(old(mem), pml4, PathOf(va)) || LeadsToZero(old(mem), pml4, PathOf(va))) ==>
                && Translate(mem, pml4, PathOf(va)) == Translate(old(mem), pml4, PathOf(va))
                && Access(mem, pml4, PathOf(va)) == Access(old(mem), pml4, PathOf(va))
      ensures pml4 != 0 && !MeetsHuge(old(mem), pml4, PathOf(va)) && !LeadsToZero(old(mem), pml4, PathOf(va)) ==>
                Translate(mem, pml4, PathOf(va)) == None
      ensures pml4 != 0 ==> UnmappedIn(old(mem), free, mem, pml4, own, va)
      ensures free == old(free)
    {
      if pml4 == 0 {
        return;
      }
      var ptbl, _, _ := Descend(pml4, va, 0, false, own);
      if ptbl == 0 {
        UnmappedNothing(mem, free, pml4, own, va);
        return;
      }
      mem := SetEntry(mem, ptbl, va / 0x1000 % 512, 0);
      Arrived(old(mem), old(free), old(mem), free, pml4, PathOf(va), ptbl, false);
      WritesUnlessHuge(old(mem), old(free), old(mem), free, pml4, PathOf(va), ptbl, false, 0);
      HugeKeepsAccess(old(mem), old(free), old(mem), free, pml4, PathOf(va), ptbl, false, 0);
      UnmappedEntry(old(mem), free, pml4, own, va, ptbl);
    }

    /** paging_map_range. Addresses are 64-bit, so the end of the range can wrap to a low
        address, in which case nothing is mapped; were it in the very last page, the loop
        would never end (RangeEndsIff). `n` is the number of pages mapped before the outcome. */
    method MapRange(pml4: nat, virtStart: nat, physStart: nat, size: nat, flags: nat, ghost own: set<nat>)
      returns (r: Outcome, ghost n: nat)
      requires pml4 != 0 ==> Space(mem, free, pml4, own)
      requires IsFlags(flags) && virtStart < WORD && physStart < WORD && size < WORD
      requires Add(virtStart, size) <= WORD - 4096
      modifies this`mem, this`free
      ensures r == Failed <==> pml4 == 0 || size == 0
      ensures r == Failed ==> mem == old(mem) && free == old(free)
      ensures r == Done ==> n == PagesUpTo(virtStart, Add(virtStart, size))
      ensures r == Panicked ==> free == {}
      ensures r != Failed ==> Updated(old(mem), old(free), mem, free, pml4, own)
      ensures r != Failed ==>
                Mapping(mem, pml4) == Ranged(Mapping(old(mem), pml4), virtStart / 4096, physStart / 4096, n)
      ensures r != Failed ==>
                RangeMarked(TreeFlags(old(mem), pml4), TreeFlags(mem, pml4), virtStart / 4096, n,
                            PresentWritable(flags), r == Done)
      ensures Add(virtStart, size) <= UPPER_HALF ==> UpperKept(old(mem), mem, pml4)
    {
      if pml4 == 0 || size == 0 {
        return Failed, 0;
      }
      var v: nat, p: nat := virtStart / 4096, physStart / 4096;
      ghost var m, f, user, mark := mem, free, Add(virtStart, size) <= UPPER_HALF, PresentWritable(flags);
      ghost var before, marks := Mapping(mem, pml4), TreeFlags(mem, pml4);
      ghost var progress := (m': Memory, f': set<nat>, virt: nat, phys: nat, n: nat, k: nat) =>
        MapProgress(m, f, m', f', pml4, own, before, marks, v, p, mark, n, virt, phys, k, user);
      MapProgressStart(m, f, pml4, own, v, p, mark, user);
      ghost var virt, phys, k;
      r, n, virt, phys, k := MapPages(pml4, v * 4096, p * 4096, Add(virtStart, size), flags, progress, m, f, own,
                                      before, marks, v, p);
      MapProgressEnd(m, f, mem, free, pml4, own, before, marks, v, p, mark, n, virt, phys, k, user);
      if r == Done {
        CountPages(virtStart, Add(virtStart, size), n);
      }
    }

    /** The loop of paging_map_range, whose invariant is given. */
    method MapPages(pml4: nat, virtFrom: nat, physFrom: nat, end: nat, flags: nat, ghost progress: Progress,
                    ghost m: Memory, ghost f: set<nat>, ghost own: set<nat>,
                    ghost before: map<int, int>, ghost marks: Flags, ghost v0: nat, ghost p0: nat)
      returns (r: Outcome, ghost n: nat, ghost virtTo: nat, ghost physTo: nat, ghost k: nat)
      requires pml4 != 0 && IsFlags(flags) && end <= WORD - 4096
      requires IsProgress(progress, m, f, pml4, own, before, marks, v0, p0, PresentWritable(flags), end <= UPPER_HALF)
      requires progress(mem, free, virtFrom, physFrom, 0, 0)
      modifies this`mem, this`free
      ensures r != Failed && progress(mem, free, virtTo, physTo, n, k)
      ensures r == Done ==> virtTo >= end && (n > 0 ==> virtTo - 4096 < end) && k == 0
      ensures r == Panicked ==> free == {}
    {
      var virt, phys := virtFrom, physFrom;
      n := 0;
      while virt < end
        invariant progress(mem, free, virt, phys, n, 0)
        invariant n > 0 ==> virt - 4096 < end
        decreases end - virt
      {
        virtTo, physTo := virt, phys;
        r, virt, phys, k := MapTurn(pml4, virt, phys, end, flags, progress, m, f, own, before, marks, v0, p0, n);
        if r == Panicked {
          return;
        }
        n := n + 1;
      }
      return Done, n, virt, phys, 0;
    }

    /** One turn of the loop of MapRange, with its step to the next page. */
    method MapTurn(pml4: nat, virt: nat, phys: nat, end: nat, flags: nat, ghost progress: Progress, ghost m: Memory,
                   ghost f: set<nat>, ghost own: set<nat>, ghost before: map<int, int>, ghost marks: Flags,
                   ghost v0: nat, ghost p0: nat, ghost n: nat)
      returns (r: Outcome, virt': nat, phys': nat, ghost k: nat)
      requires pml4 != 0 && IsFlags(flags) && virt < end <= WORD - 4096
      requires IsProgress(progress, m, f, pml4, own, before, marks, v0, p0, PresentWritable(flags), end <= UPPER_HALF)
      requires progress(mem, free, virt, phys, n, 0)
      modifies this`mem, this`free
      ensures r == Done || (r == Panicked && free == {})
      ensures r == Done ==> virt' == virt + 4096 && progress(mem, free, virt', phys', n + 1, 0)
      ensures r == Panicked ==> progress(mem, free, virt, phys, n, k)
    {
      ghost var user, mark := end <= UPPER_HALF, PresentWritable(flags);
      assert MapProgress(m, f, mem, free, pml4, own, before, marks, v0, p0, mark, n, virt, phys, 0, user);
      r, k := MapNext(pml4, virt, phys, flags, Ranged(before, v0, p0, n), RangedFlags(marks, v0, n, mark), m, f, own,
                      user);
      virt', phys' := Add(virt, 4096), Add(phys, 4096);
      if r == Done {
        MapProgressNext(m, f, mem, free, pml4, own, before, marks, v0, p0, mark, n, virt, phys, user);
      } else {
        assert MapProgress(m, f, mem, free, pml4, own, before, marks, v0, p0, mark, n, virt, phys, k, user);
      }
    }

    /** One turn of the loop of MapRange, which began with memory m and free pages f. */
    method MapNext(pml4: nat, virt: nat, phys: nat, flags: nat, ghost mapped: map<int, int>, ghost marks: Flags,
                   ghost m: Memory, ghost f: set<nat>, ghost own: set<nat>, ghost user: bool)
      returns (r: Outcome, ghost k: nat)
      requires pml4 != 0 && Updated(m, f, mem, free, pml4, own) && IsFlags(flags) && MapsAs(mem, pml4, mapped)
      requires TreeFlags(mem, pml4) == marks && (user ==> virt < UPPER_HALF && UpperKept(m, mem, pml4))
      modifies this`mem, this`free
      ensures Updated(m, f, mem, free, pml4, own)
      ensures r == Done ==> MapsAs(mem, pml4, mapped[Page(virt) := Frame(phys)])
      ensures r == Done ==> TreeFlags(mem, pml4) == Marked(marks, PathOf(virt), PresentWritable(flags))
      ensures r != Done ==> r == Panicked && MapsAs(mem, pml4, mapped) && free == {}
      ensures r != Done ==> k <= 3 && TreeFlags(mem, pml4) == MarkedTo(marks, PathOf(virt), k, PresentWritable(flags))
      ensures user ==> UpperKept(m, mem, pml4)
    {
      MapsAsMapping(mem, pml4, mapped);
      if user {
        UserAddress(virt);
      }
      SpaceIsClear(mem, free, pml4, own + (f - free), virt);
      r := MapPage(pml4, virt, phys, flags, own + (f - free));
      k := if r == Done then 0 else TablesMade(marks, TreeFlags(mem, pml4), PathOf(virt), PresentWritable(flags));
      UpdatedTwice(m, f, old(mem), old(free), mem, free, pml4, own);
      MapsAsMapping(mem, pml4, Mapping(mem, pml4));
    }

    /** paging_unmap_range. */
    method UnmapRange(pml4: nat, virtStart: nat, size: nat, ghost own: set<nat>)
      requires pml4 != 0 ==> Space(mem, free, pml4, own)
      requires virtStart < WORD && size < WORD && Add(virtStart, size) <= WORD - 4096
      modifies this`mem, this`free
      ensures pml4 == 0 || size == 0 ==> mem == old(mem)
      ensures free == old(free)
      ensures pml4 != 0 ==> Updated(old(mem), old(free), mem, free, pml4, own)
      ensures pml4 != 0 && size != 0 ==>
                Mapping(mem, pml4) == Unranged(Mapping(old(mem), pml4), virtStart / 4096,
                                               PagesUpTo(virtStart, Add(virtStart, size)))
      ensures pml4 != 0 && size != 0 ==>
                TreeFlags(mem, pml4) == UnrangedFlags(TreeFlags(old(mem), pml4), virtStart / 4096,
                                                      PagesUpTo(virtStart, Add(virtStart, size)))
    {
      if pml4 != 0 {
        UpdatedNot(mem, free, pml4, own);
      }
      if pml4 == 0 || size == 0 {
        return;
      }
      var v: nat := virtStart / 4096;
      ghost var m, f, before, marks := mem, free, Mapping(mem, pml4), TreeFlags(mem, pml4);
      ghost var progress := (m': Memory, f': set<nat>, virt: nat, n: nat) =>
        UnmapProgress(m, f, m', f', pml4, own, before, marks, v, n, virt);
      UnmapProgressStart(m, f, pml4, own, v);
      ghost var virt, n := UnmapPages(pml4, v * 4096, Add(virtStart, size), progress, m, f, own, before, marks, v);
      UnmapProgressEnd(m, f, mem, free, pml4, own, before, marks, v, n, virt);
      CountPages(virtStart, Add(virtStart, size), n);
    }

    /** The loop of paging_unmap_range, whose invariant is given. */
    method UnmapPages(pml4: nat, virtFrom: nat, end: nat, ghost progress: Clearing, ghost m: Memory, ghost f: set<nat>,
                      ghost own: set<nat>, ghost before: map<int, int>, ghost marks: Flags, ghost v0: nat)
      returns (ghost virtTo: nat, ghost n: nat)
      requires pml4 != 0 && end <= WORD - 4096
      requires IsClearing(progress, m, f, pml4, own, before, marks, v0)
      requires progress(mem, free, virtFrom, 0)
      modifies this`mem, this`free
      ensures progress(mem, free, virtTo, n) && virtTo >= end && (n > 0 ==> virtTo - 4096 < end)
    {
      var virt := virtFrom;
      n := 0;
      while virt < end
        invariant progress(mem, free, virt, n)
        invariant n > 0 ==> virt - 4096 < end
        decreases end - virt
      {
        UnmapTurn(pml4, virt, progress, m, f, own, before, marks, v0, n);
        n := n + 1;
        virt := Add(virt, 4096);
      }
      virtTo := virt;
    }

    /** One turn of it. */
    method UnmapTurn(pml4: nat, virt: nat, ghost progress: Clearing, ghost m: Memory, ghost f: set<nat>,
                     ghost own: set<nat>, ghost before: map<int, int>, ghost marks: Flags, ghost v0: nat, ghost n: nat)
      requires pml4 != 0 && virt < WORD - 4096
      requires IsClearing(progress, m, f, pml4, own, before, marks, v0)
      requires progress(mem, free, virt, n)
      modifies this`mem, this`free
      ensures progress(mem, free, virt + 4096, n + 1)
    {
      assert UnmapProgress(m, f, mem, free, pml4, own, before, marks, v0, n, virt);
      ghost var page := UnrangedNext(before, v0, n, virt);
      UnrangedFlagsNext(marks, v0, n, virt);
      UnmapNext(pml4, virt, Unranged(before, v0, n), UnrangedFlags(marks, v0, n), page, m, f, own);
      assert UnmapProgress(m, f, mem, free, pml4, own, before, marks, v0, n + 1, virt + 4096);
    }

    method UnmapNext(pml4: nat, virt: nat, ghost mapped: map<int, int>, ghost marks: Flags, ghost page: int,
                     ghost m: Memory, ghost f: set<nat>, ghost own: set<nat>)
      requires pml4 != 0 && Updated(m, f, mem, free, pml4, own) && MapsAs(mem, pml4, mapped) && page == Page(virt)
      requires TreeFlags(mem, pml4) == marks
      modifies this`mem, this`free
      ensures free == old(free) && Updated(m, f, mem, free, pml4, own) && MapsAs(mem, pml4, mapped - {page})
      ensures TreeFlags(mem, pml4) == Without(marks, PathOf(virt))
    {
      MapsAsMapping(mem, pml4, mapped);
      SpaceIsClear(mem, free, pml4, own + (f - free), virt);
      UnmapPage(pml4, virt, own + (f - free));
      UpdatedTwice(m, f, old(mem), old(free), mem, free, pml4, own);
      MapsAsMapping(mem, pml4, Mapping(mem, pml4));
    }

    /** pmm_free_page: the page can be handed out again, if it is one the allocator knows. */
    method PmmFreePage(page: nat)
      modifies this`free, this`freed
      ensures Gave(mem, old(free), old(freed), free, freed, [page])
    {
      if page != 0 && page in mem && |mem[page]| == ENTRIES {
        free := free + {page};
      }
      freed := freed + [page];
    }

    /** The innermost loop of paging_destroy_user_task: the pages mapped by one table. */
    method FreeMappedPages(ptbl: nat)
      requires IsTable(mem, ptbl)
      modifies this`free, this`freed
      ensures Gave(mem, old(free), old(freed), free, freed, FreedUnder(mem, ptbl, 1, ENTRIES))
    {
      for l := 0 to ENTRIES
        invariant Gave(mem, old(free), old(freed), free, freed, FreedUnder(mem, ptbl, 1, l))
      {
        ghost var was, log := free, freed;
        if Present(mem[ptbl][l]) {
          PmmFreePage(Frame(mem[ptbl][l]));
        }
        GaveMore(mem, old(free), old(freed), was, log, free, freed, FreedUnder(mem, ptbl, 1, l),
                 FreedEntry(mem, ptbl, 1, l));
      }
    }

    /** One entry of a page directory: its last-level table and what that maps. */
    method FreeDirectoryEntry(pdir: nat, k: nat)
      requires IsTable(mem, pdir) && ChildrenAreTables(mem, pdir, 2) && k < ENTRIES
      modifies this`free, this`freed
      ensures Gave(mem, old(free), old(freed), free, freed, FreedEntry(mem, pdir, 2, k))
    {
      var entry := mem[pdir][k];
      if Present(entry) && !Huge(entry) {
        assert Child(mem, pdir, k) == Some(Frame(entry));
        FreeMappedPages(Frame(entry));
        ghost var was, log := free, freed;
        PmmFreePage(Frame(entry));
        GaveMore(mem, old(free), old(freed), was, log, free, freed, FreedUnder(mem, Frame(entry), 1, ENTRIES),
                 [Frame(entry)]);
      } else if Present(entry) && Huge(entry) {
        PmmFreePage(HugeFrame(entry));
      }
    }

    /** The loop over a page directory. */
    method FreeDirectory(pdir: nat)
      requires IsTable(mem, pdir) && ChildrenAreTables(mem, pdir, 2)
      modifies this`free, this`freed
      ensures Gave(mem, old(free), old(freed), free, freed, FreedUnder(mem, pdir, 2, ENTRIES))
    {
      for k := 0 to ENTRIES
        invariant Gave(mem, old(free), old(freed), free, freed, FreedUnder(mem, pdir, 2, k))
      {
        ghost var was, log := free, freed;
        FreeDirectoryEntry(pdir, k);
        GaveMore(mem, old(free), old(freed), was, log, free, freed, FreedUnder(mem, pdir, 2, k),
                 FreedEntry(mem, pdir, 2, k));
      }
    }

    /** One entry of a page-directory-pointer table. */
    method FreePointerEntry(pdpt: nat, j: nat)
      requires IsTable(mem, pdpt) && ChildrenAreTables(mem, pdpt, 3) && j < ENTRIES
      modifies this`free, this`freed
      ensures Gave(mem, old(free), old(freed), free, freed, FreedEntry(mem, pdpt, 3, j))
    {
      var entry := mem[pdpt][j];
      if Present(entry) {
        assert Child(mem, pdpt, j) == Some(Frame(entry));
        FreeDirectory(Frame(entry));
        ghost var was, log := free, freed;
        PmmFreePage(Frame(entry));
        GaveMore(mem, old(free), old(freed), was, log, free, freed, FreedUnder(mem, Frame(entry), 2, ENTRIES),
                 [Frame(entry)]);
      }
    }

    /** The loop over a page-directory-pointer table. */
    method FreePointerTable(pdpt: nat)
      requires IsTable(mem, pdpt) && ChildrenAreTables(mem, pdpt, 3)
      modifies this`free, this`freed
      ensures Gave(mem, old(free), old(freed), free, freed, FreedUnder(mem, pdpt, 3, ENTRIES))
    {
      for j := 0 to ENTRIES
        invariant Gave(mem, old(free), old(freed), free, freed, FreedUnder(mem, pdpt, 3, j))
      {
        ghost var was, log := free, freed;
        FreePointerEntry(pdpt, j);
        GaveMore(mem, old(free), old(freed), was, log, free, freed, FreedUnder(mem, pdpt, 3, j),
                 FreedEntry(mem, pdpt, 3, j));
      }
    }

    /** One entry of the user half of the root. */
    method FreeRootEntry(pml4: nat, i: nat)
      requires IsTable(mem, pml4) && ChildrenAreTables(mem, pml4, 4) && i < USER_HALF
      modifies this`free, this`freed
      ensures Gave(mem, old(free), old(freed), free, freed, FreedEntry(mem, pml4, 4, i))
    {
      var entry := mem[pml4][i];
      if Present(entry) {
        assert Child(mem, pml4, i) == Some(Frame(entry));
        FreePointerTable(Frame(entry));
        ghost var was, log := free, freed;
        PmmFreePage(Frame(entry));
        GaveMore(mem, old(free), old(freed), was, log, free, freed, FreedUnder(mem, Frame(entry), 3, ENTRIES),
                 [Frame(entry)]);
      }
    }

    /** The outer loop of paging_destroy_user_task, over the user half of the root. */
    method FreeUserHalf(pml4: nat)
      requires IsTable(mem, pml4) && ChildrenAreTables(mem, pml4, 4)
      modifies this`free, this`freed
      ensures Gave(mem, old(free), old(freed), free, freed, FreedUnder(mem, pml4, 4, USER_HALF))
    {
      for i := 0 to USER_HALF
        invariant Gave(mem, old(free), old(freed), free, freed, FreedUnder(mem, pml4, 4, i))
      {
        ghost var was, log := free, freed;
        FreeRootEntry(pml4, i);
        GaveMore(mem, old(free), old(freed), was, log, free, freed, FreedUnder(mem, pml4, 4, i),
                 FreedEntry(mem, pml4, 4, i));
      }
    }

    /** paging_destroy_user_task. */
    method DestroyUserTask(pml4: nat)
      requires pml4 != 0 ==> Tree(mem, pml4)
      modifies this`free, this`freed
      ensures Gave(mem, old(free), old(freed), free, freed, if pml4 == 0 then [] else FreedBy(mem, pml4))
    {
      if pml4 == 0 {
        return;
      }
      TreeBelow(mem, pml4, [], pml4, 4);
      FreeUserHalf(pml4);
      ghost var was, log := free, freed;
      PmmFreePage(pml4);
      GaveMore(mem, old(free), old(freed), was, log, free, freed, FreedUnder(mem, pml4, 4, USER_HALF), [pml4]);
    }

    /** The start of paging_create_user_task: a fresh root with the kernel's upper half. */
    method NewRoot() returns (root: nat)
      requires KernelRoot(mem, free, kernelPml4)
      modifies this`mem, this`free
      ensures root == 0 <==> old(free) == {}
      ensures root == 0 ==> mem == old(mem) && free == old(free)
      ensures root != 0 ==> root in old(free) && free == old(free) - {root}
      ensures root != 0 ==> mem == WithRoot(old(mem), kernelPml4, root)
    {
      root := PmmAllocPage();
      if root == 0 {
        return;
      }
      ghost var m, f, kroot := mem, free, kernelPml4;
      mem := mem[root := Zeros(ENTRIES)];
      ghost var copied := (m': Memory, i: nat) => HalfCopied(m, m', kroot, root, i);
      CopyBegins(m, kroot, root);
      for i := USER_HALF to ENTRIES
        invariant free == f && copied(mem, i)
      {
        CopyTurn(m, mem, kroot, root, i);
        var kernelEntry := mem[kernelPml4][i];
        if Present(kernelEntry) {
          mem := SetEntry(mem, root, i, kernelEntry);
        }
      }
      CopyEnds(m, mem, kroot, root);
    }

    /** The new root as an address space of its own: the kernel's upper half and nothing else. */
    method StartUserSpace() returns (pml4: nat, ghost own: set<nat>)
      requires KernelRoot(mem, free, kernelPml4)
      modifies this`mem, this`free
      ensures pml4 == 0 <==> old(free) == {}
      ensures pml4 == 0 ==> mem == old(mem) && free == old(free)
      ensures pml4 != 0 ==> pml4 in old(free) && free == old(free) - {pml4}
      ensures pml4 != 0 ==> own == SharedTables(old(mem), kernelPml4) + {pml4} && Space(mem, free, pml4, own)
      ensures pml4 != 0 ==> ViewOf(mem, pml4) == UpperView(ViewOf(old(mem), kernelPml4))
      ensures pml4 != 0 ==> Copied(old(mem), kernelPml4, mem, pml4) && ChangedOnly(old(mem), mem, {pml4})
    {
      own := {};
      pml4 := NewRoot();
      if pml4 != 0 {
        FreshRootIsSpace(old(mem), old(free), kernelPml4, pml4);
        FreshRootMapping(old(mem), old(free), kernelPml4, pml4);
        FreshRootFlags(old(mem), old(free), kernelPml4, pml4);
        FreshRootIsCopied(old(mem), old(free), kernelPml4, pml4);
        own := SharedTables(old(mem), kernelPml4) + {pml4};
      }
    }

    /** The user's memory, mapped onto itself. */
    method MapUserMemory(pml4: nat, userMem: nat, userSize: nat, ghost own: set<nat>) returns (r: Outcome, ghost n: nat)
      requires pml4 != 0 && Space(mem, free, pml4, own)
      requires userMem < WORD && userSize < WORD && Add(userMem, userSize) <= WORD - 4096
      modifies this`mem, this`free
      ensures r != Failed && Updated(old(mem), old(free), mem, free, pml4, own)
      ensures r == Done ==> n == UserPageCount(userMem, userSize)
      ensures Mapping(mem, pml4) == Ranged(Mapping(old(mem), pml4), userMem / 4096, userMem / 4096, n)
      ensures RangeMarked(TreeFlags(old(mem), pml4), TreeFlags(mem, pml4), userMem / 4096, n,
                          PresentWritable(USER_WRITABLE), r == Done)
      ensures Add(userMem, userSize) <= UPPER_HALF ==> UpperKept(old(mem), mem, pml4)
    {
      UserWritableBits();
      if userMem == 0 || userSize == 0 {
        UpdatedNot(mem, free, pml4, own);
        return Done, 0;
      }
      // paging_map_range fails only for a null root or an empty range, so the branch of the
      // source that tears the new root down again is not taken.
      r, n := MapRange(pml4, userMem, userMem, userSize, USER_WRITABLE, own);
    }

    /** paging_create_user_task. */
    method CreateUserTask(userMem: nat, userSize: nat)
      returns (pml4: nat, r: Outcome, ghost own: set<nat>, ghost n: nat)
      requires kernelPml4 != 0 ==> KernelRoot(mem, free, kernelPml4)
      requires userMem < WORD && userSize < WORD && Add(userMem, userSize) <= WORD - 4096
      modifies this`mem, this`free
      ensures r == Failed <==> kernelPml4 == 0 || old(free) == {}
      ensures r == Failed ==> pml4 == 0 && mem == old(mem) && free == old(free)
      ensures r != Failed ==> pml4 in old(free) && Space(mem, free, pml4, own)
      ensures free <= old(free)
      ensures r != Failed ==> own == SharedTables(old(mem), kernelPml4) + (old(free) - free)
      ensures r == Done ==> n == UserPageCount(userMem, userSize)
      ensures r != Failed ==>
                Mapping(mem, pml4) == Ranged(UpperHalf(Mapping(old(mem), kernelPml4)), userMem / 4096,
                                             userMem / 4096, n)
      ensures r == Done ==>
                ViewOf(mem, pml4) == Created(UpperView(ViewOf(old(mem), kernelPml4)), userMem, userSize)
      ensures r == Done ==> UserMayUse(mem, pml4, userMem / 4096, n)
      ensures r != Failed && Add(userMem, userSize) <= UPPER_HALF ==>
                Copied(old(mem), kernelPml4, mem, pml4) && ChangedOnly(old(mem), mem, old(free))
    {
      n := 0;
      if kernelPml4 == 0 {
        return 0, Failed, {}, n;
      }
      pml4, own := StartUserSpace();
      if pml4 == 0 {
        return 0, Failed, own, n;
      }
      ghost var m1, start := mem, free;
      r, n := MapUserMemory(pml4, userMem, userSize, own);
      TakenPages(SharedTables(old(mem), kernelPml4), old(free), pml4, free);
      if Add(userMem, userSize) <= UPPER_HALF {
        CreatedApart(old(mem), old(free), kernelPml4, m1, mem, free, pml4);
      }
      own := own + (start - free);
      if r == Done {
        UserWritableBits();
        UserMemoryAccess(mem, free, pml4, own, TreeFlags(old(mem), kernelPml4), userMem / 4096, n);
      }
    }

    /** A user task from its creation to its end: every page that was free is free again, and so
        are the pages of its own memory that the allocator knows, but no others. `taken` are the
        tables of its address space; they and its own pages are given back, each once, and no page
        that was not free to begin with has changed. */
    method CreateThenDestroy(userMem: nat, userSize: nat)
      returns (r: Outcome, pml4: nat, ghost taken: set<nat>, ghost given: seq<nat>)
      requires KernelRoot(mem, free, kernelPml4) && kernelPml4 != 0
      requires userMem + userSize <= UPPER_HALF && OwnPages(mem, free, kernelPml4, userMem, userSize)
      modifies this`mem, this`free, this`freed
      ensures r == Failed <==> old(free) == {}
      ensures r != Done ==> freed == old(freed)
      ensures r == Done ==> forall x: nat ::
                x in free <==> x in old(free) || (UserPage(userMem, userSize, x) && x != 0 && IsTable(mem, x))
      ensures r == Done ==> taken <= old(free)
      ensures r == Done ==> Space(mem, old(free) - taken, pml4, SharedTables(old(mem), kernelPml4) + taken)
      ensures r == Done ==> freed == old(freed) + given && Distinct(given)
      ensures r == Done ==> forall x: nat :: x in given <==> x in taken || UserPage(userMem, userSize, x)
      ensures ChangedOnly(old(mem), mem, old(free))
    {
      taken, given := {}, [];
      ghost var own, n;
      pml4, r, own, n := CreateUserTask(userMem, userSize);
      if r == Done {
        taken := old(free) - free;
        assert old(free) - taken == free;
        given := DestroyCreated(pml4, userMem, userSize, old(mem), old(free));
      }
    }

    /** The end of a task whose address space was built over the memory m0 and the free pages f0. */
    method DestroyCreated(pml4: nat, userMem: nat, userSize: nat, ghost m0: Memory, ghost f0: set<nat>)
      returns (ghost given: seq<nat>)
      requires KernelRoot(m0, f0, kernelPml4) && OwnPages(m0, f0, kernelPml4, userMem, userSize)
      requires userMem + userSize <= UPPER_HALF && pml4 != 0 && free <= f0
      requires Space(mem, free, pml4, SharedTables(m0, kernelPml4) + (f0 - free)) && Copied(m0, kernelPml4, mem, pml4)
      requires Mapping(mem, pml4) == Ranged(UpperHalf(Mapping(m0, kernelPml4)), userMem / 4096, userMem / 4096,
                                            UserPageCount(userMem, userSize))
      modifies this`free, this`freed
      ensures forall x: nat ::
                x in free <==> x in f0 || (UserPage(userMem, userSize, x) && x != 0 && IsTable(mem, x))
      ensures freed == old(freed) + given && Distinct(given)
      ensures forall x: nat :: x in given <==> x in f0 - old(free) || UserPage(userMem, userSize, x)
    {
      given := FreedBy(mem, pml4);
      GivenPages(m0, f0, kernelPml4, mem, free, pml4, userMem, userSize);
      ghost var left := free;
      DestroyUserTask(pml4);
      BackAgain(mem, f0, left, free, given, userMem, userSize);
    }

    ////// Runs over several address spaces

    method MapOneUser(roots: seq<nat>, i: nat, va: nat, phys: nat, flags: nat, ghost owns: seq<set<nat>>)
      returns (r: Outcome, ghost owns': seq<set<nat>>)
      requires Users(mem, free, kernelPml4, roots, owns) && i < |roots| && va < UPPER_HALF && IsFlags(flags)
      modifies this`mem, this`free
      ensures r != Failed && (r == Panicked ==> free == {}) && Users(mem, free, kernelPml4, roots, owns')
      ensures UpperView(ViewOf(mem, kernelPml4)) == UpperView(ViewOf(old(mem), kernelPml4))
      ensures r == Done ==>
                Views(mem, roots) == var views := Views(old(mem), roots);
                  views[i := WithPage(views[i], va, Frame(phys), PresentWritable(flags))]
      ensures r == Panicked ==> AllPages(Views(mem, roots)) == AllPages(Views(old(mem), roots))
    {
      UserWay(mem, free, kernelPml4, roots, owns, i, va);
      r := MapPage(roots[i], va, phys, flags, owns[i]);
      owns' := owns[i := owns[i] + (old(free) - free)];
      if r == Done {
        UserMapped(old(mem), old(free), mem, free, kernelPml4, roots, owns, i, va, Frame(phys), PresentWritable(flags));
      } else {
        UserNotMapped(old(mem), old(free), mem, free, kernelPml4, roots, owns, i, va, PresentWritable(flags));
      }
    }

    method UnmapOneUser(roots: seq<nat>, i: nat, va: nat, ghost owns: seq<set<nat>>)
      requires Users(mem, free, kernelPml4, roots, owns) && i < |roots| && va < UPPER_HALF
      modifies this`mem, this`free
      ensures Users(mem, free, kernelPml4, roots, owns)
      ensures UpperView(ViewOf(mem, kernelPml4)) == UpperView(ViewOf(old(mem), kernelPml4))
      ensures Views(mem, roots) == var views := Views(old(mem), roots); views[i := WithoutPage(views[i], va)]
    {
      UserWay(mem, free, kernelPml4, roots, owns, i, va);
      UnmapPage(roots[i], va, owns[i]);
      UserUnmapped(old(mem), free, mem, kernelPml4, roots, owns, i, va);
    }

    method CreateOneUser(roots: seq<nat>, userMem: nat, userSize: nat, ghost owns: seq<set<nat>>)
      returns (r: Outcome, roots': seq<nat>, ghost owns': seq<set<nat>>)
      requires Users(mem, free, kernelPml4, roots, owns) && kernelPml4 != 0 && userMem + userSize <= UPPER_HALF
      modifies this`mem, this`free
      ensures r == Failed <==> old(free) == {}
      ensures Users(mem, free, kernelPml4, roots', owns')
      ensures UpperView(ViewOf(mem, kernelPml4)) == UpperView(ViewOf(old(mem), kernelPml4))
      ensures Views(mem, roots') ==
              After(Views(old(mem), roots), UpperView(ViewOf(old(mem), kernelPml4)), Create(userMem, userSize),
                    r == Done)
    {
      var pml4;
      ghost var own, n;
      pml4, r, own, n := CreateUserTask(userMem, userSize);
      roots', owns' := roots, owns;
      if r != Failed {
        ghost var joined;
        joined, owns' := UserJoined(old(mem), old(free), mem, free, kernelPml4, roots, owns, pml4, r == Done);
        if r == Done {
          roots' := roots + [pml4];
        }
      }
    }

    /** One call of a run, by a caller that names only address spaces it has. */
    method PerformUser(roots: seq<nat>, op: UserOp, ghost owns: seq<set<nat>>)
      returns (r: Outcome, roots': seq<nat>, ghost owns': seq<set<nat>>)
      requires Users(mem, free, kernelPml4, roots, owns) && kernelPml4 != 0
      modifies this`mem, this`free
      ensures r == Failed <==> !Allowed(op, |roots|) || (op.Create? && old(free) == {})
      ensures Users(mem, free, kernelPml4, roots', owns')
      ensures UpperView(ViewOf(mem, kernelPml4)) == UpperView(ViewOf(old(mem), kernelPml4))
      ensures r != Panicked ==>
                Views(mem, roots') ==
                After(Views(old(mem), roots), UpperView(ViewOf(old(mem), kernelPml4)), op, r == Done)
      ensures r == Panicked ==> AllPages(Views(mem, roots')) == AllPages(Views(old(mem), roots))
    {
      roots', owns' := roots, owns;
      if !Allowed(op, |roots|) {
        return Failed, roots, owns;
      }
      match op
      case Create(userMem, userSize) =>
        r, roots', owns' := CreateOneUser(roots, userMem, userSize, owns);
      case MapOne(i, va, phys, flags) =>
        r, owns' := MapOneUser(roots, i, va, phys, flags, owns);
      case UnmapOne(i, va) =>
        UnmapOneUser(roots, i, va, owns);
        r := Done;
    }

    /** Over every run of calls that make address spaces and map and unmap pages in their user
        halves, each maps the kernel's half and what has been mapped in it itself, in the frames
        and with the rights that follow from its own calls, whatever was done in the others; and
        the kernel's half is what it was. A run ends early with a panic, which changes no page. */
    method RunUsers(first: seq<nat>, ops: seq<UserOp>, ghost owns: seq<set<nat>>)
      returns (roots: seq<nat>, done: seq<bool>, panicked: bool, ghost owns': seq<set<nat>>)
      requires Users(mem, free, kernelPml4, first, owns) && kernelPml4 != 0
      modifies this`mem, this`free
      ensures Users(mem, free, kernelPml4, roots, owns') && |done| <= |ops| && (!panicked ==> |done| == |ops|)
      ensures UpperView(ViewOf(mem, kernelPml4)) == UpperView(ViewOf(old(mem), kernelPml4))
      ensures !panicked ==>
                Views(mem, roots) ==
                Replay(Views(old(mem), first), UpperView(ViewOf(old(mem), kernelPml4)), ops, done)
      ensures AllPages(Views(mem, roots)) ==
              AllPages(Replay(Views(old(mem), first), UpperView(ViewOf(old(mem), kernelPml4)), ops, done))
      decreases |ops|
    {
      if ops == [] {
        return first, [], false, owns;
      }
      var r;
      r, roots, owns' := PerformUser(first, ops[0], owns);
      if r == Panicked {
        return roots, [false], true, owns';
      }
      roots, done, panicked, owns' := RunUsers(roots, ops[1..], owns');
      done := [r == Done] + done;
    }
  }

  /** The entry that paging_map_page writes, and the flags in it. */
  method EntryFor(frame: nat, flags: nat) returns (pw: nat, entry: nat)
    requires frame < FRAMES && IsFlags(flags)
    ensures pw == PresentWritable(flags) == PresentWritable(pw) && IsFlags(pw)
    ensures Present(entry) && Frame(entry) == frame && FlagsOf(entry) == pw
  {
    pw := PresentWritable(flags);
    SetTwice(flags);
    MadeEntry(frame, flags);
    entry := MakeEntry(frame, pw);
  }

  /** What a map call on a root has done, outcome by outcome. */
  ghost predicate MapCall(m0: Memory, f0: set<nat>, m: Memory, f: set<nat>, root: nat, own: set<nat>, va: nat,
                          frame: nat, mark: nat, r: Outcome) {
    match r
    case Failed =>
      && LeadsToZero(m0, root, PathOf(va)) && m == m0 && f == f0
      && MappedIn(m0, f0, m, f, root, own, va, None, mark)
    case Panicked =>
      && !LeadsToZero(m0, root, PathOf(va)) && f == {} && |f0| < Missing(m0, root, PathOf(va))
      && SameView(m0, m, root, PathOf(va)) && MappedIn(m0, f0, m, f, root, own, va, None, mark)
    case Done =>
      && !LeadsToZero(m0, root, PathOf(va)) && |f0| == |f| + Missing(m0, root, PathOf(va))
      && MapsUnlessHuge(m0, m, root, PathOf(va), frame) && Granted(m0, m, root, PathOf(va), mark)
      && MappedIn(m0, f0, m, f, root, own, va, Some(frame), mark)
  }

  lemma MapCallEnds(m0: Memory, f0: set<nat>, m1: Memory, m: Memory, f: set<nat>, root: nat, own: set<nat>, va: nat,
                    k: nat, ptbl: nat, panicked: bool, entry: nat, r: Outcome)
    requires DescendedIn(m0, f0, m1, f, root, own, PathOf(va), k, FlagsOf(entry)) && Present(entry)
    requires if ptbl == 0 then m == m1 && Stopped(m0, f0, m1, f, root, PathOf(va), true, panicked)
             else k == 3 && Partway(m0, f0, m1, f, root, PathOf(va), 3, ptbl, true)
    requires ptbl != 0 ==> IsTable(m1, ptbl) && m == SetEntry(m1, ptbl, PathOf(va)[3], entry)
    requires r == if ptbl != 0 then Done else if panicked then Panicked else Failed
    ensures MapCall(m0, f0, m, f, root, own, va, Frame(entry), FlagsOf(entry), r)
  {
    if ptbl == 0 {
      MappedNothing(m0, f0, m, f, root, own, va, k, FlagsOf(entry));
    } else {
      MapCallDone(m0, f0, m1, f, root, own, va, ptbl, entry);
    }
  }

  /** The page is one of those that are mapped for a user's memory. */
  predicate UserPage(userMem: nat, userSize: nat, x: nat) {
    userMem / 4096 <= x < userMem / 4096 + UserPageCount(userMem, userSize)
  }

  /** What the teardown of a user task's address space frees. */
  lemma GivenPages(m0: Memory, f0: set<nat>, kroot: nat, m: Memory, f: set<nat>, root: nat, userMem: nat, userSize: nat)
    requires KernelRoot(m0, f0, kroot) && Copied(m0, kroot, m, root) && OwnPages(m0, f0, kroot, userMem, userSize)
    requires Space(m, f, root, SharedTables(m0, kroot) + (f0 - f)) && userMem + userSize <= UPPER_HALF
    requires Mapping(m, root) == Ranged(UpperHalf(Mapping(m0, kroot)), userMem / 4096, userMem / 4096,
                                        UserPageCount(userMem, userSize))
    ensures Distinct(FreedBy(m, root))
    ensures forall x: nat :: x in FreedBy(m, root) <==> x in f0 - f || UserPage(userMem, userSize, x)
    ensures forall x :: x in f0 - f ==> x != 0 && IsTable(m, x)
  {
    SharedIsNotFree(m0, f0, kroot);
    PagesBelowUpperHalf(userMem, userMem + userSize);
    var n := UserPageCount(userMem, userSize);
    forall x: nat
      ensures Distinct(FreedBy(m, root))
      ensures x in FreedBy(m, root) <==> x in f0 - f || userMem / 4096 <= x < userMem / 4096 + n
    {
      CreatedTaskTeardown(m0, f0, kroot, m, f, root, f0 - f, Mapping(m0, kroot), userMem / 4096, n, x);
    }
  }

  lemma BackAgain(m: Memory, free: set<nat>, left: set<nat>, free': set<nat>, given: seq<nat>, userMem: nat,
                  userSize: nat)
    requires left <= free && free' == left + Returned(m, given)
    requires forall x :: x in free - left ==> x != 0 && IsTable(m, x)
    requires forall x: nat :: x in given <==> x in free - left || UserPage(userMem, userSize, x)
    ensures forall x: nat :: x in free' <==> x in free || (UserPage(userMem, userSize, x) && x != 0 && IsTable(m, x))
  {
  }

  /** A user's memory is neither free nor one of the kernel's tables. */
  ghost predicate OwnPages(m: Memory, free: set<nat>, kroot: nat, userMem: nat, userSize: nat) {
    forall k: nat :: UserPage(userMem, userSize, k) ==> k !in free && k !in SharedTables(m, kroot)
  }

  lemma TakenPages(shared: set<nat>, free: set<nat>, root: nat, free': set<nat>)
    requires root in free && free' <= free - {root}
    ensures shared + {root} + (free - {root} - free') == shared + (free - free')
  {
  }
}
