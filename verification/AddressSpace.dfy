/** One address space: the tables below a root, the flat map they stand for, and what a
    change to them may touch.
 */
module AddressSpace {
  import opened PageWalk

  /** The walks of m' are those of m, for every virtual page. */
  ghost predicate SameWalks(m: Memory, m': Memory, root: nat) {
    forall q :: |q| == 4 ==> Node(m', root, q) == Node(m, root, q)
  }

  /** m' maps the page at path p to `frame`, and every other page as m does. */
  ghost predicate Remapped(m: Memory, m': Memory, root: nat, p: Path, frame: Option<nat>) {
    && Node(m', root, p) == frame
    && forall q :: |q| == 4 && q != p ==> Node(m', root, q) == Node(m, root, q)
  }

  /** m' differs from m at most on the pages of `own`. */
  ghost predicate ChangedOnly(m: Memory, m': Memory, own: set<nat>) {
    m'.Keys == m.Keys && forall t :: t in m && t !in own ==> m'[t] == m[t]
  }

  /** What the allocator promises about the pages it holds. */
  ghost predicate FreePages(m: Memory, free: set<nat>) {
    forall t :: t in free ==> IsTable(m, t) && 0 < t < FRAMES
  }

  /** The tables below `root` form a tree, they are exactly the pages `own`, and none of
      those is free. */
  ghost predicate Space(m: Memory, free: set<nat>, root: nat, own: set<nat>) {
    && FreePages(m, free) && Tree(m, root) && Plain(m, root) && own !! free
    && (forall p :: |p| <= 3 && Node(m, root, p).Some? ==> Node(m, root, p).value in own)
    && (forall t :: t in own ==> InTree(m, root, t))
  }

  /** Pages may have moved from the free set into the tree, but no walk has changed and
      nothing outside the tree has. */
  ghost predicate Grew(m: Memory, free: set<nat>, m': Memory, free': set<nat>, root: nat, own: set<nat>) {
    && free' <= free && SameWalks(m, m', root)
    && ChangedOnly(m, m', own + (free - free'))
    && Space(m', free', root, own + (free - free'))
  }

  /** The tables of the kernel's half are where they were and what they were, and there are
      no new ones. */
  ghost predicate UpperKept(m: Memory, m': Memory, root: nat) {
    forall q :: UpperPath(q) && |q| <= 3 ==>
      Node(m', root, q) == Node(m, root, q) && SameTable(m, m', Node(m, root, q))
  }

  ghost predicate SameTable(m: Memory, m': Memory, t: Option<nat>) {
    t.Some? && t.value in m ==> t.value in m' && m'[t.value] == m[t.value]
  }

  lemma UpperKeptTwice(m: Memory, m1: Memory, m2: Memory, root: nat)
    requires UpperKept(m, m1, root) && UpperKept(m1, m2, root)
    ensures UpperKept(m, m2, root)
  {
  }

  lemma GrewTwice(m: Memory, f: set<nat>, m1: Memory, f1: set<nat>, m2: Memory, f2: set<nat>, root: nat, own: set<nat>)
    requires Grew(m, f, m1, f1, root, own) && Grew(m1, f1, m2, f2, root, own + (f - f1))
    ensures Grew(m, f, m2, f2, root, own)
  {
    assert own + (f - f1) + (f1 - f2) == own + (f - f2);
  }

  /** n pages from v on unmapped. */
  ghost function Unranged(m: map<int, int>, v: nat, n: nat): map<int, int> {
    if n == 0 then m else Unranged(m, v, n - 1) - {(v + n - 1) % FRAMES}
  }

  lemma UnrangedNext(m: map<int, int>, v0: nat, n: nat, virt: nat) returns (page: int)
    requires virt == (v0 + n) * 4096
    ensures page == Page(virt)
    ensures Unranged(m, v0, n + 1) == Unranged(m, v0, n) - {page}
  {
    page := (v0 + n) % FRAMES;
    PageOfMultiple(virt, v0 + n);
  }

  /** The k-th page after v. */
  function PageAfter(v: nat, k: nat): nat {
    (v + k) % FRAMES
  }

  /** A mapped range, page by page: as long as the range is not longer than the whole
      address space, page v + k is mapped to frame f + k and no other page changes. */
  lemma {:induction false} RangedPages(m: map<int, int>, v: nat, f: nat, n: nat, k: nat)
    requires k < n <= FRAMES
    ensures PageAfter(v, k) in Ranged(m, v, f, n) && Ranged(m, v, f, n)[PageAfter(v, k)] == PageAfter(f, k)
  {
    RangedStep(m, v, f, n - 1);
    if k < n - 1 {
      DifferentPages(v, k, n - 1);
      RangedPages(m, v, f, n - 1, k);
    }
  }

  lemma {:induction false} RangedElsewhere(m: map<int, int>, v: nat, f: nat, n: nat, u: int)
    requires forall j: nat :: j < n ==> u != PageAfter(v, j)
    ensures u in Ranged(m, v, f, n) <==> u in m
    ensures u in m ==> Ranged(m, v, f, n)[u] == m[u]
  {
    if n > 0 {
      RangedStep(m, v, f, n - 1);
      assert u != PageAfter(v, n - 1);
      RangedElsewhere(m, v, f, n - 1, u);
    }
  }

  lemma DifferentPages(v: nat, j: nat, k: nat)
    requires j < k < FRAMES
    ensures PageAfter(v, j) != PageAfter(v, k)
  {
  }

  /** The four-level walks under `root` are the flat map `mapped`. */
  ghost predicate MapsAs(m: Memory, root: nat, mapped: map<int, int>) {
    && (forall v :: v in mapped ==> 0 <= v < FRAMES)
    && (forall v: nat :: v < FRAMES ==> Walk(m, root, v * 4096) == if v in mapped then Some(mapped[v]) else None)
  }

  lemma MapsAsMapping(m: Memory, root: nat, mapped: map<int, int>)
    ensures MapsAs(m, root, mapped) <==> mapped == Mapping(m, root)
  {
    var flat := Mapping(m, root);
    if MapsAs(m, root, mapped) {
      forall v: nat
        ensures v in mapped <==> v in flat
        ensures v in mapped ==> mapped[v] == flat[v]
      {
        if v < FRAMES {
          assert Walk(m, root, v * 4096) == if v in mapped then Some(mapped[v]) else None;
        }
      }
    }
  }

  const WORD := 0x1_0000_0000_0000_0000  // 2^64

  /** The number of pages from the one that holds `start` up to address `end`. */
  function PagesUpTo(start: nat, end: nat): nat {
    if end <= start / 4096 * 4096 then 0 else (end - start / 4096 * 4096 + 4095) / 4096
  }

  /** n pages from v on mapped to n frames from f on, in 36-bit page numbers. */
  ghost function Ranged(m: map<int, int>, v: nat, f: nat, n: nat): map<int, int> {
    if n == 0 then m else Ranged(m, v, f, n - 1)[(v + n - 1) % FRAMES := (f + n - 1) % FRAMES]
  }

  lemma RangedStep(m: map<int, int>, v: nat, f: nat, n: nat)
    ensures Ranged(m, v, f, n + 1) == Ranged(m, v, f, n)[(v + n) % FRAMES := (f + n) % FRAMES]
  {
  }

  /** Page and frame of turn n of the loop. */
  lemma RangedNext(m: map<int, int>, v0: nat, p0: nat, n: nat, virt: nat, phys: nat) returns (page: int, frame: int)
    requires virt == (v0 + n) * 4096 && p0 * 4096 < WORD && phys == AddPages(p0 * 4096, n)
    ensures page == Page(virt) && frame == Frame(phys)
    ensures Ranged(m, v0, p0, n + 1) == Ranged(m, v0, p0, n)[page := frame]
  {
    page := (v0 + n) % FRAMES;
    frame := (p0 + n) % FRAMES;
    RangedStep(m, v0, p0, n);
    PageOfMultiple(virt, v0 + n);
    FrameOfNth(p0, p0 * 4096, n);
  }

  /** 64-bit addition. */
  function Add(a: nat, b: nat): (c: nat)
    ensures a + b < WORD ==> c == a + b
  {
    (a + b) % WORD
  }

  /** n pages added to a 64-bit address, one at a time. */
  function AddPages(a: nat, n: nat): nat {
    if n == 0 then a else Add(AddPages(a, n - 1), 4096)
  }

  lemma {:induction false} AddPagesIs(p: nat, a: nat, n: nat)
    requires a == p * 4096 < WORD
    ensures AddPages(a, n) == (p + n) * 4096 % WORD
  {
    if n > 0 {
      AddPagesIs(p, a, n - 1);
      AddWrapped(p + n - 1);
    }
  }

  lemma AddWrapped(x: nat)
    ensures Add(x * 4096 % WORD, 4096) == (x + 1) * 4096 % WORD
  {
    ScaledRemainder(x);
  }

  /** A loop over pages from v on that stops at `end` never gets there exactly when `end` lies
      in the last page of the 64-bit address space: the step from that page wraps to 0. */
  lemma RangeEndsIff(v: nat, end: nat)
    requires v * 4096 < WORD && end < WORD
    ensures (forall n: nat :: AddPages(v * 4096, n) < end) <==> end > WORD - 4096
  {
    if end > WORD - 4096 {
      forall n: nat
        ensures AddPages(v * 4096, n) < end
      {
        AddPagesIs(v, v * 4096, n);
        ScaledRemainder(v + n);
      }
    } else {
      var n: nat := 0xF_FFFF_FFFF_FFFF - v;
      AddPagesIs(v, v * 4096, n);
      ScaledRemainder(v + n);
      assert AddPages(v * 4096, n) >= end;
    }
  }

  /** For one: the last byte but one of the address space, as a range of its own. */
  lemma LastByteNeverEnds(n: nat)
    ensures Add(WORD - 2, 1) == WORD - 1
    ensures AddPages((WORD - 2) / 4096 * 4096, n) < Add(WORD - 2, 1)
  {
    RangeEndsIff((WORD - 2) / 4096, WORD - 1);
  }

  lemma FrameOfNth(p: nat, a: nat, n: nat)
    requires a == p * 4096 < WORD
    ensures Frame(AddPages(a, n)) == (p + n) % FRAMES
  {
    AddPagesIs(p, a, n);
    FrameOfWrapped(p + n);
  }

  lemma FrameOfWrapped(x: nat)
    ensures Frame(x * 4096 % WORD) == x % FRAMES
  {
    ScaledRemainder(x);
    FrameOfMultiple(x % 0x10_0000_0000_0000);
    LowBits(x);
  }

  lemma ScaledRemainder(x: nat)
    ensures x * 4096 % WORD == x % 0x10_0000_0000_0000 * 4096
  {
  }

  lemma FrameOfMultiple(y: nat)
    ensures Frame(y * 4096) == y % FRAMES
  {
  }

  lemma LowBits(x: nat)
    ensures x % 0x10_0000_0000_0000 % FRAMES == x % FRAMES
  {
  }

  lemma PageOfMultiple(virt: nat, x: nat)
    requires virt == x * 4096
    ensures Page(virt) == x % FRAMES
  {
    assert x * 4096 / 4096 == x;
  }

  /** How often a loop over pages has turned when it stops. */
  lemma CountPages(start: nat, end: nat, n: nat)
    requires (start / 4096 + n) * 4096 >= end && (n > 0 ==> (start / 4096 + n - 1) * 4096 < end)
    ensures n == PagesUpTo(start, end)
  {
  }

  lemma UpdatedNot(m: Memory, free: set<nat>, root: nat, own: set<nat>)
    requires Space(m, free, root, own)
    ensures Updated(m, free, m, free, root, own)
  {
    assert own + (free - free) == own;
  }

  lemma UpdatedTwice(m: Memory, f: set<nat>, m1: Memory, f1: set<nat>, m2: Memory, f2: set<nat>, root: nat,
                     own: set<nat>)
    requires Updated(m, f, m1, f1, root, own) && Updated(m1, f1, m2, f2, root, own + (f - f1))
    ensures Updated(m, f, m2, f2, root, own)
  {
    assert own + (f - f1) + (f1 - f2) == own + (f - f2);
  }

  /** What an address space maps: virtual page numbers to frame numbers. */
  ghost function Mapping(m: Memory, root: nat): map<int, int> {
    map v | 0 <= v < FRAMES && Walk(m, root, v * 4096).Some? :: Walk(m, root, v * 4096).value
  }

  /** The tables still form a tree, and only this address space has been touched. */
  ghost predicate Updated(m: Memory, free: set<nat>, m': Memory, free': set<nat>, root: nat, own: set<nat>) {
    && free' <= free && ChangedOnly(m, m', own + (free - free'))
    && Space(m', free', root, own + (free - free'))
  }

  lemma SameMapping(m: Memory, m': Memory, root: nat)
    requires SameWalks(m, m', root)
    ensures Mapping(m', root) == Mapping(m, root)
  {
    forall v: nat | v < FRAMES
      ensures Walk(m', root, v * 4096) == Walk(m, root, v * 4096)
    {
      assert |PathOf(v * 4096)| == 4;
    }
  }

  lemma RemappedIsUpdate(m: Memory, m': Memory, root: nat, va: nat, frame: Option<nat>)
    requires Remapped(m, m', root, PathOf(va), frame)
    ensures Mapping(m', root) ==
            match frame case None => Mapping(m, root) - {Page(va)} case Some(f) => Mapping(m, root)[Page(va) := f]
  {
    forall v: nat | v < FRAMES
      ensures Walk(m', root, v * 4096) == if v == Page(va) then frame else Walk(m, root, v * 4096)
    {
      RemappedWalk(m, m', root, va, frame, v);
    }
    var page := Page(va);
    assert Mapping(m', root).Keys - {page} == Mapping(m, root).Keys - {page};
  }

  lemma RemappedWalk(m: Memory, m': Memory, root: nat, va: nat, frame: Option<nat>, v: nat)
    requires Remapped(m, m', root, PathOf(va), frame) && v < FRAMES
    ensures Walk(m', root, v * 4096) == if v == Page(va) then frame else Walk(m, root, v * 4096)
  {
    PageOfNumber(v);
    SamePathSamePage(v * 4096, va);
  }

  lemma PageOfNumber(v: nat)
    requires v < FRAMES
    ensures Page(v * 4096) == v
  {
    assert v * 4096 / 4096 == v;
  }

  /** The last step of mapping or unmapping: one write into a last-level table. */
  lemma LeafWrite(m: Memory, m1: Memory, f: set<nat>, f1: set<nat>, root: nat, own: set<nat>, va: nat, entry: nat)
    requires Grew(m, f, m1, f1, root, own)
    requires Node(m1, root, PathOf(va)[..3]).Some?
    ensures var m2 := SetEntry(m1, Node(m1, root, PathOf(va)[..3]).value, PathOf(va)[3], entry);
            && Updated(m, f, m2, f1, root, own) && (!UpperPath(PathOf(va)) ==> UpperKept(m1, m2, root))
            && Mapping(m2, root) == if Present(entry) then Mapping(m, root)[Page(va) := Frame(entry)]
                                    else Mapping(m, root) - {Page(va)}
  {
    var p := PathOf(va);
    var m2 := SetEntry(m1, Node(m1, root, p[..3]).value, p[3], entry);
    LeafRemaps(m1, root, p, entry);
    if !UpperPath(p) {
      LeafKeepsUpper(m1, root, p, entry);
    }
    LeafKeepsSpace(m1, f1, root, own + (f - f1), p, entry);
    RemappedIsUpdate(m, m2, root, va, if Present(entry) then Some(Frame(entry)) else None);
  }

  /** A write into a table of the user half touches no table of the kernel's. */
  lemma LeafKeepsUpper(m: Memory, root: nat, p: Path, entry: nat)
    requires Tree(m, root) && |p| == 4 && p[3] < ENTRIES && Node(m, root, p[..3]).Some? && !UpperPath(p)
    ensures UpperKept(m, SetEntry(m, Node(m, root, p[..3]).value, p[3], entry), root)
  {
    LeafRemaps(m, root, p, entry);
    forall q | UpperPath(q) && |q| <= 3 && Node(m, root, q).Some?
      ensures Node(m, root, q) != Node(m, root, p[..3])
    {
      assert p[..3][0] == p[0];
    }
  }

  lemma LeafKeepsSpace(m: Memory, free: set<nat>, root: nat, own: set<nat>, p: Path, entry: nat)
    requires Space(m, free, root, own) && |p| == 4 && p[3] < ENTRIES && Node(m, root, p[..3]).Some?
    ensures var m2 := SetEntry(m, Node(m, root, p[..3]).value, p[3], entry);
            Space(m2, free, root, own) && ChangedOnly(m, m2, own)
  {
    var m2 := SetEntry(m, Node(m, root, p[..3]).value, p[3], entry);
    LeafRemaps(m, root, p, entry);
    TablesKept(m, m2, root, own);
    LeafKeepsTree(m, root, p[..3], p[3], entry);
    LeafKeepsPlain(m, root, p[..3], p[3], entry);
  }

  lemma LeafRemaps(m: Memory, root: nat, p: Path, entry: nat)
    requires Tree(m, root) && |p| == 4 && p[3] < ENTRIES && Node(m, root, p[..3]).Some?
    ensures var m2 := SetEntry(m, Node(m, root, p[..3]).value, p[3], entry);
            && Remapped(m, m2, root, p, if Present(entry) then Some(Frame(entry)) else None)
            && forall q :: |q| <= 3 ==> Node(m2, root, q) == Node(m, root, q)
  {
    var m2 := SetEntry(m, Node(m, root, p[..3]).value, p[3], entry);
    assert p == p[..3] + [p[3]];
    WrittenEntry(m, root, p[..3], p[3], entry);
    forall q | |q| <= 4 && q != p
      ensures Node(m2, root, q) == Node(m, root, q)
    {
      assert !(p <= q);
      WriteInside(m, root, p[..3], p[3], entry, q);
    }
  }

  lemma TablesKept(m: Memory, m': Memory, root: nat, own: set<nat>)
    requires forall q :: |q| <= 3 && Node(m, root, q).Some? ==> Node(m', root, q) == Node(m, root, q)
    requires forall t :: t in own ==> InTree(m, root, t)
    ensures forall t :: t in own ==> InTree(m', root, t)
  {
    forall t | t in own
      ensures InTree(m', root, t)
    {
      var q :| |q| <= 3 && Node(m, root, q) == Some(t);
      assert Node(m', root, q) == Some(t);
    }
  }

  /** All nodes of a grown tree, against those of the tree before. */
  lemma GrownNodes(mem: Memory, root: nat, p: Path, i: nat, entry: nat, t: nat)
    requires Tree(mem, root) && |p| <= 2 && i < ENTRIES && Node(mem, root, p).Some?
    requires Node(mem, root, p + [i]).None? && !InTree(mem, root, t)
    requires Present(entry) && Frame(entry) == t
    ensures var mem' := Grown(mem, root, p, i, entry, t);
            && SameWalks(mem, mem', root)
            && (forall q :: |q| <= 3 && Node(mem, root, q).Some? ==> Node(mem', root, q) == Node(mem, root, q))
            && (forall q :: |q| <= 3 && Node(mem', root, q).Some? && q != p + [i] ==>
                  Node(mem', root, q) == Node(mem, root, q))
            && Node(mem', root, p + [i]) == Some(t)
            && (!UpperPath(p + [i]) ==> forall q :: UpperPath(q) && |q| <= 3 ==>
                  Node(mem', root, q) == Node(mem, root, q))
  {
    var mem' := Grown(mem, root, p, i, entry, t);
    forall q | |q| <= 4
      ensures Node(mem', root, q) == if q == p + [i] then Some(t) else if p + [i] <= q then None else Node(mem, root, q)
      ensures p + [i] <= q ==> Node(mem, root, q).None?
    {
      GrownWalk(mem, root, p, i, entry, t, q);
      if p + [i] <= q {
        NoneBelow(mem, root, p + [i], q);
      }
    }
  }

  lemma GrownKeepsUpper(m: Memory, root: nat, p: Path, i: nat, entry: nat, t: nat)
    requires Tree(m, root) && |p| <= 2 && i < ENTRIES && Node(m, root, p).Some?
    requires Node(m, root, p + [i]).None? && !InTree(m, root, t)
    requires Present(entry) && Frame(entry) == t && !UpperPath(p + [i])
    ensures UpperKept(m, Grown(m, root, p, i, entry, t), root)
  {
    GrownNodes(m, root, p, i, entry, t);
    forall q | UpperPath(q) && |q| <= 3 && Node(m, root, q).Some?
      ensures Node(m, root, q) != Node(m, root, p) && Node(m, root, q).value != t
    {
      assert p != [] ==> (p + [i])[0] == p[0];
      assert q != p;
    }
  }

  lemma GrewByOne(m: Memory, free: set<nat>, root: nat, own: set<nat>, p: Path, i: nat, entry: nat, t: nat)
    requires Space(m, free, root, own) && t in free
    requires |p| <= 2 && i < ENTRIES && Node(m, root, p).Some? && Node(m, root, p + [i]).None?
    requires Present(entry) && Frame(entry) == t && !Huge(entry)
    ensures var m' := Grown(m, root, p, i, entry, t);
            && Grew(m, free, m', free - {t}, root, own)
            && Node(m', root, p + [i]) == Some(t)
            && (!UpperPath(p + [i]) ==> UpperKept(m, m', root))
  {
    var m' := Grown(m, root, p, i, entry, t);
    assert !InTree(m, root, t);
    GrownNodes(m, root, p, i, entry, t);
    GrownIsTree(m, root, p, i, entry, t);
    GrownIsPlain(m, root, p, i, entry, t);
    if !UpperPath(p + [i]) {
      GrownKeepsUpper(m, root, p, i, entry, t);
    }
    TablesKept(m, m', root, own);
    GrownChanges(m, free, root, own, p, i, entry, t);
    AtPath(m', root, p + [i], t);
    assert free - (free - {t}) == {t};
  }

  lemma AtPath(m: Memory, root: nat, q: Path, t: nat)
    requires |q| <= 3 && Node(m, root, q) == Some(t)
    ensures InTree(m, root, t)
  {
  }

  lemma GrownChanges(m: Memory, free: set<nat>, root: nat, own: set<nat>, p: Path, i: nat, entry: nat, t: nat)
    requires FreePages(m, free) && t in free && i < ENTRIES
    requires Node(m, root, p).Some? && IsTable(m, Node(m, root, p).value) && Node(m, root, p).value in own
    ensures var m' := Grown(m, root, p, i, entry, t);
            ChangedOnly(m, m', own + {t}) && FreePages(m', free - {t})
  {
  }

  /** A step of the driver's walk within an address space: no walk changes, and a table made for
      a user page leaves the kernel's half alone. */
  lemma EnterKeepsSpace(m: Memory, f: set<nat>, m': Memory, f': set<nat>, root: nat, own: set<nat>, p: Path, i: nat,
                        flags: nat, allocate: bool, next: nat, panicked: bool)
    requires Space(m, f, root, own) && |p| <= 2 && Node(m, root, p).Some? && IsFlags(flags)
    requires Entered(m, f, m', f', Node(m, root, p).value, i, flags, allocate, next, panicked)
    ensures Grew(m, f, m', f', root, own)
    ensures !UpperPath(p + [i]) ==> UpperKept(m, m', root)
    ensures next == 0 ==> m' == m && f' == f && Node(m, root, p + [i]).None?
  {
    NodeExtend(m, root, p, i);
    if Child(m, Node(m, root, p).value, i).None? && allocate && f != {} {
      MadeEntry(next, flags);
      GrewByOne(m, f, root, own, p, i, MakeEntry(next, PresentWritable(flags)), next);
    } else {
      assert own + (f - f) == own;
    }
  }
}
