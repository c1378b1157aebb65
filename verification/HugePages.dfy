/** What the processor makes of page tables with 2 MiB and 1 GiB pages, which the driver's own
    walk does not know about: it takes such an entry for a pointer to a table.
 */
module HugePages {
  import opened PageWalk
  import opened AddressSpace

  /** The frame in which the processor finds the page at a path of four steps. */
  function Translate(m: Memory, root: nat, p: Path): Option<nat>
    requires |p| == 4
  {
    match Node(m, root, p[..1])
    case None => None
    case Some(t3) =>
      if Child(m, t3, p[1]).None? then None
      else if Huge(m[t3][p[1]]) then Some(Frame(m[t3][p[1]]) / 0x4_0000 * 0x4_0000 + p[2] * 512 + p[3])
      else
        var t2 := Child(m, t3, p[1]).value;
        if Child(m, t2, p[2]).None? then None
        else if Huge(m[t2][p[2]]) then Some(Frame(m[t2][p[2]]) / 512 * 512 + p[3])
        else Child(m, Child(m, t2, p[2]).value, p[3])
  }

  /** The way to the page leads through a huge entry. */
  predicate MeetsHuge(m: Memory, root: nat, p: Path)
    requires |p| == 4
  {
    match Node(m, root, p[..1])
    case None => false
    case Some(t3) =>
      && Child(m, t3, p[1]).Some?
      && (Huge(m[t3][p[1]]) ||
          (var t2 := Child(m, t3, p[1]).value; Child(m, t2, p[2]).Some? && Huge(m[t2][p[2]])))
  }

  /** The entries that the processor meets on its way to the page, down to the one that maps it. */
  function Met(m: Memory, root: nat, p: Path): Option<seq<nat>>
    requires |p| == 4
  {
    match Child(m, root, p[0])
    case None => None
    case Some(t3) =>
      match Child(m, t3, p[1])
      case None => None
      case Some(t2) =>
        var e4, e3 := m[root][p[0]], m[t3][p[1]];
        if Huge(e3) then Some([e4, e3])
        else
          match Child(m, t2, p[2])
          case None => None
          case Some(t1) =>
            var e2 := m[t2][p[2]];
            if Huge(e2) then Some([e4, e3, e2])
            else if Child(m, t1, p[3]).None? then None else Some([e4, e3, e2, m[t1][p[3]]])
  }

  /** It meets entries all the way exactly when it finds the page. */
  lemma MetIsFound(m: Memory, root: nat, p: Path)
    requires |p| == 4
    ensures Met(m, root, p).Some? <==> Translate(m, root, p).Some?
    ensures Met(m, root, p).Some? ==> 2 <= |Met(m, root, p).value| <= 4
    ensures Met(m, root, p).Some? ==> (MeetsHuge(m, root, p) <==> |Met(m, root, p).value| < 4)
  {
    NodesOnPath(m, root, p);
  }

  lemma NodesOnPath(m: Memory, root: nat, p: Path)
    requires |p| == 4
    ensures Node(m, root, p[..1]) == Child(m, root, p[0])
    ensures Node(m, root, p[..2]) == match Node(m, root, p[..1]) case None => None case Some(t) => Child(m, t, p[1])
    ensures Node(m, root, p[..3]) == match Node(m, root, p[..2]) case None => None case Some(t) => Child(m, t, p[2])
    ensures Node(m, root, p) == match Node(m, root, p[..3]) case None => None case Some(t) => Child(m, t, p[3])
  {
    assert p[..1] == [] + [p[0]] && p[..2] == p[..1] + [p[1]] && p[..3] == p[..2] + [p[2]] && p == p[..3] + [p[3]];
    NodeExtend(m, root, [], p[0]);
    NodeExtend(m, root, p[..1], p[1]);
    NodeExtend(m, root, p[..2], p[2]);
    NodeExtend(m, root, p[..3], p[3]);
  }

  /** Without huge pages the processor agrees with the driver's walk. */
  lemma PlainTranslates(m: Memory, root: nat, va: nat)
    requires Plain(m, root)
    ensures !MeetsHuge(m, root, PathOf(va)) && Translate(m, root, PathOf(va)) == Walk(m, root, va)
  {
    var p := PathOf(va);
    NodesOnPath(m, root, p);
    if Node(m, root, p[..1]).Some? {
      PlainEntry(m, root, p[..1], p[1]);
    }
    if Node(m, root, p[..2]).Some? {
      PlainEntry(m, root, p[..2], p[2]);
    }
  }

  ////// The way of a call

  /** The tables that the driver visits on its way to the page at path p are pages of memory and
      different from each other, and those that it may hang a new table under are not free. Nothing
      is asked of other tables, and the last one may lie in a huge page, free or not. */
  ghost predicate ClearWay(m: Memory, free: set<nat>, root: nat, p: Path) {
    && |p| == 4 && p[0] < ENTRIES && p[1] < ENTRIES && p[2] < ENTRIES && p[3] < ENTRIES
    && FreePages(m, free)
    && (forall k :: 0 <= k <= 3 && Node(m, root, p[..k]).Some? && Node(m, root, p[..k]).value != 0 ==>
          IsTable(m, Node(m, root, p[..k]).value))
    && (forall k :: 0 <= k <= 2 && Node(m, root, p[..k]).Some? ==> Node(m, root, p[..k]).value !in free)
    && (forall j, k :: 0 <= j < k <= 3 && Node(m, root, p[..k]).Some? ==>
          Node(m, root, p[..j]) != Node(m, root, p[..k]))
  }

  /** The driver takes an entry with frame 0 for a null pointer and gives up. */
  predicate LeadsToZero(m: Memory, root: nat, p: Path)
    requires |p| == 4
  {
    Node(m, root, p[..1]) == Some(0) || Node(m, root, p[..2]) == Some(0) || Node(m, root, p[..3]) == Some(0)
  }

  /** How many tables have to be made on the way. */
  function Missing(m: Memory, root: nat, p: Path): (n: nat)
    requires |p| == 4
    ensures n <= 3
  {
    if Node(m, root, p[..1]).None? then 3
    else if Node(m, root, p[..2]).None? then 2
    else if Node(m, root, p[..3]).None? then 1 else 0
  }

  /** Every page of an address space without huge entries has such a way. */
  lemma SpaceIsClear(m: Memory, free: set<nat>, root: nat, own: set<nat>, va: nat)
    requires Space(m, free, root, own)
    ensures ClearWay(m, free, root, PathOf(va)) && !LeadsToZero(m, root, PathOf(va))
  {
    var p := PathOf(va);
    forall j, k | 0 <= j < k <= 3 && Node(m, root, p[..k]).Some?
      ensures Node(m, root, p[..j]) != Node(m, root, p[..k])
    {
      assert |p[..j]| != |p[..k]|;
    }
  }

  lemma ChildElsewhere(m: Memory, t: nat, i: nat, entry: nat, s: nat, j: nat)
    requires IsTable(m, t) && i < ENTRIES && s != t
    ensures Child(SetEntry(m, t, i, entry), s, j) == Child(m, s, j)
    ensures IsTable(m, s) && j < ENTRIES ==> SetEntry(m, t, i, entry)[s][j] == m[s][j]
  {
  }

  /** m' is m with an empty table at `page`, linked under entry i of table t by a plain entry. */
  ghost predicate NewTable(m: Memory, m': Memory, t: nat, i: nat, page: nat) {
    && (forall s, j: nat :: s != page && (s != t || j != i) ==> Child(m', s, j) == Child(m, s, j))
    && (forall s, j: nat :: s != page && (s != t || j != i) && Child(m, s, j).Some? ==> m'[s][j] == m[s][j])
    && Child(m', t, i) == Some(page) && !Huge(m'[t][i])
    && (forall j: nat :: Child(m', page, j).None?)
  }

  lemma WithTableIsNew(m: Memory, t: nat, i: nat, page: nat, flags: nat)
    requires IsTable(m, t) && i < ENTRIES && page != t && page < FRAMES && IsFlags(flags)
    ensures NewTable(m, WithTable(m, t, i, page, flags), t, i, page)
  {
    MadeEntry(page, flags);
    assert !Present(0);
  }

  lemma StepBefore(m: Memory, m': Memory, root: nat, q: Path, i: nat, t: nat, at: nat, page: nat)
    requires NewTable(m, m', t, at, page) && Node(m', root, q) == Node(m, root, q)
    requires Node(m, root, q) != Some(t) && Node(m, root, q) != Some(page)
    ensures Node(m', root, q + [i]) == Node(m, root, q + [i])
  {
    NodeExtend(m, root, q, i);
    NodeExtend(m', root, q, i);
  }

  lemma StepBeyond(m: Memory, m': Memory, root: nat, q: Path, i: nat, t: nat, at: nat, page: nat)
    requires NewTable(m, m', t, at, page) && (Node(m', root, q) == Some(page) || Node(m', root, q).None?)
    ensures Node(m', root, q + [i]).None?
  {
    NodeExtend(m', root, q, i);
  }

  lemma {:induction false} NewTableWalk(m: Memory, m': Memory, root: nat, p: Path, k: nat, t: nat, page: nat, j: nat)
    requires |p| == 4 && k <= 2 && j <= 3 && NewTable(m, m', t, p[k], page)
    requires Node(m, root, p[..k]) == Some(t) && t != page
    requires forall i :: 0 <= i < k ==> Node(m, root, p[..i]) != Some(t) && Node(m, root, p[..i]) != Some(page)
    ensures Node(m', root, p[..j]) == if j <= k then Node(m, root, p[..j]) else if j == k + 1 then Some(page) else None
  {
    if j == 0 {
      assert p[..0] == [];
    } else {
      NewTableWalk(m, m', root, p, k, t, page, j - 1);
      assert p[..j] == p[..j - 1] + [p[j - 1]];
      if j <= k {
        StepBefore(m, m', root, p[..j - 1], p[j - 1], t, p[k], page);
      } else if j == k + 1 {
        NodeExtend(m', root, p[..k], p[k]);
      } else {
        StepBeyond(m, m', root, p[..j - 1], p[j - 1], t, p[k], page);
      }
    }
  }

  /** Where the way leads once a table has been made at its k-th step. */
  lemma LinkedWalk(m: Memory, free: set<nat>, root: nat, p: Path, k: nat, page: nat, flags: nat, j: nat)
    requires ClearWay(m, free, root, p) && page in free && IsFlags(flags) && k <= 2 && j <= 3
    requires Node(m, root, p[..k]).Some? && Node(m, root, p[..k]).value != 0 && Node(m, root, p[..k + 1]).None?
    ensures NewTable(m, WithTable(m, Node(m, root, p[..k]).value, p[k], page, flags), Node(m, root, p[..k]).value,
                     p[k], page)
    ensures Node(WithTable(m, Node(m, root, p[..k]).value, p[k], page, flags), root, p[..j])
            == if j <= k then Node(m, root, p[..j]) else if j == k + 1 then Some(page) else None
  {
    var t := Node(m, root, p[..k]).value;
    WithTableIsNew(m, t, p[k], page, flags);
    forall i | 0 <= i < k
      ensures Node(m, root, p[..i]) != Some(t) && Node(m, root, p[..i]) != Some(page)
    {
      assert Node(m, root, p[..i]) != Node(m, root, p[..k]);
    }
    NewTableWalk(m, WithTable(m, t, p[k], page, flags), root, p, k, t, page, j);
  }

  /** What the processor and the driver make of a path is the same in both memories. */
  ghost predicate SameView(m: Memory, m': Memory, root: nat, p: Path) {
    && |p| == 4 && Translate(m', root, p) == Translate(m, root, p) && MeetsHuge(m', root, p) == MeetsHuge(m, root, p)
    && LeadsToZero(m', root, p) == LeadsToZero(m, root, p) && Met(m', root, p) == Met(m, root, p)
  }

  /** Making a table maps nothing yet. */
  lemma LinkedKeepsView(m: Memory, free: set<nat>, root: nat, p: Path, k: nat, page: nat, flags: nat)
    requires ClearWay(m, free, root, p) && page in free && IsFlags(flags) && k <= 2
    requires Node(m, root, p[..k]).Some? && Node(m, root, p[..k]).value != 0 && Node(m, root, p[..k + 1]).None?
    ensures var m' := WithTable(m, Node(m, root, p[..k]).value, p[k], page, flags);
            && SameView(m, m', root, p) && Missing(m', root, p) == Missing(m, root, p) - 1
  {
    var t := Node(m, root, p[..k]).value;
    var m' := WithTable(m, t, p[k], page, flags);
    NodesOnPath(m, root, p);
    NodesOnPath(m', root, p);
    LinkedWalk(m, free, root, p, k, page, flags, 1);
    LinkedWalk(m, free, root, p, k, page, flags, 2);
    LinkedWalk(m, free, root, p, k, page, flags, 3);
    if k >= 1 {
      assert Node(m, root, p[..1]) != Some(page);
    }
    if k == 2 {
      assert Node(m, root, p[..1]) != Node(m, root, p[..2]);
    }
  }

  lemma LinkedKeepsWay(m: Memory, free: set<nat>, root: nat, p: Path, k: nat, page: nat, flags: nat)
    requires ClearWay(m, free, root, p) && page in free && IsFlags(flags) && k <= 2
    requires Node(m, root, p[..k]).Some? && Node(m, root, p[..k]).value != 0 && Node(m, root, p[..k + 1]).None?
    ensures ClearWay(WithTable(m, Node(m, root, p[..k]).value, p[k], page, flags), free - {page}, root, p)
  {
    var m' := WithTable(m, Node(m, root, p[..k]).value, p[k], page, flags);
    forall j | 0 <= j <= 3
      ensures Node(m', root, p[..j])
              == if j <= k then Node(m, root, p[..j]) else if j == k + 1 then Some(page) else None
    {
      LinkedWalk(m, free, root, p, k, page, flags, j);
    }
  }

  /** The driver's walk on its way: it has come to table t, k steps down, and has changed nothing
      but for the tables it had to make. */
  ghost predicate Partway(m0: Memory, f0: set<nat>, m: Memory, f: set<nat>, root: nat, p: Path, k: nat, t: nat,
                          allocate: bool) {
    && ClearWay(m, f, root, p) && k <= 3 && Node(m, root, p[..k]) == Some(t)
    && (forall j :: 0 <= j <= k ==> Node(m, root, p[..j]) != Some(0))
    && SameView(m0, m, root, p) && f <= f0 && |f0| - |f| == Missing(m0, root, p) - Missing(m, root, p)
    && ((m == m0 && f == f0) || (allocate && (k <= 2 ==> Node(m, root, p[..k + 1]).None?)))
  }

  /** The driver's walk given up. */
  ghost predicate Stopped(m0: Memory, f0: set<nat>, m: Memory, f: set<nat>, root: nat, p: Path, allocate: bool,
                          panicked: bool) {
    && SameView(m0, m, root, p) && f <= f0
    && (panicked ==> allocate && f == {} && |f0| < Missing(m0, root, p) && !LeadsToZero(m0, root, p))
    && (!panicked ==> m == m0 && f == f0 && (LeadsToZero(m0, root, p) || (!allocate && Node(m0, root, p[..3]).None?)))
  }

  lemma PartwayFresh(m0: Memory, f0: set<nat>, m: Memory, f: set<nat>, root: nat, p: Path, k: nat, t: nat,
                     flags: nat, page: nat)
    requires Partway(m0, f0, m, f, root, p, k, t, true) && k <= 2 && IsFlags(flags)
    requires Node(m, root, p[..k + 1]).None? && page in f
    ensures Partway(m0, f0, WithTable(m, t, p[k], page, flags), f - {page}, root, p, k + 1, page, true)
  {
    var m' := WithTable(m, t, p[k], page, flags);
    LinkedKeepsView(m, f, root, p, k, page, flags);
    LinkedKeepsWay(m, f, root, p, k, page, flags);
    forall j | 0 <= j <= 3
      ensures Node(m', root, p[..j])
              == if j <= k then Node(m, root, p[..j]) else if j == k + 1 then Some(page) else None
    {
      LinkedWalk(m, f, root, p, k, page, flags, j);
    }
  }

  /** A way that ends early leads to no frame 0 behind its end. */
  lemma EndsEarly(m: Memory, root: nat, p: Path, k: nat)
    requires |p| == 4 && k <= 2 && Node(m, root, p[..k + 1]).None?
    requires forall j :: 0 <= j <= k ==> Node(m, root, p[..j]) != Some(0)
    ensures !LeadsToZero(m, root, p) && Missing(m, root, p) > 0 && Node(m, root, p[..3]).None?
  {
    NodesOnPath(m, root, p);
  }

  /** One more step of it. */
  lemma PartwayNext(m0: Memory, f0: set<nat>, m: Memory, f: set<nat>, m': Memory, f': set<nat>, root: nat, p: Path,
                    k: nat, t: nat, flags: nat, allocate: bool, next: nat, panicked: bool)
    requires Partway(m0, f0, m, f, root, p, k, t, allocate) && k <= 2 && IsFlags(flags)
    requires Entered(m, f, m', f', t, p[k], flags, allocate, next, panicked)
    ensures next != 0 ==> !panicked && Partway(m0, f0, m', f', root, p, k + 1, next, allocate)
    ensures next == 0 ==> Stopped(m0, f0, m', f', root, p, allocate, panicked)
  {
    assert p[..k + 1] == p[..k] + [p[k]];
    NodeExtend(m, root, p[..k], p[k]);
    if Node(m, root, p[..k + 1]).None? {
      EndsEarly(m, root, p, k);
      if allocate && f != {} {
        PartwayFresh(m0, f0, m, f, root, p, k, t, flags, next);
      }
    }
  }

  /** The end of a call: an entry is written into the table that the driver's walk ends in. That
      changes what the processor finds exactly when the way there meets no huge entry: otherwise
      the write goes into the huge page, and the translation stays what it was. */
  lemma WritesUnlessHuge(m0: Memory, f0: set<nat>, m: Memory, f: set<nat>, root: nat, p: Path, t: nat,
                         allocate: bool, entry: nat)
    requires Partway(m0, f0, m, f, root, p, 3, t, allocate)
    ensures Translate(SetEntry(m, t, p[3], entry), root, p)
            == if MeetsHuge(m0, root, p) then Translate(m0, root, p)
               else if Present(entry) then Some(Frame(entry)) else None
  {
    var m' := SetEntry(m, t, p[3], entry);
    NodesOnPath(m, root, p);
    NodesOnPath(m', root, p);
    assert p[..0] == [] && Node(m, root, p[..0]) == Some(root);
    ChildElsewhere(m, t, p[3], entry, root, p[0]);
    ChildElsewhere(m, t, p[3], entry, Node(m, root, p[..1]).value, p[1]);
    ChildElsewhere(m, t, p[3], entry, Node(m, root, p[..2]).value, p[2]);
  }

  /** A walk that has arrived has made every table that was missing, and met no frame 0. */
  lemma Arrived(m0: Memory, f0: set<nat>, m: Memory, f: set<nat>, root: nat, p: Path, t: nat, allocate: bool)
    requires Partway(m0, f0, m, f, root, p, 3, t, allocate)
    ensures |f0| == |f| + Missing(m0, root, p) && !LeadsToZero(m0, root, p)
    ensures Node(m, root, p[..3]) == Some(t) && IsTable(m, t)
  {
    NodesOnPath(m, root, p);
    assert Node(m, root, p[..1]) != Some(0) && Node(m, root, p[..2]) != Some(0) && Node(m, root, p[..3]) != Some(0);
  }

  /** What a map call that succeeds has done: the page is mapped to the frame exactly when the way
      to it met no huge entry. */
  ghost predicate MapsUnlessHuge(m0: Memory, m: Memory, root: nat, p: Path, frame: nat) {
    |p| == 4 && Translate(m, root, p) == if MeetsHuge(m0, root, p) then Translate(m0, root, p) else Some(frame)
  }

  ////// The root that the kernel boots with

  /** The page directories that the boot code fills: the first 512 GiB, mapped onto
      themselves by 2 MiB entries, below plain entries of the two levels above. */
  ghost predicate BootRoot(m: Memory, root: nat) {
    && Child(m, root, 0).Some?
    && var pdpt := Child(m, root, 0).value;
       forall i: nat :: i < ENTRIES ==>
         Child(m, pdpt, i).Some? && !Huge(m[pdpt][i]) && BootDirectory(m, Child(m, pdpt, i).value, i)
  }

  ghost predicate BootDirectory(m: Memory, pd: nat, i: nat) {
    IsTable(m, pd) && forall j: nat :: j < ENTRIES ==> m[pd][j] == (i * 512 + j) * 0x20_0000 + 0x83
  }

  lemma BootEntry(k: nat)
    requires k < 0x4_0000
    ensures Present(k * 0x20_0000 + 0x83) && Huge(k * 0x20_0000 + 0x83) && Frame(k * 0x20_0000 + 0x83) == k * 512
  {
    Halves(k * 0x20_0000 + 0x83, k * 0x10_0000 + 0x41, 1);
    Div128(k * 0x20_0000 + 0x83, k * 0x4000 + 1, 3);
    Halves(k * 0x4000 + 1, k * 0x2000, 1);
    Div4096(k * 0x20_0000 + 0x83, k * 512, 0x83);
    ModFrames(k * 512, 0, k * 512);
  }

  /** A page below a plain and a huge entry. */
  lemma HugeTranslates(m: Memory, root: nat, p: Path, t3: nat, t2: nat)
    requires |p| == 4 && Child(m, root, p[0]) == Some(t3) && Child(m, t3, p[1]) == Some(t2) && !Huge(m[t3][p[1]])
    requires Child(m, t2, p[2]).Some? && Huge(m[t2][p[2]])
    ensures Translate(m, root, p) == Some(Frame(m[t2][p[2]]) / 512 * 512 + p[3])
    ensures MeetsHuge(m, root, p) && Node(m, root, p[..3]) == Some(Frame(m[t2][p[2]]))
  {
    NodesOnPath(m, root, p);
  }

  lemma HugeFrameOf(frame: nat, k: nat)
    requires frame == k * 512
    ensures frame / 512 * 512 == frame
  {
  }

  /** On the root the kernel boots with, every page below 512 GiB is mapped to the frame of
      the same number, by a huge entry. */
  lemma BootRootIsIdentity(m: Memory, root: nat, p: Path)
    requires BootRoot(m, root) && |p| == 4 && p[0] == 0 && p[1] < 512 && p[2] < 512 && p[3] < 512
    ensures Translate(m, root, p) == Some(Number(p[0], p[1], p[2], p[3]))
    ensures MeetsHuge(m, root, p) && Node(m, root, p[..3]).Some?
  {
    var k := p[1] * 512 + p[2];
    var t2 := BootTables(m, root, p[1], p[2]);
    HugeTranslates(m, root, p, Child(m, root, 0).value, t2);
    HugeFrameOf(k * 512, k);
    assert Number(p[0], p[1], p[2], p[3]) == k * 512 + p[3];
  }

  /** The page directory on the way, and its entry. */
  lemma BootTables(m: Memory, root: nat, i: nat, j: nat) returns (pd: nat)
    requires BootRoot(m, root) && i < 512 && j < 512
    ensures var pdpt := Child(m, root, 0).value; Child(m, pdpt, i) == Some(pd) && !Huge(m[pdpt][i])
    ensures Child(m, pd, j).Some? && Huge(m[pd][j]) && Frame(m[pd][j]) == (i * 512 + j) * 512
  {
    pd := Child(m, Child(m, root, 0).value, i).value;
    BootEntry(i * 512 + j);
  }

  /** A map call cannot change that: it maps such a page as asked exactly when it is asked for
      the frame of the same number. */
  lemma BootRootKeepsIdentity(m: Memory, m': Memory, root: nat, p: Path, frame: nat)
    requires BootRoot(m, root) && |p| == 4 && p[0] == 0 && p[1] < 512 && p[2] < 512 && p[3] < 512
    requires MapsUnlessHuge(m, m', root, p, frame)
    ensures Translate(m', root, p) == Some(frame) <==> frame == Number(p[0], p[1], p[2], p[3])
  {
    BootRootIsIdentity(m, root, p);
  }

  /** And it fails for the first 2 MiB, whose entry has frame 0. */
  lemma BootRootFailsAtZero(m: Memory, root: nat, p: Path)
    requires BootRoot(m, root) && |p| == 4 && p[0] == 0 && p[1] == 0 && p[2] == 0 && p[3] < 512
    ensures LeadsToZero(m, root, p)
  {
    var t2 := BootTables(m, root, 0, 0);
    HugeTranslates(m, root, p, Child(m, root, 0).value, t2);
  }

  /** From 1 TiB on, where the root has no entries, a page can be mapped, and it takes three tables. */
  lemma BootRootMapsAbove(m: Memory, free: set<nat>, root: nat, p: Path)
    requires FreePages(m, free) && IsTable(m, root) && root != 0 && root !in free
    requires |p| == 4 && 2 <= p[0] < 512 && p[1] < 512 && p[2] < 512 && p[3] < 512
    requires m[root][p[0]] == 0
    ensures ClearWay(m, free, root, p) && !LeadsToZero(m, root, p) && !MeetsHuge(m, root, p)
    ensures Missing(m, root, p) == 3 && Translate(m, root, p) == None
  {
    assert !Present(0);
    NodesOnPath(m, root, p);
    assert p[..0] == [];
    forall k | 0 < k <= 3
      ensures Node(m, root, p[..k]).None?
    {
      NoneBelow(m, root, p[..1], p[..k]);
    }
  }
}
