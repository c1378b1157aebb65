/** Four-level page tables as data: physical memory is a map from page frame numbers to
    tables of 512 64-bit entries, and a table is reached from the root by a path of indices.

    Bit masks on 64-bit words are written as divisions and remainders by powers of two.
 */
module PageWalk {

  datatype Option<T> = None | Some(value: T)

  type Memory = map<nat, seq<nat>>
  type Path = seq<nat>

  const ENTRIES := 512
  const USER_HALF := 256  // entries of the root below the kernel's half
  const FRAMES := 0x10_0000_0000  // frame numbers have 36 bits

  /** entry & PTE_PRESENT */
  predicate Present(entry: nat) {
    entry % 2 == 1
  }

  /** entry & PTE_HUGE */
  predicate Huge(entry: nat) {
    entry / 128 % 2 == 1
  }

  /** (entry & PAGE_MASK) >> 12: bits 12 to 47. */
  function Frame(entry: nat): (f: nat)
    ensures f < FRAMES
  {
    entry / 4096 % FRAMES
  }

  /** flags | PTE_PRESENT | PTE_WRITABLE */
  function PresentWritable(flags: nat): nat {
    flags / 4 * 4 + 3
  }

  /** Flag bits of a 4 KiB mapping: none of them lies in the address field. */
  predicate IsFlags(flags: nat) {
    flags / 4096 % FRAMES == 0 && !Huge(flags)
  }

  /** (frame << 12) | flags; the two do not overlap, so this is their sum. */
  function MakeEntry(frame: nat, flags: nat): nat {
    frame * 4096 + flags
  }

  lemma Halves(n: nat, q: nat, r: nat)
    requires n == q * 2 + r && r < 2
    ensures n / 2 == q && n % 2 == r
  {
  }

  lemma Div128(n: nat, q: nat, r: nat)
    requires n == q * 128 + r && r < 128
    ensures n / 128 == q
  {
  }

  lemma Div4096(n: nat, q: nat, r: nat)
    requires n == q * 4096 + r && r < 4096
    ensures n / 4096 == q
  {
  }

  lemma ModFrames(n: nat, q: nat, r: nat)
    requires n == q * FRAMES + r && r < FRAMES
    ensures n % FRAMES == r
  {
  }

  /** Setting the two lowest bits changes nothing above them. */
  lemma LowBitsOnly(flags: nat)
    ensures PresentWritable(flags) / 128 == flags / 128 && PresentWritable(flags) / 4096 == flags / 4096
    ensures PresentWritable(flags) % 2 == 1
  {
    var pw, a, b := PresentWritable(flags), flags / 4, flags % 4;
    var c, d := a / 32, a % 32;
    Div128(flags, c, d * 4 + b);
    Div128(pw, c, d * 4 + 3);
    var e, f := a / 1024, a % 1024;
    Div4096(flags, e, f * 4 + b);
    Div4096(pw, e, f * 4 + 3);
    Halves(pw, a * 2 + 1, 1);
  }

  /** The fields of an entry made of a frame and flags. */
  lemma EntryFields(frame: nat, flags: nat)
    ensures MakeEntry(frame, flags) / 4096 == frame + flags / 4096
    ensures MakeEntry(frame, flags) / 128 % 2 == flags / 128 % 2
    ensures MakeEntry(frame, flags) % 2 == flags % 2
  {
    var e := MakeEntry(frame, flags);
    Div4096(e, frame + flags / 4096, flags % 4096);
    Div128(e, frame * 32 + flags / 128, flags % 128);
    Halves(e, frame * 2048 + flags / 2, flags % 2);
    Halves(frame * 32 + flags / 128, frame * 16 + flags / 128 / 2, flags / 128 % 2);
  }

  lemma MadeEntry(frame: nat, flags: nat)
    requires frame < FRAMES && IsFlags(flags)
    ensures IsFlags(PresentWritable(flags)) && Present(PresentWritable(flags))
    ensures var e := MakeEntry(frame, PresentWritable(flags));
            Present(e) && Frame(e) == frame && !Huge(e) && FlagsOf(e) == PresentWritable(flags)
  {
    LowBitsOnly(flags);
    EntryFields(frame, PresentWritable(flags));
    ModFrames(frame + flags / 4096, flags / 4096 / FRAMES, frame);
  }

  /** Setting the two lowest bits again changes nothing. */
  lemma SetTwice(flags: nat)
    ensures PresentWritable(PresentWritable(flags)) == PresentWritable(flags)
  {
    var a := flags / 4;
    assert (a * 4 + 3) / 4 == a;
  }

  /** A page after memset(page, 0, PAGE_SIZE). */
  function Zeros(n: nat): (z: seq<nat>)
    ensures |z| == n && forall i :: 0 <= i < n ==> z[i] == 0
  {
    if n == 0 then [] else Zeros(n - 1) + [0]
  }

  predicate IsTable(mem: Memory, t: nat) {
    t in mem && |mem[t]| == ENTRIES
  }

  /** Memory after entry i of table t has been written. */
  function SetEntry(mem: Memory, t: nat, i: nat, entry: nat): Memory
    requires IsTable(mem, t) && i < ENTRIES
  {
    var table: seq<nat> := mem[t][i := entry];
    mem[t := table]
  }

  /** Memory after an empty table has been put into a page and linked under entry i of table t. */
  function WithTable(mem: Memory, t: nat, i: nat, page: nat, flags: nat): Memory
    requires IsTable(mem, t) && i < ENTRIES
  {
    SetEntry(mem[page := Zeros(ENTRIES)], t, i, MakeEntry(page, PresentWritable(flags)))
  }

  /** The frame that a walk from `root` along path p ends in. */
  function Node(mem: Memory, root: nat, p: Path): Option<nat> {
    if p == [] then Some(root)
    else
      match Node(mem, root, p[..|p| - 1])
      case None => None
      case Some(t) => Child(mem, t, p[|p| - 1])
  }

  function Child(mem: Memory, t: nat, i: nat): Option<nat> {
    if IsTable(mem, t) && i < ENTRIES && Present(mem[t][i]) then Some(Frame(mem[t][i])) else None
  }

  /** The bits of an entry outside its address field. */
  function FlagsOf(entry: nat): nat {
    FrameBelow(entry);
    entry - Frame(entry) * 4096
  }

  lemma FrameBelow(entry: nat)
    ensures Frame(entry) * 4096 <= entry
  {
  }

  /** The flags of the entry that path q ends in. */
  function FlagsAt(mem: Memory, root: nat, q: Path): Option<nat>
    requires q != []
  {
    match Node(mem, root, q[..|q| - 1])
    case None => None
    case Some(t) => ChildFlags(mem, t, q[|q| - 1])
  }

  function ChildFlags(mem: Memory, t: nat, i: nat): Option<nat> {
    if Child(mem, t, i).Some? then Some(FlagsOf(mem[t][i])) else None
  }

  /** One step of the driver's walk: the table under entry i of table t, made now if need be.
      0 stands for a null pointer; a huge entry is taken for a pointer to a table. */
  ghost predicate Entered(m: Memory, free: set<nat>, m': Memory, free': set<nat>, t: nat, i: nat, flags: nat,
                          allocate: bool, next: nat, panicked: bool)
  {
    && IsTable(m, t) && i < ENTRIES
    && match Child(m, t, i)
       case Some(c) => m' == m && free' == free && next == c && !panicked
       case None =>
         if !allocate || free == {} then m' == m && free' == free && next == 0 && panicked == allocate
         else next in free && free' == free - {next} && m' == WithTable(m, t, i, next, flags) && !panicked
  }

  lemma FlagsExtend(mem: Memory, root: nat, q: Path, i: nat)
    ensures FlagsAt(mem, root, q + [i]) ==
            match Node(mem, root, q) case None => None case Some(t) => ChildFlags(mem, t, i)
    ensures FlagsAt(mem, root, q + [i]).Some? <==> Node(mem, root, q + [i]).Some?
  {
    assert (q + [i])[..|q|] == q;
  }

  lemma NodeExtend(mem: Memory, root: nat, p: Path, i: nat)
    ensures Node(mem, root, p + [i]) ==
            match Node(mem, root, p) case None => None case Some(t) => Child(mem, t, i)
  {
    assert (p + [i])[..|p|] == p;
  }

  /** The tables below `root` form a tree: every path of at most three steps that leads
      somewhere leads to a table of its own. Page 0 is never a table. */
  ghost predicate Tree(mem: Memory, root: nat) {
    && (forall p :: |p| <= 3 && Node(mem, root, p).Some? ==>
          IsTable(mem, Node(mem, root, p).value) && Node(mem, root, p).value != 0)
    && (forall p, q ::
          |p| <= 3 && |q| <= 3 && Node(mem, root, p).Some? && Node(mem, root, q) == Node(mem, root, p) ==> p == q)
  }

  /** No entry on the way to a last-level table maps a huge page. */
  ghost predicate Plain(mem: Memory, root: nat) {
    forall p, i: nat :: |p| <= 2 && Node(mem, root, p).Some? && Child(mem, Node(mem, root, p).value, i).Some? ==>
      !Huge(mem[Node(mem, root, p).value][i])
  }

  /** Frame t holds a table of the tree. */
  ghost predicate InTree(mem: Memory, root: nat, t: nat) {
    exists p :: |p| <= 3 && Node(mem, root, p) == Some(t)
  }

  //////////////////////////////////////////////////////////////////////////
  // Writes and walks
  //////////////////////////////////////////////////////////////////////////

  /** Writing a page that is not a table of the tree changes no walk. */
  lemma {:induction false} WriteOutside(mem: Memory, root: nat, t: nat, page: seq<nat>, q: Path)
    requires Tree(mem, root) && !InTree(mem, root, t) && |q| <= 4
    ensures Node(mem[t := page], root, q) == Node(mem, root, q)
  {
    if q != [] {
      var q' := q[..|q| - 1];
      WriteOutside(mem, root, t, page, q');
      if Node(mem, root, q').Some? {
        assert Node(mem, root, q').value != t;
      }
    }
  }

  /** Writing entry i of the table at path p changes only the walks that go through it. */
  lemma {:induction false} WriteInside(mem: Memory, root: nat, p: Path, i: nat, entry: nat, q: Path)
    requires Tree(mem, root) && |p| <= 3 && i < ENTRIES && Node(mem, root, p).Some? && |q| <= 4
    requires !(p + [i] <= q)
    ensures var t := Node(mem, root, p).value;
            Node(SetEntry(mem, t, i, entry), root, q) == Node(mem, root, q)
  {
    if q != [] {
      var q', j := q[..|q| - 1], q[|q| - 1];
      assert q == q' + [j];
      WriteInside(mem, root, p, i, entry, q');
      var t := Node(mem, root, p).value;
      if Node(mem, root, q') == Some(t) {
        assert q' == p;
      }
    }
  }

  /** The table at path p after a write of its entry i. */
  lemma WrittenEntry(mem: Memory, root: nat, p: Path, i: nat, entry: nat)
    requires Tree(mem, root) && |p| <= 3 && i < ENTRIES && Node(mem, root, p).Some?
    ensures var t := Node(mem, root, p).value;
            var mem' := SetEntry(mem, t, i, entry);
            && Node(mem', root, p) == Some(t)
            && Node(mem', root, p + [i]) == if Present(entry) then Some(Frame(entry)) else None
  {
    var t := Node(mem, root, p).value;
    var mem' := SetEntry(mem, t, i, entry);
    assert !(p + [i] <= p);
    WriteInside(mem, root, p, i, entry, p);
    NodeExtend(mem', root, p, i);
  }

  /** A walk that fails on the way fails altogether. */
  lemma {:induction false} NoneBelow(mem: Memory, root: nat, p: Path, q: Path)
    requires p <= q && Node(mem, root, p).None?
    ensures Node(mem, root, q).None?
  {
    if |q| > |p| {
      NoneBelow(mem, root, p, q[..|q| - 1]);
    } else {
      assert q == p;
    }
  }

  /** Writing an entry of a last-level table keeps the tree. */
  lemma LeafKeepsTree(mem: Memory, root: nat, p: Path, i: nat, entry: nat)
    requires Tree(mem, root) && |p| == 3 && i < ENTRIES && Node(mem, root, p).Some?
    ensures Tree(SetEntry(mem, Node(mem, root, p).value, i, entry), root)
  {
    var t := Node(mem, root, p).value;
    var mem' := SetEntry(mem, t, i, entry);
    forall q | |q| <= 3
      ensures Node(mem', root, q) == Node(mem, root, q)
    {
      WriteInside(mem, root, p, i, entry, q);
    }
  }

  /** Memory after a fresh table t has been hung under entry i of the table at path p. */
  function Grown(mem: Memory, root: nat, p: Path, i: nat, entry: nat, t: nat): Memory
    requires Node(mem, root, p).Some? && IsTable(mem, Node(mem, root, p).value) && i < ENTRIES
  {
    SetEntry(mem[t := Zeros(ENTRIES)], Node(mem, root, p).value, i, entry)
  }

  /** Where a walk leads once a fresh table has been added. */
  lemma GrownWalk(mem: Memory, root: nat, p: Path, i: nat, entry: nat, t: nat, q: Path)
    requires Tree(mem, root) && |p| <= 2 && i < ENTRIES && Node(mem, root, p).Some?
    requires Node(mem, root, p + [i]).None? && !InTree(mem, root, t)
    requires Present(entry) && Frame(entry) == t && |q| <= 4
    ensures Node(Grown(mem, root, p, i, entry, t), root, q) ==
            if q == p + [i] then Some(t) else if p + [i] <= q then None else Node(mem, root, q)
  {
    var mem0 := mem[t := Zeros(ENTRIES)];
    OutsideKeepsTree(mem, root, t, Zeros(ENTRIES));
    WriteOutside(mem, root, t, Zeros(ENTRIES), p);
    WriteOutside(mem, root, t, Zeros(ENTRIES), q);
    if !(p + [i] <= q) {
      WriteInside(mem0, root, p, i, entry, q);
    } else {
      WrittenEntry(mem0, root, p, i, entry);
      if q != p + [i] {
        var mem' := Grown(mem, root, p, i, entry, t);
        var j := q[|p| + 1];
        NodeExtend(mem', root, p + [i], j);
        assert Node(mem', root, p + [i] + [j]).None?;
        NoneBelow(mem', root, p + [i] + [j], q);
      }
    }
  }

  lemma OutsideKeepsTree(mem: Memory, root: nat, t: nat, page: seq<nat>)
    requires Tree(mem, root) && !InTree(mem, root, t) && |page| == ENTRIES
    ensures Tree(mem[t := page], root)
  {
    forall q | |q| <= 3
      ensures Node(mem[t := page], root, q) == Node(mem, root, q)
    {
      WriteOutside(mem, root, t, page, q);
    }
  }

  lemma GrownIsTree(mem: Memory, root: nat, p: Path, i: nat, entry: nat, t: nat)
    requires Tree(mem, root) && |p| <= 2 && i < ENTRIES && Node(mem, root, p).Some?
    requires Node(mem, root, p + [i]).None? && !InTree(mem, root, t) && t != 0
    requires Present(entry) && Frame(entry) == t
    ensures Tree(Grown(mem, root, p, i, entry, t), root)
  {
    var mem' := Grown(mem, root, p, i, entry, t);
    forall q | |q| <= 3
      ensures Node(mem', root, q) == if q == p + [i] then Some(t) else if p + [i] <= q then None else Node(mem, root, q)
    {
      GrownWalk(mem, root, p, i, entry, t, q);
    }
    forall q | |q| <= 3 && Node(mem', root, q).Some?
      ensures IsTable(mem', Node(mem', root, q).value) && Node(mem', root, q).value != 0
      ensures q != p + [i] ==> Node(mem, root, q) == Node(mem', root, q) && Node(mem', root, q).value != t
    {
    }
  }

  lemma LeafKeepsPlain(mem: Memory, root: nat, p: Path, i: nat, entry: nat)
    requires Tree(mem, root) && Plain(mem, root) && |p| == 3 && i < ENTRIES && Node(mem, root, p).Some?
    ensures Plain(SetEntry(mem, Node(mem, root, p).value, i, entry), root)
  {
    var t := Node(mem, root, p).value;
    var mem' := SetEntry(mem, t, i, entry);
    forall q, j: nat | |q| <= 2 && Node(mem', root, q).Some? && Child(mem', Node(mem', root, q).value, j).Some?
      ensures !Huge(mem'[Node(mem', root, q).value][j])
    {
      WriteInside(mem, root, p, i, entry, q);
      assert Node(mem, root, q).value != t;
    }
  }

  /** The entries of the tables once a fresh one has been added. */
  lemma GrownEntry(mem: Memory, root: nat, p: Path, i: nat, entry: nat, t: nat, s: nat, j: nat)
    requires Node(mem, root, p).Some? && IsTable(mem, Node(mem, root, p).value) && i < ENTRIES
    requires t != Node(mem, root, p).value
    requires var mem' := Grown(mem, root, p, i, entry, t); IsTable(mem', s) && j < ENTRIES
    ensures var mem' := Grown(mem, root, p, i, entry, t);
            if s == t then mem'[s][j] == 0
            else if s == Node(mem, root, p).value && j == i then mem'[s][j] == entry
            else IsTable(mem, s) && mem'[s][j] == mem[s][j]
  {
  }

  lemma GrownIsPlain(mem: Memory, root: nat, p: Path, i: nat, entry: nat, t: nat)
    requires Tree(mem, root) && Plain(mem, root) && |p| <= 2 && i < ENTRIES && Node(mem, root, p).Some?
    requires Node(mem, root, p + [i]).None? && !InTree(mem, root, t)
    requires Present(entry) && Frame(entry) == t && !Huge(entry)
    ensures Plain(Grown(mem, root, p, i, entry, t), root)
  {
    var mem' := Grown(mem, root, p, i, entry, t);
    forall q, j: nat | |q| <= 2 && Node(mem', root, q).Some? && Child(mem', Node(mem', root, q).value, j).Some?
      ensures !Huge(mem'[Node(mem', root, q).value][j])
    {
      GrownWalk(mem, root, p, i, entry, t, q);
      GrownEntry(mem, root, p, i, entry, t, Node(mem', root, q).value, j);
      if q == p + [i] {
        assert false;
      } else {
        PlainEntry(mem, root, q, j);
      }
    }
  }

  lemma PlainEntry(mem: Memory, root: nat, q: Path, j: nat)
    requires Plain(mem, root) && |q| <= 2 && Node(mem, root, q).Some?
    ensures Child(mem, Node(mem, root, q).value, j).Some? ==> !Huge(mem[Node(mem, root, q).value][j])
  {
  }

  //////////////////////////////////////////////////////////////////////////
  // Virtual pages
  //////////////////////////////////////////////////////////////////////////

  /** PML4_INDEX, PDPT_INDEX, PD_INDEX and PT_INDEX of an address. */
  function PathOf(va: nat): (p: Path)
    ensures |p| == 4 && p[0] < 512 && p[1] < 512 && p[2] < 512 && p[3] < 512
  {
    [va / 0x80_0000_0000 % 512, va / 0x4000_0000 % 512, va / 0x20_0000 % 512, va / 0x1000 % 512]
  }

  /** The 36-bit virtual page number. */
  function Page(va: nat): nat {
    va / 4096 % FRAMES
  }

  /** Two addresses take the same path exactly when they lie in the same 48-bit page. */
  lemma SamePathSamePage(a: nat, b: nat)
    ensures PathOf(a) == PathOf(b) <==> Page(a) == Page(b)
  {
    PathDigits(a);
    PathDigits(b);
    DigitsAreUnique(PathOf(a)[0], PathOf(a)[1], PathOf(a)[2], PathOf(a)[3],
                    PathOf(b)[0], PathOf(b)[1], PathOf(b)[2], PathOf(b)[3]);
  }

  /** The number with digits a, b, c, d to base 512. */
  function Number(a: nat, b: nat, c: nat, d: nat): nat {
    a * 0x800_0000 + b * 0x4_0000 + c * 0x200 + d
  }

  lemma LastDigit(x: int, d: nat, x': int, d': nat)
    requires d < 512 && d' < 512 && x * 512 + d == x' * 512 + d'
    ensures x == x' && d == d'
  {
  }

  lemma DigitsAreUnique(a: nat, b: nat, c: nat, d: nat, a': nat, b': nat, c': nat, d': nat)
    requires a < 512 && b < 512 && c < 512 && d < 512 && a' < 512 && b' < 512 && c' < 512 && d' < 512
    ensures Number(a, b, c, d) == Number(a', b', c', d') <==> a == a' && b == b' && c == c' && d == d'
  {
    if Number(a, b, c, d) == Number(a', b', c', d') {
      LastDigit(a * 0x4_0000 + b * 512 + c, d, a' * 0x4_0000 + b' * 512 + c', d');
      LastDigit(a * 512 + b, c, a' * 512 + b', c');
      LastDigit(a, b, a', b');
    }
  }

  lemma PathDigits(va: nat)
    ensures Page(va) == Number(PathOf(va)[0], PathOf(va)[1], PathOf(va)[2], PathOf(va)[3])
  {
    var n := va / 4096;
    assert va / 0x20_0000 == n / 0x200;
    assert va / 0x4000_0000 == n / 0x4_0000;
    assert va / 0x80_0000_0000 == n / 0x800_0000;
    Digit27(n);
    Digit18(n);
    Digit9(n);
  }

  lemma Digit27(n: nat)
    ensures n % FRAMES == n / 0x800_0000 % 512 * 0x800_0000 + n % 0x800_0000
  {
  }

  lemma Digit18(n: nat)
    ensures n % 0x800_0000 == n / 0x4_0000 % 512 * 0x4_0000 + n % 0x4_0000
  {
  }

  lemma Digit9(n: nat)
    ensures n % 0x4_0000 == n / 0x200 % 512 * 0x200 + n % 0x200
  {
  }

  /** A path into the kernel's half of an address space. */
  predicate UpperPath(q: Path) {
    1 <= |q| && q[0] >= USER_HALF
  }

  const UPPER_HALF := 0x8000_0000_0000  // addresses from 2^47 on belong to the kernel

  lemma UserAddress(va: nat)
    requires va < UPPER_HALF
    ensures PathOf(va)[0] < USER_HALF
  {
  }

  /** The frame a four-level walk yields for an address. */
  function Walk(mem: Memory, root: nat, va: nat): Option<nat> {
    Node(mem, root, PathOf(va))
  }
}
