/** What the processor allows for a page, and what the map and unmap calls do to that.

    The flags of an address space are those of its entries, by the paths that lead to them; a
    page can be reached from user mode, or written, if every entry on the way says so.
 */
module PageRights {
  import opened PageWalk
  import opened AddressSpace
  import opened HugePages

  ////// Flag bits

  /** Bit b of a word, the lowest being bit 0. */
  predicate Bit(n: nat, b: nat) {
    if b == 0 then n % 2 == 1 else Bit(n / 2, b - 1)
  }

  const WRITABLE_BIT := 1
  const USER_BIT := 2

  /** Two bits are set, and the others are what they were. */
  lemma PresentWritableBits(flags: nat, b: nat)
    ensures Bit(PresentWritable(flags), b) <==> b < 2 || Bit(flags, b)
  {
    var pw := PresentWritable(flags);
    if b == 1 {
      assert Bit(pw, 1) == Bit(pw / 2, 0);
    } else if b >= 2 {
      assert pw / 2 / 2 == flags / 2 / 2;
      assert Bit(pw, b) == Bit(pw / 2, b - 1) == Bit(pw / 2 / 2, b - 2);
      assert Bit(flags, b) == Bit(flags / 2, b - 1) == Bit(flags / 2 / 2, b - 2);
    }
  }

  ////// Rights

  /** May user mode use the page, may it be written, and the flags of the entry that maps it. */
  datatype Rights = Rights(user: bool, writable: bool, flags: nat)

  /** What a row of entries allows. */
  function RightsOf(flags: seq<nat>): Rights
    requires flags != []
  {
    Rights(forall i :: 0 <= i < |flags| ==> Bit(flags[i], USER_BIT),
           forall i :: 0 <= i < |flags| ==> Bit(flags[i], WRITABLE_BIT), flags[|flags| - 1])
  }

  function AllFlags(entries: seq<nat>): (flags: seq<nat>)
    ensures |flags| == |entries| && forall i :: 0 <= i < |flags| ==> flags[i] == FlagsOf(entries[i])
  {
    if entries == [] then [] else AllFlags(entries[..|entries| - 1]) + [FlagsOf(entries[|entries| - 1])]
  }

  /** What the processor allows for the page at a path of four steps. */
  function Access(m: Memory, root: nat, p: Path): Option<Rights>
    requires |p| == 4
  {
    match Met(m, root, p)
    case None => None
    case Some(entries) => if entries == [] then None else Some(RightsOf(AllFlags(entries)))
  }

  /** The flags of the four entries on a way. */
  function RightsBy(a: Option<nat>, b: Option<nat>, c: Option<nat>, d: Option<nat>): Option<Rights> {
    if a.None? || b.None? || c.None? || d.None? then None
    else Some(RightsOf([a.value, b.value, c.value, d.value]))
  }

  lemma FlagsOnPath(m: Memory, root: nat, p: Path)
    requires |p| == 4
    ensures FlagsAt(m, root, p[..1]) == ChildFlags(m, root, p[0])
    ensures FlagsAt(m, root, p[..2])
            == match Node(m, root, p[..1]) case None => None case Some(t) => ChildFlags(m, t, p[1])
    ensures FlagsAt(m, root, p[..3])
            == match Node(m, root, p[..2]) case None => None case Some(t) => ChildFlags(m, t, p[2])
    ensures FlagsAt(m, root, p)
            == match Node(m, root, p[..3]) case None => None case Some(t) => ChildFlags(m, t, p[3])
  {
    assert p[..1] == [] + [p[0]] && p[..2] == p[..1] + [p[1]] && p[..3] == p[..2] + [p[2]] && p == p[..3] + [p[3]];
    FlagsExtend(m, root, [], p[0]);
    FlagsExtend(m, root, p[..1], p[1]);
    FlagsExtend(m, root, p[..2], p[2]);
    FlagsExtend(m, root, p[..3], p[3]);
  }

  /** On a way without huge entries the processor meets the four entries of the driver's walk. */
  lemma AccessByFlags(m: Memory, root: nat, p: Path)
    requires |p| == 4 && !MeetsHuge(m, root, p)
    ensures Access(m, root, p)
            == RightsBy(FlagsAt(m, root, p[..1]), FlagsAt(m, root, p[..2]), FlagsAt(m, root, p[..3]),
                        FlagsAt(m, root, p))
  {
    NodesOnPath(m, root, p);
    FlagsOnPath(m, root, p);
    var met := Met(m, root, p);
    if met.Some? {
      var f := AllFlags(met.value);
      assert f == [f[0], f[1], f[2], f[3]];
    }
  }

  ////// The way of a call

  /** k steps down the way, the tables that were missing have been made and carry the flags. */
  ghost predicate Made(m0: Memory, m: Memory, root: nat, p: Path, k: nat, mark: nat) {
    |p| == 4 && forall j :: 1 <= j <= 3 ==>
      FlagsAt(m, root, p[..j])
      == if FlagsAt(m0, root, p[..j]).None? && j <= k then Some(mark) else FlagsAt(m0, root, p[..j])
  }

  lemma FreshEntries(m: Memory, s: nat, i: nat, entry: nat, t: nat, r: nat, j: nat)
    requires IsTable(m, s) && i < ENTRIES && s != t && Present(entry)
    ensures var m' := SetEntry(m[t := Zeros(ENTRIES)], s, i, entry);
            ChildFlags(m', r, j) == if r == t then None
                                    else if r == s && j == i then Some(FlagsOf(entry))
                                    else ChildFlags(m, r, j)
  {
    assert !Present(0);
  }

  lemma LinkedFlags(m: Memory, free: set<nat>, root: nat, p: Path, k: nat, page: nat, flags: nat, j: nat)
    requires ClearWay(m, free, root, p) && page in free && IsFlags(flags) && k <= 2 && 1 <= j <= 3
    requires Node(m, root, p[..k]).Some? && Node(m, root, p[..k]).value != 0 && Node(m, root, p[..k + 1]).None?
    ensures FlagsAt(WithTable(m, Node(m, root, p[..k]).value, p[k], page, flags), root, p[..j])
            == if j == k + 1 then Some(PresentWritable(flags)) else FlagsAt(m, root, p[..j])
  {
    var t := Node(m, root, p[..k]).value;
    var m' := WithTable(m, t, p[k], page, flags);
    var r := Node(m', root, p[..j - 1]);
    assert p[..j] == p[..j - 1] + [p[j - 1]];
    LinkedWalk(m, free, root, p, k, page, flags, j - 1);
    FlagsExtend(m, root, p[..j - 1], p[j - 1]);
    FlagsExtend(m', root, p[..j - 1], p[j - 1]);
    if j <= k {
      assert Node(m, root, p[..j - 1]) != Node(m, root, p[..k]);
    } else if j > k + 1 {
      NoneBelow(m, root, p[..k + 1], p[..j - 1]);
    }
    if r.Some? {
      MadeEntry(page, flags);
      FreshEntries(m, t, p[k], MakeEntry(page, PresentWritable(flags)), page, r.value, p[j - 1]);
    }
  }

  lemma MadeNext(m0: Memory, f0: set<nat>, m: Memory, f: set<nat>, m': Memory, f': set<nat>, root: nat, p: Path,
                 k: nat, t: nat, flags: nat, allocate: bool, next: nat, panicked: bool)
    requires Partway(m0, f0, m, f, root, p, k, t, allocate) && k <= 2 && IsFlags(flags)
    requires Entered(m, f, m', f', t, p[k], flags, allocate, next, panicked)
    requires Made(m0, m, root, p, k, PresentWritable(flags))
    ensures Made(m0, m', root, p, if next == 0 then k else k + 1, PresentWritable(flags))
  {
    assert p[..k + 1] == p[..k] + [p[k]];
    NodeExtend(m, root, p[..k], p[k]);
    FlagsExtend(m, root, p[..k], p[k]);
    if Child(m, t, p[k]).None? && allocate && f != {} {
      forall j | 1 <= j <= 3
        ensures FlagsAt(m', root, p[..j])
                == if j == k + 1 then Some(PresentWritable(flags)) else FlagsAt(m, root, p[..j])
      {
        LinkedFlags(m, f, root, p, k, next, flags, j);
      }
    }
  }

  /** The first three entries on the way are not in the table that it ends in. */
  lemma WrittenFlags(m0: Memory, f0: set<nat>, m: Memory, f: set<nat>, root: nat, p: Path, t: nat, allocate: bool,
                     entry: nat)
    requires Partway(m0, f0, m, f, root, p, 3, t, allocate)
    ensures var m' := SetEntry(m, t, p[3], entry);
            && (forall j :: 1 <= j <= 3 ==> FlagsAt(m', root, p[..j]) == FlagsAt(m, root, p[..j]))
            && FlagsAt(m', root, p) == if Present(entry) then Some(FlagsOf(entry)) else None
  {
    var m' := SetEntry(m, t, p[3], entry);
    NodesOnPath(m, root, p);
    NodesOnPath(m', root, p);
    FlagsOnPath(m, root, p);
    FlagsOnPath(m', root, p);
    assert p[..0] == [] && Node(m, root, p[..0]) == Some(root);
    ChildElsewhere(m, t, p[3], entry, root, p[0]);
    ChildElsewhere(m, t, p[3], entry, Node(m, root, p[..1]).value, p[1]);
    ChildElsewhere(m, t, p[3], entry, Node(m, root, p[..2]).value, p[2]);
  }

  /** Behind a huge entry the processor does not come to the table that is written. */
  lemma HugeKeepsAccess(m0: Memory, f0: set<nat>, m: Memory, f: set<nat>, root: nat, p: Path, t: nat, allocate: bool,
                        entry: nat)
    requires Partway(m0, f0, m, f, root, p, 3, t, allocate)
    ensures MeetsHuge(SetEntry(m, t, p[3], entry), root, p) == MeetsHuge(m0, root, p)
    ensures MeetsHuge(m0, root, p) ==> Met(SetEntry(m, t, p[3], entry), root, p) == Met(m0, root, p)
  {
    var m' := SetEntry(m, t, p[3], entry);
    NodesOnPath(m, root, p);
    NodesOnPath(m', root, p);
    assert p[..0] == [] && Node(m, root, p[..0]) == Some(root);
    ChildElsewhere(m, t, p[3], entry, root, p[0]);
    ChildElsewhere(m, t, p[3], entry, Node(m, root, p[..1]).value, p[1]);
    ChildElsewhere(m, t, p[3], entry, Node(m, root, p[..2]).value, p[2]);
  }

  /** What the entry at j allows: those that were there keep their flags, the others get the mark. */
  function Kept(flags: Option<nat>, mark: nat): Option<nat> {
    if flags.None? then Some(mark) else flags
  }

  /** What a map call that succeeds has granted. The entry of the page and those of the tables
      made for it carry the flags; tables that were there keep theirs. The processor allows what
      all four agree on, unless the way meets a huge entry: then it allows what it did. */
  ghost predicate Granted(m0: Memory, m: Memory, root: nat, p: Path, mark: nat) {
    && Made(m0, m, root, p, 3, mark) && FlagsAt(m, root, p) == Some(mark)
    && Access(m, root, p) ==
       if MeetsHuge(m0, root, p) then Access(m0, root, p)
       else RightsBy(Kept(FlagsAt(m0, root, p[..1]), mark), Kept(FlagsAt(m0, root, p[..2]), mark),
                     Kept(FlagsAt(m0, root, p[..3]), mark), Some(mark))
  }

  lemma GrantsUnlessHuge(m0: Memory, f0: set<nat>, m: Memory, f: set<nat>, root: nat, p: Path, t: nat, entry: nat)
    requires Partway(m0, f0, m, f, root, p, 3, t, true) && Present(entry) && Made(m0, m, root, p, 3, FlagsOf(entry))
    ensures Granted(m0, SetEntry(m, t, p[3], entry), root, p, FlagsOf(entry))
  {
    var m' := SetEntry(m, t, p[3], entry);
    WrittenFlags(m0, f0, m, f, root, p, t, true, entry);
    HugeKeepsAccess(m0, f0, m, f, root, p, t, true, entry);
    if !MeetsHuge(m0, root, p) {
      AccessByFlags(m', root, p);
    }
  }

  /** Bit b is set in every entry on the way to p that was there. */
  ghost predicate LetsThrough(m: Memory, root: nat, p: Path, b: nat)
    requires |p| == 4
  {
    forall j :: 1 <= j <= 3 && FlagsAt(m, root, p[..j]).Some? ==> Bit(FlagsAt(m, root, p[..j]).value, b)
  }

  /** A page mapped for the user can be used from user mode exactly when the tables that were on
      the way already let the user through; likewise for writing. */
  lemma GrantedToUser(m0: Memory, m: Memory, root: nat, p: Path, mark: nat)
    requires Granted(m0, m, root, p, mark) && !MeetsHuge(m0, root, p)
    ensures Access(m, root, p).Some? && Access(m, root, p).value.flags == mark
    ensures Access(m, root, p).value.user <==> Bit(mark, USER_BIT) && LetsThrough(m0, root, p, USER_BIT)
    ensures Access(m, root, p).value.writable <==> Bit(mark, WRITABLE_BIT) && LetsThrough(m0, root, p, WRITABLE_BIT)
  {
    var a, b, c := FlagsAt(m0, root, p[..1]), FlagsAt(m0, root, p[..2]), FlagsAt(m0, root, p[..3]);
    FourBits(Kept(a, mark).value, Kept(b, mark).value, Kept(c, mark).value, mark);
    ThroughThree(m0, root, p, a, b, c, USER_BIT);
    ThroughThree(m0, root, p, a, b, c, WRITABLE_BIT);
  }

  lemma ThroughThree(m: Memory, root: nat, p: Path, a: Option<nat>, b: Option<nat>, c: Option<nat>, bit: nat)
    requires |p| == 4 && a == FlagsAt(m, root, p[..1]) && b == FlagsAt(m, root, p[..2]) && c == FlagsAt(m, root, p[..3])
    ensures LetsThrough(m, root, p, bit) <==>
            (a.Some? ==> Bit(a.value, bit)) && (b.Some? ==> Bit(b.value, bit)) && (c.Some? ==> Bit(c.value, bit))
  {
  }

  lemma FourBits(a: nat, b: nat, c: nat, d: nat)
    ensures RightsOf([a, b, c, d])
            == Rights(Bit(a, USER_BIT) && Bit(b, USER_BIT) && Bit(c, USER_BIT) && Bit(d, USER_BIT),
                      Bit(a, WRITABLE_BIT) && Bit(b, WRITABLE_BIT) && Bit(c, WRITABLE_BIT) && Bit(d, WRITABLE_BIT), d)
  {
    var f := [a, b, c, d];
    assert f[0] == a && f[1] == b && f[2] == c && f[3] == d;
  }

  ////// The flags of an address space

  type Flags = imap<Path, nat>

  ghost function TreeFlags(m: Memory, root: nat): Flags {
    imap q: Path | 1 <= |q| <= 4 && FlagsAt(m, root, q).Some? :: FlagsAt(m, root, q).value
  }

  /** `flags` are the flags of the entries below `root`. */
  ghost predicate FlagsAs(m: Memory, root: nat, flags: Flags) {
    && (forall q :: q in flags ==> 1 <= |q| <= 4)
    && (forall q :: 1 <= |q| <= 4 ==> FlagsAt(m, root, q) == if q in flags then Some(flags[q]) else None)
  }

  lemma FlagsAsTree(m: Memory, root: nat, flags: Flags)
    ensures FlagsAs(m, root, flags) <==> flags == TreeFlags(m, root)
  {
    var tree := TreeFlags(m, root);
    if FlagsAs(m, root, flags) {
      forall q
        ensures q in flags <==> q in tree
        ensures q in flags ==> flags[q] == tree[q]
      {
        if 1 <= |q| <= 4 {
          assert FlagsAt(m, root, q) == if q in flags then Some(flags[q]) else None;
        }
      }
    }
  }

  ghost function Without(flags: Flags, p: Path): Flags {
    imap q | q in flags && q != p :: flags[q]
  }

  /** The entries of the first k steps of a way: those that were missing carry the mark. */
  ghost function MarkedTo(flags: Flags, p: Path, k: nat, mark: nat): Flags
    requires k <= |p|
  {
    if k == 0 then flags
    else
      var before := MarkedTo(flags, p, k - 1, mark);
      if p[..k] in before then before else before[p[..k] := mark]
  }

  /** A page mapped, and the tables that were missing on the way to it made. */
  ghost function Marked(flags: Flags, p: Path, mark: nat): Flags
    requires |p| == 4
  {
    MarkedTo(flags, p, 3, mark)[p := mark]
  }

  lemma {:induction false} MarkedToAt(flags: Flags, p: Path, k: nat, mark: nat, q: Path)
    requires k <= |p|
    ensures q in MarkedTo(flags, p, k, mark) <==> q in flags || (1 <= |q| <= k && q == p[..|q|])
    ensures q in MarkedTo(flags, p, k, mark) ==>
              MarkedTo(flags, p, k, mark)[q] == if q in flags then flags[q] else mark
  {
    if k > 0 {
      MarkedToAt(flags, p, k - 1, mark, q);
      MarkedToAt(flags, p, k - 1, mark, p[..k]);
    }
  }

  /** Entry by entry: the page and the missing tables on its way carry the mark, every other entry
      is what it was. */
  lemma MarkedAt(flags: Flags, p: Path, mark: nat, q: Path)
    requires |p| == 4
    ensures q in Marked(flags, p, mark) <==> q in flags || (1 <= |q| <= 4 && q == p[..|q|])
    ensures q in Marked(flags, p, mark) ==>
              Marked(flags, p, mark)[q] == if q in flags && q != p then flags[q] else mark
  {
    MarkedToAt(flags, p, 3, mark, q);
    assert p[..4] == p;
  }

  /** One entry written, made or cleared. */
  lemma OneFlagChanged(m: Memory, m': Memory, root: nat, p: Path, x: Option<nat>)
    requires 1 <= |p| <= 4
    requires forall q :: 1 <= |q| <= 4 ==> FlagsAt(m', root, q) == if q == p then x else FlagsAt(m, root, q)
    ensures TreeFlags(m', root)
            == match x case None => Without(TreeFlags(m, root), p) case Some(f) => TreeFlags(m, root)[p := f]
  {
    var was := TreeFlags(m, root);
    FlagsAsTree(m, root, was);
    FlagsAsTree(m', root, match x case None => Without(was, p) case Some(f) => was[p := f]);
  }

  /** The flags once a fresh table has been added. */
  lemma GrownFlagsAt(m: Memory, root: nat, p: Path, i: nat, entry: nat, t: nat, q: Path, j: nat)
    requires Tree(m, root) && |p| <= 2 && i < ENTRIES && Node(m, root, p).Some?
    requires Node(m, root, p + [i]).None? && !InTree(m, root, t)
    requires Present(entry) && Frame(entry) == t && |q| <= 3
    ensures FlagsAt(Grown(m, root, p, i, entry, t), root, q + [j])
            == if q == p && j == i then Some(FlagsOf(entry)) else FlagsAt(m, root, q + [j])
  {
    var m' := Grown(m, root, p, i, entry, t);
    FlagsExtend(m, root, q, j);
    FlagsExtend(m', root, q, j);
    GrownWalk(m, root, p, i, entry, t, q);
    if p + [i] <= q {
      NoneBelow(m, root, p + [i], q);
    } else if Node(m, root, q).Some? {
      AtPath(m, root, q, Node(m, root, q).value);
    }
    if Node(m', root, q).Some? {
      FreshEntries(m, Node(m, root, p).value, i, entry, t, Node(m', root, q).value, j);
    }
  }

  lemma GrownFlags(m: Memory, root: nat, p: Path, i: nat, entry: nat, t: nat)
    requires Tree(m, root) && |p| <= 2 && i < ENTRIES && Node(m, root, p).Some?
    requires Node(m, root, p + [i]).None? && !InTree(m, root, t)
    requires Present(entry) && Frame(entry) == t
    ensures TreeFlags(Grown(m, root, p, i, entry, t), root) == TreeFlags(m, root)[p + [i] := FlagsOf(entry)]
  {
    var m' := Grown(m, root, p, i, entry, t);
    forall q | 1 <= |q| <= 4
      ensures FlagsAt(m', root, q) == if q == p + [i] then Some(FlagsOf(entry)) else FlagsAt(m, root, q)
    {
      var front, last := q[..|q| - 1], q[|q| - 1];
      assert q == front + [last];
      GrownFlagsAt(m, root, p, i, entry, t, front, last);
    }
    OneFlagChanged(m, m', root, p + [i], Some(FlagsOf(entry)));
  }

  /** The flags once an entry of a last-level table has been written. */
  lemma LeafFlags(m: Memory, root: nat, p: Path, entry: nat)
    requires Tree(m, root) && |p| == 4 && p[3] < ENTRIES && Node(m, root, p[..3]).Some?
    ensures TreeFlags(SetEntry(m, Node(m, root, p[..3]).value, p[3], entry), root)
            == if Present(entry) then TreeFlags(m, root)[p := FlagsOf(entry)] else Without(TreeFlags(m, root), p)
  {
    var m' := SetEntry(m, Node(m, root, p[..3]).value, p[3], entry);
    var x := if Present(entry) then Some(FlagsOf(entry)) else None;
    forall q | 1 <= |q| <= 4
      ensures FlagsAt(m', root, q) == if q == p then x else FlagsAt(m, root, q)
    {
      var front, last := q[..|q| - 1], q[|q| - 1];
      assert q == front + [last];
      LeafFlagsAt(m, root, p, entry, front, last);
    }
    OneFlagChanged(m, m', root, p, x);
  }

  lemma LeafFlagsAt(m: Memory, root: nat, p: Path, entry: nat, q: Path, j: nat)
    requires Tree(m, root) && |p| == 4 && p[3] < ENTRIES && Node(m, root, p[..3]).Some? && |q| <= 3
    ensures FlagsAt(SetEntry(m, Node(m, root, p[..3]).value, p[3], entry), root, q + [j])
            == if q + [j] != p then FlagsAt(m, root, q + [j]) else if Present(entry) then Some(FlagsOf(entry)) else None
  {
    var t := Node(m, root, p[..3]).value;
    var m' := SetEntry(m, t, p[3], entry);
    LeafRemaps(m, root, p, entry);
    FlagsExtend(m, root, q, j);
    FlagsExtend(m', root, q, j);
    assert p == p[..3] + [p[3]];
    if Node(m, root, q) == Some(t) {
      assert q == p[..3];
    }
  }

  /** A step of the driver's walk within an address space. */
  lemma EnteredFlags(m: Memory, f: set<nat>, m': Memory, f': set<nat>, root: nat, own: set<nat>, p: Path, k: nat,
                     flags: nat, allocate: bool, next: nat, panicked: bool)
    requires Space(m, f, root, own) && |p| == 4 && k <= 2 && Node(m, root, p[..k]).Some? && IsFlags(flags)
    requires Entered(m, f, m', f', Node(m, root, p[..k]).value, p[k], flags, allocate, next, panicked)
    ensures var was := TreeFlags(m, root);
            TreeFlags(m', root)
            == if next == 0 || p[..k + 1] in was then was else was[p[..k + 1] := PresentWritable(flags)]
  {
    assert p[..k + 1] == p[..k] + [p[k]];
    NodeExtend(m, root, p[..k], p[k]);
    FlagsExtend(m, root, p[..k], p[k]);
    if Child(m, Node(m, root, p[..k]).value, p[k]).None? && allocate && f != {} {
      MadeEntry(next, flags);
      assert !InTree(m, root, next);
      GrownFlags(m, root, p[..k], p[k], MakeEntry(next, PresentWritable(flags)), next);
    }
  }
}
