/** Which pages paging_destroy_user_task frees, and that it frees each of them once. */
module PageTeardown {
  import opened Common
  import opened PageWalk

  /** (entry & HUGE_PAGE_MASK) >> 12: bits 21 to 63. */
  function HugeFrame(entry: nat): nat {
    entry / 0x20_0000 * 512
  }

  /** It is the first frame of the huge page exactly when no bit above the address field is set. */
  lemma HugeFrameIsFirst(entry: nat)
    ensures HugeFrame(entry) == Frame(entry) / 512 * 512 <==> entry < 0x1_0000_0000_0000
  {
    var a := entry / 4096;
    assert entry / 0x20_0000 == a / 512;
    var q, r := a / FRAMES, a % FRAMES;
    assert a == FRAMES * q + r && a / 512 == 0x800_0000 * q + r / 512;
  }

  /** The pages freed for the first n entries of the table t of the given level, in order.
      Level 4 is the root, level 1 a last-level table. */
  function FreedUnder(mem: Memory, t: nat, level: nat, n: nat): seq<nat>
    decreases level, n, 0, t
  {
    if n == 0 then [] else FreedUnder(mem, t, level, n - 1) + FreedEntry(mem, t, level, n - 1)
  }

  /** The pages freed for entry i: what is below it, then the table it leads to. */
  function FreedEntry(mem: Memory, t: nat, level: nat, i: nat): seq<nat>
    decreases level, i, 1, t
  {
    match Child(mem, t, i)
    case None => []
    case Some(c) =>
      if level <= 1 then [c]
      else if level == 2 && Huge(mem[t][i]) then [HugeFrame(mem[t][i])]
      else FreedUnder(mem, c, level - 1, ENTRIES) + [c]
  }

  /** Everything paging_destroy_user_task frees, in order. */
  function FreedBy(mem: Memory, root: nat): seq<nat> {
    FreedUnder(mem, root, 4, USER_HALF) + [root]
  }

  //////////////////////////////////////////////////////////////////////////
  // The paths to the freed pages
  //////////////////////////////////////////////////////////////////////////

  /** A path into the user half: the root itself, a table or a mapped page. */
  predicate UserPath(p: Path) {
    |p| <= 4 && (p != [] ==> p[0] < USER_HALF)
  }

  /** In the user half no page directory maps a huge page. */
  ghost predicate NoHugePages(mem: Memory, root: nat) {
    forall p, j: nat ::
      |p| == 2 && UserPath(p) && Node(mem, root, p).Some? && Child(mem, Node(mem, root, p).value, j).Some? ==>
      !Huge(mem[Node(mem, root, p).value][j])
  }

  /** In the user half no two paths lead to the same page: the tables form a tree, no page
      is mapped twice and no table is mapped as a page. */
  ghost predicate NoSharing(mem: Memory, root: nat) {
    forall p, q ::
      UserPath(p) && UserPath(q) && Node(mem, root, p).Some? && Node(mem, root, q) == Node(mem, root, p) ==> p == q
  }

  /** p goes through one of the first n entries of the table at path b. */
  predicate Below(b: Path, n: nat, p: Path) {
    b <= p && |b| < |p| <= 4 && p[|b|] < n
  }

  /** The paths of the pages in FreedUnder, in the same order. */
  function PathsUnder(mem: Memory, t: nat, level: nat, n: nat, b: Path): seq<Path>
    decreases level, n, 0, t
  {
    if n == 0 then [] else PathsUnder(mem, t, level, n - 1, b) + PathsEntry(mem, t, level, n - 1, b)
  }

  function PathsEntry(mem: Memory, t: nat, level: nat, i: nat, b: Path): seq<Path>
    decreases level, i, 1, t
  {
    match Child(mem, t, i)
    case None => []
    case Some(c) =>
      if level <= 1 then [b + [i]]
      else PathsUnder(mem, c, level - 1, ENTRIES, b + [i]) + [b + [i]]
  }

  /** freed[k] is where paths[k] leads, and every path is below entry n of b. */
  ghost predicate Matches(mem: Memory, root: nat, b: Path, n: nat, paths: seq<Path>, freed: seq<nat>) {
    && |paths| == |freed|
    && forall k :: 0 <= k < |paths| ==> Below(b, n, paths[k]) && Node(mem, root, paths[k]) == Some(freed[k])
  }

  lemma MatchesConcat(mem: Memory, root: nat, b: Path, n: nat,
                      p1: seq<Path>, f1: seq<nat>, p2: seq<Path>, f2: seq<nat>)
    requires Matches(mem, root, b, n, p1, f1) && Matches(mem, root, b, n, p2, f2)
    ensures Matches(mem, root, b, n, p1 + p2, f1 + f2)
  {
  }

  lemma {:induction false} UnderMatches(mem: Memory, root: nat, t: nat, level: nat, n: nat, b: Path)
    requires 1 <= level <= 4 && |b| + level == 4 && n <= ENTRIES && Node(mem, root, b) == Some(t)
    requires NoHugePages(mem, root) && UserPath(b) && (b == [] ==> n <= USER_HALF)
    ensures Matches(mem, root, b, n, PathsUnder(mem, t, level, n, b), FreedUnder(mem, t, level, n))
    decreases level, n, 0
  {
    if n > 0 {
      UnderMatches(mem, root, t, level, n - 1, b);
      EntryMatches(mem, root, t, level, n - 1, b);
      MatchesConcat(mem, root, b, n, PathsUnder(mem, t, level, n - 1, b), FreedUnder(mem, t, level, n - 1),
                    PathsEntry(mem, t, level, n - 1, b), FreedEntry(mem, t, level, n - 1));
    }
  }

  lemma {:induction false} EntryMatches(mem: Memory, root: nat, t: nat, level: nat, i: nat, b: Path)
    requires 1 <= level <= 4 && |b| + level == 4 && i < ENTRIES && Node(mem, root, b) == Some(t)
    requires NoHugePages(mem, root) && UserPath(b) && (b == [] ==> i < USER_HALF)
    ensures Matches(mem, root, b, i + 1, PathsEntry(mem, t, level, i, b), FreedEntry(mem, t, level, i))
    decreases level, i, 1
  {
    NodeExtend(mem, root, b, i);
    if Child(mem, t, i).Some? && level > 1 {
      var c := Child(mem, t, i).value;
      assert UserPath(b + [i]);
      UnderMatches(mem, root, c, level - 1, ENTRIES, b + [i]);
      var ps, fs := PathsUnder(mem, c, level - 1, ENTRIES, b + [i]), FreedUnder(mem, c, level - 1, ENTRIES);
      MatchesWiden(mem, root, b, i, ps, fs);
      MatchesConcat(mem, root, b, i + 1, ps, fs, [b + [i]], [c]);
    }
  }

  lemma MatchesWiden(mem: Memory, root: nat, b: Path, i: nat, ps: seq<Path>, fs: seq<nat>)
    requires Matches(mem, root, b + [i], ENTRIES, ps, fs)
    ensures Matches(mem, root, b, i + 1, ps, fs)
  {
    forall k | 0 <= k < |ps|
      ensures Below(b, i + 1, ps[k])
    {
      assert Below(b + [i], ENTRIES, ps[k]);
    }
  }

  lemma DistinctConcat(a: seq<Path>, b: seq<Path>)
    requires Distinct(a) && Distinct(b) && forall p :: p in a ==> p !in b
    ensures Distinct(a + b)
  {
    var s := a + b;
    forall i, j | 0 <= i < j < |s|
      ensures s[i] != s[j]
    {
      if i < |a| <= j {
        assert a[i] in a && b[j - |a|] in b;
      }
    }
  }

  /** Every path in the list goes through one of the first n entries, and no path is
      listed twice. */
  lemma {:induction false} UnderDistinct(mem: Memory, t: nat, level: nat, n: nat, b: Path)
    requires |b| + level == 4
    ensures Distinct(PathsUnder(mem, t, level, n, b))
    ensures forall p :: p in PathsUnder(mem, t, level, n, b) ==> b <= p && |b| < |p| && p[|b|] < n
    decreases level, n, 0
  {
    if n > 0 {
      UnderDistinct(mem, t, level, n - 1, b);
      EntryDistinct(mem, t, level, n - 1, b);
      DistinctConcat(PathsUnder(mem, t, level, n - 1, b), PathsEntry(mem, t, level, n - 1, b));
    }
  }

  lemma {:induction false} EntryDistinct(mem: Memory, t: nat, level: nat, i: nat, b: Path)
    requires |b| + level == 4
    ensures Distinct(PathsEntry(mem, t, level, i, b))
    ensures forall p :: p in PathsEntry(mem, t, level, i, b) ==> b <= p && |b| < |p| && p[|b|] == i
    decreases level, i, 1
  {
    if Child(mem, t, i).Some? && level > 1 {
      var c := Child(mem, t, i).value;
      var ps := PathsUnder(mem, c, level - 1, ENTRIES, b + [i]);
      UnderDistinct(mem, c, level - 1, ENTRIES, b + [i]);
      DistinctConcat(ps, [b + [i]]);
      forall p | p in ps
        ensures b <= p && |b| < |p| && p[|b|] == i
      {
        assert b + [i] <= p;
      }
    }
  }

  /** Every path below the first n entries that leads somewhere is in the list. */
  lemma {:induction false} UnderComplete(mem: Memory, root: nat, t: nat, level: nat, n: nat, b: Path, p: Path)
    requires 1 <= level <= 4 && |b| + level == 4 && n <= ENTRIES && Node(mem, root, b) == Some(t)
    requires Below(b, n, p) && Node(mem, root, p).Some?
    ensures p in PathsUnder(mem, t, level, n, b)
    decreases level, n, 0
  {
    if p[|b|] < n - 1 {
      UnderComplete(mem, root, t, level, n - 1, b, p);
    } else {
      EntryComplete(mem, root, t, level, n - 1, b, p);
    }
  }

  lemma {:induction false} EntryComplete(mem: Memory, root: nat, t: nat, level: nat, i: nat, b: Path, p: Path)
    requires 1 <= level <= 4 && |b| + level == 4 && i < ENTRIES && Node(mem, root, b) == Some(t)
    requires Below(b, i + 1, p) && p[|b|] == i && Node(mem, root, p).Some?
    ensures p in PathsEntry(mem, t, level, i, b)
    decreases level, i, 1
  {
    assert p[..|b| + 1] == b + [i];
    NodeExtend(mem, root, b, i);
    if Node(mem, root, b + [i]).None? {
      NoneBelow(mem, root, b + [i], p);
    } else if |p| > |b| + 1 {
      var c := Child(mem, t, i).value;
      IndicesInRange(mem, root, p, |b| + 1);
      UnderComplete(mem, root, c, level - 1, ENTRIES, b + [i], p);
    } else {
      assert p == b + [i];
    }
  }

  /** A walk only goes through entries that exist. */
  lemma {:induction false} IndicesInRange(mem: Memory, root: nat, p: Path, k: nat)
    requires Node(mem, root, p).Some? && k < |p|
    ensures p[k] < ENTRIES
  {
    if k < |p| - 1 {
      IndicesInRange(mem, root, p[..|p| - 1], k);
    }
  }

  //////////////////////////////////////////////////////////////////////////
  // The theorem
  //////////////////////////////////////////////////////////////////////////

  /** Some user path leads to page x. */
  ghost predicate Reached(mem: Memory, root: nat, x: nat) {
    exists p :: UserPath(p) && Node(mem, root, p) == Some(x)
  }

  /** For an address space without huge pages and without sharing in its user half,
      teardown frees every page that a user path leads to (the root, the tables below the
      user half and the pages they map), each exactly once, and no other page: nothing
      that is reached only through the kernel's half. */
  lemma TeardownIsExact(mem: Memory, root: nat, x: nat)
    requires NoHugePages(mem, root) && NoSharing(mem, root)
    ensures Distinct(FreedBy(mem, root))
    ensures x in FreedBy(mem, root) <==> Reached(mem, root, x)
  {
    var ps := AllPaths(mem, root);
    var fs := FreedBy(mem, root);
    DistinctByPaths(mem, root, ps, fs);
    if x in fs {
      var k :| 0 <= k < |fs| && fs[k] == x;
      assert Node(mem, root, ps[k]) == Some(x);
    }
    if Reached(mem, root, x) {
      var p :| UserPath(p) && Node(mem, root, p) == Some(x);
      ListedSomewhere(mem, root, p);
      var k :| 0 <= k < |ps| && ps[k] == p;
      assert fs[k] == x;
    }
  }

  lemma AllPaths(mem: Memory, root: nat) returns (ps: seq<Path>)
    requires NoHugePages(mem, root)
    ensures ps == PathsUnder(mem, root, 4, USER_HALF, []) + [[]]
    ensures |ps| == |FreedBy(mem, root)| && Distinct(ps)
    ensures forall k :: 0 <= k < |ps| ==> UserPath(ps[k]) && Node(mem, root, ps[k]) == Some(FreedBy(mem, root)[k])
  {
    var under := PathsUnder(mem, root, 4, USER_HALF, []);
    ps := under + [[]];
    UnderMatches(mem, root, root, 4, USER_HALF, []);
    UnderDistinct(mem, root, 4, USER_HALF, []);
    DistinctConcat(under, [[]]);
    forall k | 0 <= k < |ps|
      ensures UserPath(ps[k]) && Node(mem, root, ps[k]) == Some(FreedBy(mem, root)[k])
    {
      if k < |under| {
        assert Below([], USER_HALF, under[k]);
      }
    }
  }

  lemma ListedSomewhere(mem: Memory, root: nat, p: Path)
    requires UserPath(p) && Node(mem, root, p).Some?
    ensures p in PathsUnder(mem, root, 4, USER_HALF, []) + [[]]
  {
    if p != [] {
      UnderComplete(mem, root, root, 4, USER_HALF, [], p);
    }
  }

  lemma DistinctByPaths(mem: Memory, root: nat, ps: seq<Path>, fs: seq<nat>)
    requires NoSharing(mem, root) && Distinct(ps) && |ps| == |fs|
    requires forall k :: 0 <= k < |ps| ==> UserPath(ps[k]) && Node(mem, root, ps[k]) == Some(fs[k])
    ensures Distinct(fs)
  {
    forall i, j | 0 <= i < j < |fs|
      ensures fs[i] != fs[j]
    {
      assert ps[i] != ps[j];
    }
  }

  /** The pages in a list that the allocator takes back: those that it knows. */
  ghost function Returned(mem: Memory, pages: seq<nat>): set<nat> {
    set x | x in pages && x != 0 && IsTable(mem, x)
  }

  /** The pages of the list have been passed to the allocator, in that order, and are free now. */
  ghost predicate Gave(mem: Memory, free: set<nat>, log: seq<nat>, free': set<nat>, log': seq<nat>, pages: seq<nat>) {
    log' == log + pages && free' == free + Returned(mem, pages)
  }

  lemma GaveMore(mem: Memory, free: set<nat>, log: seq<nat>, free1: set<nat>, log1: seq<nat>, free2: set<nat>,
                 log2: seq<nat>, a: seq<nat>, b: seq<nat>)
    requires Gave(mem, free, log, free1, log1, a) && Gave(mem, free1, log1, free2, log2, b)
    ensures Gave(mem, free, log, free2, log2, a + b)
  {
    assert Returned(mem, a + b) == Returned(mem, a) + Returned(mem, b);
  }

  /** Down to the last-level tables, every present entry of the table t leads to a table. */
  predicate ChildrenAreTables(mem: Memory, t: nat, level: nat)
    decreases level, t
  {
    level >= 2 ==> forall i :: 0 <= i < ENTRIES && Child(mem, t, i).Some? ==>
      && IsTable(mem, Child(mem, t, i).value)
      && ChildrenAreTables(mem, Child(mem, t, i).value, level - 1)
  }

  lemma {:induction false} TreeBelow(mem: Memory, root: nat, p: Path, t: nat, level: nat)
    requires Tree(mem, root) && |p| + level == 4 && Node(mem, root, p) == Some(t) && level > 0
    ensures IsTable(mem, t) && ChildrenAreTables(mem, t, level)
    decreases level
  {
    if level >= 2 {
      forall i: nat | i < ENTRIES && Child(mem, t, i).Some?
        ensures IsTable(mem, Child(mem, t, i).value) && ChildrenAreTables(mem, Child(mem, t, i).value, level - 1)
      {
        NodeExtend(mem, root, p, i);
        assert |p + [i]| <= 3;
        TreeBelow(mem, root, p + [i], Child(mem, t, i).value, level - 1);
      }
    }
  }
}
