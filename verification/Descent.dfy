/** What a map or unmap call does to an address space without huge entries, step by step: the
    walk down to the last-level table, and the entry written there.
 */
module Descent {
  import opened PageWalk
  import opened AddressSpace
  import opened HugePages
  import opened PageRights

  /** The walk after k steps: what it has made carries the mark. In an address space without huge
      entries it has changed no walk, and no flags but those. */
  ghost predicate DescendedIn(m0: Memory, f0: set<nat>, m: Memory, f: set<nat>, root: nat, own: set<nat>, p: Path,
                              k: nat, mark: nat) {
    && Made(m0, m, root, p, k, mark) && k <= 3
    && (Space(m0, f0, root, own) ==>
          && Grew(m0, f0, m, f, root, own) && (!UpperPath(p) ==> UpperKept(m0, m, root))
          && TreeFlags(m, root) == MarkedTo(TreeFlags(m0, root), p, k, mark))
  }

  lemma DescentBegins(m: Memory, f: set<nat>, root: nat, own: set<nat>, p: Path, mark: nat, allocate: bool)
    requires root != 0 && ClearWay(m, f, root, p)
    ensures Partway(m, f, m, f, root, p, 0, root, allocate) && DescendedIn(m, f, m, f, root, own, p, 0, mark)
  {
    assert p[..0] == [];
    assert own + (f - f) == own;
  }

  lemma DescentNext(m0: Memory, f0: set<nat>, m: Memory, f: set<nat>, m': Memory, f': set<nat>, root: nat,
                    own: set<nat>, p: Path, k: nat, t: nat, flags: nat, allocate: bool, next: nat, panicked: bool)
    returns (k': nat)
    requires Partway(m0, f0, m, f, root, p, k, t, allocate) && k <= 2 && IsFlags(flags)
    requires DescendedIn(m0, f0, m, f, root, own, p, k, PresentWritable(flags))
    requires Entered(m, f, m', f', t, p[k], flags, allocate, next, panicked)
    ensures k' == if next == 0 then k else k + 1
    ensures next != 0 ==> !panicked && Partway(m0, f0, m', f', root, p, k', next, allocate)
    ensures next == 0 ==> Stopped(m0, f0, m', f', root, p, allocate, panicked)
    ensures DescendedIn(m0, f0, m', f', root, own, p, k', PresentWritable(flags))
  {
    k' := if next == 0 then k else k + 1;
    PartwayNext(m0, f0, m, f, m', f', root, p, k, t, flags, allocate, next, panicked);
    MadeNext(m0, f0, m, f, m', f', root, p, k, t, flags, allocate, next, panicked);
    if Space(m0, f0, root, own) {
      DescentNextIn(m0, f0, m, f, m', f', root, own, p, k, t, flags, allocate, next, panicked);
      EnteredFlags(m, f, m', f', root, own + (f0 - f), p, k, flags, allocate, next, panicked);
      DescentFlags(TreeFlags(m0, root), TreeFlags(m, root), TreeFlags(m', root), p, k, PresentWritable(flags),
                   next == 0, k');
    }
  }

  lemma DescentFlags(was: Flags, now: Flags, now': Flags, p: Path, k: nat, mark: nat, stopped: bool, k': nat)
    requires |p| == 4 && k <= 2 && now == MarkedTo(was, p, k, mark) && k' == if stopped then k else k + 1
    requires now' == if stopped || p[..k + 1] in now then now else now[p[..k + 1] := mark]
    ensures now' == MarkedTo(was, p, k', mark)
  {
  }

  lemma DescentNextIn(m0: Memory, f0: set<nat>, m: Memory, f: set<nat>, m': Memory, f': set<nat>, root: nat,
                      own: set<nat>, p: Path, k: nat, t: nat, flags: nat, allocate: bool, next: nat, panicked: bool)
    requires Grew(m0, f0, m, f, root, own) && (!UpperPath(p) ==> UpperKept(m0, m, root))
    requires |p| == 4 && k <= 2 && Node(m, root, p[..k]) == Some(t) && IsFlags(flags)
    requires Entered(m, f, m', f', t, p[k], flags, allocate, next, panicked)
    ensures Grew(m0, f0, m', f', root, own) && (!UpperPath(p) ==> UpperKept(m0, m', root))
  {
    EnterKeepsSpace(m, f, m', f', root, own + (f0 - f), p[..k], p[k], flags, allocate, next, panicked);
    GrewTwice(m0, f0, m, f, m', f', root, own);
    assert (p[..k] + [p[k]])[0] == p[0];
    if !UpperPath(p) {
      UpperKeptTwice(m0, m, m', root);
    }
  }

  /** Tables have been made on the way to p and nothing else: no page has other rights. */
  ghost predicate OnlyTables(was: Flags, flags: Flags, p: Path, mark: nat) {
    |p| == 4 && exists k :: 0 <= k <= 3 && flags == MarkedTo(was, p, k, mark)
  }

  /** A map call, if it is one in an address space without huge entries: the flat map is updated,
      a page of the user half leaves the kernel's half alone, and the page and the tables made
      for it carry the mark. */
  ghost predicate MappedIn(m0: Memory, f0: set<nat>, m: Memory, f: set<nat>, root: nat, own: set<nat>, va: nat,
                           frame: Option<nat>, mark: nat) {
    Space(m0, f0, root, own) ==>
      && Updated(m0, f0, m, f, root, own) && (!UpperPath(PathOf(va)) ==> UpperKept(m0, m, root))
      && match frame
         case None =>
           && Mapping(m, root) == Mapping(m0, root)
           && OnlyTables(TreeFlags(m0, root), TreeFlags(m, root), PathOf(va), mark)
         case Some(x) =>
           && Mapping(m, root) == Mapping(m0, root)[Page(va) := x]
           && TreeFlags(m, root) == Marked(TreeFlags(m0, root), PathOf(va), mark)
  }

  lemma MappedNothing(m0: Memory, f0: set<nat>, m: Memory, f: set<nat>, root: nat, own: set<nat>, va: nat, k: nat,
                      mark: nat)
    requires DescendedIn(m0, f0, m, f, root, own, PathOf(va), k, mark)
    ensures MappedIn(m0, f0, m, f, root, own, va, None, mark)
  {
    if Space(m0, f0, root, own) {
      SameMapping(m0, m, root);
    }
  }

  lemma NoSpaceAtZero(m: Memory, f: set<nat>, own: set<nat>)
    ensures !Space(m, f, 0, own)
  {
    assert Node(m, 0, []) == Some(0);
  }

  lemma MappedEntry(m0: Memory, f0: set<nat>, m: Memory, f: set<nat>, root: nat, own: set<nat>, va: nat, t: nat,
                    entry: nat)
    requires DescendedIn(m0, f0, m, f, root, own, PathOf(va), 3, FlagsOf(entry)) && Present(entry)
    requires Node(m, root, PathOf(va)[..3]) == Some(t) && IsTable(m, t)
    ensures MappedIn(m0, f0, SetEntry(m, t, PathOf(va)[3], entry), f, root, own, va, Some(Frame(entry)), FlagsOf(entry))
  {
    if Space(m0, f0, root, own) {
      LeafWrite(m0, m, f0, f, root, own, va, entry);
      LeafFlags(m, root, PathOf(va), entry);
    }
  }

  /** The end of a map call that succeeds. */
  lemma MapCallDone(m0: Memory, f0: set<nat>, m: Memory, f: set<nat>, root: nat, own: set<nat>, va: nat, t: nat,
                    entry: nat)
    requires Partway(m0, f0, m, f, root, PathOf(va), 3, t, true) && Present(entry)
    requires DescendedIn(m0, f0, m, f, root, own, PathOf(va), 3, FlagsOf(entry))
    ensures |f0| == |f| + Missing(m0, root, PathOf(va)) && !LeadsToZero(m0, root, PathOf(va)) && IsTable(m, t)
    ensures var m' := SetEntry(m, t, PathOf(va)[3], entry);
            && MapsUnlessHuge(m0, m', root, PathOf(va), Frame(entry))
            && Granted(m0, m', root, PathOf(va), FlagsOf(entry))
            && MappedIn(m0, f0, m', f, root, own, va, Some(Frame(entry)), FlagsOf(entry))
  {
    Arrived(m0, f0, m, f, root, PathOf(va), t, true);
    WritesUnlessHuge(m0, f0, m, f, root, PathOf(va), t, true, entry);
    GrantsUnlessHuge(m0, f0, m, f, root, PathOf(va), t, entry);
    MappedEntry(m0, f0, m, f, root, own, va, t, entry);
  }

  /** An unmap call, likewise: the entry of the page is gone, and no other has changed. */
  ghost predicate UnmappedIn(m0: Memory, f: set<nat>, m: Memory, root: nat, own: set<nat>, va: nat) {
    Space(m0, f, root, own) ==>
      && Updated(m0, f, m, f, root, own) && (!UpperPath(PathOf(va)) ==> UpperKept(m0, m, root))
      && Mapping(m, root) == Mapping(m0, root) - {Page(va)}
      && TreeFlags(m, root) == Without(TreeFlags(m0, root), PathOf(va))
  }

  lemma UnmappedNothing(m: Memory, f: set<nat>, root: nat, own: set<nat>, va: nat)
    requires ClearWay(m, f, root, PathOf(va)) && Stopped(m, f, m, f, root, PathOf(va), false, false)
    ensures UnmappedIn(m, f, m, root, own, va)
    ensures !MeetsHuge(m, root, PathOf(va)) && !LeadsToZero(m, root, PathOf(va)) ==>
              Translate(m, root, PathOf(va)) == None
  {
    NodesOnPath(m, root, PathOf(va));
    if Space(m, f, root, own) {
      SpaceIsClear(m, f, root, own, va);
      NothingThere(m, f, root, own, va);
    }
  }

  lemma NothingThere(m: Memory, f: set<nat>, root: nat, own: set<nat>, va: nat)
    requires Space(m, f, root, own) && Node(m, root, PathOf(va)[..3]).None?
    ensures UnmappedIn(m, f, m, root, own, va)
  {
    NodesOnPath(m, root, PathOf(va));
    FlagsOnPath(m, root, PathOf(va));
    UpdatedNot(m, f, root, own);
    RemappedIsUpdate(m, m, root, va, None);
    NotMarked(TreeFlags(m, root), PathOf(va));
  }

  lemma NotMarked(flags: Flags, p: Path)
    requires p !in flags
    ensures Without(flags, p) == flags
  {
  }

  lemma UnmappedEntry(m: Memory, f: set<nat>, root: nat, own: set<nat>, va: nat, t: nat)
    requires Node(m, root, PathOf(va)[..3]) == Some(t) && IsTable(m, t)
    ensures UnmappedIn(m, f, SetEntry(m, t, PathOf(va)[3], 0), root, own, va)
  {
    if Space(m, f, root, own) {
      assert own + (f - f) == own;
      LeafWrite(m, m, f, f, root, own, va, 0);
      LeafFlags(m, root, PathOf(va), 0);
    }
  }
}
