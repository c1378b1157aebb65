/** Several user address spaces over one kernel: each has tables of its own and shares those of
    the kernel's half, and what is done in the user half of one leaves the others alone.
 */
module UserSpaces {
  import opened PageWalk
  import opened AddressSpace
  import opened UserRoot
  import opened HugePages
  import opened PageRights
  import opened Descent
  import opened PageRanges
  import opened SpaceViews

  /** The pages of `keep` are the same in both memories. */
  ghost predicate Keeps(m: Memory, m': Memory, keep: set<nat>) {
    forall t :: t in keep ==> t in m && t in m' && m'[t] == m[t]
  }

  /** A walk over tables that are the same leads to the same place. */
  lemma {:induction false} WalkKept(m: Memory, m': Memory, root: nat, keep: set<nat>, q: Path)
    requires Keeps(m, m', keep)
    requires forall k :: 0 <= k < |q| && Node(m, root, q[..k]).Some? ==> Node(m, root, q[..k]).value in keep
    ensures Node(m', root, q) == Node(m, root, q)
  {
    if q != [] {
      var n := |q| - 1;
      forall k | 0 <= k < n && Node(m, root, q[..n][..k]).Some?
        ensures Node(m, root, q[..n][..k]).value in keep
      {
        assert q[..n][..k] == q[..k];
      }
      WalkKept(m, m', root, keep, q[..n]);
    }
  }

  lemma NodesKept(m: Memory, m': Memory, root: nat, own: set<nat>)
    requires Keeps(m, m', own) && forall q :: |q| <= 3 && Node(m, root, q).Some? ==> Node(m, root, q).value in own
    ensures forall q :: |q| <= 4 ==> Node(m', root, q) == Node(m, root, q)
  {
    forall q | |q| <= 4
      ensures Node(m', root, q) == Node(m, root, q)
    {
      WalkKept(m, m', root, own, q);
    }
  }

  /** An address space whose tables are the same. */
  lemma SpaceKept(m: Memory, f: set<nat>, m': Memory, f': set<nat>, root: nat, own: set<nat>)
    requires Space(m, f, root, own) && Keeps(m, m', own) && FreePages(m', f') && f' <= f
    ensures Space(m', f', root, own) && ViewOf(m', root) == ViewOf(m, root)
    ensures forall q :: |q| <= 4 ==> Node(m', root, q) == Node(m, root, q)
  {
    NodesKept(m, m', root, own);
    TablesKept(m, m', root, own);
    PlainKept(m, m', root, own);
    ViewKept(m, m', root, own);
  }

  lemma ViewKept(m: Memory, m': Memory, root: nat, own: set<nat>)
    requires Keeps(m, m', own)
    requires forall q :: |q| <= 3 && Node(m, root, q).Some? ==> Node(m, root, q).value in own
    requires forall q :: |q| <= 4 ==> Node(m', root, q) == Node(m, root, q)
    ensures ViewOf(m', root) == ViewOf(m, root)
  {
    SameMapping(m, m', root);
    FlagsKept(m, m', root, own);
  }

  lemma FlagsKept(m: Memory, m': Memory, root: nat, own: set<nat>)
    requires Keeps(m, m', own)
    requires forall q :: |q| <= 3 && Node(m, root, q).Some? ==> Node(m, root, q).value in own
    requires forall q :: |q| <= 4 ==> Node(m', root, q) == Node(m, root, q)
    ensures TreeFlags(m', root) == TreeFlags(m, root)
  {
    forall q | 1 <= |q| <= 4
      ensures FlagsAt(m', root, q) == FlagsAt(m, root, q)
    {
      var front := q[..|q| - 1];
      if Node(m, root, front).Some? {
        assert Node(m, root, front).value in own;
      }
    }
  }

  lemma PlainKept(m: Memory, m': Memory, root: nat, own: set<nat>)
    requires Plain(m, root) && Keeps(m, m', own)
    requires forall q :: |q| <= 3 && Node(m, root, q).Some? ==> Node(m, root, q).value in own
    requires forall q :: |q| <= 4 ==> Node(m', root, q) == Node(m, root, q)
    ensures Plain(m', root)
  {
    forall q, i: nat | |q| <= 2 && Node(m', root, q).Some? && Child(m', Node(m', root, q).value, i).Some?
      ensures !Huge(m'[Node(m', root, q).value][i])
    {
      PlainEntry(m, root, q, i);
    }
  }

  /** The kernel's root, its upper half and its tables there, when they are the same. */
  lemma KernelKept(m: Memory, f: set<nat>, m': Memory, f': set<nat>, kroot: nat)
    requires KernelRoot(m, f, kroot) && Keeps(m, m', SharedTables(m, kroot) + {kroot}) && FreePages(m', f') && f' <= f
    requires m.Keys == m'.Keys
    ensures KernelRoot(m', f', kroot) && SharedTables(m', kroot) == SharedTables(m, kroot)
    ensures forall q :: UpperPath(q) && |q| <= 4 ==> Node(m', kroot, q) == Node(m, kroot, q)
  {
    var keep := SharedTables(m, kroot) + {kroot};
    forall q | UpperPath(q) && |q| <= 4
      ensures Node(m', kroot, q) == Node(m, kroot, q)
    {
      UpperWalkKept(m, f, m', kroot, q);
    }
    forall q, i: nat | UpperPath(q) && |q| <= 2 && Node(m', kroot, q).Some? &&
      Child(m', Node(m', kroot, q).value, i).Some?
      ensures !Huge(m'[Node(m', kroot, q).value][i])
    {
      assert InUpperHalf(m, kroot, Node(m, kroot, q).value);
    }
  }

  lemma UpperWalkKept(m: Memory, f: set<nat>, m': Memory, kroot: nat, q: Path)
    requires KernelRoot(m, f, kroot) && Keeps(m, m', SharedTables(m, kroot) + {kroot}) && UpperPath(q) && |q| <= 4
    ensures Node(m', kroot, q) == Node(m, kroot, q)
  {
    forall k | 0 <= k < |q| && Node(m, kroot, q[..k]).Some?
      ensures Node(m, kroot, q[..k]).value in SharedTables(m, kroot) + {kroot}
    {
      if k > 0 {
        assert UpperPath(q[..k]) && InUpperHalf(m, kroot, Node(m, kroot, q[..k]).value);
      } else {
        assert q[..0] == [];
      }
    }
    WalkKept(m, m', kroot, SharedTables(m, kroot) + {kroot}, q);
  }

  /** An address space over the kernel. */
  ghost predicate User(m: Memory, f: set<nat>, kroot: nat, root: nat, own: set<nat>) {
    Space(m, f, root, own) && Copied(m, kroot, m, root) && kroot !in own
  }

  /** The kernel and the address spaces over it: all have the kernel's upper half, and two of them
      have no table in common but for that. */
  ghost predicate Users(m: Memory, f: set<nat>, kroot: nat, roots: seq<nat>, owns: seq<set<nat>>) {
    && KernelRoot(m, f, kroot) && kroot !in SharedTables(m, kroot) && |roots| == |owns|
    && (forall i :: 0 <= i < |roots| ==> User(m, f, kroot, roots[i], owns[i]))
    && (forall i, j :: 0 <= i < j < |roots| ==> owns[i] * owns[j] <= SharedTables(m, kroot))
  }

  /** After boot there is the kernel, and no address space yet. */
  lemma BootUsers(m: Memory, free: set<nat>, kroot: nat)
    requires FreePages(m, free) && IsTable(m, kroot) && kroot !in free
    requires forall i :: 2 <= i < ENTRIES ==> m[kroot][i] == 0
    ensures Users(m, free, kroot, [], [])
  {
    BootRootIsKernelRoot(m, free, kroot);
  }

  /** A change in the user half of one address space touches no table that another one has. */
  lemma OthersUntouched(m: Memory, f: set<nat>, m': Memory, f': set<nat>, kroot: nat, root: nat, own: set<nat>, t: nat)
    requires Updated(m, f, m', f', root, own) && UpperKept(m, m', root) && Copied(m, kroot, m, root)
    requires t in m && t !in f && (t !in own || t in SharedTables(m, kroot))
    ensures t in m' && m'[t] == m[t]
  {
    if t in SharedTables(m, kroot) {
      var q :| UpperPath(q) && |q| <= 3 && Node(m, kroot, q) == Some(t);
      assert Node(m, root, q) == Some(t) && SameTable(m, m', Node(m, root, q));
    }
  }

  lemma KernelUntouched(m: Memory, f: set<nat>, m': Memory, f': set<nat>, kroot: nat, roots: seq<nat>,
                        owns: seq<set<nat>>, i: nat)
    requires Users(m, f, kroot, roots, owns) && i < |roots|
    requires Updated(m, f, m', f', roots[i], owns[i]) && UpperKept(m, m', roots[i])
    ensures Keeps(m, m', SharedTables(m, kroot) + {kroot})
  {
    SharedIsNotFree(m, f, kroot);
    forall t | t in SharedTables(m, kroot) + {kroot}
      ensures t in m && t in m' && m'[t] == m[t]
    {
      OthersUntouched(m, f, m', f', kroot, roots[i], owns[i], t);
    }
  }

  /** So another one is still an address space, with the same mapping. */
  lemma OtherSpaceKept(m: Memory, f: set<nat>, m': Memory, f': set<nat>, kroot: nat, root: nat, own: set<nat>,
                       other: nat, others: set<nat>)
    requires Updated(m, f, m', f', root, own) && UpperKept(m, m', root) && Copied(m, kroot, m, root)
    requires Space(m, f, other, others) && own * others <= SharedTables(m, kroot)
    ensures Space(m', f', other, others) && ViewOf(m', other) == ViewOf(m, other)
    ensures forall q :: |q| <= 4 ==> Node(m', other, q) == Node(m, other, q)
  {
    forall t | t in others
      ensures t in m && t in m' && m'[t] == m[t]
    {
      assert InTree(m, other, t);
      assert t in own ==> t in own * others;
      OthersUntouched(m, f, m', f', kroot, root, own, t);
    }
    SpaceKept(m, f, m', f', other, others);
  }

  /** What the kernel's upper half maps depends on its tables there only, and so do its flags. */
  lemma UpperViewKept(m: Memory, f: set<nat>, m': Memory, kroot: nat)
    requires KernelRoot(m, f, kroot) && Keeps(m, m', SharedTables(m, kroot) + {kroot})
    requires forall q :: UpperPath(q) && |q| <= 4 ==> Node(m', kroot, q) == Node(m, kroot, q)
    ensures UpperView(ViewOf(m', kroot)) == UpperView(ViewOf(m, kroot))
  {
    UpperMappingKept(m, m', kroot);
    UpperFlagsKept(m, f, m', kroot);
  }

  lemma UpperFlagsKept(m: Memory, f: set<nat>, m': Memory, kroot: nat)
    requires KernelRoot(m, f, kroot) && Keeps(m, m', SharedTables(m, kroot) + {kroot})
    ensures UpperFlags(TreeFlags(m', kroot)) == UpperFlags(TreeFlags(m, kroot))
  {
    forall q | UpperPath(q) && |q| <= 4
      ensures FlagsAt(m', kroot, q) == FlagsAt(m, kroot, q)
    {
      UpperFlagKept(m, f, m', kroot, q);
    }
    SameUpperFlags(m, m', kroot, TreeFlags(m, kroot), TreeFlags(m', kroot));
  }

  lemma UpperFlagKept(m: Memory, f: set<nat>, m': Memory, kroot: nat, q: Path)
    requires KernelRoot(m, f, kroot) && Keeps(m, m', SharedTables(m, kroot) + {kroot}) && UpperPath(q) && |q| <= 4
    ensures FlagsAt(m', kroot, q) == FlagsAt(m, kroot, q)
  {
    var front := q[..|q| - 1];
    if front == [] {
      assert Node(m, kroot, front) == Some(kroot) == Node(m', kroot, front);
    } else {
      assert front[0] == q[0];
      UpperWalkKept(m, f, m', kroot, front);
      if Node(m, kroot, front).Some? {
        SharedNode(m, f, kroot, front);
      }
    }
  }

  lemma SharedNode(m: Memory, f: set<nat>, kroot: nat, q: Path)
    requires KernelRoot(m, f, kroot) && UpperPath(q) && |q| <= 3 && Node(m, kroot, q).Some?
    ensures Node(m, kroot, q).value in SharedTables(m, kroot)
  {
    assert InUpperHalf(m, kroot, Node(m, kroot, q).value);
  }

  lemma SameUpperFlags(m: Memory, m': Memory, kroot: nat, a: Flags, b: Flags)
    requires a == TreeFlags(m, kroot) && b == TreeFlags(m', kroot)
    requires forall q :: UpperPath(q) && |q| <= 4 ==> FlagsAt(m', kroot, q) == FlagsAt(m, kroot, q)
    ensures UpperFlags(b) == UpperFlags(a)
  {
    FlagsAsTree(m, kroot, a);
    FlagsAsTree(m', kroot, b);
  }

  lemma UpperMappingKept(m: Memory, m': Memory, kroot: nat)
    requires forall q :: UpperPath(q) && |q| <= 4 ==> Node(m', kroot, q) == Node(m, kroot, q)
    ensures UpperHalf(Mapping(m', kroot)) == UpperHalf(Mapping(m, kroot))
  {
    forall v: int | v >= UPPER_PAGES
      ensures v in Mapping(m', kroot) <==> v in Mapping(m, kroot)
      ensures v in Mapping(m, kroot) ==> Mapping(m', kroot)[v] == Mapping(m, kroot)[v]
    {
      if v < FRAMES {
        UpperPageKept(m, m', kroot, v);
      }
    }
    SameUpperHalf(Mapping(m', kroot), Mapping(m, kroot));
  }

  lemma SameUpperHalf(a: map<int, int>, b: map<int, int>)
    requires forall v :: v >= UPPER_PAGES ==> (v in a <==> v in b) && (v in b ==> a[v] == b[v])
    ensures UpperHalf(a) == UpperHalf(b)
  {
  }

  lemma UpperPageKept(m: Memory, m': Memory, kroot: nat, v: nat)
    requires forall q :: UpperPath(q) && |q| <= 4 ==> Node(m', kroot, q) == Node(m, kroot, q)
    requires UPPER_PAGES <= v < FRAMES
    ensures Walk(m', kroot, v * 4096) == Walk(m, kroot, v * 4096)
  {
    RootIndex(v);
    assert UpperPath(PathOf(v * 4096));
  }

  /** Isolation: after a change in the user half of one address space all are still there, the
      others map what they did, and so does the kernel's half. */
  lemma UserChange(m: Memory, f: set<nat>, m': Memory, f': set<nat>, kroot: nat, roots: seq<nat>,
                   owns: seq<set<nat>>, i: nat)
    requires Users(m, f, kroot, roots, owns) && i < |roots|
    requires Updated(m, f, m', f', roots[i], owns[i]) && UpperKept(m, m', roots[i])
    ensures Users(m', f', kroot, roots, owns[i := owns[i] + (f - f')])
    ensures forall j :: 0 <= j < |roots| && j != i ==> ViewOf(m', roots[j]) == ViewOf(m, roots[j])
    ensures UpperView(ViewOf(m', kroot)) == UpperView(ViewOf(m, kroot))
  {
    KernelUntouched(m, f, m', f', kroot, roots, owns, i);
    KernelKept(m, f, m', f', kroot);
    UpperViewKept(m, f, m', kroot);
    EachUserKept(m, f, m', f', kroot, roots, owns, i);
    UsersApart(f, f', owns, SharedTables(m, kroot), i);
  }

  lemma EachUserKept(m: Memory, f: set<nat>, m': Memory, f': set<nat>, kroot: nat, roots: seq<nat>,
                     owns: seq<set<nat>>, i: nat)
    requires |roots| == |owns| && kroot !in f && (forall j :: 0 <= j < |roots| ==> User(m, f, kroot, roots[j], owns[j]))
    requires forall j, k :: 0 <= j < k < |roots| ==> owns[j] * owns[k] <= SharedTables(m, kroot)
    requires i < |roots| && Updated(m, f, m', f', roots[i], owns[i]) && UpperKept(m, m', roots[i])
    requires forall q :: UpperPath(q) && |q| <= 4 ==> Node(m', kroot, q) == Node(m, kroot, q)
    ensures forall j :: 0 <= j < |roots| ==> User(m', f', kroot, roots[j], owns[i := owns[i] + (f - f')][j])
    ensures forall j :: 0 <= j < |roots| && j != i ==> ViewOf(m', roots[j]) == ViewOf(m, roots[j])
  {
    forall j | 0 <= j < |roots| && j != i
      ensures User(m', f', kroot, roots[j], owns[j]) && ViewOf(m', roots[j]) == ViewOf(m, roots[j])
    {
      assert owns[i] * owns[j] <= SharedTables(m, kroot);
      OtherUserKept(m, f, m', f', kroot, roots[i], owns[i], roots[j], owns[j]);
    }
    ChangedUser(m, f, m', f', kroot, roots[i], owns[i]);
  }

  lemma OtherUserKept(m: Memory, f: set<nat>, m': Memory, f': set<nat>, kroot: nat, root: nat, own: set<nat>,
                      other: nat, others: set<nat>)
    requires Updated(m, f, m', f', root, own) && UpperKept(m, m', root) && Copied(m, kroot, m, root)
    requires User(m, f, kroot, other, others) && own * others <= SharedTables(m, kroot)
    requires forall q :: UpperPath(q) && |q| <= 4 ==> Node(m', kroot, q) == Node(m, kroot, q)
    ensures User(m', f', kroot, other, others) && ViewOf(m', other) == ViewOf(m, other)
  {
    OtherSpaceKept(m, f, m', f', kroot, root, own, other, others);
  }

  lemma ChangedUser(m: Memory, f: set<nat>, m': Memory, f': set<nat>, kroot: nat, root: nat, own: set<nat>)
    requires User(m, f, kroot, root, own) && kroot !in f && Updated(m, f, m', f', root, own) && UpperKept(m, m', root)
    requires forall q :: UpperPath(q) && |q| <= 4 ==> Node(m', kroot, q) == Node(m, kroot, q)
    ensures User(m', f', kroot, root, own + (f - f'))
  {
  }

  lemma UsersApart(f: set<nat>, f': set<nat>, owns: seq<set<nat>>, shared: set<nat>, i: nat)
    requires i < |owns| && forall j :: 0 <= j < |owns| ==> owns[j] !! f
    requires forall j, k :: 0 <= j < k < |owns| ==> owns[j] * owns[k] <= shared
    ensures var owns' := owns[i := owns[i] + (f - f')];
            forall j, k :: 0 <= j < k < |owns'| ==> owns'[j] * owns'[k] <= shared
  {
  }

  /** A new address space joins the others, which map what they did. */
  lemma UserCreated(m: Memory, f: set<nat>, m': Memory, f': set<nat>, kroot: nat, roots: seq<nat>,
                    owns: seq<set<nat>>, root: nat)
    requires Users(m, f, kroot, roots, owns) && f' <= f && ChangedOnly(m, m', f)
    requires Space(m', f', root, SharedTables(m, kroot) + (f - f')) && Copied(m, kroot, m', root)
    ensures Users(m', f', kroot, roots + [root], owns + [SharedTables(m, kroot) + (f - f')])
    ensures forall j :: 0 <= j < |roots| ==> ViewOf(m', roots[j]) == ViewOf(m, roots[j])
    ensures UpperView(ViewOf(m', kroot)) == UpperView(ViewOf(m, kroot))
  {
    KernelApart(m, f, m', f', kroot);
    AllUntouched(m, f, m', f', kroot, roots, owns);
    JoiningUser(m, m', f', kroot, root, SharedTables(m, kroot) + (f - f'));
    NewUserApart(f, f', owns, SharedTables(m, kroot));
  }

  /** The kernel's root and tables are not free, so changes to free pages leave them alone. */
  lemma KernelApart(m: Memory, f: set<nat>, m': Memory, f': set<nat>, kroot: nat)
    requires KernelRoot(m, f, kroot) && FreePages(m', f') && f' <= f && ChangedOnly(m, m', f)
    ensures KernelRoot(m', f', kroot) && SharedTables(m', kroot) == SharedTables(m, kroot)
    ensures forall q :: UpperPath(q) && |q| <= 4 ==> Node(m', kroot, q) == Node(m, kroot, q)
    ensures UpperView(ViewOf(m', kroot)) == UpperView(ViewOf(m, kroot))
  {
    SharedIsNotFree(m, f, kroot);
    KernelKept(m, f, m', f', kroot);
    UpperViewKept(m, f, m', kroot);
  }

  lemma JoiningUser(m: Memory, m': Memory, f': set<nat>, kroot: nat, root: nat, own: set<nat>)
    requires Space(m', f', root, own) && Copied(m, kroot, m', root) && kroot !in own
    requires forall q :: UpperPath(q) && |q| <= 4 ==> Node(m', kroot, q) == Node(m, kroot, q)
    ensures User(m', f', kroot, root, own)
  {
  }

  lemma AllUntouched(m: Memory, f: set<nat>, m': Memory, f': set<nat>, kroot: nat, roots: seq<nat>, owns: seq<set<nat>>)
    requires |roots| == |owns| && (forall j :: 0 <= j < |roots| ==> User(m, f, kroot, roots[j], owns[j]))
    requires ChangedOnly(m, m', f) && FreePages(m', f') && f' <= f
    requires forall q :: UpperPath(q) && |q| <= 4 ==> Node(m', kroot, q) == Node(m, kroot, q)
    ensures forall j :: 0 <= j < |roots| ==>
              User(m', f', kroot, roots[j], owns[j]) && ViewOf(m', roots[j]) == ViewOf(m, roots[j])
  {
    forall j | 0 <= j < |roots|
      ensures User(m', f', kroot, roots[j], owns[j]) && ViewOf(m', roots[j]) == ViewOf(m, roots[j])
    {
      UserUntouched(m, f, m', f', kroot, roots[j], owns[j]);
    }
  }

  lemma UserUntouched(m: Memory, f: set<nat>, m': Memory, f': set<nat>, kroot: nat, root: nat, own: set<nat>)
    requires User(m, f, kroot, root, own) && ChangedOnly(m, m', f) && FreePages(m', f') && f' <= f
    requires forall q :: UpperPath(q) && |q| <= 4 ==> Node(m', kroot, q) == Node(m, kroot, q)
    ensures User(m', f', kroot, root, own) && ViewOf(m', root) == ViewOf(m, root)
  {
    forall t | t in own
      ensures t in m && t in m' && m'[t] == m[t]
    {
      assert InTree(m, root, t);
    }
    SpaceKept(m, f, m', f', root, own);
  }

  lemma NewUserApart(f: set<nat>, f': set<nat>, owns: seq<set<nat>>, shared: set<nat>)
    requires forall j :: 0 <= j < |owns| ==> owns[j] !! f
    requires forall j, k :: 0 <= j < k < |owns| ==> owns[j] * owns[k] <= shared
    ensures var owns' := owns + [shared + (f - f')];
            forall j, k :: 0 <= j < k < |owns'| ==> owns'[j] * owns'[k] <= shared
  {
  }

  ////// Runs

  /** What a run is made of: a new address space, or a page of the user half of one. */
  datatype UserOp =
    | Create(userMem: nat, userSize: nat)
    | MapOne(space: nat, va: nat, phys: nat, flags: nat)
    | UnmapOne(space: nat, va: nat)

  predicate Allowed(op: UserOp, spaces: nat) {
    match op
    case Create(userMem, userSize) => userMem + userSize <= UPPER_HALF
    case MapOne(i, va, _, flags) => i < spaces && va < UPPER_HALF && IsFlags(flags)
    case UnmapOne(i, va) => i < spaces && va < UPPER_HALF
  }

  /** What the address spaces are after a call, given the kernel's half. */
  ghost function After(views: seq<View>, kernel: View, op: UserOp, done: bool): seq<View> {
    if !done || !Allowed(op, |views|) then views
    else
      match op
      case Create(userMem, userSize) => views + [Created(kernel, userMem, userSize)]
      case MapOne(i, va, phys, flags) =>
        views[i := WithPage(views[i], va, Frame(phys), PresentWritable(flags))]
      case UnmapOne(i, va) => views[i := WithoutPage(views[i], va)]
  }

  /** A new address space: the kernel's half, and the user's memory mapped onto itself. */
  ghost function Created(kernel: View, userMem: nat, userSize: nat): View {
    var v, n := userMem / 4096, UserPageCount(userMem, userSize);
    View(Ranged(kernel.pages, v, v, n), RangedFlags(kernel.flags, v, n, PresentWritable(USER_WRITABLE)))
  }

  ghost function WithPage(view: View, va: nat, frame: nat, mark: nat): View {
    View(view.pages[Page(va) := frame], Marked(view.flags, PathOf(va), mark))
  }

  ghost function WithoutPage(view: View, va: nat): View {
    View(view.pages - {Page(va)}, Without(view.flags, PathOf(va)))
  }

  /** The number of pages that are mapped for a user's memory. */
  function UserPageCount(userMem: nat, userSize: nat): nat {
    if userMem == 0 || userSize == 0 then 0 else PagesUpTo(userMem, Add(userMem, userSize))
  }

  ghost function Views(m: Memory, roots: seq<nat>): seq<View> {
    seq(|roots|, i requires 0 <= i < |roots| => ViewOf(m, roots[i]))
  }

  /** The pages of each of them, with their frames and rights. */
  ghost function AllPages(views: seq<View>): seq<map<int, PageView>> {
    seq(|views|, i requires 0 <= i < |views| => Pages(views[i]))
  }

  /** What they are after a run. */
  ghost function Replay(views: seq<View>, kernel: View, ops: seq<UserOp>, done: seq<bool>): seq<View>
    requires |done| <= |ops|
    decreases |ops|
  {
    if done == [] then views else Replay(After(views, kernel, ops[0], done[0]), kernel, ops[1..], done[1..])
  }

  lemma ChangedViews(m: Memory, m': Memory, roots: seq<nat>, i: nat, view: View)
    requires i < |roots| && ViewOf(m', roots[i]) == view
    requires forall j :: 0 <= j < |roots| && j != i ==> ViewOf(m', roots[j]) == ViewOf(m, roots[j])
    ensures Views(m', roots) == Views(m, roots)[i := view]
  {
  }

  lemma MoreViews(m: Memory, m': Memory, roots: seq<nat>, root: nat)
    requires forall j :: 0 <= j < |roots| ==> ViewOf(m', roots[j]) == ViewOf(m, roots[j])
    ensures Views(m', roots) == Views(m, roots)
    ensures Views(m', roots + [root]) == Views(m, roots) + [ViewOf(m', root)]
  {
  }

  lemma SameAllPages(views: seq<View>, i: nat, view: View)
    requires i < |views| && Pages(view) == Pages(views[i])
    ensures AllPages(views[i := view]) == AllPages(views)
  {
  }

  lemma FewerUsers(m: Memory, f: set<nat>, kroot: nat, roots: seq<nat>, owns: seq<set<nat>>, root: nat, own: set<nat>)
    requires Users(m, f, kroot, roots + [root], owns + [own]) && |roots| == |owns|
    ensures Users(m, f, kroot, roots, owns)
  {
    forall i | 0 <= i < |roots|
      ensures User(m, f, kroot, roots[i], owns[i])
    {
      assert (roots + [root])[i] == roots[i] && (owns + [own])[i] == owns[i];
    }
    forall i, j | 0 <= i < j < |roots|
      ensures owns[i] * owns[j] <= SharedTables(m, kroot)
    {
      assert (owns + [own])[i] == owns[i] && (owns + [own])[j] == owns[j];
    }
  }

  ////// Calls

  lemma UserWay(m: Memory, f: set<nat>, kroot: nat, roots: seq<nat>, owns: seq<set<nat>>, i: nat, va: nat)
    requires Users(m, f, kroot, roots, owns) && i < |roots|
    ensures roots[i] != 0 && ClearWay(m, f, roots[i], PathOf(va)) && !LeadsToZero(m, roots[i], PathOf(va))
  {
    assert User(m, f, kroot, roots[i], owns[i]);
    SpaceIsClear(m, f, roots[i], owns[i], va);
    NoSpaceAtZero(m, f, owns[i]);
  }

  lemma UserMapped(m: Memory, f: set<nat>, m': Memory, f': set<nat>, kroot: nat, roots: seq<nat>,
                   owns: seq<set<nat>>, i: nat, va: nat, frame: nat, mark: nat)
    requires Users(m, f, kroot, roots, owns) && i < |roots| && va < UPPER_HALF
    requires MappedIn(m, f, m', f', roots[i], owns[i], va, Some(frame), mark)
    ensures Users(m', f', kroot, roots, owns[i := owns[i] + (f - f')])
    ensures UpperView(ViewOf(m', kroot)) == UpperView(ViewOf(m, kroot))
    ensures Views(m', roots) == var views := Views(m, roots); views[i := WithPage(views[i], va, frame, mark)]
  {
    assert User(m, f, kroot, roots[i], owns[i]);
    UserAddress(va);
    UserChange(m, f, m', f', kroot, roots, owns, i);
    ChangedViews(m, m', roots, i, ViewOf(m', roots[i]));
  }

  /** A map call that panics leaves tables behind, but no page changes, nor what may be done with it. */
  lemma UserNotMapped(m: Memory, f: set<nat>, m': Memory, f': set<nat>, kroot: nat, roots: seq<nat>,
                      owns: seq<set<nat>>, i: nat, va: nat, mark: nat)
    requires Users(m, f, kroot, roots, owns) && i < |roots| && va < UPPER_HALF
    requires MappedIn(m, f, m', f', roots[i], owns[i], va, None, mark)
    ensures Users(m', f', kroot, roots, owns[i := owns[i] + (f - f')])
    ensures UpperView(ViewOf(m', kroot)) == UpperView(ViewOf(m, kroot))
    ensures AllPages(Views(m', roots)) == AllPages(Views(m, roots))
  {
    assert User(m, f, kroot, roots[i], owns[i]);
    UserAddress(va);
    UserChange(m, f, m', f', kroot, roots, owns, i);
    ChangedViews(m, m', roots, i, ViewOf(m', roots[i]));
    TablesAreNotSeen(m, f, roots[i], owns[i], TreeFlags(m', roots[i]), PathOf(va), mark);
    SameAllPages(Views(m, roots), i, ViewOf(m', roots[i]));
  }

  lemma UserUnmapped(m: Memory, f: set<nat>, m': Memory, kroot: nat, roots: seq<nat>, owns: seq<set<nat>>, i: nat,
                     va: nat)
    requires Users(m, f, kroot, roots, owns) && i < |roots| && va < UPPER_HALF
    requires UnmappedIn(m, f, m', roots[i], owns[i], va)
    ensures Users(m', f, kroot, roots, owns)
    ensures UpperView(ViewOf(m', kroot)) == UpperView(ViewOf(m, kroot))
    ensures Views(m', roots) == var views := Views(m, roots); views[i := WithoutPage(views[i], va)]
  {
    assert User(m, f, kroot, roots[i], owns[i]);
    UserAddress(va);
    UserChange(m, f, m', f, kroot, roots, owns, i);
    assert owns[i] + (f - f) == owns[i] && owns[i := owns[i]] == owns;
    ChangedViews(m, m', roots, i, ViewOf(m', roots[i]));
  }

  lemma UserJoined(m: Memory, f: set<nat>, m': Memory, f': set<nat>, kroot: nat, roots: seq<nat>,
                   owns: seq<set<nat>>, root: nat, done: bool)
    returns (roots': seq<nat>, owns': seq<set<nat>>)
    requires Users(m, f, kroot, roots, owns) && f' <= f && ChangedOnly(m, m', f)
    requires Space(m', f', root, SharedTables(m, kroot) + (f - f')) && Copied(m, kroot, m', root)
    ensures roots' == (if done then roots + [root] else roots) && Users(m', f', kroot, roots', owns')
    ensures UpperView(ViewOf(m', kroot)) == UpperView(ViewOf(m, kroot))
    ensures Views(m', roots') == if done then Views(m, roots) + [ViewOf(m', root)] else Views(m, roots)
  {
    var own := SharedTables(m, kroot) + (f - f');
    UserCreated(m, f, m', f', kroot, roots, owns, root);
    MoreViews(m, m', roots, root);
    if done {
      roots', owns' := roots + [root], owns + [own];
    } else {
      FewerUsers(m', f', kroot, roots, owns, root, own);
      roots', owns' := roots, owns;
    }
  }
}
