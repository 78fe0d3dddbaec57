/**
 Whole address spaces: birth, clone and teardown, and the faults and calls that change one page.
 Every method is tied to the ledger, so runs of these methods are runs of CowRefinement.
 */
module Spaces {
  import opened Wrappers
  import opened PageTree
  import opened Pmm
  import opened PageWalk
  import opened Cow
  import R = CowRefinement
  import L = CowLedger

  // ------------------------------------------------------------------ a new root

  /** A root table with an empty user half and the kernel's upper half. */
  function RootTable(kernel: Table): (t: Table)
    ensures forall i :: 0 <= i < 256 ==> t[i] == EMPTY
    ensures forall i :: 256 <= i < 512 ==> t[i] == kernel[i]
  {
    Zeroed()[..256] + kernel[256..]
  }

  function AddRoot(w: Woods, f: Frame, kernel: Frame): Woods
    requires kernel in w.tables
  {
    Woods(w.tables[f := RootTable(w.tables[kernel])], w.roots + {f}, w.limit, w.places[f := Place(f, 0, 0)],
      w.taken + {f})
  }

  lemma RootIsTable(w: Woods, r: Frame)
    requires Forest(w) && r in w.roots
    ensures r in w.tables && r in w.taken && r in w.places && w.places[r] == Place(r, 0, 0)
  {
    assert Node(w.tables, r, 0, 0) == Some(r);
  }

  lemma FreshIsNoRoot(w: Woods, f: Frame)
    requires Forest(w) && f !in w.taken
    ensures f !in w.roots
  {
    if f in w.roots {
      RootIsTable(w, f);
      assert false;
    }
  }

  lemma {:induction false} NewRootNode(w: Woods, f: Frame, kernel: Frame, r: Frame, l: nat, p: nat)
    requires Forest(w) && w.limit == 256 && kernel in w.roots && kernel in w.tables && f !in w.taken
    requires r in w.roots + {f} && l <= 3 && Name(l, p)
    ensures Node(AddRoot(w, f, kernel).tables, r, l, p) ==
            if r != f then Node(w.tables, r, l, p)
            else if l == 0 then Some(f)
            else if Owned(256, l, p) then None
            else Node(w.tables, kernel, l, p)
    decreases l
  {
    FreshIsNoRoot(w, f);
    if l == 0 {
    } else {
      NewRootNode(w, f, kernel, r, l - 1, p / 512);
      if l == 1 {
        assert p / 512 == 0 && p % 512 == p;
      }
      if r != f && Node(w.tables, r, l - 1, p / 512).Some? {
        assert Placed(w, Node(w.tables, r, l - 1, p / 512).value, Place(r, l - 1, p / 512));
      }
      if r == f && l > 1 && !Owned(256, l, p) && Node(w.tables, kernel, l - 1, p / 512).Some? {
        assert Placed(w, Node(w.tables, kernel, l - 1, p / 512).value, Place(kernel, l - 1, p / 512));
      }
    }
  }

  lemma {:induction false} NewRootSeenFrom(w: Woods, f: Frame, kernel: Frame, r: Frame, q: nat, level: nat)
    requires Forest(w) && w.limit == 256 && kernel in w.roots && kernel in w.tables && f !in w.taken
    requires r in w.roots + {f} && Name(4, q) && level <= 3
    ensures SeenFrom(AddRoot(w, f, kernel).tables, r, level, q) ==
            if r != f then SeenFrom(w.tables, r, level, q)
            else if Owned(256, 4, q) then None
            else SeenFrom(w.tables, kernel, level, q)
    decreases level
  {
    hide Prefix, Index;
    PrefixOwned(512, q, level);
    PrefixOwnedBack(256, q, level);
    NewRootNode(w, f, kernel, r, level, Prefix(q, level));
    FreshIsNoRoot(w, f);
    if level > 0 {
      NewRootSeenFrom(w, f, kernel, r, q, level - 1);
    } else {
      TopSlot(q);
    }
    var from := if r == f then kernel else r;
    if Node(w.tables, from, level, Prefix(q, level)).Some? {
      assert Placed(w, Node(w.tables, from, level, Prefix(q, level)).value, Place(from, level, Prefix(q, level)));
    }
  }

  lemma TopSlot(q: nat)
    requires Name(4, q)
    ensures Prefix(q, 0) == 0 && Index(q, 0) == Prefix(q, 1) < 512
    ensures Owned(256, 4, q) <==> Index(q, 0) < 256
  {
    PrefixOwned(512, q, 1);
    PrefixOwnedBack(256, q, 1);
  }

  /** A new root keeps memory in order, maps nothing, and shows the kernel half the kernel root shows. */
  lemma NewRootKeepsOrder(w: Woods, f: Frame, kernel: Frame, pinned: set<Frame>, may: map<Key, bool>)
    requires Ordered(w, pinned, may) && kernel in w.roots && kernel in w.tables && f !in w.taken && f < TOTAL_PAGES
    ensures var w' := AddRoot(w, f, kernel);
            && Ordered(w', pinned, may)
            && LeavesOf(w'.tables, w'.roots) == LeavesOf(w.tables, w.roots)
            && w'.taken - w'.places.Keys - pinned == w.taken - w.places.Keys - pinned
            && (forall q: nat :: USER_PAGES <= q && Name(4, q) ==> Seen(w'.tables, f, q) == Seen(w.tables, kernel, q))
  {
    var w' := AddRoot(w, f, kernel);
    NewRootForest(w, f, kernel, pinned);
    forall r, q: nat | r in w'.roots && Name(4, q)
      ensures Seen(w'.tables, r, q) == if r != f then Seen(w.tables, r, q) else if q < USER_PAGES then None
                else Seen(w.tables, kernel, q)
    {
      NewRootSeenFrom(w, f, kernel, r, q, 3);
      UserPageName(q);
    }
    NewRootLeaves(w, w', f);
    NewRootSmall(w, w', f);
    NewRootOpen(w, f, kernel);
  }

  lemma NewRootOpen(w: Woods, f: Frame, kernel: Frame)
    requires Open(w) && w.limit == USER_SLOTS && kernel in w.tables && f !in w.places
    ensures Open(AddRoot(w, f, kernel))
  {
    var w' := AddRoot(w, f, kernel);
    forall g, j | g in w'.places && g in w'.tables && 0 <= j < 512
      ensures OpenSlot(w', g, j)
    {
      if g != f {
        assert OpenSlot(w, g, j);
      }
    }
  }

  lemma NewRootLeaves(w: Woods, w': Woods, f: Frame)
    requires f !in w.roots && w'.roots == w.roots + {f}
    requires forall r, q: nat {:trigger Seen(w'.tables, r, q)} :: r in w'.roots && q < USER_PAGES && Name(4, q) ==>
               Seen(w'.tables, r, q) == if r != f then Seen(w.tables, r, q) else None
    ensures LeavesOf(w'.tables, w'.roots) == LeavesOf(w.tables, w.roots)
  {
    forall x
      ensures x in LeavesOf(w'.tables, w'.roots) <==> x in LeavesOf(w.tables, w.roots)
      ensures x in LeavesOf(w'.tables, w'.roots) ==> LeavesOf(w'.tables, w'.roots)[x] == LeavesOf(w.tables, w.roots)[x]
    {
      LeavesAt(w.tables, w.roots, x);
      LeavesAt(w'.tables, w'.roots, x);
      UserPageName(x.page);
    }
  }

  lemma NewRootSmall(w: Woods, w': Woods, f: Frame)
    requires SmallPages(w) && w'.roots == w.roots + {f}
    requires forall r, q: nat {:trigger Seen(w'.tables, r, q)} :: r in w'.roots && q < USER_PAGES && Name(4, q) ==>
               Seen(w'.tables, r, q) == if r != f then Seen(w.tables, r, q) else None
    ensures SmallPages(w')
  {
    forall r, p: nat | r in w'.roots && p < USER_PAGES && Seen(w'.tables, r, p).Some?
      ensures Seen(w'.tables, r, p).value.level == 3
    {
      UserPageName(p);
    }
  }

  lemma NewRootForest(w: Woods, f: Frame, kernel: Frame, pinned: set<Frame>)
    requires Sound(w) && w.limit == 256 && kernel in w.roots && kernel in w.tables && f !in w.taken && f < TOTAL_PAGES
    requires KernelHalf(w, pinned) && pinned <= w.taken
    ensures f !in w.roots && f !in w.places
    ensures Sound(AddRoot(w, f, kernel)) && KernelHalf(AddRoot(w, f, kernel), pinned)
  {
    var w' := AddRoot(w, f, kernel);
    FreshIsNoRoot(w, f);
    forall r, l: nat, p: nat | r in w'.roots && l <= 3 && Name(l, p) && Node(w'.tables, r, l, p).Some?
      ensures Placed(w', Node(w'.tables, r, l, p).value, Place(r, l, p))
      ensures !Owned(256, l, p) ==> Node(w'.tables, r, l, p).value in pinned
    {
      NewRootNode(w, f, kernel, r, l, p);
      var from := if r == f then kernel else r;
      if !(r == f && l == 0) {
        assert Placed(w, Node(w.tables, from, l, p).value, Place(from, l, p));
      }
    }
    forall g | g in w'.places
      ensures Recorded(w', g, w'.places[g])
    {
      var at := w'.places[g];
      if g != f {
        assert Recorded(w, g, at);
        OwnedIsName(256, at.level, at.prefix);
        NewRootNode(w, f, kernel, at.root, at.level, at.prefix);
      }
    }
  }

  /** Gives a space its root: empty user half, the kernel's upper half. Frame 0 means refusal. */
  method Init(m: Memory, kernel: Frame) returns (root: Frame)
    requires InOrder(m) && kernel in m.roots
    modifies m`used, m`tables, m`places, m`roots
    ensures InOrder(m) && Ledger(m) == old(Ledger(m)) && old(m.used) <= m.used
    ensures root == 0 ==> m.roots == old(m.roots) && NoneFree(m.used)
    ensures root != 0 ==> root !in old(m.roots) && m.roots == old(m.roots) + {root}
    ensures root != 0 ==> forall q: nat :: USER_PAGES <= q && Name(4, q) ==>
              Seen(m.tables, root, q) == Seen(old(m.tables), kernel, q)
  {
    root := m.AllocatePage();
    if root == 0 {
      return;
    }
    ghost var w := old(m.Woods());
    RootIsTable(w, kernel);
    NewRootKeepsOrder(w, root, kernel, m.pinned, m.may);
    FreshIsNoRoot(w, root);
    m.tables := m.tables[root := RootTable(m.tables[kernel])];
    m.roots := m.roots + {root};
    m.places := m.places[root := Place(root, 0, 0)];
    assert m.Woods() == AddRoot(w, root, kernel);
  }

  /** Memory in order with the accounts straight: what every operation starts from and keeps. */
  ghost predicate Valid(m: Memory)
    reads m
  {
    InOrder(m) && L.Accounts(Ledger(m))
  }

  /**
   Fork's clone: a new space that shares every private page of the parent. Visiting the parent's
   tables slot by slot does to the ledger exactly what sharing each mapped page once, in ascending
   order, does. Frame 0 means refusal, for want of a frame; `running` is false when the machine
   stopped on the way, for want of a frame or on a full count.
   */
  method CloneSharedSpace(m: Memory, parent: Frame, kernel: Frame) returns (child: Frame, running: bool)
    requires InOrder(m) && parent in m.roots && kernel in m.roots
    modifies m`used, m`tables, m`places, m`shares, m`may, m`roots
    ensures running && child == 0 ==>
              InOrder(m) && m.roots == old(m.roots) && Ledger(m) == old(Ledger(m)) && NoneFree(m.used)
    ensures running && child != 0 ==>
              && InOrder(m) && child !in old(m.roots) && m.roots == old(m.roots) + {child}
              && Ledger(m) == L.ShareUpTo(old(Ledger(m)), parent, child, USER_PAGES)
    ensures !running ==> Stuck(m, old(Ledger(m)), parent)
    ensures old(Valid(m)) ==> if running then Valid(m) else NoneFree(m.used) || CountFull(m.shares)
  {
    hide Ordered, LeavesOf, Node, NodesKept, L.ShareLeaf;
    ghost var k := Ledger(m);
    child := Init(m, kernel);
    if child == 0 {
      return 0, true;
    }
    running := true;
    RootTableThere(m, parent);
    UserHalf();
    for slot := 0 to 256
      invariant m.roots == old(m.roots) + {child} && child !in old(m.roots)
      invariant SharedBelow(m, k, parent, child, FirstPage(slot, 1))
      invariant Node(m.tables, parent, 0, 0) == Some(parent) && parent in m.tables
    {
      ghost var w := m.Woods();
      var entry := m.tables[parent][slot];
      if !entry.present {
        SkipSlot(m, k, parent, child, 0, 0, parent, slot);
      } else {
        OrderedIsSmall(m);
        NoLargeSlot(m.Woods(), parent, 0, 0, parent, slot);
        NextTable(m, parent, slot);
        running := Descend(m, entry.frame, 1, slot * 0x80_0000_0000, parent, child, k, slot);
        if !running {
          return;
        }
        RootTableThere(m, parent);
      }
    }
    if L.Accounts(k) {
      NewSpaceIsEmpty(k, old(m.Woods()), child);
      R.ForkEffect(k, parent, child, USER_PAGES);
    }
  }

  lemma NewSpaceIsEmpty(k: L.Kernel, w: Woods, child: Frame)
    requires k.leaves == LeavesOf(w.tables, w.roots) && child !in w.roots
    ensures R.Childless(k, child)
  {
    forall x | x in k.leaves
      ensures x.space != child
    {
      LeavesAt(w.tables, w.roots, x);
    }
  }

  lemma RootTableThere(m: Memory, root: Frame)
    requires InOrder(m) && root in m.roots
    ensures root in m.tables && Node(m.tables, root, 0, 0) == Some(root)
  {
    RootIsTable(m.Woods(), root);
  }

  lemma UserHalf()
    ensures FirstPage(0, 1) == 0 && FirstPage(256, 1) == USER_PAGES
  {
    assert FirstPage(256, 1) == FirstPage(256 * 512, 2) == FirstPage(256 * 512 * 512, 3);
    assert FirstPage(0, 1) == FirstPage(0, 2) == FirstPage(0, 3);
  }

  lemma NextTable(m: Memory, root: Frame, slot: nat)
    requires InOrder(m) && root in m.roots && slot < 256 && root in m.tables
    requires m.tables[root][slot].present && !m.tables[root][slot].large
    ensures Node(m.tables, root, 1, slot) == Some(m.tables[root][slot].frame)
    ensures Owned(USER_SLOTS, 1, slot) && m.tables[root][slot].frame in m.tables
    ensures slot * 0x80_0000_0000 == FirstPage(slot, 1) * PAGE_BYTES
  {
    assert Node(m.tables, root, 0, slot / 512) == Some(root);
    assert Name(1, slot);
    assert FirstPage(slot, 1) == FirstPage(slot * 512, 2) == FirstPage(slot * 512 * 512, 3);
    NodeIsTable(m, root, 1, slot);
  }

  // ------------------------------------------------------------------ one page of one space

  /** A data frame taken or given back leaves the trees alone. */
  lemma DataFrameMoves(w: Woods, taken: set<Frame>, pinned: set<Frame>, may: map<Key, bool>)
    requires Ordered(w, pinned, may) && (forall f :: f in taken ==> f < TOTAL_PAGES)
    requires w.places.Keys <= taken && pinned <= taken
    ensures Ordered(w.(taken := taken), pinned, may)
  {
    var w' := w.(taken := taken);
    forall g, j | g in w'.places && g in w'.tables && 0 <= j < 512
      ensures OpenSlot(w', g, j)
    {
      assert OpenSlot(w, g, j);
    }
    forall r, l: nat, p: nat | r in w.roots && l <= 3 && Name(l, p) && Node(w.tables, r, l, p).Some?
      ensures Placed(w', Node(w'.tables, r, l, p).value, Place(r, l, p))
    {
      assert Placed(w, Node(w.tables, r, l, p).value, Place(r, l, p));
    }
    forall f | f in w'.places
      ensures Recorded(w', f, w'.places[f])
    {
      assert Recorded(w, f, w.places[f]);
    }
  }

  /** The page at `x` can be written and reached, may be executed if it could before, and shows the same bytes. */
  ghost predicate Repaired(k: L.Kernel, k': L.Kernel, x: Key) {
    && x in k.leaves && x in k'.leaves && k.leaves[x].frame in k.pages && k'.leaves[x].frame in k'.pages
    && var e, e' := k.leaves[x], k'.leaves[x];
       && e'.present && e'.writable && e'.user && !e'.cow && !e'.large && e'.noExec == e.noExec
       && k'.pages[e'.frame] == k.pages[e.frame]
  }

  lemma ResolveRepairs(k: L.Kernel, x: Key, copy: Frame)
    requires L.Resolvable(k, x) && L.LeafSound(k, x, k.leaves[x]) && (L.NeedsCopy(k, x) ==> copy < TOTAL_PAGES)
    ensures Repaired(k, L.ResolveFault(k, x, copy), x)
  {
  }

  /**
   Repairs a write fault on a copy-on-write page: the last sharer gets its frame back, anyone else a
   copy. Answers only write faults on such pages. `running` is false when no frame was left for the
   copy; `copy` is the frame a copy went to.
   */
  method TryResolvePageFault(m: Memory, root: Frame, va: nat, wasWrite: bool)
    returns (resolved: bool, running: bool, copy: Frame)
    requires Valid(m) && root in m.roots && PageOf(va) < USER_PAGES
    modifies m`tables, m`shares, m`used, m`pages
    ensures resolved <==> wasWrite && L.Resolvable(old(Ledger(m)), Key(root, PageOf(va)))
    ensures !resolved ==> running && Ledger(m) == old(Ledger(m)) && Valid(m)
    ensures resolved && running ==> InOrder(m)
    ensures resolved && running ==>
              L.LeafSound(old(Ledger(m)), Key(root, PageOf(va)), old(Ledger(m)).leaves[Key(root, PageOf(va))])
    ensures resolved && running ==> Ledger(m) == L.ResolveFault(old(Ledger(m)), Key(root, PageOf(va)), copy)
    ensures resolved && running ==> Repaired(old(Ledger(m)), Ledger(m), Key(root, PageOf(va)))
    ensures resolved && running && L.NeedsCopy(old(Ledger(m)), Key(root, PageOf(va))) ==>
              copy !in old(m.used) && copy < TOTAL_PAGES
    ensures resolved && running ==> (Valid(m) <==> old(m.may)[Key(root, PageOf(va))])
    ensures !running ==> NoneFree(m.used)
  {
    hide Ordered, LeavesOf, Node, Prefix, PageOf, L.Balanced, L.FrameSound, Repaired;
    ghost var k, x := Ledger(m), Key(root, PageOf(va));
    ghost var w := m.Woods();
    resolved, running, copy := false, true, 0;
    if !wasWrite {
      return;
    }
    var spot := FindLeaf(m, root, va);
    if spot.None? {
      return;
    }
    var leaf := m.tables[spot.value.frame][spot.value.index];
    if !leaf.present || leaf.writable || !leaf.cow {
      return;
    }
    resolved := true;
    assert L.LeafSound(k, x, leaf);
    var company := m.ReleaseShare(leaf.frame);
    if company == 0 {
      L.ResolveKeepsAccounts(k, x, copy);
      ResolveRepairs(k, x, copy);
      StoreEntry(m, spot.value, L.PrivateEntry(leaf.frame, leaf), root, PageOf(va));
      return;
    }
    copy := CopyFrame(m, leaf.frame);
    if copy == 0 {
      running := false;
      return;
    }
    L.ResolveKeepsAccounts(k, x, copy);
    ResolveRepairs(k, x, copy);
    StoreEntry(m, spot.value, L.PrivateEntry(copy, leaf), root, PageOf(va));
  }

  /** Copies a data frame to a fresh one; frame 0 means that none was left. */
  method CopyFrame(m: Memory, f: Frame) returns (copy: Frame)
    requires InOrder(m) && f in m.pages
    modifies m`used, m`pages
    ensures copy == 0 ==> NoneFree(m.used) && m.used == old(m.used) && m.pages == old(m.pages)
    ensures copy != 0 ==> InOrder(m) && copy !in old(m.used) && copy < TOTAL_PAGES && copy !in old(Ledger(m)).live
    ensures copy != 0 ==> Ledger(m) == old(Ledger(m)).(pages := old(m.pages)[copy := old(m.pages)[f]],
                                                       live := old(Ledger(m)).live + {copy})
  {
    hide Ordered, LeavesOf;
    ghost var w := m.Woods();
    UsedHasZero(w, m.pinned, m.may);
    copy := m.AllocatePage();
    if copy != 0 {
      TakeDataFrame(w, m.pinned, m.may, copy);
      m.pages := m.pages[copy := m.pages[f]];
    }
  }

  lemma UsedHasZero(w: Woods, pinned: set<Frame>, may: map<Key, bool>)
    requires Ordered(w, pinned, may)
    ensures 0 in w.taken
  {
  }

  lemma TakeDataFrame(w: Woods, pinned: set<Frame>, may: map<Key, bool>, f: Frame)
    requires Ordered(w, pinned, may) && f !in w.taken && f < TOTAL_PAGES
    ensures Ordered(w.(taken := w.taken + {f}), pinned, may)
    ensures (w.taken + {f}) - w.places.Keys - pinned == (w.taken - w.places.Keys - pinned) + {f}
  {
    DataFrameMoves(w, w.taken + {f}, pinned, may);
  }

  lemma FreeDataFrame(w: Woods, pinned: set<Frame>, may: map<Key, bool>, f: Frame)
    requires Ordered(w, pinned, may) && f in w.taken - w.places.Keys - pinned
    ensures f != 0 && Ordered(w.(taken := w.taken - {f}), pinned, may)
    ensures (w.taken - {f}) - w.places.Keys - pinned == (w.taken - w.places.Keys - pinned) - {f}
  {
    DataFrameMoves(w, w.taken - {f}, pinned, may);
  }

  /** A data frame loses one mapping; the frame is freed when its count says nobody is left. */
  method ReleaseFrame(m: Memory, f: Frame)
    requires f < TOTAL_PAGES && f != 0
    modifies m`shares, m`used
    ensures m.shares == if old(m.Shares(f)) == 0 then old(m.shares) else old(m.shares)[f := old(m.Shares(f)) - 1]
    ensures m.used == if old(m.Shares(f)) <= 1 then old(m.used) - {f} else old(m.used)
  {
    var company := m.ReleaseShare(f);
    if company == 0 {
      m.FreePage(f);
    }
  }

  /** Unmaps one page, whose frame is still to be released, and forgets the register's word for it. */
  method TakeLeaf(m: Memory, root: Frame, va: nat) returns (was: Entry)
    requires InOrder(m) && root in m.roots && PageOf(va) < USER_PAGES
    modifies m`tables, m`may
    ensures InOrder(m)
    ensures was.present <==> Key(root, PageOf(va)) in old(Ledger(m)).leaves
    ensures was.present ==> was == old(Ledger(m)).leaves[Key(root, PageOf(va))]
    ensures Ledger(m) == old(Ledger(m)).(leaves := old(Ledger(m)).leaves - {Key(root, PageOf(va))},
                                         may := old(m.may) - {Key(root, PageOf(va))})
  {
    hide LeavesOf, Node, Prefix, PageOf, KernelHalf, SmallPages, Sound, Open;
    ghost var x, w := Key(root, PageOf(va)), m.Woods();
    LeavesAt(m.tables, m.roots, x);
    if Seen(w.tables, root, PageOf(va)).Some? {
      OnlySmallPages(w, root, PageOf(va));
      SightIsPresent(w.tables, root, 3, PageOf(va));
    }
    UserPageName(PageOf(va));
    was := UnmapPage(m, root, va);
    ghost var w' := m.Woods();
    LeavesBut(w.tables, w'.tables, w.roots, root, PageOf(va));
    UnmapKeepsOrder(w, w', m.pinned, m.may, x);
    m.may := m.may - {x};
  }

  /** Unmaps one page and releases its frame. */
  method ReclaimPage(m: Memory, root: Frame, va: nat)
    requires Valid(m) && root in m.roots && PageOf(va) < USER_PAGES
    modifies m`tables, m`shares, m`used, m`may
    ensures Valid(m) && Ledger(m) == L.Unmap(old(Ledger(m)), Key(root, PageOf(va)))
  {
    hide Ordered, LeavesOf, PageOf, L.Balanced, L.FrameSound;
    ghost var k, x := Ledger(m), Key(root, PageOf(va));
    L.UnmapKeepsAccounts(k, x);
    var was := TakeLeaf(m, root, va);
    if was.present {
      assert L.LeafSound(k, x, was);
      FreeDataFrame(m.Woods(), m.pinned, m.may, was.frame);
      ReleaseFrame(m, was.frame);
    } else {
      assert k.leaves - {x} == k.leaves && k.may - {x} == k.may;
    }
  }

  lemma OnlySmallPages(w: Woods, root: Frame, page: nat)
    requires SmallPages(w) && root in w.roots && page < USER_PAGES && Seen(w.tables, root, page).Some?
    ensures Seen(w.tables, root, page).value.level == 3
  {
  }

  lemma UnmapKeepsOrder(w: Woods, w': Woods, pinned: set<Frame>, may: map<Key, bool>, x: Key)
    requires Ordered(w, pinned, may) && Sound(w') && NodesKept(w, w')
    requires w' == w.(tables := w'.tables) && x.space in w.roots && x.page < USER_PAGES
    requires SameSightsBut(w.tables, w'.tables, w.roots, x.space, x.page) && Open(w')
    requires LeavesOf(w'.tables, w'.roots) == LeavesOf(w.tables, w.roots) - {x}
    requires Seen(w'.tables, x.space, x.page).None?
    ensures Ordered(w', pinned, may - {x})
  {
    hide Sound, Node, LeavesOf, Open;
    KernelHalfMapped(w, w', pinned);
    SmallPagesKept(w, w', x.space, x.page);
  }

  /**
   Backs a promised page with a frame of its own: zeroes, or bytes of a file (`read` is false when the
   backing refused). A page that is already mapped is refused; a refusal maps nothing and keeps no
   frame, though the content of the frame it tried is lost.
   */
  method FillPage(m: Memory, root: Frame, va: nat, content: Content, read: bool, writable: bool, executable: bool)
    returns (ok: bool, frame: Frame)
    requires Valid(m) && root in m.roots && PageOf(va) < USER_PAGES
    modifies m`used, m`tables, m`places, m`pages, m`may
    ensures Valid(m)
    ensures ok ==> Key(root, PageOf(va)) !in old(Ledger(m)).leaves && frame !in old(m.used) && frame < TOTAL_PAGES
    ensures ok ==> Ledger(m) == L.FillPage(old(Ledger(m)), Key(root, PageOf(va)), frame, content, writable, executable)
    ensures ok ==> read
    ensures !ok ==> Ledger(m) == old(Ledger(m)).(pages := m.pages)
    ensures !ok ==> Key(root, PageOf(va)) in old(Ledger(m)).leaves || !read || NoneFree(m.used + {frame})
    ensures !ok ==> forall f :: f in old(Ledger(m)).live ==>
              f in old(m.pages) && f in m.pages && m.pages[f] == old(m.pages)[f]
  {
    hide LeavesOf, Node, Prefix, PageOf, L.Balanced, L.FrameSound, KernelHalf, SmallPages, Sound, NodesKept, L.Accounts;
    ghost var k, x, w := Ledger(m), Key(root, PageOf(va)), m.Woods();
    LivePages(k);
    ok, frame := false, 0;
    var spot := FindLeaf(m, root, va);
    if spot.Some? {
      return;
    }
    UsedHasZero(w, m.pinned, m.may);
    frame := m.AllocatePage();
    if frame == 0 {
      return;
    }
    TakeDataFrame(w, m.pinned, m.may, frame);
    m.pages := m.pages[frame := content];
    assert Ledger(m) == k.(pages := m.pages, live := k.live + {frame});
    L.FillPageKeepsAccounts(k, x, frame, content, writable, executable);
    PagesElsewhere(k, frame, content);
    if read {
      var bits := UserLeafTerms(writable, executable);
      ok := MapUser(m, root, va, MakeTableEntry(frame, bits), writable);
    }
    if !ok {
      FreeDataFrame(m.Woods(), m.pinned, m.may, frame);
      m.FreePage(frame);
      assert Ledger(m).live == k.live;
    }
  }

  lemma LivePages(k: L.Kernel)
    requires L.Accounts(k)
    ensures forall f :: f in k.live ==> f in k.pages
  {
    forall f | f in k.live
      ensures f in k.pages
    {
      assert L.FrameSound(k, f);
      var mapped := L.Owners(k.leaves, f) + L.Sharers(k.leaves, f);
      assert mapped != {};
      var x :| x in mapped;
      assert L.LeafSound(k, x, k.leaves[x]);
    }
  }

  /** The content of a frame nobody maps is nobody's business. */
  lemma PagesElsewhere(k: L.Kernel, f: Frame, content: Content)
    requires L.Accounts(k) && f !in k.live
    ensures L.Accounts(k.(pages := k.pages[f := content]))
  {
    var k' := k.(pages := k.pages[f := content]);
    forall x | x in k'.leaves
      ensures L.LeafSound(k', x, k'.leaves[x])
    {
      assert L.LeafSound(k, x, k.leaves[x]);
    }
    forall g: Frame
      ensures L.FrameSound(k', g)
    {
      assert L.FrameSound(k, g);
    }
  }

  /** When no space maps anything, the only frames in use are the kernel's and the tables of the roots left. */
  lemma AllFramesBack(m: Memory)
    requires Valid(m) && Ledger(m).leaves == map[]
    ensures forall f :: f in m.used ==> f in m.pinned || (f in m.places && m.places[f].root in m.roots)
  {
    L.EmptyLedger(Ledger(m));
    forall f | f in m.used && f !in m.pinned
      ensures f in m.places && m.places[f].root in m.roots
    {
      assert f in m.places.Keys || f in Ledger(m).live;
      assert Recorded(m.Woods(), f, m.places[f]);
    }
  }
}
