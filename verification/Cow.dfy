/**
 Copy-on-write on real tables: marking a page shared, repairing a write fault, cloning and tearing
 down whole trees. Each method is proved to do to the ledger what CowLedger says.
 */
module Cow {
  import opened Wrappers
  import opened PageTree
  import opened Pmm
  import opened PageWalk
  import L = CowLedger

  // ------------------------------------------------------------------ the ledger in memory

  /** The leaf of a user page, when it is mapped by a 4 KiB leaf. */
  ghost function LeafAt(t: Tables, root: Frame, page: nat): Option<Entry> {
    match Seen(t, root, page)
    case Some(Sight(e, level)) => if level == 3 then Some(e) else None
    case None => None
  }

  ghost function LeavesOf(t: Tables, roots: set<Frame>): map<Key, Entry> {
    map r, p | r in roots && 0 <= p < USER_PAGES && LeafAt(t, r, p).Some? :: Key(r, p) := LeafAt(t, r, p).value
  }

  ghost function Ledger(m: Memory): L.Kernel
    reads m
  {
    L.Kernel(LeavesOf(m.tables, m.roots), m.may, m.shares, m.pages, m.used - m.places.Keys - m.pinned)
  }

  ghost predicate InOrder(m: Memory)
    reads m
  {
    Ordered(m.Woods(), m.pinned, m.may)
  }

  /**
   Memory is in order: the trees are a forest whose user halves are private, open, and hold no large page,
   the kernel half and the frames the kernel keeps are apart from user frames and owned tables.
   */
  ghost predicate Ordered(w: Woods, pinned: set<Frame>, may: map<Key, bool>) {
    && Sound(w) && w.limit == USER_SLOTS
    && 0 in pinned && pinned <= w.taken && pinned !! w.places.Keys
    && may.Keys == LeavesOf(w.tables, w.roots).Keys
    && SmallPages(w) && Open(w)
    && KernelHalf(w, pinned)
  }

  /** No large page in any user half. */
  ghost predicate SmallPages(w: Woods) {
    forall r, p: nat {:trigger Seen(w.tables, r, p)} ::
      r in w.roots && p < USER_PAGES && Seen(w.tables, r, p).Some? ==> Seen(w.tables, r, p).value.level == 3
  }

  /** Tables outside the user half are kept by the kernel. */
  ghost predicate KernelHalf(w: Woods, pinned: set<Frame>) {
    forall r, l: nat, p: nat {:trigger Node(w.tables, r, l, p)} ::
      r in w.roots && l <= 3 && Name(l, p) && !Owned(w.limit, l, p) && Node(w.tables, r, l, p).Some? ==>
        Node(w.tables, r, l, p).value in pinned
  }

  lemma KernelHalfKept(w: Woods, w': Woods, pinned: set<Frame>)
    requires KernelHalf(w, pinned) && NodesKept(w, w') && w.roots == w'.roots && w.limit == w'.limit && Forest(w')
    ensures KernelHalf(w', pinned)
  {
    forall r, l: nat, p: nat | r in w'.roots && l <= 3 && Name(l, p) && !Owned(w'.limit, l, p)
      && Node(w'.tables, r, l, p).Some?
      ensures Node(w'.tables, r, l, p).value in pinned
    {
      assert NodeKept(w, w', Node(w.tables, r, l, p), Node(w'.tables, r, l, p));
      assert Placed(w', Node(w'.tables, r, l, p).value, Place(r, l, p));
    }
  }

  lemma UserPageName(p: nat)
    ensures p < USER_PAGES <==> Owned(USER_SLOTS, 4, p)
    ensures p < USER_PAGES ==> Name(4, p)
  {
    PageNames(USER_SLOTS, p);
    PageNames(512, p);
  }

  lemma LeavesAt(t: Tables, roots: set<Frame>, x: Key)
    ensures x in LeavesOf(t, roots) <==> x.space in roots && x.page < USER_PAGES && LeafAt(t, x.space, x.page).Some?
    ensures x in LeavesOf(t, roots) ==> LeavesOf(t, roots)[x] == LeafAt(t, x.space, x.page).value
  {
    assert x == Key(x.space, x.page);
  }

  lemma LeafSame(t: Tables, t': Tables, roots: set<Frame>, root: Frame, page: nat, x: Key)
    requires SameSightsBut(t, t', roots, root, page) && x != Key(root, page)
    ensures x in LeavesOf(t', roots) <==> x in LeavesOf(t, roots)
    ensures x in LeavesOf(t', roots) ==> LeavesOf(t', roots)[x] == LeavesOf(t, roots)[x]
  {
    LeavesAt(t, roots, x);
    LeavesAt(t', roots, x);
    UserPageName(x.page);
    if x.space in roots && x.page < USER_PAGES {
      assert Seen(t', x.space, x.page) == Seen(t, x.space, x.page);
    }
  }

  lemma LeavesBut(t: Tables, t': Tables, roots: set<Frame>, root: Frame, page: nat)
    requires SameSightsBut(t, t', roots, root, page) && root in roots && page < USER_PAGES
    ensures LeavesOf(t', roots) ==
            if LeafAt(t', root, page).Some? then LeavesOf(t, roots)[Key(root, page) := LeafAt(t', root, page).value]
            else LeavesOf(t, roots) - {Key(root, page)}
  {
    LeavesAt(t', roots, Key(root, page));
    forall x | x != Key(root, page)
      ensures x in LeavesOf(t', roots) <==> x in LeavesOf(t, roots)
      ensures x in LeavesOf(t', roots) ==> LeavesOf(t', roots)[x] == LeavesOf(t, roots)[x]
    {
      LeafSame(t, t', roots, root, page, x);
    }
  }

  lemma LeavesSame(t: Tables, t': Tables, roots: set<Frame>)
    requires SameSights(t, t', roots)
    ensures LeavesOf(t', roots) == LeavesOf(t, roots)
  {
    forall x
      ensures x in LeavesOf(t', roots) <==> x in LeavesOf(t, roots)
      ensures x in LeavesOf(t', roots) ==> LeavesOf(t', roots)[x] == LeavesOf(t, roots)[x]
    {
      LeavesAt(t, roots, x);
      LeavesAt(t', roots, x);
      UserPageName(x.page);
      if x.space in roots && x.page < USER_PAGES {
        assert Seen(t', x.space, x.page) == Seen(t, x.space, x.page);
      }
    }
  }

  // ------------------------------------------------------------------ one page

  /** The slot a walk for a user page found. */
  ghost predicate Found(m: Memory, spot: Spot, root: Frame, page: nat)
    reads m
  {
    && spot.At? && spot.level == 3 && spot.index == Index(page, 3) && spot.frame in m.tables
    && Node(m.tables, root, 3, Prefix(page, 3)) == Some(spot.frame)
  }

  /** Rewrites the leaf a walk found. */
  method StoreEntry(m: Memory, spot: Spot, e: Entry, ghost root: Frame, ghost page: nat)
    requires InOrder(m) && root in m.roots && page < USER_PAGES && Found(m, spot, root, page)
    requires Key(root, page) in Ledger(m).leaves && e.present
    modifies m`tables
    ensures InOrder(m) && NodesKept(old(m.Woods()), m.Woods())
    ensures Ledger(m) == old(Ledger(m)).(leaves := old(Ledger(m)).leaves[Key(root, page) := e])
  {
    hide LeavesOf, Node, Prefix, KernelHalf, SmallPages, NodesKept, SameSightsBut, Open;
    UserPageName(page);
    ghost var w, x := m.Woods(), Key(root, page);
    OrderedIsSound(m);
    PromisedLeaf(m, x);
    WriteLeaf(w, root, page, spot.frame, e);
    m.tables := m.tables[spot.frame := m.tables[spot.frame][spot.index := e]];
    MapKeepsOrder(w, m.Woods(), m.pinned, m.may, root, page, e, m.may[x]);
    assert m.may[x := m.may[x]] == m.may;
  }

  lemma OrderedIsSound(m: Memory)
    requires InOrder(m)
    ensures Sound(m.Woods()) && m.limit == USER_SLOTS
  {
  }

  /** The processor grants a mapped user page exactly what its leaf grants: every pointer above is open. */
  lemma LeafIsTheLaw(m: Memory, root: Frame, page: nat)
    requires InOrder(m) && Key(root, page) in Ledger(m).leaves
    ensures OpenPath(m.tables, root, page)
  {
    hide Open, OpenPath;
    LeavesAt(m.tables, m.roots, Key(root, page));
    UserPageName(page);
    LeafDecides(m.Woods(), root, page);
  }

  /** Walks to the leaf of a user page; None when the page is not mapped. */
  method FindLeaf(m: Memory, root: Frame, va: nat) returns (spot: Option<Spot>)
    requires InOrder(m) && root in m.roots && PageOf(va) < USER_PAGES
    ensures spot.Some? <==> Key(root, PageOf(va)) in Ledger(m).leaves
    ensures spot.Some? ==> Found(m, spot.value, root, PageOf(va))
    ensures spot.Some? ==> m.tables[spot.value.frame][spot.value.index] == Ledger(m).leaves[Key(root, PageOf(va))]
  {
    var at := FindSlot(m, root, va);
    LeavesAt(m.tables, m.roots, Key(root, PageOf(va)));
    if at.Off? || at.level != 3 {
      return None;
    }
    if !m.tables[at.frame][at.index].present {
      return None;
    }
    return Some(at);
  }

  /**
   Makes one mapped page copy-on-write and counts it, unless it already is. Reports whether the page
   was mapped; `running` is false when the machine stopped on a full count.
   */
  method MarkPageShared(m: Memory, root: Frame, va: nat) returns (found: bool, running: bool)
    requires InOrder(m) && root in m.roots && PageOf(va) < USER_PAGES
    modifies m`tables, m`shares
    ensures found <==> Key(root, PageOf(va)) in old(Ledger(m)).leaves
    ensures !found ==> running && m.tables == old(m.tables) && m.shares == old(m.shares)
    ensures found && running ==> InOrder(m) && NodesKept(old(m.Woods()), m.Woods())
    ensures found && running ==> Ledger(m) == L.MarkPageShared(old(Ledger(m)), Key(root, PageOf(va)))
    ensures !running ==> m.tables == old(m.tables) && m.shares == old(m.shares)
    ensures !running ==> old(Ledger(m)).leaves[Key(root, PageOf(va))].frame >= TOTAL_PAGES || CountFull(m.shares)
  {
    hide Ordered, LeavesOf, Node, Prefix, PageOf;
    ghost var k, x := Ledger(m), Key(root, PageOf(va));
    running := true;
    var spot := FindLeaf(m, root, va);
    if spot.None? {
      return false, true;
    }
    found := true;
    var leaf := m.tables[spot.value.frame][spot.value.index];
    if leaf.cow && !leaf.writable {
      return;
    }
    running := m.RetainFrame(leaf.frame);
    if running {
      ghost var counted := k.(shares := k.shares[leaf.frame := L.Count(k, leaf.frame) + 1]);
      assert Ledger(m) == counted;
      StoreEntry(m, spot.value, L.SharedEntry(leaf), root, PageOf(va));
      assert Ledger(m) == counted.(leaves := counted.leaves[x := L.SharedEntry(leaf)]);
    }
  }

  /** Adding tables and setting one user leaf keeps memory in order. */
  lemma MapKeepsOrder(w: Woods, w': Woods, pinned: set<Frame>, may: map<Key, bool>, root: Frame, page: nat, e: Entry,
                      promise: bool)
    requires Ordered(w, pinned, may) && Sound(w') && root in w.roots && page < USER_PAGES
    requires w'.roots == w.roots && w'.limit == w.limit && NodesKept(w, w')
    requires w.taken <= w'.taken && w.places.Keys <= w'.places.Keys
    requires w'.taken - w.taken == w'.places.Keys - w.places.Keys
    requires SameSightsBut(w.tables, w'.tables, w.roots, root, page) && Open(w')
    requires Seen(w'.tables, root, page) == Some(Sight(e, 3))
    ensures LeavesOf(w'.tables, w'.roots) == LeavesOf(w.tables, w.roots)[Key(root, page) := e]
    ensures Ordered(w', pinned, may[Key(root, page) := promise])
    ensures w'.taken - w'.places.Keys - pinned == w.taken - w.places.Keys - pinned
  {
    hide Sound, Node, Open;
    KernelHalfMapped(w, w', pinned);
    LeavesBut(w.tables, w'.tables, w.roots, root, page);
    SmallPagesKept(w, w', root, page);
    TakenGrew(w, w', pinned);
  }

  lemma KernelHalfMapped(w: Woods, w': Woods, pinned: set<Frame>)
    requires KernelHalf(w, pinned) && Sound(w') && NodesKept(w, w') && w.roots == w'.roots && w.limit == w'.limit
    ensures KernelHalf(w', pinned)
  {
    KernelHalfKept(w, w', pinned);
  }

  lemma SmallPagesKept(w: Woods, w': Woods, root: Frame, page: nat)
    requires SmallPages(w) && w'.roots == w.roots && page < USER_PAGES
    requires SameSightsBut(w.tables, w'.tables, w.roots, root, page)
    requires Seen(w'.tables, root, page).Some? ==> Seen(w'.tables, root, page).value.level == 3
    ensures SmallPages(w')
  {
    forall r, p: nat | r in w'.roots && p < USER_PAGES && Seen(w'.tables, r, p).Some?
      ensures Seen(w'.tables, r, p).value.level == 3
    {
      UserPageName(p);
      if !(r == root && p == page) {
        assert Seen(w'.tables, r, p) == Seen(w.tables, r, p);
      }
    }
  }

  lemma TakenGrew(w: Woods, w': Woods, pinned: set<Frame>)
    requires pinned <= w.taken && pinned !! w.places.Keys
    requires w.taken <= w'.taken && w.places.Keys <= w'.places.Keys
    requires w'.taken - w.taken == w'.places.Keys - w.places.Keys
    ensures w'.taken - w'.places.Keys - pinned == w.taken - w.places.Keys - pinned
    ensures pinned <= w'.taken && pinned !! w'.places.Keys
  {
    forall f
      ensures f in w'.taken - w'.places.Keys - pinned <==> f in w.taken - w.places.Keys - pinned
    {
      assert f in w'.taken - w.taken <==> f in w'.places.Keys - w.places.Keys;
    }
    forall f | f in pinned
      ensures f !in w'.places.Keys
    {
      assert f in w'.taken - w.taken <==> f in w'.places.Keys - w.places.Keys;
    }
  }

  /**
   Maps a user page to a finished leaf, under the register's word `promise`. A refusal, on an empty
   supply of frames, leaves the ledger as it was.
   */
  method MapUser(m: Memory, root: Frame, va: nat, leaf: Entry, ghost promise: bool) returns (ok: bool)
    requires InOrder(m) && root in m.roots && PageOf(va) < USER_PAGES && leaf.present
    modifies m`used, m`tables, m`places, m`may
    ensures InOrder(m) && NodesKept(old(m.Woods()), m.Woods())
    ensures ok ==> Ledger(m) == old(Ledger(m)).(leaves := old(Ledger(m)).leaves[Key(root, PageOf(va)) := leaf],
                                                may := old(m.may)[Key(root, PageOf(va)) := promise])
    ensures !ok ==> Ledger(m) == old(Ledger(m)) && NoneFree(m.used)
    ensures old(m.used) <= m.used && old(m.places).Keys <= m.places.Keys
  {
    ghost var w := m.Woods();
    UserPageName(PageOf(va));
    ok := MapUserPage(m, root, va, leaf);
    ghost var w' := m.Woods();
    if ok {
      MapKeepsOrder(w, w', m.pinned, m.may, root, PageOf(va), leaf, promise);
      m.may := m.may[Key(root, PageOf(va)) := promise];
    } else {
      RefusalKeepsOrder(w, w', m.pinned, m.may);
      assert Seen(w'.tables, root, PageOf(va)).Some? ==> Seen(w'.tables, root, PageOf(va)).value.level == 3;
    }
  }

  lemma RefusalKeepsOrder(w: Woods, w': Woods, pinned: set<Frame>, may: map<Key, bool>)
    requires Ordered(w, pinned, may) && Sound(w')
    requires w'.roots == w.roots && w'.limit == w.limit && NodesKept(w, w')
    requires w.taken <= w'.taken && w.places.Keys <= w'.places.Keys
    requires w'.taken - w.taken == w'.places.Keys - w.places.Keys
    requires SameSights(w.tables, w'.tables, w.roots) && Open(w')
    ensures LeavesOf(w'.tables, w'.roots) == LeavesOf(w.tables, w.roots)
    ensures Ordered(w', pinned, may)
    ensures w'.taken - w'.places.Keys - pinned == w.taken - w.places.Keys - pinned
  {
    hide Sound, Node, Open;
    KernelHalfMapped(w, w', pinned);
    LeavesSame(w.tables, w'.tables, w.roots);
    TakenGrew(w, w', pinned);
    forall r, p: nat | r in w'.roots && p < USER_PAGES && Seen(w'.tables, r, p).Some?
      ensures Seen(w'.tables, r, p).value.level == 3
    {
      UserPageName(p);
      assert Seen(w'.tables, r, p) == Seen(w.tables, r, p);
    }
  }

  /**
   Fork's work on one present leaf of the parent. `running` is false when the machine stopped: no
   frame was left for a table of the child, or the page's count was full (or its frame is none).
   */
  method ShareLeaf(m: Memory, slot: Entry, va: nat, parent: Frame, child: Frame) returns (running: bool)
    requires InOrder(m) && parent in m.roots && child in m.roots && parent != child && PageOf(va) < USER_PAGES
    requires Key(parent, PageOf(va)) in Ledger(m).leaves && slot == Ledger(m).leaves[Key(parent, PageOf(va))]
    modifies m`used, m`tables, m`places, m`shares, m`may
    ensures running ==> InOrder(m) && NodesKept(old(m.Woods()), m.Woods())
    ensures running ==> old(m.used) <= m.used && old(m.places).Keys <= m.places.Keys
    ensures running ==> Ledger(m) == L.ShareLeaf(old(Ledger(m)), parent, child, PageOf(va))
    ensures !running ==> NoneFree(m.used) || CountFull(m.shares) || slot.frame >= TOTAL_PAGES
  {
    hide Ordered, LeavesOf, Node, Prefix, PageOf, NodesKept;
    ghost var p, c := Key(parent, PageOf(va)), Key(child, PageOf(va));
    ghost var w0, k0 := m.Woods(), Ledger(m);
    PromisedLeaf(m, p);
    running := MapUser(m, child, va, L.ChildEntry(slot), m.may[p]);
    if !running {
      return;
    }
    ghost var w1, k1 := m.Woods(), Ledger(m);
    var found;
    found, running := MarkPageShared(m, parent, va);
    assert found;
    if !running {
      return;
    }
    ghost var w2 := m.Woods();
    assert c in Ledger(m).leaves;
    found, running := MarkPageShared(m, child, va);
    assert found;
    if !running {
      return;
    }
    NodesKeptTransitive(w0, w1, w2);
    NodesKeptTransitive(w0, w2, m.Woods());
  }

  lemma PromisedLeaf(m: Memory, x: Key)
    requires InOrder(m) && x in Ledger(m).leaves
    ensures x in m.may
  {
  }

  // ------------------------------------------------------------------ cloning a tree

  /** Bytes one slot of a level covers. */
  function SlotBytes(level: nat): nat
    requires 1 <= level <= 3
  {
    if level == 1 then 0x4000_0000 else if level == 2 then 0x20_0000 else 0x1000
  }

  lemma SlotBase(prefix: nat, index: nat, level: nat)
    requires 1 <= level <= 3 && index < 512
    ensures FirstPage(prefix, level) * PAGE_BYTES + index * SlotBytes(level) ==
              FirstPage(prefix * 512 + index, level + 1) * PAGE_BYTES
    ensures FirstPage(prefix * 512, level + 1) == FirstPage(prefix, level)
    ensures FirstPage(prefix * 512 + 512, level + 1) == FirstPage(prefix + 1, level)
  {
    assert FirstPage(prefix * 512 + index, 4) == prefix * 512 + index;
    if level <= 2 {
      assert FirstPage(prefix * 512 + index, 3) == FirstPage((prefix * 512 + index) * 512, 4);
    }
    if level == 1 {
      assert FirstPage(prefix * 512 + index, 2) == FirstPage((prefix * 512 + index) * 512, 3);
    }
  }

  /** A slot of a page table is the leaf of its page. */
  lemma SlotIsLeaf(w: Woods, root: Frame, page: nat, table: Frame)
    requires table in w.tables && root in w.roots && page < USER_PAGES
    requires Node(w.tables, root, 3, page / 512) == Some(table)
    ensures LeafAt(w.tables, root, page) ==
            if w.tables[table][page % 512].present then Some(w.tables[table][page % 512]) else None
    ensures Key(root, page) in LeavesOf(w.tables, w.roots) <==> w.tables[table][page % 512].present
    ensures Key(root, page) in LeavesOf(w.tables, w.roots) ==>
              LeavesOf(w.tables, w.roots)[Key(root, page)] == w.tables[table][page % 512]
  {
    assert Prefix(page, 3) == page / 512 && Index(page, 3) == page % 512;
    SeenStops(w.tables, root, 3, page);
    LeavesAt(w.tables, w.roots, Key(root, page));
  }

  /** Nothing is mapped below an empty slot. */
  lemma EmptySlotMapsNothing(w: Woods, root: Frame, level: nat, prefix: nat, table: Frame, index: nat, page: nat)
    requires 0 <= level <= 3 && index < 512 && table in w.tables
    requires Node(w.tables, root, level, prefix) == Some(table) && !w.tables[table][index].present
    requires FirstPage(prefix * 512 + index, level + 1) <= page < FirstPage(prefix * 512 + index + 1, level + 1)
    ensures Key(root, page) !in LeavesOf(w.tables, w.roots)
  {
    FirstPageOrder(page, prefix * 512 + index, level + 1);
    FirstPageOrder(page, prefix * 512 + index + 1, level + 1);
    assert Prefix(page, level + 1) == prefix * 512 + index;
    assert Prefix(page, level) == prefix && Index(page, level) == index;
    SeenStops(w.tables, root, level, page);
    LeavesAt(w.tables, w.roots, Key(root, page));
  }

  /** What clone and its walk keep between two moments. */
  ghost predicate CloneStep(w: Woods, w': Woods) {
    && w'.roots == w.roots && w'.limit == w.limit && NodesKept(w, w')
    && w.taken <= w'.taken && w.places.Keys <= w'.places.Keys
  }

  lemma CloneStepReflexive(w: Woods)
    ensures CloneStep(w, w)
  {
  }

  lemma CloneStepTransitive(a: Woods, b: Woods, c: Woods)
    requires CloneStep(a, b) && CloneStep(b, c)
    ensures CloneStep(a, c)
  {
    NodesKeptTransitive(a, b, c);
  }

  lemma CloneStepKeepsNode(w: Woods, w': Woods, root: Frame, level: nat, prefix: nat)
    requires CloneStep(w, w') && root in w.roots && level <= 3 && Name(level, prefix)
    requires Node(w.tables, root, level, prefix).Some?
    ensures Node(w'.tables, root, level, prefix) == Node(w.tables, root, level, prefix)
  {
    assert NodeKept(w, w', Node(w.tables, root, level, prefix), Node(w'.tables, root, level, prefix));
  }

  /** Where the walk stands: everything below page `n` of the parent has been shared, and no more. */
  ghost predicate SharedBelow(m: Memory, k: L.Kernel, parent: Frame, child: Frame, n: nat)
    reads m
  {
    && InOrder(m) && parent in m.roots && child in m.roots && parent != child
    && Ledger(m) == L.ShareUpTo(k, parent, child, n)
  }

  lemma SkipSlot(m: Memory, k: L.Kernel, parent: Frame, child: Frame, level: nat, prefix: nat, table: Frame, index: nat)
    requires level <= 3 && index < 512 && table in m.tables
    requires SharedBelow(m, k, parent, child, FirstPage(prefix * 512 + index, level + 1))
    requires Node(m.tables, parent, level, prefix) == Some(table) && !m.tables[table][index].present
    ensures SharedBelow(m, k, parent, child, FirstPage(prefix * 512 + index + 1, level + 1))
  {
    hide Ordered, LeavesOf, L.ShareUpTo, FirstPage, Node;
    var a, b := FirstPage(prefix * 512 + index, level + 1), FirstPage(prefix * 512 + index + 1, level + 1);
    FirstPageMonotonic(prefix * 512 + index, level + 1);
    forall p: nat | a <= p < b
      ensures Key(parent, p) !in L.ShareUpTo(k, parent, child, a).leaves
    {
      EmptySlotMapsNothing(m.Woods(), parent, level, prefix, table, index, p);
    }
    L.ShareSkips(k, parent, child, a, b);
  }

  lemma FirstPageMonotonic(q: nat, level: nat)
    requires level <= 4
    ensures FirstPage(q, level) <= FirstPage(q + 1, level)
  {
    FirstPageOrder(FirstPage(q + 1, level), q + 1, level);
    FirstPageOrder(FirstPage(q + 1, level), q, level);
  }

  /** What stops a clone: no frame left for a table, a full count, or a leaf on no frame at all. */
  ghost predicate Stuck(m: Memory, k: L.Kernel, parent: Frame)
    reads m
  {
    || NoneFree(m.used) || CountFull(m.shares)
    || exists p :: Key(parent, p) in k.leaves && k.leaves[Key(parent, p)].frame >= TOTAL_PAGES
  }

  /** The user half has no large page, so a present slot above the page tables holds a table. */
  lemma NoLargeSlot(w: Woods, root: Frame, level: nat, prefix: nat, table: Frame, index: nat)
    requires SmallPages(w) && root in w.roots && level <= 2 && index < 512 && table in w.tables
    requires Owned(USER_SLOTS, level + 1, prefix * 512 + index)
    requires Node(w.tables, root, level, prefix) == Some(table) && w.tables[table][index].present
    ensures !w.tables[table][index].large
  {
    var q := prefix * 512 + index;
    var page := FirstPage(q, level + 1);
    FirstPageOrder(page, q, level + 1);
    FirstPageOrder(page, q + 1, level + 1);
    FirstPageMonotonic(q, level + 1);
    assert Prefix(page, level + 1) == q;
    assert Prefix(page, level) == prefix && Index(page, level) == index;
    PrefixOwnedBack(USER_SLOTS, page, level + 1);
    UserPageName(page);
    if w.tables[table][index].large {
      SeenStops(w.tables, root, level, page);
      assert false;
    }
  }

  lemma OrderedIsSmall(m: Memory)
    requires InOrder(m)
    ensures SmallPages(m.Woods())
  {
  }

  lemma PrefixOwnedBack(limit: nat, page: nat, level: nat)
    requires level <= 4
    ensures level > 0 ==> (Owned(limit, level, Prefix(page, level)) <==> Owned(limit, 4, page))
    decreases 4 - level
  {
    if level == 4 {
    } else {
      PrefixOwnedBack(limit, page, level + 1);
    }
  }

  /** Visits one table of the parent, sharing every leaf below it in ascending order. */
  method Descend(m: Memory, table: Frame, level: nat, base: nat, parent: Frame, child: Frame, ghost k: L.Kernel,
                 ghost prefix: nat)
    returns (running: bool)
    requires 1 <= level <= 3 && Owned(USER_SLOTS, level, prefix) && base == FirstPage(prefix, level) * PAGE_BYTES
    requires SharedBelow(m, k, parent, child, FirstPage(prefix, level))
    requires Node(m.tables, parent, level, prefix) == Some(table) && table in m.tables
    modifies m`used, m`tables, m`places, m`shares, m`may
    ensures running ==> CloneStep(old(m.Woods()), m.Woods())
    ensures running ==> SharedBelow(m, k, parent, child, FirstPage(prefix + 1, level))
    ensures !running ==> Stuck(m, k, parent)
    decreases 3 - level, 1
  {
    hide Ordered, LeavesOf, Node, FirstPage, NodesKept, Owned, L.ShareUpTo, InOrder, Ledger, Name;
    OwnedIsName(USER_SLOTS, level, prefix);
    SlotBase(prefix, 0, level);
    CloneStepReflexive(m.Woods());
    running := true;
    for index := 0 to 512
      invariant CloneStep(old(m.Woods()), m.Woods())
      invariant SharedBelow(m, k, parent, child, FirstPage(prefix * 512 + index, level + 1))
      invariant Node(m.tables, parent, level, prefix) == Some(table) && table in m.tables
    {
      ghost var w := m.Woods();
      var slot := m.tables[table][index];
      if slot.present {
        SlotBase(prefix, index, level);
        running := ShareEntry(m, slot, level, base + index * SlotBytes(level), parent, child, k, prefix, table, index);
        if !running {
          return;
        }
        CloneStepKeepsNode(w, m.Woods(), parent, level, prefix);
        CloneStepTransitive(old(m.Woods()), w, m.Woods());
        NodeIsTable(m, parent, level, prefix);
      } else {
        SkipSlot(m, k, parent, child, level, prefix, table, index);
      }
    }
    SlotBase(prefix, 0, level);
  }

  lemma NodeIsTable(m: Memory, root: Frame, level: nat, prefix: nat)
    requires InOrder(m) && root in m.roots && level <= 3 && Name(level, prefix)
    requires Node(m.tables, root, level, prefix).Some?
    ensures Node(m.tables, root, level, prefix).value in m.tables
  {
  }

  /** One present slot: a leaf is shared, a table is visited. */
  method ShareEntry(m: Memory, slot: Entry, level: nat, spot: nat, parent: Frame, child: Frame,
                    ghost k: L.Kernel, ghost prefix: nat, ghost table: Frame, ghost index: nat)
    returns (running: bool)
    requires 1 <= level <= 3 && Owned(USER_SLOTS, level, prefix) && index < 512
    requires spot == FirstPage(prefix * 512 + index, level + 1) * PAGE_BYTES
    requires SharedBelow(m, k, parent, child, FirstPage(prefix * 512 + index, level + 1))
    requires Node(m.tables, parent, level, prefix) == Some(table) && table in m.tables
    requires slot == m.tables[table][index] && slot.present
    modifies m`used, m`tables, m`places, m`shares, m`may
    ensures running ==> CloneStep(old(m.Woods()), m.Woods())
    ensures running ==> SharedBelow(m, k, parent, child, FirstPage(prefix * 512 + index + 1, level + 1))
    ensures !running ==> Stuck(m, k, parent)
    decreases 3 - level, 0
  {
    hide Ordered, LeavesOf, NodesKept, L.ShareUpTo, L.ShareLeaf, Owned;
    OwnedSlot(prefix, index, level);
    if level == 3 {
      ghost var page := prefix * 512 + index;
      LeafPage(page, spot);
      SlotIsLeaf(m.Woods(), parent, page, table);
      PromisedLeaf(m, Key(parent, page));
      ShareUnfold(k, parent, child, page);
      L.ShareKeepsParentAhead(k, parent, child, page);
      running := ShareLeaf(m, slot, spot, parent, child);
      return;
    }
    OrderedIsSmall(m);
    NoLargeSlot(m.Woods(), parent, level, prefix, table, index);
    assert Node(m.tables, parent, level + 1, prefix * 512 + index) == Some(slot.frame);
    OwnedIsName(USER_SLOTS, level + 1, prefix * 512 + index);
    NodeIsTable(m, parent, level + 1, prefix * 512 + index);
    running := Descend(m, slot.frame, level + 1, spot, parent, child, k, prefix * 512 + index);
  }

  lemma LeafPage(page: nat, spot: nat)
    requires Owned(USER_SLOTS, 4, page) && spot == FirstPage(page, 4) * PAGE_BYTES
    ensures page < USER_PAGES && PageOf(spot) == page && FirstPage(page, 4) == page
    ensures FirstPage(page + 1, 4) == page + 1
  {
    UserPageName(page);
  }

  lemma ShareUnfold(k: L.Kernel, parent: Frame, child: Frame, page: nat)
    requires Key(parent, page) in L.ShareUpTo(k, parent, child, page).leaves
    requires Key(parent, page) in L.ShareUpTo(k, parent, child, page).may
    ensures L.ShareUpTo(k, parent, child, page + 1) ==
              L.ShareLeaf(L.ShareUpTo(k, parent, child, page), parent, child, page)
  {
  }

  lemma OwnedSlot(prefix: nat, index: nat, level: nat)
    requires 1 <= level <= 3 && Owned(USER_SLOTS, level, prefix) && index < 512
    ensures Owned(USER_SLOTS, level + 1, prefix * 512 + index)
  {
  }
}
