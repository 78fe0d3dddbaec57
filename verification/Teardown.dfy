/**
 Tearing an address space down: every leaf is released, every table and the root given back, and the
 ledger ends up as if each page of the space had been unmapped once, in ascending order.
 */
module Teardown {
  import opened Wrappers
  import opened PageTree
  import opened Pmm
  import opened PageWalk
  import opened Cow
  import opened Spaces
  import L = CowLedger

  /** Where the teardown stands: the pages of `root` below `n` are released, and no more. */
  ghost predicate Torn(m: Memory, k: L.Kernel, root: Frame, n: nat)
    reads m
  {
    && m.shares == L.UnmapUpTo(k, root, n).shares
    && m.used - m.places.Keys - m.pinned == L.UnmapUpTo(k, root, n).live
    && m.pinned <= m.used
  }

  /** The tree being torn down, as it stood at the start. Teardown writes no table. */
  ghost predicate Standing(m: Memory, k: L.Kernel, root: Frame)
    reads m
  {
    && L.Accounts(k) && root in m.roots && SmallPages(m.Woods())
    && 0 in m.pinned && m.pinned !! m.places.Keys
    && k.leaves == LeavesOf(m.tables, m.roots)
    && forall l: nat, p: nat {:trigger Node(m.tables, root, l, p)} ::
         l <= 3 && Owned(USER_SLOTS, l, p) && Node(m.tables, root, l, p).Some? ==>
           OwnTable(m.tables, m.places, Node(m.tables, root, l, p).value, Place(root, l, p))
  }

  ghost predicate OwnTable(t: Tables, places: map<Frame, Place>, f: Frame, at: Place) {
    f in t && f in places && places[f] == at
  }

  /** Only data frames and tables of this root were given back. */
  ghost predicate OnlyOwnFreed(places: map<Frame, Place>, live: set<Frame>, root: Frame, before: set<Frame>,
                               after: set<Frame>) {
    && after <= before
    && forall f :: f in before && f !in after ==> f in live || (f in places && places[f].root == root)
  }

  /** Every table at or below (level, prefix) has been given back. */
  ghost predicate Cleared(t: Tables, root: Frame, used: set<Frame>, level: nat, prefix: nat) {
    forall l: nat, p: nat {:trigger Node(t, root, l, p)} ::
      l <= 3 && Under(level, prefix, l, p) && Node(t, root, l, p).Some? ==> Node(t, root, l, p).value !in used
  }

  /** Every table strictly below (level, prefix) has been given back. */
  ghost predicate ClearedBelow(t: Tables, root: Frame, used: set<Frame>, level: nat, prefix: nat) {
    forall l: nat, p: nat {:trigger Node(t, root, l, p)} ::
      level < l <= 3 && Under(level, prefix, l, p) && Node(t, root, l, p).Some? ==> Node(t, root, l, p).value !in used
  }

  ghost predicate ClearedSlot(t: Tables, root: Frame, used: set<Frame>, level: nat, prefix: nat, j: nat) {
    Cleared(t, root, used, level + 1, prefix * 512 + j)
  }

  lemma {:induction false} NoNodeUnder(t: Tables, root: Frame, top: nat, q: nat, l: nat, p: nat)
    requires Under(top, q, l, p) && Node(t, root, top, q).None?
    ensures Node(t, root, l, p).None?
    decreases l
  {
    if l <= top {
    } else {
      NoNodeUnder(t, root, top, q, l - 1, p / 512);
    }
  }

  lemma {:induction false} UnderChild(level: nat, prefix: nat, l: nat, p: nat) returns (j: nat)
    requires Under(level, prefix, l, p) && l > level
    ensures j < 512 && Under(level + 1, prefix * 512 + j, l, p)
    decreases l
  {
    if l == level + 1 {
      j := p % 512;
    } else {
      j := UnderChild(level, prefix, l - 1, p / 512);
    }
  }

  lemma AllChildrenCleared(t: Tables, root: Frame, used: set<Frame>, level: nat, prefix: nat)
    requires forall j: nat :: j < 512 ==> ClearedSlot(t, root, used, level, prefix, j)
    ensures ClearedBelow(t, root, used, level, prefix)
  {
    forall l: nat, p: nat | level < l <= 3 && Under(level, prefix, l, p) && Node(t, root, l, p).Some?
      ensures Node(t, root, l, p).value !in used
    {
      var j := UnderChild(level, prefix, l, p);
      assert ClearedSlot(t, root, used, level, prefix, j);
    }
  }

  lemma EmptySlotCleared(t: Tables, root: Frame, used: set<Frame>, level: nat, prefix: nat, table: Frame, index: nat)
    requires level <= 3 && index < 512 && table in t
    requires Node(t, root, level, prefix) == Some(table) && !t[table][index].present
    ensures ClearedSlot(t, root, used, level, prefix, index)
  {
    assert Node(t, root, level + 1, prefix * 512 + index).None?;
    forall l: nat, p: nat | l <= 3 && Under(level + 1, prefix * 512 + index, l, p)
      ensures Node(t, root, l, p).None?
    {
      NoNodeUnder(t, root, level + 1, prefix * 512 + index, l, p);
    }
  }

  lemma SkipEmpty(m: Memory, k: L.Kernel, root: Frame, level: nat, prefix: nat, table: Frame, index: nat)
    requires level <= 3 && index < 512 && table in m.tables && Standing(m, k, root)
    requires Torn(m, k, root, FirstPage(prefix * 512 + index, level + 1))
    requires Node(m.tables, root, level, prefix) == Some(table) && !m.tables[table][index].present
    ensures Torn(m, k, root, FirstPage(prefix * 512 + index + 1, level + 1))
  {
    hide LeavesOf, L.Accounts;
    var a, b := FirstPage(prefix * 512 + index, level + 1), FirstPage(prefix * 512 + index + 1, level + 1);
    FirstPageMonotonic(prefix * 512 + index, level + 1);
    L.UnmapUpToEffect(k, root, a);
    forall p: nat | a <= p < b
      ensures Key(root, p) !in L.UnmapUpTo(k, root, a).leaves
    {
      EmptySlotMapsNothing(m.Woods(), root, level, prefix, table, index, p);
    }
    L.UnmapSkips(k, root, a, b);
  }

  /** The next leaf to release is still in the ledger, on a frame in use. */
  lemma NextLeaf(m: Memory, k: L.Kernel, root: Frame, page: nat, table: Frame)
    requires Standing(m, k, root) && page < USER_PAGES && table in m.tables
    requires Torn(m, k, root, page) && Node(m.tables, root, 3, page / 512) == Some(table)
    requires m.tables[table][page % 512].present
    ensures var f := m.tables[table][page % 512].frame;
            var u := L.UnmapUpTo(k, root, page);
            && L.UnmapUpTo(k, root, page + 1).shares ==
                 (if L.Count(u, f) == 0 then u.shares else u.shares[f := L.Count(u, f) - 1])
            && L.UnmapUpTo(k, root, page + 1).live == (if L.Count(u, f) <= 1 then u.live - {f} else u.live)
            && f in u.live && f < TOTAL_PAGES && f in k.live
  {
    hide LeavesOf, L.FrameSound;
    var x := Key(root, page);
    SlotIsLeaf(m.Woods(), root, page, table);
    L.UnmapUpToEffect(k, root, page);
    var u := L.UnmapUpTo(k, root, page);
    assert x in u.leaves && L.LeafSound(u, x, u.leaves[x]) && L.LeafSound(k, x, k.leaves[x]);
  }

  lemma ClearedStays(t: Tables, root: Frame, used: set<Frame>, less: set<Frame>, level: nat, prefix: nat, n: nat)
    requires less <= used && forall j: nat :: j < n ==> ClearedSlot(t, root, used, level, prefix, j)
    ensures forall j: nat :: j < n ==> ClearedSlot(t, root, less, level, prefix, j)
  {
    forall j: nat | j < n
      ensures ClearedSlot(t, root, less, level, prefix, j)
    {
      assert ClearedSlot(t, root, used, level, prefix, j);
    }
  }

  lemma LeafSlotCleared(t: Tables, root: Frame, used: set<Frame>, prefix: nat, index: nat)
    ensures ClearedSlot(t, root, used, 3, prefix, index)
  {
    var q := prefix * 512 + index;
    forall l: nat, p: nat | l <= 3
      ensures !Under(4, q, l, p)
    {
      NothingUnderPages(q, l, p);
    }
  }

  lemma TableSlotCleared(t: Tables, root: Frame, before: set<Frame>, after: set<Frame>, level: nat, prefix: nat,
                         index: nat, f: Frame)
    requires Node(t, root, level + 1, prefix * 512 + index) == Some(f)
    requires ClearedBelow(t, root, before, level + 1, prefix * 512 + index) && after == before - {f}
    ensures ClearedSlot(t, root, after, level, prefix, index)
  {
    forall l: nat, p: nat | l <= 3 && Under(level + 1, prefix * 512 + index, l, p) && Node(t, root, l, p).Some?
      ensures Node(t, root, l, p).value !in after
    {
      if l == level + 1 {
        assert p == prefix * 512 + index;
      }
    }
  }

  /** Releases everything below one table: leaves in a page table, subtables above it. */
  method ReleaseUserTables(m: Memory, table: Frame, below: nat, ghost root: Frame, ghost k: L.Kernel, ghost level: nat,
                           ghost prefix: nat)
    requires below <= 2 && level == 3 - below && Owned(USER_SLOTS, level, prefix)
    requires Standing(m, k, root) && Torn(m, k, root, FirstPage(prefix, level))
    requires Node(m.tables, root, level, prefix) == Some(table) && table in m.tables
    modifies m`shares, m`used
    ensures OnlyOwnFreed(m.places, k.live, root, old(m.used), m.used)
    ensures Torn(m, k, root, FirstPage(prefix + 1, level))
    ensures ClearedBelow(m.tables, root, m.used, level, prefix)
    decreases below
  {
    hide LeavesOf, Node, FirstPage, Under, Owned, L.UnmapUpTo, L.Accounts;
    SlotBase(prefix, 0, level);
    for index := 0 to 512
      invariant Standing(m, k, root) && Torn(m, k, root, FirstPage(prefix * 512 + index, level + 1))
      invariant OnlyOwnFreed(m.places, k.live, root, old(m.used), m.used)
      invariant forall j: nat :: j < index ==> ClearedSlot(m.tables, root, m.used, level, prefix, j)
    {
      ghost var before := m.used;
      var slot := m.tables[table][index];
      if !slot.present {
        SkipEmpty(m, k, root, level, prefix, table, index);
        EmptySlotCleared(m.tables, root, m.used, level, prefix, table, index);
      } else if below == 0 {
        OwnedSlot(prefix, index, level);
        LeafPage(prefix * 512 + index, FirstPage(prefix * 512 + index, 4) * PAGE_BYTES);
        assert (prefix * 512 + index) / 512 == prefix && (prefix * 512 + index) % 512 == index;
        NextLeaf(m, k, root, prefix * 512 + index, table);
        ReleaseFrame(m, slot.frame);
        LeafSlotCleared(m.tables, root, m.used, prefix, index);
        ClearedStays(m.tables, root, before, m.used, level, prefix, index);
      } else {
        OwnedSlot(prefix, index, level);
        NoLargeSlot(m.Woods(), root, level, prefix, table, index);
        Subtable(m, k, root, level, prefix, table, index);
        ReleaseUserTables(m, slot.frame, below - 1, root, k, level + 1, prefix * 512 + index);
        ghost var middle := m.used;
        m.FreePage(slot.frame);
        TableSlotCleared(m.tables, root, middle, m.used, level, prefix, index, slot.frame);
        ClearedStays(m.tables, root, before, m.used, level, prefix, index);
      }
    }
    SlotBase(prefix, 0, level);
    AllChildrenCleared(m.tables, root, m.used, level, prefix);
  }

  lemma Subtable(m: Memory, k: L.Kernel, root: Frame, level: nat, prefix: nat, table: Frame, index: nat)
    requires Standing(m, k, root) && 1 <= level <= 2 && Owned(USER_SLOTS, level, prefix) && index < 512
    requires Node(m.tables, root, level, prefix) == Some(table) && table in m.tables
    requires m.tables[table][index].present && !m.tables[table][index].large
    ensures var f := m.tables[table][index].frame;
            && Node(m.tables, root, level + 1, prefix * 512 + index) == Some(f) && f in m.tables
            && Owned(USER_SLOTS, level + 1, prefix * 512 + index)
            && f in m.places && m.places[f].root == root && f != 0 && f !in m.pinned
  {
    OwnedSlot(prefix, index, level);
    assert (prefix * 512 + index) / 512 == prefix && (prefix * 512 + index) % 512 == index;
    assert Node(m.tables, root, level + 1, prefix * 512 + index) == Some(m.tables[table][index].frame);
    assert OwnTable(m.tables, m.places, m.tables[table][index].frame, Place(root, level + 1, prefix * 512 + index));
  }

  /**
   Ends a space: every page it maps is released, its tables and its root go back to the ledger. What
   the other spaces map is untouched, and a frame they still map is not given back. The kernel stops on
   a large page; the user half has none.
   */
  method TeardownSpace(m: Memory, root: Frame)
    requires Valid(m) && root in m.roots
    modifies m`shares, m`used, m`roots, m`places, m`may
    ensures Valid(m) && m.roots == old(m.roots) - {root}
    ensures Ledger(m) == L.UnmapUpTo(old(Ledger(m)), root, USER_PAGES)
    ensures forall f :: f in old(m.places) && old(m.places)[f].root == root ==> f !in m.used
  {
    hide Ordered, LeavesOf, Node, FirstPage, Under, Owned, L.UnmapUpTo, L.Accounts;
    ghost var k, w := Ledger(m), m.Woods();
    RootTableThere(m, root);
    StandsAtStart(m, root);
    UserHalf();
    for slot := 0 to 256
      modifies m`shares, m`used
      invariant Standing(m, k, root) && Torn(m, k, root, FirstPage(slot, 1))
      invariant OnlyOwnFreed(m.places, k.live, root, w.taken, m.used)
      invariant forall j: nat :: j < slot ==> ClearedSlot(m.tables, root, m.used, 0, 0, j)
    {
      ghost var before := m.used;
      var entry := m.tables[root][slot];
      if !entry.present {
        SkipEmpty(m, k, root, 0, 0, root, slot);
        EmptySlotCleared(m.tables, root, m.used, 0, 0, root, slot);
      } else {
        RootOwnsUserSlot(slot);
        NoLargeSlot(m.Woods(), root, 0, 0, root, slot);
        RootSubtable(m, k, root, slot);
        ReleaseUserTables(m, entry.frame, 2, root, k, 1, slot);
        ghost var middle := m.used;
        m.FreePage(entry.frame);
        TableSlotCleared(m.tables, root, middle, m.used, 0, 0, slot, entry.frame);
        ClearedStays(m.tables, root, before, m.used, 0, 0, slot);
      }
    }
    RetireRoot(m, root, w, k);
  }

  /** Gives the root back, once every table below it is, and takes the space off the books. */
  method RetireRoot(m: Memory, root: Frame, ghost w: Woods, ghost k: L.Kernel)
    requires Standing(m, k, root) && Torn(m, k, root, USER_PAGES) && Ordered(w, m.pinned, m.may)
    requires w == m.Woods().(taken := w.taken) && k.may == m.may && k.pages == m.pages
    requires k.live == w.taken - w.places.Keys - m.pinned && OnlyOwnFreed(m.places, k.live, root, w.taken, m.used)
    requires forall j: nat :: j < 256 ==> ClearedSlot(m.tables, root, m.used, 0, 0, j)
    modifies m`used, m`roots, m`places, m`may
    ensures Valid(m) && m.roots == old(m.roots) - {root} && Ledger(m) == L.UnmapUpTo(k, root, USER_PAGES)
    ensures forall f :: f in old(m.places) && old(m.places)[f].root == root ==> f !in m.used
  {
    hide Ordered, LeavesOf, Node, FirstPage, Under, Owned, L.UnmapUpTo, L.Accounts;
    ghost var last := m.used;
    RootOwned(m, k, root);
    m.FreePage(root);
    ClearedStays(m.tables, root, last, m.used, 0, 0, 256);
    L.UnmapUpToEffect(k, root, USER_PAGES);
    RetireKeepsOrder(w, m.used, m.pinned, m.may, k, root);
    m.roots := m.roots - {root};
    m.places := Retired(m.places, root);
    m.may := L.UnmapUpTo(k, root, USER_PAGES).may;
  }

  /** The places that remain when a root is retired. */
  ghost function Retired(places: map<Frame, Place>, root: Frame): map<Frame, Place> {
    map f | f in places && places[f].root != root :: places[f]
  }

  lemma RootOwned(m: Memory, k: L.Kernel, root: Frame)
    requires Standing(m, k, root)
    ensures root in m.places && m.places[root].root == root && root != 0 && root !in m.pinned
  {
    assert Node(m.tables, root, 0, 0) == Some(root) && Owned(USER_SLOTS, 0, 0);
    assert OwnTable(m.tables, m.places, root, Place(root, 0, 0));
  }

  lemma RootOwnsUserSlot(slot: nat)
    requires slot < 256
    ensures Owned(USER_SLOTS, 1, 0 * 512 + slot)
  {
  }

  lemma RootSubtable(m: Memory, k: L.Kernel, root: Frame, slot: nat)
    requires Standing(m, k, root) && slot < 256 && root in m.tables
    requires m.tables[root][slot].present && !m.tables[root][slot].large
    ensures var f := m.tables[root][slot].frame;
            && Node(m.tables, root, 1, slot) == Some(f) && f in m.tables && Owned(USER_SLOTS, 1, slot)
            && f in m.places && m.places[f].root == root && f != 0 && f !in m.pinned
  {
    assert Node(m.tables, root, 0, slot / 512) == Some(root);
    assert Node(m.tables, root, 1, slot) == Some(m.tables[root][slot].frame);
    assert OwnTable(m.tables, m.places, m.tables[root][slot].frame, Place(root, 1, slot));
  }

  lemma StandsAtStart(m: Memory, root: Frame)
    requires Valid(m) && root in m.roots
    ensures Standing(m, Ledger(m), root) && Torn(m, Ledger(m), root, 0)
  {
    forall l: nat, p: nat | l <= 3 && Owned(USER_SLOTS, l, p) && Node(m.tables, root, l, p).Some?
      ensures OwnTable(m.tables, m.places, Node(m.tables, root, l, p).value, Place(root, l, p))
    {
      OwnedIsName(USER_SLOTS, l, p);
      assert Placed(m.Woods(), Node(m.tables, root, l, p).value, Place(root, l, p));
    }
  }

  lemma RetireForest(w: Woods, used: set<Frame>, pinned: set<Frame>, may: map<Key, bool>, live: set<Frame>, root: Frame)
    requires Ordered(w, pinned, may) && live == w.taken - w.places.Keys - pinned && root in w.roots
    requires OnlyOwnFreed(w.places, live, root, w.taken, used)
    ensures var w' := Woods(w.tables, w.roots - {root}, w.limit, Retired(w.places, root), used);
            && Sound(w') && SmallPages(w') && Open(w') && KernelHalf(w', pinned)
            && pinned <= used && pinned !! w'.places.Keys
  {
    var w' := Woods(w.tables, w.roots - {root}, w.limit, Retired(w.places, root), used);
    forall r, l: nat, p: nat | r in w'.roots && l <= 3 && Name(l, p) && Node(w'.tables, r, l, p).Some?
      ensures Placed(w', Node(w'.tables, r, l, p).value, Place(r, l, p))
    {
      assert Placed(w, Node(w.tables, r, l, p).value, Place(r, l, p));
    }
    forall f | f in w'.places
      ensures Recorded(w', f, w'.places[f]) && f in used
    {
      assert Recorded(w, f, w.places[f]);
    }
    forall f, j | f in w'.places && f in w'.tables && 0 <= j < 512
      ensures OpenSlot(w', f, j)
    {
      assert OpenSlot(w, f, j);
    }
  }

  lemma RetireLeaves(t: Tables, roots: set<Frame>, root: Frame)
    ensures LeavesOf(t, roots - {root}) ==
            map x | x in LeavesOf(t, roots) && !(x.space == root && x.page < USER_PAGES) :: LeavesOf(t, roots)[x]
  {
    forall x
      ensures x in LeavesOf(t, roots - {root}) <==> x in LeavesOf(t, roots) && !(x.space == root && x.page < USER_PAGES)
      ensures x in LeavesOf(t, roots - {root}) ==> LeavesOf(t, roots - {root})[x] == LeavesOf(t, roots)[x]
    {
      LeavesAt(t, roots, x);
      LeavesAt(t, roots - {root}, x);
    }
  }

  /** Once every table of the root is back in the ledger, the remaining trees are in order. */
  lemma RetireKeepsOrder(w: Woods, used: set<Frame>, pinned: set<Frame>, may: map<Key, bool>, k: L.Kernel, root: Frame)
    requires Ordered(w, pinned, may) && root in w.roots && L.Accounts(k)
    requires k.leaves == LeavesOf(w.tables, w.roots) && k.may == may && k.live == w.taken - w.places.Keys - pinned
    requires OnlyOwnFreed(w.places, k.live, root, w.taken, used) && root !in used
    requires used - w.places.Keys - pinned == L.UnmapUpTo(k, root, USER_PAGES).live
    requires forall j: nat :: j < 256 ==> ClearedSlot(w.tables, root, used, 0, 0, j)
    ensures var u := L.UnmapUpTo(k, root, USER_PAGES);
            var w' := Woods(w.tables, w.roots - {root}, w.limit, Retired(w.places, root), used);
            && Ordered(w', pinned, u.may) && L.Accounts(u)
            && LeavesOf(w'.tables, w'.roots) == u.leaves && u.pages == k.pages
            && used - w'.places.Keys - pinned == u.live
    ensures forall f :: f in w.places && w.places[f].root == root ==> f !in used
  {
    hide LeavesOf, L.Accounts, Sound, SmallPages, KernelHalf, Open;
    L.UnmapUpToEffect(k, root, USER_PAGES);
    RetireForest(w, used, pinned, may, k.live, root);
    RetireLeaves(w.tables, w.roots, root);
    forall f | f in w.places && w.places[f].root == root
      ensures f !in used
    {
      OwnTablesCleared(w, used, root, f);
    }
    assert used - Retired(w.places, root).Keys - pinned == used - w.places.Keys - pinned;
  }

  lemma OwnTablesCleared(w: Woods, used: set<Frame>, root: Frame, f: Frame)
    requires Sound(w) && w.limit == USER_SLOTS && f in w.places && w.places[f].root == root && root !in used
    requires forall j: nat :: j < 256 ==> ClearedSlot(w.tables, root, used, 0, 0, j)
    ensures f !in used
  {
    var at := w.places[f];
    assert Recorded(w, f, at);
    if at.level > 0 {
      var j := TopOf(at.level, at.prefix);
      assert ClearedSlot(w.tables, root, used, 0, 0, j);
    }
  }

  lemma {:induction false} TopOf(l: nat, p: nat) returns (j: nat)
    requires 1 <= l && Owned(USER_SLOTS, l, p)
    ensures j < 256 && Under(1, j, l, p)
    decreases l
  {
    if l == 1 {
      j := p;
    } else {
      j := TopOf(l - 1, p / 512);
    }
  }
}
