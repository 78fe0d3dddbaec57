/**
 The four-level walk: find, map, unmap and translate, on the tables in memory.
 */
module PageWalk {
  import opened Wrappers
  import opened PageTree
  import opened Pmm

  /** Where a walk ended: off the tree at some level, or on one slot of one table. */
  datatype Spot = Off(level: nat) | At(frame: Frame, index: nat, level: nat)

  ghost predicate SameSights(t: Tables, t': Tables, roots: set<Frame>) {
    forall r, q: nat {:trigger Seen(t', r, q)} :: r in roots && Name(4, q) ==> Seen(t', r, q) == Seen(t, r, q)
  }

  /** Every page of every root is seen as before, except `page` of `root`. */
  ghost predicate SameSightsBut(t: Tables, t': Tables, roots: set<Frame>, root: Frame, page: nat) {
    forall r, q: nat {:trigger Seen(t', r, q)} ::
      r in roots && Name(4, q) && !(r == root && q == page) ==> Seen(t', r, q) == Seen(t, r, q)
  }

  /** Every node stayed where it was; a node that appeared is a new owned table. */
  ghost predicate NodesKept(w: Woods, w': Woods) {
    forall r, l: nat, p: nat {:trigger Node(w'.tables, r, l, p)} :: r in w.roots && l <= 3 && Name(l, p) ==>
      NodeKept(w, w', Node(w.tables, r, l, p), Node(w'.tables, r, l, p))
  }

  ghost predicate NodeKept(w: Woods, w': Woods, was: Option<Frame>, now: Option<Frame>) {
    now == was || (was.None? && now.value !in w.taken && now.value in w'.places)
  }

  /** Only fresh tables were added: no page is seen differently, and each new frame has its place. */
  ghost predicate Grew(w: Woods, w': Woods) {
    && w'.roots == w.roots && w'.limit == w.limit
    && SameSights(w.tables, w'.tables, w.roots) && NodesKept(w, w')
    && w.taken <= w'.taken && w.places.Keys <= w'.places.Keys
    && w'.taken - w.taken == w'.places.Keys - w.places.Keys
    && forall f :: f in w.places ==> w'.places[f] == w.places[f]
  }

  lemma NodesKeptTransitive(a: Woods, b: Woods, c: Woods)
    requires NodesKept(a, b) && NodesKept(b, c) && a.roots == b.roots
    requires a.taken <= b.taken && b.places.Keys <= c.places.Keys
    ensures NodesKept(a, c)
  {
    forall r, l: nat, p: nat | r in a.roots && l <= 3 && Name(l, p)
      ensures NodeKept(a, c, Node(a.tables, r, l, p), Node(c.tables, r, l, p))
    {
      assert NodeKept(b, c, Node(b.tables, r, l, p), Node(c.tables, r, l, p));
      assert NodeKept(a, b, Node(a.tables, r, l, p), Node(b.tables, r, l, p));
    }
  }

  lemma GrewTransitive(a: Woods, b: Woods, c: Woods)
    requires Grew(a, b) && Grew(b, c)
    ensures Grew(a, c)
  {
    assert forall r, q: nat {:trigger Seen(c.tables, r, q)} :: r in a.roots && Name(4, q) ==>
      Seen(b.tables, r, q) == Seen(a.tables, r, q) && Seen(c.tables, r, q) == Seen(a.tables, r, q);
    NodesKeptTransitive(a, b, c);
    assert c.taken - a.taken == (c.taken - b.taken) + (b.taken - a.taken);
    assert c.places.Keys - a.places.Keys == (c.places.Keys - b.places.Keys) + (b.places.Keys - a.places.Keys);
  }

  lemma {:induction false} SeenStops(t: Tables, root: Frame, level: nat, page: nat)
    requires level <= 3
    requires EntryAt(t, root, level, page).Some?
    requires level == 3 || Below(EntryAt(t, root, level, page).value).None?
    ensures Seen(t, root, page) == SeenFrom(t, root, level, page)
  {
    if level < 3 {
      NothingFurther(t, root, level + 1, page);
    }
  }

  lemma {:induction false} NothingFurther(t: Tables, root: Frame, level: nat, page: nat)
    requires 1 <= level <= 3
    requires Node(t, root, level, Prefix(page, level)).None?
    ensures Seen(t, root, page) == SeenFrom(t, root, level - 1, page)
    decreases 3 - level
  {
    if level == 3 {
    } else {
      assert Node(t, root, level + 1, Prefix(page, level + 1)).None?;
      NothingFurther(t, root, level + 1, page);
    }
  }

  lemma PageIsName(va: nat)
    ensures Name(4, PageOf(va))
  {
    PageNames(512, PageOf(va));
  }

  /** Walks to the slot an address resolves to, stopping early on a large leaf or an absent table. */
  method FindSlot(m: Memory, root: Frame, va: nat) returns (spot: Spot)
    requires m.Grown() && root in m.roots
    ensures spot.Off? ==> Seen(m.tables, root, PageOf(va)).None?
    ensures spot.At? ==>
              && spot.level <= 3 && spot.index == Index(PageOf(va), spot.level)
              && Node(m.tables, root, spot.level, Prefix(PageOf(va), spot.level)) == Some(spot.frame)
              && spot.frame in m.tables
              && (spot.level < 3 ==> m.tables[spot.frame][spot.index].present && m.tables[spot.frame][spot.index].large)
              && Seen(m.tables, root, PageOf(va)) ==
                 (if m.tables[spot.frame][spot.index].present
                  then Some(Sight(m.tables[spot.frame][spot.index], spot.level)) else None)
    ensures spot.At? && spot.level < 3 <==>
              Seen(m.tables, root, PageOf(va)).Some? && Seen(m.tables, root, PageOf(va)).value.level < 3
  {
    ghost var page := PageOf(va);
    PageIsName(va);
    var table, level := root, 0;
    while level < 3
      invariant level <= 3
      invariant Node(m.tables, root, level, Prefix(page, level)) == Some(table)
    {
      SlotIndexIsDigit(va, level);
      PrefixOwned(512, page, level);
      var slot := m.tables[table][SlotIndex(va, level)];
      if !slot.present || slot.large {
        SeenStops(m.tables, root, level, page);
        return if slot.present then At(table, SlotIndex(va, level), level) else Off(level);
      }
      table, level := slot.frame, level + 1;
    }
    SlotIndexIsDigit(va, 3);
    PrefixOwned(512, page, 3);
    SeenStops(m.tables, root, 3, page);
    return At(table, SlotIndex(va, 3), 3);
  }

  /**
   Walks to the page table an address maps through, adding the tables that are missing. Refuses on a
   large leaf or when no frame is left. Tables it added stay in the tree, but no page is seen
   differently, whether it succeeds or not.
   */
  method EnsureLeafTable(m: Memory, root: Frame, va: nat, user: bool) returns (found: Option<Frame>)
    requires m.Grown() && root in m.roots && Owned(m.limit, 4, PageOf(va))
    modifies m`used, m`tables, m`places
    ensures m.Grown() && Grew(old(m.Woods()), m.Woods())
    ensures user && old(Open(m.Woods())) ==> Open(m.Woods())
    ensures found.Some? ==> Node(m.tables, root, 3, Prefix(PageOf(va), 3)) == found
    ensures found.None? ==>
              || (Seen(m.tables, root, PageOf(va)).Some? && Seen(m.tables, root, PageOf(va)).value.level < 3)
              || NoneFree(m.used)
  {
    ghost var page := PageOf(va);
    PageIsName(va);
    var table, level := root, 0;
    while level < 3
      invariant level <= 3
      invariant m.Grown() && Grew(old(m.Woods()), m.Woods())
      invariant user && old(Open(m.Woods())) ==> Open(m.Woods())
      invariant Node(m.tables, root, level, Prefix(page, level)) == Some(table)
    {
      SlotIndexIsDigit(va, level);
      OwnedNode(m.Woods(), root, page, level);
      var index := SlotIndex(va, level);
      var slot := m.tables[table][index];
      if !slot.present {
        ghost var before := m.Woods();
        table := AddTable(m, root, va, level, table, index, user);
        GrewTransitive(old(m.Woods()), before, m.Woods());
        if table == 0 {
          return None;
        }
      } else if slot.large {
        SeenStops(m.tables, root, level, page);
        return None;
      } else {
        table := slot.frame;
      }
      level := level + 1;
    }
    return Some(table);
  }

  /** One step of the walk above: fills an empty slot with a pointer to a fresh zeroed table. */
  method AddTable(m: Memory, ghost root: Frame, ghost va: nat, ghost level: nat, table: Frame, index: nat, user: bool)
    returns (born: Frame)
    requires m.Grown() && root in m.roots && Owned(m.limit, 4, PageOf(va)) && level < 3
    requires Node(m.tables, root, level, Prefix(PageOf(va), level)) == Some(table)
    requires index == Index(PageOf(va), level) && table in m.tables && !m.tables[table][index].present
    modifies m`used, m`tables, m`places
    ensures m.Grown() && Grew(old(m.Woods()), m.Woods())
    ensures user && old(Open(m.Woods())) ==> Open(m.Woods())
    ensures born == 0 ==> NoneFree(m.used)
    ensures born != 0 ==> Node(m.tables, root, level + 1, Prefix(PageOf(va), level + 1)) == Some(born)
  {
    hide Forest, Surveyed, Owned, PageOf;
    ghost var page := PageOf(va);
    ghost var w := m.Woods();
    born := m.TakePage();
    if born == 0 {
      return;
    }
    var pointer := MakeTableEntry(born, Terms(true, user, false, false));
    GraftAllowed(w, root, page, level, table, born, pointer);
    m.tables := m.tables[table := m.tables[table][index := pointer]];
    m.places := m.places[born := Place(root, level + 1, Prefix(page, level + 1))];
    assert m.Woods() == Graft(w, table, index, born, pointer);
    GraftGrew(w, table, index, born, pointer);
    if user && Open(w) {
      GraftOpensHere(w, table, index, born, pointer);
    }
    GraftNode(w, table, index, born, pointer, root, level + 1, Prefix(page, level + 1));
  }

  lemma GraftAllowed(w: Woods, root: Frame, page: nat, level: nat, table: Frame, born: Frame, pointer: Entry)
    requires Forest(w) && root in w.roots && Owned(w.limit, 4, page) && level < 3
    requires Node(w.tables, root, level, Prefix(page, level)) == Some(table)
    requires table in w.tables && !w.tables[table][Index(page, level)].present
    requires born !in w.taken && Below(pointer) == Some(born)
    ensures CanGraft(w, table, Index(page, level), born, pointer)
    ensures table != born && Name(level + 1, Prefix(page, level + 1))
    ensures w.places[table] == Place(root, level, Prefix(page, level))
    ensures Prefix(page, level) * 512 + Index(page, level) == Prefix(page, level + 1)
  {
    OwnedNode(w, root, page, level);
    PrefixOwned(w.limit, page, level + 1);
    OwnedIsName(w.limit, level + 1, Prefix(page, level + 1));
  }

  lemma GraftOpensHere(w: Woods, f: Frame, i: nat, born: Frame, pointer: Entry)
    requires CanGraft(w, f, i, born, pointer) && Open(w) && OpenPointer(pointer)
    ensures Open(Graft(w, f, i, born, pointer))
  {
    GraftOpens(w, f, i, born, pointer);
  }

  lemma GraftGrew(w: Woods, f: Frame, i: nat, born: Frame, pointer: Entry)
    requires CanGraft(w, f, i, born, pointer) && Surveyed(w)
    ensures var w' := Graft(w, f, i, born, pointer);
            Forest(w') && Surveyed(w') && Grew(w, w')
  {
    var w' := Graft(w, f, i, born, pointer);
    GraftKeepsForest(w, f, i, born, pointer);
    GraftKeepsSurvey(w, f, i, born, pointer);
    forall r, q: nat | r in w.roots && Name(4, q)
      ensures Seen(w'.tables, r, q) == Seen(w.tables, r, q)
    {
      GraftSeen(w, f, i, born, pointer, r, q);
    }
    forall r, l: nat, p: nat | r in w.roots && l <= 3 && Name(l, p)
      ensures NodeKept(w, w', Node(w.tables, r, l, p), Node(w'.tables, r, l, p))
    {
      GraftNode(w, f, i, born, pointer, r, l, p);
      assert Place(r, l, p) == w'.places[born] ==> Node(w.tables, r, l, p).None?;
    }
    assert w'.taken - w.taken == {born} == w'.places.Keys - w.places.Keys;
  }

  // ------------------------------------------------------------------ map, unmap, translate

  lemma WriteLeaf(w: Woods, root: Frame, page: nat, f: Frame, e: Entry)
    requires Forest(w) && Surveyed(w) && root in w.roots && Owned(w.limit, 4, page)
    requires Node(w.tables, root, 3, Prefix(page, 3)) == Some(f)
    ensures f in w.tables
    ensures var w' := WriteSlot(w, f, Index(page, 3), e);
            && Forest(w') && Surveyed(w')
            && SameSightsBut(w.tables, w'.tables, w.roots, root, page) && NodesKept(w, w') && (Open(w) ==> Open(w'))
            && Seen(w'.tables, root, page) == if e.present then Some(Sight(e, 3)) else None
  {
    hide Open;
    OwnedNode(w, root, page, 3);
    if Open(w) {
      LeafWriteOpens(w, f, Index(page, 3), e);
    }
    OwnedIsName(w.limit, 4, page);
    LeafWriteKeepsForest(w, f, Index(page, 3), e);
    LeafWriteKeepsSurvey(w, f, Index(page, 3), e);
    LeafWriteSeen(w, root, page, f, e, root, page);
    forall r, q: nat | r in w.roots && Name(4, q) && !(r == root && q == page)
      ensures Seen(WriteSlot(w, f, Index(page, 3), e).tables, r, q) == Seen(w.tables, r, q)
    {
      LeafWriteSeen(w, root, page, f, e, r, q);
    }
    forall r, l: nat, p: nat | r in w.roots && l <= 3 && Name(l, p)
      ensures Node(WriteSlot(w, f, Index(page, 3), e).tables, r, l, p) == Node(w.tables, r, l, p)
    {
      NothingUnderPages(w.places[f].prefix * 512 + Index(page, 3), l, p);
      SlotWriteKeepsNode(w, f, Index(page, 3), e, r, l, p);
    }
  }

  /**
   Maps one 4 KiB page to the finished leaf the caller hands in. On success that page is seen
   through the leaf and every other page of every tree is seen as before. A refusal, which happens
   only on a large leaf in the way or an empty supply, changes no page, though tables may have
   been added. Where every pointer was open it stays so, so that the page is reached under the terms
   of its leaf.
   */
  method MapUserPage(m: Memory, root: Frame, va: nat, leaf: Entry) returns (ok: bool)
    requires m.Grown() && root in m.roots && Owned(m.limit, 4, PageOf(va))
    modifies m`used, m`tables, m`places
    ensures m.Grown()
    ensures m.used - old(m.used) == m.places.Keys - old(m.places.Keys) && old(m.used) <= m.used
    ensures forall f :: f in old(m.places) ==> f in m.places && m.places[f] == old(m.places)[f]
    ensures NodesKept(old(m.Woods()), m.Woods())
    ensures old(Open(m.Woods())) ==> Open(m.Woods())
    ensures ok && leaf.present && old(Open(m.Woods())) ==> OpenPath(m.tables, root, PageOf(va))
    ensures ok ==> SameSightsBut(old(m.tables), m.tables, m.roots, root, PageOf(va))
    ensures ok ==> Seen(m.tables, root, PageOf(va)) == if leaf.present then Some(Sight(leaf, 3)) else None
    ensures !ok ==> SameSights(old(m.tables), m.tables, m.roots)
    ensures !ok ==>
              || (Seen(m.tables, root, PageOf(va)).Some? && Seen(m.tables, root, PageOf(va)).value.level < 3)
              || NoneFree(m.used)
  {
    var table := EnsureLeafTable(m, root, va, true);
    if table.None? {
      return false;
    }
    SlotIndexIsDigit(va, 3);
    ghost var grown := m.Woods();
    WriteLeaf(grown, root, PageOf(va), table.value, leaf);
    m.tables := m.tables[table.value := m.tables[table.value][SlotIndex(va, 3) := leaf]];
    NodesKeptTransitive(old(m.Woods()), grown, m.Woods());
    if leaf.present && Open(m.Woods()) {
      LeafDecides(m.Woods(), root, PageOf(va));
    }
    return true;
  }

  /** A 4 KiB page the kernel may read, write and execute, and user code may not reach. */
  predicate KernelSight(s: Option<Sight>) {
    && s.Some? && s.value.level == 3 && s.value.entry.writable && !s.value.entry.user && !s.value.entry.noExec
    && !s.value.entry.cow
  }

  /**
   Maps one 4 KiB page for the kernel. On success the page translates to the physical page plus the
   offset, and the translation of every other address of every tree is untouched; a refusal touches
   none.
   */
  method MapPage(m: Memory, root: Frame, va: nat, physical: nat) returns (ok: bool)
    requires m.Grown() && root in m.roots && Owned(m.limit, 4, PageOf(va))
    modifies m`used, m`tables, m`places
    ensures m.Grown()
    ensures forall r, x {:trigger Translation(m.tables, r, x)} :: r in m.roots && 0 <= x ==>
              Translation(m.tables, r, x) ==
              if ok && r == root && PageOf(x) == PageOf(va)
              then physical / PAGE_BYTES % FRAME_FIELD * PAGE_BYTES + x % PAGE_BYTES
              else Translation(old(m.tables), r, x)
    ensures ok ==> KernelSight(Seen(m.tables, root, PageOf(va)))
    ensures !ok ==>
              || (Seen(m.tables, root, PageOf(va)).Some? && Seen(m.tables, root, PageOf(va)).value.level < 3)
              || NoneFree(m.used)
  {
    hide Translation, Seen, Open, Node;
    var leaf := MakeTableEntry(physical / PAGE_BYTES, Terms(true, false, false, false));
    var table := EnsureLeafTable(m, root, va, false);
    if table.None? {
      ok := false;
    } else {
      SlotIndexIsDigit(va, 3);
      WriteLeaf(m.Woods(), root, PageOf(va), table.value, leaf);
      m.tables := m.tables[table.value := m.tables[table.value][SlotIndex(va, 3) := leaf]];
      ok := true;
    }
    forall r, x | r in m.roots && 0 <= x
      ensures Translation(m.tables, r, x) ==
              if ok && r == root && PageOf(x) == PageOf(va) then leaf.frame * PAGE_BYTES + x % PAGE_BYTES
              else Translation(old(m.tables), r, x)
    {
      PageIsName(x);
      if ok && r == root && PageOf(x) == PageOf(va) {
        LeafTranslates(m.tables, r, x, leaf);
      } else {
        SightTranslates(old(m.tables), m.tables, r, x);
      }
    }
  }

  lemma LeafTranslates(t: Tables, r: Frame, x: nat, leaf: Entry)
    requires Seen(t, r, PageOf(x)) == Some(Sight(leaf, 3))
    ensures Translation(t, r, x) == leaf.frame * PAGE_BYTES + x % PAGE_BYTES
  {
  }

  lemma SightTranslates(t: Tables, t': Tables, r: Frame, x: nat)
    requires Seen(t', r, PageOf(x)) == Seen(t, r, PageOf(x))
    ensures Translation(t', r, x) == Translation(t, r, x)
  {
    hide Seen;
  }

  /**
   Clears one 4 KiB mapping and returns the entry that was there, or an empty entry when the walk
   fell off or met a large leaf. Afterwards a 4 KiB page is not mapped any more, and nothing else
   changed: a large leaf stays where it is.
   */
  method UnmapPage(m: Memory, root: Frame, va: nat) returns (was: Entry)
    requires m.Grown() && root in m.roots && Owned(m.limit, 4, PageOf(va))
    modifies m`tables
    ensures m.Grown() && SameSightsBut(old(m.tables), m.tables, m.roots, root, PageOf(va))
    ensures NodesKept(old(m.Woods()), m.Woods()) && (old(Open(m.Woods())) ==> Open(m.Woods()))
    ensures var sight := Seen(old(m.tables), root, PageOf(va));
            if sight.Some? && sight.value.level == 3
            then was == sight.value.entry && Seen(m.tables, root, PageOf(va)).None?
            else !was.present && Seen(m.tables, root, PageOf(va)) == sight
  {
    var spot := FindSlot(m, root, va);
    if spot.Off? || spot.level != 3 {
      return EMPTY;
    }
    was := m.tables[spot.frame][spot.index];
    WriteLeaf(m.Woods(), root, PageOf(va), spot.frame, EMPTY);
    m.tables := m.tables[spot.frame := m.tables[spot.frame][spot.index := EMPTY]];
  }

  /** Resolves one address through 1 GiB, 2 MiB and 4 KiB leaves alike. */
  method TranslatePage(m: Memory, root: Frame, va: nat) returns (physical: nat)
    requires m.Grown() && root in m.roots
    ensures physical == Translation(m.tables, root, va)
  {
    var spot := FindSlot(m, root, va);
    if spot.Off? || !m.tables[spot.frame][spot.index].present {
      return 0;
    }
    var e := m.tables[spot.frame][spot.index];
    if spot.level != 3 {
      if spot.level == 0 {
        return 0;
      }
      if spot.level == 1 {
        return e.frame / (512 * 512) * (512 * 512) * PAGE_BYTES + va % 0x4000_0000;
      }
      return e.frame / 512 * 512 * PAGE_BYTES + va % 0x20_0000;
    }
    return e.frame * PAGE_BYTES + va % PAGE_BYTES;
  }
}
