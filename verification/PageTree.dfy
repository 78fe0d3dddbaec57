/**
 The page-table entry grammar and the four-level tree of tables, as values.

 A physical frame is named by its number (physical address / 4096). Physical memory holds tables in
 a map from frame to 512 entries. A node of a tree is named by its root frame, its level (0 for the
 PML4, 3 for a page table) and the number of the 512^(4-level)-page stretch it covers, so the table
 serving page `p` at level `l` is number `Prefix(p, l)` of that level.
 */
module PageTree {
  import opened Wrappers

  const USER_SLOTS: nat := 256
  const PAGES: nat := 0x10_0000_0000       // 512^4
  const USER_PAGES: nat := 0x8_0000_0000   // 256 * 512^3
  const FRAME_FIELD: nat := 0x100_0000_0000 // 40-bit frame field, bits 51..12

  type Frame = nat

  /** One entry: the bits the kernel names, and the 40-bit frame field. */
  datatype Entry = Entry(
    present: bool, writable: bool, user: bool, large: bool, cow: bool, noExec: bool, frame: Frame)

  const EMPTY := Entry(false, false, false, false, false, false, 0)

  type Table = s: seq<Entry> | |s| == 512 witness seq(512, _ => EMPTY)

  function Zeroed(): (t: Table)
    ensures forall i :: 0 <= i < 512 ==> t[i] == EMPTY
  {
    seq(512, _ => EMPTY)
  }

  type Tables = map<Frame, Table>

  /** Permission terms, before they are paired with a frame. */
  datatype Terms = Terms(writable: bool, user: bool, cow: bool, noExec: bool)

  function UserLeafTerms(writable: bool, executable: bool): Terms {
    Terms(writable, true, false, !executable)
  }

  function MakeTableEntry(frame: Frame, terms: Terms): Entry {
    Entry(true, terms.writable, terms.user, false, terms.cow, terms.noExec, frame % FRAME_FIELD)
  }

  // ------------------------------------------------------------------ numbering

  /** The number of the table (of level `level`) that serves a page; level 4 is the page itself. */
  function Prefix(page: nat, level: nat): nat
    requires level <= 4
    decreases 4 - level
  {
    if level == 4 then page else Prefix(page, level + 1) / 512
  }

  function Index(page: nat, level: nat): (i: nat)
    requires level <= 3
    ensures i < 512
  {
    Prefix(page, level + 1) % 512
  }

  function PageOf(va: nat): (p: nat)
    ensures p < PAGES
  {
    (va / PAGE_BYTES) % PAGES
  }

  /** Reads the nine-bit index one level consumes: a shift by the range's low bit, then a mask. */
  function SlotIndex(va: nat, level: nat): nat
    requires level <= 3
  {
    (va / (if level == 0 then 0x80_0000_0000
           else if level == 1 then 0x4000_0000
           else if level == 2 then 0x20_0000
           else 0x1000)) % 512
  }

  // Dropping the low nine bits of a page number, at each width.

  lemma DropDigit3(q: nat)
    ensures (q % 0x10_0000_0000) / 512 == (q / 512) % 0x800_0000
    ensures (q % 0x10_0000_0000) % 512 == q % 512
  {
    var k, r := q / 0x10_0000_0000, q % 0x10_0000_0000;
    var u, v := r / 512, r % 512;
    assert q == 0x10_0000_0000 * k + 512 * u + v && u < 0x800_0000;
    assert q / 512 == 0x800_0000 * k + u;
  }

  lemma DropDigit2(q: nat)
    ensures (q % 0x800_0000) / 512 == (q / 512) % 0x4_0000
    ensures (q % 0x800_0000) % 512 == q % 512
  {
    var k, r := q / 0x800_0000, q % 0x800_0000;
    var u, v := r / 512, r % 512;
    assert q == 0x800_0000 * k + 512 * u + v && u < 0x4_0000;
    assert q / 512 == 0x4_0000 * k + u;
  }

  lemma DropDigit1(q: nat)
    ensures (q % 0x4_0000) / 512 == (q / 512) % 512
    ensures (q % 0x4_0000) % 512 == q % 512
  {
    var k, r := q / 0x4_0000, q % 0x4_0000;
    var u, v := r / 512, r % 512;
    assert q == 0x4_0000 * k + 512 * u + v && u < 512;
    assert q / 512 == 512 * k + u;
  }

  lemma DivSteps(x: nat)
    ensures x / 0x20_0000 == x / 4096 / 512
    ensures x / 0x4000_0000 == x / 0x20_0000 / 512
    ensures x / 0x80_0000_0000 == x / 0x4000_0000 / 512
  {
  }

  /** The nine-bit fields of an address are the base-512 digits of its page number. */
  lemma SlotIndexIsDigit(va: nat, level: nat)
    requires level <= 3
    ensures SlotIndex(va, level) == Index(PageOf(va), level)
  {
    var p := va / 4096;
    var page := PageOf(va);
    DropDigit3(p);
    DropDigit2(p / 512);
    DropDigit1(p / 512 / 512);
    DivSteps(va);
    assert Prefix(page, 4) == page;
    assert Prefix(page, 3) == (p / 512) % 0x800_0000;
    assert Prefix(page, 2) == (p / 512 / 512) % 0x4_0000;
    assert Prefix(page, 1) == (p / 512 / 512 / 512) % 512;
  }

  /**
   Names under the first `limit` root slots: the part of a tree one space has to itself. With
   `limit == 512` these are all names. Level 4 names pages.
   */
  ghost predicate Owned(limit: nat, level: nat, prefix: nat) {
    if level == 0 then prefix == 0
    else if level == 1 then prefix < limit
    else Owned(limit, level - 1, prefix / 512)
  }

  ghost predicate Name(level: nat, prefix: nat) {
    level <= 4 && Owned(512, level, prefix)
  }

  lemma PageNames(limit: nat, page: nat)
    ensures Owned(limit, 4, page) <==> page < limit * (512 * 512 * 512)
  {
    assert Owned(limit, 4, page) == Owned(limit, 3, page / 512);
    assert Owned(limit, 3, page / 512) == Owned(limit, 2, page / 512 / 512);
    assert Owned(limit, 2, page / 512 / 512) == Owned(limit, 1, page / 512 / 512 / 512);
    assert page / 512 / 512 / 512 < limit <==> page / 512 / 512 < limit * 512;
    assert page / 512 / 512 < limit * 512 <==> page / 512 < limit * 512 * 512;
  }

  lemma PrefixOwned(limit: nat, page: nat, level: nat)
    requires limit <= 512 && level <= 4
    requires Owned(limit, 4, page)
    ensures Owned(limit, level, Prefix(page, level))
    decreases 4 - level
  {
    if level == 4 {
    } else {
      PrefixOwned(limit, page, level + 1);
    }
  }

  /** The first page that table `prefix` of a level serves. */
  function FirstPage(prefix: nat, level: nat): nat
    requires level <= 4
    decreases 4 - level
  {
    if level == 4 then prefix else FirstPage(prefix * 512, level + 1)
  }

  /** A table serves the pages from its first page up to the first page of the next table. */
  lemma {:induction false} FirstPageOrder(page: nat, prefix: nat, level: nat)
    requires level <= 4
    ensures Prefix(page, level) >= prefix <==> page >= FirstPage(prefix, level)
    decreases 4 - level
  {
    if level == 4 {
    } else {
      FirstPageOrder(page, prefix * 512, level + 1);
    }
  }

  // ------------------------------------------------------------------ the tree

  /** The next table an entry points to, if any. */
  function Below(e: Entry): Option<Frame> {
    if e.present && !e.large then Some(e.frame) else None
  }

  /** The frame of the table called (root, level, prefix), when the tree has one. */
  function Node(t: Tables, root: Frame, level: nat, prefix: nat): Option<Frame> {
    if level == 0 then Some(root)
    else
      match Node(t, root, level - 1, prefix / 512)
      case None => None
      case Some(f) => if f in t then Below(t[f][prefix % 512]) else None
  }

  datatype Sight = Sight(entry: Entry, level: nat)

  /** The entry of the level-`level` table that serves `page`, when there is such a table. */
  function EntryAt(t: Tables, root: Frame, level: nat, page: nat): Option<Entry>
    requires level <= 3
  {
    match Node(t, root, level, Prefix(page, level))
    case Some(f) => if f in t then Some(t[f][Index(page, level)]) else Some(EMPTY)
    case None => None
  }

  /** The present entry a walk for `page` ends on, trying tables of level `level` and above. */
  function SeenFrom(t: Tables, root: Frame, level: nat, page: nat): Option<Sight>
    requires level <= 3
  {
    match EntryAt(t, root, level, page)
    case Some(e) => if e.present then Some(Sight(e, level)) else None
    case None => if level == 0 then None else SeenFrom(t, root, level - 1, page)
  }

  /** What the tables say about a page: the present leaf that ends its walk, or nothing. */
  function Seen(t: Tables, root: Frame, page: nat): Option<Sight> {
    SeenFrom(t, root, 3, page)
  }

  lemma {:induction false} SightIsPresent(t: Tables, root: Frame, level: nat, page: nat)
    requires level <= 3 && SeenFrom(t, root, level, page).Some?
    ensures SeenFrom(t, root, level, page).value.entry.present
    decreases level
  {
    hide EntryAt;
    if EntryAt(t, root, level, page).Some? {
    } else {
      SightIsPresent(t, root, level - 1, page);
    }
  }

  /** The physical byte behind an address, 0 for an unmapped one (section 4.5 of Intel SDM vol. 3A). */
  function Translation(t: Tables, root: Frame, va: nat): nat {
    match Seen(t, root, PageOf(va))
    case None => 0
    case Some(Sight(e, level)) =>
      if level == 0 then 0
      else if level == 1 then e.frame / (512 * 512) * (512 * 512) * PAGE_BYTES + va % 0x4000_0000
      else if level == 2 then e.frame / 512 * 512 * PAGE_BYTES + va % 0x20_0000
      else e.frame * PAGE_BYTES + va % PAGE_BYTES
  }

  /** One user page of one space; a space is named by its root frame. */
  datatype Key = Key(space: Frame, page: nat)

  /** Where a table sits: the unique name of an owned table. */
  datatype Place = Place(root: Frame, level: nat, prefix: nat)

  /**
   The tables in memory, the roots of the live trees, how many root slots each tree has to itself,
   the unique name of each table under those slots, and the frames in use.
   */
  datatype Woods = Woods(
    tables: Tables, roots: set<Frame>, limit: nat, places: map<Frame, Place>, taken: set<Frame>)

  /**
   Every node is a table in a taken frame, and a node under the first `limit` slots of its root has
   one name only, recorded in `places`. The subtrees beyond `limit` (the kernel half) may be shared
   between roots, but never with an owned table.
   */
  ghost predicate Forest(w: Woods) {
    && w.limit <= 512
    && w.places.Keys <= w.taken
    && forall r, l: nat, p: nat {:trigger Node(w.tables, r, l, p)} ::
         r in w.roots && l <= 3 && Name(l, p) && Node(w.tables, r, l, p).Some? ==>
           Placed(w, Node(w.tables, r, l, p).value, Place(r, l, p))
  }

  /** Every recorded name is the name the trees know that table by, so no record is stale. */
  ghost predicate Surveyed(w: Woods) {
    forall f :: f in w.places ==> Recorded(w, f, w.places[f])
  }

  ghost predicate Recorded(w: Woods, f: Frame, at: Place) {
    && at.root in w.roots && at.level <= 3 && Owned(w.limit, at.level, at.prefix)
    && Node(w.tables, at.root, at.level, at.prefix) == Some(f)
  }

  ghost predicate Placed(w: Woods, f: Frame, at: Place) {
    && f in w.tables && f in w.taken
    && (Owned(w.limit, at.level, at.prefix) ==> f in w.places && w.places[f] == at)
    && (!Owned(w.limit, at.level, at.prefix) ==> f !in w.places)
  }

  /** The woods after one slot of one table is rewritten. */
  function WriteSlot(w: Woods, f: Frame, i: nat, e: Entry): Woods
    requires f in w.tables && i < 512
  {
    w.(tables := w.tables[f := w.tables[f][i := e]])
  }

  /** (level, prefix) lies in the subtree of (top, q). */
  ghost predicate Under(top: nat, q: nat, level: nat, prefix: nat) {
    if level < top then false
    else if level == top then prefix == q
    else Under(top, q, level - 1, prefix / 512)
  }

  lemma OwnedIsName(limit: nat, level: nat, prefix: nat)
    requires limit <= 512 && level <= 4 && Owned(limit, level, prefix)
    ensures Name(level, prefix)
  {
    if level <= 1 {
    } else {
      OwnedIsName(limit, level - 1, prefix / 512);
    }
  }

  lemma OwnedNode(w: Woods, root: Frame, page: nat, level: nat)
    requires Forest(w) && root in w.roots && Owned(w.limit, 4, page) && level <= 3
    requires Node(w.tables, root, level, Prefix(page, level)).Some?
    ensures var f := Node(w.tables, root, level, Prefix(page, level)).value;
            f in w.tables && f in w.taken && f in w.places && w.places[f] == Place(root, level, Prefix(page, level))
  {
    PrefixOwned(w.limit, page, level);
    OwnedIsName(w.limit, level, Prefix(page, level));
  }

  /** Rewriting one slot of an owned table moves no node outside the subtree hanging from that slot. */
  lemma {:induction false} SlotWriteKeepsNode(w: Woods, f: Frame, i: nat, e: Entry, r: Frame, l: nat, p: nat)
    requires Forest(w) && f in w.tables && f in w.places && i < 512
    requires r in w.roots && l <= 3 && Name(l, p)
    requires r != w.places[f].root || !Under(w.places[f].level + 1, w.places[f].prefix * 512 + i, l, p)
    ensures Node(WriteSlot(w, f, i, e).tables, r, l, p) == Node(w.tables, r, l, p)
    decreases l
  {
    if l == 0 {
    } else {
      SlotWriteKeepsNode(w, f, i, e, r, l - 1, p / 512);
      assert Node(w.tables, r, l - 1, p / 512) == Some(f) ==> w.places[f] == Place(r, l - 1, p / 512);
      assert p == p / 512 * 512 + p % 512;
    }
  }

  lemma NothingUnderPages(q: nat, l: nat, p: nat)
    requires l <= 3
    ensures !Under(4, q, l, p)
  {
  }

  lemma {:induction false} LeafWriteKeepsForest(w: Woods, f: Frame, i: nat, e: Entry)
    requires Forest(w) && f in w.tables && f in w.places && w.places[f].level == 3 && i < 512
    ensures Forest(WriteSlot(w, f, i, e))
  {
    var w' := WriteSlot(w, f, i, e);
    forall r, l: nat, p: nat | r in w.roots && l <= 3 && Name(l, p) && Node(w'.tables, r, l, p).Some?
      ensures Placed(w', Node(w'.tables, r, l, p).value, Place(r, l, p))
    {
      NothingUnderPages(w.places[f].prefix * 512 + i, l, p);
      SlotWriteKeepsNode(w, f, i, e, r, l, p);
      assert Placed(w, Node(w.tables, r, l, p).value, Place(r, l, p));
    }
  }

  lemma {:induction false} LeafWriteKeepsSurvey(w: Woods, f: Frame, i: nat, e: Entry)
    requires Forest(w) && Surveyed(w) && f in w.tables && f in w.places && w.places[f].level == 3 && i < 512
    ensures Surveyed(WriteSlot(w, f, i, e))
  {
    forall g | g in w.places
      ensures Recorded(WriteSlot(w, f, i, e), g, w.places[g])
    {
      var at := w.places[g];
      assert Recorded(w, g, at);
      OwnedIsName(w.limit, at.level, at.prefix);
      NothingUnderPages(w.places[f].prefix * 512 + i, at.level, at.prefix);
      SlotWriteKeepsNode(w, f, i, e, at.root, at.level, at.prefix);
    }
  }

  /** Writing a page-table slot changes what the tables say about that slot's page and nothing else. */
  lemma {:induction false} LeafWriteSeen(w: Woods, root: Frame, page: nat, f: Frame, e: Entry, r: Frame, q: nat)
    requires Forest(w) && root in w.roots && Owned(w.limit, 4, page)
    requires Node(w.tables, root, 3, Prefix(page, 3)) == Some(f)
    requires r in w.roots && Name(4, q)
    ensures f in w.tables && f in w.places && w.places[f] == Place(root, 3, Prefix(page, 3))
    ensures Seen(WriteSlot(w, f, Index(page, 3), e).tables, r, q) ==
            if r == root && q == page then (if e.present then Some(Sight(e, 3)) else None)
            else Seen(w.tables, r, q)
  {
    OwnedNode(w, root, page, 3);
    LeafWriteSeenFrom(w, root, page, f, e, r, q, 3);
  }

  lemma {:induction false} LeafWriteSeenFrom(
    w: Woods, root: Frame, page: nat, f: Frame, e: Entry, r: Frame, q: nat, level: nat)
    requires Forest(w) && f in w.tables && f in w.places && w.places[f] == Place(root, 3, Prefix(page, 3))
    requires Node(w.tables, root, 3, Prefix(page, 3)) == Some(f)
    requires r in w.roots && Name(4, q) && level <= 3
    ensures SeenFrom(WriteSlot(w, f, Index(page, 3), e).tables, r, level, q) ==
            if r == root && q == page && level == 3 then (if e.present then Some(Sight(e, 3)) else None)
            else SeenFrom(w.tables, r, level, q)
    decreases level
  {
    var i := Index(page, 3);
    PrefixOwned(512, q, level);
    NothingUnderPages(w.places[f].prefix * 512 + i, level, Prefix(q, level));
    SlotWriteKeepsNode(w, f, i, e, r, level, Prefix(q, level));
    if level == 0 {
    } else {
      LeafWriteSeenFrom(w, root, page, f, e, r, q, level - 1);
    }
    if Node(w.tables, r, level, Prefix(q, level)) == Some(f) {
      assert level == 3 && Prefix(q, 3) == q / 512 && Prefix(page, 3) == page / 512;
      assert Index(q, 3) == i ==> q == page;
    }
  }

  // ------------------------------------------------------------------ growing a table

  /** Hangs a fresh zeroed table under slot `i` of table `f`. */
  function Graft(w: Woods, f: Frame, i: nat, born: Frame, pointer: Entry): Woods
    requires f in w.tables && f in w.places && i < 512
  {
    var at := w.places[f];
    Woods(w.tables[born := Zeroed()][f := w.tables[f][i := pointer]], w.roots, w.limit,
          w.places[born := Place(at.root, at.level + 1, at.prefix * 512 + i)], w.taken + {born})
  }

  ghost predicate CanGraft(w: Woods, f: Frame, i: nat, born: Frame, pointer: Entry) {
    && Forest(w) && f in w.tables && f in w.places && i < 512 && w.places[f].level < 3
    && !w.tables[f][i].present && born !in w.taken && Below(pointer) == Some(born)
    && w.places[f].root in w.roots && Owned(w.limit, w.places[f].level + 1, w.places[f].prefix * 512 + i)
    && Node(w.tables, w.places[f].root, w.places[f].level, w.places[f].prefix) == Some(f)
  }

  lemma OnePlace(w: Woods, f: Frame, r: Frame, l: nat, p: nat)
    requires Forest(w) && r in w.roots && l <= 3 && Name(l, p) && Node(w.tables, r, l, p) == Some(f) && f in w.places
    ensures w.places[f] == Place(r, l, p)
  {
  }

  /** There is no table yet where the new one goes. */
  lemma EmptyBelow(w: Woods, f: Frame, i: nat, born: Frame, pointer: Entry)
    requires CanGraft(w, f, i, born, pointer)
    ensures var at := Graft(w, f, i, born, pointer).places[born]; Node(w.tables, at.root, at.level, at.prefix).None?
  {
    var at := w.places[f];
    assert (at.prefix * 512 + i) / 512 == at.prefix && (at.prefix * 512 + i) % 512 == i;
  }

  lemma {:induction false} GraftNode(w: Woods, f: Frame, i: nat, born: Frame, pointer: Entry, r: Frame, l: nat, p: nat)
    requires CanGraft(w, f, i, born, pointer)
    requires r in w.roots && l <= 3 && Name(l, p)
    ensures var w' := Graft(w, f, i, born, pointer);
            Node(w'.tables, r, l, p) ==
              if Place(r, l, p) == w'.places[born] then Some(born) else Node(w.tables, r, l, p)
    decreases l
  {
    if l == 0 {
    } else {
      hide Forest, Name, Owned;
      GraftNode(w, f, i, born, pointer, r, l - 1, p / 512);
      var at := w.places[f];
      if Node(w.tables, r, l - 1, p / 512) == Some(f) {
        OnePlace(w, f, r, l - 1, p / 512);
      }
      EmptyBelow(w, f, i, born, pointer);
      assert p == p / 512 * 512 + p % 512;
    }
  }

  lemma {:induction false} GraftKeepsForest(w: Woods, f: Frame, i: nat, born: Frame, pointer: Entry)
    requires CanGraft(w, f, i, born, pointer)
    ensures Forest(Graft(w, f, i, born, pointer))
  {
    var w' := Graft(w, f, i, born, pointer);
    forall r, l: nat, p: nat | r in w.roots && l <= 3 && Name(l, p) && Node(w'.tables, r, l, p).Some?
      ensures Placed(w', Node(w'.tables, r, l, p).value, Place(r, l, p))
    {
      GraftNode(w, f, i, born, pointer, r, l, p);
      if Place(r, l, p) != w'.places[born] {
        assert Placed(w, Node(w.tables, r, l, p).value, Place(r, l, p));
      }
    }
  }

  lemma {:induction false} GraftKeepsSurvey(w: Woods, f: Frame, i: nat, born: Frame, pointer: Entry)
    requires CanGraft(w, f, i, born, pointer) && Surveyed(w)
    ensures Surveyed(Graft(w, f, i, born, pointer))
  {
    hide Node, Owned, Name;
    var w' := Graft(w, f, i, born, pointer);
    EmptyBelow(w, f, i, born, pointer);
    forall g | g in w'.places
      ensures Recorded(w', g, w'.places[g])
    {
      var at := w'.places[g];
      if g != born {
        assert Recorded(w, g, at);
      }
      OwnedIsName(w.limit, at.level, at.prefix);
      GraftNode(w, f, i, born, pointer, at.root, at.level, at.prefix);
    }
  }

  lemma {:induction false} GraftEntryAt(
    w: Woods, f: Frame, i: nat, born: Frame, pointer: Entry, r: Frame, q: nat, level: nat)
    requires CanGraft(w, f, i, born, pointer)
    requires r in w.roots && Name(4, q) && level <= 3
    ensures var w' := Graft(w, f, i, born, pointer);
            var at := w'.places[born];
            EntryAt(w'.tables, r, level, q) ==
              if Place(r, level, Prefix(q, level)) == at then Some(EMPTY)
              else if Place(r, level + 1, Prefix(q, level + 1)) == at then Some(pointer)
              else EntryAt(w.tables, r, level, q)
  {
    var at := w.places[f];
    PrefixOwned(512, q, level);
    GraftNode(w, f, i, born, pointer, r, level, Prefix(q, level));
    assert Prefix(q, level) * 512 + Index(q, level) == Prefix(q, level + 1);
    assert Node(w.tables, r, level, Prefix(q, level)) == Some(f) ==> at == Place(r, level, Prefix(q, level));
  }

  lemma {:induction false} GraftSeenFrom(
    w: Woods, f: Frame, i: nat, born: Frame, pointer: Entry, r: Frame, q: nat, level: nat)
    requires CanGraft(w, f, i, born, pointer)
    requires r in w.roots && Name(4, q) && level <= 3
    requires Place(r, level + 1, Prefix(q, level + 1)) != Graft(w, f, i, born, pointer).places[born]
    ensures SeenFrom(Graft(w, f, i, born, pointer).tables, r, level, q) == SeenFrom(w.tables, r, level, q)
    decreases level
  {
    var w' := Graft(w, f, i, born, pointer);
    GraftEntryAt(w, f, i, born, pointer, r, q, level);
    if Place(r, level, Prefix(q, level)) == w'.places[born] {
      // The slot that now leads here was empty, so the shorter walk ended on it and saw nothing.
      assert EntryAt(w.tables, r, level - 1, q) == Some(w.tables[f][i]);
    } else if level > 0 {
      GraftSeenFrom(w, f, i, born, pointer, r, q, level - 1);
    }
  }

  /** A fresh table changes what the tables say about no page at all. */
  lemma {:induction false} GraftSeen(w: Woods, f: Frame, i: nat, born: Frame, pointer: Entry, r: Frame, q: nat)
    requires CanGraft(w, f, i, born, pointer)
    requires r in w.roots && Name(4, q)
    ensures Seen(Graft(w, f, i, born, pointer).tables, r, q) == Seen(w.tables, r, q)
  {
    assert Graft(w, f, i, born, pointer).places[born].level < 4;
    GraftSeenFrom(w, f, i, born, pointer, r, q, 3);
  }

  // ------------------------------------------------------------------ what the processor lets through

  /** A pointer that takes nothing away: the processor grants what every level of the walk grants. */
  predicate OpenPointer(e: Entry) {
    e.user && e.writable && !e.noExec
  }

  /** No pointer of an owned table above the page tables takes anything away. */
  ghost predicate Open(w: Woods) {
    forall f, i :: f in w.places && f in w.tables && 0 <= i < 512 ==> OpenSlot(w, f, i)
  }

  ghost predicate OpenSlot(w: Woods, f: Frame, i: nat)
    requires f in w.places && f in w.tables && i < 512
  {
    var at := w.places[f];
    at.level <= 2 && Owned(w.limit, at.level + 1, at.prefix * 512 + i) && w.tables[f][i].present ==>
      OpenPointer(w.tables[f][i])
  }

  lemma GraftOpens(w: Woods, f: Frame, i: nat, born: Frame, pointer: Entry)
    requires CanGraft(w, f, i, born, pointer) && Open(w) && OpenPointer(pointer) && w.places.Keys <= w.taken
    ensures Open(Graft(w, f, i, born, pointer))
  {
    hide Forest, Owned, Node;
    var w' := Graft(w, f, i, born, pointer);
    forall g, j | g in w'.places && g in w'.tables && 0 <= j < 512
      ensures OpenSlot(w', g, j)
    {
      if g != born {
        assert OpenSlot(w, g, j);
      }
    }
  }

  lemma LeafWriteOpens(w: Woods, f: Frame, i: nat, e: Entry)
    requires Open(w) && f in w.tables && i < 512 && f in w.places && w.places[f].level == 3
    ensures Open(WriteSlot(w, f, i, e))
  {
    var w' := WriteSlot(w, f, i, e);
    forall g, j | g in w'.places && g in w'.tables && 0 <= j < 512
      ensures OpenSlot(w', g, j)
    {
      assert OpenSlot(w, g, j);
    }
  }

  /** Whether every pointer on the walk to a page, above the page tables, grants everything. */
  ghost predicate OpenPath(t: Tables, root: Frame, page: nat) {
    forall l: nat :: l <= 2 ==> OpenAt(t, root, l, page)
  }

  ghost predicate OpenAt(t: Tables, root: Frame, level: nat, page: nat)
    requires level <= 2
  {
    EntryAt(t, root, level, page).Some? && OpenPointer(EntryAt(t, root, level, page).value)
  }

  /** A page that a walk reaches through four levels is reached through open pointers: its leaf alone decides. */
  lemma LeafDecides(w: Woods, root: Frame, page: nat)
    requires Forest(w) && Open(w) && root in w.roots && Owned(w.limit, 4, page)
    requires Seen(w.tables, root, page).Some? && Seen(w.tables, root, page).value.level == 3
    ensures OpenPath(w.tables, root, page)
  {
    hide Forest, Open, Owned, OpenPointer;
    SeenBelow(w.tables, root, 3, page);
    forall l: nat | l <= 2
      ensures OpenAt(w.tables, root, l, page)
    {
      OpenStep(w, root, page, l);
    }
  }

  lemma {:induction false} SeenBelow(t: Tables, root: Frame, level: nat, page: nat)
    requires level <= 3 && SeenFrom(t, root, level, page).Some?
    ensures SeenFrom(t, root, level, page).value.level <= level
    ensures Node(t, root, SeenFrom(t, root, level, page).value.level,
                 Prefix(page, SeenFrom(t, root, level, page).value.level)).Some?
    decreases level
  {
    if EntryAt(t, root, level, page).Some? {
    } else {
      SeenBelow(t, root, level - 1, page);
    }
  }

  lemma {:induction false} OpenStep(w: Woods, root: Frame, page: nat, level: nat)
    requires Forest(w) && Open(w) && root in w.roots && Owned(w.limit, 4, page) && level <= 2
    requires Node(w.tables, root, 3, Prefix(page, 3)).Some?
    ensures OpenAt(w.tables, root, level, page)
  {
    hide Owned, OpenPointer;
    NodeAbove(w.tables, root, page, level);
    OwnedNode(w, root, page, level);
    PrefixOwned(w.limit, page, level + 1);
    var f := Node(w.tables, root, level, Prefix(page, level)).value;
    assert Prefix(page, level) * 512 + Index(page, level) == Prefix(page, level + 1);
    assert OpenSlot(w, f, Index(page, level));
  }

  lemma {:induction false} NodeAbove(t: Tables, root: Frame, page: nat, level: nat)
    requires level <= 2 && Node(t, root, 3, Prefix(page, 3)).Some?
    ensures Node(t, root, level + 1, Prefix(page, level + 1)).Some?
    ensures Node(t, root, level, Prefix(page, level)).Some?
    ensures EntryAt(t, root, level, page).Some? && EntryAt(t, root, level, page).value.present
    decreases 2 - level
  {
    if level == 2 {
    } else {
      NodeAbove(t, root, page, level + 1);
    }
    assert Prefix(page, level + 1) / 512 == Prefix(page, level);
  }
}
