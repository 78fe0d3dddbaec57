/**
 The heap's blocks as words in memory: headers, footers and the list of free blocks threaded through
 the headers. The lemmas say which words an operation may touch without harm to the other blocks.
 */
module HeapWords {
  import opened Wrappers
  import opened HeapBlocks

  /** Memory as words, named by their byte address. Nothing is known of a word never written. */
  type Memory = map<nat, nat>

  function Word(m: Memory, a: nat): nat {
    if a in m then m[a] else 0
  }

  const FREE_STATE: nat := 0
  const LIVE_STATE: nat := 1

  // ------------------------------------------------------------------ what the words mean

  /**
   Header and footer of a block. The link of a free block is the list's business; a live block keeps the
   one it was taken from the list with, the address of a block or 0.
   */
  ghost predicate Stored(m: Memory, b: Block) {
    && Word(m, b.addr) == b.payload
    && Word(m, b.addr + 8) == (if b.live then LIVE_STATE else FREE_STATE)
    && (b.live ==> Word(m, b.addr + 16) % ALIGN == 0)
    && Word(m, b.addr + 24) == 0
    && Word(m, b.addr + HEADER + b.payload) == Span(b.payload)
  }

  ghost predicate InMemory(m: Memory, row: Row) {
    forall i :: 0 <= i < |row| ==> Stored(m, row[i])
  }

  /** The link words lead from `head` through `list` to 0. */
  ghost predicate Chain(m: Memory, head: nat, list: seq<nat>) {
    && head == (if list == [] then 0 else list[0])
    && forall i :: 0 <= i < |list| ==> LinkAt(m, list, i)
  }

  ghost predicate LinkAt(m: Memory, list: seq<nat>, i: nat)
    requires i < |list|
  {
    list[i] != 0 && Word(m, list[i] + 16) == if i + 1 < |list| then list[i + 1] else 0
  }

  ghost predicate Sorted(list: seq<nat>) {
    forall i, j :: 0 <= i < j < |list| ==> list[i] < list[j]
  }

  lemma SortedWithout(xs: seq<nat>, block: nat, ys: seq<nat>)
    requires Sorted(xs + [block] + ys)
    ensures Sorted(xs + ys)
  {
    var list, less := xs + [block] + ys, xs + ys;
    forall i, j | 0 <= i < j < |less|
      ensures less[i] < less[j]
    {
      assert less[i] == (if i < |xs| then list[i] else list[i + 1]);
      assert less[j] == (if j < |xs| then list[j] else list[j + 1]);
    }
  }

  /** Nothing changed but words of [lo, hi) and the links of `list`. */
  ghost predicate Touched(m: Memory, m': Memory, lo: nat, hi: nat, list: seq<nat>) {
    forall a: nat :: !(lo <= a < hi) && NotLink(a, list) ==> Word(m', a) == Word(m, a)
  }

  ghost predicate NotLink(a: nat, list: seq<nat>) {
    forall x :: x in list ==> a != x + 16
  }

  lemma ReadStored(m: Memory, b: Block)
    requires Stored(m, b)
    ensures Word(m, b.addr) == b.payload && Word(m, b.addr + 8) == (if b.live then LIVE_STATE else FREE_STATE)
    ensures Word(m, b.addr + 24) == 0
    ensures Word(m, b.addr + HEADER + b.payload) == Span(b.payload)
  {
  }

  lemma ReadBlock(m: Memory, row: Row, i: nat)
    requires InMemory(m, row) && i < |row|
    ensures Word(m, row[i].addr) == row[i].payload
    ensures Word(m, row[i].addr + 8) == (if row[i].live then LIVE_STATE else FREE_STATE)
    ensures Word(m, row[i].addr + HEADER + row[i].payload) == Span(row[i].payload)
  {
    ReadStored(m, row[i]);
  }

  // ------------------------------------------------------------------ the list

  /** The memory with `block` linked between `xs` and `ys`. */
  function Inserted(m: Memory, xs: seq<nat>, ys: seq<nat>, block: nat): Memory {
    var linked := m[block + 16 := if ys == [] then 0 else ys[0]];
    if xs == [] then linked else linked[xs[|xs| - 1] + 16 := block]
  }

  lemma InsertedWord(m: Memory, xs: seq<nat>, ys: seq<nat>, block: nat, a: nat)
    ensures Word(Inserted(m, xs, ys, block), a) ==
            if xs != [] && a == xs[|xs| - 1] + 16 then block
            else if a == block + 16 then (if ys == [] then 0 else ys[0])
            else Word(m, a)
  {
  }

  lemma ChainInsert(m: Memory, head: nat, xs: seq<nat>, ys: seq<nat>, block: nat)
    requires block > 0 && Chain(m, head, xs + ys) && Sorted(xs + ys)
    requires (forall x :: x in xs ==> x < block) && (forall y :: y in ys ==> block < y)
    ensures Chain(Inserted(m, xs, ys, block), if xs == [] then block else head, xs + [block] + ys)
    ensures Touched(m, Inserted(m, xs, ys, block), 0, 0, xs + [block] + ys)
  {
    hide Inserted, Word, LinkAt;
    var more := xs + [block] + ys;
    forall i | 0 <= i < |more|
      ensures LinkAt(Inserted(m, xs, ys, block), more, i)
    {
      if i < |xs| {
        assert xs[i] in xs;
        LinkBefore(m, xs, ys, block, i);
      } else if i > |xs| {
        LinkBehind(m, xs, ys, block, i);
      } else {
        LinkItself(m, xs, ys, block);
      }
    }
    assert block in more;
    assert xs != [] ==> more[|xs| - 1] == xs[|xs| - 1] && more[|xs| - 1] in more;
    forall a: nat | NotLink(a, more)
      ensures Word(Inserted(m, xs, ys, block), a) == Word(m, a)
    {
      InsertedWord(m, xs, ys, block, a);
    }
  }

  lemma LinkBefore(m: Memory, xs: seq<nat>, ys: seq<nat>, block: nat, i: nat)
    requires i < |xs| && LinkAt(m, xs + ys, i) && Sorted(xs + ys) && xs[i] < block
    ensures LinkAt(Inserted(m, xs, ys, block), xs + [block] + ys, i)
  {
    hide Inserted, Word;
    var list, more := xs + ys, xs + [block] + ys;
    InsertedWord(m, xs, ys, block, xs[i] + 16);
    assert more[i] == xs[i] == list[i] && more[|xs|] == block;
    assert i + 1 < |xs| ==> list[i] < list[|xs| - 1] && more[i + 1] == list[i + 1];
  }

  lemma LinkItself(m: Memory, xs: seq<nat>, ys: seq<nat>, block: nat)
    requires block > 0 && forall x :: x in xs ==> x < block
    ensures LinkAt(Inserted(m, xs, ys, block), xs + [block] + ys, |xs|)
  {
    hide Inserted, Word;
    var more := xs + [block] + ys;
    InsertedWord(m, xs, ys, block, block + 16);
    assert more[|xs|] == block && (xs != [] ==> xs[|xs| - 1] in xs);
    assert ys != [] ==> more[|xs| + 1] == ys[0];
  }

  lemma LinkBehind(m: Memory, xs: seq<nat>, ys: seq<nat>, block: nat, i: nat)
    requires |xs| < i <= |xs| + |ys| && LinkAt(m, xs + ys, i - 1) && Sorted(xs + ys)
    requires forall y :: y in ys ==> block < y
    ensures LinkAt(Inserted(m, xs, ys, block), xs + [block] + ys, i)
  {
    hide Inserted, Word;
    var list, more, y := xs + ys, xs + [block] + ys, ys[i - |xs| - 1];
    InsertedWord(m, xs, ys, block, y + 16);
    assert more[i] == y == list[i - 1] && y in ys;
    assert xs != [] ==> list[|xs| - 1] == xs[|xs| - 1] && list[|xs| - 1] < list[i - 1];
    assert i + 1 < |more| ==> more[i + 1] == list[i];
  }

  /** The memory with `block` passed over between `xs` and `ys`. */
  function Removed(m: Memory, xs: seq<nat>, ys: seq<nat>): Memory {
    if xs == [] then m else m[xs[|xs| - 1] + 16 := if ys == [] then 0 else ys[0]]
  }

  lemma ChainRemove(m: Memory, head: nat, xs: seq<nat>, ys: seq<nat>, block: nat)
    requires Chain(m, head, xs + [block] + ys) && Sorted(xs + [block] + ys)
    ensures Chain(Removed(m, xs, ys), if xs == [] then Word(m, block + 16) else head, xs + ys)
    ensures Touched(m, Removed(m, xs, ys), 0, 0, xs + [block] + ys)
    ensures Word(m, block + 16) == if ys == [] then 0 else ys[0]
  {
    var list, less, m' := xs + [block] + ys, xs + ys, Removed(m, xs, ys);
    assert list[|xs|] == block && LinkAt(m, list, |xs|);
    assert ys != [] ==> list[|xs| + 1] == ys[0];
    assert xs != [] ==> list[|xs| - 1] == xs[|xs| - 1] && list[0] == xs[0];
    forall i | 0 <= i < |less|
      ensures LinkAt(m', less, i)
    {
      if i < |xs| {
        assert less[i] == list[i] && LinkAt(m, list, i);
        assert i + 1 < |xs| ==> list[i] < list[|xs| - 1] && list[i + 1] == less[i + 1];
      } else {
        assert less[i] == list[i + 1] && LinkAt(m, list, i + 1);
        assert xs != [] ==> list[|xs| - 1] < list[i + 1];
        assert i + 1 < |less| ==> list[i + 2] == less[i + 1];
      }
    }
    assert xs != [] ==> list[|xs| - 1] in list;
    forall a: nat | NotLink(a, list)
      ensures Word(m', a) == Word(m, a)
    {
      assert xs != [] ==> a != list[|xs| - 1] + 16;
    }
  }

  // ------------------------------------------------------------------ which words matter to whom

  lemma TouchedTwice(m0: Memory, m1: Memory, m2: Memory, lo: nat, hi: nat, list: seq<nat>)
    requires Touched(m0, m1, lo, hi, list) && Touched(m1, m2, lo, hi, list)
    ensures Touched(m0, m2, lo, hi, list)
  {
  }

  lemma TouchedWiden(m: Memory, m': Memory, lo: nat, hi: nat, narrow: seq<nat>, lo': nat, hi': nat, list: seq<nat>)
    requires Touched(m, m', lo, hi, narrow) && (lo < hi ==> lo' <= lo && hi <= hi')
    requires forall x :: x in narrow ==> x in list || lo' <= x + 16 < hi'
    ensures Touched(m, m', lo', hi', list)
  {
    forall a: nat | !(lo' <= a < hi') && NotLink(a, list)
      ensures Word(m', a) == Word(m, a)
    {
      assert NotLink(a, narrow);
    }
  }

  /** Writing between the list's link words leaves the list alone. */
  lemma ChainFrame(m: Memory, m': Memory, head: nat, list: seq<nat>, lo: nat, hi: nat)
    requires Chain(m, head, list) && Touched(m, m', lo, hi, [])
    requires forall x :: x in list ==> x + 16 < lo || hi <= x + 16
    ensures Chain(m', head, list)
  {
    forall i | 0 <= i < |list|
      ensures LinkAt(m', list, i)
    {
      assert LinkAt(m, list, i) && list[i] in list && NotLink(list[i] + 16, []);
    }
  }

  /** A link word is never a size, state, spare, payload or footer word of any block, nor a live one's link. */
  lemma NotALink(row: Row, lo: nat, hi: nat, j: nat, a: nat)
    requires Tiled(row, lo, hi) && j < |row|
    requires || a == row[j].addr || a == row[j].addr + 8 || a == row[j].addr + 24
             || row[j].addr + HEADER <= a < End(row[j]) || (row[j].live && a == row[j].addr + 16)
    ensures NotLink(a, FreeList(row))
  {
    hide Tiled;
    forall x | x in FreeList(row)
      ensures a != x + 16
    {
      var k :| 0 <= k < |FreeList(row)| && FreeList(row)[k] == x;
      var i := FreeIndex(row, k);
      if i < j {
        RowOrder(row, lo, hi, i, j);
      } else if j < i {
        RowOrder(row, lo, hi, j, i);
      }
    }
  }

  /** A block outside the written zone keeps its header, footer and payload. */
  lemma OutsideZone(m: Memory, m': Memory, row: Row, lo: nat, hi: nat, zlo: nat, zhi: nat, j: nat)
    requires Tiled(row, lo, hi) && j < |row| && (End(row[j]) <= zlo || zhi <= row[j].addr)
    requires Touched(m, m', zlo, zhi, FreeList(row))
    ensures Stored(m, row[j]) ==> Stored(m', row[j])
    ensures SamePayload(m, m', row[j])
  {
    hide Tiled, FreeList;
    var b := row[j];
    NotALink(row, lo, hi, j, b.addr);
    NotALink(row, lo, hi, j, b.addr + 8);
    NotALink(row, lo, hi, j, b.addr + 24);
    NotALink(row, lo, hi, j, b.addr + HEADER + b.payload);
    if b.live {
      NotALink(row, lo, hi, j, b.addr + 16);
    }
    forall a: nat | b.addr + HEADER <= a < End(b)
      ensures Word(m', a) == Word(m, a)
    {
      NotALink(row, lo, hi, j, a);
    }
  }

  ghost predicate SamePayload(m: Memory, m': Memory, b: Block) {
    forall a: nat :: b.addr + HEADER <= a < End(b) ==> Word(m', a) == Word(m, a)
  }

  /** Every payload live both before and after holds what it held. */
  ghost predicate Untouched(m: Memory, m': Memory, row: Row, row': Row) {
    forall b :: b in row && b in row' && b.live ==> SamePayload(m, m', b)
  }

  /** The rest of the row survives an operation that writes only its own zone and the links. */
  lemma ReplaceInMemory(m: Memory, m': Memory, row: Row, lo: nat, hi: nat, from: nat, to: nat, zlo: nat, zhi: nat,
                        middle: Row)
    requires Tiled(row, lo, hi) && from <= to <= |row| && InMemory(m, row)
    requires forall j :: 0 <= j < from ==> End(row[j]) <= zlo
    requires forall j :: to <= j < |row| ==> zhi <= row[j].addr
    requires Touched(m, m', zlo, zhi, FreeList(row)) && InMemory(m', middle)
    ensures InMemory(m', Replace(row, from, to, middle))
    ensures forall j :: 0 <= j < |row| && !(from <= j < to) ==> SamePayload(m, m', row[j])
  {
    hide Tiled, FreeList, Touched, Stored, SamePayload;
    forall j | 0 <= j < |row| && !(from <= j < to)
      ensures Stored(m', row[j]) && SamePayload(m, m', row[j])
    {
      OutsideZone(m, m', row, lo, hi, zlo, zhi, j);
    }
    var row' := Replace(row, from, to, middle);
    forall j | 0 <= j < |row'|
      ensures Stored(m', row'[j])
    {
      if j >= from + |middle| {
        assert row'[j] == row[j - from - |middle| + to];
      } else if j >= from {
        assert row'[j] == middle[j - from];
      }
    }
  }

  /** The blocks on both sides of `from..to`, and their places in the free list. */
  lemma Sides(row: Row, lo: nat, hi: nat, from: nat, to: nat)
    requires Tiled(row, lo, hi) && from < to <= |row|
    ensures forall j :: 0 <= j < from ==> End(row[j]) <= row[from].addr
    ensures forall j :: to <= j < |row| ==> End(row[to - 1]) <= row[j].addr
    ensures forall x :: x in FreeList(row[..from]) ==> lo <= x && x + Span(MIN_PAYLOAD) <= row[from].addr
    ensures forall y :: y in FreeList(row[to..]) ==> End(row[to - 1]) <= y
    ensures Sorted(FreeList(row))
  {
    hide Tiled, FreeList;
    forall j | 0 <= j < from
      ensures End(row[j]) <= row[from].addr
    {
      RowOrder(row, lo, hi, j, from);
    }
    forall j | to <= j < |row|
      ensures End(row[to - 1]) <= row[j].addr
    {
      RowOrder(row, lo, hi, to - 1, j);
    }
    PiecesTile(row, lo, hi, from, to);
    FreeListWithin(row[..from], lo, row[from].addr);
    FreeListWithin(row[to..], End(row[to - 1]), hi);
    FreeListSorted(row, lo, hi);
  }

  /** Linking a free block in does not disturb its own header and footer. */
  lemma LinkedStored(m: Memory, m': Memory, b: Block, xs: seq<nat>, ys: seq<nat>)
    requires Stored(m, b) && !b.live && Touched(m, m', 0, 0, xs + [b.addr] + ys)
    requires (forall x :: x in xs ==> x + 16 < b.addr) && (forall y :: y in ys ==> End(b) <= y)
    ensures Stored(m', b)
  {
    assert NotLink(b.addr, xs + [b.addr] + ys) && NotLink(b.addr + 8, xs + [b.addr] + ys);
    assert NotLink(b.addr + 24, xs + [b.addr] + ys);
    assert NotLink(b.addr + HEADER + b.payload, xs + [b.addr] + ys);
  }

  lemma FrameStored(m: Memory, m': Memory, b: Block, lo: nat, hi: nat)
    requires Stored(m, b) && Touched(m, m', lo, hi, []) && (End(b) <= lo || hi <= b.addr)
    ensures Stored(m', b)
  {
    assert NotLink(b.addr, []) && NotLink(b.addr + 8, []) && NotLink(b.addr + 16, []) && NotLink(b.addr + 24, []);
    assert NotLink(b.addr + HEADER + b.payload, []);
  }

  /** An operation on blocks `from..to` leaves every other block, and every other live payload, as it was. */
  lemma OperationDone(m: Memory, m': Memory, row: Row, lo: nat, hi: nat, from: nat, to: nat, middle: Row)
    requires Tiled(row, lo, hi) && from < to <= |row| && InMemory(m, row)
    requires Touched(m, m', row[from].addr, End(row[to - 1]), FreeList(row)) && InMemory(m', middle)
    requires forall j :: from <= j < to && row[j].live ==> row[j] !in Replace(row, from, to, middle)
    ensures InMemory(m', Replace(row, from, to, middle))
    ensures Untouched(m, m', row, Replace(row, from, to, middle))
  {
    hide Tiled, FreeList, Touched, Replace, SamePayload, InMemory;
    Sides(row, lo, hi, from, to);
    ReplaceInMemory(m, m', row, lo, hi, from, to, row[from].addr, End(row[to - 1]), middle);
  }

  /** Taking a block off the list leaves all headers and footers readable. */
  lemma AfterUnlink(m: Memory, m': Memory, row: Row, lo: nat, hi: nat, at: nat)
    requires Tiled(row, lo, hi) && at < |row| && InMemory(m, row) && Touched(m, m', 0, 0, FreeList(row))
    ensures Stored(m', row[at])
    ensures Touched(m, m', row[at].addr, End(row[at]), FreeList(row))
  {
    hide Tiled, FreeList;
    OutsideZone(m, m', row, lo, hi, 0, 0, at);
    assert Stored(m, row[at]);
    TouchedWiden(m, m', 0, 0, FreeList(row), row[at].addr, End(row[at]), FreeList(row));
  }

  ghost predicate Beside(b: Block, xs: seq<nat>, ys: seq<nat>) {
    (forall x :: x in xs ==> x + Span(MIN_PAYLOAD) <= b.addr) && (forall y :: y in ys ==> End(b) <= y)
  }

  /** The words after a block was split: `m1` unlinked, `m2` tail made, `m3` tail linked, `m4` header rewritten. */
  lemma Carved(m1: Memory, m2: Memory, m3: Memory, m4: Memory, b: Block, wanted: nat, head: nat, xs: seq<nat>,
               ys: seq<nat>)
    requires b.payload >= wanted && |SplitOf(b, wanted)| == 2 && Beside(b, xs, ys)
    requires Word(m1, b.addr + 16) % ALIGN == 0 && Word(m1, b.addr + 24) == 0
    requires var t := SplitOf(b, wanted)[1];
             && Stored(m2, t) && Touched(m1, m2, t.addr, End(b), [])
             && Touched(m2, m3, 0, 0, xs + [t.addr] + ys) && Chain(m3, head, xs + [t.addr] + ys)
             && m4 == m3[b.addr := wanted][b.addr + HEADER + wanted := Span(wanted)][b.addr + 8 := LIVE_STATE]
    ensures var t := SplitOf(b, wanted)[1];
            Chain(m4, head, xs + [t.addr] + ys) && InMemory(m4, SplitOf(b, wanted))
    ensures Touched(m1, m4, b.addr, End(b), xs + [b.addr] + ys)
  {
    hide Word, Chain, NotLink;
    var t, list := SplitOf(b, wanted)[1], xs + [b.addr] + ys;
    LinkedStored(m2, m3, t, xs, ys);
    HeaderWritten(m3, m4, b, wanted);
    FrameStored(m3, m4, t, b.addr, t.addr);
    ChainFrame(m3, m4, head, xs + [t.addr] + ys, b.addr, t.addr);
    CarvedHeader(m1, m2, m3, b, t, xs, ys);
    TouchedWiden(m1, m2, t.addr, End(b), [], b.addr, End(b), list);
    TouchedWiden(m2, m3, 0, 0, xs + [t.addr] + ys, b.addr, End(b), list);
    TouchedWiden(m3, m4, b.addr, t.addr, [], b.addr, End(b), list);
    TouchedTwice(m1, m2, m3, b.addr, End(b), list);
    TouchedTwice(m1, m3, m4, b.addr, End(b), list);
  }

  /** The header and footer of the block that is handed out, written between two others. */
  lemma HeaderWritten(m3: Memory, m4: Memory, b: Block, wanted: nat)
    requires m4 == m3[b.addr := wanted][b.addr + HEADER + wanted := Span(wanted)][b.addr + 8 := LIVE_STATE]
    ensures Touched(m3, m4, b.addr, b.addr + Span(wanted), [])
    ensures Word(m3, b.addr + 16) % ALIGN == 0 && Word(m3, b.addr + 24) == 0 ==> Stored(m4, Block(b.addr, wanted, true))
  {
  }

  /** Making and linking the tail leaves the other header words of the block in front alone. */
  lemma CarvedHeader(m1: Memory, m2: Memory, m3: Memory, b: Block, t: Block, xs: seq<nat>, ys: seq<nat>)
    requires b.addr + Span(0) <= t.addr && Beside(b, xs, ys)
    requires Touched(m1, m2, t.addr, End(b), []) && Touched(m2, m3, 0, 0, xs + [t.addr] + ys)
    ensures Word(m3, b.addr + 16) == Word(m1, b.addr + 16) && Word(m3, b.addr + 24) == Word(m1, b.addr + 24)
  {
    assert NotLink(b.addr + 16, []) && NotLink(b.addr + 24, []);
    assert NotLink(b.addr + 16, xs + [t.addr] + ys) && NotLink(b.addr + 24, xs + [t.addr] + ys);
  }

  /** The words after a block was handed out whole. */
  lemma Whole(m1: Memory, m2: Memory, b: Block, head: nat, xs: seq<nat>, ys: seq<nat>)
    requires Stored(m1, b) && Chain(m1, head, xs + ys) && m2 == m1[b.addr + 8 := LIVE_STATE] && Beside(b, xs, ys)
    requires Word(m1, b.addr + 16) % ALIGN == 0
    ensures Chain(m2, head, xs + ys) && InMemory(m2, [b.(live := true)])
    ensures Touched(m1, m2, b.addr, End(b), xs + [b.addr] + ys)
  {
    ChainFrame(m1, m2, head, xs + ys, b.addr, End(b));
  }

  lemma StillInMemory(m: Memory, m': Memory, row: Row, lo: nat, hi: nat)
    requires Tiled(row, lo, hi) && InMemory(m, row) && Touched(m, m', 0, 0, FreeList(row))
    ensures InMemory(m', row)
  {
    hide Tiled, FreeList, Touched, Stored;
    forall j | 0 <= j < |row|
      ensures Stored(m', row[j])
    {
      OutsideZone(m, m', row, lo, hi, 0, 0, j);
    }
  }

  lemma ChainSame(m: Memory, m': Memory, head: nat, list: seq<nat>)
    requires Chain(m, head, list)
    requires forall x :: x in list ==> Word(m', x + 16) == Word(m, x + 16)
    ensures Chain(m', head, list)
  {
    forall i | 0 <= i < |list|
      ensures LinkAt(m', list, i)
    {
      assert LinkAt(m, list, i) && list[i] in list;
    }
  }

  lemma WroteBetween(m1: Memory, m2: Memory, b: Block, head: nat, xs: seq<nat>, ys: seq<nat>)
    requires Beside(b, xs, ys) && Chain(m1, head, xs + ys)
    requires m2 == m1[b.addr := b.payload][b.addr + 8 := FREE_STATE][b.addr + HEADER + b.payload := Span(b.payload)]
    ensures Chain(m2, head, xs + ys)
  {
    ChainFrame(m1, m2, head, xs + ys, b.addr, End(b));
  }

  /** The words of a freed block that starts the merged one: `m1` rewritten to `m2`, then linked. */
  lemma MergedAlone(m1: Memory, m2: Memory, m3: Memory, b: Block, xs: seq<nat>, ys: seq<nat>)
    requires !b.live && Beside(b, xs, ys) && Word(m1, b.addr + 24) == 0
    requires m2 == m1[b.addr := b.payload][b.addr + 8 := FREE_STATE][b.addr + HEADER + b.payload := Span(b.payload)]
    requires Touched(m2, m3, 0, 0, xs + [b.addr] + ys)
    ensures Stored(m3, b) && Word(m3, b.addr + 8) == FREE_STATE && Touched(m1, m3, b.addr, End(b), xs + ys)
  {
    LinkedStored(m2, m3, b, xs, ys);
    TouchedWiden(m2, m3, 0, 0, xs + [b.addr] + ys, b.addr, End(b), xs + ys);
    TouchedWiden(m1, m2, b.addr, End(b), [], b.addr, End(b), xs + ys);
  }

  /** The words of a freed block merged into the free one before it, which is listed already. */
  lemma MergedBefore(m1: Memory, m2: Memory, b: Block, block: nat, head: nat, xs: seq<nat>, ys: seq<nat>)
    requires !b.live && Beside(b, xs, ys) && Chain(m1, head, xs + [b.addr] + ys) && Word(m1, b.addr + 24) == 0
    requires b.addr + HEADER <= block && block + HEADER <= End(b) - FOOTER
    requires m2 == m1[b.addr := b.payload][b.addr + 8 := FREE_STATE]
                     [b.addr + HEADER + b.payload := Span(b.payload)][block + 8 := FREE_STATE]
    ensures Chain(m2, head, xs + [b.addr] + ys)
    ensures Stored(m2, b) && Word(m2, block + 8) == FREE_STATE && Touched(m1, m2, b.addr, End(b), xs + ys)
  {
    ChainSame(m1, m2, head, xs + [b.addr] + ys);
    TouchedWiden(m1, m2, b.addr, End(b), [], b.addr, End(b), xs + ys);
  }

  /** Freeing block `at` is done once only its merged block and the links were written. */
  lemma MergeDone(m0: Memory, m1: Memory, m2: Memory, row: Row, lo: nat, hi: nat, at: nat)
    requires Tiled(row, lo, hi) && InMemory(m0, row) && at < |row| && row[at].live
    requires Touched(m0, m1, 0, 0, FreeList(row)) && Stored(m2, Merged(row, at))
    requires Touched(m1, m2, Merged(row, at).addr, End(Merged(row, at)),
               FreeList(row[..First(row, at)]) + FreeList(row[Past(row, at)..]))
    ensures InMemory(m2, Freed(row, at)) && Untouched(m0, m2, row, Freed(row, at))
  {
    hide Tiled, FreeList, Touched, InMemory, Untouched, Stored;
    var b, list := Merged(row, at), FreeList(row);
    MergedSpan(row, lo, hi, at);
    FreedList(row, at);
    TouchedWiden(m0, m1, 0, 0, list, b.addr, End(b), list);
    var apart := FreeList(row[..First(row, at)]) + FreeList(row[Past(row, at)..]);
    TouchedWiden(m1, m2, b.addr, End(b), apart, b.addr, End(b), list);
    TouchedTwice(m0, m1, m2, b.addr, End(b), list);
    FreedGone(row, lo, hi, at);
    OneInMemory(m2, b);
    OperationDone(m0, m2, row, lo, hi, First(row, at), Past(row, at), [b]);
  }

  lemma MergedSpare(m: Memory, row: Row, at: nat)
    requires InMemory(m, row) && at < |row|
    ensures Word(m, Merged(row, at).addr + 24) == 0
  {
    assert Stored(m, row[First(row, at)]);
  }

  lemma OneInMemory(m: Memory, b: Block)
    requires Stored(m, b)
    ensures InMemory(m, [b])
  {
  }

  lemma NothingTouched(m: Memory, list: seq<nat>)
    ensures Touched(m, m, 0, 0, list)
  {
  }

  lemma FreedSorted(row: Row, lo: nat, hi: nat, at: nat)
    requires Tiled(row, lo, hi) && at < |row|
    ensures Sorted(FreeList(Freed(row, at)))
  {
    FreedTiles(row, lo, hi, at);
    FreeListSorted(Freed(row, at), lo, hi);
  }

  /** Where the merged block stands between the list entries it leaves alone. */
  lemma MergePlan(row: Row, lo: nat, hi: nat, at: nat)
    requires Tiled(row, lo, hi) && at < |row| && row[at].live
    ensures var b, xs, ys := Merged(row, at), FreeList(row[..First(row, at)]), FreeList(row[Past(row, at)..]);
            && Beside(b, xs, ys) && Sorted(xs + ys) && lo <= b.addr
            && (forall x :: x in xs ==> x < b.addr) && (forall y :: y in ys ==> b.addr < y)
            && ListWithoutNext(row, at) == (if JoinsPrev(row, at) then xs + [b.addr] + ys else xs + ys)
            && FreeList(Freed(row, at)) == xs + [b.addr] + ys
            && if JoinsPrev(row, at) then b.addr + HEADER <= row[at].addr && row[at].addr + HEADER <= End(b) - FOOTER
                 else b.addr == row[at].addr
  {
    hide Tiled, FreeList, Freed, Sorted;
    var b, xs, ys := Merged(row, at), FreeList(row[..First(row, at)]), FreeList(row[Past(row, at)..]);
    MergedSpan(row, lo, hi, at);
    Neighbours(row, lo, hi, at);
    FreedList(row, at);
    Sides(row, lo, hi, First(row, at), Past(row, at));
    InRow(row, lo, hi, First(row, at));
    FreedSorted(row, lo, hi, at);
    SortedWithout(xs, b.addr, ys);
    assert xs + [] + ys == xs + ys;
  }

  /** Memory added at the top became a block of its own: `m1` made, `m2` linked. */
  lemma GrewAlone(m0: Memory, m1: Memory, m2: Memory, row: Row, lo: nat, top: nat, b: Block)
    requires Tiled(row, lo, top) && InMemory(m0, row) && b.addr == top && lo <= top && !b.live
    requires Stored(m1, b) && Touched(m0, m1, top, End(b), []) && Touched(m1, m2, 0, 0, FreeList(row) + [top] + [])
    ensures InMemory(m2, row + [b]) && Untouched(m0, m2, row, row + [b])
  {
    hide Tiled, FreeList;
    var list, n := FreeList(row), |row|;
    FreeListWithin(row, lo, top);
    LinkedStored(m1, m2, b, list, []);
    TouchedWiden(m0, m1, top, End(b), [], top, End(b), list);
    TouchedWiden(m1, m2, 0, 0, list + [top] + [], top, End(b), list);
    forall j | 0 <= j < n
      ensures End(row[j]) <= top
    {
      InRow(row, lo, top, j);
    }
    ReplaceInMemory(m0, m2, row, lo, top, n, n, top, End(b), [b]);
    assert Replace(row, n, n, [b]) == row + [b];
  }

  /** Memory added at the top joined the free last block. */
  lemma GrewInto(m0: Memory, m1: Memory, m2: Memory, row: Row, lo: nat, top: nat, head: nat, b: Block)
    requires Tiled(row, lo, top) && InMemory(m0, row) && row != [] && !row[|row| - 1].live
    requires Chain(m0, head, FreeList(row))
    requires b.addr == row[|row| - 1].addr && !b.live && End(b) > top && End(row[|row| - 1]) == top
    requires Touched(m0, m1, top, End(b), [])
    requires m2 == m1[b.addr := b.payload][b.addr + HEADER + b.payload := Span(b.payload)]
    requires b.payload >= row[|row| - 1].payload + Span(MIN_PAYLOAD)
    ensures InMemory(m2, row[..|row| - 1] + [b]) && Untouched(m0, m2, row, row[..|row| - 1] + [b])
    ensures Chain(m2, head, FreeList(row))
  {
    hide Tiled, FreeList, Touched, Word, Chain, Untouched, SamePayload, InMemory;
    var list, n := FreeList(row), |row|;
    var was := row[n - 1];
    LastStored(m0, row);
    FrameStored(m0, m1, was, top, End(b));
    Lengthened(m1, m2, was, b, list);
    FreeListWithin(row, lo, top);
    LengthenedChain(m0, m1, m2, row, lo, top, head, b);
    TouchedWiden(m0, m1, top, End(b), [], was.addr, End(b), list);
    TouchedTwice(m0, m1, m2, was.addr, End(b), list);
    Sides(row, lo, top, n - 1, n);
    OneInMemory(m2, b);
    ReplaceInMemory(m0, m2, row, lo, top, n - 1, n, was.addr, End(b), [b]);
    assert Replace(row, n - 1, n, [b]) == row[..n - 1] + [b];
    FreeIsNoPayload(m0, m2, row, row[..n - 1] + [b]);
  }

  lemma LastStored(m: Memory, row: Row)
    requires InMemory(m, row) && row != []
    ensures Stored(m, row[|row| - 1])
  {
  }

  /** Only the last block could have changed, and nobody owns it. */
  lemma FreeIsNoPayload(m: Memory, m': Memory, row: Row, row': Row)
    requires row != [] && !row[|row| - 1].live
    requires forall j :: 0 <= j < |row| && !(|row| - 1 <= j < |row|) ==> SamePayload(m, m', row[j])
    ensures Untouched(m, m', row, row')
  {
    hide SamePayload;
  }

  /** A longer size and a new footer make a longer block. */
  lemma Lengthened(m1: Memory, m2: Memory, was: Block, b: Block, list: seq<nat>)
    requires Stored(m1, was) && !was.live && !b.live && b.addr == was.addr && b.payload >= was.payload
    requires m2 == m1[b.addr := b.payload][b.addr + HEADER + b.payload := Span(b.payload)]
    ensures Stored(m2, b) && Touched(m1, m2, was.addr, End(b), list)
  {
  }

  lemma LengthenedChain(m0: Memory, m1: Memory, m2: Memory, row: Row, lo: nat, top: nat, head: nat, b: Block)
    requires Tiled(row, lo, top) && row != [] && Chain(m0, head, FreeList(row)) && b.addr == row[|row| - 1].addr
    requires Touched(m0, m1, top, End(b), []) && End(b) > top
    requires b.payload >= row[|row| - 1].payload + Span(MIN_PAYLOAD) && End(row[|row| - 1]) == top
    requires m2 == m1[b.addr := b.payload][b.addr + HEADER + b.payload := Span(b.payload)]
    ensures Chain(m2, head, FreeList(row))
  {
    hide Tiled, FreeList, Chain;
    var list := FreeList(row);
    FreeListWithin(row, lo, top);
    NotALink(row, lo, top, |row| - 1, b.addr);
    forall x | x in list
      ensures Word(m2, x + 16) == Word(m0, x + 16)
    {
      assert NotLink(x + 16, []);
    }
    ChainSame(m0, m2, head, list);
  }

  /** The last block is readable from the old top after a block was made above it. */
  lemma LastBlock(m0: Memory, m1: Memory, row: Row, lo: nat, top: nat, newTop: nat)
    requires Tiled(row, lo, top) && InMemory(m0, row) && row != [] && top <= newTop && Touched(m0, m1, top, newTop, [])
    ensures var b := row[|row| - 1];
            && End(b) == top > lo && Word(m1, top - FOOTER) == Span(b.payload)
            && Word(m1, b.addr) == b.payload && Word(m1, b.addr + 8) == if b.live then LIVE_STATE else FREE_STATE
  {
    hide Tiled;
    var b := row[|row| - 1];
    Neighbours(row, lo, top, |row| - 1);
    InRow(row, lo, top, |row| - 1);
    assert Stored(m0, b);
    FrameStored(m0, m1, b, top, newTop);
  }

  lemma GrownAlone(m0: Memory, m1: Memory, m2: Memory, row: Row, lo: nat, top: nat, head: nat, bytes: nat)
    requires Tiled(row, lo, top) && InMemory(m0, row) && row != [] && row[|row| - 1].live && bytes >= Span(MIN_PAYLOAD)
    requires var b := Block(top, bytes - HEADER - FOOTER, false);
             && Stored(m1, b) && Touched(m0, m1, top, top + bytes, [])
             && Touched(m1, m2, 0, 0, FreeList(row) + [top] + [])
             && Chain(m2, head, FreeList(row) + [top] + [])
    ensures var row' := Grown(row, top, bytes);
            InMemory(m2, row') && Chain(m2, head, FreeList(row')) && Untouched(m0, m2, row, row')
  {
    hide Tiled, FreeList, Touched, Chain, Stored, InMemory, Untouched;
    TiledSpan(row, lo, top);
    GrewAlone(m0, m1, m2, row, lo, top, Block(top, bytes - HEADER - FOOTER, false));
    GrownFree(row, top, bytes);
    assert FreeList(row) + [top] + [] == FreeList(row) + [top];
  }

  lemma GrownInto(m0: Memory, m1: Memory, m2: Memory, row: Row, lo: nat, top: nat, head: nat, bytes: nat)
    requires Tiled(row, lo, top) && InMemory(m0, row) && row != [] && !row[|row| - 1].live
    requires Chain(m0, head, FreeList(row))
    requires bytes >= Span(MIN_PAYLOAD) && Touched(m0, m1, top, top + bytes, [])
    requires var was := row[|row| - 1];
             m2 == m1[was.addr := was.payload + bytes]
                     [was.addr + HEADER + was.payload + bytes := Span(was.payload + bytes)]
    ensures var row' := Grown(row, top, bytes);
            InMemory(m2, row') && Chain(m2, head, FreeList(row')) && Untouched(m0, m2, row, row')
  {
    hide Tiled, FreeList, Touched, Chain, Stored, InMemory, Untouched;
    var was := row[|row| - 1];
    Neighbours(row, lo, top, |row| - 1);
    GrewInto(m0, m1, m2, row, lo, top, head, Block(was.addr, was.payload + bytes, false));
    GrownFree(row, top, bytes);
  }

  /** A write inside a payload changes no header, footer or link. */
  lemma PayloadWrite(m: Memory, m': Memory, row: Row, lo: nat, hi: nat, head: nat, at: nat, a: nat, w: nat)
    requires Tiled(row, lo, hi) && InMemory(m, row) && Chain(m, head, FreeList(row)) && m' == m[a := w]
    requires at < |row| && row[at].addr + HEADER <= a < row[at].addr + HEADER + row[at].payload
    ensures InMemory(m', row) && Chain(m', head, FreeList(row))
    ensures forall j :: 0 <= j < |row| && j != at ==> SamePayload(m, m', row[j])
  {
    hide Tiled, FreeList;
    NotALink(row, lo, hi, at, a);
    ChainSame(m, m', head, FreeList(row));
    forall j | 0 <= j < |row|
      ensures Stored(m', row[j]) && (j != at ==> SamePayload(m, m', row[j]))
    {
      assert Stored(m, row[j]);
      if j < at {
        RowOrder(row, lo, hi, j, at);
      } else if j > at {
        RowOrder(row, lo, hi, at, j);
      }
    }
  }
}
