/**
 The test that free puts a pointer to: the words in front of it must look like the header of a live
 block. The words are read wherever the pointer leads, so the lemmas say for which pointers the answer
 is right whatever the owners of live blocks have written into them, and for which it can be forged.
 */
module HeapTest {
  import opened Wrappers
  import opened HeapBlocks
  import opened HeapWords
  import opened HeapRuns

  /** What free asks of the words at `block`: in the heap, marked live, and a size that stays in the heap. */
  predicate Passes(m: Memory, base: nat, top: nat, block: nat) {
    base <= block < top && Word(m, block + 8) == LIVE_STATE && SizeFits(Word(m, block), top, block)
  }

  predicate SizeFits(size: nat, top: nat, block: nat) {
    block < (block + Span(size)) % WORD <= top
  }

  /** The memory holds this row of blocks, its free blocks linked from `head`. */
  ghost predicate Represents(m: Memory, head: nat, row: Row) {
    InMemory(m, row) && Chain(m, head, FreeList(row))
  }

  /** The words whose value the row decides: size, state, spare and footer of every block, the link of a free one. */
  ghost predicate Kept(row: Row, a: nat) {
    exists i :: 0 <= i < |row| && KeptBy(row[i], a)
  }

  ghost predicate KeptBy(b: Block, a: nat) {
    || a == b.addr || a == b.addr + 8 || a == b.addr + 24 || a == b.addr + HEADER + b.payload
    || (!b.live && a == b.addr + 16)
  }

  /**
   The words nobody but the allocator writes: those and the link of a live block. The others are payload
   and the second word of a footer, which may be what is left of a payload.
   */
  ghost predicate Guarded(row: Row, a: nat) {
    exists i :: 0 <= i < |row| && GuardedBy(row[i], a)
  }

  ghost predicate GuardedBy(b: Block, a: nat) {
    KeptBy(b, a) || a == b.addr + 16
  }

  /**
   Where the answer cannot be forged: the pointer leads out of the heap, its state word is guarded, or
   its size word is kept and does not fit.
   */
  ghost predicate Decided(m: Memory, row: Row, base: nat, top: nat, block: nat) {
    || !(base <= block < top)
    || Guarded(row, block + 8)
    || (Kept(row, block) && !SizeFits(Word(m, block), top, block))
  }

  /** A kept word of a free block's link, in terms of the list. */
  lemma LinkOf(m: Memory, head: nat, row: Row, i: nat) returns (k: nat)
    requires Represents(m, head, row) && i < |row| && !row[i].live
    ensures k < |FreeList(row)| && FreeList(row)[k] == row[i].addr && LinkAt(m, FreeList(row), k)
  {
    FreeListHolds(row, i);
    k :| 0 <= k < |FreeList(row)| && FreeList(row)[k] == row[i].addr;
  }

  /** Every memory that holds the row agrees on the kept words. */
  lemma KeptSame(m: Memory, m': Memory, head: nat, row: Row, a: nat)
    requires Represents(m, head, row) && Represents(m', head, row) && Kept(row, a)
    ensures Word(m, a) == Word(m', a)
  {
    hide FreeList;
    var i :| 0 <= i < |row| && KeptBy(row[i], a);
    assert Stored(m, row[i]) && Stored(m', row[i]);
    if !row[i].live && a == row[i].addr + 16 {
      var k := LinkOf(m, head, row, i);
      assert LinkAt(m', FreeList(row), k);
    }
  }

  /** A word that is not guarded may hold anything. */
  lemma UnguardedIsFree(m: Memory, head: nat, row: Row, a: nat, w: nat)
    requires Represents(m, head, row) && !Guarded(row, a)
    ensures Represents(m[a := w], head, row)
  {
    hide FreeList;
    var m' := m[a := w];
    forall i | 0 <= i < |row|
      ensures Stored(m', row[i])
    {
      assert Stored(m, row[i]) && !GuardedBy(row[i], a);
    }
    forall k | 0 <= k < |FreeList(row)|
      ensures LinkAt(m', FreeList(row), k)
    {
      var i := FreeIndex(row, k);
      assert LinkAt(m, FreeList(row), k) && !GuardedBy(row[i], a);
    }
  }

  /** A guarded word that reads as the live mark is the state word of a live block. */
  lemma GuardedLiveMark(m: Memory, head: nat, row: Row, lo: nat, hi: nat, block: nat)
    requires Represents(m, head, row) && Tiled(row, lo, hi) && Guarded(row, block + 8)
    requires Word(m, block + 8) == LIVE_STATE
    ensures LiveAt(row, block + HEADER)
  {
    hide FreeList, Tiled;
    var i :| 0 <= i < |row| && GuardedBy(row[i], block + 8);
    InRow(row, lo, hi, i);
    assert Stored(m, row[i]);
    if block + 8 == row[i].addr + 8 {
      assert LiveBlock(row[i], block + HEADER);
    } else if !row[i].live && block + 8 == row[i].addr + 16 {
      var k := LinkOf(m, head, row, i);
      if k + 1 < |FreeList(row)| {
        var j := FreeIndex(row, k + 1);
        InRow(row, lo, hi, j);
      }
    }
  }

  /** A live block passes, and its state word is guarded. */
  lemma LivePasses(m: Memory, head: nat, row: Row, base: nat, top: nat, block: nat)
    requires Represents(m, head, row) && Tiled(row, base, top) && top < WORD && LiveAt(row, block + HEADER)
    ensures Passes(m, base, top, block) && Guarded(row, block + 8)
  {
    hide Tiled;
    var i :| 0 <= i < |row| && LiveBlock(row[i], block + HEADER);
    InRow(row, base, top, i);
    ReadBlock(m, row, i);
    assert GuardedBy(row[i], block + 8);
  }

  /** The size word that makes the end of the block wrap around to the byte after its start. */
  const WRAPPING_SIZE: nat := WORD - Span(0) + 1

  /**
   The test accepts exactly the live blocks, in every memory that holds the row, if and only if the
   pointer is decided.
   */
  lemma TestIsRight(m: Memory, head: nat, row: Row, base: nat, top: nat, block: nat)
    requires Represents(m, head, row) && Tiled(row, base, top) && top < WORD
    ensures Decided(m, row, base, top, block) <==>
            forall m' :: Represents(m', head, row) ==>
              (Passes(m', base, top, block) <==> LiveAt(row, block + HEADER))
  {
    hide Tiled, FreeList, Represents, Kept, Guarded, LiveAt;
    if Decided(m, row, base, top, block) {
      forall m' | Represents(m', head, row)
        ensures Passes(m', base, top, block) <==> LiveAt(row, block + HEADER)
      {
        DecidedIsRight(m, m', head, row, base, top, block);
      }
    } else {
      var m' := Forge(m, head, row, base, top, block);
      assert Represents(m', head, row) && Passes(m', base, top, block);
      if LiveAt(row, block + HEADER) {
        LivePasses(m, head, row, base, top, block);
        assert false;
      }
    }
  }

  lemma DecidedIsRight(m: Memory, m': Memory, head: nat, row: Row, base: nat, top: nat, block: nat)
    requires Represents(m, head, row) && Represents(m', head, row) && Tiled(row, base, top) && top < WORD
    requires Decided(m, row, base, top, block)
    ensures Passes(m', base, top, block) <==> LiveAt(row, block + HEADER)
  {
    hide Tiled, FreeList, Represents, Kept, Guarded, LiveAt;
    if LiveAt(row, block + HEADER) {
      LivePasses(m', head, row, base, top, block);
    } else if Passes(m', base, top, block) {
      if Guarded(row, block + 8) {
        GuardedLiveMark(m', head, row, base, top, block);
      } else {
        KeptSame(m, m', head, row, block);
      }
    }
  }

  /** The word after a link is a spare one, so a size word before an unguarded state word is no link. */
  lemma LinkBeforeSpare(row: Row, block: nat)
    requires !Guarded(row, block + 8) && !Kept(row, block)
    ensures !Guarded(row, block)
  {
    forall i | 0 <= i < |row|
      ensures !GuardedBy(row[i], block)
    {
      assert !GuardedBy(row[i], block + 8) && !KeptBy(row[i], block);
    }
  }

  /** An undecided pointer passes in some memory that holds the row. */
  lemma Forge(m: Memory, head: nat, row: Row, base: nat, top: nat, block: nat) returns (m': Memory)
    requires Represents(m, head, row) && top < WORD && !Decided(m, row, base, top, block)
    ensures Represents(m', head, row) && Passes(m', base, top, block)
  {
    hide FreeList, Represents, Kept, Guarded;
    m' := m;
    if !Kept(row, block) {
      LinkBeforeSpare(row, block);
      UnguardedIsFree(m', head, row, block, WRAPPING_SIZE);
      m' := m'[block := WRAPPING_SIZE];
      assert (block + Span(WRAPPING_SIZE)) % WORD == block + 1;
    }
    UnguardedIsFree(m', head, row, block + 8, LIVE_STATE);
    m' := m'[block + 8 := LIVE_STATE];
  }

  /** A pointer to the payload of any block of the row, live or free, is decided. */
  lemma BlockIsDecided(m: Memory, row: Row, base: nat, top: nat, at: nat)
    requires at < |row|
    ensures Decided(m, row, base, top, row[at].addr)
  {
    assert GuardedBy(row[at], row[at].addr + 8);
  }

  /** A pointer into a live payload, with two words of it in front, is not. */
  lemma PayloadIsUndecided(m: Memory, row: Row, base: nat, top: nat, at: nat, block: nat)
    requires Tiled(row, base, top) && at < |row| && row[at].live
    requires row[at].addr + HEADER <= block && block + 8 < row[at].addr + HEADER + row[at].payload
    ensures !Decided(m, row, base, top, block)
  {
    hide Tiled;
    InRow(row, base, top, at);
    forall i | 0 <= i < |row|
      ensures !GuardedBy(row[i], block) && !GuardedBy(row[i], block + 8)
    {
      if i < at {
        RowOrder(row, base, top, i, at);
      } else if i > at {
        RowOrder(row, base, top, at, i);
      }
    }
  }

  /** Sixteen and the live mark, written at the start of a live payload, pass for a header there. */
  lemma WrittenHeader(m: Memory, head: nat, row: Row, base: nat, top: nat, at: nat)
    requires Represents(m, head, row) && Tiled(row, base, top) && top < WORD && at < |row| && row[at].live
    requires row[at].payload >= Span(0) && Word(m, row[at].addr + HEADER) == 16
    requires Word(m, row[at].addr + HEADER + 8) == LIVE_STATE
    ensures Passes(m, base, top, row[at].addr + HEADER) && !LiveAt(row, row[at].addr + HEADER + HEADER)
  {
    hide Tiled, Represents, LiveAt, Decided;
    var block := row[at].addr + HEADER;
    InRow(row, base, top, at);
    PayloadIsUndecided(m, row, base, top, at, block);
    if LiveAt(row, block + HEADER) {
      LivePasses(m, head, row, base, top, block);
      GuardedIsDecided(m, row, base, top, block);
    }
  }

  lemma GuardedIsDecided(m: Memory, row: Row, base: nat, top: nat, block: nat)
    requires Guarded(row, block + 8)
    ensures Decided(m, row, base, top, block)
  {
  }

  /** The block an address of the heap lies in. */
  lemma {:induction false} BlockOf(row: Row, lo: nat, hi: nat, a: nat) returns (i: nat)
    requires Tiled(row, lo, hi) && lo <= a < hi
    ensures i < |row| && row[i].addr <= a < End(row[i])
  {
    if a < End(row[0]) {
      i := 0;
    } else {
      var j := BlockOf(row[1..], End(row[0]), hi, a);
      i := j + 1;
    }
  }

  /** A word of a block's payload, or the second word of its footer. */
  ghost predicate LooseWord(b: Block, a: nat) {
    b.addr + HEADER <= a < b.addr + HEADER + b.payload || a == End(b) - 8
  }

  lemma MarkedLive(m: Memory, base: nat, top: nat, block: nat)
    requires Passes(m, base, top, block)
    ensures Word(m, block + 8) == LIVE_STATE && base <= block
  {
  }

  lemma LooseOrGuarded(b: Block, a: nat)
    requires Good(b) && a % 8 == 0 && b.addr <= a < End(b)
    ensures LooseWord(b, a) || GuardedBy(b, a)
  {
    InWords(b, a, (a - b.addr) / 8, b.payload / ALIGN);
  }

  lemma InWords(b: Block, a: nat, q: nat, p: nat)
    requires a == b.addr + 8 * q && b.payload == 16 * p && 8 * q < 48 + 16 * p
    ensures LooseWord(b, a) || GuardedBy(b, a)
  {
    if q < 4 {
      assert q == 0 || q == 1 || q == 2 || q == 3;
    } else if q >= 4 + 2 * p {
      assert q == 4 + 2 * p || q == 5 + 2 * p;
    }
  }

  /** A pointer accepted by mistake had its state read from payload or from the second word of a footer. */
  lemma MistakenFor(m: Memory, head: nat, row: Row, base: nat, top: nat, block: nat)
    requires Represents(m, head, row) && Tiled(row, base, top) && top < WORD
    requires Passes(m, base, top, block) && !LiveAt(row, block + HEADER)
    ensures !Guarded(row, block + 8)
    ensures block % 8 == 0 && block + 8 < top ==> exists i :: 0 <= i < |row| && LooseWord(row[i], block + 8)
  {
    hide Tiled, FreeList, Represents, Passes, LooseWord;
    MarkedLive(m, base, top, block);
    if Guarded(row, block + 8) {
      GuardedLiveMark(m, head, row, base, top, block);
    }
    if block % 8 == 0 && block + 8 < top {
      var i := BlockOf(row, base, top, block + 8);
      InRow(row, base, top, i);
      LooseOrGuarded(row[i], block + 8);
    }
  }
}
