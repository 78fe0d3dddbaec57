/**
 The heap as a row of blocks: each a 32-byte header, a payload, and a 16-byte footer. The functions
 are what allocate, free and grow do to the row; the lemmas show what they keep.
 */
module HeapBlocks {
  import opened Wrappers

  const HEADER: nat := 32
  const FOOTER: nat := 16
  const ALIGN: nat := 16
  const MIN_PAYLOAD: nat := 16

  datatype Block = Block(addr: nat, payload: nat, live: bool)

  type Row = seq<Block>

  function Span(payload: nat): nat {
    HEADER + payload + FOOTER
  }

  function End(b: Block): nat {
    b.addr + Span(b.payload)
  }

  /** Rounds a request up to whole units of sixteen, in 64-bit arithmetic. */
  function RoundPayload(bytes: nat): nat {
    var rounded := (bytes + ALIGN - 1) % WORD / ALIGN * ALIGN;
    if rounded < MIN_PAYLOAD then MIN_PAYLOAD else rounded
  }

  /** The rounded size covers the request exactly when the rounding did not wrap around. */
  lemma RoundingCovers(bytes: nat)
    requires bytes < WORD
    ensures RoundPayload(bytes) >= bytes <==> bytes <= WORD - ALIGN
    ensures RoundPayload(bytes) % ALIGN == 0 && RoundPayload(bytes) >= MIN_PAYLOAD
    ensures bytes <= WORD - ALIGN ==> RoundPayload(bytes) <= bytes + ALIGN
  {
  }

  ghost predicate Good(b: Block) {
    b.addr % ALIGN == 0 && b.payload % ALIGN == 0 && b.payload >= MIN_PAYLOAD
  }

  /** The blocks lie end to end from `lo` to `hi`. */
  ghost predicate Tiled(row: Row, lo: nat, hi: nat) {
    if row == [] then lo == hi
    else row[0].addr == lo && Good(row[0]) && Tiled(row[1..], End(row[0]), hi)
  }

  ghost predicate Coalesced(row: Row) {
    forall i :: 0 <= i < |row| - 1 ==> row[i].live || row[i + 1].live
  }

  /** The free blocks, lowest address first. */
  ghost function FreeList(row: Row): seq<nat> {
    if row == [] then [] else (if row[0].live then [] else [row[0].addr]) + FreeList(row[1..])
  }

  ghost function FreeSum(row: Row): nat {
    if row == [] then 0 else (if row[0].live then 0 else row[0].payload) + FreeSum(row[1..])
  }

  /** The live payloads: where each starts and how long it is. */
  ghost function Live(row: Row): set<(nat, nat)> {
    set b | b in row && b.live :: (b.addr + HEADER, b.payload)
  }

  // ------------------------------------------------------------------ what the operations do

  /** Replaces the blocks `from..to` of a row. */
  function Replace(row: Row, from: nat, to: nat, middle: Row): Row
    requires from <= to <= |row|
  {
    row[..from] + middle + row[to..]
  }

  /** The blocks a split leaves in place of block `b`: a remainder big enough for a block stays free. */
  function SplitOf(b: Block, wanted: nat): (r: Row)
    requires b.payload >= wanted
    ensures 1 <= |r| <= 2
  {
    var rest := b.payload - wanted;
    if rest >= HEADER + FOOTER + MIN_PAYLOAD
    then [Block(b.addr, wanted, true), Block(b.addr + Span(wanted), rest - HEADER - FOOTER, false)]
    else [b.(live := true)]
  }

  /** Block `i` becomes live with `wanted` bytes. */
  function Split(row: Row, i: nat, wanted: nat): Row
    requires i < |row| && row[i].payload >= wanted
  {
    Replace(row, i, i + 1, SplitOf(row[i], wanted))
  }

  /**
   The block handed out for a request is long enough for it exactly when the rounding did not wrap
   around, and then less than eighty bytes too long; otherwise it is shorter than eighty bytes. What is
   left of the block it is taken from stays free, but for a header and a footer.
   */
  lemma GrantCovers(row: Row, lo: nat, hi: nat, at: nat, bytes: nat)
    requires Tiled(row, lo, hi) && hi < WORD && at < |row| && bytes < WORD
    requires row[at].payload >= RoundPayload(bytes)
    ensures var granted := SplitOf(row[at], RoundPayload(bytes))[0].payload;
            && (granted >= bytes <==> bytes <= WORD - ALIGN)
            && granted < (if bytes <= WORD - ALIGN then bytes else 0) + MIN_PAYLOAD + Span(MIN_PAYLOAD)
  {
    RoundingCovers(bytes);
    InRow(row, lo, hi, at);
  }

  /** An allocation takes little more from the free bytes than it was asked for. */
  lemma GrantCosts(row: Row, lo: nat, hi: nat, at: nat, bytes: nat)
    requires Tiled(row, lo, hi) && hi < WORD && at < |row| && bytes <= WORD - ALIGN
    requires !row[at].live && row[at].payload >= RoundPayload(bytes)
    ensures FreeSum(row) - FreeSum(Split(row, at, RoundPayload(bytes))) < Span(bytes) + 80
  {
    hide FreeSum, FreeList, Split;
    SplitFree(row, at, RoundPayload(bytes));
    GrantCovers(row, lo, hi, at, bytes);
    RoundingCovers(bytes);
  }

  predicate JoinsNext(row: Row, i: nat)
    requires i < |row|
  {
    i + 1 < |row| && !row[i + 1].live
  }

  predicate JoinsPrev(row: Row, i: nat)
    requires i < |row|
  {
    i > 0 && !row[i - 1].live
  }

  /** The first block that freeing block `i` merges, and the first one past them. */
  function First(row: Row, i: nat): nat
    requires i < |row|
  {
    if JoinsPrev(row, i) then i - 1 else i
  }

  function Past(row: Row, i: nat): nat
    requires i < |row|
  {
    if JoinsNext(row, i) then i + 2 else i + 1
  }

  /** The block that block `i` and its free neighbours become. */
  function Merged(row: Row, i: nat): Block
    requires i < |row|
  {
    Block(if JoinsPrev(row, i) then row[i - 1].addr else row[i].addr,
          row[i].payload
          + (if JoinsNext(row, i) then HEADER + FOOTER + row[i + 1].payload else 0)
          + (if JoinsPrev(row, i) then HEADER + FOOTER + row[i - 1].payload else 0),
          false)
  }

  /** Block `i` becomes free and merges with free neighbours. */
  function Freed(row: Row, i: nat): Row
    requires i < |row|
  {
    Replace(row, First(row, i), Past(row, i), [Merged(row, i)])
  }

  /** A stretch of `bytes` is added at `top`, merging with a free last block. */
  function Grown(row: Row, top: nat, bytes: nat): Row
    requires bytes >= Span(0)
  {
    if row != [] && !row[|row| - 1].live then
      row[..|row| - 1] + [Block(row[|row| - 1].addr, row[|row| - 1].payload + bytes, false)]
    else row + [Block(top, bytes - HEADER - FOOTER, false)]
  }

  // ------------------------------------------------------------------ rows in pieces

  lemma {:induction false} TiledSplit(xs: Row, ys: Row, lo: nat, hi: nat)
    ensures Tiled(xs + ys, lo, hi) <==> (Tiled(xs, lo, EndOf(xs, lo)) && Tiled(ys, EndOf(xs, lo), hi))
  {
    if xs == [] {
      assert xs + ys == ys;
    } else {
      assert (xs + ys)[1..] == xs[1..] + ys;
      TiledSplit(xs[1..], ys, End(xs[0]), hi);
    }
  }

  ghost function EndOf(row: Row, lo: nat): nat {
    if row == [] then lo else EndOf(row[1..], End(row[0]))
  }

  lemma {:induction false} FreeListSplit(xs: Row, ys: Row)
    ensures FreeList(xs + ys) == FreeList(xs) + FreeList(ys)
    ensures FreeSum(xs + ys) == FreeSum(xs) + FreeSum(ys)
  {
    if xs == [] {
      assert xs + ys == ys;
    } else {
      assert (xs + ys)[1..] == xs[1..] + ys;
      FreeListSplit(xs[1..], ys);
    }
  }

  /** Every block of a tiled row is good and lies within it. */
  lemma {:induction false} InRow(row: Row, lo: nat, hi: nat, i: nat)
    requires Tiled(row, lo, hi) && i < |row|
    ensures Good(row[i]) && lo <= row[i].addr && End(row[i]) <= hi
  {
    if i > 0 {
      InRow(row[1..], End(row[0]), hi, i - 1);
    } else {
      TiledSpan(row[1..], End(row[0]), hi);
    }
  }

  lemma {:induction false} TiledSpan(row: Row, lo: nat, hi: nat)
    requires Tiled(row, lo, hi)
    ensures lo <= hi && EndOf(row, lo) == hi && (row != [] ==> lo < hi)
  {
    if row == [] {
    } else {
      TiledSpan(row[1..], End(row[0]), hi);
    }
  }

  /** Blocks are in address order and do not overlap. */
  lemma {:induction false} RowOrder(row: Row, lo: nat, hi: nat, i: nat, j: nat)
    requires Tiled(row, lo, hi) && i < j < |row|
    ensures End(row[i]) <= row[j].addr
    ensures j == i + 1 ==> End(row[i]) == row[j].addr
  {
    if i > 0 {
      RowOrder(row[1..], End(row[0]), hi, i - 1, j - 1);
    } else {
      InRow(row[1..], End(row[0]), hi, j - 1);
    }
  }

  lemma {:induction false} FreeListWithin(row: Row, lo: nat, hi: nat)
    requires Tiled(row, lo, hi)
    ensures forall x :: x in FreeList(row) ==> lo <= x && x + Span(MIN_PAYLOAD) <= hi
  {
    if row == [] {
    } else {
      TiledSpan(row, lo, hi);
      TiledSpan(row[1..], End(row[0]), hi);
      FreeListWithin(row[1..], End(row[0]), hi);
    }
  }

  lemma {:induction false} FreeListAligned(row: Row, lo: nat, hi: nat)
    requires Tiled(row, lo, hi)
    ensures forall x :: x in FreeList(row) ==> x % ALIGN == 0
  {
    if row == [] {
    } else {
      FreeListAligned(row[1..], End(row[0]), hi);
    }
  }

  /** The free list is strictly sorted by address. */
  lemma {:induction false} FreeListSorted(row: Row, lo: nat, hi: nat)
    requires Tiled(row, lo, hi)
    ensures forall i, j :: 0 <= i < j < |FreeList(row)| ==> FreeList(row)[i] < FreeList(row)[j]
  {
    if row == [] {
    } else {
      var list, rest := FreeList(row), FreeList(row[1..]);
      FreeListSorted(row[1..], End(row[0]), hi);
      FreeListWithin(row[1..], End(row[0]), hi);
      forall i, j | 0 <= i < j < |list|
        ensures list[i] < list[j]
      {
        if !row[0].live {
          assert list[j] == rest[j - 1] && rest[j - 1] in rest;
          assert i > 0 ==> list[i] == rest[i - 1];
        }
      }
    }
  }

  /** Entry `k` of the free list is a free block with the entries before and after it on its two sides. */
  lemma {:induction false} FreeIndex(row: Row, k: nat) returns (i: nat)
    requires k < |FreeList(row)|
    ensures i < |row| && !row[i].live && row[i].addr == FreeList(row)[k]
    ensures FreeList(row[..i]) == FreeList(row)[..k] && FreeList(row[i + 1..]) == FreeList(row)[k + 1..]
  {
    if !row[0].live && k == 0 {
      i := 0;
    } else {
      var skip := if row[0].live then 0 else 1;
      var j := FreeIndex(row[1..], k - skip);
      i := j + 1;
      assert row[..i][1..] == row[1..][..j];
      assert row[i + 1..] == row[1..][j + 1..];
    }
  }

  lemma {:induction false} FreeListHolds(row: Row, i: nat)
    requires i < |row| && !row[i].live
    ensures row[i].addr in FreeList(row)
  {
    if i == 0 {
    } else {
      FreeListHolds(row[1..], i - 1);
    }
  }

  /** Live payloads are sixteen-aligned, inside the heap, and pairwise disjoint. */
  lemma LiveApart(row: Row, lo: nat, hi: nat, p: (nat, nat), q: (nat, nat))
    requires Tiled(row, lo, hi) && p in Live(row) && q in Live(row) && p != q
    ensures p.0 % ALIGN == 0 && lo <= p.0 && p.0 + p.1 <= hi
    ensures p.0 + p.1 <= q.0 || q.0 + q.1 <= p.0
  {
    hide Tiled;
    var i :| 0 <= i < |row| && row[i].live && (row[i].addr + HEADER, row[i].payload) == p;
    var j :| 0 <= j < |row| && row[j].live && (row[j].addr + HEADER, row[j].payload) == q;
    InRow(row, lo, hi, i);
    if i < j {
      RowOrder(row, lo, hi, i, j);
    } else {
      RowOrder(row, lo, hi, j, i);
    }
  }

  // ------------------------------------------------------------------ what the operations keep

  lemma Pieces(row: Row, from: nat, to: nat)
    requires from <= to <= |row|
    ensures row == row[..from] + row[from..to] + row[to..]
  {
  }

  /** A stretch of a tiled row may be replaced by any blocks that tile the same bytes. */
  lemma ReplaceTiles(row: Row, lo: nat, hi: nat, from: nat, to: nat, middle: Row)
    requires Tiled(row, lo, hi) && from < to <= |row|
    requires Tiled(middle, row[from].addr, End(row[to - 1]))
    ensures Tiled(Replace(row, from, to, middle), lo, hi)
    ensures Tiled(row[..from], lo, row[from].addr) && Tiled(row[from..to], row[from].addr, End(row[to - 1]))
    ensures Tiled(row[to..], End(row[to - 1]), hi)
  {
    PiecesTile(row, lo, hi, from, to);
    TiledSplit(middle, row[to..], row[from].addr, hi);
    TiledSpan(middle, row[from].addr, End(row[to - 1]));
    TiledSplit(row[..from], middle + row[to..], lo, hi);
    TiledSpan(row[..from], lo, row[from].addr);
    assert Replace(row, from, to, middle) == row[..from] + (middle + row[to..]);
  }

  lemma PiecesTile(row: Row, lo: nat, hi: nat, from: nat, to: nat)
    requires Tiled(row, lo, hi) && from < to <= |row|
    ensures Tiled(row[..from], lo, row[from].addr) && Tiled(row[from..to], row[from].addr, End(row[to - 1]))
    ensures Tiled(row[to..], End(row[to - 1]), hi)
  {
    var pre, mid, post := row[..from], row[from..to], row[to..];
    assert row == pre + (mid + post);
    TiledSplit(pre, mid + post, lo, hi);
    assert (mid + post)[0] == row[from];
    TiledSplit(mid, post, row[from].addr, hi);
    LastEnds(mid, row[from].addr);
  }

  /**
   A block has a successor exactly when it ends below the top, and a predecessor exactly when it starts
   above the base.
   */
  lemma Neighbours(row: Row, lo: nat, hi: nat, i: nat)
    requires Tiled(row, lo, hi) && i < |row|
    ensures if i + 1 < |row| then row[i + 1].addr == End(row[i]) < hi else End(row[i]) == hi
    ensures if i > 0 then lo <= row[i - 1].addr && End(row[i - 1]) == row[i].addr else row[i].addr == lo
  {
    PiecesTile(row, lo, hi, i, i + 1);
    TiledSpan(row[i + 1..], End(row[i]), hi);
    if i + 1 < |row| {
      RowOrder(row, lo, hi, i, i + 1);
    }
    if i > 0 {
      InRow(row, lo, hi, i - 1);
      RowOrder(row, lo, hi, i - 1, i);
    }
  }

  lemma {:induction false} LastEnds(row: Row, lo: nat)
    requires row != [] && Tiled(row, lo, EndOf(row, lo))
    ensures EndOf(row, lo) == End(row[|row| - 1])
  {
    if |row| <= 1 {
    } else {
      LastEnds(row[1..], End(row[0]));
    }
  }

  lemma ReplaceFree(row: Row, from: nat, to: nat, middle: Row)
    requires from <= to <= |row|
    ensures FreeList(row) == FreeList(row[..from]) + FreeList(row[from..to]) + FreeList(row[to..])
    ensures FreeList(Replace(row, from, to, middle)) == FreeList(row[..from]) + FreeList(middle) + FreeList(row[to..])
    ensures FreeSum(row) == FreeSum(row[..from]) + FreeSum(row[from..to]) + FreeSum(row[to..])
    ensures FreeSum(Replace(row, from, to, middle)) == FreeSum(row[..from]) + FreeSum(middle) + FreeSum(row[to..])
  {
    hide FreeList, FreeSum;
    Pieces(row, from, to);
    FreeListSplit(row[..from] + row[from..to], row[to..]);
    FreeListSplit(row[..from], row[from..to]);
    FreeListSplit(row[..from] + middle, row[to..]);
    FreeListSplit(row[..from], middle);
  }

  lemma FreeOfNone(row: Row)
    requires row == []
    ensures FreeList(row) == [] && FreeSum(row) == 0
  {
  }

  lemma FreeOfOne(b: Block)
    ensures FreeList([b]) == if b.live then [] else [b.addr]
    ensures FreeSum([b]) == if b.live then 0 else b.payload
  {
    assert [b][1..] == [];
  }

  lemma FreeOfTwo(a: Block, b: Block)
    ensures FreeList([a, b]) == FreeList([a]) + FreeList([b])
    ensures FreeSum([a, b]) == FreeSum([a]) + FreeSum([b])
  {
    assert [a, b] == [a] + [b];
    FreeListSplit([a], [b]);
  }

  lemma TiledOne(b: Block, hi: nat)
    ensures Tiled([b], b.addr, hi) <==> Good(b) && hi == End(b)
  {
    assert [b][1..] == [];
  }

  lemma TiledTwo(a: Block, b: Block)
    requires Good(a) && Good(b) && b.addr == End(a)
    ensures Tiled([a, b], a.addr, End(b))
  {
    assert [a, b][1..] == [b];
    TiledOne(b, End(b));
  }

  lemma SplitTiles(row: Row, lo: nat, hi: nat, i: nat, wanted: nat)
    requires Tiled(row, lo, hi) && i < |row| && row[i].payload >= wanted >= MIN_PAYLOAD && wanted % ALIGN == 0
    ensures Tiled(Split(row, i, wanted), lo, hi)
  {
    hide Tiled, Good, SplitOf;
    var b := row[i];
    InRow(row, lo, hi, i);
    PartsTile(b, wanted);
    ReplaceTiles(row, lo, hi, i, i + 1, SplitOf(b, wanted));
  }

  /** The parts of a split block tile the bytes of the block. */
  lemma PartsTile(b: Block, wanted: nat)
    requires Good(b) && b.payload >= wanted >= MIN_PAYLOAD && wanted % ALIGN == 0
    ensures Tiled(SplitOf(b, wanted), b.addr, End(b))
  {
    hide Tiled;
    var middle := SplitOf(b, wanted);
    if |middle| == 2 {
      RemainderIsWhole(b.addr, b.payload, wanted);
      assert middle == [middle[0], middle[1]];
      TiledTwo(middle[0], middle[1]);
    } else {
      assert middle == [middle[0]];
      TiledOne(middle[0], End(middle[0]));
    }
  }

  lemma RemainderIsWhole(addr: nat, payload: nat, wanted: nat)
    requires addr % ALIGN == 0 && payload % ALIGN == 0 && wanted % ALIGN == 0 && payload >= wanted + HEADER + FOOTER
    ensures (payload - wanted - HEADER - FOOTER) % ALIGN == 0 && (addr + Span(wanted)) % ALIGN == 0
  {
  }

  lemma SplitCoalesces(row: Row, i: nat, wanted: nat)
    requires Coalesced(row) && i < |row| && row[i].payload >= wanted && !row[i].live
    ensures Coalesced(Split(row, i, wanted))
  {
    var row' := Split(row, i, wanted);
    var shift := |row'| - |row|;
    forall j | 0 <= j < |row'| - 1
      ensures row'[j].live || row'[j + 1].live
    {
      if j + 1 < i {
        assert row'[j] == row[j] && row'[j + 1] == row[j + 1];
      } else if j > i + shift {
        assert row'[j] == row[j - shift] && row'[j + 1] == row[j + 1 - shift];
      } else if j == i + shift && shift == 1 {
        assert row'[j + 1] == row[i + 1];
      }
    }
  }

  /** Allocation adds exactly the new payload to the live ones; no other live payload moves. */
  lemma SplitLive(row: Row, i: nat, wanted: nat)
    requires i < |row| && row[i].payload >= wanted && !row[i].live
    ensures Live(Split(row, i, wanted)) == Live(row) + {(row[i].addr + HEADER, SplitOf(row[i], wanted)[0].payload)}
  {
    var row', middle := Split(row, i, wanted), SplitOf(row[i], wanted);
    assert row' == row[..i] + middle + row[i + 1..];
    assert row == row[..i] + [row[i]] + row[i + 1..];
    forall b
      ensures b in row' <==> b in row[..i] || b in middle || b in row[i + 1..]
      ensures b in row <==> b in row[..i] || b == row[i] || b in row[i + 1..]
    {
    }
    var p := (row[i].addr + HEADER, middle[0].payload);
    assert middle[0] in row' && middle[0].live;
    forall q
      ensures q in Live(row') <==> q in Live(row) || q == p
    {
      if q in Live(row) {
        var b :| b in row && b.live && (b.addr + HEADER, b.payload) == q;
        assert b in row';
      }
      if q in Live(row') {
        var b :| b in row' && b.live && (b.addr + HEADER, b.payload) == q;
        assert b in row || b == middle[0];
      }
    }
  }

  /** What allocation does to the free list and its sum. */
  lemma SplitFree(row: Row, i: nat, wanted: nat)
    requires i < |row| && row[i].payload >= wanted && !row[i].live
    ensures var xs, ys, middle := FreeList(row[..i]), FreeList(row[i + 1..]), SplitOf(row[i], wanted);
            && FreeList(row) == xs + [row[i].addr] + ys && FreeSum(row) >= row[i].payload
            && FreeList(Split(row, i, wanted)) == xs + (if |middle| == 2 then [middle[1].addr] else []) + ys
            && FreeSum(Split(row, i, wanted)) + row[i].payload ==
               FreeSum(row) + if |middle| == 2 then middle[1].payload else 0
  {
    hide FreeList, FreeSum;
    var middle := SplitOf(row[i], wanted);
    ReplaceFree(row, i, i + 1, middle);
    assert row[i..i + 1] == [row[i]];
    FreeOfOne(row[i]);
    FreeOfOne(middle[0]);
    if |middle| == 2 {
      FreeOfTwo(middle[0], middle[1]);
      FreeOfOne(middle[1]);
      assert middle == [middle[0], middle[1]];
    } else {
      assert middle == [middle[0]];
    }
  }

  /** The merged block covers exactly the blocks it replaces. */
  lemma MergedSpan(row: Row, lo: nat, hi: nat, i: nat)
    requires Tiled(row, lo, hi) && i < |row|
    ensures Good(Merged(row, i))
    ensures Merged(row, i).addr == row[First(row, i)].addr
    ensures End(Merged(row, i)) == End(row[Past(row, i) - 1])
  {
    hide Tiled;
    InRow(row, lo, hi, i);
    var next := if JoinsNext(row, i) then HEADER + FOOTER + row[i + 1].payload else 0;
    var prev := if JoinsPrev(row, i) then HEADER + FOOTER + row[i - 1].payload else 0;
    if JoinsPrev(row, i) {
      InRow(row, lo, hi, i - 1);
      RowOrder(row, lo, hi, i - 1, i);
      AlignedSum(HEADER + FOOTER, row[i - 1].payload);
    }
    if JoinsNext(row, i) {
      InRow(row, lo, hi, i + 1);
      RowOrder(row, lo, hi, i, i + 1);
      AlignedSum(HEADER + FOOTER, row[i + 1].payload);
    }
    AlignedSum(row[i].payload, next);
    AlignedSum(row[i].payload + next, prev);
  }

  lemma AlignedSum(a: nat, b: nat)
    requires a % ALIGN == 0 && b % ALIGN == 0
    ensures (a + b) % ALIGN == 0
  {
  }

  lemma FreedTiles(row: Row, lo: nat, hi: nat, i: nat)
    requires Tiled(row, lo, hi) && i < |row|
    ensures Tiled(Freed(row, i), lo, hi) && Freed(row, i) != []
  {
    hide Tiled;
    var first := First(row, i);
    var next := Past(row, i);
    MergedSpan(row, lo, hi, i);
    TiledOne(Merged(row, i), End(Merged(row, i)));
    ReplaceTiles(row, lo, hi, first, next, [Merged(row, i)]);
  }

  lemma FreedCoalesces(row: Row, i: nat)
    requires Coalesced(row) && i < |row| && row[i].live
    ensures Coalesced(Freed(row, i))
  {
    var row' := Freed(row, i);
    var first := First(row, i);
    var next := Past(row, i);
    forall j | 0 <= j < |row'| - 1
      ensures row'[j].live || row'[j + 1].live
    {
      if j + 1 < first {
        assert row'[j] == row[j] && row'[j + 1] == row[j + 1];
      } else if j + 1 == first {
        var before, at := row[first - 1], row[first];
        assert row'[j] == before && (before.live || at.live);
      } else if j == first {
        var last, after := row[next - 1], row[next];
        assert row'[j + 1] == after && (last.live || after.live);
      } else {
        assert row'[j] == row[j - first - 1 + next] && row'[j + 1] == row[j - first + next];
      }
    }
  }

  /** The bytes of merged headers and footers become free payload too. */
  lemma FreedSum(row: Row, i: nat)
    requires i < |row| && row[i].live
    ensures FreeSum(Freed(row, i)) ==
            FreeSum(row) + row[i].payload
            + (if JoinsNext(row, i) then HEADER + FOOTER else 0) + (if JoinsPrev(row, i) then HEADER + FOOTER else 0)
  {
    hide FreeList, FreeSum;
    var first := First(row, i);
    var next := Past(row, i);
    ReplaceFree(row, first, next, [Merged(row, i)]);
    FreeOfOne(Merged(row, i));
    FreeOfMiddle(row, i, first, next);
  }

  /** What the merged blocks contribute to the free list. */
  lemma FreeOfMiddle(row: Row, i: nat, first: nat, next: nat)
    requires i < |row| && row[i].live
    requires first == First(row, i) && next == Past(row, i)
    ensures FreeList(row[first..next]) ==
              (if first < i then [row[i - 1].addr] else []) + (if next > i + 1 then [row[i + 1].addr] else [])
    ensures FreeSum(row[first..next]) ==
              (if first < i then row[i - 1].payload else 0) + (if next > i + 1 then row[i + 1].payload else 0)
  {
    hide FreeList, FreeSum;
    var middle := row[first..next];
    var pre, post := row[first..i], row[i + 1..next];
    AroundOne(row, first, i, next);
    FreeListSplit(pre + [row[i]], post);
    FreeListSplit(pre, [row[i]]);
    FreeOfOne(row[i]);
    if first < i {
      assert |pre| == 1 && pre[0] == row[i - 1];
      assert pre == [row[i - 1]];
      FreeOfOne(row[i - 1]);
    } else {
      FreeOfNone(pre);
    }
    if next > i + 1 {
      assert |post| == 1 && post[0] == row[i + 1];
      assert post == [row[i + 1]];
      FreeOfOne(row[i + 1]);
    } else {
      FreeOfNone(post);
    }
  }

  /** The free list without the block after `i`, if that one is free. */
  ghost function ListWithoutNext(row: Row, i: nat): seq<nat>
    requires i < |row|
  {
    FreeList(row[..First(row, i)]) + (if JoinsPrev(row, i) then [row[i - 1].addr] else [])
      + FreeList(row[Past(row, i)..])
  }

  lemma FreedList(row: Row, i: nat)
    requires i < |row| && row[i].live
    ensures var xs, ys := FreeList(row[..First(row, i)]), FreeList(row[Past(row, i)..]);
            var before := if JoinsPrev(row, i) then [row[i - 1].addr] else [];
            && FreeList(row) ==
                 (if JoinsNext(row, i) then (xs + before) + [row[i + 1].addr] + ys else (xs + before) + ys)
            && FreeList(Freed(row, i)) == xs + [row[First(row, i)].addr] + ys
  {
    hide FreeList, FreeSum;
    var first, next := First(row, i), Past(row, i);
    ReplaceFree(row, first, next, [Merged(row, i)]);
    FreeOfOne(Merged(row, i));
    FreeOfMiddle(row, i, first, next);
  }

  lemma KeptBlock(row: Row, i: nat, j: nat)
    requires i < |row| && row[i].live && j < |row| && row[j].live && j != i
    ensures row[j] in Freed(row, i)
  {
    var first := First(row, i);
    var next := Past(row, i);
    var row' := Freed(row, i);
    if j < first {
      assert row'[j] == row[j];
    } else {
      assert row'[j - next + first + 1] == row[j];
    }
  }

  lemma BlockWasThere(row: Row, i: nat, k: nat) returns (j: nat)
    requires i < |row| && row[i].live && k < |Freed(row, i)| && Freed(row, i)[k].live
    ensures j < |row| && j != i && row[j] == Freed(row, i)[k]
  {
    var first := First(row, i);
    var next := Past(row, i);
    j := if k < first then k else k - first - 1 + next;
  }

  /** Freeing removes exactly that payload from the live ones; no other live payload moves. */
  lemma FreedLive(row: Row, lo: nat, hi: nat, i: nat)
    requires Tiled(row, lo, hi) && i < |row| && row[i].live
    ensures Live(Freed(row, i)) == Live(row) - {(row[i].addr + HEADER, row[i].payload)}
  {
    hide Tiled, Freed;
    var row' := Freed(row, i);
    var p := (row[i].addr + HEADER, row[i].payload);
    forall q
      ensures q in Live(row') <==> q in Live(row) && q != p
    {
      if q in Live(row) && q != p {
        var j :| 0 <= j < |row| && row[j].live && (row[j].addr + HEADER, row[j].payload) == q;
        KeptBlock(row, i, j);
      }
      if q in Live(row') {
        var k :| 0 <= k < |row'| && row'[k].live && (row'[k].addr + HEADER, row'[k].payload) == q;
        var j := BlockWasThere(row, i, k);
        if j < i {
          RowOrder(row, lo, hi, j, i);
        } else {
          RowOrder(row, lo, hi, i, j);
        }
      }
    }
  }

  lemma FreedGone(row: Row, lo: nat, hi: nat, i: nat)
    requires Tiled(row, lo, hi) && i < |row| && row[i].live
    ensures row[i] !in Freed(row, i)
  {
    hide Tiled, Freed;
    FreedLive(row, lo, hi, i);
    var p, row' := (row[i].addr + HEADER, row[i].payload), Freed(row, i);
    assert p !in Live(row');
    assert forall b :: b in row' && b.live ==> (b.addr + HEADER, b.payload) in Live(row');
  }

  lemma GrownTiles(row: Row, lo: nat, top: nat, bytes: nat)
    requires Tiled(row, lo, top) && bytes >= Span(MIN_PAYLOAD) && bytes % ALIGN == 0 && top % ALIGN == 0
    ensures Tiled(Grown(row, top, bytes), lo, top + bytes) && Grown(row, top, bytes) != []
  {
    hide Tiled;
    var n := |row|;
    TiledSpan(row, lo, top);
    if row != [] && !row[n - 1].live {
      var last := Block(row[n - 1].addr, row[n - 1].payload + bytes, false);
      InRow(row, lo, top, n - 1);
      PiecesTile(row, lo, top, n - 1, n);
      EmptyTiles(row[n..], End(row[n - 1]), top);
      TiledOne(last, End(last));
      TiledSplit(row[..n - 1], [last], lo, top + bytes);
      TiledSpan(row[..n - 1], lo, row[n - 1].addr);
    } else {
      var last := Block(top, bytes - HEADER - FOOTER, false);
      TiledOne(last, End(last));
      TiledSplit(row, [last], lo, top + bytes);
    }
  }

  lemma EmptyTiles(row: Row, lo: nat, hi: nat)
    requires Tiled(row, lo, hi) && row == []
    ensures lo == hi
  {
  }

  lemma GrownCoalesces(row: Row, top: nat, bytes: nat)
    requires Coalesced(row) && bytes >= Span(0)
    ensures Coalesced(Grown(row, top, bytes))
  {
    var n, grown := |row|, Grown(row, top, bytes);
    forall j | 0 <= j < |grown| - 1
      ensures grown[j].live || grown[j + 1].live
    {
      if j + 1 < n {
        var a, b := row[j], row[j + 1];
        assert a.live || b.live;
      }
    }
  }

  lemma LastSwapped(row: Row, last: Block)
    requires row != [] && !row[|row| - 1].live && !last.live && last.addr == row[|row| - 1].addr
    requires last.payload >= row[|row| - 1].payload
    ensures FreeSum(row[..|row| - 1] + [last]) == FreeSum(row) + (last.payload - row[|row| - 1].payload)
    ensures FreeList(row[..|row| - 1] + [last]) == FreeList(row)
  {
    hide FreeList, FreeSum;
    var front, was := row[..|row| - 1], row[|row| - 1];
    assert row == front + [was];
    FreeListSplit(front, [last]);
    FreeListSplit(front, [was]);
    FreeOfOne(last);
    FreeOfOne(was);
  }

  lemma GrownFree(row: Row, top: nat, bytes: nat)
    requires bytes >= Span(0)
    ensures var joins := row != [] && !row[|row| - 1].live;
            && FreeSum(Grown(row, top, bytes)) == FreeSum(row) + (if joins then bytes else bytes - HEADER - FOOTER)
            && FreeList(Grown(row, top, bytes)) == if joins then FreeList(row) else FreeList(row) + [top]
  {
    hide FreeList, FreeSum;
    if row != [] && !row[|row| - 1].live {
      LastSwapped(row, Block(row[|row| - 1].addr, row[|row| - 1].payload + bytes, false));
    } else {
      var last := Block(top, bytes - HEADER - FOOTER, false);
      FreeListSplit(row, [last]);
      FreeOfOne(last);
    }
  }

  /** Growing leaves every live payload where it is. */
  lemma GrownLive(row: Row, top: nat, bytes: nat)
    requires bytes >= Span(0)
    ensures Live(Grown(row, top, bytes)) == Live(row)
  {
    var n, grown := |row|, Grown(row, top, bytes);
    forall b
      ensures b in grown && b.live <==> b in row && b.live
    {
      if row != [] && !row[n - 1].live {
        assert row == row[..n - 1] + [row[n - 1]];
      }
    }
  }
}
