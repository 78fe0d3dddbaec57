/**
 The boundary-tag heap on raw memory words: first fit over an address-sorted free list, splitting,
 coalescing with both neighbours, and growth. The row of blocks of HeapBlocks is what the words mean.
 */
module Heap {
  import opened Wrappers
  import opened HeapBlocks
  import opened HeapWords
  import opened HeapRuns
  import opened HeapTest

  lemma NoneBefore(m: Memory, row: Row, at: nat, k: nat, wanted: nat)
    requires InMemory(m, row) && at <= |row| && k <= |FreeList(row)| && FreeList(row[..at]) == FreeList(row)[..k]
    requires forall j :: 0 <= j < k ==> Word(m, FreeList(row)[j]) < wanted
    ensures NoneFits(row, at, wanted)
  {
    hide FreeList;
    var list := FreeList(row);
    forall j | 0 <= j < at
      ensures !Fits(row[j], wanted)
    {
      if !row[j].live {
        FreeListHolds(row[..at], j);
        var t :| 0 <= t < k && list[..k][t] == row[j].addr;
        assert Word(m, list[t]) < wanted && Stored(m, row[j]);
      }
    }
  }

  lemma LiveAtIsLive(row: Row, ptr: nat)
    ensures LiveAt(row, ptr) <==> exists q :: q in Live(row) && q.0 == ptr
  {
    if LiveAt(row, ptr) {
      var i :| 0 <= i < |row| && LiveBlock(row[i], ptr);
      assert (row[i].addr + HEADER, row[i].payload) in Live(row);
    }
  }

  /** Allocation makes exactly one more pointer live, and one that was not. */
  lemma SplitHandsOut(row: Row, lo: nat, hi: nat, at: nat, wanted: nat)
    requires Tiled(row, lo, hi) && at < |row| && Fits(row[at], wanted)
    ensures forall p :: LiveAt(Split(row, at, wanted), p) <==> LiveAt(row, p) || p == row[at].addr + HEADER
    ensures !LiveAt(row, row[at].addr + HEADER)
  {
    hide Tiled, LiveAt, Split, Live;
    var q := (row[at].addr + HEADER, SplitOf(row[at], wanted)[0].payload);
    SplitLive(row, at, wanted);
    forall p
      ensures LiveAt(Split(row, at, wanted), p) <==> LiveAt(row, p) || p == q.0
    {
      LiveAtIsLive(row, p);
      LiveAtIsLive(Split(row, at, wanted), p);
      assert q in Live(row) + {q};
    }
    FreeNotLive(row, lo, hi, at);
  }

  lemma FreeNotLive(row: Row, lo: nat, hi: nat, at: nat)
    requires Tiled(row, lo, hi) && at < |row| && !row[at].live
    ensures !LiveAt(row, row[at].addr + HEADER)
  {
    hide Tiled;
    forall i | 0 <= i < |row| && row[i].live
      ensures row[i].addr != row[at].addr
    {
      if i < at {
        RowOrder(row, lo, hi, i, at);
      } else {
        RowOrder(row, lo, hi, at, i);
      }
    }
  }

  /** Growth makes no pointer live or dead, and its last block has room for what it was grown for. */
  lemma GrownHandsOut(row: Row, top: nat, bytes: nat)
    requires bytes >= Span(MIN_PAYLOAD)
    ensures forall p :: LiveAt(Grown(row, top, bytes), p) <==> LiveAt(row, p)
    ensures var row' := Grown(row, top, bytes);
            row' != [] && Fits(row'[|row'| - 1], bytes - HEADER - FOOTER)
  {
    hide LiveAt, Live;
    GrownLive(row, top, bytes);
    forall p
      ensures LiveAt(Grown(row, top, bytes), p) <==> LiveAt(row, p)
    {
      LiveAtIsLive(row, p);
      LiveAtIsLive(Grown(row, top, bytes), p);
    }
  }

  lemma Unchanged(m: Memory, row: Row)
    ensures Untouched(m, m, row, row)
  {
  }

  /** Only one block can be meant by a pointer, also where the address in front of it wraps around. */
  lemma SamePointer(row: Row, lo: nat, hi: nat, ptr: nat)
    requires Tiled(row, lo, hi) && ptr < WORD && hi < WORD
    ensures LiveAt(row, ptr) <==> LiveAt(row, (ptr - HEADER) % WORD + HEADER)
  {
    hide Tiled;
    forall i | 0 <= i < |row|
      ensures LiveBlock(row[i], ptr) <==> LiveBlock(row[i], (ptr - HEADER) % WORD + HEADER)
    {
      InRow(row, lo, hi, i);
    }
  }

  /** One block over a whole span tiles it exactly when the span has whole units and does not wrap around. */
  lemma SpanIsTiled(start: nat, bytes: nat)
    requires start < WORD && bytes < WORD && start % ALIGN == 0 && bytes >= Span(MIN_PAYLOAD)
    ensures var b, top := Block(start, bytes - HEADER - FOOTER, false), (start + bytes) % WORD;
            top % ALIGN == 0 && Tiled([b], start, top) <==> start + bytes < WORD && bytes % ALIGN == 0
  {
    hide Tiled;
    var b, top := Block(start, bytes - HEADER - FOOTER, false), (start + bytes) % WORD;
    TiledOne(b, top);
    assert top == if start + bytes < WORD then start + bytes else start + bytes - WORD;
    assert b.payload % ALIGN == bytes % ALIGN;
  }

  /** A live block that starts at the pointer has room for `bytes`, and little more. */
  ghost predicate LiveFor(row: Row, ptr: nat, bytes: nat) {
    exists i :: 0 <= i < |row| && LiveBlock(row[i], ptr) && bytes <= row[i].payload < bytes + 80
  }

  class Heap {
    var mem: Memory
    var base: nat
    var top: nat
    var freeHead: nat
    var freeBytes: nat
    /** The blocks the memory holds. */
    ghost var row: Row

    ghost predicate Valid()
      reads this
    {
      && 0 < base && base % ALIGN == 0 && top % ALIGN == 0 && top < WORD
      && row != [] && Tiled(row, base, top) && Coalesced(row)
      && InMemory(mem, row)
      && Chain(mem, freeHead, FreeList(row))
      && freeBytes == FreeSum(row)
    }

    method SetWord(a: nat, w: nat)
      modifies this`mem
      ensures mem == old(mem)[a := w]
    {
      mem := mem[a := w];
    }

    method WriteFooter(block: nat, payload: nat)
      modifies this`mem
      ensures mem == old(mem)[block + HEADER + payload := Span(payload)]
    {
      mem := mem[block + HEADER + payload := Span(payload)];
    }

    method MakeFreeBlock(block: nat, payload: nat)
      modifies this`mem
      ensures Stored(mem, Block(block, payload, false)) && Word(mem, block + 16) == 0
      ensures Touched(old(mem), mem, block, block + Span(payload), [])
    {
      SetWord(block, payload);
      SetWord(block + 8, FREE_STATE);
      SetWord(block + 16, 0);
      SetWord(block + 24, 0);
      WriteFooter(block, payload);
    }

    /** Links a block into the list at its address. */
    method LinkSorted(block: nat, ghost xs: seq<nat>, ghost ys: seq<nat>)
      requires block > 0 && Chain(mem, freeHead, xs + ys) && Sorted(xs + ys)
      requires (forall x :: x in xs ==> x < block) && (forall y :: y in ys ==> block < y)
      modifies this`mem, this`freeHead
      ensures Chain(mem, freeHead, xs + [block] + ys)
      ensures Touched(old(mem), mem, 0, 0, xs + [block] + ys)
    {
      ghost var list := xs + ys;
      ChainInsert(mem, freeHead, xs, ys, block);
      assert xs != [] ==> LinkAt(mem, list, 0) && list[0] == xs[0] && xs[0] in xs;
      assert xs == [] && ys != [] ==> list[0] == ys[0] && ys[0] in ys;
      if freeHead == 0 || block < freeHead {
        SetWord(block + 16, freeHead);
        freeHead := block;
        return;
      }
      assert ys != [] ==> list[|xs|] == ys[0] && ys[0] in ys;
      forall j | 0 <= j < |xs|
        ensures 0 < list[j] < block
      {
        assert LinkAt(mem, list, j) && list[j] == xs[j] && xs[j] in xs;
      }
      var scan := freeHead;
      ghost var k := 0;
      while Word(mem, scan + 16) != 0 && Word(mem, scan + 16) < block
        invariant 0 <= k < |xs| && scan == list[k]
        invariant mem == old(mem) && freeHead == old(freeHead)
        decreases |xs| - k
      {
        assert LinkAt(mem, list, k);
        scan := Word(mem, scan + 16);
        k := k + 1;
      }
      assert LinkAt(mem, list, k);
      assert k == |xs| - 1;
      SetWord(block + 16, Word(mem, scan + 16));
      SetWord(scan + 16, block);
    }

    /** Takes a block out of the list. */
    method Unlink(block: nat, ghost xs: seq<nat>, ghost ys: seq<nat>)
      requires Chain(mem, freeHead, xs + [block] + ys) && Sorted(xs + [block] + ys)
      modifies this`mem, this`freeHead
      ensures Chain(mem, freeHead, xs + ys) && Word(mem, block + 16) == if ys == [] then 0 else ys[0]
      ensures Touched(old(mem), mem, 0, 0, xs + [block] + ys)
    {
      ghost var list := xs + [block] + ys;
      ChainRemove(mem, freeHead, xs, ys, block);
      assert LinkAt(mem, list, |xs|) && list[|xs|] == block;
      assert forall j :: 0 <= j < |xs| ==> list[j] < list[|xs|];
      if freeHead == block {
        freeHead := Word(mem, block + 16);
        return;
      }
      var scan := freeHead;
      ghost var k := 0;
      while scan != 0 && Word(mem, scan + 16) != block
        invariant 0 <= k < |xs| && scan == list[k]
        invariant mem == old(mem) && freeHead == old(freeHead)
        decreases |xs| - k
      {
        assert LinkAt(mem, list, k);
        scan := Word(mem, scan + 16);
        k := k + 1;
      }
      assert LinkAt(mem, list, k);
      assert k == |xs| - 1;
      if scan != 0 {
        SetWord(scan + 16, Word(mem, block + 16));
      }
    }

    /** First fit: the first listed block with room. */
    method PickFreeBlock(payload: nat, ghost list: seq<nat>) returns (block: nat, ghost k: nat)
      requires Chain(mem, freeHead, list)
      ensures k <= |list| && forall j :: 0 <= j < k ==> Word(mem, list[j]) < payload
      ensures if block == 0 then k == |list| else k < |list| && list[k] == block && Word(mem, block) >= payload
    {
      var scan := freeHead;
      k := 0;
      while scan != 0
        invariant k <= |list| && scan == (if k < |list| then list[k] else 0)
        invariant forall j :: 0 <= j < k ==> Word(mem, list[j]) < payload
        decreases |list| - k
      {
        if Word(mem, scan) >= payload {
          return scan, k;
        }
        assert LinkAt(mem, list, k);
        scan := Word(mem, scan + 16);
        k := k + 1;
      }
      assert k < |list| ==> LinkAt(mem, list, k);
      block := 0;
    }

    /** Marks a block that is off the list live, splitting off what could host another block. */
    method Carve(block: nat, wanted: nat, ghost b: Block, ghost xs: seq<nat>, ghost ys: seq<nat>)
      requires Stored(mem, b) && !b.live && b.addr == block && b.payload >= wanted && Beside(b, xs, ys)
      requires Word(mem, block + 16) % ALIGN == 0 && Chain(mem, freeHead, xs + ys) && Sorted(xs + ys)
      requires freeBytes >= b.payload
      modifies this`mem, this`freeHead, this`freeBytes
      ensures var parts := SplitOf(b, wanted);
              && InMemory(mem, parts) && Touched(old(mem), mem, block, End(b), xs + [block] + ys)
              && Chain(mem, freeHead, xs + (if |parts| == 2 then [parts[1].addr] else []) + ys)
              && freeBytes == old(freeBytes) - b.payload + if |parts| == 2 then parts[1].payload else 0
    {
      hide Touched, Chain, InMemory, Stored, Word, Sorted;
      ghost var m1 := mem;
      ReadStored(m1, b);
      var size := Word(mem, block);
      var rest := size - wanted;
      if rest >= HEADER + FOOTER + MIN_PAYLOAD {
        var tailPayload := rest - HEADER - FOOTER;
        var tail := block + Span(wanted);
        MakeFreeBlock(tail, tailPayload);
        ghost var m2 := mem;
        ChainFrame(m1, m2, freeHead, xs + ys, tail, End(b));
        LinkSorted(tail, xs, ys);
        ghost var m3 := mem;
        SetWord(block, wanted);
        WriteFooter(block, wanted);
        freeBytes := freeBytes - size + tailPayload;
        SetWord(block + 8, LIVE_STATE);
        Carved(m1, m2, m3, mem, b, wanted, freeHead, xs, ys);
      } else {
        freeBytes := freeBytes - size;
        SetWord(block + 8, LIVE_STATE);
        Whole(m1, mem, b, freeHead, xs, ys);
        assert xs + [] + ys == xs + ys;
      }
    }

    /** Takes a free block off the list and hands it out, splitting off what could host another block. */
    method TakeBlock(block: nat, wanted: nat, ghost at: nat) returns (ptr: nat)
      requires Valid() && at < |row| && Fits(row[at], wanted) && row[at].addr == block
      requires wanted >= MIN_PAYLOAD && wanted % ALIGN == 0
      modifies this
      ensures Valid() && base == old(base) && top == old(top)
      ensures ptr == block + HEADER && row == Split(old(row), at, wanted)
      ensures Untouched(old(mem), mem, old(row), row)
    {
      hide Tiled, FreeList, FreeSum, Coalesced, Touched, Chain, InMemory, Stored, Word, Sorted, Untouched;
      ghost var list, xs, ys, b := FreeList(row), FreeList(row[..at]), FreeList(row[at + 1..]), row[at];
      ghost var m0 := mem;
      SplitFree(row, at, wanted);
      Sides(row, base, top, at, at + 1);
      FreeListAligned(row, base, top);
      assert ys != [] ==> ys[0] in list;
      Unlink(block, xs, ys);
      ghost var m1 := mem;
      SortedWithout(xs, block, ys);
      AfterUnlink(m0, m1, row, base, top, at);
      ReadStored(m1, b);
      Carve(block, wanted, b, xs, ys);
      ptr := block + HEADER;
      TouchedTwice(m0, m1, mem, block, End(b), list);
      OperationDone(m0, mem, row, base, top, at, at + 1, SplitOf(b, wanted));
      SplitTiles(row, base, top, at, wanted);
      SplitCoalesces(row, at, wanted);
      row := Split(row, at, wanted);
    }

    /** Hands out the first free block with room. */
    method Allocate(bytes: nat) returns (ptr: nat, ghost at: nat)
      requires Valid() && bytes < WORD
      modifies this
      ensures Valid() && base == old(base) && top == old(top)
      ensures if ptr == 0 then row == old(row) && mem == old(mem) && NoneFits(row, |row|, RoundPayload(bytes))
              else && at < |old(row)| && NoneFits(old(row), at, RoundPayload(bytes))
                   && Fits(old(row)[at], RoundPayload(bytes))
                   && ptr == old(row)[at].addr + HEADER && row == Split(old(row), at, RoundPayload(bytes))
      ensures ptr != 0 ==>
                at < |row| && LiveBlock(row[at], ptr) && (row[at].payload >= bytes <==> bytes <= WORD - ALIGN)
      ensures ptr != 0 && bytes <= WORD - ALIGN ==>
                row[at].payload < bytes + 80 && old(freeBytes) - freeBytes < Span(bytes) + 80
      ensures State(row, base, top) == Step(State(old(row), old(base), old(top)), Alloc(bytes))
      ensures Untouched(old(mem), mem, old(row), row)
    {
      hide Tiled, FreeList, FreeSum, Coalesced, RoundPayload;
      ghost var list := FreeList(row);
      RoundingCovers(bytes);
      var wanted := RoundPayload(bytes);
      var block, k := PickFreeBlock(wanted, list);
      at := |row|;
      assert row[..at] == row && list[..|list|] == list;
      if block == 0 {
        NoneBefore(mem, row, at, k, wanted);
        FirstFitIs(row, at, wanted);
        return 0, at;
      }
      at := FreeIndex(row, k);
      NoneBefore(mem, row, at, k, wanted);
      assert Stored(mem, row[at]);
      FirstFitIs(row, at, wanted);
      GrantCovers(row, base, top, at, bytes);
      if bytes <= WORD - ALIGN {
        GrantCosts(row, base, top, at, bytes);
      }
      ptr := TakeBlock(block, wanted, at);
    }

    /** Takes a free block after block `at` off the list, to be merged with it. */
    method JoinNext(block: nat, size: nat, ghost at: nat) returns (merged: nat)
      requires Valid() && at < |row| && row[at] == Block(block, size, true)
      modifies this`mem, this`freeHead, this`freeBytes
      ensures InMemory(mem, row) && Touched(old(mem), mem, 0, 0, FreeList(row))
      ensures Chain(mem, freeHead, ListWithoutNext(row, at))
      ensures merged == size + if JoinsNext(row, at) then HEADER + FOOTER + row[at + 1].payload else 0
      ensures freeBytes == old(freeBytes) + if JoinsNext(row, at) then HEADER + FOOTER else 0
    {
      hide Tiled, FreeList, FreeSum, Coalesced, Touched, Chain;
      Neighbours(row, base, top, at);
      FreedList(row, at);
      FreeListSorted(row, base, top);
      assert at + 1 < |row| ==> Stored(mem, row[at + 1]);
      merged := size;
      var next := block + Span(size);
      NothingTouched(mem, FreeList(row));
      if next < top && Word(mem, next + 8) == FREE_STATE {
        ghost var xs, ys := FreeList(row[..First(row, at)]), FreeList(row[Past(row, at)..]);
        Unlink(next, xs + (if JoinsPrev(row, at) then [row[at - 1].addr] else []), ys);
        StillInMemory(old(mem), mem, row, base, top);
        merged := merged + HEADER + FOOTER + Word(mem, next);
        freeBytes := freeBytes + HEADER + FOOTER;
      }
    }

    /** Writes the merged block and sees to it that the list holds it. */
    method WriteMerged(block: nat, target: nat, merged: nat, ghost at: nat)
      requires Tiled(row, base, top) && base > 0 && InMemory(mem, row) && at < |row| && row[at].live
      requires row[at].addr == block
      requires Chain(mem, freeHead, ListWithoutNext(row, at))
      requires Merged(row, at) == Block(target, merged, false) && (target == block <==> !JoinsPrev(row, at))
      modifies this`mem, this`freeHead
      ensures Stored(mem, Merged(row, at)) && Word(mem, block + 8) == FREE_STATE
      ensures Chain(mem, freeHead, FreeList(Freed(row, at)))
      ensures Touched(old(mem), mem, target, target + Span(merged),
                FreeList(row[..First(row, at)]) + FreeList(row[Past(row, at)..]))
    {
      hide Tiled, FreeList, Touched, Chain, InMemory, Freed, Stored, Word, Merged, Sorted, Beside, ListWithoutNext;
      ghost var b, xs, ys := Merged(row, at), FreeList(row[..First(row, at)]), FreeList(row[Past(row, at)..]);
      MergePlan(row, base, top, at);
      MergedSpare(mem, row, at);
      SetWord(target, merged);
      SetWord(target + 8, FREE_STATE);
      WriteFooter(target, merged);
      if target == block {
        ghost var m := mem;
        WroteBetween(old(mem), m, b, freeHead, xs, ys);
        LinkSorted(target, xs, ys);
        MergedAlone(old(mem), m, mem, b, xs, ys);
      } else {
        SetWord(block + 8, FREE_STATE);
        MergedBefore(old(mem), mem, b, block, freeHead, xs, ys);
      }
    }

    /** Marks a live block free, merging it with a free block after it and a free block before it. */
    method MergeBlock(block: nat, size: nat, ghost at: nat)
      requires Valid() && at < |row| && row[at] == Block(block, size, true)
      modifies this
      ensures Valid() && base == old(base) && top == old(top)
      ensures row == Freed(old(row), at) && Word(mem, block + 8) == FREE_STATE
      ensures Untouched(old(mem), mem, old(row), row)
    {
      hide Tiled, FreeList, FreeSum, Coalesced, Touched, Chain, Freed, Untouched, InMemory, Stored, Word,
        ListWithoutNext;
      Neighbours(row, base, top, at);
      var merged := JoinNext(block, size, at);
      ghost var m := mem;
      var target := block;
      if block > base {
        ReadBlock(mem, row, at - 1);
        var prev := block - Word(mem, block - FOOTER);
        if prev >= base && Word(mem, prev + 8) == FREE_STATE {
          target := prev;
          merged := merged + HEADER + FOOTER + Word(mem, prev);
          freeBytes := freeBytes + HEADER + FOOTER;
        }
      }
      ReadBlock(mem, row, at);
      var returned := Word(mem, block);
      WriteMerged(block, target, merged, at);
      freeBytes := freeBytes + returned;
      MergeDone(old(mem), m, mem, row, base, top, at);
      FreedTiles(row, base, top, at);
      FreedCoalesces(row, at);
      FreedSum(row, at);
      row := Freed(row, at);
    }

    /** Whether the words in front of a pointer look like the header of a live block. */
    method Accepts(ptr: nat) returns (ok: bool)
      requires Valid() && ptr < WORD
      ensures ok <==> Passes(mem, base, top, (ptr - HEADER) % WORD)
      ensures LiveAt(row, ptr) ==> ok
      ensures Decided(mem, row, base, top, (ptr - HEADER) % WORD) ==> (ok <==> LiveAt(row, ptr))
    {
      hide Tiled, FreeList, FreeSum, Coalesced, Chain, InMemory, Word, Decided;
      var block := (ptr - HEADER) % WORD;
      SamePointer(row, base, top, ptr);
      if LiveAt(row, ptr) {
        LivePasses(mem, freeHead, row, base, top, block);
      }
      if Decided(mem, row, base, top, block) {
        DecidedIsRight(mem, mem, freeHead, row, base, top, block);
      }
      if block < base || block >= top {
        return false;
      }
      if Word(mem, block + 8) != LIVE_STATE {
        return false;
      }
      var span := Span(Word(mem, block));
      if (block + span) % WORD > top || (block + span) % WORD <= block {
        return false;
      }
      ok := true;
    }

    /**
     Takes a block back and merges it with free neighbours; refuses what is not a live block. Asked of
     the caller: the pointer's test cannot be forged, or does not pass.
     */
    method Free(ptr: nat) returns (ok: bool, ghost at: nat)
      requires Valid() && ptr < WORD
      requires Decided(mem, row, base, top, (ptr - HEADER) % WORD) || !Passes(mem, base, top, (ptr - HEADER) % WORD)
      modifies this
      ensures Valid() && base == old(base) && top == old(top)
      ensures ok <==> LiveAt(old(row), ptr)
      ensures ok ==>
                at < |old(row)| && old(row)[at].live && old(row)[at].addr + HEADER == ptr && row == Freed(old(row), at)
      ensures ok ==> !Passes(mem, base, top, ptr - HEADER)
      ensures !ok ==> row == old(row) && mem == old(mem)
      ensures State(row, base, top) == Step(State(old(row), old(base), old(top)), Release(ptr))
      ensures Untouched(old(mem), mem, old(row), row)
    {
      hide Tiled, FreeList, FreeSum, Coalesced, Touched, Chain, Freed, Untouched, InMemory, Stored, Word, Decided;
      at := 0;
      Unchanged(mem, row);
      ok := Accepts(ptr);
      if ok {
        at :| 0 <= at < |row| && LiveBlock(row[at], ptr);
        InRow(row, base, top, at);
        ReadBlock(mem, row, at);
        HolderIs(row, base, top, at, ptr);
        var block := (ptr - HEADER) % WORD;
        MergeBlock(block, Word(mem, block), at);
      }
    }

    /**
     Claims a span as one free block. A span it accepts makes a heap exactly when it has whole units of
     sixteen bytes, ends within the address space and does not start at 0.
     */
    method Init(start: nat, bytes: nat) returns (ok: bool)
      requires start < WORD && bytes < WORD
      modifies this
      ensures ok <==> start % ALIGN == 0 && bytes >= Span(MIN_PAYLOAD)
      ensures ok ==> (Valid() <==> 0 < start && start + bytes < WORD && bytes % ALIGN == 0)
      ensures ok && start + bytes < WORD ==> State(row, base, top) == Start(start, bytes)
    {
      hide Tiled, FreeList, FreeSum, InMemory, Stored, Word;
      if start % ALIGN != 0 || bytes < Span(MIN_PAYLOAD) {
        return false;
      }
      base := start;
      top := (start + bytes) % WORD;
      var payload := bytes - HEADER - FOOTER;
      MakeFreeBlock(start, payload);
      freeHead := start;
      freeBytes := payload;
      row := [Block(start, payload, false)];
      SpanIsTiled(start, bytes);
      OneInMemory(mem, row[0]);
      FreeOfOne(row[0]);
      ok := true;
    }

    /** Adds memory at the top, merging it with a free last block. */
    method Grow(newTop: nat) returns (ok: bool)
      requires Valid() && newTop < WORD
      modifies this
      ensures Valid() && base == old(base)
      ensures ok <==> newTop >= old(top) + Span(MIN_PAYLOAD) && newTop % ALIGN == 0
      ensures if ok then top == newTop && row == Grown(old(row), old(top), newTop - old(top))
              else row == old(row) && top == old(top) && mem == old(mem)
      ensures State(row, base, top) == Step(State(old(row), old(base), old(top)), Extend(newTop))
      ensures Untouched(old(mem), mem, old(row), row)
    {
      hide Tiled, FreeList, FreeSum, Coalesced, Touched, Chain, Untouched, Grown, Sorted, InMemory, Stored, Word;
      Unchanged(mem, row);
      if newTop <= top || newTop % ALIGN != 0 || newTop - top < Span(MIN_PAYLOAD) {
        return false;
      }
      var block := top;
      var payload := newTop - top - HEADER - FOOTER;
      ghost var list := FreeList(row);
      GrownTiles(row, base, top, newTop - top);
      GrownCoalesces(row, top, newTop - top);
      GrownFree(row, top, newTop - top);
      top := newTop;
      ghost var m0 := mem;
      MakeFreeBlock(block, payload);
      ghost var m := mem;
      ok := true;
      LastBlock(m0, m, row, base, block, newTop);
      if block > base {
        var prev := block - Word(mem, block - FOOTER);
        if Word(mem, prev + 8) == FREE_STATE {
          var joined := Word(mem, prev) + (HEADER + FOOTER + payload);
          SetWord(prev, joined);
          WriteFooter(prev, joined);
          freeBytes := freeBytes + (HEADER + FOOTER + payload);
          GrownInto(m0, m, mem, row, base, block, freeHead, newTop - block);
          row := Grown(row, block, newTop - block);
          return;
        }
      }
      FreeListWithin(row, base, block);
      FreeListSorted(row, base, block);
      ChainFrame(m0, m, freeHead, list, block, newTop);
      assert list + [] == list;
      LinkSorted(block, list, []);
      freeBytes := freeBytes + payload;
      GrownAlone(m0, m, mem, row, base, block, freeHead, newTop - block);
      row := Grown(row, block, newTop - block);
    }

    /** The owner of a live payload writes one of its words. */
    method StoreWord(a: nat, w: nat, ghost at: nat)
      requires Valid() && at < |row| && row[at].live
      requires row[at].addr + HEADER <= a < row[at].addr + HEADER + row[at].payload
      modifies this`mem
      ensures Valid() && mem == old(mem)[a := w]
      ensures forall j :: 0 <= j < |row| && j != at ==> SamePayload(old(mem), mem, row[j])
    {
      hide Tiled, FreeList, FreeSum, Coalesced, Chain, InMemory, SamePayload;
      SetWord(a, w);
      PayloadWrite(old(mem), mem, row, base, top, freeHead, at, a, w);
    }

    /**
     The kernel's allocator: a refused request brings in pages at the top and asks again, and then
     cannot be refused.
     */
    method AllocateOrGrow(bytes: nat, mapped: bool) returns (ptr: nat)
      requires Valid() && top + bytes + 2 * PAGE_BYTES < WORD
      modifies this
      ensures Valid() && base == old(base)
      ensures ptr == 0 <==> !mapped && NoneFits(old(row), |old(row)|, RoundPayload(bytes))
      ensures ptr == 0 ==> row == old(row) && mem == old(mem) && top == old(top)
      ensures ptr != 0 ==> LiveFor(row, ptr, bytes) && LiveAt(row, ptr) && !LiveAt(old(row), ptr)
      ensures forall p :: LiveAt(old(row), p) ==> LiveAt(row, p)
    {
      hide Tiled, FreeList, FreeSum, Coalesced, Chain, InMemory, Untouched, LiveAt, Split, Grown, RoundPayload;
      ghost var at;
      ghost var start := row;
      ptr, at := Allocate(bytes);
      if ptr != 0 {
        SplitHandsOut(start, base, top, at, RoundPayload(bytes));
        return;
      }
      var pages := (bytes + PAGE_BYTES - 1) / PAGE_BYTES + 1;
      var more := pages * PAGE_BYTES;
      if !mapped {
        return 0;
      }
      GrownHandsOut(row, top, more);
      var grown := Grow(top + more);
      assert grown;
      RoundingCovers(bytes);
      ghost var wide := row;
      assert Fits(wide[|wide| - 1], RoundPayload(bytes));
      ptr, at := Allocate(bytes);
      if ptr != 0 {
        SplitHandsOut(wide, base, top, at, RoundPayload(bytes));
      }
    }
  }

  /**
   An owner who writes the words 16 and 1 at the start of a live payload has made a header there: the
   test passes thirty-two bytes into the payload, where no block starts.
   */
  method ForgedHeader(h: Heap, start: nat) returns (ptr: nat)
    requires 0 < start && start % ALIGN == 0 && start + PAGE_BYTES < WORD
    modifies h
    ensures h.Valid() && LiveAt(h.row, ptr)
    ensures Passes(h.mem, h.base, h.top, ptr) && !LiveAt(h.row, ptr + HEADER)
  {
    hide Tiled, FreeList, FreeSum, Coalesced, Chain, InMemory, Untouched, Split, RoundPayload, Step, SamePayload;
    ghost var at;
    var ok := h.Init(start, PAGE_BYTES);
    RoundingCovers(256);
    assert Fits(h.row[0], RoundPayload(256));
    ptr, at := h.Allocate(256);
    h.StoreWord(ptr, 16, at);
    h.StoreWord(ptr + 8, LIVE_STATE, at);
    WrittenHeader(h.mem, h.freeHead, h.row, h.base, h.top, at);
  }
}
