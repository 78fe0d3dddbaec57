/**
 The register of a process's user memory: an unordered list of regions beside a heap span that brk
 moves. Every operation is stated on the map from addresses to promises that the register stands for.
 `room` is how many more list nodes the kernel heap grants during a call.
 */
module Vma {
  import opened Wrappers
  import opened VmaSpans

  /** The promise for one address: the heap span answers first, unless its bytes were moved to the list. */
  ghost function Shown(recorded: bool, heap: Region, regions: seq<Region>, a: nat): Option<Facts> {
    if !recorded && Covers(heap, a) then Some(FactsAt(heap, a)) else Lookup(regions, a)
  }

  function Born(spec: Region): Region {
    if spec.kind == Stack && spec.floor == 0 then spec.(floor := (spec.start + PAGE_BYTES) % WORD) else spec
  }

  function AlignUp(target: nat): nat {
    (target + PAGE_BYTES - 1) / PAGE_BYTES * PAGE_BYTES
  }

  /** The least whole page boundary at or above an address. */
  lemma AlignUpIsLeast(target: nat, boundary: nat)
    ensures AlignUp(target) % PAGE_BYTES == 0 && target <= AlignUp(target) < target + PAGE_BYTES
    ensures boundary % PAGE_BYTES == 0 && target <= boundary ==> AlignUp(target) <= boundary
  {
    var pages := (target + PAGE_BYTES - 1) / PAGE_BYTES;
    assert pages * PAGE_BYTES <= target + PAGE_BYTES - 1 < pages * PAGE_BYTES + PAGE_BYTES;
    if boundary % PAGE_BYTES == 0 && target <= boundary {
      var k := boundary / PAGE_BYTES;
      assert boundary == k * PAGE_BYTES && pages < k + 1;
    }
  }

  /**
   A stack recorded without a floor keeps its lowest page as a guard: exactly the bytes above it are
   usable, if the region allows reading and writing. Any other region is recorded as it is. (A stack that
   starts in the last page of the address space has no guard, as the floor wraps to the bottom.)
   */
  lemma NewStackHasGuard(spec: Region, a: nat)
    requires Covers(spec, a) && spec.end < WORD
    ensures if spec.kind == Stack && spec.floor == 0
            then StackByte(Some(FactsAt(Born(spec), a)), a) <==>
                 && spec.perms.readable && spec.perms.writable
                 && (spec.start + PAGE_BYTES < WORD ==> spec.start + PAGE_BYTES <= a)
            else FactsAt(Born(spec), a) == FactsAt(spec, a)
  {
  }

  const READ_WRITE := Perms(true, true, false)

  /** Plain memory, as brk should add it: anonymous, for reading and writing, not for execution. */
  predicate PlainMemory(f: Option<Facts>) {
    f.Some? && f.value.kind == Anonymous && f.value.perms == READ_WRITE && f.value.backing == 0
  }

  /** What brk promises of an address it adds. */
  function Added(recorded: bool, heap: Region, wanted: nat, a: nat): Facts
    requires heap.start <= heap.end <= a < wanted
  {
    if recorded then FactsAt(Extension(heap, wanted), a) else FactsAt(heap.(end := wanted), a)
  }

  /** What brk does to the promise `f` of an address. */
  function Moved(recorded: bool, heap: Region, wanted: nat, a: nat, f: Option<Facts>): Option<Facts>
    requires heap.start <= heap.end
  {
    if wanted <= a < heap.end then None else if heap.end <= a < wanted then Some(Added(recorded, heap, wanted, a))
      else f
  }

  function Extension(heap: Region, wanted: nat): Region {
    Region(heap.end, wanted, Anonymous, 0, READ_WRITE, 0, 0)
  }

  /** An address the thread may use as stack. */
  predicate StackByte(f: Option<Facts>, a: nat) {
    f.Some? && f.value.kind == Stack && f.value.perms.readable && f.value.perms.writable && f.value.floor <= a
  }

  /** The stretch of `bytes` that ends at `e` meets no address of `r`; an empty `r` is a point. */
  predicate Clears(r: Region, e: int, bytes: int) {
    !(r.start < e && r.end > e - bytes)
  }

  ghost predicate Spot(recorded: bool, heap: Region, regions: seq<Region>, ceiling: int, bytes: int, e: int) {
    && bytes <= e <= ceiling && (!recorded ==> Clears(heap, e, bytes))
    && forall r :: r in regions ==> Clears(r, e, bytes)
  }

  lemma MeetsShown(regions: seq<Region>, i: nat, start: nat, end: nat)
    requires i < |regions| && OverlapsSpan(regions[i], start, end) && regions[i].start < regions[i].end && start < end
    ensures start <= Max(regions[i].start, start) < end && Lookup(regions, Max(regions[i].start, start)).Some?
  {
    LookupMiss(regions, Max(regions[i].start, start));
    assert regions[i] in regions && Covers(regions[i], Max(regions[i].start, start));
  }

  /** The `k`th of the three stretches a region is cut into. */
  ghost function SliceAt(r: Region, start: nat, end: nat, terms: Perms, k: nat): seq<Region>
    requires OverlapsSpan(r, start, end) && r.start < r.end
  {
    var lo, hi := Max(start, r.start), Min(end, r.end);
    if k == 0 then Slice(r, r.start, lo) else if k == 1 then Slice(r.(perms := terms), lo, hi) else Slice(r, hi, r.end)
  }

  ghost function PiecesUpTo(r: Region, start: nat, end: nat, terms: Perms, k: nat): seq<Region>
    requires OverlapsSpan(r, start, end) && r.start < r.end
  {
    if k == 0 then [] else PiecesUpTo(r, start, end, terms, k - 1) + SliceAt(r, start, end, terms, k - 1)
  }

  lemma NextPiece(r: Region, start: nat, end: nat, terms: Perms, k: nat)
    requires OverlapsSpan(r, start, end) && r.start < r.end && k < 3
    ensures PiecesUpTo(r, start, end, terms, k + 1) ==
              PiecesUpTo(r, start, end, terms, k) + SliceAt(r, start, end, terms, k)
    ensures |PiecesUpTo(r, start, end, terms, k)| + |SliceAt(r, start, end, terms, k)| <= |Pieces(r, start, end, terms)|
  {
    hide Pieces, SliceAt;
    ThreePieces(r, start, end, terms);
  }

  lemma ThreePieces(r: Region, start: nat, end: nat, terms: Perms)
    requires OverlapsSpan(r, start, end) && r.start < r.end
    ensures PiecesUpTo(r, start, end, terms, 3) == Pieces(r, start, end, terms)
    ensures |PiecesUpTo(r, start, end, terms, 1)| <= |PiecesUpTo(r, start, end, terms, 2)|
    ensures |PiecesUpTo(r, start, end, terms, 2)| <= |Pieces(r, start, end, terms)|
  {
    hide Slice;
    assert PiecesUpTo(r, start, end, terms, 1) == [] + SliceAt(r, start, end, terms, 0);
  }

  /** Cuts a region at the edges of [start, end) into fresh nodes, the middle with new permissions. */
  method StageProtection(batch: seq<Region>, source: Region, start: nat, end: nat, terms: Perms, room: nat)
    returns (ok: bool, staged: seq<Region>, left: nat)
    requires OverlapsSpan(source, start, end) && source.start < source.end && start < end
    ensures ok <==> room >= |Pieces(source, start, end, terms)|
    ensures ok ==>
              staged == batch + Pieces(source, start, end, terms) && left == room - |Pieces(source, start, end, terms)|
  {
    var cutStart, cutEnd := Max(start, source.start), Min(end, source.end);
    var cuts := [source.start, cutStart, cutEnd, source.end];
    staged, left := batch, room;
    ThreePieces(source, start, end, terms);
    for index := 0 to 3
      invariant staged == batch + PiecesUpTo(source, start, end, terms, index)
      invariant left + |PiecesUpTo(source, start, end, terms, index)| == room
    {
      hide Pieces, PiecesUpTo;
      NextPiece(source, start, end, terms, index);
      if cuts[index] != cuts[index + 1] {
        if left == 0 {
          return false, staged, left;
        }
        left := left - 1;
        var offset := (source.offset + (cuts[index] - source.start)) % WORD;
        var part := source.(start := cuts[index], end := cuts[index + 1], offset := offset);
        if index == 1 {
          part := part.(perms := terms);
        }
        staged := staged + [part];
      }
    }
    ok := true;
  }

  class VmaStore {
    var regions: seq<Region>
    var heap: Region
    var heapBreak: nat
    var heapMax: nat
    var heapRecorded: bool

    ghost predicate Valid()
      reads this
    {
      && Listed(regions) && Disjoint(regions)
      && heap.start <= heap.end < WORD && heap.offset < WORD && heapMax + PAGE_BYTES <= WORD
      && heap.kind == Anonymous && heap.backing == 0
      && (!heapRecorded ==> ApartFrom(heap, regions))
    }

    ghost function At(a: nat): Option<Facts>
      reads this
    {
      Shown(heapRecorded, heap, regions, a)
    }

    constructor ()
      ensures Valid() && regions == [] && forall a :: At(a) == None
    {
      regions, heapBreak, heapMax, heapRecorded := [], 0, 0, false;
      heap := Region(0, 0, Anonymous, 0, Perms(false, false, false), 0, 0);
    }

    /** Records a region, unless one of its addresses is promised already. */
    method RegisterRange(spec: Region, room: nat) returns (r: Outcome<()>)
      requires Valid() && spec.start < WORD && spec.end < WORD && spec.offset < WORD
      modifies this`regions
      ensures Valid()
      ensures r == if spec.start >= spec.end then Err(InvalidArgument)
                   else if exists a :: Covers(spec, a) && old(At(a)).Some? then Err(AlreadyExists)
                   else if room == 0 then Err(OutOfMemory) else Ok(())
      ensures forall a: nat :: At(a) == if r.Ok? && Covers(spec, a) then Some(FactsAt(Born(spec), a)) else old(At(a))
      ensures r.Ok? && spec.kind == Stack && spec.floor == 0 && spec.start + PAGE_BYTES < WORD ==>
                forall a: nat :: spec.start <= a < Min(spec.end, spec.start + PAGE_BYTES) ==> !StackByte(At(a), a)
    {
      hide Lookup;
      if spec.start >= spec.end {
        return Err(InvalidArgument);
      }
      if !heapRecorded && heap.start < heap.end && OverlapsSpan(heap, spec.start, spec.end) {
        assert Covers(spec, Max(heap.start, spec.start)) && At(Max(heap.start, spec.start)).Some?;
        return Err(AlreadyExists);
      }
      var i: nat := 0;
      while i < |regions|
        invariant i <= |regions|
        invariant forall j :: 0 <= j < i ==> !OverlapsSpan(regions[j], spec.start, spec.end)
        modifies {}
      {
        if OverlapsSpan(regions[i], spec.start, spec.end) {
          MeetsShown(regions, i, spec.start, spec.end);
          ghost var a := Max(regions[i].start, spec.start);
          assert Covers(spec, a) && At(a).Some?;
          return Err(AlreadyExists);
        }
        i := i + 1;
      }
      forall a | Covers(spec, a)
        ensures At(a) == None
      {
        LookupMiss(regions, a);
      }
      if room == 0 {
        return Err(OutOfMemory);
      }
      ghost var was := regions;
      regions := regions + [Born(spec)];
      forall a
        ensures At(a) == if Covers(spec, a) then Some(FactsAt(Born(spec), a)) else old(At(a))
      {
        AppendOne(was, Born(spec), a);
      }
      AppendOne(was, Born(spec), 0);
      r := Ok(());
    }

    /** The region that promises an address. */
    method Find(address: nat) returns (r: Option<Region>)
      requires Valid()
      ensures r.Some? <==> At(address).Some?
      ensures r.Some? ==> Covers(r.value, address) && At(address) == Some(FactsAt(r.value, address))
      ensures r.Some? ==>
                && r.value.end < WORD
                && ((r.value == heap && !heapRecorded)
                     || (r.value in regions && (heapRecorded || !Covers(heap, address))))
    {
      hide Lookup;
      if !heapRecorded && Covers(heap, address) {
        return Some(heap);
      }
      var i: nat := 0;
      while i < |regions|
        invariant i <= |regions|
        invariant forall j :: 0 <= j < i ==> !Covers(regions[j], address)
      {
        if Covers(regions[i], address) {
          LookupIn(regions, i, address);
          return Some(regions[i]);
        }
        i := i + 1;
      }
      LookupMiss(regions, address);
      r := None;
    }

    /** Whether a stretch lies wholly in usable stack. */
    method StackContains(start: nat, bytes: nat) returns (b: bool)
      requires Valid() && start < WORD && bytes < WORD
      ensures b <==> 0 < bytes <= WORD - 1 - start && forall a :: start <= a < start + bytes ==> StackByte(At(a), a)
    {
      hide Lookup, Shown;
      if bytes == 0 || bytes > WORD - 1 - start {
        return false;
      }
      var end := start + bytes;
      var cursor := start;
      while cursor < end
        invariant start <= cursor <= end
        invariant forall a: nat :: start <= a < cursor ==> StackByte(At(a), a)
      {
        var r := Find(cursor);
        if r.None? || r.value.kind != Stack || !r.value.perms.readable || !r.value.perms.writable
          || cursor < r.value.floor {
          assert !StackByte(At(cursor), cursor);
          return false;
        }
        forall a | cursor <= a < Min(r.value.end, end)
          ensures StackByte(At(a), a)
        {
          SameRegion(r.value, cursor, a);
        }
        cursor := Min(r.value.end, end);
      }
      b := true;
    }

    /** The whole of the region that covers an address promises alike. */
    lemma SameRegion(r: Region, a: nat, b: nat)
      requires Valid() && Covers(r, a) && Covers(r, b)
      requires (r == heap && !heapRecorded) || (r in regions && (heapRecorded || !Covers(heap, a)))
      ensures At(b) == Some(FactsAt(r, b))
    {
      if r in regions {
        var i :| 0 <= i < |regions| && regions[i] == r;
        LookupIn(regions, i, b);
      }
    }

    /** Whether every address of a stretch is promised. */
    method SpanKnown(start: nat, end: nat) returns (b: bool)
      requires Valid()
      ensures b <==> forall a :: start <= a < end ==> At(a).Some?
    {
      hide Lookup;
      var spot := start;
      while spot < end
        invariant start <= spot
        invariant forall a: nat :: start <= a < spot ==> At(a).Some?
      {
        var reach := spot;
        if !heapRecorded && heap.start <= spot && spot < heap.end {
          reach := heap.end;
        }
        var i: nat := 0;
        while i < |regions|
          invariant i <= |regions| && spot <= reach
          invariant forall a: nat :: spot <= a < reach ==> At(a).Some?
          invariant reach == spot ==> (!heapRecorded ==> !Covers(heap, spot)) && forall j :: 0 <= j < i ==>
                      !Covers(regions[j], spot)
        {
          if regions[i].start <= spot && spot < regions[i].end {
            ghost var before := reach;
            reach := Max(reach, regions[i].end);
            forall a | before <= a < reach
              ensures At(a).Some?
            {
              LookupMiss(regions, a);
              assert Covers(regions[i], a);
            }
          }
          i := i + 1;
        }
        if reach <= spot {
          LookupMiss(regions, spot);
          assert !At(spot).Some?;
          return false;
        }
        spot := reach;
      }
      b := true;
    }

    /** The highest stretch of `bytes` below the ceiling that clears every recorded span. */
    method FindFreeSpot(ceiling: nat, bytes: nat) returns (r: Outcome<nat>)
      requires Valid() && ceiling < WORD && bytes < WORD
      ensures r.Ok? ==> Spot(heapRecorded, heap, regions, ceiling, bytes, r.value + bytes)
      ensures r.Ok? ==> forall e :: Spot(heapRecorded, heap, regions, ceiling, bytes, e) ==> e <= r.value + bytes
      ensures r.Err? ==> r.error == OutOfMemory
      ensures r.Err? <==> bytes == 0 || forall e :: !Spot(heapRecorded, heap, regions, ceiling, bytes, e)
    {
      if bytes == 0 || ceiling < bytes {
        return Err(OutOfMemory);
      }
      var spotEnd := ceiling;
      var moved := true;
      while moved
        invariant 0 <= spotEnd <= ceiling
        invariant forall e :: Spot(heapRecorded, heap, regions, ceiling, bytes, e) ==> e <= spotEnd
        invariant !moved && bytes <= spotEnd ==> Spot(heapRecorded, heap, regions, ceiling, bytes, spotEnd)
        decreases spotEnd, moved
      {
        moved := false;
        ghost var before := spotEnd;
        if !heapRecorded && heap.start < spotEnd && heap.end > (spotEnd - bytes) % WORD {
          spotEnd := heap.start;
          moved := true;
        }
        var i: nat := 0;
        while i < |regions|
          invariant i <= |regions| && 0 <= spotEnd <= ceiling && (if moved then spotEnd < before else spotEnd == before)
          invariant forall e :: Spot(heapRecorded, heap, regions, ceiling, bytes, e) ==> e <= spotEnd
          invariant !moved && bytes <= spotEnd && !heapRecorded ==> Clears(heap, spotEnd, bytes)
          invariant !moved && bytes <= spotEnd ==> forall j :: 0 <= j < i ==> Clears(regions[j], spotEnd, bytes)
        {
          if regions[i].start < spotEnd && regions[i].end > (spotEnd - bytes) % WORD {
            forall e | Spot(heapRecorded, heap, regions, ceiling, bytes, e)
              ensures e <= regions[i].start
            {
              assert Clears(regions[i], e, bytes);
            }
            spotEnd := regions[i].start;
            moved := true;
          }
          i := i + 1;
        }
      }
      if spotEnd < bytes {
        return Err(OutOfMemory);
      }
      r := Ok(spotEnd - bytes);
    }

    /** The unrecorded heap span is met by the stretch, so it must be listed before it can be cut. */
    ghost predicate HeapMet(start: nat, end: nat)
      reads this
    {
      !heapRecorded && heap.start < heap.end && OverlapsSpan(heap, start, end)
    }

    /** The nodes forgetting a stretch needs: one to list the heap span, one for a second remainder. */
    ghost function NodesToForget(start: nat, end: nat): nat
      reads this
    {
      (if HeapMet(start, end) then 1 else 0)
      + (if Straddled(regions, start, end) || (HeapMet(start, end) && Straddles(heap, start, end)) then 1 else 0)
    }

    /** Forgets exactly the addresses [start, end), or, short of list nodes, nothing. */
    method UnregisterRange(start: nat, end: nat, room: nat) returns (r: Outcome<()>)
      requires Valid() && start < WORD && end < WORD
      modifies this`regions, this`heapRecorded
      ensures Valid()
      ensures r == if start >= end then Err(InvalidArgument)
                   else if room < old(NodesToForget(start, end)) then Err(OutOfMemory) else Ok(())
      ensures forall a: nat :: At(a) == if r.Ok? && start <= a < end then None else old(At(a))
      ensures old(heapRecorded) ==> heapRecorded
    {
      hide Lookup, Straddled;
      if start >= end {
        return Err(InvalidArgument);
      }
      var left := room;
      if !heapRecorded && heap.start < heap.end && OverlapsSpan(heap, start, end) {
        if left == 0 {
          return Err(OutOfMemory);
        }
        left := left - 1;
        forall a
          ensures Lookup(regions + [heap], a) == old(At(a))
        {
          AppendOne(regions, heap, a);
        }
        AppendOne(regions, heap, 0);
        StraddledWith(regions, heap, start, end);
        regions := regions + [heap];
        heapRecorded := true;
      }
      r := CutRange(start, end, left);
    }

    /** Cuts [start, end) out of region `i`; refused when there is a second remainder and no node for it. */
    method CutRegion(i: nat, start: nat, end: nat, room: nat) returns (ok: bool, next: nat, left: nat)
      requires i < |regions| && OverlapsSpan(regions[i], start, end)
      modifies this`regions
      ensures ok <==> !(Straddles(old(regions)[i], start, end) && room == 0)
      ensures regions == if ok then CutStep(old(regions), i, start, end) else old(regions)
      ensures ok ==> next == NextScan(old(regions), i, start, end)
      ensures ok ==> left == if Straddles(old(regions)[i], start, end) then room - 1 else room
    {
      var last := i + 1 == |regions|;
      var scan := regions[i];
      var keepsHead, keepsTail := scan.start < start, scan.end > end;
      ok, next, left := true, i + 1, room;
      if keepsHead && keepsTail {
        if room == 0 {
          return false, i, left;
        }
        left := left - 1;
        var tail := scan.(start := end, offset := (scan.offset + (end - scan.start)) % WORD);
        regions := regions[i := scan.(end := start)];
        regions := regions + [tail];
        next := if last then |regions| else i + 1;
      } else if keepsHead {
        regions := regions[i := scan.(end := start)];
      } else if keepsTail {
        regions := regions[i := scan.(start := end, offset := (scan.offset + (end - scan.start)) % WORD)];
      } else {
        regions := regions[..i] + regions[i + 1..];
        next := i;
      }
    }

    /** Cuts [start, end) out of every listed region. */
    method CutRange(start: nat, end: nat, room: nat) returns (r: Outcome<()>)
      requires Valid() && start < end < WORD
      requires !heapRecorded && heap.start < heap.end ==> !OverlapsSpan(heap, start, end)
      modifies this`regions
      ensures Valid()
      ensures r == if room == 0 && old(Straddled(regions, start, end)) then Err(OutOfMemory) else Ok(())
      ensures forall a: nat :: At(a) == if r.Ok? && start <= a < end then None else old(At(a))
    {
      hide Lookup, CutStep, NextScan, Disjoint, Listed, ApartFrom, CutOut, Straddled, ClearUpTo, AllWithin;
      var left := room;
      ghost var was, split := regions, false;
      CutNothing(was, start, end);
      var i: nat := 0;
      while i < |regions|
        invariant i <= |regions| && Valid() && ClearUpTo(regions, i, start, end) && CutOut(was, regions, start, end)
        invariant split ==> ClearUpTo(regions, |regions|, start, end) && Straddled(was, start, end) && room > 0
        invariant !split ==> left == room && (Straddled(was, start, end) ==> regions == was)
        invariant !Straddled(was, start, end) ==> !Straddled(regions, start, end)
        decreases left, |regions| - i
      {
        ghost var before, at := regions, i;
        if OverlapsSpan(regions[i], start, end) {
          CutKeeps(was, before, at, start, end, split);
          CutKeepsApart(before, at, start, end, heap);
          var ok;
          ok, i, left := CutRegion(i, start, end, left);
          if !ok {
            return Err(OutOfMemory);
          }
          split := split || Straddles(before[at], start, end);
        } else {
          NextClear(regions, i, start, end);
          i := i + 1;
        }
      }
      ClearIsNotStraddled(regions, start, end);
      forall a: nat
        ensures At(a) == if start <= a < end then None else old(At(a))
      {
        AllCut(was, regions, start, end, a);
      }
      r := Ok(());
    }

    /** The nodes protect needs: one for each stretch it leaves. */
    ghost function Needed(start: nat, end: nat, terms: Perms): nat
      reads this
      requires Valid()
    {
      |Staged(regions, start, end, terms)| + if HeapPart(start, end) then |Pieces(heap, start, end, terms)| else 0
    }

    ghost predicate HeapPart(start: nat, end: nat)
      reads this
    {
      !heapRecorded && heap.start < heap.end && OverlapsSpan(heap, start, end)
        && !(start <= heap.start && heap.end <= end)
    }

    ghost predicate WholeHeap(start: nat, end: nat)
      reads this
    {
      !heapRecorded && heap.start < heap.end && start <= heap.start && heap.end <= end
    }

    /** Changes the permissions of exactly [start, end), or, short of list nodes, nothing. */
    method Protect(start: nat, end: nat, terms: Perms, room: nat) returns (r: Outcome<()>)
      requires Valid() && start < WORD && end < WORD
      modifies this`regions, this`heap, this`heapRecorded
      ensures Valid() && heapRecorded == (old(heapRecorded) || (r.Ok? && old(HeapPart(start, end))))
      ensures heap == if r.Ok? && old(WholeHeap(start, end)) then old(heap).(perms := terms) else old(heap)
      ensures r == if start >= end || exists a: nat :: start <= a < end && old(At(a)) == None then Err(InvalidArgument)
                   else if room < old(Needed(start, end, terms)) then Err(OutOfMemory) else Ok(())
      ensures forall a: nat :: At(a) == if r.Ok? then Repaint(old(At(a)), a, start, end, terms) else old(At(a))
    {
      hide Lookup, Staged, Pieces, Kept, Hit;
      var known := SpanKnown(start, end);
      if start >= end || !known {
        return Err(InvalidArgument);
      }
      forall a: nat | start <= a < end
        ensures old(At(a)) != None
      {
        assert At(a).Some?;
      }
      var ok, batch, left := StageAll(start, end, terms, room);
      if !ok {
        assert room < Needed(start, end, terms);
        return Err(OutOfMemory);
      }
      var heapCovered := !heapRecorded && heap.start < heap.end && OverlapsSpan(heap, start, end);
      var wholeHeap := heapCovered && start <= heap.start && heap.end <= end;
      if heapCovered && !wholeHeap {
        ok, batch, left := StageProtection(batch, heap, start, end, terms, left);
        if !ok {
          return Err(OutOfMemory);
        }
      }
      ghost var was, span := regions, heap;
      DropRange(start, end);
      if wholeHeap {
        heap := heap.(perms := terms);
      } else if heapCovered {
        heapRecorded := true;
      }
      regions := regions + batch;
      RepaintedApart(was, start, end, terms);
      if heapRecorded && !old(heapRecorded) {
        RepaintedWith(was, span, start, end, terms, 0);
      } else if !heapRecorded {
        WithinApart(regions, was, span);
      }
      forall a: nat
        ensures At(a) == Repaint(old(At(a)), a, start, end, terms)
      {
        if heapRecorded && !old(heapRecorded) {
          RepaintedWith(was, span, start, end, terms, a);
        } else {
          RepaintedLookup(was, start, end, terms, a);
        }
      }
      r := Ok(());
    }

    method StageAll(start: nat, end: nat, terms: Perms, room: nat) returns (ok: bool, batch: seq<Region>, left: nat)
      requires Valid() && start < end
      ensures ok <==> room >= |Staged(regions, start, end, terms)|
      ensures ok ==> batch == Staged(regions, start, end, terms) && left == room - |Staged(regions, start, end, terms)|
    {
      hide Pieces;
      batch, left := [], room;
      var i: nat := 0;
      while i < |regions|
        invariant i <= |regions|
        invariant batch + Staged(regions[i..], start, end, terms) == Staged(regions, start, end, terms)
        invariant left + |batch| == room
      {
        assert regions[i..][1..] == regions[i + 1..] && regions[i] in regions;
        if OverlapsSpan(regions[i], start, end) {
          ok, batch, left := StageProtection(batch, regions[i], start, end, terms, left);
          if !ok {
            return;
          }
        }
        i := i + 1;
      }
      ok := true;
    }

    method DropRange(start: nat, end: nat)
      modifies this`regions
      ensures regions == Kept(old(regions), start, end)
    {
      hide Kept, OverlapsSpan;
      var i: nat := 0;
      ghost var was := regions;
      assert regions[..0] == [] && regions[0..] == regions && [] + Kept(was, start, end) == Kept(was, start, end);
      while i < |regions|
        invariant i <= |regions|
        invariant regions[..i] + Kept(regions[i..], start, end) == Kept(was, start, end)
        decreases |regions| - i
      {
        KeptNext(regions, i, start, end);
        ghost var front, rest := regions[..i], regions[i + 1..];
        if OverlapsSpan(regions[i], start, end) {
          regions := regions[..i] + regions[i + 1..];
          assert regions[..i] == front && regions[i..] == rest;
        } else {
          assert front + ([regions[i]] + Kept(rest, start, end)) == (front + [regions[i]]) + Kept(rest, start, end);
          assert regions[..i + 1] == front + [regions[i]];
          i := i + 1;
        }
      }
      KeptNone(regions[i..], start, end);
      assert regions[..i] == regions && regions + [] == regions;
    }

    /** Starts an empty heap span. */
    method SeedHeap(base: nat, max: nat)
      requires Valid() && base < WORD && max + PAGE_BYTES <= WORD
      modifies this
      ensures Valid() && heap.start == base && heap.end == base && heapBreak == base && heapMax == max && !heapRecorded
      ensures heap.perms == READ_WRITE && regions == old(regions)
      ensures forall a: nat :: At(a) == Lookup(old(regions), a)
    {
      heap := Region(base, base, Anonymous, heap.floor, READ_WRITE, 0, 0);
      heapBreak, heapMax, heapRecorded := base, max, false;
    }

    /** The nodes a move of the heap's end needs, once its bytes are listed. */
    ghost function NodesToMove(wanted: nat): nat
      reads this
    {
      if !heapRecorded || wanted == heap.end then 0
      else if wanted > heap.end then 1
      else NodesToForget(wanted, heap.end)
    }

    /** Some address of the stretch is promised. */
    ghost predicate Meets(start: nat, end: nat)
      reads this
    {
      exists a: nat :: start <= a < end && At(a).Some?
    }

    /** Whether no listed region meets the stretch between the heap's end and `wanted`. */
    method ClearAbove(wanted: nat) returns (clear: bool)
      requires Valid() && heap.end < wanted
      ensures clear <==> !Meets(heap.end, wanted)
    {
      hide Lookup;
      var i: nat := 0;
      while i < |regions|
        invariant i <= |regions|
        invariant forall j :: 0 <= j < i ==> !OverlapsSpan(regions[j], heap.end, wanted)
      {
        if OverlapsSpan(regions[i], heap.end, wanted) {
          MetBy(i, wanted);
          return false;
        }
        i := i + 1;
      }
      ClearRange(regions, heap.end, wanted);
      clear := true;
    }

    /** Adds or forgets the listed bytes between the heap's end and `wanted`. */
    method ShiftListed(wanted: nat, room: nat) returns (r: Outcome<()>)
      requires Valid() && heapRecorded && wanted < WORD && (heap.end < wanted ==> !Meets(heap.end, wanted))
      modifies this`regions, this`heapRecorded
      ensures Valid() && heapRecorded
      ensures r == if room < old(NodesToMove(wanted)) then Err(OutOfMemory) else Ok(())
      ensures forall a: nat :: At(a) == if r.Ok? then Moved(true, heap, wanted, a, old(At(a))) else old(At(a))
    {
      hide Lookup, Straddled;
      r := Ok(());
      if wanted > heap.end {
        assert forall a :: Covers(Extension(heap, wanted), a) ==> At(a) == None;
        r := RegisterRange(Extension(heap, wanted), room);
      } else if wanted < heap.end {
        r := UnregisterRange(wanted, heap.end, room);
      }
    }

    lemma MetBy(i: nat, wanted: nat)
      requires Valid() && i < |regions| && heap.end < wanted && OverlapsSpan(regions[i], heap.end, wanted)
      ensures Meets(heap.end, wanted)
    {
      hide Lookup;
      MeetsShown(regions, i, heap.end, wanted);
      assert At(Max(regions[i].start, heap.end)).Some?;
    }

    /** Moving the end of an unlisted heap span shows what brk promises. */
    lemma ShiftedSpan(wanted: nat, a: nat)
      requires Valid() && !heapRecorded && heap.start <= wanted && (heap.end < wanted ==> !Meets(heap.end, wanted))
      ensures Shown(false, heap.(end := wanted), regions, a) == Moved(false, heap, wanted, a, At(a))
    {
      hide Lookup;
      LookupMiss(regions, a);
      assert forall q :: q in regions ==> Apart(heap, q);
    }

    /** Nothing listed touches the moved span. */
    lemma ShiftedApart(wanted: nat)
      requires Valid() && !heapRecorded && heap.start <= wanted && (heap.end < wanted ==> !Meets(heap.end, wanted))
      ensures ApartFrom(heap.(end := wanted), regions)
    {
      hide Lookup;
      forall q | q in regions
        ensures Apart(heap.(end := wanted), q)
      {
        assert Apart(heap, q);
        if heap.end < wanted && OverlapsSpan(q, heap.end, wanted) {
          var i :| 0 <= i < |regions| && regions[i] == q;
          MetBy(i, wanted);
        }
      }
    }

    /** Moves the program break; the heap span covers whole pages up to it. */
    method MoveHeapEnd(target: nat, room: nat) returns (r: Outcome<nat>)
      requires Valid() && target < WORD
      modifies this
      ensures Valid() && heap == old(heap).(end := heap.end) && heapMax == old(heapMax)
      ensures heapRecorded == old(heapRecorded) && (!heapRecorded ==> regions == old(regions))
      ensures r.Ok? ==> r.value == heapBreak
      ensures r.Ok? && target != 0 ==>
                && heapBreak == target && heap.end == AlignUp(target) && heap.start <= target <= heapMax
                && heap.end % PAGE_BYTES == 0 && target <= heap.end < target + PAGE_BYTES
                && forall a: nat :: old(heap.end) <= a < heap.end ==>
                                      (PlainMemory(At(a)) <==> old(heapRecorded || heap.perms == READ_WRITE))
      ensures r.Ok? && target == 0 ==> unchanged(this)
      ensures r.Ok? && target != 0 ==>
                forall a: nat :: At(a) == Moved(old(heapRecorded), old(heap), heap.end, a, old(At(a)))
      ensures r.Err? ==> heap == old(heap) && heapBreak == old(heapBreak) && forall a: nat :: At(a) == old(At(a))
      ensures r == Err(NotFound) <==> old(heap.start) == 0 && old(heap.end) == 0
      ensures r == Err(InvalidArgument) <==>
                old(heap.end) != 0 && target != 0 && !(old(heap.start) <= target <= old(heapMax))
      ensures r == Err(AlreadyExists) <==>
                && old(heap.end) != 0 && target != 0 && old(heap.start) <= target <= old(heapMax)
                && old(Meets(heap.end, AlignUp(target)))
      ensures r == Err(OutOfMemory) <==>
                && old(heap.end) != 0 && target != 0 && old(heap.start) <= target <= old(heapMax)
                && !old(Meets(heap.end, AlignUp(target))) && room < old(NodesToMove(AlignUp(target)))
    {
      hide Lookup, Straddled, ApartFrom, Disjoint, Listed;
      if heap.start == 0 && heap.end == 0 {
        return Err(NotFound);
      }
      if target == 0 {
        return Ok(heapBreak);
      }
      if target < heap.start || target > heapMax {
        return Err(InvalidArgument);
      }
      var wanted := AlignUp(target);
      AlignUpIsLeast(target, 0);
      if wanted > heap.end {
        var clear := ClearAbove(wanted);
        if !clear {
          return Err(AlreadyExists);
        }
      }
      if heapRecorded {
        var shifted := ShiftListed(wanted, room);
        if shifted.Err? {
          return Err(shifted.error);
        }
      } else {
        ShiftedApart(wanted);
      }
      forall a: nat
        ensures Shown(heapRecorded, heap.(end := wanted), regions, a) ==
                Moved(heapRecorded, heap, wanted, a, old(At(a)))
      {
        if heapRecorded {
          assert At(a) == Moved(true, heap, wanted, a, old(At(a)));
        } else {
          ShiftedSpan(wanted, a);
        }
      }
      heap := heap.(end := wanted);
      heapBreak := target;
      r := Ok(target);
    }
  }

  lemma NamedError(r: Outcome<nat>)
    ensures r.Ok? || r == Err(NotFound) || r == Err(InvalidArgument) || r == Err(AlreadyExists) || r == Err(OutOfMemory)
  {
    if r.Err? {
      match r.error
      case NotFound =>
      case InvalidArgument =>
      case AlreadyExists =>
      case OutOfMemory =>
    }
  }

  /** A heap made read-only as a whole grows read-only: the page brk adds is not plain memory. */
  method ProtectedHeapGrows() returns (store: VmaStore)
    ensures fresh(store) && store.heap.end == 0x7000 && store.At(0x6000).Some? && !PlainMemory(store.At(0x6000))
  {
    store := new VmaStore();
    store.SeedHeap(0x5000, 0x10000);
    assert forall a: nat :: store.At(a) == None;
    var grown := store.MoveHeapEnd(0x6000, 0);
    NamedError(grown);
    assert forall a: nat :: 0x5000 <= a < 0x6000 ==> store.At(a).Some?;
    var made := store.Protect(0x5000, 0x6000, Perms(true, false, false), 0);
    assert forall a: nat :: 0x6000 <= a < 0x7000 ==> store.At(a) == None;
    var more := store.MoveHeapEnd(0x7000, 0);
    NamedError(more);
  }
}
