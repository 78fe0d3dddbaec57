/**
 Whole runs of the heap on rows of blocks: any number of requests, returns and growths in any order,
 refused ones included.
 */
module HeapRuns {
  import opened Wrappers
  import opened HeapBlocks

  ghost predicate Fits(b: Block, wanted: nat) {
    !b.live && b.payload >= wanted
  }

  /** None of the first `n` blocks would do. */
  ghost predicate NoneFits(row: Row, n: nat, wanted: nat)
    requires n <= |row|
  {
    forall j :: 0 <= j < n ==> !Fits(row[j], wanted)
  }

  ghost predicate LiveBlock(b: Block, ptr: nat) {
    b.live && b.addr + HEADER == ptr
  }

  /** The pointer was handed out and not taken back. */
  ghost predicate LiveAt(row: Row, ptr: nat) {
    exists i :: 0 <= i < |row| && LiveBlock(row[i], ptr)
  }

  ghost function FirstFit(row: Row, wanted: nat): (i: nat)
    ensures i <= |row| && NoneFits(row, i, wanted) && (i < |row| ==> Fits(row[i], wanted))
  {
    if row == [] || Fits(row[0], wanted) then 0 else FirstFit(row[1..], wanted) + 1
  }

  ghost function Holder(row: Row, ptr: nat): (i: nat)
    ensures i <= |row| && (i < |row| ==> LiveBlock(row[i], ptr)) && forall j :: 0 <= j < i ==> !LiveBlock(row[j], ptr)
  {
    if row == [] || LiveBlock(row[0], ptr) then 0 else Holder(row[1..], ptr) + 1
  }

  datatype Op = Alloc(bytes: nat) | Release(ptr: nat) | Extend(newTop: nat)

  datatype State = State(row: Row, base: nat, top: nat)

  ghost function Step(s: State, op: Op): State {
    match op
    case Alloc(bytes) =>
      var wanted := RoundPayload(bytes);
      var i := FirstFit(s.row, wanted);
      if i == |s.row| then s else s.(row := Split(s.row, i, wanted))
    case Release(ptr) =>
      var i := Holder(s.row, ptr);
      if i == |s.row| then s else s.(row := Freed(s.row, i))
    case Extend(newTop) =>
      if newTop < s.top + Span(MIN_PAYLOAD) || newTop % ALIGN != 0 then s
      else State(Grown(s.row, s.top, newTop - s.top), s.base, newTop)
  }

  ghost function Run(s: State, ops: seq<Op>): State {
    if ops == [] then s else Step(Run(s, ops[..|ops| - 1]), ops[|ops| - 1])
  }

  function Start(base: nat, bytes: nat): State
    requires bytes >= Span(MIN_PAYLOAD)
  {
    State([Block(base, bytes - HEADER - FOOTER, false)], base, base + bytes)
  }

  /** The blocks lie end to end over the whole span and no two free ones touch. */
  ghost predicate Sound(s: State) {
    s.row != [] && Tiled(s.row, s.base, s.top) && Coalesced(s.row) && s.base % ALIGN == 0 && s.top % ALIGN == 0
  }

  lemma StepKeeps(s: State, op: Op)
    requires Sound(s) && (op.Alloc? ==> op.bytes < WORD)
    ensures Sound(Step(s, op))
  {
    hide Tiled, Coalesced, Freed, Grown, RoundPayload;
    match op
    case Alloc(bytes) =>
      var wanted := RoundPayload(bytes);
      var i := FirstFit(s.row, wanted);
      RoundingCovers(bytes);
      if i < |s.row| {
        SplitTiles(s.row, s.base, s.top, i, wanted);
        SplitCoalesces(s.row, i, wanted);
      }
    case Release(ptr) =>
      var i := Holder(s.row, ptr);
      if i < |s.row| {
        FreedTiles(s.row, s.base, s.top, i);
        FreedCoalesces(s.row, i);
      }
    case Extend(newTop) =>
      if newTop >= s.top + Span(MIN_PAYLOAD) && newTop % ALIGN == 0 {
        GrownTiles(s.row, s.base, s.top, newTop - s.top);
        GrownCoalesces(s.row, s.top, newTop - s.top);
      }
  }

  /** Every run keeps the heap whole. */
  lemma {:induction false} RunKeeps(base: nat, bytes: nat, ops: seq<Op>)
    requires base % ALIGN == 0 && bytes % ALIGN == 0 && bytes >= Span(MIN_PAYLOAD)
    requires forall op :: op in ops && op.Alloc? ==> op.bytes < WORD
    ensures Sound(Run(Start(base, bytes), ops))
  {
    if ops == [] {
      TiledOne(Start(base, bytes).row[0], End(Start(base, bytes).row[0]));
    } else {
      hide Sound, Step, Start;
      RunKeeps(base, bytes, ops[..|ops| - 1]);
      StepKeeps(Run(Start(base, bytes), ops[..|ops| - 1]), ops[|ops| - 1]);
    }
  }

  /** A live payload stays where it is, as long as it is, until its own pointer is returned. */
  lemma PayloadStays(s: State, op: Op, p: (nat, nat))
    requires Sound(s) && p in Live(s.row) && op != Release(p.0)
    ensures p in Live(Step(s, op).row)
  {
    hide Tiled, Coalesced, Freed, Grown, RoundPayload, Live, Split;
    match op
    case Alloc(bytes) =>
      var i := FirstFit(s.row, RoundPayload(bytes));
      if i < |s.row| {
        SplitLive(s.row, i, RoundPayload(bytes));
      }
    case Release(ptr) =>
      var i := Holder(s.row, ptr);
      if i < |s.row| {
        FreedLive(s.row, s.base, s.top, i);
      }
    case Extend(newTop) =>
      if newTop >= s.top + Span(MIN_PAYLOAD) && newTop % ALIGN == 0 {
        GrownLive(s.row, s.top, newTop - s.top);
      }
  }

  /**
   Over every run: whatever is live is sixteen-aligned, inside the heap and apart from everything else
   that is live, and it stayed in place since any earlier point from which nobody returned it.
   */
  lemma {:induction false} LiveForGood(base: nat, bytes: nat, ops: seq<Op>, k: nat, p: (nat, nat), q: (nat, nat))
    requires base % ALIGN == 0 && bytes % ALIGN == 0 && bytes >= Span(MIN_PAYLOAD) && k <= |ops|
    requires forall op :: op in ops && op.Alloc? ==> op.bytes < WORD
    requires p in Live(Run(Start(base, bytes), ops[..k]).row) && Release(p.0) !in ops[k..]
    ensures var s := Run(Start(base, bytes), ops);
            && p in Live(s.row) && p.0 % ALIGN == 0 && base <= p.0 && p.0 + p.1 <= s.top
            && (q in Live(s.row) && q != p ==> p.0 + p.1 <= q.0 || q.0 + q.1 <= p.0)
    decreases |ops|
  {
    hide Sound, Step, Start, Live;
    var s := Run(Start(base, bytes), ops);
    RunKeeps(base, bytes, ops);
    if k < |ops| {
      var front := ops[..|ops| - 1];
      assert front[..k] == ops[..k] && ops[k..] == front[k..] + [ops[|ops| - 1]];
      LiveForGood(base, bytes, front, k, p, q);
      RunKeeps(base, bytes, front);
      PayloadStays(Run(Start(base, bytes), front), ops[|ops| - 1], p);
    } else {
      assert ops[..k] == ops;
    }
    Bounds(base, bytes, ops);
    ApartFrom(s, p, q);
  }

  lemma {:induction false} Bounds(base: nat, bytes: nat, ops: seq<Op>)
    requires bytes >= Span(MIN_PAYLOAD)
    ensures Run(Start(base, bytes), ops).base == base
  {
    if ops == [] {
    } else {
      Bounds(base, bytes, ops[..|ops| - 1]);
    }
  }

  lemma ApartFrom(s: State, p: (nat, nat), q: (nat, nat))
    requires Sound(s) && p in Live(s.row)
    ensures p.0 % ALIGN == 0 && s.base <= p.0 && p.0 + p.1 <= s.top
    ensures q in Live(s.row) && q != p ==> p.0 + p.1 <= q.0 || q.0 + q.1 <= p.0
  {
    hide Tiled;
    var i :| 0 <= i < |s.row| && s.row[i].live && (s.row[i].addr + HEADER, s.row[i].payload) == p;
    InRow(s.row, s.base, s.top, i);
    if q in Live(s.row) && q != p {
      LiveApart(s.row, s.base, s.top, p, q);
    }
  }

  // ------------------------------------------------------------------ recognising a step

  lemma FirstFitIs(row: Row, i: nat, wanted: nat)
    requires i <= |row| && NoneFits(row, i, wanted) && (i < |row| ==> Fits(row[i], wanted))
    ensures FirstFit(row, wanted) == i
  {
    assert forall j :: 0 <= j < i ==> !Fits(row[j], wanted);
  }

  lemma HolderIs(row: Row, lo: nat, hi: nat, i: nat, ptr: nat)
    requires Tiled(row, lo, hi) && i < |row| && LiveBlock(row[i], ptr)
    ensures Holder(row, ptr) == i
  {
    hide Tiled;
    var j := Holder(row, ptr);
    if j < i {
      RowOrder(row, lo, hi, j, i);
    }
  }
}
