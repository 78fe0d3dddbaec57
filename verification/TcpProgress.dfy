/**
 What a connection does for its peer, not only what it never does: new bytes that find room are taken
 and acknowledged, a FIN in its turn is taken, a parked segment is delivered once its gap fills, a lost
 segment is repaired by one exchange, and the states are those of section 3.6 of RFC 9293.
 */
module TcpProgress {
  import opened Wrappers
  import opened TcpSpec
  import opened TcpStream
  import opened TcpRuns

  // ------------------------------------------------------------------ the closing states

  /** The acknowledgement of this end's FIN, in the diagram of section 3.6 of RFC 9293. */
  function FinAcked(s: State): State {
    match s
    case FinWait1 => FinWait2
    case Closing => TimeWait
    case LastAck => Closed
    case _ => s
  }

  /** The peer's FIN, in the same diagram. */
  function FinHeard(s: State): State {
    match s
    case Established => CloseWait
    case FinWait1 => Closing
    case FinWait2 => TimeWait
    case _ => s
  }

  /** The segment acknowledges this end's FIN: everything it sent, goodbye included. */
  ghost predicate AcksFin(e: End, g: Segment, apos: nat) {
    g.ack && e.bye && apos == Nxt(e)
  }

  /** The peer's FIN, with every byte before it in. */
  ghost predicate FinInTurn(e: End, g: Segment, pos: nat) {
    g.fin && pos == e.rcv
  }

  /**
   An acknowledgement exactly half the sequence space behind SND.UNA looks as if it were ahead of
   SND.NXT, and its segment is dropped.
   */
  ghost predicate HalfBehind(e: End, g: Segment, apos: nat) {
    g.ack && Una(e) >= apos + HALF
  }

  /** The side of the control block that receives. */
  ghost predicate SameReception(c: Tcb, c': Tcb) {
    c'.inbox == c.inbox && c'.rcvNxt == c.rcvNxt && c'.seats == c.seats
  }

  /** A segment an end can hear once the handshake is over, and its place in the peer's stream. */
  ghost predicate Hearable(e: End, s: End, g: Segment, pos: nat, apos: nat) {
    Paired(e, s) && Synced(e.tcb.state) && HonestAt(s, e.iss, g, pos, apos) && !g.rst
  }

  /** What an honest acknowledgement does, before the segment's text is looked at. */
  lemma AckDoes(e: End, s: End, g: Segment, pos: nat, apos: nat)
    requires Hearable(e, s, g, pos, apos) && !e.tcb.state.TimeWait? && !HalfBehind(e, g, apos)
    ensures var a := AbsorbAck(e.tcb, g);
            var done := AcksFin(e, g, apos);
            && a.tcb.state == (if done then FinAcked(e.tcb.state) else e.tcb.state)
            && (Live(e.(tcb := a.tcb)) ==> SameReception(e.tcb, a.tcb) && a.tcb.sndNxt == e.tcb.sndNxt)
            && (Live(e.(tcb := a.tcb)) && g.ack && apos > Una(e) ==> a.tcb.sndUna == g.acknowledgement)
            && (a.stop ==> Length(g) == 0 || (done && (e.tcb.state.Closing? || e.tcb.state.LastAck?)))
  {
    hide Flows, Resent, InStream, Drop;
    RingLength(e, s.iss);
    AckInSent(e, s, s.rcv);
    if g.ack {
      AckPosition(e, s, g, apos);
      SamePosition(e.iss, apos, Nxt(e));
      SamePosition(e.iss, Una(e), Nxt(e));
      SamePosition(e.iss, Una(e), apos);
      if apos <= Una(e) {
        BeforeIsLess(e.iss, Una(e), apos);
      }
    } else {
      SamePosition(e.iss, Una(e), Nxt(e));
    }
  }

  // ------------------------------------------------------------------ parked segments

  /** A seat's turn has come, and the inbox has room for all of it. */
  predicate Due(c: Tcb, i: nat)
    requires i < SEATS
  {
    c.seats[i].Held? && c.seats[i].start == c.rcvNxt && |c.seats[i].data| + |c.inbox| <= RECEIVE_WINDOW
  }

  /** Harvesting appends to the inbox, and touches nothing but the receiving side. */
  ghost predicate Grows(c: Tcb, c': Tcb) {
    && c.inbox <= c'.inbox && |c'.inbox| <= Max(|c.inbox|, RECEIVE_WINDOW)
    && c' == c.(inbox := c'.inbox, rcvNxt := Plus(c.rcvNxt, |c'.inbox| - |c.inbox|), seats := c'.seats)
  }

  lemma GrowsOn(a: Tcb, b: Tcb, c: Tcb)
    requires Grows(a, b) && Grows(b, c)
    ensures Grows(a, c)
  {
    PlusPlus(a.rcvNxt, |b.inbox| - |a.inbox|, |c.inbox| - |b.inbox|);
  }

  lemma {:induction false} PassGrows(c: Tcb, i: nat)
    requires i <= SEATS
    ensures Grows(c, HarvestPass(c, i))
    decreases SEATS - i
  {
    if i == SEATS {
      assert Plus(c.rcvNxt, 0) == c.rcvNxt;
    } else {
      var c1 := DeliverSeat(c, i);
      assert Plus(c.rcvNxt, 0) == c.rcvNxt;
      assert Grows(c, c1);
      PassGrows(c1, i + 1);
      GrowsOn(c, c1, HarvestPass(c1, i + 1));
    }
  }

  lemma {:induction false} HarvestGrows(c: Tcb)
    ensures Grows(c, Harvest(c))
    decreases HeldFrom(c.seats, 0)
  {
    hide HarvestPass, HeldFrom;
    PassFreesSeats(c, 0);
    PassGrows(c, 0);
    var c1 := HarvestPass(c, 0);
    if c1 == c {
    } else {
      HarvestGrows(c1);
      GrowsOn(c, c1, Harvest(c1));
    }
  }

  /** A pass that changes nothing found no seat due. */
  lemma {:induction false} IdlePass(c: Tcb, i: nat)
    requires i <= SEATS
    ensures HarvestPass(c, i) == c <==> forall j :: i <= j < SEATS ==> !Due(c, j)
    decreases SEATS - i
  {
    if i == SEATS {
    } else if Due(c, i) {
      var c1 := DeliverSeat(c, i);
      FreeingASeat(c.seats, i, 0);
      PassFreesSeats(c1, i + 1);
    } else {
      IdlePass(c, i + 1);
    }
  }

  /** When harvesting ends, no parked segment that is due and fits is left; if none was, nothing has changed. */
  lemma {:induction false} HarvestDelivers(c: Tcb)
    ensures forall i :: 0 <= i < SEATS ==> !Due(Harvest(c), i)
    ensures (forall i :: 0 <= i < SEATS ==> !Due(c, i)) ==> Harvest(c) == c
    decreases HeldFrom(c.seats, 0)
  {
    hide HarvestPass, HeldFrom, Due;
    PassFreesSeats(c, 0);
    IdlePass(c, 0);
    if HarvestPass(c, 0) == c {
    } else {
      HarvestDelivers(HarvestPass(c, 0));
    }
  }

  /** No two parked segments share a byte. */
  ghost predicate SeatsApart(seats: SeatRow) {
    forall i, j :: 0 <= i < SEATS && 0 <= j < SEATS && i != j ==> Clear(seats[i], seats[j])
  }

  ghost predicate Clear(a: Seat, b: Seat) {
    b.Held? ==> !Overlaps(a, b.start, Plus(b.start, |b.data|))
  }

  lemma StoreApart(c: Tcb, g: Segment)
    requires SeatsApart(c.seats)
    ensures SeatsApart(StoreOutOfOrder(c, g).seats)
  {
    hide SeqBefore, Plus;
    var c' := StoreOutOfOrder(c, g);
    forall i, j | 0 <= i < SEATS && 0 <= j < SEATS && i != j
      ensures Clear(c'.seats[i], c'.seats[j])
    {
      assert Clear(c.seats[i], c.seats[j]);
    }
  }

  lemma {:induction false} PassApart(c: Tcb, i: nat)
    requires SeatsApart(c.seats) && i <= SEATS
    ensures SeatsApart(HarvestPass(c, i).seats)
    decreases SEATS - i
  {
    if i == SEATS {
    } else {
      FreeApart(c.seats, i);
      PassApart(DeliverSeat(c, i), i + 1);
    }
  }

  lemma FreeApart(seats: SeatRow, i: nat)
    requires SeatsApart(seats) && i < SEATS
    ensures SeatsApart(seats[i := Free])
  {
    hide SeqBefore, Plus;
    var freed: SeatRow := seats[i := Free];
    forall j, k | 0 <= j < SEATS && 0 <= k < SEATS && j != k
      ensures Clear(freed[j], freed[k])
    {
      assert Clear(seats[j], seats[k]);
    }
  }

  lemma {:induction false} HarvestApart(c: Tcb)
    requires SeatsApart(c.seats)
    ensures SeatsApart(Harvest(c).seats)
    decreases HeldFrom(c.seats, 0)
  {
    hide HarvestPass, HeldFrom, SeatsApart;
    PassFreesSeats(c, 0);
    PassApart(c, 0);
    if HarvestPass(c, 0) == c {
    } else {
      HarvestApart(HarvestPass(c, 0));
    }
  }

  lemma AckApart(c: Tcb, g: Segment)
    requires SeatsApart(c.seats)
    ensures SeatsApart(AbsorbAck(c, g).tcb.seats)
  {
    hide Resent, Drop, SeqBefore, Overlaps;
  }

  lemma TextApart(c: Tcb, g: Segment)
    requires SeatsApart(c.seats)
    ensures SeatsApart(AbsorbText(c, g).tcb.seats)
  {
    hide AbsorbAck, SeatsApart, Harvest, StoreOutOfOrder, SeqBefore, SeqBeforeEq;
    var a := AbsorbAck(c, g);
    AckApart(c, g);
    StoreApart(a.tcb, g);
    HarvestApart(StoreOutOfOrder(a.tcb, g));
    HarvestApart(AbsorbBytes(a.tcb, g).tcb);
  }

  lemma FreshApart()
    ensures SeatsApart(GONE.seats)
  {
  }

  lemma {:induction false} ChunksApart(c: Tcb, bytes: Bytes)
    ensures SendChunks(c, bytes).tcb.seats == c.seats
    decreases |bytes|
  {
    if bytes == [] {
    } else {
      var n := Min(|bytes|, MSS);
      ChunksApart(c.(outbox := c.outbox + bytes[..n], sndNxt := Plus(c.sndNxt, n)), bytes[n..]);
    }
  }

  lemma PlayApart(e: End, m: Move)
    requires SeatsApart(e.tcb.seats)
    ensures SeatsApart(Play(e, m).end.tcb.seats)
  {
    hide SeatsApart, AbsorbText, SendChunks;
    FreshApart();
    match m
    case DoSend(bytes) => ChunksApart(e.tcb, bytes[..Accepted(e.tcb, |bytes|)]);
    case Hear(g) =>
      TextApart(e.tcb, g);
      TextApart(e.tcb.(sndUna := g.acknowledgement, state := Established), g);
    case _ =>
  }

  /** Over every run the parked segments of either end share no byte. */
  lemma {:induction false} ApartOverRuns(iss: Seq32, peer: Seq32, moves: seq<(bool, Move)>)
    ensures var y := Run(Start(iss, peer), moves);
            SeatsApart(y.client.tcb.seats) && SeatsApart(y.server.tcb.seats)
  {
    hide SeatsApart, Play;
    if moves == [] {
      FreshApart();
    } else {
      var n := |moves| - 1;
      ApartOverRuns(iss, peer, moves[..n]);
      var y := Run(Start(iss, peer), moves[..n]);
      PlayApart(y.client, moves[n].1);
      PlayApart(y.server, moves[n].1);
    }
  }

  // ------------------------------------------------------------------ text in its turn

  /** The end once the acknowledgement in a segment is dealt with. */
  function Acked(e: End, g: Segment): End {
    e.(tcb := AbsorbAck(e.tcb, g).tcb)
  }

  lemma IsHonest(e: End, s: End, g: Segment, pos: nat, apos: nat)
    requires HonestAt(s, e.iss, g, pos, apos) && !g.rst
    ensures Honest(s, e.iss, g)
  {
  }

  lemma AckedKeeps(e: End, s: End, g: Segment, pos: nat, apos: nat)
    requires Hearable(e, s, g, pos, apos) && !e.tcb.state.TimeWait? && !AbsorbAck(e.tcb, g).stop
    ensures Hearable(Acked(e, g), s, g, pos, apos) && !Acked(e, g).tcb.state.TimeWait?
  {
    hide Paired, AbsorbAck, HonestAt;
    IsHonest(e, s, g, pos, apos);
    AckKeeps(e, s, g);
  }

  /** A segment with something new for the receiver gets past the acknowledgement. */
  lemma NewsGetsThrough(e: End, s: End, g: Segment, pos: nat, apos: nat)
    requires Hearable(e, s, g, pos, apos) && !HalfBehind(e, g, apos) && e.rcv < pos + Length(g) && Length(g) > 0
    ensures !e.tcb.state.TimeWait? && !AbsorbAck(e.tcb, g).stop && !g.syn
    ensures Hearable(Acked(e, g), s, g, pos, apos) && SameReception(e.tcb, Acked(e, g).tcb)
    ensures !PastFin(e.tcb.state) && Acked(e, g).tcb.sndNxt == e.tcb.sndNxt
    ensures Acked(e, g).tcb.state == (if AcksFin(e, g, apos) then FinAcked(e.tcb.state) else e.tcb.state)
  {
    hide AbsorbAck, Paired, HonestAt;
    SegmentPlace(e, s, g, pos, apos);
    AckDoes(e, s, g, pos, apos);
    AckedKeeps(e, s, g, pos, apos);
  }

  /** Which of the ways through `AbsorbText` an in-order segment takes. */
  lemma InOrderText(e: End, s: End, g: Segment, pos: nat, apos: nat)
    requires Hearable(e, s, g, pos, apos) && !HalfBehind(e, g, apos) && pos <= e.rcv < pos + Length(g)
    ensures var a := AbsorbAck(e.tcb, g);
            var b := AbsorbBytes(a.tcb, g);
            && AbsorbText(e.tcb, g) == Out(Harvest(b.tcb), a.sent + b.sent)
            && Paired(Settle(Acked(e, g), b.tcb), s) && Synced(b.tcb.state)
            && if g.fin then TakesFin(Acked(e, g), b) else TakesBytes(Acked(e, g), s, g, pos, b)
  {
    hide AbsorbAck, Paired, HonestAt, AbsorbBytes, Harvest, StoreOutOfOrder, SeqBefore, SeqBeforeEq;
    NewsGetsThrough(e, s, g, pos, apos);
    SegmentPlace(Acked(e, g), s, g, pos, apos);
    BytesKeeps(Acked(e, g), s, g, pos, apos);
  }

  /** Among the answers there is an acknowledgement of everything before position `upto`. */
  ghost predicate Acknowledges(answers: seq<Segment>, peer: Seq32, upto: nat) {
    exists r :: r in answers && AckOf(r, peer, upto)
  }

  ghost predicate AckOf(r: Segment, peer: Seq32, upto: nat) {
    r.ack && !r.syn && !r.fin && !r.rst && r.payload == [] && r.acknowledgement == Plus(peer, upto)
  }

  /**
   New bytes are taken. A segment whose first new byte is the next one expected hands over exactly the
   bytes that are new and find room, `s.sent[rcv - 1..rcv - 1 + n]`, RCV.NXT moves by as many, and they are
   acknowledged; then whatever is parked there follows. The one exception is a segment whose
   acknowledgement lies exactly half the space behind: it is dropped whole.
   */
  lemma DataIsTaken(e: End, s: End, g: Segment, pos: nat, apos: nat)
    requires Hearable(e, s, g, pos, apos) && pos <= e.rcv < pos + |g.payload|
    ensures var p, n := Play(e, Hear(g)), NewBytes(e, g, pos);
            if HalfBehind(e, g, apos) then
              p.end.rcv == e.rcv && SameReception(e.tcb, p.end.tcb) && p.sent == []
            else
              && 1 <= e.rcv && e.rcv - 1 + n <= |s.sent|
              && e.tcb.inbox + s.sent[e.rcv - 1..e.rcv - 1 + n] <= p.end.tcb.inbox
              && p.end.rcv >= e.rcv + n
              && (n > 0 ==> Acknowledges(p.sent, s.iss, e.rcv + n))
              && ((forall i :: 0 <= i < SEATS && e.tcb.seats[i].Held? ==>
                                 e.tcb.seats[i].start != Plus(s.iss, e.rcv + n)) ==> p.end.rcv == e.rcv + n)
  {
    hide AbsorbAck, Paired, AbsorbBytes, Harvest, AbsorbText, HonestAt, Play;
    LivePlay(e, s, g, pos, apos);
    if HalfBehind(e, g, apos) {
      HalfBehindDrops(e, s, g, pos, apos);
    } else {
      BytesThenHarvest(e, s, g, pos, apos);
      var b, n := AbsorbBytes(Acked(e, g).tcb, g), NewBytes(e, g, pos);
      HarvestGrows(b.tcb);
      HarvestDelivers(b.tcb);
      if n > 0 {
        assert AckOf(PlainAck(b.tcb), s.iss, e.rcv + n);
      }
    }
  }

  lemma BytesThenHarvest(e: End, s: End, g: Segment, pos: nat, apos: nat)
    requires Hearable(e, s, g, pos, apos) && !HalfBehind(e, g, apos) && pos <= e.rcv < pos + |g.payload|
    ensures var b, n := AbsorbBytes(Acked(e, g).tcb, g), NewBytes(e, g, pos);
            && 1 <= e.rcv && e.rcv - 1 + n <= |s.sent|
            && b.tcb.inbox == e.tcb.inbox + s.sent[e.rcv - 1..e.rcv - 1 + n]
            && b.tcb.rcvNxt == Plus(s.iss, e.rcv + n) && b.tcb.seats == e.tcb.seats && Synced(b.tcb.state)
            && e.rcv + n == Reached(b.tcb, e.got)
            && AbsorbText(e.tcb, g).tcb == Harvest(b.tcb)
            && (n > 0 ==> PlainAck(b.tcb) in AbsorbText(e.tcb, g).sent)
  {
    hide AbsorbAck, Paired, AbsorbBytes, Harvest, AbsorbText, PlainAck, HonestAt;
    assert !g.fin by {
      PlainPayload(e, s, g, pos, apos);
    }
    NewsGetsThrough(e, s, g, pos, apos);
    InOrderText(e, s, g, pos, apos);
    CursorOf(e, s);
    PlusPlus(s.iss, e.rcv, NewBytes(e, g, pos));
  }

  lemma PlainPayload(e: End, s: End, g: Segment, pos: nat, apos: nat)
    requires HonestAt(s, e.iss, g, pos, apos) && g.payload != []
    ensures !g.fin && !g.syn
  {
  }

  /** The position reached, and where the cursor stands. */
  lemma CursorOf(e: End, s: End)
    requires Paired(e, s) && Synced(e.tcb.state)
    ensures e.rcv == 1 + |e.got| + |e.tcb.inbox| + (if PastFin(e.tcb.state) then 1 else 0)
    ensures e.tcb.rcvNxt == Plus(s.iss, e.rcv) && |e.tcb.inbox| <= RECEIVE_WINDOW && e.rcv <= Nxt(s)
  {
  }

  /** A segment with something new for a connection past the handshake is handled as text. */
  lemma LivePlay(e: End, s: End, g: Segment, pos: nat, apos: nat)
    requires Hearable(e, s, g, pos, apos) && e.rcv < pos + Length(g)
    ensures !e.tcb.state.TimeWait? && !g.syn && !PastFin(e.tcb.state)
    ensures var out := AbsorbText(e.tcb, g); Play(e, Hear(g)) == Played(Settle(e, out.tcb), out.sent)
  {
    hide AbsorbText, Paired;
    SegmentPlace(e, s, g, pos, apos);
  }

  lemma HalfBehindDrops(e: End, s: End, g: Segment, pos: nat, apos: nat)
    requires Hearable(e, s, g, pos, apos) && HalfBehind(e, g, apos)
    ensures AbsorbText(e.tcb, g) == Out(e.tcb.(sndWindow := g.window), [])
    ensures Settle(e, e.tcb.(sndWindow := g.window)).rcv == e.rcv
  {
    hide Flows, InStream, AckSettled, Resent;
    RingLength(e, s.iss);
    Ahead(e.iss, Una(e), apos);
    Ahead(e.iss, Nxt(e), apos);
  }

  /** A FIN with every byte before it in is taken, acknowledged, and moves the state as the diagram says. */
  lemma FinIsTaken(e: End, s: End, g: Segment, pos: nat, apos: nat)
    requires Hearable(e, s, g, pos, apos) && FinInTurn(e, g, pos) && !HalfBehind(e, g, apos)
    ensures var p := Play(e, Hear(g));
            && p.end.rcv == e.rcv + 1 && p.end.tcb.inbox == e.tcb.inbox
            && p.end.tcb.state == FinHeard(if AcksFin(e, g, apos) then FinAcked(e.tcb.state) else e.tcb.state)
            && Acknowledges(p.sent, s.iss, e.rcv + 1)
  {
    hide AbsorbAck, Paired, AbsorbBytes, Harvest, Honest, AbsorbText, Overlaps;
    LivePlay(e, s, g, pos, apos);
    NewsGetsThrough(e, s, g, pos, apos);
    InOrderText(e, s, g, pos, apos);
    var e1, b := Acked(e, g), AbsorbBytes(Acked(e, g).tcb, g);
    var e2 := Settle(e1, b.tcb);
    CursorOf(e, s);
    CursorOf(e1, s);
    CursorOf(e2, s);
    PlusPlus(s.iss, e.rcv, 1);
    NoneDueAfterFin(e2, s);
    HarvestDelivers(b.tcb);
    assert PlainAck(b.tcb) in AbsorbText(e.tcb, g).sent && AckOf(PlainAck(b.tcb), s.iss, e.rcv + 1);
  }

  /** After the FIN nothing parked is due: there is no byte behind it. */
  lemma NoneDueAfterFin(e: End, s: End)
    requires Paired(e, s) && Synced(e.tcb.state) && PastFin(e.tcb.state)
    ensures forall i :: 0 <= i < SEATS ==> !Due(e.tcb, i)
  {
    hide EndInv, TextFlows, SeatSound;
    forall i | 0 <= i < SEATS && e.tcb.seats[i].Held? && e.tcb.seats[i].start == e.tcb.rcvNxt
      ensures false
    {
      assert SeatSound(s, e.tcb.seats[i]);
      var pos := SeatPosition(e, s, e.tcb.seats[i]);
    }
  }

  // ------------------------------------------------------------------ text ahead of a gap

  /** What is parked: plain payload whose place is within the window, next to none it shares bytes with. */
  ghost predicate Parks(e: End, g: Segment, pos: nat) {
    && !g.fin && g.payload != [] && e.rcv < pos < e.rcv + RECEIVE_WINDOW
    && (forall i :: 0 <= i < SEATS ==> !Overlaps(e.tcb.seats[i], g.sequence, Plus(g.sequence, |g.payload|)))
    && (exists i :: 0 <= i < SEATS && e.tcb.seats[i].Free?)
  }

  lemma {:induction false} FreeSeatFound(seats: SeatRow, i: nat)
    requires i <= SEATS
    ensures FreeSeat(seats, i) < SEATS <==> exists j :: i <= j < SEATS && seats[j].Free?
    decreases SEATS - i
  {
    if i == SEATS || seats[i].Free? {
    } else {
      FreeSeatFound(seats, i + 1);
    }
  }

  /** How a segment ahead of a gap is handled: parked, if it can be, then whatever is due is delivered. */
  lemma AheadText(e: End, s: End, g: Segment, pos: nat, apos: nat)
    requires Hearable(e, s, g, pos, apos) && !HalfBehind(e, g, apos) && e.rcv < pos && Length(g) > 0
    ensures var a := AbsorbAck(e.tcb, g);
            var c := Parked(e, g, pos, a.tcb);
            && Play(e, Hear(g)) == Played(Settle(e, Harvest(c)), a.sent + [PlainAck(Harvest(c))])
            && SameReception(e.tcb, a.tcb) && Synced(a.tcb.state)
  {
    hide AbsorbAck, Paired, AbsorbBytes, Harvest, AbsorbText, Overlaps;
    LivePlay(e, s, g, pos, apos);
    NewsGetsThrough(e, s, g, pos, apos);
    SegmentPlace(Acked(e, g), s, g, pos, apos);
    StoresIff(Acked(e, g), s, g, pos, apos);
    TextAhead(e, g);
  }

  /** The control block `c` with a segment parked in the first free seat, if it can be. */
  ghost function Parked(e: End, g: Segment, pos: nat, c: Tcb): Tcb {
    var i := FreeSeat(c.seats, 0);
    if Parks(e, g, pos) && i < SEATS then c.(seats := c.seats[i := Held(g.sequence, g.payload)]) else c
  }

  /**
   A segment ahead of a gap is parked exactly when it can be, nothing else is disturbed, and the answer
   asks for the bytes of the gap. (With a parked segment left over that only now finds room, that one is
   delivered first.)
   */
  lemma AheadIsParked(e: End, s: End, g: Segment, pos: nat, apos: nat)
    requires Hearable(e, s, g, pos, apos) && !HalfBehind(e, g, apos) && e.rcv < pos && Length(g) > 0
    ensures var p := Play(e, Hear(g));
            && Acknowledges(p.sent, s.iss, p.end.rcv) && e.rcv <= p.end.rcv
            && ((forall i :: 0 <= i < SEATS ==> !Due(e.tcb, i)) ==>
                  && p.end.rcv == e.rcv && p.end.tcb.inbox == e.tcb.inbox
                  && (if Parks(e, g, pos) then Held(g.sequence, g.payload) in p.end.tcb.seats
                      else p.end.tcb.seats == e.tcb.seats))
  {
    hide AbsorbAck, Paired, Harvest, Honest, Parks, Due, Play, HonestAt, Evolves;
    AheadText(e, s, g, pos, apos);
    var p := Play(e, Hear(g));
    var c := Parked(e, g, pos, AbsorbAck(e.tcb, g).tcb);
    IsHonest(e, s, g, pos, apos);
    HearKeeps(e, s, g);
    CursorOf(e, s);
    HarvestGrows(c);
    CursorOf(p.end, s);
    assert AckOf(PlainAck(p.end.tcb), s.iss, p.end.rcv) && PlainAck(p.end.tcb) in p.sent;
    HarvestDelivers(c);
    if forall i :: 0 <= i < SEATS ==> !Due(e.tcb, i) {
      SamePlace(s, g, pos, apos, e);
      ParkedNotDue(e, s, g, pos, AbsorbAck(e.tcb, g).tcb);
      FreeSeatFound(c.seats, 0);
      ParkedThere(e, g, pos, AbsorbAck(e.tcb, g).tcb);
    }
  }

  lemma HearKeeps(e: End, s: End, g: Segment)
    requires Paired(e, s) && Live(e) && Honest(s, e.iss, g)
    ensures Paired(Play(e, Hear(g)).end, s) && e.rcv <= Play(e, Hear(g)).end.rcv
  {
    hide Paired, Honest, Play;
    LiveIsOpen(e, s);
    PlayKeeps(e, s, Hear(g));
  }

  lemma SamePlace(s: End, g: Segment, pos: nat, apos: nat, e: End)
    requires HonestAt(s, e.iss, g, pos, apos)
    ensures g.sequence == Plus(s.iss, pos)
  {
  }

  lemma ParkedThere(e: End, g: Segment, pos: nat, c: Tcb)
    requires SameReception(e.tcb, c)
    ensures if Parks(e, g, pos) then Held(g.sequence, g.payload) in Parked(e, g, pos, c).seats
            else Parked(e, g, pos, c) == c
  {
    hide Overlaps;
    FreeSeatFound(c.seats, 0);
    var i := FreeSeat(c.seats, 0);
    if Parks(e, g, pos) {
      assert Parked(e, g, pos, c).seats[i] == Held(g.sequence, g.payload);
    }
  }

  lemma TextAhead(e: End, g: Segment)
    requires var a := AbsorbAck(e.tcb, g);
             && !a.stop && !SeqBeforeEq(Plus(g.sequence, Length(g)), a.tcb.rcvNxt)
             && SeqBefore(a.tcb.rcvNxt, g.sequence)
    ensures var a := AbsorbAck(e.tcb, g);
            var c := Harvest(StoreOutOfOrder(a.tcb, g));
            AbsorbText(e.tcb, g) == Out(c, a.sent + [PlainAck(c)])
  {
    hide AbsorbAck, Harvest, StoreOutOfOrder;
  }

  lemma StoresIff(e: End, s: End, g: Segment, pos: nat, apos: nat)
    requires Hearable(e, s, g, pos, apos) && e.rcv < pos && e.rcv < pos + Length(g)
    ensures StoreOutOfOrder(e.tcb, g) == Parked(e, g, pos, e.tcb)
  {
    hide Paired, Overlaps;
    SegmentPlace(e, s, g, pos, apos);
    CursorOf(e, s);
    FreeSeatFound(e.tcb.seats, 0);
    PlusPlus(s.iss, e.rcv, RECEIVE_WINDOW);
    Bounded(s, e);
    BeforeIsLess(s.iss, pos, e.rcv + RECEIVE_WINDOW);
  }

  lemma Bounded(e: End, s: End)
    requires Paired(s, e)
    ensures Nxt(e) <= HALF + 1
  {
  }

  lemma ParkedNotDue(e: End, s: End, g: Segment, pos: nat, c: Tcb)
    requires SameReception(e.tcb, c) && g.sequence == Plus(s.iss, pos) && e.tcb.rcvNxt == Plus(s.iss, e.rcv)
    requires forall i :: 0 <= i < SEATS ==> !Due(e.tcb, i)
    ensures forall i :: 0 <= i < SEATS ==> !Due(Parked(e, g, pos, c), i)
  {
    hide Overlaps, SeqBefore, Plus;
    if Parks(e, g, pos) {
      SamePosition(s.iss, pos, e.rcv);
    }
    forall i | 0 <= i < SEATS
      ensures !Due(Parked(e, g, pos, c), i)
    {
      assert !Due(e.tcb, i);
    }
  }

  // ------------------------------------------------------------------ a gap fills

  ghost predicate SeatsShort(seats: SeatRow) {
    forall i :: 0 <= i < SEATS && seats[i].Held? ==> 0 < |seats[i].data| <= HALF
  }

  /** Two parked segments are not both due. */
  lemma OneIsDue(c: Tcb, i: nat, j: nat)
    requires SeatsApart(c.seats) && SeatsShort(c.seats) && i < SEATS && j < SEATS && Due(c, i) && Due(c, j)
    ensures i == j
  {
    hide SeqBefore, Plus;
    if i != j {
      var a, b := c.seats[i], c.seats[j];
      assert Clear(a, b);
      BeforeItsEnd(a.start, |a.data|);
      BeforeItsEnd(b.start, |b.data|);
      assert false;
    }
  }

  lemma BeforeItsEnd(start: Seq32, n: nat)
    requires 0 < n <= HALF
    ensures SeqBefore(start, Plus(start, n))
  {
    Behind(start, 0, n);
    assert Plus(start, 0) == start;
  }

  lemma {:induction false} PassTakes(c: Tcb, j: nat, i: nat)
    requires SeatsApart(c.seats) && SeatsShort(c.seats) && j <= i < SEATS && Due(c, i)
    ensures |HarvestPass(c, j).inbox| >= |c.inbox| + |c.seats[i].data|
    decreases i - j
  {
    hide SeatsApart, SeatsShort;
    if j == i {
      PassGrows(DeliverSeat(c, i), i + 1);
    } else {
      if Due(c, j) {
        OneIsDue(c, i, j);
      }
      PassTakes(c, j + 1, i);
    }
  }

  lemma HarvestTakes(c: Tcb, i: nat)
    requires SeatsApart(c.seats) && SeatsShort(c.seats) && i < SEATS && Due(c, i)
    ensures |Harvest(c).inbox| >= |c.inbox| + |c.seats[i].data|
  {
    hide HarvestPass, SeatsApart, SeatsShort;
    PassTakes(c, 0, i);
    PassFreesSeats(c, 0);
    var c1 := HarvestPass(c, 0);
    HarvestGrows(c1);
    HarvestGrows(c);
  }

  lemma SoundIsShort(e: End, s: End)
    requires Paired(e, s)
    ensures SeatsShort(e.tcb.seats)
  {
    hide LiveInv, TextFlows;
    forall i | 0 <= i < SEATS && e.tcb.seats[i].Held?
      ensures 0 < |e.tcb.seats[i].data| <= HALF
    {
      assert SeatSound(s, e.tcb.seats[i]);
      var pos: nat :| SeatAt(s, e.tcb.seats[i], pos);
    }
  }

  /** The segment that fills the gap before a parked segment brings that one along, if the inbox has room for both. */
  lemma ParkedIsDelivered(e: End, s: End, g: Segment, pos: nat, apos: nat, i: nat)
    requires Hearable(e, s, g, pos, apos) && !HalfBehind(e, g, apos) && pos <= e.rcv < pos + |g.payload|
    requires SeatsApart(e.tcb.seats) && i < SEATS && e.tcb.seats[i].Held?
    requires e.tcb.seats[i].start == Plus(s.iss, pos + |g.payload|)
    requires |e.tcb.inbox| + (pos + |g.payload| - e.rcv) + |e.tcb.seats[i].data| <= RECEIVE_WINDOW
    ensures Play(e, Hear(g)).end.rcv >= pos + |g.payload| + |e.tcb.seats[i].data|
  {
    hide AbsorbAck, Paired, AbsorbBytes, Harvest, Honest, AbsorbText, SeatsApart, SeatsShort;
    LivePlay(e, s, g, pos, apos);
    NewsGetsThrough(e, s, g, pos, apos);
    InOrderText(e, s, g, pos, apos);
    var e1, b := Acked(e, g), AbsorbBytes(Acked(e, g).tcb, g);
    var e2 := Settle(e1, b.tcb);
    CursorOf(e, s);
    CursorOf(e2, s);
    SoundIsShort(e2, s);
    HarvestTakes(b.tcb, i);
    HarvestGrows(b.tcb);
  }

  // ------------------------------------------------------------------ the states

  /** One segment moves the state exactly as the diagram of section 3.6 of RFC 9293 says. */
  lemma StatesFollowTheDiagram(e: End, s: End, g: Segment, pos: nat, apos: nat)
    requires Hearable(e, s, g, pos, apos) && !e.tcb.state.TimeWait? && !HalfBehind(e, g, apos)
    ensures var acked := if AcksFin(e, g, apos) then FinAcked(e.tcb.state) else e.tcb.state;
            Play(e, Hear(g)).end.tcb.state == (if FinInTurn(e, g, pos) then FinHeard(acked) else acked)
  {
    hide AbsorbAck, Paired, AbsorbBytes, Harvest, StoreOutOfOrder, SeqBefore, SeqBeforeEq, Honest;
    AckDoes(e, s, g, pos, apos);
    SegmentPlace(e, s, g, pos, apos);
    if FinInTurn(e, g, pos) {
      FinIsTaken(e, s, g, pos, apos);
    } else if !AbsorbAck(e.tcb, g).stop {
      AckedKeeps(e, s, g, pos, apos);
      IsHonest(e, s, g, pos, apos);
      var e1 := Acked(e, g);
      SegmentPlace(e1, s, g, pos, apos);
      StoreKeeps(e1, s, g);
      HarvestGrows(StoreOutOfOrder(e1.tcb, g));
      if !SeqBeforeEq(Plus(g.sequence, Length(g)), e1.tcb.rcvNxt) && !SeqBefore(e1.tcb.rcvNxt, g.sequence) {
        BytesKeeps(e1, s, g, pos, apos);
        HarvestGrows(AbsorbBytes(e1.tcb, g).tcb);
      }
    }
  }

  /** Closing sends the FIN from the states of the diagram that may, at the position after the last byte. */
  lemma CloseFollowsTheDiagram(e: End, s: End)
    requires Paired(e, s) && Live(e)
    ensures var out := Close(e.tcb);
            match e.tcb.state
            case SynReceived => out.tcb.state == FinWait1 && FinAlone(e, out.sent)
            case Established => out.tcb.state == FinWait1 && FinAlone(e, out.sent)
            case CloseWait => out.tcb.state == LastAck && FinAlone(e, out.sent)
            case SynSent => out.tcb == GONE && out.sent == []
            case _ => out.tcb == e.tcb && out.sent == []
    ensures !e.tcb.state.SynReceived? ==>
              Play(e, DoClose).end.tcb == Close(e.tcb).tcb && Play(e, DoClose).sent == Close(e.tcb).sent
  {
    hide Flows;
  }

  ghost predicate FinAlone(e: End, sent: seq<Segment>) {
    && |sent| == 1 && sent[0].fin && sent[0].ack && !sent[0].syn && !sent[0].rst && sent[0].payload == []
    && sent[0].sequence == Plus(e.iss, |e.sent| + 1)
  }

  // ------------------------------------------------------------------ a lost segment is repaired

  /** Text, parked or delivered, leaves the sending side alone. */
  lemma TextSparesSending(c: Tcb, g: Segment)
    ensures var a := AbsorbAck(c, g).tcb;
            var c' := AbsorbText(c, g).tcb;
            c'.sndUna == a.sndUna && c'.sndNxt == a.sndNxt && (c'.state.Closed? <==> a.state.Closed?)
  {
    hide AbsorbAck, Harvest, SeqBefore, SeqBeforeEq, Overlaps;
    var a := AbsorbAck(c, g).tcb;
    HarvestGrows(StoreOutOfOrder(a, g));
    HarvestGrows(AbsorbBytes(a, g).tcb);
  }

  /** An acknowledgement of more than before moves SND.UNA to where it says, or ends the connection. */
  lemma AckIsHeard(s: End, e: End, r: Segment, upto: nat)
    requires Paired(s, e) && Synced(s.tcb.state) && Honest(e, s.iss, r) && AckOf(r, s.iss, upto)
    requires Una(s) < upto <= e.rcv
    ensures var s' := Play(s, Hear(r)).end; !Live(s') || Una(s') == upto
  {
    hide AbsorbText, Honest, AbsorbAck, Paired;
    AckInSent(s, e, upto);
    FlightPositive(s, e, upto);
    var pos, apos := PlaceOf(e, s.iss, r);
    PairedBack(s, e);
    AckTells(s, e, r, pos, apos, upto);
    AckDoes(s, e, r, pos, apos);
    TextSparesSending(s.tcb, r);
    var s' := Play(s, Hear(r)).end;
    if Live(s') {
      SentTo(s, s', upto);
    }
  }

  lemma AckTells(s: End, e: End, r: Segment, pos: nat, apos: nat, upto: nat)
    requires Paired(s, e) && HonestAt(e, s.iss, r, pos, apos) && AckOf(r, s.iss, upto) && upto <= e.rcv
    ensures apos == upto
  {
    Bounded(s, e);
    SamePosition(s.iss, apos, upto);
  }

  lemma FlightPositive(s: End, e: End, upto: nat)
    requires Paired(s, e) && Synced(s.tcb.state) && Una(s) < upto <= Nxt(s)
    ensures !s.tcb.state.TimeWait? && s.tcb.sndNxt == Plus(s.iss, Nxt(s)) && Nxt(s) <= HALF + 1
  {
    hide Flows;
  }

  lemma SentTo(s: End, s': End, upto: nat)
    requires s'.tcb.sndNxt == Plus(s.iss, Nxt(s)) && s'.tcb.sndUna == Plus(s.iss, upto) && Nxt(s') == Nxt(s)
    requires upto <= Nxt(s) < upto + WRAP
    ensures Una(s') == upto
  {
    Ahead(s.iss, Nxt(s), upto);
  }

  /** With anything outstanding there is one segment to send again: the oldest bytes, or the FIN if no byte is left. */
  lemma SomethingToResend(s: End, e: End)
    requires Paired(e, s) && Synced(s.tcb.state) && Flight(s.tcb) > 0
    ensures |Resent(s.tcb)| == 1 && Una(s) >= 1
    ensures var g := Resent(s.tcb)[0];
            && HonestAt(s, e.iss, g, Una(s), s.rcv) && g.ack && !g.syn && !g.rst && Length(g) > 0
            && Una(s) <= e.rcv && (g.fin <==> s.tcb.outbox == [])
  {
    hide SeatSound;
    RingLength(s, e.iss);
    var c := s.tcb;
    var n := |Resent(c)[0].payload|;
    if c.outbox != [] {
      assert c.outbox[..n] == s.sent[Una(s) - 1..Una(s) - 1 + n];
    }
  }

  /** The receiver can say something about a resend: it has it all already, or has room for a byte, or it is the FIN. */
  ghost predicate CanAnswer(e: End, g: Segment, pos: nat) {
    pos + Length(g) <= e.rcv || g.fin || |e.tcb.inbox| < RECEIVE_WINDOW
  }

  /** Hearing a resend, a receiver answers with more than the sender knew, unless its own FIN ends the talk. */
  lemma ResendIsAnswered(s: End, e: End) returns (upto: nat)
    requires Paired(e, s) && Synced(s.tcb.state) && Flight(s.tcb) > 0 && Synced(e.tcb.state)
    requires |Resent(s.tcb)| == 1 && CanAnswer(e, Resent(s.tcb)[0], Una(s))
    ensures var p := Play(e, Hear(Resent(s.tcb)[0]));
            || (Una(s) < upto <= p.end.rcv && Acknowledges(p.sent, s.iss, upto))
            || (!e.tcb.state.TimeWait? && (p.end.tcb.state.TimeWait? || !Live(p.end)))
  {
    hide Resent, Paired, HonestAt, Harvest, AbsorbAck, AbsorbBytes, AbsorbText, Honest, Play, StoreOutOfOrder;
    SomethingToResend(s, e);
    var g, una := Resent(s.tcb)[0], Una(s);
    var p := Play(e, Hear(g));
    IsHonest(e, s, g, una, s.rcv);
    CurrentAck(e, s);
    CursorOf(e, s);
    if e.rcv < una + Length(g) {
      if g.fin {
        PlainFin(s, e, g, una);
        FinIsTaken(e, s, g, una, s.rcv);
        upto := e.rcv + 1;
      } else {
        DataIsTaken(e, s, g, una, s.rcv);
        upto := e.rcv + NewBytes(e, g, una);
      }
    } else {
      OldIsAnswered(e, s, g, una, s.rcv);
      upto := e.rcv;
    }
  }

  /**
   The condition is exact: a receiver with a full inbox, for which a segment brings only bytes it has no room
   for, answers nothing at all, where section 3.8.6.1 of RFC 9293 asks for an acknowledgement.
   */
  lemma SilentWhenFull(e: End, s: End, g: Segment, pos: nat, apos: nat)
    requires Hearable(e, s, g, pos, apos) && pos <= e.rcv < pos + Length(g) && !CanAnswer(e, g, pos)
    ensures Play(e, Hear(g)).sent == [] && Play(e, Hear(g)).end.rcv == e.rcv
  {
    hide Paired, HonestAt, Harvest, AbsorbBytes, AbsorbText, Play;
    LivePlay(e, s, g, pos, apos);
    if HalfBehind(e, g, apos) {
      HalfBehindDrops(e, s, g, pos, apos);
    } else {
      CursorOf(e, s);
      NewsGetsThrough(e, s, g, pos, apos);
      InOrderText(e, s, g, pos, apos);
      BytesThenHarvest(e, s, g, pos, apos);
      HarvestGrows(AbsorbBytes(Acked(e, g).tcb, g).tcb);
      AckSendsNothing(e.tcb, g);
    }
  }

  lemma AckSendsNothing(c: Tcb, g: Segment)
    requires Length(g) > 0
    ensures AbsorbAck(c, g).sent == []
  {
    hide Resent, Drop, SeqBefore;
  }

  lemma CurrentAck(e: End, s: End)
    requires Paired(e, s) && Synced(e.tcb.state)
    ensures Una(e) <= s.rcv
  {
  }

  lemma PlainFin(s: End, e: End, g: Segment, pos: nat)
    requires HonestAt(s, e.iss, g, pos, s.rcv) && g.fin && pos <= e.rcv < pos + Length(g)
    ensures pos == e.rcv
  {
  }

  /** A segment with nothing new is answered with where the receiver stands. */
  lemma OldIsAnswered(e: End, s: End, g: Segment, pos: nat, apos: nat)
    requires Hearable(e, s, g, pos, apos) && !HalfBehind(e, g, apos) && pos + Length(g) <= e.rcv && Length(g) > 0
    requires !g.syn
    ensures var p := Play(e, Hear(g));
            || (p.end.rcv == e.rcv && Acknowledges(p.sent, s.iss, e.rcv))
            || (!e.tcb.state.TimeWait? && (p.end.tcb.state.TimeWait? || !Live(p.end)))
  {
    hide Paired, HonestAt, Harvest, AbsorbAck, AbsorbBytes, StoreOutOfOrder, SeqBefore, SeqBeforeEq;
    CursorOf(e, s);
    SettledEnd(e, s);
    var p := Play(e, Hear(g));
    if e.tcb.state.TimeWait? {
      assert AckOf(PlainAck(e.tcb), s.iss, e.rcv) && PlainAck(e.tcb) in p.sent;
    } else {
      AckDoes(e, s, g, pos, apos);
      if !AbsorbAck(e.tcb, g).stop {
        AckedKeeps(e, s, g, pos, apos);
        var e1 := Acked(e, g);
        SettledEnd(e1, s);
        SegmentPlace(e1, s, g, pos, apos);
        CursorOf(e1, s);
        assert AckOf(PlainAck(e1.tcb), s.iss, e.rcv) && PlainAck(e1.tcb) in p.sent;
      }
    }
  }

  /**
   One exchange repairs any loss. Whatever was lost before, if the sender has something outstanding, sends
   the oldest of it again, the receiver hears that and can answer, and the sender hears the answer, then
   SND.UNA has moved on or a connection is over.
   */
  lemma OneExchangeRepairs(s: End, e: End) returns (r: Segment)
    requires Paired(e, s) && Synced(s.tcb.state) && Flight(s.tcb) > 0 && Synced(e.tcb.state)
    requires |Resent(s.tcb)| == 1 ==> CanAnswer(e, Resent(s.tcb)[0], Una(s))
    ensures |Play(s, DoResend).sent| == 1
    ensures var p := Play(e, Hear(Play(s, DoResend).sent[0]));
            || (!e.tcb.state.TimeWait? && (p.end.tcb.state.TimeWait? || !Live(p.end)))
            || (r in p.sent && (var s' := Play(s, Hear(r)).end; !Live(s') || Una(s') > Una(s)))
  {
    hide Resent, Paired, Honest, AllHonest, Acknowledges, AckOf, Handle, Evolves;
    SomethingToResend(s, e);
    var g := Resent(s.tcb)[0];
    var p := Play(e, Hear(g));
    var upto := ResendIsAnswered(s, e);
    r := g;
    if Una(s) < upto <= p.end.rcv && Acknowledges(p.sent, s.iss, upto) {
      r := TheAnswer(p.sent, s.iss, upto);
      IsHonest(e, s, g, Una(s), s.rcv);
      LiveIsOpen(e, s);
      PlayKeeps(e, s, Hear(g));
      PairedBack(p.end, s);
      OneOfHonest(p.end, s.iss, p.sent, r);
      AckIsHeard(s, p.end, r, upto);
    }
  }

  /** So after every run, whatever the network dropped: what is outstanding can be repaired by one exchange. */
  lemma RepairOverRuns(iss: Seq32, peer: Seq32, moves: seq<(bool, Move)>, toClient: bool) returns (r: Segment)
    requires var y := Run(Start(iss, peer), moves);
             var s, e := if toClient then y.server else y.client, if toClient then y.client else y.server;
             && Synced(s.tcb.state) && Flight(s.tcb) > 0 && Synced(e.tcb.state)
             && (|Resent(s.tcb)| == 1 && Una(s) >= 0 ==> CanAnswer(e, Resent(s.tcb)[0], Una(s)))
    ensures var y := Run(Start(iss, peer), moves);
            var s, e := if toClient then y.server else y.client, if toClient then y.client else y.server;
            && |Play(s, DoResend).sent| == 1
            && var p := Play(e, Hear(Play(s, DoResend).sent[0]));
               || (!e.tcb.state.TimeWait? && (p.end.tcb.state.TimeWait? || !Live(p.end)))
               || (r in p.sent && (var s' := Play(s, Hear(r)).end; !Live(s') || Una(s') > Una(s)))
  {
    hide Paired, Honest, Play, Run, Start, Resent;
    RunKeeps(iss, peer, moves);
    var y := Run(Start(iss, peer), moves);
    PairedBack(y.client, y.server);
    if toClient {
      SomethingToResend(y.server, y.client);
      r := OneExchangeRepairs(y.server, y.client);
    } else {
      SomethingToResend(y.client, y.server);
      r := OneExchangeRepairs(y.client, y.server);
    }
  }

  lemma TheAnswer(answers: seq<Segment>, peer: Seq32, upto: nat) returns (r: Segment)
    requires Acknowledges(answers, peer, upto)
    ensures r in answers && AckOf(r, peer, upto)
  {
    r :| r in answers && AckOf(r, peer, upto);
  }

  lemma OneOfHonest(e: End, peer: Seq32, gs: seq<Segment>, g: Segment)
    requires AllHonest(e, peer, gs) && g in gs
    ensures Honest(e, peer, g)
  {
  }

  // ------------------------------------------------------------------ opening and offering

  /** Three deliveries open a connection: both ends are established, each at the other's first byte. */
  lemma HandshakeOpens(iss: Seq32, peer: Seq32)
    ensures var y0 := Start(iss, peer);
            var syn := Connect(iss).sent[0];
            var synAck := Accept(peer, syn).sent[0];
            var y2 := Step(Step(y0, false, Hear(syn)), true, Hear(synAck));
            exists r :: r in y2.up && EstablishedBy(Step(y2, false, Hear(r)))
  {
    var y0 := Start(iss, peer);
    var syn := Connect(iss).sent[0];
    var synAck := Accept(peer, syn).sent[0];
    var y1 := Step(y0, false, Hear(syn));
    assert syn in y0.up && synAck in y1.down;
    var y2 := Step(y1, true, Hear(synAck));
    var r := PlainAck(y2.client.tcb);
    assert y2.client.tcb.state.Established? && r in y2.up;
    PlusPlus(iss, 0, 1);
    Ahead(peer, 1, 1);
    Ahead(peer, 1, 0);
    assert EstablishedBy(Step(y2, false, Hear(r)));
  }

  /** A lost answer to a SYN is repaired by sending the SYN again: it is answered again, and that opens the client. */
  lemma HandshakeRepairs(e: End, s: End)
    requires Paired(e, s) && e.tcb.state.SynSent? && s.tcb.state.SynReceived?
    ensures |Play(e, DoResend).sent| == 1
    ensures var answer := Play(s, Hear(Play(e, DoResend).sent[0]));
            && answer.end == s && |answer.sent| == 1
            && Play(e, Hear(answer.sent[0])).end.tcb.state.Established?
  {
    hide Flows;
    PlusPlus(e.iss, 0, 1);
    Ahead(e.iss, 1, 0);
    Ahead(s.iss, 1, 0);
  }

  /** A lost end of the handshake is made good by whatever the client sends next: any acknowledgement opens. */
  lemma AnyAckOpens(s: End, e: End, g: Segment)
    requires Paired(s, e) && s.tcb.state.SynReceived? && Honest(e, s.iss, g) && g.ack && !g.rst
    ensures var c := s.tcb.(sndUna := g.acknowledgement, state := Established);
            g.acknowledgement == s.tcb.sndNxt && Paired(s.(tcb := c), e)
            && Play(s, Hear(g)) == Played(Settle(s, AbsorbText(c, g).tcb), AbsorbText(c, g).sent)
  {
    hide AbsorbText, Paired, Honest;
    var apos := AckedPosition(s, e, g);
    OpeningAck(s, e, apos);
    OpenKeeps(s, e, g);
  }

  lemma OpeningAck(s: End, e: End, apos: nat)
    requires Paired(s, e) && s.tcb.state.SynReceived? && 1 <= apos <= e.rcv
    ensures apos == 1 && s.tcb.sndNxt == Plus(s.iss, 1)
  {
  }

  ghost predicate EstablishedBy(y: Sys) {
    && y.client.tcb.state.Established? && y.server.tcb.state.Established?
    && y.client.tcb.rcvNxt == y.server.tcb.sndNxt == Plus(y.server.iss, 1)
    && y.server.tcb.rcvNxt == y.client.tcb.sndNxt == Plus(y.client.iss, 1)
    && Flight(y.client.tcb) == 0 && Flight(y.server.tcb) == 0
  }

  /** A send takes the longest first part of the offer that keeps the flight within the peer's window and 4096. */
  lemma SendTakesAllThatFits(e: End, s: End, bytes: Bytes, k: nat)
    requires Paired(e, s) && (e.tcb.state.Established? || e.tcb.state.CloseWait?) && |e.sent| + SEND_WINDOW < HALF
    requires k <= |bytes| && (k == 0 || Flight(e.tcb) + k <= Min(SEND_WINDOW, e.tcb.sndWindow))
    ensures var p := Play(e, DoSend(bytes)).end;
            && e.sent <= p.sent <= e.sent + bytes && |p.sent| >= |e.sent| + k
            && (p.sent == e.sent || Flight(p.tcb) <= Min(SEND_WINDOW, e.tcb.sndWindow))
            && Una(p) == Una(e)
  {
    hide Paired, SendChunks;
    FlightBounded(e, s);
    LiveIsOpen(e, s);
    var n := Accepted(e.tcb, |bytes|);
    SendFlight(e, s, bytes[..n]);
  }

  lemma {:induction false} SendFlight(e: End, s: End, bytes: Bytes)
    requires Paired(e, s) && (e.tcb.state.Established? || e.tcb.state.CloseWait?)
    requires Flight(e.tcb) + |bytes| <= SEND_WINDOW && |e.sent| + |bytes| < HALF
    ensures var c := SendChunks(e.tcb, bytes).tcb;
            Flight(c) == Flight(e.tcb) + |bytes| && c == e.tcb.(outbox := c.outbox, sndNxt := c.sndNxt)
    decreases |bytes|
  {
    hide Paired, Outgoing, Plus, Minus;
    if bytes == [] {
    } else {
      var n := Min(|bytes|, MSS);
      PairedEnd(e, s);
      ChunkEnd(e, s.iss, bytes[..n]);
      ChunkKeeps(e, s, bytes[..n]);
      SendFlight(Extended(e, bytes[..n]), s, bytes[n..]);
    }
  }

  /** A reader that empties a full inbox has the window announced, as wide as what it took; no other read sends. */
  lemma ReaderReopensTheWindow(e: End, s: End, capacity: nat)
    requires Paired(e, s) && Synced(e.tcb.state)
    ensures var p := Play(e, DoReceive(capacity));
            if |e.tcb.inbox| == RECEIVE_WINDOW && capacity > 0 then
              |p.sent| == 1 && AckOf(p.sent[0], s.iss, e.rcv) && p.sent[0].window == Min(capacity, RECEIVE_WINDOW)
            else p.sent == []
  {
    hide Paired;
    CursorOf(e, s);
  }

  /** Every acknowledgement a connection takes in sets its idea of the peer's window, the handshake's included. */
  lemma WindowIsHeard(c: Tcb, g: Segment)
    requires g.ack && !g.rst && !c.state.Closed? && !c.state.TimeWait?
    ensures var c' := AbsorbSegment(c, g).tcb;
            Synced(c'.state) ==> c'.sndWindow == g.window
  {
    hide AbsorbText;
    TextHearsWindow(c, g);
    TextHearsWindow(c.(sndUna := g.acknowledgement, state := Established), g);
  }

  lemma TextHearsWindow(c: Tcb, g: Segment)
    requires g.ack
    ensures var c' := AbsorbText(c, g).tcb; c' == GONE || c'.sndWindow == g.window
  {
    hide AbsorbAck, Harvest, SeqBefore, SeqBeforeEq, Overlaps;
    AckHearsWindow(c, g);
    var a := AbsorbAck(c, g).tcb;
    HarvestGrows(StoreOutOfOrder(a, g));
    HarvestGrows(AbsorbBytes(a, g).tcb);
  }

  lemma AckHearsWindow(c: Tcb, g: Segment)
    requires g.ack
    ensures var a := AbsorbAck(c, g); (a.tcb == GONE && a.stop) || a.tcb.sndWindow == g.window
  {
    hide Resent, Drop, Length, SeqBefore;
  }

  /** A reset ends a connection in any state, and nothing is sent. */
  lemma ResetEnds(e: End, g: Segment)
    requires Live(e) && g.rst && !(e.tcb.state.TimeWait? && g.syn && !g.ack)
    ensures Play(e, Hear(g)).end.tcb == GONE && Play(e, Hear(g)).sent == []
  {
  }

  /**
   A segment for a connection that is not there is answered with one reset, as section 3.10.7.1 of RFC 9293
   forms it, and that reset ends the sender's side: half-open connections do not last.
   */
  lemma HalfOpenEnds(e: End, s: End, g: Segment)
    requires !Live(e) && !e.listening && Live(s) && (g.rst ==> g.syn && !g.ack)
    ensures var answer := Play(e, Hear(g));
            && answer.end == e && |answer.sent| == 1 && answer.sent[0].rst
            && (if g.ack then answer.sent[0].sequence == g.acknowledgement && !answer.sent[0].ack
                else answer.sent[0].ack && answer.sent[0].acknowledgement == Plus(g.sequence, Length(g)))
            && Play(s, Hear(answer.sent[0])).end.tcb == GONE
  {
    ResetEnds(s, Orphan(g)[0]);
  }

  /** A plain duplicate acknowledgement, with something outstanding. */
  ghost predicate Duplicate(c: Tcb, g: Segment) {
    g.ack && g.acknowledgement == c.sndUna && Length(g) == 0 && c.sndUna != c.sndNxt
  }

  /** Three duplicate acknowledgements in a row, and no fewer, send the oldest stretch again, once. */
  lemma ThirdDuplicateResends(c: Tcb, a: Segment, b: Segment, d: Segment)
    requires Duplicate(c, a) && Duplicate(c, b) && Duplicate(c, d) && c.duplicateAcks == 0
    ensures var x := AbsorbAck(c, a);
            var y := AbsorbAck(x.tcb, b);
            var z := AbsorbAck(y.tcb, d);
            && x.sent == [] && y.sent == [] && z.sent == Resent(c.(duplicateAcks := 2, sndWindow := d.window))
            && x.tcb.sndUna == y.tcb.sndUna == z.tcb.sndUna == c.sndUna && z.tcb.duplicateAcks == 0
  {
    hide Resent, Length;
    Ahead(c.sndUna, 0, 0);
    assert Plus(c.sndUna, 0) == c.sndUna;
  }
}
