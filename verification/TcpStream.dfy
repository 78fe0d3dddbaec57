/**
 Two ends of one connection over a network that drops, duplicates and reorders. A position counts
 sequence numbers from the initial one: the SYN is position 0, byte i of the stream is position
 i + 1, the FIN follows the last byte.
 */
module TcpStream {
  import opened Wrappers
  import opened TcpSpec

  // ------------------------------------------------------------------ positions

  lemma Ahead(iss: Seq32, a: nat, b: nat)
    requires b <= a < b + WRAP
    ensures Minus(Plus(iss, a), Plus(iss, b)) == a - b
  {
    var x, y := (iss + a) / WRAP, (iss + b) / WRAP;
    assert iss + a == x * WRAP + Plus(iss, a) && iss + b == y * WRAP + Plus(iss, b);
    var d := Plus(iss, a) - Plus(iss, b);
    assert d == (a - b) - (x - y) * WRAP;
    assert x - y == 0 || x - y == 1;
  }

  lemma Behind(iss: Seq32, a: nat, b: nat)
    requires a < b < a + WRAP
    ensures Minus(Plus(iss, a), Plus(iss, b)) == WRAP - (b - a)
  {
    var x, y := (iss + a) / WRAP, (iss + b) / WRAP;
    assert iss + a == x * WRAP + Plus(iss, a) && iss + b == y * WRAP + Plus(iss, b);
    var d := Plus(iss, a) - Plus(iss, b);
    assert d == (y - x) * WRAP - (b - a);
    assert y - x == 0 || y - x == 1;
  }

  /** Sequence comparison is comparison of positions, as long as they are less than half the space apart. */
  lemma BeforeIsLess(iss: Seq32, a: nat, b: nat)
    requires a < b + HALF && b <= a + HALF
    ensures SeqBefore(Plus(iss, a), Plus(iss, b)) <==> a < b
    ensures Plus(iss, a) == Plus(iss, b) <==> a == b
  {
    if a < b {
      Behind(iss, a, b);
    } else {
      Ahead(iss, a, b);
    }
  }

  lemma SamePosition(iss: Seq32, a: nat, b: nat)
    requires a < b + WRAP && b < a + WRAP
    ensures Plus(iss, a) == Plus(iss, b) <==> a == b
  {
    if a < b {
      Behind(iss, a, b);
    } else {
      Ahead(iss, a, b);
    }
  }

  lemma PlusPlus(iss: Seq32, a: nat, n: nat)
    ensures Plus(Plus(iss, a), n) == Plus(iss, a + n)
  {
  }

  // ------------------------------------------------------------------ one end

  /**
   One end: its control block, its initial sequence number, and its history: the bytes its sender was
   promised, the bytes its reader took, whether it said goodbye, and how far it has received (kept
   when the control block is released).
   */
  datatype End = End(tcb: Tcb, listening: bool, iss: Seq32, sent: Bytes, got: Bytes, bye: bool, rcv: nat)

  predicate Live(e: End) {
    !e.tcb.state.Closed?
  }

  predicate Synced(s: State) {
    !s.Closed? && !s.SynSent? && !s.SynReceived?
  }

  predicate SaidBye(s: State) {
    s.FinWait1? || s.FinWait2? || s.Closing? || s.LastAck? || s.TimeWait?
  }

  /** The position after everything sent. */
  function Nxt(e: End): nat {
    if e.listening then 0 else 1 + |e.sent| + (if e.bye then 1 else 0)
  }

  /** How many sequence numbers await their acknowledgement. */
  function Flight(c: Tcb): nat {
    Minus(c.sndNxt, c.sndUna)
  }

  function Una(e: End): int {
    Nxt(e) - Flight(e.tcb)
  }

  /** The position the receiver expects next. */
  function Reached(c: Tcb, got: Bytes): nat {
    if c.state.SynSent? then 0 else 1 + |got| + |c.inbox| + (if PastFin(c.state) then 1 else 0)
  }

  /** What the sender must still hold once everything before position `una` is acknowledged. */
  function Retained(sent: Bytes, una: nat): Bytes
    requires una >= 1
  {
    Drop(sent, una - 1)
  }

  ghost predicate EndInv(e: End, peer: Seq32) {
    && |e.sent| < HALF
    && (e.listening ==> !Live(e) && e.rcv == 0 && e.sent == [] && e.got == [] && !e.bye)
    && (!Live(e) ==> e.tcb == GONE)
    && (Live(e) ==> LiveInv(e, peer))
  }

  ghost predicate LiveInv(e: End, peer: Seq32) {
    var c := e.tcb;
    && !e.listening
    && Una(e) >= 0 && c.sndNxt == Plus(e.iss, Nxt(e)) && c.sndUna == Plus(e.iss, Una(e))
    && e.rcv == Reached(c, e.got) && |c.inbox| <= RECEIVE_WINDOW
    && (c.state.SynSent? || c.state.SynReceived? ==> Opening(e))
    && (!c.state.SynSent? ==> c.rcvNxt == Plus(peer, e.rcv))
    && (Synced(c.state) ==> SyncedInv(e))
  }

  ghost predicate Opening(e: End) {
    && Una(e) == 0 && e.sent == [] && !e.bye && e.got == [] && e.tcb.inbox == [] && e.tcb.outbox == []
    && e.tcb.seats == GONE.seats
  }

  /** The retention ring holds exactly the unacknowledged bytes of the stream. */
  ghost predicate RingInv(e: End) {
    && Una(e) >= 1
    && e.bye == SaidBye(e.tcb.state)
    && e.tcb.outbox == Retained(e.sent, Una(e)) && |e.tcb.outbox| <= SEND_WINDOW
    && (e.tcb.state.FinWait2? || e.tcb.state.TimeWait? ==> Flight(e.tcb) == 0)
  }

  ghost predicate SyncedInv(e: End) {
    && RingInv(e)
    && (e.tcb.state.FinWait1? || e.tcb.state.Closing? || e.tcb.state.LastAck? ==> Flight(e.tcb) > 0)
  }

  // ------------------------------------------------------------------ two ends

  /** Bytes `data` sit in the stream at position `pos`. */
  ghost predicate InStream(sent: Bytes, pos: nat, data: Bytes) {
    1 <= pos && pos - 1 + |data| <= |sent| && data == sent[pos - 1..pos - 1 + |data|]
  }

  ghost predicate SeatSound(s: End, seat: Seat) {
    seat.Held? ==> seat.data != [] && exists pos: nat :: SeatAt(s, seat, pos)
  }

  ghost predicate SeatAt(s: End, seat: Seat, pos: nat) {
    seat.Held? && seat.start == Plus(s.iss, pos) && InStream(s.sent, pos, seat.data)
  }

  ghost predicate SeatsSound(s: End, seats: SeatRow) {
    forall i :: 0 <= i < SEATS ==> SeatSound(s, seats[i])
  }

  /** What the receiver has is a prefix of what the sender was promised, and at most a window behind it. */
  ghost predicate TextFlows(s: End, r: End) {
    && r.got + r.tcb.inbox <= s.sent
    && r.rcv <= Nxt(s) <= r.rcv + SEND_WINDOW + 1
    && (PastFin(r.tcb.state) ==> s.bye && |r.got| + |r.tcb.inbox| == |s.sent|)
  }

  /** Text flows, parked segments are pieces of the stream, acknowledgements never run ahead of reception. */
  ghost predicate Flows(s: End, r: End) {
    && TextFlows(s, r)
    && SeatsSound(s, r.tcb.seats)
    && (Live(s) ==> Una(s) <= r.rcv)
  }

  /** A segment tells the truth about its sender: every byte and every acknowledgement. */
  ghost predicate Honest(s: End, peer: Seq32, g: Segment) {
    if g.rst then !g.syn else exists pos: nat, apos: nat :: HonestAt(s, peer, g, pos, apos)
  }

  ghost predicate HonestAt(s: End, peer: Seq32, g: Segment, pos: nat, apos: nat) {
    && g.sequence == Plus(s.iss, pos) && pos <= Nxt(s) && |g.payload| <= MSS
    && (g.payload != [] ==> InStream(s.sent, pos, g.payload))
    && (g.syn ==> pos == 0 && g.payload == [] && !g.fin)
    && (!g.syn ==> pos >= 1 && g.ack)
    && (g.fin ==> s.bye && g.payload == [] && pos == |s.sent| + 1)
    && (g.ack ==> 1 <= apos <= s.rcv && g.acknowledgement == Plus(peer, apos))
  }

  ghost predicate AllHonest(s: End, peer: Seq32, gs: seq<Segment>) {
    forall g :: g in gs ==> Honest(s, peer, g)
  }

  /** How an end may change: its history only grows, and a goodbye ends the stream. */
  ghost predicate Evolves(e: End, e': End) {
    && e'.iss == e.iss && e.sent <= e'.sent && e.rcv <= e'.rcv && Nxt(e) <= Nxt(e')
    && (e.bye ==> e'.bye && e'.sent == e.sent)
  }

  lemma HonestStays(s: End, s': End, peer: Seq32, g: Segment)
    requires Honest(s, peer, g) && Evolves(s, s')
    ensures Honest(s', peer, g)
  {
    if !g.rst {
      var pos: nat, apos: nat :| HonestAt(s, peer, g, pos, apos);
      assert HonestAt(s', peer, g, pos, apos);
    }
  }

  lemma AllHonestStays(s: End, s': End, peer: Seq32, gs: seq<Segment>)
    requires AllHonest(s, peer, gs) && Evolves(s, s')
    ensures AllHonest(s', peer, gs)
  {
    forall g | g in gs
      ensures Honest(s', peer, g)
    {
      HonestStays(s, s', peer, g);
    }
  }

  lemma SeatStays(s: End, s': End, seat: Seat)
    requires SeatSound(s, seat) && s'.iss == s.iss && s.sent <= s'.sent
    ensures SeatSound(s', seat)
  {
    if seat.Held? {
      var pos: nat :| SeatAt(s, seat, pos);
      assert SeatAt(s', seat, pos);
    }
  }

  /** Everything that ties two ends together. */
  ghost predicate Paired(e: End, s: End) {
    EndInv(e, s.iss) && EndInv(s, e.iss) && Flows(s, e) && Flows(e, s)
  }

  // ------------------------------------------------------------------ what an end sends is honest

  lemma AckIsHonest(e: End, peer: Seq32)
    requires EndInv(e, peer) && Synced(e.tcb.state)
    ensures Honest(e, peer, PlainAck(e.tcb))
  {
    assert HonestAt(e, peer, PlainAck(e.tcb), Nxt(e), e.rcv);
  }

  lemma RingLength(e: End, peer: Seq32)
    requires EndInv(e, peer) && Synced(e.tcb.state)
    ensures Flight(e.tcb) == |e.tcb.outbox| + (if e.bye && Una(e) != Nxt(e) then 1 else 0)
    ensures Una(e) <= Nxt(e)
  {
  }

  /** A resend carries the bytes first sent at its sequence number, or the FIN when no payload is outstanding. */
  lemma ResendIsHonest(e: End, peer: Seq32)
    requires EndInv(e, peer) && Live(e)
    ensures AllHonest(e, peer, Resent(e.tcb))
  {
    var c := e.tcb;
    if c.state.SynSent? {
      assert HonestAt(e, peer, Resent(c)[0], 0, 0);
    } else if c.state.SynReceived? {
      assert Resent(c) == [];
    } else {
      RingLength(e, peer);
      if Resent(c) != [] {
        assert |Resent(c)| == 1;
        if e.bye && c.outbox == [] && !c.state.FinWait2? && !c.state.TimeWait? {
          assert HonestAt(e, peer, Resent(c)[0], Una(e), e.rcv);
        } else {
          var n := |Resent(c)[0].payload|;
          assert c.outbox[..n] == e.sent[Una(e) - 1..Una(e) - 1 + n];
          assert HonestAt(e, peer, Resent(c)[0], Una(e), e.rcv);
        }
      }
    }
  }

  // ------------------------------------------------------------------ hearing an acknowledgement

  /** The two comparisons the code makes place an acknowledgement above SND.UNA and at most at SND.NXT. */
  lemma AckCompares(una: Seq32, nxt: Seq32, ack: Seq32)
    requires Minus(nxt, una) < HALF
    ensures SeqBefore(una, ack) && !SeqBefore(nxt, ack) <==> 0 < Minus(ack, una) <= Minus(nxt, una)
    ensures Minus(ack, una) == 0 <==> ack == una
  {
    var d, f := Minus(ack, una), Minus(nxt, una);
    assert ack == Plus(una, d) && nxt == Plus(una, f) && una == Plus(una, 0);
    if d == 0 {
      Ahead(una, 0, 0);
    } else {
      Behind(una, 0, d);
      if d <= f {
        Ahead(una, f, d);
      } else {
        Behind(una, f, d);
      }
    }
  }

  /**
   The window moves exactly on an acknowledgement above SND.UNA and at most SND.NXT, for all 2^32
   values of the field (section 3.4 of RFC 9293); in last-ack the one that reaches SND.NXT ends the
   connection instead.
   */
  lemma AckMovesIff(c: Tcb, g: Segment)
    requires g.ack && Flight(c) < HALF
    ensures var a, ack := AbsorbAck(c, g).tcb, g.acknowledgement;
            var una := if 0 < Minus(ack, c.sndUna) <= Flight(c) then ack else c.sndUna;
            if c.state.LastAck? && una == c.sndNxt && !SeqBefore(c.sndNxt, ack) then a == GONE else a.sndUna == una
    ensures 0 < Flight(c) ==>
              (c.state.LastAck? && AbsorbAck(c, g).tcb == GONE <==> c.state.LastAck? && g.acknowledgement == c.sndNxt)
  {
    hide Resent, Drop, Length, SeqBefore, Minus;
    AckCompares(c.sndUna, c.sndNxt, g.acknowledgement);
    AckCompares(c.sndUna, c.sndNxt, c.sndNxt);
  }

  /** An honest acknowledgement is never beyond what was sent; it moves the window or is old. */
  lemma AckPosition(e: End, s: End, g: Segment, apos: nat)
    requires Paired(e, s) && Synced(e.tcb.state) && 1 <= apos <= s.rcv && g.acknowledgement == Plus(e.iss, apos)
    ensures apos > Una(e) ==> SeqBefore(e.tcb.sndUna, g.acknowledgement) && !SeqBefore(e.tcb.sndNxt, g.acknowledgement)
    ensures apos > Una(e) ==> Minus(g.acknowledgement, e.tcb.sndUna) == apos - Una(e)
    ensures apos <= Una(e) && SeqBefore(e.tcb.sndUna, g.acknowledgement) ==> SeqBefore(e.tcb.sndNxt, g.acknowledgement)
  {
    RingLength(e, s.iss);
    var una, nxt := Una(e), Nxt(e);
    if apos > una {
      BeforeIsLess(e.iss, una, apos);
      BeforeIsLess(e.iss, nxt, apos);
      Ahead(e.iss, apos, una);
    } else if una < apos + HALF {
      BeforeIsLess(e.iss, una, apos);
    } else {
      Ahead(e.iss, nxt, apos);
    }
  }

  /** Only the send side of the control block differs, and the ring is right. */
  ghost predicate SendSideOf(c: Tcb, c': Tcb) {
    c' == c.(sndUna := c'.sndUna, sndWindow := c'.sndWindow, outbox := c'.outbox, duplicateAcks := c'.duplicateAcks)
  }

  /** Releasing the control block keeps the pair sound: what was read stays read. */
  lemma GoneKeeps(e: End, s: End)
    requires Paired(e, s) && !e.listening
    ensures Paired(e.(tcb := GONE), s) && Evolves(e, e.(tcb := GONE))
  {
    hide LiveInv;
    var e' := e.(tcb := GONE);
    assert e.got <= e.got + e.tcb.inbox;
    assert EndInv(e', s.iss);
    assert SeatsSound(s, e'.tcb.seats);
    assert Nxt(e') == Nxt(e);
    assert TextFlows(e', s);
    SeatsStay(e, e', s.tcb.seats);
  }

  lemma SeatsStay(s: End, s': End, seats: SeatRow)
    requires SeatsSound(s, seats) && s'.iss == s.iss && s.sent <= s'.sent
    ensures SeatsSound(s', seats)
  {
    forall i | 0 <= i < SEATS
      ensures SeatSound(s', seats[i])
    {
      SeatStays(s, s', seats[i]);
    }
  }

  /** A change of the send side alone, within what the peer has received, keeps the pair sound. */
  lemma SendSideKeeps(e: End, s: End, c: Tcb)
    requires Paired(e, s) && Live(e) && EndInv(e.(tcb := c), s.iss) && !c.state.Closed?
    requires c.inbox == e.tcb.inbox && c.seats == e.tcb.seats && PastFin(c.state) == PastFin(e.tcb.state)
    requires Una(e.(tcb := c)) <= s.rcv
    ensures Paired(e.(tcb := c), s) && Evolves(e, e.(tcb := c))
  {
    hide EndInv, SeatSound;
    var e' := e.(tcb := c);
    assert Nxt(e') == Nxt(e);
    assert TextFlows(s, e') && TextFlows(e', s);
    SeatsStay(e, e', s.tcb.seats);
  }

  lemma SettledKeeps(e: End, s: End, c: Tcb, g: Segment, sent: seq<Segment>)
    requires Paired(e, s) && Synced(e.tcb.state) && !e.tcb.state.TimeWait? && SendSideOf(e.tcb, c)
    requires var e1 := e.(tcb := c);
             && Una(e) <= Una(e1) <= s.rcv && c.sndUna == Plus(e.iss, Una(e1)) && RingInv(e1)
    ensures var a := AckSettled(c, g, sent);
            var e' := e.(tcb := a.tcb);
            && Paired(e', s) && Evolves(e, e') && a.sent == sent
            && (!a.stop ==> Synced(a.tcb.state) && !a.tcb.state.TimeWait? && a.tcb == c.(state := a.tcb.state))
  {
    hide Flows, Retained;
    var a := AckSettled(c, g, sent);
    var e' := e.(tcb := a.tcb);
    if Live(e') {
      assert Flight(e'.tcb) == Flight(c) && Una(e') == Una(e.(tcb := c)) && Nxt(e') == Nxt(e);
      assert SyncedInv(e');
      assert EndInv(e', s.iss);
      SendSideKeeps(e, s, a.tcb);
    } else {
      GoneKeeps(e, s);
    }
  }

  lemma RingAfterAck(e: End, peer: Seq32, apos: nat, window: nat)
    requires EndInv(e, peer) && Synced(e.tcb.state) && Una(e) < apos <= Nxt(e)
    ensures var c :=
              e.tcb.(sndUna := Plus(e.iss, apos), sndWindow := window, outbox := Drop(e.tcb.outbox, apos - Una(e)),
                duplicateAcks := 0);
            Una(e.(tcb := c)) == apos && RingInv(e.(tcb := c))
  {
    RingLength(e, peer);
    Ahead(e.iss, Nxt(e), apos);
    var una := Una(e);
    assert una - 1 <= |e.sent| ==> Drop(Drop(e.sent, una - 1), apos - una) == Drop(e.sent, apos - 1);
  }

  /** What an honest segment acknowledges is within what was sent, and releases exactly those bytes. */
  lemma AckKeeps(e: End, s: End, g: Segment)
    requires Paired(e, s) && Synced(e.tcb.state) && !e.tcb.state.TimeWait? && Honest(s, e.iss, g) && !g.rst
    ensures var a := AbsorbAck(e.tcb, g);
            var e' := e.(tcb := a.tcb);
            && Paired(e', s) && Evolves(e, e') && AllHonest(e', s.iss, a.sent)
            && (!a.stop ==> Synced(a.tcb.state) && !a.tcb.state.TimeWait?)
  {
    hide Flows, EndInv, Retained, HonestAt, InStream;
    var c := e.tcb;
    var heard := if g.ack then c.(sndWindow := g.window) else c;
    WindowKeeps(e, s, heard);
    ResendIsHonest(e.(tcb := heard), s.iss);
    var e0 := e.(tcb := heard);
    var apos := AckedPosition(e, s, g);
    if g.ack {
      AckPosition(e, s, g, apos);
    }
    if g.ack && SeqBefore(c.sndUna, g.acknowledgement) {
      if !SeqBefore(c.sndNxt, g.acknowledgement) {
        AckInSent(e, s, apos);
        RingAfterAck(e, s.iss, apos, g.window);
        var moved :=
          heard.(sndUna := g.acknowledgement, outbox := Drop(c.outbox, Minus(g.acknowledgement, c.sndUna)),
            duplicateAcks := 0);
        SettledKeeps(e, s, moved, g, []);
      }
    } else if g.ack && g.acknowledgement == c.sndUna && Length(g) == 0 && c.sndUna != c.sndNxt {
      var dups := if c.duplicateAcks + 1 >= FAST_ACKS then 0 else c.duplicateAcks + 1;
      DuplicateKeeps(e, s, heard.(duplicateAcks := dups));
      SettledKeeps(e, s, heard.(duplicateAcks := dups), g, if dups == 0 then Resent(heard) else []);
      AllHonestStays(e0, e.(tcb := AbsorbAck(c, g).tcb), s.iss, Resent(heard));
    } else {
      SettledKeeps(e, s, heard, g, []);
    }
  }

  lemma AckedPosition(e: End, s: End, g: Segment) returns (apos: nat)
    requires Honest(s, e.iss, g) && !g.rst
    ensures g.ack ==> 1 <= apos <= s.rcv && g.acknowledgement == Plus(e.iss, apos)
  {
    var pos: nat, a: nat :| HonestAt(s, e.iss, g, pos, a);
    apos := a;
  }

  lemma AckInSent(e: End, s: End, apos: nat)
    requires Paired(e, s) && apos <= s.rcv
    ensures apos <= Nxt(e)
  {
  }

  lemma WindowKeeps(e: End, s: End, c: Tcb)
    requires Paired(e, s) && Synced(e.tcb.state) && c == e.tcb.(sndWindow := c.sndWindow)
    ensures Paired(e.(tcb := c), s) && Evolves(e, e.(tcb := c))
    ensures Una(e.(tcb := c)) == Una(e) <= s.rcv && c.sndUna == Plus(e.iss, Una(e)) && RingInv(e.(tcb := c))
  {
    hide SeatSound;
    SeatsStay(e, e.(tcb := c), s.tcb.seats);
  }

  lemma DuplicateKeeps(e: End, s: End, c: Tcb)
    requires Paired(e, s) && Synced(e.tcb.state)
    requires c == e.tcb.(sndWindow := c.sndWindow, duplicateAcks := c.duplicateAcks)
    ensures Una(e.(tcb := c)) == Una(e) <= s.rcv && c.sndUna == Plus(e.iss, Una(e)) && RingInv(e.(tcb := c))
  {
    hide SeatSound;
  }

  // ------------------------------------------------------------------ hearing payload

  /** The end after its control block changed; reception is read off the new block. */
  function Settle(e: End, c: Tcb): End {
    if c.state.Closed? then e.(tcb := c) else e.(tcb := c, rcv := Reached(c, e.got))
  }

  /** Appending the next bytes of the peer's stream, and any change of the parked segments, is sound. */
  lemma TextKeeps(e: End, s: End, c: Tcb, data: Bytes)
    requires Paired(e, s) && Synced(e.tcb.state)
    requires c == e.tcb.(inbox := e.tcb.inbox + data, rcvNxt := Plus(e.tcb.rcvNxt, |data|), seats := c.seats)
    requires SeatsSound(s, c.seats) && |c.inbox| <= RECEIVE_WINDOW
    requires data != [] ==> !PastFin(e.tcb.state) && InStream(s.sent, e.rcv, data)
    ensures Paired(Settle(e, c), s) && Evolves(e, Settle(e, c))
    ensures Settle(e, c).rcv == e.rcv + |data|
  {
    hide SeatSound;
    var e' := Settle(e, c);
    PlusPlus(s.iss, e.rcv, |data|);
    assert Una(e') == Una(e) && Nxt(e') == Nxt(e);
    assert e.got + c.inbox == (e.got + e.tcb.inbox) + data;
    assert TextFlows(s, e');
    SeatsStay(e, e', s.tcb.seats);
    assert RingInv(e');
  }

  /** The peer's FIN, once every byte before it is in. */
  lemma FinKeeps(e: End, s: End)
    requires Paired(e, s) && (e.tcb.state.Established? || e.tcb.state.FinWait1? || e.tcb.state.FinWait2?)
    requires s.bye && e.rcv == |s.sent| + 1
    ensures var c := e.tcb.(rcvNxt := Plus(e.tcb.rcvNxt, 1), state := AfterFin(e.tcb.state));
            Paired(Settle(e, c), s) && Evolves(e, Settle(e, c))
  {
    hide SeatSound;
    var c := e.tcb.(rcvNxt := Plus(e.tcb.rcvNxt, 1), state := AfterFin(e.tcb.state));
    var e' := Settle(e, c);
    PlusPlus(s.iss, e.rcv, 1);
    assert Una(e') == Una(e) && Nxt(e') == Nxt(e);
    SeatsStay(e, e', s.tcb.seats);
    assert RingInv(e');
  }

  lemma SeatPosition(e: End, s: End, seat: Seat) returns (pos: nat)
    requires Paired(e, s) && Synced(e.tcb.state) && SeatSound(s, seat) && seat.Held? && seat.start == e.tcb.rcvNxt
    ensures pos == e.rcv && InStream(s.sent, pos, seat.data) && !PastFin(e.tcb.state)
  {
    pos :| SeatAt(s, seat, pos);
    SamePosition(s.iss, pos, e.rcv);
  }

  lemma DeliverKeeps(e: End, s: End, i: nat)
    requires Paired(e, s) && Synced(e.tcb.state) && i < SEATS
    ensures Paired(Settle(e, DeliverSeat(e.tcb, i)), s) && Evolves(e, Settle(e, DeliverSeat(e.tcb, i)))
    ensures DeliverSeat(e.tcb, i).state == e.tcb.state
  {
    hide EndInv, TextFlows, SeatSound;
    var c := DeliverSeat(e.tcb, i);
    var seat := e.tcb.seats[i];
    assert SeatSound(s, seat);
    if c != e.tcb {
      var pos := SeatPosition(e, s, seat);
      FreedSeatSound(s, e.tcb.seats, i);
      TextKeeps(e, s, c, seat.data);
    } else {
      Unchanged(e, s);
    }
  }

  lemma FreedSeatSound(s: End, seats: SeatRow, i: nat)
    requires SeatsSound(s, seats) && i < SEATS
    ensures SeatsSound(s, seats[i := Free])
  {
    var freed: SeatRow := seats[i := Free];
    forall j | 0 <= j < SEATS
      ensures SeatSound(s, freed[j])
    {
      assert j != i ==> SeatSound(s, seats[j]);
    }
  }

  lemma Unchanged(e: End, s: End)
    requires Paired(e, s) && Synced(e.tcb.state)
    ensures Settle(e, e.tcb) == e && Evolves(e, e)
  {
    hide SeatSound;
  }

  lemma {:induction false} PassKeeps(e: End, s: End, i: nat)
    requires Paired(e, s) && Synced(e.tcb.state) && i <= SEATS
    ensures Paired(Settle(e, HarvestPass(e.tcb, i)), s) && Evolves(e, Settle(e, HarvestPass(e.tcb, i)))
    ensures HarvestPass(e.tcb, i).state == e.tcb.state
    decreases SEATS - i
  {
    hide Paired, DeliverSeat;
    Unchanged(e, s);
    if i == SEATS {
    } else {
      DeliverKeeps(e, s, i);
      PassKeeps(Settle(e, DeliverSeat(e.tcb, i)), s, i + 1);
    }
  }

  /** Delivering parked segments until none is due keeps the stream intact. */
  lemma {:induction false} HarvestKeeps(e: End, s: End)
    requires Paired(e, s) && Synced(e.tcb.state)
    ensures Paired(Settle(e, Harvest(e.tcb)), s) && Evolves(e, Settle(e, Harvest(e.tcb)))
    ensures Harvest(e.tcb).state == e.tcb.state
    decreases HeldFrom(e.tcb.seats, 0)
  {
    hide Paired, HarvestPass, HeldFrom;
    Unchanged(e, s);
    PassFreesSeats(e.tcb, 0);
    PassKeeps(e, s, 0);
    if HarvestPass(e.tcb, 0) == e.tcb {
    } else {
      HarvestKeeps(Settle(e, HarvestPass(e.tcb, 0)), s);
    }
  }

  lemma StoreKeeps(e: End, s: End, g: Segment)
    requires Paired(e, s) && Synced(e.tcb.state) && Honest(s, e.iss, g) && !g.rst
    ensures Paired(Settle(e, StoreOutOfOrder(e.tcb, g)), s) && Evolves(e, Settle(e, StoreOutOfOrder(e.tcb, g)))
    ensures StoreOutOfOrder(e.tcb, g).state == e.tcb.state
  {
    hide EndInv, TextFlows, SeatSound;
    var c := StoreOutOfOrder(e.tcb, g);
    Unchanged(e, s);
    if c != e.tcb {
      var i := FreeSeat(e.tcb.seats, 0);
      StoredSeatSound(e, s, g);
      forall j | 0 <= j < SEATS
        ensures SeatSound(s, c.seats[j])
      {
        assert j != i ==> SeatSound(s, e.tcb.seats[j]);
      }
      InboxFits(e, s);
      RcvPlusZero(e, s);
      TextKeeps(e, s, c, []);
    }
  }

  lemma StoredSeatSound(e: End, s: End, g: Segment)
    requires Honest(s, e.iss, g) && !g.rst && g.payload != []
    ensures SeatSound(s, Held(g.sequence, g.payload))
  {
    var pos: nat, apos: nat :| HonestAt(s, e.iss, g, pos, apos);
    assert SeatAt(s, Held(g.sequence, g.payload), pos);
  }

  lemma InboxFits(e: End, s: End)
    requires Paired(e, s) && Live(e)
    ensures |e.tcb.inbox| <= RECEIVE_WINDOW
  {
  }

  lemma RcvPlusZero(e: End, s: End)
    ensures Plus(e.tcb.rcvNxt, 0) == e.tcb.rcvNxt
  {
  }

  /** Where an honest segment lies relative to the receiver's cursor, as the code's comparisons see it. */
  lemma SegmentPlace(e: End, s: End, g: Segment, pos: nat, apos: nat)
    requires Paired(e, s) && Synced(e.tcb.state) && HonestAt(s, e.iss, g, pos, apos)
    ensures pos + Length(g) <= Nxt(s)
    ensures Plus(g.sequence, Length(g)) == Plus(s.iss, pos + Length(g))
    ensures SeqBeforeEq(Plus(g.sequence, Length(g)), e.tcb.rcvNxt) <==> pos + Length(g) <= e.rcv
    ensures pos + Length(g) > e.rcv ==> (SeqBefore(e.tcb.rcvNxt, g.sequence) <==> e.rcv < pos)
    ensures pos + Length(g) > e.rcv ==> !g.syn && !PastFin(e.tcb.state)
  {
    hide SeatSound, RingInv;
    var end := pos + Length(g);
    PlusPlus(s.iss, pos, Length(g));
    assert end <= Nxt(s) && end >= 1 && e.rcv >= 1;
    assert Nxt(s) <= HALF + 1;
    BeforeIsLess(s.iss, end, e.rcv);
    if end > e.rcv {
      BeforeIsLess(s.iss, e.rcv, pos);
    }
  }

  /** How many bytes of a segment at `pos` are new to the receiver and find room. */
  function NewBytes(e: End, g: Segment, pos: nat): nat {
    if pos <= e.rcv < pos + |g.payload| && |e.tcb.inbox| <= RECEIVE_WINDOW
    then Min(pos + |g.payload| - e.rcv, RECEIVE_WINDOW - |e.tcb.inbox|) else 0
  }

  /** The receiver takes exactly the new bytes that fit, from the sender's stream, and acknowledges them. */
  ghost predicate TakesBytes(e: End, s: End, g: Segment, pos: nat, b: Out) {
    var n := NewBytes(e, g, pos);
    && 1 <= e.rcv && e.rcv - 1 + n <= |s.sent|
    && b.tcb == e.tcb.(inbox := e.tcb.inbox + s.sent[e.rcv - 1..e.rcv - 1 + n], rcvNxt := Plus(e.tcb.rcvNxt, n))
    && b.sent == if n > 0 then [PlainAck(b.tcb)] else []
  }

  /** The receiver takes the peer's FIN and acknowledges it. */
  ghost predicate TakesFin(e: End, b: Out) {
    && b.tcb == e.tcb.(rcvNxt := Plus(e.tcb.rcvNxt, 1), state := AfterFin(e.tcb.state))
    && b.sent == [PlainAck(b.tcb)]
  }

  lemma FinSegment(e: End, s: End, g: Segment, pos: nat)
    requires Paired(e, s) && Synced(e.tcb.state) && !PastFin(e.tcb.state)
    requires g.fin && !g.syn && g.payload == [] && g.sequence == Plus(s.iss, pos) && e.rcv == pos == |s.sent| + 1
    requires s.bye
    ensures var b := AbsorbBytes(e.tcb, g);
            && Paired(Settle(e, b.tcb), s) && Evolves(e, Settle(e, b.tcb)) && Synced(b.tcb.state)
            && TakesFin(e, b)
  {
    hide SeatSound, EndInv, Flows, PlainAck;
    OffsetOf(e, s, g, pos);
    InboxFits(e, s);
    RcvWord(e, s);
    PlusPlus(s.iss, e.rcv, 1);
    PlusPlus(s.iss, e.rcv, 0);
    FinKeeps(e, s);
    var b := AbsorbBytes(e.tcb, g);
    assert b.tcb == e.tcb.(rcvNxt := Plus(e.tcb.rcvNxt, 1), state := AfterFin(e.tcb.state));
  }

  lemma DataSegment(e: End, s: End, g: Segment, pos: nat)
    requires Paired(e, s) && Synced(e.tcb.state) && !PastFin(e.tcb.state)
    requires !g.fin && !g.syn && g.sequence == Plus(s.iss, pos) && InStream(s.sent, pos, g.payload)
    requires pos <= e.rcv < pos + |g.payload| && |g.payload| <= MSS
    ensures var b := AbsorbBytes(e.tcb, g);
            && Paired(Settle(e, b.tcb), s) && Evolves(e, Settle(e, b.tcb)) && Synced(b.tcb.state)
            && TakesBytes(e, s, g, pos, b)
  {
    hide SeatSound, EndInv, Flows, PlainAck, PayloadSkip, Minus, Plus;
    OffsetOf(e, s, g, pos);
    PlainSkip(e.rcv - pos);
    InboxFits(e, s);
    SeatsOf(e, s);
    var b := AbsorbBytes(e.tcb, g);
    var skip := e.rcv - pos;
    var taken := Min(|g.payload| - skip, RECEIVE_WINDOW - |e.tcb.inbox|);
    var data := g.payload[skip..skip + taken];
    assert b.tcb == e.tcb.(inbox := e.tcb.inbox + data, rcvNxt := Plus(e.tcb.rcvNxt, |data|));
    SliceOfSlice(s.sent, pos - 1, pos - 1 + |g.payload|, skip, skip + taken);
    TextKeeps(e, s, b.tcb, data);
  }

  lemma PlainSkip(offset: nat)
    requires offset < WRAP
    ensures PayloadSkip(offset, false) == offset
  {
  }

  /**
   An in-order segment hands over exactly the bytes of the stream that come next, as many as are new and
   find room, or the FIN once all bytes before it are in; either is acknowledged.
   */
  lemma BytesKeeps(e: End, s: End, g: Segment, pos: nat, apos: nat)
    requires Paired(e, s) && Synced(e.tcb.state) && !e.tcb.state.TimeWait? && HonestAt(s, e.iss, g, pos, apos)
    requires !SeqBeforeEq(Plus(g.sequence, Length(g)), e.tcb.rcvNxt) && !SeqBefore(e.tcb.rcvNxt, g.sequence)
    ensures var b := AbsorbBytes(e.tcb, g);
            var e' := Settle(e, b.tcb);
            && Paired(e', s) && Evolves(e, e') && AllHonest(e', s.iss, b.sent) && Synced(b.tcb.state)
            && if g.fin then TakesFin(e, b) else TakesBytes(e, s, g, pos, b)
  {
    hide SeatSound, EndInv, Flows, AllHonest, AbsorbBytes, PlainAck;
    SegmentPlace(e, s, g, pos, apos);
    if g.fin {
      FinSegment(e, s, g, pos);
    } else {
      DataSegment(e, s, g, pos);
    }
    var b := AbsorbBytes(e.tcb, g);
    AckIsHonest(Settle(e, b.tcb), s.iss);
    OneHonest(Settle(e, b.tcb), s.iss, b.sent);
  }

  lemma OffsetOf(e: End, s: End, g: Segment, pos: nat)
    requires Paired(e, s) && Synced(e.tcb.state) && g.sequence == Plus(s.iss, pos) && pos <= e.rcv < pos + WRAP
    ensures Minus(e.tcb.rcvNxt, g.sequence) == e.rcv - pos
  {
    Ahead(s.iss, e.rcv, pos);
  }

  lemma RcvWord(e: End, s: End)
    requires Paired(e, s) && Synced(e.tcb.state)
    ensures e.tcb.rcvNxt == Plus(s.iss, e.rcv)
  {
  }

  lemma SeatsOf(e: End, s: End)
    requires Paired(e, s)
    ensures SeatsSound(s, e.tcb.seats)
  {
  }

  lemma OneHonest(e: End, peer: Seq32, gs: seq<Segment>)
    requires Honest(e, peer, PlainAck(e.tcb)) && (gs == [] || gs == [PlainAck(e.tcb)])
    ensures AllHonest(e, peer, gs)
  {
  }

  // ------------------------------------------------------------------ hearing a whole segment

  lemma EvolvesOn(a: End, b: End, c: End)
    requires Evolves(a, b) && Evolves(b, c)
    ensures Evolves(a, c)
  {
  }

  /** What holds of an end after it absorbed a segment and sent its answers. */
  ghost predicate Absorbed(e: End, s: End, out: Out) {
    var e' := Settle(e, out.tcb);
    Paired(e', s) && Evolves(e, e') && AllHonest(e', s.iss, out.sent)
  }

  lemma HarvestAnswers(e: End, s: End, e1: End, before: seq<Segment>, acks: bool)
    requires Evolves(e, e1) && Paired(e1, s) && Synced(e1.tcb.state) && AllHonest(e1, s.iss, before)
    requires e1 == e.(tcb := e1.tcb, rcv := e1.rcv)
    ensures var c := Harvest(e1.tcb);
            Absorbed(e, s, Out(c, if acks then before + [PlainAck(c)] else before))
  {
    hide Paired, Harvest, AllHonest, Evolves;
    var c := Harvest(e1.tcb);
    HarvestKeeps(e1, s);
    var e2 := Settle(e1, c);
    assert e2 == Settle(e, c);
    EvolvesOn(e, e1, e2);
    AllHonestStays(e1, e2, s.iss, before);
    PairedEnd(e2, s);
    AckIsHonest(e2, s.iss);
    MoreHonest(e2, s.iss, before);
  }

  lemma PairedEnd(e: End, s: End)
    requires Paired(e, s)
    ensures EndInv(e, s.iss)
  {
  }

  lemma MoreHonest(e: End, peer: Seq32, before: seq<Segment>)
    requires AllHonest(e, peer, before) && Honest(e, peer, PlainAck(e.tcb))
    ensures AllHonest(e, peer, before + [PlainAck(e.tcb)])
  {
    hide Honest;
  }

  /** A segment heard after the handshake. */
  lemma TextSegmentKeeps(e: End, s: End, g: Segment)
    requires Paired(e, s) && Synced(e.tcb.state) && !e.tcb.state.TimeWait? && Honest(s, e.iss, g) && !g.rst
    ensures Absorbed(e, s, AbsorbText(e.tcb, g))
  {
    hide Paired, Honest, AllHonest, AbsorbAck, AbsorbBytes, Harvest, StoreOutOfOrder, Evolves;
    AckKeeps(e, s, g);
    var a := AbsorbAck(e.tcb, g);
    var e1 := e.(tcb := a.tcb);
    SettledEnd(e1, s);
    assert Settle(e, a.tcb) == e1;
    if !a.stop {
      if SeqBeforeEq(Plus(g.sequence, Length(g)), a.tcb.rcvNxt) {
        PairedEnd(e1, s);
        AckIsHonest(e1, s.iss);
        MoreHonest(e1, s.iss, a.sent);
      } else if SeqBefore(a.tcb.rcvNxt, g.sequence) {
        StoreKeeps(e1, s, g);
        var e2 := Settle(e1, StoreOutOfOrder(a.tcb, g));
        EvolvesOn(e, e1, e2);
        AllHonestStays(e1, e2, s.iss, a.sent);
        HarvestAnswers(e, s, e2, a.sent, true);
      } else {
        var pos, apos := PlaceOf(s, e.iss, g);
        BytesKeeps(e1, s, g, pos, apos);
        var b := AbsorbBytes(a.tcb, g);
        var e2 := Settle(e1, b.tcb);
        EvolvesOn(e, e1, e2);
        AllHonestStays(e1, e2, s.iss, a.sent);
        BothHonest(e2, s.iss, a.sent, b.sent);
        HarvestAnswers(e, s, e2, a.sent + b.sent, false);
      }
    }
  }

  lemma PlaceOf(s: End, peer: Seq32, g: Segment) returns (pos: nat, apos: nat)
    requires Honest(s, peer, g) && !g.rst
    ensures HonestAt(s, peer, g, pos, apos)
  {
    pos, apos :| HonestAt(s, peer, g, pos, apos);
  }

  lemma SettledEnd(e: End, s: End)
    requires Paired(e, s)
    ensures Settle(e, e.tcb) == e
  {
  }

  lemma BothHonest(e: End, peer: Seq32, xs: seq<Segment>, ys: seq<Segment>)
    requires AllHonest(e, peer, xs) && AllHonest(e, peer, ys)
    ensures AllHonest(e, peer, xs + ys)
  {
    hide Honest;
  }

  /** The client's end when the answer to its SYN arrives. */
  lemma AnswerKeeps(e: End, s: End, g: Segment)
    requires Paired(e, s) && e.tcb.state.SynSent? && Honest(s, e.iss, g) && !g.rst
    requires g.syn && g.ack && g.acknowledgement == e.tcb.sndNxt
    ensures Absorbed(e, s, AbsorbSegment(e.tcb, g))
  {
    hide SeatSound;
    var out := AbsorbSegment(e.tcb, g);
    var e' := Settle(e, out.tcb);
    var pos: nat, apos: nat :| HonestAt(s, e.iss, g, pos, apos);
    assert apos == 1;
    PlusPlus(s.iss, 0, 1);
    Ahead(e.iss, 1, 1);
    assert SeatsSound(s, e'.tcb.seats);
    SeatsStay(e, e', s.tcb.seats);
    assert EndInv(e', s.iss);
    AckIsHonest(e', s.iss);
  }

  lemma OpenedEnd(e: End, peer: Seq32)
    requires EndInv(e, peer) && e.tcb.state.SynReceived?
    ensures var e' := e.(tcb := e.tcb.(sndUna := e.tcb.sndNxt, state := Established));
            EndInv(e', peer) && Una(e') == 1 && Nxt(e') == Nxt(e) && Settle(e, e'.tcb) == e'
  {
    Ahead(e.iss, 1, 1);
  }

  /** The server's end when the handshake's last acknowledgement arrives. */
  lemma OpenKeeps(e: End, s: End, g: Segment)
    requires Paired(e, s) && e.tcb.state.SynReceived? && Honest(s, e.iss, g) && !g.rst
    requires g.ack && g.acknowledgement == e.tcb.sndNxt
    ensures var e' := e.(tcb := e.tcb.(sndUna := g.acknowledgement, state := Established));
            Paired(e', s) && Evolves(e, e') && Settle(e, e'.tcb) == e'
  {
    hide SeatSound, LiveInv, HonestAt, Plus;
    var e' := e.(tcb := e.tcb.(sndUna := g.acknowledgement, state := Established));
    var apos := AckedPosition(e, s, g);
    OpenedEnd(e, s.iss);
    SeatsStay(e, e', s.tcb.seats);
  }

  /** Any honest segment, in any state. */
  lemma SegmentKeeps(e: End, s: End, g: Segment)
    requires Paired(e, s) && Live(e) && Honest(s, e.iss, g)
    ensures Absorbed(e, s, AbsorbSegment(e.tcb, g))
  {
    hide Paired, Honest, AbsorbText, Evolves, Outgoing;
    SettledEnd(e, s);
    EvolvesSelf(e);
    if g.rst {
      LiveIsOpen(e, s);
      GoneKeeps(e, s);
    } else {
      match e.tcb.state
      case SynSent =>
        if g.syn && g.ack && g.acknowledgement == e.tcb.sndNxt {
          AnswerKeeps(e, s, g);
        }
      case SynReceived =>
        if !g.ack {
          SynAckIsHonest(e, s);
        } else if g.acknowledgement == e.tcb.sndNxt {
          OpenKeeps(e, s, g);
          var e1 := e.(tcb := e.tcb.(sndUna := g.acknowledgement, state := Established));
          TextSegmentKeeps(e1, s, g);
          var out := AbsorbText(e1.tcb, g);
          assert Settle(e1, out.tcb) == Settle(e, out.tcb);
          EvolvesOn(e, e1, Settle(e, out.tcb));
        }
      case TimeWait =>
        PairedEnd(e, s);
        AckIsHonest(e, s.iss);
      case _ =>
        TextSegmentKeeps(e, s, g);
    }
  }

  lemma EvolvesSelf(e: End)
    ensures Evolves(e, e)
  {
  }

  lemma LiveIsOpen(e: End, s: End)
    requires Paired(e, s) && Live(e)
    ensures !e.listening
  {
  }

  lemma SynAckIsHonest(e: End, s: End)
    requires Paired(e, s) && e.tcb.state.SynReceived?
    ensures Honest(e, s.iss, Outgoing(e.tcb, true, true, false, [], e.tcb.sndUna))
  {
    assert HonestAt(e, s.iss, Outgoing(e.tcb, true, true, false, [], e.tcb.sndUna), 0, 1);
  }

  // ------------------------------------------------------------------ what the two programs do

  lemma {:induction false} SendKeeps(e: End, s: End, bytes: Bytes)
    requires Paired(e, s) && (e.tcb.state.Established? || e.tcb.state.CloseWait?)
    requires Flight(e.tcb) + |bytes| <= SEND_WINDOW && |e.sent| + |bytes| < HALF
    ensures var out := SendChunks(e.tcb, bytes);
            var e' := e.(tcb := out.tcb, sent := e.sent + bytes);
            Paired(e', s) && Evolves(e, e') && AllHonest(e', s.iss, out.sent)
    decreases |bytes|
  {
    hide Paired, Evolves, Outgoing, Honest, AllHonest, Plus;
    var out := SendChunks(e.tcb, bytes);
    if bytes == [] {
      NoneHonest(e, s.iss);
      assert e.sent + bytes == e.sent;
      EvolvesSelf(e);
    } else {
      var n := Min(|bytes|, MSS);
      var e1 := Extended(e, bytes[..n]);
      var g := Outgoing(e.tcb, false, true, false, bytes[..n], e.tcb.sndNxt);
      PairedEnd(e, s);
      ChunkEnd(e, s.iss, bytes[..n]);
      ChunkKeeps(e, s, bytes[..n]);
      SendKeeps(e1, s, bytes[n..]);
      assert e1.sent + bytes[n..] == e.sent + bytes;
      var e' := e.(tcb := out.tcb, sent := e.sent + bytes);
      EvolvesOn(e, e1, e');
      HonestStays(e1, e', s.iss, g);
      OneMoreHonest(e', s.iss, g, SendChunks(e1.tcb, bytes[n..]).sent);
    }
  }

  lemma NoneHonest(e: End, peer: Seq32)
    ensures AllHonest(e, peer, [])
  {
  }

  lemma OneMoreHonest(e: End, peer: Seq32, g: Segment, gs: seq<Segment>)
    requires Honest(e, peer, g) && AllHonest(e, peer, gs)
    ensures AllHonest(e, peer, [g] + gs)
  {
  }

  /** The end after one more segment of text went out. */
  function Extended(e: End, chunk: Bytes): End {
    e.(tcb := e.tcb.(outbox := e.tcb.outbox + chunk, sndNxt := Plus(e.tcb.sndNxt, |chunk|)), sent := e.sent + chunk)
  }

  lemma ChunkEnd(e: End, peer: Seq32, chunk: Bytes)
    requires EndInv(e, peer) && (e.tcb.state.Established? || e.tcb.state.CloseWait?)
    requires Flight(e.tcb) + |chunk| <= SEND_WINDOW && |e.sent| + |chunk| < HALF && 0 < |chunk| <= MSS
    ensures EndInv(Extended(e, chunk), peer) && Una(Extended(e, chunk)) == Una(e) && Evolves(e, Extended(e, chunk))
    ensures Flight(Extended(e, chunk).tcb) == Flight(e.tcb) + |chunk|
    ensures Honest(Extended(e, chunk), peer, Outgoing(e.tcb, false, true, false, chunk, e.tcb.sndNxt))
  {
    var e' := Extended(e, chunk);
    RingLength(e, peer);
    PlusPlus(e.iss, Nxt(e), |chunk|);
    Ahead(e.iss, Nxt(e'), Una(e));
    DropAppend(e.sent, chunk, Una(e) - 1);
    assert RingInv(e');
    ChunkHonest(e, peer, chunk);
  }

  lemma ChunkHonest(e: End, peer: Seq32, chunk: Bytes)
    requires EndInv(e, peer) && (e.tcb.state.Established? || e.tcb.state.CloseWait?) && |chunk| <= MSS
    ensures Honest(Extended(e, chunk), peer, Outgoing(e.tcb, false, true, false, chunk, e.tcb.sndNxt))
  {
    hide Retained, Minus;
    var e' := Extended(e, chunk);
    assert e'.sent[|e.sent|..|e.sent| + |chunk|] == chunk;
    assert InStream(e'.sent, Nxt(e), chunk);
    assert HonestAt(e', peer, Outgoing(e.tcb, false, true, false, chunk, e.tcb.sndNxt), Nxt(e), e.rcv);
  }

  lemma DropAppend(s: Bytes, t: Bytes, n: nat)
    requires n <= |s|
    ensures Drop(s + t, n) == Drop(s, n) + t
  {
  }

  lemma ChunkKeeps(e: End, s: End, chunk: Bytes)
    requires Paired(e, s) && (e.tcb.state.Established? || e.tcb.state.CloseWait?)
    requires Flight(e.tcb) + |chunk| <= SEND_WINDOW && |e.sent| + |chunk| < HALF && 0 < |chunk| <= MSS
    ensures Paired(Extended(e, chunk), s)
  {
    hide SeatSound, LiveInv;
    var e' := Extended(e, chunk);
    NoByeYet(e, s);
    ChunkEnd(e, s.iss, chunk);
    SeatsStay(e, e', s.tcb.seats);
    assert Nxt(e') == Una(e') + Flight(e'.tcb);
    assert e.sent <= e'.sent;
  }

  lemma NoByeYet(e: End, s: End)
    requires Paired(e, s) && (e.tcb.state.Established? || e.tcb.state.CloseWait?)
    ensures !e.bye && !PastFin(s.tcb.state)
  {
  }

  /** Taking bytes moves them from the inbox to the reader, in order. */
  lemma ReceiveKeeps(e: End, s: End, capacity: nat)
    requires Paired(e, s) && Live(e)
    ensures var out := Receive(e.tcb, capacity);
            var e' := e.(tcb := out.tcb, got := e.got + e.tcb.inbox[..Min(capacity, |e.tcb.inbox|)]);
            Paired(e', s) && Evolves(e, e') && AllHonest(e', s.iss, out.sent)
  {
    hide SeatSound;
    var out := Receive(e.tcb, capacity);
    var e' := e.(tcb := out.tcb, got := e.got + e.tcb.inbox[..Min(capacity, |e.tcb.inbox|)]);
    assert e'.got + e'.tcb.inbox == e.got + e.tcb.inbox;
    assert Una(e') == Una(e) && Nxt(e') == Nxt(e);
    SeatsStay(e, e', s.tcb.seats);
    assert Synced(e.tcb.state) ==> RingInv(e');
    assert EndInv(e', s.iss);
    if Synced(e.tcb.state) {
      AckIsHonest(e', s.iss);
    }
  }

  /** The goodbye occupies the position after the last byte. */
  lemma CloseKeeps(e: End, s: End)
    requires Paired(e, s) && (e.tcb.state.Established? || e.tcb.state.CloseWait?)
    ensures var out := Close(e.tcb);
            var e' := e.(tcb := out.tcb, bye := true);
            Paired(e', s) && Evolves(e, e') && AllHonest(e', s.iss, out.sent)
  {
    hide SeatSound;
    var out := Close(e.tcb);
    var e' := e.(tcb := out.tcb, bye := true);
    RingLength(e, s.iss);
    PlusPlus(e.iss, Nxt(e), 1);
    Ahead(e.iss, Nxt(e'), Una(e));
    assert Una(e') == Una(e);
    assert RingInv(e') && Flight(e'.tcb) > 0;
    assert EndInv(e', s.iss);
    SeatsStay(e, e', s.tcb.seats);
    assert HonestAt(e', s.iss, out.sent[0], Nxt(e), e.rcv);
  }

  /** A listener's end when a SYN arrives. */
  lemma AcceptKeeps(e: End, s: End, g: Segment)
    requires Paired(e, s) && e.listening && !s.listening && Honest(s, e.iss, g) && g.syn && !g.ack
    ensures var out := Accept(e.iss, g);
            var e' := e.(tcb := out.tcb, listening := false, rcv := 1);
            Paired(e', s) && Evolves(e, e') && AllHonest(e', s.iss, out.sent)
  {
    hide SeatSound;
    var out := Accept(e.iss, g);
    var e' := e.(tcb := out.tcb, listening := false, rcv := 1);
    var pos: nat, apos: nat :| HonestAt(s, e.iss, g, pos, apos);
    PlusPlus(s.iss, 0, 1);
    Ahead(e.iss, 1, 0);
    assert Plus(e.iss, 0) == e.iss;
    assert SeatsSound(s, e'.tcb.seats);
    SeatsStay(e, e', s.tcb.seats);
    assert EndInv(e', s.iss);
    assert HonestAt(e', s.iss, out.sent[0], 0, 1);
  }
}
