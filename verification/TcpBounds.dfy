/**
 What every operation of a connection keeps, whatever segments arrive: the rings within their
 capacity, and the retention ring within what is in flight.
 */
module TcpBounds {
  import opened Wrappers
  import opened TcpSpec
  import opened TcpStream

  /**
   At most a window of bytes is in flight, and one position more for the FIN; nothing is retained
   before the handshake is over.
   */
  ghost predicate Bounded(c: Tcb) {
    && |c.inbox| <= RECEIVE_WINDOW && |c.outbox| <= SEND_WINDOW && |c.outbox| <= Flight(c)
    && Flight(c) <= SEND_WINDOW + (if SaidBye(c.state) then 1 else 0)
    && (c.state.Closed? || c.state.SynSent? || c.state.SynReceived? ==> c.outbox == [])
  }

  lemma {:induction false} ChunksEffect(c: Tcb, bytes: Bytes)
    ensures SendChunks(c, bytes).tcb == c.(outbox := c.outbox + bytes, sndNxt := Plus(c.sndNxt, |bytes|))
    decreases |bytes|
  {
    if bytes == [] {
    } else {
      var n := Min(|bytes|, MSS);
      var c' := c.(outbox := c.outbox + bytes[..n], sndNxt := Plus(c.sndNxt, n));
      ChunksEffect(c', bytes[n..]);
      assert c.outbox + bytes[..n] + bytes[n..] == c.outbox + bytes;
      PlusPlus(c.sndNxt, n, |bytes| - n);
    }
  }

  lemma SendBounded(c: Tcb, bytes: Bytes)
    requires Bounded(c)
    ensures Bounded(Send(c, bytes).tcb)
  {
    hide SendChunks, Plus;
    if c.state.Established? || c.state.CloseWait? {
      var n := Accepted(c, |bytes|);
      ChunksEffect(c, bytes[..n]);
      FlightGrows(c, n);
    }
  }

  lemma FlightGrows(c: Tcb, n: nat)
    requires Flight(c) + n < WRAP
    ensures Minus(Plus(c.sndNxt, n), c.sndUna) == Flight(c) + n
  {
  }

  lemma CloseBounded(c: Tcb)
    requires Bounded(c)
    ensures Bounded(Close(c).tcb)
  {
    FlightGrows(c, 1);
  }

  lemma ReceiveBounded(c: Tcb, capacity: nat)
    requires Bounded(c)
    ensures Bounded(Receive(c, capacity).tcb)
  {
  }

  lemma SettledBounded(c: Tcb, g: Segment, sent: seq<Segment>)
    requires Bounded(c)
    ensures Bounded(AckSettled(c, g, sent).tcb)
  {
    hide Length;
  }

  /** An acknowledgement takes as much off the flight as it takes off the ring, or more. */
  lemma MovedBounded(c: Tcb, ack: Seq32)
    requires Bounded(c) && 0 < Minus(ack, c.sndUna) <= Flight(c)
    ensures Bounded(c.(sndUna := ack, outbox := Drop(c.outbox, Minus(ack, c.sndUna)), duplicateAcks := 0))
  {
    assert Minus(c.sndNxt, ack) == Flight(c) - Minus(ack, c.sndUna);
  }

  lemma AckBounded(c: Tcb, g: Segment)
    requires Bounded(c)
    ensures Bounded(AbsorbAck(c, g).tcb)
  {
    hide Resent, SeqBefore, Length, Minus, Drop, AckSettled;
    var heard := if g.ack then c.(sndWindow := g.window) else c;
    AckCompares(c.sndUna, c.sndNxt, g.acknowledgement);
    if g.ack && 0 < Minus(g.acknowledgement, c.sndUna) <= Flight(c) {
      MovedBounded(heard, g.acknowledgement);
      var gone := Minus(g.acknowledgement, c.sndUna);
      SettledBounded(heard.(sndUna := g.acknowledgement, outbox := Drop(c.outbox, gone), duplicateAcks := 0), g, []);
    }
    SettledBounded(heard, g, []);
    SettledBounded(heard.(duplicateAcks := 0), g, Resent(heard));
    SettledBounded(heard.(duplicateAcks := c.duplicateAcks + 1), g, []);
  }

  /** Only the receive side differs, within the window. */
  ghost predicate ReceiveSideOf(c: Tcb, c': Tcb) {
    c' == c.(inbox := c'.inbox, rcvNxt := c'.rcvNxt, seats := c'.seats) && |c'.inbox| <= RECEIVE_WINDOW
  }

  lemma {:induction false} PassReceives(c: Tcb, i: nat)
    requires |c.inbox| <= RECEIVE_WINDOW && i <= SEATS
    ensures ReceiveSideOf(c, HarvestPass(c, i))
    decreases SEATS - i
  {
    if i == SEATS {
    } else {
      PassReceives(DeliverSeat(c, i), i + 1);
    }
  }

  lemma {:induction false} HarvestReceives(c: Tcb)
    requires |c.inbox| <= RECEIVE_WINDOW
    ensures ReceiveSideOf(c, Harvest(c))
    decreases HeldFrom(c.seats, 0)
  {
    hide HarvestPass, HeldFrom;
    PassReceives(c, 0);
    PassFreesSeats(c, 0);
    if HarvestPass(c, 0) == c {
    } else {
      HarvestReceives(HarvestPass(c, 0));
    }
  }

  lemma BytesBounded(c: Tcb, g: Segment)
    requires Bounded(c) && !c.state.Closed? && !c.state.SynSent?
    ensures Bounded(AbsorbBytes(c, g).tcb)
  {
    hide Plus, Minus, PayloadSkip, Length;
  }

  lemma TextBounded(c: Tcb, g: Segment)
    requires Bounded(c) && !c.state.Closed? && !c.state.SynSent? && !c.state.SynReceived?
    ensures Bounded(AbsorbText(c, g).tcb)
  {
    hide AbsorbAck, AbsorbBytes, Harvest, SeqBefore, SeqBeforeEq;
    AckBounded(c, g);
    AckKeepsHandshakeOver(c, g);
    var a := AbsorbAck(c, g);
    if !a.stop {
      HarvestReceives(StoreOutOfOrder(a.tcb, g));
      BytesBounded(a.tcb, g);
      HarvestReceives(AbsorbBytes(a.tcb, g).tcb);
    }
  }

  lemma AckKeepsHandshakeOver(c: Tcb, g: Segment)
    ensures var a := AbsorbAck(c, g);
            !a.stop && !c.state.Closed? && !c.state.SynSent? ==> !a.tcb.state.Closed? && !a.tcb.state.SynSent?
  {
  }

  /** One segment, forged or not, keeps the bounds. */
  lemma SegmentBounded(c: Tcb, g: Segment)
    requires Bounded(c)
    ensures Bounded(AbsorbSegment(c, g).tcb)
  {
    hide AbsorbText;
    if !g.rst && !c.state.Closed? && !c.state.SynSent? && !c.state.TimeWait? {
      if c.state.SynReceived? {
        if g.ack && g.acknowledgement == c.sndNxt {
          TextBounded(c.(sndUna := g.acknowledgement, state := Established), g);
        }
      } else {
        TextBounded(c, g);
      }
    }
  }
}
