/**
 Whole runs of one connection: two ends, the network between them, and what holds after any number
 of moves.
 */
module TcpRuns {
  import opened Wrappers
  import opened TcpSpec
  import opened TcpStream

  // ------------------------------------------------------------------ the network and whole runs

  /**
   What one side may do next. `DoRelease` is abandon (with a reset), giving up, or the end of time-wait.
   Nothing can be asked of a connection in syn-received: it is accepted, and named, once established.
   */
  datatype Move =
    | DoSend(bytes: Bytes) | DoReceive(capacity: nat) | DoClose | DoResend
    | DoRelease(reset: bool) | Hear(segment: Segment)

  datatype Played = Played(end: End, sent: seq<Segment>)

  function Reset(c: Tcb): Segment {
    Segment(false, true, false, true, c.sndNxt, c.rcvNxt, 0, [])
  }

  /** A segment for a connection that is not there is answered with a reset; of resets only one with a SYN is. */
  function Orphan(g: Segment): seq<Segment> {
    if g.rst && !(g.syn && !g.ack) then []
    else if g.ack then [Segment(false, false, false, true, g.acknowledgement, 0, 0, [])]
    else [Segment(false, true, false, true, 0, Plus(g.sequence, Length(g)), 0, [])]
  }

  function Play(e: End, m: Move): Played {
    match m
    case DoSend(bytes) =>
      var n := Accepted(e.tcb, |bytes|);
      if (e.tcb.state.Established? || e.tcb.state.CloseWait?) && |e.sent| + n < HALF then
        var out := Send(e.tcb, bytes);
        Played(e.(tcb := out.tcb, sent := e.sent + bytes[..n]), out.sent)
      else Played(e, [])
    case DoReceive(capacity) =>
      if Live(e) then
        var out := Receive(e.tcb, capacity);
        Played(e.(tcb := out.tcb, got := e.got + e.tcb.inbox[..Min(capacity, |e.tcb.inbox|)]), out.sent)
      else Played(e, [])
    case DoClose =>
      var out := if e.tcb.state.SynReceived? then Out(e.tcb, []) else Close(e.tcb);
      Played(e.(tcb := out.tcb, bye := e.bye || e.tcb.state.Established? || e.tcb.state.CloseWait?), out.sent)
    case DoResend => Played(e, if Live(e) then Resent(e.tcb) else [])
    case DoRelease(reset) =>
      if Live(e) then Played(e.(tcb := GONE), if reset then [Reset(e.tcb)] else []) else Played(e, [])
    case Hear(g) =>
      if Live(e) then
        var out := Handle(e.tcb, g);
        Played(Settle(e, out.tcb), out.sent)
      else if e.listening && g.syn && !g.ack then
        var out := Accept(e.iss, g);
        Played(e.(tcb := out.tcb, listening := false, rcv := 1), out.sent)
      else Played(e, Orphan(g))
  }

  /**
   Both ends and every segment either ever sent. A segment in the network may be delivered at any
   time, any number of times or never: that is dropping, duplicating and reordering.
   */
  datatype Sys = Sys(client: End, server: End, up: set<Segment>, down: set<Segment>)

  function Start(iss: Seq32, peer: Seq32): Sys {
    var out := Connect(iss);
    Sys(End(out.tcb, false, iss, [], [], false, 0), End(GONE, true, peer, [], [], false, 0), {out.sent[0]}, {})
  }

  function Segments(gs: seq<Segment>): set<Segment> {
    set g | g in gs
  }

  /** One side moves; it can hear only what the other side sent. */
  function Step(y: Sys, clientMoves: bool, m: Move): Sys {
    if m.Hear? && m.segment !in (if clientMoves then y.down else y.up) then y
    else if clientMoves then
      var p := Play(y.client, m);
      y.(client := p.end, up := y.up + Segments(p.sent))
    else
      var p := Play(y.server, m);
      y.(server := p.end, down := y.down + Segments(p.sent))
  }

  function Run(y: Sys, moves: seq<(bool, Move)>): Sys {
    if moves == [] then y
    else
      var last := moves[|moves| - 1];
      Step(Run(y, moves[..|moves| - 1]), last.0, last.1)
  }

  lemma CloseMoveKeeps(e: End, s: End)
    requires Paired(e, s)
    ensures var p := Play(e, DoClose);
            Paired(p.end, s) && Evolves(e, p.end) && AllHonest(p.end, s.iss, p.sent)
  {
    hide Paired;
    EvolvesSelf(e);
    if e.tcb.state.Established? || e.tcb.state.CloseWait? {
      CloseKeeps(e, s);
    } else if e.tcb.state.SynSent? {
      LiveIsOpen(e, s);
      GoneKeeps(e, s);
    }
  }

  lemma SendMoveKeeps(e: End, s: End, bytes: Bytes)
    requires Paired(e, s)
    ensures var p := Play(e, DoSend(bytes));
            Paired(p.end, s) && Evolves(e, p.end) && AllHonest(p.end, s.iss, p.sent)
  {
    hide Paired, SendChunks;
    EvolvesSelf(e);
    var n := Accepted(e.tcb, |bytes|);
    if (e.tcb.state.Established? || e.tcb.state.CloseWait?) && |e.sent| + n < HALF {
      if n == 0 {
        FlightBounded(e, s);
      }
      SendKeeps(e, s, bytes[..n]);
    }
  }

  lemma FlightBounded(e: End, s: End)
    requires Paired(e, s) && (e.tcb.state.Established? || e.tcb.state.CloseWait?)
    ensures Flight(e.tcb) <= SEND_WINDOW
  {
    RingLength(e, s.iss);
  }

  lemma HearMoveKeeps(e: End, s: End, g: Segment)
    requires Paired(e, s) && (e.listening ==> !s.listening) && Honest(s, e.iss, g)
    ensures var p := Play(e, Hear(g));
            Paired(p.end, s) && Evolves(e, p.end) && AllHonest(p.end, s.iss, p.sent)
  {
    hide Paired, AbsorbSegment, Accept;
    EvolvesSelf(e);
    if Live(e) {
      if e.tcb.state.TimeWait? && g.syn && !g.ack {
        LiveIsOpen(e, s);
        GoneKeeps(e, s);
      } else {
        SegmentKeeps(e, s, g);
      }
    } else if e.listening && g.syn && !g.ack {
      AcceptKeeps(e, s, g);
    }
  }

  /** Whatever one side does, both ends stay sound and everything it sends is honest. */
  lemma PlayKeeps(e: End, s: End, m: Move)
    requires Paired(e, s) && (e.listening ==> !s.listening) && (m.Hear? ==> Honest(s, e.iss, m.segment))
    ensures var p := Play(e, m);
            Paired(p.end, s) && Evolves(e, p.end) && AllHonest(p.end, s.iss, p.sent)
  {
    hide Paired, Resent;
    EvolvesSelf(e);
    match m
    case DoSend(bytes) =>
      SendMoveKeeps(e, s, bytes);
    case DoReceive(capacity) =>
      if Live(e) {
        ReceiveKeeps(e, s, capacity);
      }
    case DoClose =>
      CloseMoveKeeps(e, s);
    case DoResend =>
      if Live(e) {
        PairedEnd(e, s);
        ResendIsHonest(e, s.iss);
      }
    case DoRelease(reset) =>
      if Live(e) {
        LiveIsOpen(e, s);
        GoneKeeps(e, s);
      }
    case Hear(g) =>
      HearMoveKeeps(e, s, g);
  }

  ghost predicate SysInv(y: Sys) {
    && Paired(y.client, y.server) && !y.client.listening
    && (forall g :: g in y.up ==> Honest(y.client, y.server.iss, g))
    && (forall g :: g in y.down ==> Honest(y.server, y.client.iss, g))
  }

  lemma PairedBack(e: End, s: End)
    requires Paired(e, s)
    ensures Paired(s, e)
  {
  }

  lemma StepKeeps(y: Sys, clientMoves: bool, m: Move)
    requires SysInv(y)
    ensures SysInv(Step(y, clientMoves, m))
  {
    hide Paired, Honest, Play, Evolves;
    PairedBack(y.client, y.server);
    if !(m.Hear? && m.segment !in (if clientMoves then y.down else y.up)) {
      if clientMoves {
        PlayKeeps(y.client, y.server, m);
        var p := Play(y.client, m);
        EvolvesSame(y.client, p.end);
        forall g | g in y.up
          ensures Honest(p.end, y.server.iss, g)
        {
          HonestStays(y.client, p.end, y.server.iss, g);
        }
        OpenStays(y.client, m);
      } else {
        PlayKeeps(y.server, y.client, m);
        var p := Play(y.server, m);
        EvolvesSame(y.server, p.end);
        PairedBack(p.end, y.client);
        forall g | g in y.down
          ensures Honest(p.end, y.client.iss, g)
        {
          HonestStays(y.server, p.end, y.client.iss, g);
        }
      }
    }
  }

  lemma EvolvesSame(e: End, e': End)
    requires Evolves(e, e')
    ensures e'.iss == e.iss
  {
  }

  lemma OpenStays(e: End, m: Move)
    requires !e.listening
    ensures !Play(e, m).end.listening
  {
  }

  lemma StartIsSound(iss: Seq32, peer: Seq32)
    ensures SysInv(Start(iss, peer))
  {
    var y := Start(iss, peer);
    Ahead(iss, 1, 0);
    assert Plus(iss, 0) == iss;
    assert Opening(y.client);
    assert HonestAt(y.client, peer, Connect(iss).sent[0], 0, 0);
  }

  lemma {:induction false} RunKeeps(iss: Seq32, peer: Seq32, moves: seq<(bool, Move)>)
    ensures SysInv(Run(Start(iss, peer), moves))
  {
    hide SysInv, Step, Start;
    if moves == [] {
      StartIsSound(iss, peer);
    } else {
      var last := moves[|moves| - 1];
      RunKeeps(iss, peer, moves[..|moves| - 1]);
      StepKeeps(Run(Start(iss, peer), moves[..|moves| - 1]), last.0, last.1);
    }
  }

  /**
   End to end, both ways, over every run: what a reader took plus what waits in its inbox is a prefix
   of what the other side's send accepted, and SND.UNA never passes the other side's RCV.NXT.
   */
  lemma StreamSafety(iss: Seq32, peer: Seq32, moves: seq<(bool, Move)>)
    ensures var y := Run(Start(iss, peer), moves);
            && y.server.got + y.server.tcb.inbox <= y.client.sent
            && y.client.got + y.client.tcb.inbox <= y.server.sent
            && (Live(y.client) ==> Una(y.client) <= y.server.rcv)
            && (Live(y.server) ==> Una(y.server) <= y.client.rcv)
  {
    hide Start, Run, EndInv, Honest;
    RunKeeps(iss, peer, moves);
  }

  /**
   Retention over every run: once the handshake is over, SND.NXT - SND.UNA is the length of the
   retention ring plus one for an unacknowledged FIN, and the ring holds exactly the bytes sent from
   SND.UNA on and never overflows.
   */
  lemma Retention(iss: Seq32, peer: Seq32, moves: seq<(bool, Move)>, ofClient: bool)
    ensures var y := Run(Start(iss, peer), moves);
            var e := if ofClient then y.client else y.server;
            Synced(e.tcb.state) ==>
              && Minus(e.tcb.sndNxt, e.tcb.sndUna) ==
                   |e.tcb.outbox| + (if e.bye && e.tcb.sndUna != e.tcb.sndNxt then 1 else 0)
              && |e.tcb.outbox| <= SEND_WINDOW && Una(e) >= 1 && e.tcb.outbox == Retained(e.sent, Una(e))
  {
    hide Start, Run, Flows, Honest;
    RunKeeps(iss, peer, moves);
    var y := Run(Start(iss, peer), moves);
    var e, s := if ofClient then y.client else y.server, if ofClient then y.server else y.client;
    if Synced(e.tcb.state) {
      RingLength(e, s.iss);
      SamePosition(e.iss, Nxt(e), Una(e));
    }
  }

  /** A FIN is sent again only when no payload is outstanding, and then at the position after the last byte. */
  lemma FinResentLast(e: End, peer: Seq32, g: Segment)
    requires EndInv(e, peer) && Live(e) && g in Resent(e.tcb) && g.fin
    ensures e.tcb.outbox == [] && e.bye && g.sequence == Plus(e.iss, |e.sent| + 1)
  {
    RingLength(e, peer);
  }

  /**
   Over every run, whatever is sent again carries the bytes first sent at its sequence number, and a FIN
   goes last.
   */
  lemma ResendsOverRuns(iss: Seq32, peer: Seq32, moves: seq<(bool, Move)>, ofClient: bool, g: Segment)
    requires var y := Run(Start(iss, peer), moves);
             var e := if ofClient then y.client else y.server;
             Live(e) && g in Resent(e.tcb)
    ensures var y := Run(Start(iss, peer), moves);
            var e, s := if ofClient then y.client else y.server, if ofClient then y.server else y.client;
            Honest(e, s.iss, g) && (g.fin ==> e.tcb.outbox == [] && e.bye && g.sequence == Plus(e.iss, |e.sent| + 1))
  {
    hide Paired, Honest, Resent, EndInv, Start, Run;
    RunKeeps(iss, peer, moves);
    var y := Run(Start(iss, peer), moves);
    var e, s := if ofClient then y.client else y.server, if ofClient then y.server else y.client;
    PairedBack(y.client, y.server);
    PairedEnd(e, s);
    ResendIsHonest(e, s.iss);
    if g.fin {
      FinResentLast(e, s.iss, g);
    }
  }

  /** Where the receiver's window ends, as a position. */
  function RightEdge(e: End): nat {
    e.rcv + ReceiveWindow(e.tcb)
  }

  /** The inbox never overflows, so the advertised window is what is left of 4096 bytes and never underflows. */
  lemma WindowIsRoom(iss: Seq32, peer: Seq32, moves: seq<(bool, Move)>)
    ensures var y := Run(Start(iss, peer), moves);
            && |y.client.tcb.inbox| <= RECEIVE_WINDOW
            && ReceiveWindow(y.client.tcb) == RECEIVE_WINDOW - |y.client.tcb.inbox|
            && |y.server.tcb.inbox| <= RECEIVE_WINDOW
            && ReceiveWindow(y.server.tcb) == RECEIVE_WINDOW - |y.server.tcb.inbox|
  {
    hide Start, Run, Flows, Honest, RingInv;
    RunKeeps(iss, peer, moves);
  }

  /** How far the peer's stream has come: not open, open, ended. */
  function Stage(s: State): nat {
    if s.SynSent? then 0 else if PastFin(s) then 2 else 1
  }

  lemma {:induction false} PassKeepsState(c: Tcb, i: nat)
    requires i <= SEATS
    ensures HarvestPass(c, i).state == c.state
    decreases SEATS - i
  {
    if i == SEATS {
    } else {
      PassKeepsState(DeliverSeat(c, i), i + 1);
    }
  }

  lemma {:induction false} HarvestKeepsState(c: Tcb)
    ensures Harvest(c).state == c.state
    decreases HeldFrom(c.seats, 0)
  {
    PassFreesSeats(c, 0);
    PassKeepsState(c, 0);
    if HarvestPass(c, 0) == c {
    } else {
      HarvestKeepsState(HarvestPass(c, 0));
    }
  }

  lemma TextKeepsStage(c: Tcb, g: Segment)
    requires Synced(c.state)
    ensures var s := AbsorbText(c, g).tcb.state;
            s.Closed? || (Synced(s) && Stage(c.state) <= Stage(s))
  {
    hide Harvest, StoreOutOfOrder, SeqBefore, SeqBeforeEq, Resent;
    var a := AbsorbAck(c, g);
    if !a.stop {
      HarvestKeepsState(StoreOutOfOrder(a.tcb, g));
      StoreKeepsState(a.tcb, g);
      HarvestKeepsState(AbsorbBytes(a.tcb, g).tcb);
    }
  }

  lemma StoreKeepsState(c: Tcb, g: Segment)
    ensures StoreOutOfOrder(c, g).state == c.state
  {
  }

  lemma HearKeepsStage(c: Tcb, g: Segment)
    requires !c.state.Closed?
    ensures var s := Handle(c, g).tcb.state;
            s.Closed? || Stage(c.state) <= Stage(s)
  {
    hide AbsorbText;
    if Synced(c.state) {
      TextKeepsStage(c, g);
    } else if c.state.SynReceived? {
      TextKeepsStage(c.(sndUna := g.acknowledgement, state := Established), g);
    }
  }

  /** The right edge is the bytes taken plus the whole window, whatever waits in the inbox. */
  lemma EdgeOf(e: End, peer: Seq32)
    requires EndInv(e, peer) && Live(e)
    ensures RightEdge(e) == |e.got| + RECEIVE_WINDOW + Stage(e.tcb.state)
  {
  }

  /** No move pulls the right edge of a receive window back (section 3.8.6 of RFC 9293). */
  lemma RightEdgeNeverRetreats(e: End, s: End, m: Move)
    requires Paired(e, s) && (e.listening ==> !s.listening) && (m.Hear? ==> Honest(s, e.iss, m.segment))
    requires Live(e) && Live(Play(e, m).end)
    ensures RightEdge(e) <= RightEdge(Play(e, m).end)
  {
    hide Paired, Honest, AbsorbSegment, SendChunks, Flows, EndInv, RightEdge;
    PlayKeeps(e, s, m);
    var e' := Play(e, m).end;
    PairedEnd(e, s);
    PairedEnd(e', s);
    EdgeOf(e, s.iss);
    EdgeOf(e', s.iss);
    if m.Hear? {
      HearKeepsStage(e.tcb, m.segment);
    } else if m.DoSend? {
      SendKeepsState(e.tcb, m.bytes[..Accepted(e.tcb, |m.bytes|)]);
    }
  }

  /** Over every run, no step of either side pulls a right edge back while the connection lives. */
  lemma RightEdgeOverRuns(iss: Seq32, peer: Seq32, moves: seq<(bool, Move)>, clientMoves: bool, m: Move)
    ensures var y := Run(Start(iss, peer), moves);
            var y' := Step(y, clientMoves, m);
            && (Live(y.client) && Live(y'.client) ==> RightEdge(y.client) <= RightEdge(y'.client))
            && (Live(y.server) && Live(y'.server) ==> RightEdge(y.server) <= RightEdge(y'.server))
  {
    hide Paired, Honest, Start, Run, RightEdge, Play;
    RunKeeps(iss, peer, moves);
    var y := Run(Start(iss, peer), moves);
    PairedBack(y.client, y.server);
    if !(m.Hear? && m.segment !in (if clientMoves then y.down else y.up)) {
      var e, s := if clientMoves then y.client else y.server, if clientMoves then y.server else y.client;
      if Live(e) && Live(Play(e, m).end) {
        RightEdgeNeverRetreats(e, s, m);
      }
    }
  }

  lemma {:induction false} SendKeepsState(c: Tcb, bytes: Bytes)
    ensures SendChunks(c, bytes).tcb.state == c.state
    decreases |bytes|
  {
    if bytes == [] {
    } else {
      var n := Min(|bytes|, MSS);
      SendKeepsState(c.(outbox := c.outbox + bytes[..n], sndNxt := Plus(c.sndNxt, n)), bytes[n..]);
    }
  }
}
