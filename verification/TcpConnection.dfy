/**
 One connection as the kernel runs it: fields changed in place, ring queues pushed and popped byte by
 byte, repair seats scanned in loops. Each method is proved to do to the control block what TcpSpec
 says, so the runs of TcpRuns are runs of this class.
 */
module TcpConnection {
  import opened Wrappers
  import opened TcpSpec
  import opened TcpStream
  import opened TcpBounds
  import T = TcpTimer

  /** What a caller is told: how many bytes moved, or why none could. */
  datatype Answer = Taken(count: nat) | NotFound | WouldBlock | BrokenPipe

  class Connection {
    var state: State
    var sndUna: Seq32
    var sndNxt: Seq32
    var rcvNxt: Seq32
    var sndWindow: nat
    var inbox: Bytes    // ring of RECEIVE_WINDOW bytes
    var outbox: Bytes   // ring of SEND_WINDOW bytes
    var reorder: SeatRow
    var duplicateAcks: nat
    var timer: T.Timer
    /** Every segment handed to the sink so far. */
    var wire: seq<Segment>

    ghost function Block(): Tcb
      reads this
    {
      Tcb(state, sndUna, sndNxt, rcvNxt, sndWindow, inbox, outbox, reorder, duplicateAcks)
    }

    /** The rings are within their capacity, and retain no more than is in flight. */
    ghost predicate Valid()
      reads this
    {
      Bounded(Block())
    }

    constructor ()
      ensures Block() == GONE && wire == [] && timer == T.FRESH && Valid()
    {
      state, sndUna, sndNxt, rcvNxt, sndWindow := Closed, 0, 0, 0, SEND_WINDOW;
      inbox, outbox, reorder, duplicateAcks := [], [], [Free, Free, Free, Free], 0;
      timer, wire := T.FRESH, [];
    }

    /** Builds a segment from the current block and hands it to the sink. */
    method Transmit(syn: bool, ack: bool, fin: bool, payload: Bytes, sequence: Seq32)
      modifies this`wire
      ensures wire == old(wire) + [Outgoing(Block(), syn, ack, fin, payload, sequence)]
    {
      wire := wire + [Segment(syn, ack, fin, false, sequence, rcvNxt, (RECEIVE_WINDOW - |inbox|) % 0x1_0000, payload)];
    }

    /** A full ring refuses a byte. */
    method PushInbox(byte: bv8) returns (ok: bool)
      modifies this`inbox
      ensures ok <==> |old(inbox)| < RECEIVE_WINDOW
      ensures inbox == if ok then old(inbox) + [byte] else old(inbox)
    {
      ok := |inbox| < RECEIVE_WINDOW;
      if ok {
        inbox := inbox + [byte];
      }
    }

    method PushOutbox(byte: bv8) returns (ok: bool)
      modifies this`outbox
      ensures ok <==> |old(outbox)| < SEND_WINDOW
      ensures outbox == if ok then old(outbox) + [byte] else old(outbox)
    {
      ok := |outbox| < SEND_WINDOW;
      if ok {
        outbox := outbox + [byte];
      }
    }

    /** Frees the seat: every field back to its default. */
    method Release()
      modifies this
      ensures Block() == GONE && wire == old(wire) && timer == T.FRESH && Valid()
    {
      state, sndUna, sndNxt, rcvNxt, sndWindow := Closed, 0, 0, 0, SEND_WINDOW;
      inbox, outbox, reorder, duplicateAcks := [], [], [Free, Free, Free, Free], 0;
      timer := T.FRESH;
    }

    // ---------------------------------------------------------------- opening

    /** The active open: the SYN goes out and the clock starts. */
    method Connect(iss: Seq32, now: nat)
      requires state.Closed?
      modifies this
      ensures Valid() && Block() == TcpSpec.Connect(iss).tcb && timer == T.FRESH.(oldestSent := now)
      ensures wire == old(wire) + TcpSpec.Connect(iss).sent
    {
      Release();
      state, sndUna, sndNxt := SynSent, iss, iss;
      timer := timer.(oldestSent := now);
      Transmit(true, false, false, [], sndNxt);
      sndNxt := Plus(iss, 1);
    }

    /** The passive open: a listener answers a SYN. */
    method Accept(iss: Seq32, g: Segment, now: nat)
      requires state.Closed?
      modifies this
      ensures Valid() && Block() == TcpSpec.Accept(iss, g).tcb && timer == T.FRESH.(oldestSent := now)
      ensures wire == old(wire) + TcpSpec.Accept(iss, g).sent
    {
      Release();
      state, rcvNxt, sndUna, sndNxt := SynReceived, Plus(g.sequence, 1), iss, iss;
      timer := timer.(oldestSent := now);
      Transmit(true, true, false, [], sndNxt);
      sndNxt := Plus(iss, 1);
    }

    // ---------------------------------------------------------------- sending

    method ResendOldest()
      modifies this`wire, this`timer
      ensures wire == old(wire) + Resent(Block()) && timer == old(timer).(resent := true)
    {
      timer := timer.(resent := true);
      if state.SynSent? {
        Transmit(true, false, false, [], sndUna);
        return;
      }
      if outbox == [] && (state.FinWait1? || state.Closing? || state.LastAck?) {
        Transmit(false, true, true, [], sndUna);
        return;
      }
      var inFlight := Minus(sndNxt, sndUna);
      var stretch := if inFlight < MSS then inFlight else MSS;
      stretch := if stretch < |outbox| then stretch else |outbox|;
      if stretch == 0 {
        return;
      }
      var payload: Bytes := [];
      for index := 0 to stretch
        invariant payload == outbox[..index]
      {
        payload := payload + [outbox[index]];
      }
      Transmit(false, true, false, payload, sndUna);
    }

    /**
     Takes as many offered bytes as the unacknowledged ceiling allows, in segments of at most MSS,
     each byte retained. Refused before and after the states that may send. The clock starts unless it
     runs already or the ceiling is reached.
     */
    method Send(bytes: Bytes, now: nat) returns (answer: Answer)
      requires Valid()
      modifies this
      ensures Valid()
      ensures answer == match old(state)
                        case Closed => NotFound
                        case SynSent => WouldBlock
                        case SynReceived => WouldBlock
                        case Established => Taken(Accepted(old(Block()), |bytes|))
                        case CloseWait => Taken(Accepted(old(Block()), |bytes|))
                        case _ => BrokenPipe
      ensures Block() == TcpSpec.Send(old(Block()), bytes).tcb
      ensures wire == old(wire) + TcpSpec.Send(old(Block()), bytes).sent
      ensures inbox == old(inbox) && state == old(state)
      ensures timer == if answer.Taken? && old(Flight(Block())) < Min(SEND_WINDOW, sndWindow)
                       then T.After(old(timer), T.Sent(now)) else old(timer)
    {
      SendBounded(Block(), bytes);
      if state.Closed? {
        return NotFound;
      }
      if state.SynSent? || state.SynReceived? {
        return WouldBlock;
      }
      if !state.Established? && !state.CloseWait? {
        return BrokenPipe;
      }
      var inFlight := Minus(sndNxt, sndUna);
      var ceiling := if SEND_WINDOW < sndWindow then SEND_WINDOW else sndWindow;
      if inFlight >= ceiling {
        assert bytes[..0] == [];
        return Taken(0);
      }
      var room := ceiling - inFlight;
      var accepted := if |bytes| < room then |bytes| else room;
      SendAll(bytes[..accepted]);
      if timer.oldestSent == 0 {
        timer := timer.(oldestSent := now);
      }
      return Taken(accepted);
    }

    /** Retains a chunk byte by byte; there is room for it. */
    method Retain(chunk: Bytes)
      requires |outbox| + |chunk| <= SEND_WINDOW
      modifies this`outbox
      ensures outbox == old(outbox) + chunk
    {
      for index := 0 to |chunk|
        invariant outbox == old(outbox) + chunk[..index]
      {
        var ok := PushOutbox(chunk[index]);
        assert chunk[..index] + [chunk[index]] == chunk[..index + 1];
      }
      assert chunk[..|chunk|] == chunk;
    }

    method SendAll(bytes: Bytes)
      requires Valid() && Flight(Block()) + |bytes| <= SEND_WINDOW
      modifies this`outbox, this`sndNxt, this`wire
      ensures Block() == SendChunks(old(Block()), bytes).tcb
      ensures wire == old(wire) + SendChunks(old(Block()), bytes).sent
    {
      hide Outgoing, Plus;
      ghost var all := SendChunks(Block(), bytes);
      var rest := bytes;
      while rest != []
        invariant |outbox| + |rest| <= SEND_WINDOW
        invariant all.tcb == SendChunks(Block(), rest).tcb
        invariant old(wire) + all.sent == wire + SendChunks(Block(), rest).sent
        decreases |rest|
      {
        ghost var c, more := Block(), SendChunks(Block(), rest);
        var chunk := if |rest| < MSS then |rest| else MSS;
        Transmit(false, true, false, rest[..chunk], sndNxt);
        Retain(rest[..chunk]);
        sndNxt := Plus(sndNxt, chunk);
        rest := rest[chunk..];
        assert more == Out(SendChunks(Block(), rest).tcb, [wire[|wire| - 1]] + SendChunks(Block(), rest).sent);
      }
    }

    /** The local goodbye: a FIN, or in syn-sent the end. */
    method Close(now: nat)
      modifies this
      ensures old(Valid()) ==> Valid()
      ensures Block() == TcpSpec.Close(old(Block())).tcb
      ensures wire == old(wire) + TcpSpec.Close(old(Block())).sent
      ensures timer == if old(state).SynSent? then T.FRESH
                       else if state != old(state) then T.After(old(timer), T.Sent(now))
                       else old(timer)
    {
      if Valid() {
        CloseBounded(Block());
      }
      match state
      case SynSent =>
        Release();
      case Established =>
        SayGoodbye(FinWait1, now);
      case SynReceived =>
        SayGoodbye(FinWait1, now);
      case CloseWait =>
        SayGoodbye(LastAck, now);
      case _ =>
    }

    method SayGoodbye(next: State, now: nat)
      modifies this
      ensures Block() == old(Block()).(sndNxt := Plus(old(sndNxt), 1), state := next)
      ensures wire == old(wire) + [Outgoing(old(Block()), false, true, true, [], old(sndNxt))]
      ensures timer == T.After(old(timer), T.Sent(now))
    {
      Transmit(false, true, true, [], sndNxt);
      sndNxt := Plus(sndNxt, 1);
      state := next;
      if timer.oldestSent == 0 {
        timer := timer.(oldestSent := now);
      }
    }

    /** Takes up to `capacity` waiting bytes, oldest first; announces a window that had been shut. */
    method Receive(capacity: nat) returns (answer: Answer, into: Bytes)
      modifies this`inbox, this`wire
      ensures old(Valid()) ==> Valid()
      ensures answer == if state.Closed? && old(inbox) == [] then NotFound
                        else if old(inbox) == [] && !PastFin(state) then WouldBlock
                        else Taken(|into|)
      ensures into == old(inbox)[..Min(capacity, |old(inbox)|)]
      ensures Block() == TcpSpec.Receive(old(Block()), capacity).tcb
      ensures wire == old(wire) + TcpSpec.Receive(old(Block()), capacity).sent
    {
      into := [];
      if Valid() {
        ReceiveBounded(Block(), capacity);
      }
      if inbox == [] {
        answer := if state.Closed? then NotFound else if PastFin(state) then Taken(0) else WouldBlock;
        return;
      }
      var wasShut := (RECEIVE_WINDOW - |inbox|) % 0x1_0000 == 0;
      ghost var all := inbox;
      while |into| < capacity && inbox != []
        modifies this`inbox
        invariant |into| <= |all| && into == all[..|into|] && inbox == all[|into|..] && |into| <= capacity
        decreases |inbox|
      {
        into := into + [inbox[0]];
        inbox := inbox[1..];
      }
      if wasShut && into != [] && (RECEIVE_WINDOW - |inbox|) % 0x1_0000 != 0 {
        Transmit(false, true, false, [], sndNxt);
      }
      answer := Taken(|into|);
    }

    // ---------------------------------------------------------------- hearing

    /** Bytes up to the acknowledgement leave the retention ring. */
    method PopOutbox(span: nat)
      modifies this`outbox
      ensures outbox == Drop(old(outbox), span)
    {
      var index := 0;
      while index < span && outbox != []
        invariant index <= span && index <= |old(outbox)| && outbox == old(outbox)[index..]
      {
        outbox := outbox[1..];
        index := index + 1;
      }
    }

    /** Closing states move on once everything sent is acknowledged. */
    method SettleAck(g: Segment) returns (stop: bool)
      modifies this
      ensures var a := AckSettled(old(Block()), g, []);
              Block() == a.tcb && stop == a.stop && wire == old(wire)
      ensures inbox == old(inbox) || inbox == []
      ensures timer == if state.Closed? && !old(state).Closed? then T.FRESH else old(timer)
    {
      if sndUna == sndNxt {
        match state {
          case FinWait1 =>
            state := FinWait2;
          case Closing =>
            state := TimeWait;
            return true;
          case LastAck =>
            Release();
            return true;
          case _ =>
        }
      }
      return Length(g) == 0 && g.sequence == rcvNxt;
    }

    /** The sliding side of one segment; `stop` says the segment is dealt with. */
    method AbsorbAck(g: Segment) returns (stop: bool)
      modifies this
      ensures var a := TcpSpec.AbsorbAck(old(Block()), g);
              Block() == a.tcb && wire == old(wire) + a.sent && stop == a.stop
      ensures inbox == old(inbox) || inbox == []
      ensures timer == if state.Closed? && !old(state).Closed? then T.FRESH
                       else if FastResend(old(Block()), g) then old(timer).(resent := true)
                       else old(timer)
    {
      hide Resent, SeqBefore, Minus, Length, Drop;
      NotBeforeItself(sndUna);
      if g.ack {
        sndWindow := g.window;
      }
      if g.ack && SeqBefore(sndUna, g.acknowledgement) {
        if SeqBefore(sndNxt, g.acknowledgement) {
          return true;
        }
        var span := Minus(g.acknowledgement, sndUna);
        sndUna := g.acknowledgement;
        PopOutbox(span);
        duplicateAcks := 0;
      } else if g.ack && g.acknowledgement == sndUna && Length(g) == 0 && sndUna != sndNxt {
        duplicateAcks := duplicateAcks + 1;
        if duplicateAcks >= FAST_ACKS {
          duplicateAcks := 0;
          ResendOldest();
          ResentIgnoresDuplicates(old(Block()).(sndWindow := g.window), Block());
        }
      }
      stop := SettleAck(g);
    }

    /** Parks an out-of-order segment in the first free seat, unless it overlaps one already parked. */
    method ParkOutOfOrder(g: Segment)
      modifies this`reorder
      ensures Block() == StoreOutOfOrder(old(Block()), g)
    {
      if g.fin || g.payload == [] || |g.payload| > MSS || !SeqBefore(g.sequence, Plus(rcvNxt, RECEIVE_WINDOW)) {
        return;
      }
      var end := Plus(g.sequence, |g.payload|);
      for i := 0 to SEATS
        invariant forall j :: 0 <= j < i ==> !Overlaps(reorder[j], g.sequence, end)
      {
        if Overlaps(reorder[i], g.sequence, end) {
          return;
        }
      }
      for i := 0 to SEATS
        invariant FreeSeat(reorder, 0) == FreeSeat(reorder, i)
      {
        if reorder[i].Free? {
          reorder := reorder[i := Held(g.sequence, g.payload)];
          return;
        }
      }
    }

    /** Delivers one parked segment if its turn has come and the inbox has room for all of it. */
    method DeliverParked(i: nat) returns (delivered: bool)
      requires i < SEATS && |inbox| <= RECEIVE_WINDOW
      modifies this`inbox, this`rcvNxt, this`reorder
      ensures Block() == DeliverSeat(old(Block()), i) && |inbox| <= RECEIVE_WINDOW
      ensures delivered ==> old(reorder)[i].Held? && reorder == old(reorder)[i := Free]
      ensures !delivered ==> Block() == old(Block())
    {
      var seat := reorder[i];
      if !seat.Held? || seat.start != rcvNxt {
        return false;
      }
      var room := RECEIVE_WINDOW - |inbox|;
      if |seat.data| > room {
        return false;
      }
      for index := 0 to |seat.data|
        modifies this`inbox
        invariant inbox == old(inbox) + seat.data[..index]
      {
        var ok := PushInbox(seat.data[index]);
        assert seat.data[..index] + [seat.data[index]] == seat.data[..index + 1];
      }
      assert seat.data[..|seat.data|] == seat.data;
      rcvNxt := Plus(rcvNxt, |seat.data|);
      reorder := reorder[i := Free];
      return true;
    }

    /** Delivers parked segments whose turn has come, in passes, until a pass delivers nothing. */
    method HarvestReorder()
      requires |inbox| <= RECEIVE_WINDOW
      modifies this`inbox, this`rcvNxt, this`reorder
      ensures Block() == Harvest(old(Block())) && |inbox| <= RECEIVE_WINDOW
    {
      hide DeliverSeat, HeldFrom;
      var delivered := true;
      while delivered
        invariant |inbox| <= RECEIVE_WINDOW
        invariant Harvest(Block()) == Harvest(old(Block()))
        invariant !delivered ==> HarvestPass(Block(), 0) == Block()
        decreases delivered, HeldFrom(reorder, 0)
      {
        delivered := false;
        ghost var start := Block();
        PassFreesSeats(start, 0);
        for i := 0 to SEATS
          invariant |inbox| <= RECEIVE_WINDOW
          invariant HarvestPass(start, 0) == HarvestPass(Block(), i)
          invariant !delivered ==> Block() == start
          invariant delivered ==> HeldFrom(reorder, 0) < HeldFrom(start.seats, 0)
        {
          ghost var row := reorder;
          var moved := DeliverParked(i);
          if moved {
            FreeingASeat(row, i, 0);
            delivered := true;
          }
        }
      }
    }

    /** The new part of an in-order payload goes to the inbox as far as there is room. */
    method TakeBytes(payload: Bytes, skip: nat) returns (taken: nat)
      requires |inbox| <= RECEIVE_WINDOW
      modifies this`inbox, this`rcvNxt
      ensures taken == if skip < |payload| then Min(|payload| - skip, RECEIVE_WINDOW - |old(inbox)|) else 0
      ensures inbox == old(inbox) + (if taken == 0 then [] else payload[skip..skip + taken])
      ensures rcvNxt == Plus(old(rcvNxt), taken) && |inbox| <= RECEIVE_WINDOW
    {
      taken := 0;
      if skip < |payload| {
        var wanted := |payload| - skip;
        var room := RECEIVE_WINDOW - |inbox|;
        taken := if wanted < room then wanted else room;
        for index := 0 to taken
          modifies this`inbox
          invariant inbox == old(inbox) + payload[skip..skip + index]
        {
          var ok := PushInbox(payload[skip + index]);
          assert payload[skip..skip + index] + [payload[skip + index]] == payload[skip..skip + index + 1];
        }
        rcvNxt := Plus(rcvNxt, taken);
      }
    }

    /** An in-order segment: its new bytes, then its FIN when nothing before it is missing. */
    method AbsorbBytes(g: Segment)
      requires |inbox| <= RECEIVE_WINDOW
      modifies this`inbox, this`rcvNxt, this`state, this`wire
      ensures var b := TcpSpec.AbsorbBytes(old(Block()), g);
              Block() == b.tcb && wire == old(wire) + b.sent
      ensures |inbox| <= RECEIVE_WINDOW && (state.Closed? <==> old(state).Closed?)
    {
      hide Outgoing, Plus, PayloadSkip, Minus, Length, Min;
      var end := Plus(g.sequence, Length(g));
      var offset := Minus(rcvNxt, g.sequence);
      var skip := PayloadSkip(offset, g.syn);
      var taken := TakeBytes(g.payload, skip);
      var finDone := false;
      if g.fin && Plus(rcvNxt, 1) == end {
        rcvNxt := end;
        match state {
          case Established => state := CloseWait;
          case SynReceived => state := CloseWait;
          case FinWait1 => state := Closing;
          case FinWait2 => state := TimeWait;
          case _ =>
        }
        finDone := true;
      }
      if taken != 0 || finDone {
        Transmit(false, true, false, [], sndNxt);
      }
    }

    /** A segment for a connection past its handshake. */
    method AbsorbText(g: Segment)
      requires |inbox| <= RECEIVE_WINDOW
      modifies this
      ensures var o := TcpSpec.AbsorbText(old(Block()), g);
              Block() == o.tcb && wire == old(wire) + o.sent
      ensures |inbox| <= RECEIVE_WINDOW
      ensures timer == if state.Closed? && !old(state).Closed? then T.FRESH
                       else if FastResend(old(Block()), g) then old(timer).(resent := true)
                       else old(timer)
    {
      hide Harvest, StoreOutOfOrder, TcpSpec.AbsorbBytes, TcpSpec.AbsorbAck;
      ghost var c, w := Block(), wire;
      var stop := AbsorbAck(g);
      if stop {
        return;
      }
      ghost var a := TcpSpec.AbsorbAck(c, g);
      var end := Plus(g.sequence, Length(g));
      if SeqBeforeEq(end, rcvNxt) {
        Transmit(false, true, false, [], sndNxt);
        return;
      }
      if SeqBefore(rcvNxt, g.sequence) {
        ParkOutOfOrder(g);
        HarvestReorder();
        Transmit(false, true, false, [], sndNxt);
        return;
      }
      AbsorbBytes(g);
      HarvestReorder();
    }

    /** One segment drives the machine. */
    method AbsorbSegment(g: Segment)
      requires |inbox| <= RECEIVE_WINDOW
      modifies this
      ensures var o := TcpSpec.AbsorbSegment(old(Block()), g);
              Block() == o.tcb && wire == old(wire) + o.sent
      ensures |inbox| <= RECEIVE_WINDOW && (old(Valid()) ==> Valid())
      ensures timer == if g.rst || (state.Closed? && !old(state).Closed?) then T.FRESH
                       else old(timer).(resent := timer.resent)
    {
      hide TcpSpec.AbsorbText;
      if Valid() {
        SegmentBounded(Block(), g);
      }
      if g.rst {
        Release();
        return;
      }
      match state
      case Closed =>
      case SynSent =>
        if !(g.syn && g.ack) || g.acknowledgement != sndNxt {
          return;
        }
        rcvNxt := Plus(g.sequence, 1);
        sndUna := g.acknowledgement;
        sndWindow := g.window;
        state := Established;
        Transmit(false, true, false, [], sndNxt);
      case SynReceived =>
        if !g.ack {
          if g.syn && Plus(g.sequence, 1) == rcvNxt && Length(g) == 1 {
            Transmit(true, true, false, [], sndUna);
          }
          return;
        }
        if g.acknowledgement != sndNxt {
          return;
        }
        sndUna := g.acknowledgement;
        state := Established;
        AbsorbText(g);
      case TimeWait =>
        Transmit(false, true, false, [], sndNxt);
      case _ =>
        AbsorbText(g);
    }

    /**
     A segment arrives for this connection: the machine moves, and an acknowledgement that moved
     SND.UNA feeds the timer. A new SYN in time-wait ends the connection.
     */
    method Hear(g: Segment, now: nat)
      requires Valid() && !state.Closed?
      modifies this
      ensures Valid()
      ensures var o := Handle(old(Block()), g);
              Block() == o.tcb && wire == old(wire) + o.sent
      ensures var marked := old(timer).(resent := timer.resent);
              timer == if state.Closed? then T.FRESH
                       else T.AfterAckMovement(marked, SeqBefore(old(sndUna), sndUna), sndUna == sndNxt, now)
    {
      hide TcpSpec.AbsorbText, T.CurrentRto;
      if state.TimeWait? && g.syn && !g.ack {
        Release();
        return;
      }
      var before := sndUna;
      AbsorbSegment(g);
      if !state.Closed? {
        ghost var mid := timer;
        T.MarkNeverWithholds(timer, sndUna == sndNxt, now);
        assert mid == old(timer).(resent := mid.resent);
        assert mid.(resent := !mid.resent) == old(timer).(resent := !mid.resent);
        timer := T.AfterAckMovement(timer, SeqBefore(before, sndUna), sndUna == sndNxt, now);
      }
    }

    /** The retransmission wait ran out: resend and back off, or give the connection up. */
    method RetransmitDue()
      requires !state.Closed?
      modifies this
      ensures old(Valid()) ==> Valid()
      ensures var t := T.RetransmitDue(old(timer).(released := false));
              if t.released then Block() == GONE && wire == old(wire)
              else Block() == old(Block()) && wire == old(wire) + Resent(old(Block())) && timer == t
    {
      timer := timer.(released := false);
      if timer.retransmits >= T.MAX_RETRANSMITS {
        Release();
        return;
      }
      ResendOldest();
      var wait := if timer.rto != 0 then timer.rto else T.INITIAL_RTO;
      wait := wait * 2 % WORD;
      wait := if wait < T.MAX_RTO then wait else T.MAX_RTO;
      timer := timer.(retransmits := timer.retransmits + 1, rto := wait);
    }
  }

  lemma NotBeforeItself(a: Seq32)
    ensures !SeqBefore(a, a)
  {
  }

  lemma ResentIgnoresDuplicates(c: Tcb, c': Tcb)
    requires c' == c.(duplicateAcks := c'.duplicateAcks)
    ensures Resent(c') == Resent(c)
  {
  }
}
