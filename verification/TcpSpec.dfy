/**
 One TCP connection as a value: what a segment, a send, a receive, a close and a retransmission do to
 the control block, in 32-bit wrapping sequence space (sections 3.4 and 3.10 of RFC 9293).
 */
module TcpSpec {
  import opened Wrappers

  const WRAP: nat := 0x1_0000_0000
  const HALF: nat := 0x8000_0000
  const RECEIVE_WINDOW: nat := 4096
  const SEND_WINDOW: nat := 4096
  const MSS: nat := 1460
  const SEATS: nat := 4
  const FAST_ACKS: nat := 3

  type Seq32 = n: nat | n < WRAP
  type Bytes = seq<bv8>

  function Plus(a: Seq32, n: nat): Seq32 {
    (a + n) % WRAP
  }

  function Minus(a: Seq32, b: Seq32): Seq32 {
    (a - b) % WRAP
  }

  /** The sign of the 32-bit difference. */
  predicate SeqBefore(left: Seq32, right: Seq32) {
    Minus(left, right) >= HALF
  }

  predicate SeqBeforeEq(left: Seq32, right: Seq32) {
    left == right || SeqBefore(left, right)
  }

  datatype State =
    | Closed | SynSent | SynReceived | Established | FinWait1
    | FinWait2 | CloseWait | Closing | LastAck | TimeWait

  predicate PastFin(s: State) {
    s.CloseWait? || s.Closing? || s.TimeWait? || s.LastAck?
  }

  datatype Segment = Segment(
    syn: bool, ack: bool, fin: bool, rst: bool,
    sequence: Seq32, acknowledgement: Seq32, window: nat, payload: Bytes)

  function Length(g: Segment): nat {
    |g.payload| + (if g.syn then 1 else 0) + (if g.fin then 1 else 0)
  }

  /** One out-of-order segment parked until its gap fills. */
  datatype Seat = Free | Held(start: Seq32, data: Bytes)

  type SeatRow = s: seq<Seat> | |s| == SEATS witness [Free, Free, Free, Free]

  /** The control block of one connection. A released seat is `GONE`. */
  datatype Tcb = Tcb(
    state: State, sndUna: Seq32, sndNxt: Seq32, rcvNxt: Seq32, sndWindow: nat,
    inbox: Bytes, outbox: Bytes, seats: SeatRow, duplicateAcks: nat)

  const GONE := Tcb(Closed, 0, 0, 0, SEND_WINDOW, [], [], [Free, Free, Free, Free], 0)

  /** The window a segment advertises: a 16-bit field. */
  function ReceiveWindow(c: Tcb): nat {
    (RECEIVE_WINDOW - |c.inbox|) % 0x1_0000
  }

  /** A segment this connection sends, at `sequence`. */
  function Outgoing(c: Tcb, syn: bool, ack: bool, fin: bool, payload: Bytes, sequence: Seq32): Segment {
    Segment(syn, ack, fin, false, sequence, c.rcvNxt, ReceiveWindow(c), payload)
  }

  function PlainAck(c: Tcb): Segment {
    Outgoing(c, false, true, false, [], c.sndNxt)
  }

  function Drop(s: Bytes, n: nat): Bytes {
    if n <= |s| then s[n..] else []
  }

  datatype Out = Out(tcb: Tcb, sent: seq<Segment>)

  // ------------------------------------------------------------------ sending

  /** What goes out when the oldest unacknowledged stretch is sent again. */
  function Resent(c: Tcb): seq<Segment> {
    if c.state.SynSent? then [Outgoing(c, true, false, false, [], c.sndUna)]
    else if c.outbox == [] && (c.state.FinWait1? || c.state.Closing? || c.state.LastAck?) then
      [Outgoing(c, false, true, true, [], c.sndUna)]
    else
      var stretch := Min(Min(Minus(c.sndNxt, c.sndUna), MSS), |c.outbox|);
      if stretch == 0 then [] else [Outgoing(c, false, true, false, c.outbox[..stretch], c.sndUna)]
  }

  /** How many bytes of an offer the unacknowledged ceiling lets in. */
  function Accepted(c: Tcb, length: nat): nat {
    var flight := Minus(c.sndNxt, c.sndUna);
    var ceiling := Min(SEND_WINDOW, c.sndWindow);
    if flight >= ceiling then 0 else Min(length, ceiling - flight)
  }

  /** Sends bytes in segments of at most MSS, keeping each byte in the retention ring. */
  function SendChunks(c: Tcb, bytes: Bytes): Out
    decreases |bytes|
  {
    if bytes == [] then Out(c, [])
    else
      var n := Min(|bytes|, MSS);
      var c' := c.(outbox := c.outbox + bytes[..n], sndNxt := Plus(c.sndNxt, n));
      var rest := SendChunks(c', bytes[n..]);
      Out(rest.tcb, [Outgoing(c, false, true, false, bytes[..n], c.sndNxt)] + rest.sent)
  }

  function Send(c: Tcb, bytes: Bytes): Out {
    if c.state.Established? || c.state.CloseWait? then SendChunks(c, bytes[..Accepted(c, |bytes|)]) else Out(c, [])
  }

  /** The local goodbye. */
  function Close(c: Tcb): Out {
    match c.state
    case SynSent => Out(GONE, [])
    case Established =>
      Out(c.(sndNxt := Plus(c.sndNxt, 1), state := FinWait1), [Outgoing(c, false, true, true, [], c.sndNxt)])
    case SynReceived =>
      Out(c.(sndNxt := Plus(c.sndNxt, 1), state := FinWait1), [Outgoing(c, false, true, true, [], c.sndNxt)])
    case CloseWait =>
      Out(c.(sndNxt := Plus(c.sndNxt, 1), state := LastAck), [Outgoing(c, false, true, true, [], c.sndNxt)])
    case _ => Out(c, [])
  }

  /** The reader takes up to `capacity` bytes; a window that had been shut is announced open. */
  function Receive(c: Tcb, capacity: nat): Out {
    var taken := Min(capacity, |c.inbox|);
    var c' := c.(inbox := c.inbox[taken..]);
    Out(c', if ReceiveWindow(c) == 0 && taken != 0 && ReceiveWindow(c') != 0 then [PlainAck(c')] else [])
  }

  // ------------------------------------------------------------------ acknowledgements

  /** `stop` says the segment needs no further work. */
  datatype AckOut = AckOut(tcb: Tcb, sent: seq<Segment>, stop: bool)

  /** What follows once everything sent has been acknowledged, and whether an empty segment ends here. */
  function AckSettled(c: Tcb, g: Segment, sent: seq<Segment>): AckOut {
    var caughtUp := c.sndUna == c.sndNxt;
    if caughtUp && c.state.Closing? then AckOut(c.(state := TimeWait), sent, true)
    else if caughtUp && c.state.LastAck? then AckOut(GONE, sent, true)
    else
      AckOut(if caughtUp && c.state.FinWait1? then c.(state := FinWait2) else c, sent,
             Length(g) == 0 && g.sequence == c.rcvNxt)
  }

  /** The third duplicate acknowledgement in a row sends the oldest stretch again. */
  predicate FastResend(c: Tcb, g: Segment) {
    && g.ack && g.acknowledgement == c.sndUna && Length(g) == 0 && c.sndUna != c.sndNxt
    && c.duplicateAcks + 1 >= FAST_ACKS
  }

  function AbsorbAck(c: Tcb, g: Segment): AckOut {
    var heard := if g.ack then c.(sndWindow := g.window) else c;
    if g.ack && SeqBefore(c.sndUna, g.acknowledgement) then
      if SeqBefore(c.sndNxt, g.acknowledgement) then AckOut(heard, [], true)
      else
        AckSettled(heard.(sndUna := g.acknowledgement,
                          outbox := Drop(c.outbox, Minus(g.acknowledgement, c.sndUna)), duplicateAcks := 0), g, [])
    else if g.ack && g.acknowledgement == c.sndUna && Length(g) == 0 && c.sndUna != c.sndNxt then
      if c.duplicateAcks + 1 >= FAST_ACKS then AckSettled(heard.(duplicateAcks := 0), g, Resent(heard))
      else AckSettled(heard.(duplicateAcks := c.duplicateAcks + 1), g, [])
    else AckSettled(heard, g, [])
  }

  // ------------------------------------------------------------------ payload

  predicate Overlaps(seat: Seat, start: Seq32, end: Seq32) {
    seat.Held? && SeqBefore(start, Plus(seat.start, |seat.data|)) && SeqBefore(seat.start, end)
  }

  /** The first free seat at or after `i`, or SEATS. */
  function FreeSeat(seats: SeatRow, i: nat): (r: nat)
    requires i <= SEATS
    ensures i <= r <= SEATS && (r < SEATS ==> seats[r].Free?)
    decreases SEATS - i
  {
    if i == SEATS || seats[i].Free? then i else FreeSeat(seats, i + 1)
  }

  /** Parks a segment that arrived ahead of a gap, if it is plain payload near the window and fits a seat. */
  function StoreOutOfOrder(c: Tcb, g: Segment): Tcb {
    if g.fin || g.payload == [] || |g.payload| > MSS || !SeqBefore(g.sequence, Plus(c.rcvNxt, RECEIVE_WINDOW)) then c
    else if exists i | 0 <= i < SEATS :: Overlaps(c.seats[i], g.sequence, Plus(g.sequence, |g.payload|)) then c
    else
      var i := FreeSeat(c.seats, 0);
      if i == SEATS then c else c.(seats := c.seats[i := Held(g.sequence, g.payload)])
  }

  /** Delivers one seat if its turn has come and the inbox has room for all of it. */
  function DeliverSeat(c: Tcb, i: nat): Tcb
    requires i < SEATS
  {
    var seat := c.seats[i];
    if seat.Held? && seat.start == c.rcvNxt && |seat.data| + |c.inbox| <= RECEIVE_WINDOW
    then c.(inbox := c.inbox + seat.data, rcvNxt := Plus(c.rcvNxt, |seat.data|), seats := c.seats[i := Free])
    else c
  }

  /** One pass over the seats from seat `i` on. */
  function HarvestPass(c: Tcb, i: nat): Tcb
    requires i <= SEATS
    decreases SEATS - i
  {
    if i == SEATS then c else HarvestPass(DeliverSeat(c, i), i + 1)
  }

  function HeldFrom(seats: SeatRow, i: nat): nat
    requires i <= SEATS
    decreases SEATS - i
  {
    if i == SEATS then 0 else (if seats[i].Held? then 1 else 0) + HeldFrom(seats, i + 1)
  }

  lemma {:induction false} FreeingASeat(seats: SeatRow, j: nat, i: nat)
    requires j < SEATS && i <= SEATS && seats[j].Held?
    ensures HeldFrom(seats[j := Free], i) == HeldFrom(seats, i) - (if i <= j then 1 else 0)
    decreases SEATS - i
  {
    if i == SEATS {
    } else {
      FreeingASeat(seats, j, i + 1);
    }
  }

  /** A pass frees a seat for each delivery, so it changes nothing or leaves fewer seats held. */
  lemma {:induction false} PassFreesSeats(c: Tcb, i: nat)
    requires i <= SEATS
    ensures HarvestPass(c, i) == c || HeldFrom(HarvestPass(c, i).seats, 0) < HeldFrom(c.seats, 0)
    decreases SEATS - i
  {
    if i == SEATS {
    } else {
      PassFreesSeats(DeliverSeat(c, i), i + 1);
      if DeliverSeat(c, i) != c {
        FreeingASeat(c.seats, i, 0);
      }
    }
  }

  /** Passes until one delivers nothing. */
  function Harvest(c: Tcb): Tcb
    decreases HeldFrom(c.seats, 0)
  {
    PassFreesSeats(c, 0);
    var c' := HarvestPass(c, 0);
    if c' == c then c else Harvest(c')
  }

  /** Where the peer's goodbye leads. */
  function AfterFin(s: State): State {
    match s
    case Established => CloseWait
    case SynReceived => CloseWait
    case FinWait1 => Closing
    case FinWait2 => TimeWait
    case _ => s
  }

  /** How much of an in-order payload was seen before, in 64-bit arithmetic: a SYN at the cursor skips everything. */
  function PayloadSkip(offset: nat, syn: bool): nat {
    (offset - (if syn then 1 else 0)) % WORD
  }

  /** Takes the part of an in-order segment that is new and fits, and its FIN if everything before it is in. */
  function AbsorbBytes(c: Tcb, g: Segment): Out {
    var skip := PayloadSkip(Minus(c.rcvNxt, g.sequence), g.syn);
    var room := if |c.inbox| <= RECEIVE_WINDOW then RECEIVE_WINDOW - |c.inbox| else 0;
    var taken := if skip < |g.payload| then Min(|g.payload| - skip, room) else 0;
    var news := if taken == 0 then [] else g.payload[skip..skip + taken];
    var c1 := c.(inbox := c.inbox + news, rcvNxt := Plus(c.rcvNxt, taken));
    var end := Plus(g.sequence, Length(g));
    var finDone := g.fin && Plus(c1.rcvNxt, 1) == end;
    var c2 := if finDone then c1.(rcvNxt := end, state := AfterFin(c.state)) else c1;
    Out(c2, if taken != 0 || finDone then [PlainAck(c2)] else [])
  }

  // ------------------------------------------------------------------ a whole segment

  /** The work on a segment once the handshake is over. */
  function AbsorbText(c: Tcb, g: Segment): Out {
    var a := AbsorbAck(c, g);
    if a.stop then Out(a.tcb, a.sent)
    else if SeqBeforeEq(Plus(g.sequence, Length(g)), a.tcb.rcvNxt) then Out(a.tcb, a.sent + [PlainAck(a.tcb)])
    else if SeqBefore(a.tcb.rcvNxt, g.sequence) then
      var c' := Harvest(StoreOutOfOrder(a.tcb, g));
      Out(c', a.sent + [PlainAck(c')])
    else
      var b := AbsorbBytes(a.tcb, g);
      Out(Harvest(b.tcb), a.sent + b.sent)
  }

  function AbsorbSegment(c: Tcb, g: Segment): Out {
    if g.rst then Out(GONE, [])
    else
      match c.state
      case Closed => Out(c, [])
      case SynSent =>
        if !(g.syn && g.ack) || g.acknowledgement != c.sndNxt then Out(c, [])
        else
          var c' :=
            c.(rcvNxt := Plus(g.sequence, 1), sndUna := g.acknowledgement, sndWindow := g.window, state := Established);
          Out(c', [PlainAck(c')])
      case SynReceived =>
        if !g.ack then
          Out(c, if g.syn && Plus(g.sequence, 1) == c.rcvNxt && Length(g) == 1
                 then [Outgoing(c, true, true, false, [], c.sndUna)] else [])
        else if g.acknowledgement != c.sndNxt then Out(c, [])
        else AbsorbText(c.(sndUna := g.acknowledgement, state := Established), g)
      case TimeWait => Out(c, [PlainAck(c)])
      case _ => AbsorbText(c, g)
  }

  /** A live connection hears a segment; a new SYN in time-wait ends this connection. */
  function Handle(c: Tcb, g: Segment): Out {
    if c.state.TimeWait? && g.syn && !g.ack then Out(GONE, []) else AbsorbSegment(c, g)
  }

  // ------------------------------------------------------------------ opening

  /** The active open: a SYN at the initial sequence number. */
  function Connect(iss: Seq32): Out {
    var c := GONE.(state := SynSent, sndUna := iss, sndNxt := iss);
    Out(c.(sndNxt := Plus(iss, 1)), [Outgoing(c, true, false, false, [], iss)])
  }

  /** The passive open: a listener's answer to a SYN. */
  function Accept(iss: Seq32, g: Segment): Out {
    var c := GONE.(state := SynReceived, sndUna := iss, sndNxt := iss, rcvNxt := Plus(g.sequence, 1));
    Out(c.(sndNxt := Plus(iss, 1)), [Outgoing(c, true, true, false, [], iss)])
  }
}
