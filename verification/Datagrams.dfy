/**
 UDP datagrams in IPv4 packets: what the senders build, what the receivers check, and that the
 receivers undo the senders.
 */
module Datagrams {
  import opened Wrappers
  import opened Checksum

  const MAX_DATAGRAM: nat := 1500
  const IPV4_HEADER: nat := 20
  const UDP_HEADER: nat := 8
  const PROTOCOL_UDP: Byte := 17
  const TIME_TO_LIVE: Byte := 64
  const LOOPBACK_ADDRESS: nat := 0x7f00_0001
  const ADDRESSES: nat := 0x1_0000_0000

  // ------------------------------------------------------------------ numbers on the wire

  function Word16(w: nat): (b: seq<Byte>)
    ensures |b| == 2
  {
    [w / 256 % 256, w % 256]
  }

  function Word32(w: nat): (b: seq<Byte>)
    ensures |b| == 4
  {
    Word16(w / 65536) + Word16(w % 65536)
  }

  function Read16(b: seq<Byte>, at: nat): nat
    requires at + 2 <= |b|
  {
    var high: nat, low: nat := b[at], b[at + 1];
    256 * high + low
  }

  function Read32(b: seq<Byte>, at: nat): nat
    requires at + 4 <= |b|
  {
    65536 * Read16(b, at) + Read16(b, at + 2)
  }

  /** The words a buffer holds at a place. */
  ghost predicate Holds(b: seq<Byte>, at: nat, part: seq<Byte>) {
    at + |part| <= |b| && b[at..at + |part|] == part
  }

  lemma ReadHeld16(b: seq<Byte>, at: nat, w: nat)
    requires Holds(b, at, Word16(w)) && w < 65536
    ensures Read16(b, at) == w
  {
    var part := b[at..at + 2];
    assert part[0] == b[at] && part[1] == b[at + 1];
  }

  lemma ReadHeld32(b: seq<Byte>, at: nat, w: nat)
    requires Holds(b, at, Word32(w)) && w < ADDRESSES
    ensures Read32(b, at) == w
  {
    var part := b[at..at + 4];
    assert part == Word32(w);
    assert b[at..at + 2] == part[..2] == Word16(w / 65536);
    assert b[at + 2..at + 4] == part[2..] == Word16(w % 65536);
    ReadHeld16(b, at, w / 65536);
    ReadHeld16(b, at + 2, w % 65536);
  }

  // ------------------------------------------------------------------ parsing

  datatype Ipv4View = Ipv4View(headerBytes: nat, totalLength: nat, protocol: Byte, source: nat, destination: nat)
  datatype Ipv4Parsed = Ipv4Ok(view: Ipv4View) | TooShort | BadVersion | BadHeaderWords | BadTotalLength

  function ParseIpv4(b: seq<Byte>): Ipv4Parsed {
    if |b| < IPV4_HEADER then TooShort
    else if b[0] / 16 != 4 then BadVersion
    else if b[0] % 16 < 5 then BadHeaderWords
    else if |b| < b[0] % 16 * 4 then TooShort
    else if Read16(b, 2) < b[0] % 16 * 4 then BadTotalLength
    else Ipv4Ok(Ipv4View(b[0] % 16 * 4, Read16(b, 2), b[9], Read32(b, 12), Read32(b, 16)))
  }

  datatype UdpView = UdpView(sourcePort: nat, destinationPort: nat, length: nat, checksum: nat)

  function ParseUdp(b: seq<Byte>): Option<UdpView> {
    if |b| < UDP_HEADER then None else Some(UdpView(Read16(b, 0), Read16(b, 2), Read16(b, 4), Read16(b, 6)))
  }

  // ------------------------------------------------------------------ what is sent

  /** Loopback traffic comes from the loopback address. */
  function SourceAddressFor(own: nat, destination: nat): nat {
    if destination / 0x100_0000 == 0x7f then LOOPBACK_ADDRESS else own
  }

  function PseudoHeader(source: nat, destination: nat, bytes: nat): (b: seq<Byte>)
    ensures |b| == 12
  {
    Word32(source) + Word32(destination) + [0, PROTOCOL_UDP] + Word16(bytes)
  }

  /** A UDP datagram with this checksum. */
  function UdpBytes(sourcePort: nat, destinationPort: nat, checksum: nat, payload: seq<Byte>): (b: seq<Byte>)
    ensures |b| == UDP_HEADER + |payload|
  {
    Word16(sourcePort) + Word16(destinationPort) + Word16(UDP_HEADER + |payload|) + Word16(checksum) + payload
  }

  /** A sum of zero goes out as all ones, since zero means no checksum. */
  function UdpChecksum(source: nat, destination: nat, sourcePort: nat, destinationPort: nat, payload: seq<Byte>): nat {
    var c := ChecksumOf(PseudoHeader(source, destination, UDP_HEADER + |payload|)
      + UdpBytes(sourcePort, destinationPort, 0, payload));
    if c == 0 then ONES else c
  }

  function UdpDatagram(source: nat, destination: nat, sourcePort: nat, destinationPort: nat,
                       payload: seq<Byte>): seq<Byte> {
    UdpBytes(sourcePort, destinationPort, UdpChecksum(source, destination, sourcePort, destinationPort, payload),
      payload)
  }

  function Ipv4Header(source: nat, destination: nat, protocol: Byte, total: nat, checksum: nat): (b: seq<Byte>)
    ensures |b| == IPV4_HEADER
  {
    [0x45, 0] + Word16(total) + [0, 0, 0, 0] + [TIME_TO_LIVE, protocol] + Word16(checksum) + Word32(source)
      + Word32(destination)
  }

  function Ipv4Packet(source: nat, destination: nat, protocol: Byte, payload: seq<Byte>): seq<Byte> {
    var total := IPV4_HEADER + |payload|;
    Ipv4Header(source, destination, protocol, total, ChecksumOf(Ipv4Header(source, destination, protocol, total, 0)))
      + payload
  }

  // ------------------------------------------------------------------ what is accepted

  datatype Ipv4Outcome = Ipv4Passed(header: Ipv4View, payload: seq<Byte>) | Ipv4Refused(why: Ipv4Parsed)
    | Ipv4BadChecksum | UnknownProtocol

  /** What becomes of a packet; `seats` are the protocols with a handler. */
  function Ipv4Accept(b: seq<Byte>, seats: seq<Byte>): Ipv4Outcome {
    var parsed := ParseIpv4(b);
    if !parsed.Ipv4Ok? then Ipv4Refused(parsed)
    else if ChecksumOf(b[..parsed.view.headerBytes]) != 0 then Ipv4BadChecksum
    else if parsed.view.protocol !in seats then UnknownProtocol
    else
      var end := if parsed.view.totalLength < |b| then parsed.view.totalLength else |b|;
      Ipv4Passed(parsed.view, b[parsed.view.headerBytes..end])
  }

  datatype UdpOutcome =
    | Delivered(sender: nat, senderPort: nat, port: nat, bytes: seq<Byte>)
    | RefusedShort | RefusedLength | RefusedChecksum | Unclaimed

  function UdpAccept(b: seq<Byte>, header: Ipv4View, ports: seq<nat>): UdpOutcome {
    var parsed := ParseUdp(b);
    if parsed.None? then RefusedShort
    else
      var v := parsed.value;
      if v.length < UDP_HEADER || v.length > |b| then RefusedLength
      else if
        v.checksum != 0 && ChecksumOf(PseudoHeader(header.source, header.destination, v.length) + b[..v.length]) != 0
      then RefusedChecksum
      else if v.destinationPort !in ports then Unclaimed
      else Delivered(header.source, v.sourcePort, v.destinationPort, b[UDP_HEADER..v.length])
  }

  // ------------------------------------------------------------------ the receivers undo the senders

  /** A datagram built with its checksum, or all ones for zero, checks out as zero. */
  lemma CheckedIsZero(pre: seq<Byte>, checksum: nat, post: seq<Byte>)
    requires |pre| % 2 == 0 && WordSum(pre + [0, 0] + post) > 0 && checksum <= ONES
    requires var c := ChecksumOf(pre + [0, 0] + post);
             checksum == c || (c == 0 && checksum == ONES)
    ensures ChecksumOf(pre + Word16(checksum) + post) == 0
  {
    hide WordSum, Fold, Word16;
    WordAdds(pre, checksum, post);
    SumsToOnes(WordSum(pre + [0, 0] + post), checksum);
  }

  /** The two changes a ones' complement sum cannot see: none, and one form of zero for the other. */
  predicate Unseen(was: nat, now: nat) {
    was == now || {was, now} == {0, ONES}
  }

  /** One wrong word is noticed, unless all ones stand for zero or zero for all ones. */
  lemma OneWrongWord(pre: seq<Byte>, was: nat, now: nat, post: seq<Byte>)
    requires |pre| % 2 == 0 && was <= ONES && now <= ONES && ChecksumOf(pre + Word16(was) + post) == 0
    requires WordSum(pre + [0, 0] + post) > 0
    ensures ChecksumOf(pre + Word16(now) + post) == 0 <==> Unseen(was, now)
  {
    hide WordSum, Fold, Word16, Unseen;
    WordAdds(pre, was, post);
    WordAdds(pre, now, post);
    SameResidue(WordSum(pre + [0, 0] + post), was, now);
  }

  lemma WordAdds(pre: seq<Byte>, w: nat, post: seq<Byte>)
    requires |pre| % 2 == 0 && w <= ONES
    ensures WordSum(pre + Word16(w) + post) == WordSum(pre + [0, 0] + post) + w
  {
    hide WordSum;
    var high: nat, low: nat := w / 256 % 256, w % 256;
    WordSumField(pre, w / 256 % 256, w % 256, post);
    assert 256 * high + low == w;
  }

  lemma SameResidue(rest: nat, was: nat, now: nat)
    requires rest > 0 && was <= ONES && now <= ONES && Fold(rest + was) == ONES
    ensures Fold(rest + now) == ONES <==> Unseen(was, now)
  {
    var q := (rest + was - 1) / ONES;
    assert rest + was - 1 == ONES * q + (ONES - 1);
    assert {was, now} == {0, ONES} <==> (was == 0 && now == ONES) || (was == ONES && now == 0);
    var d := now - was;
    if d == ONES {
      Residue(rest + now - 1, q + 1, ONES - 1);
    } else if d + ONES == 0 {
      Residue(rest + now - 1, q - 1, ONES - 1);
    } else if d > 0 {
      Residue(rest + now - 1, q + 1, d - 1);
    } else if d < 0 {
      Residue(rest + now - 1, q, ONES - 1 + d);
    }
  }

  lemma PseudoNotZero(source: nat, destination: nat, bytes: nat, rest: seq<Byte>)
    ensures WordSum(PseudoHeader(source, destination, bytes) + rest) > 0
  {
    var front, back := Word32(source) + Word32(destination), Word16(bytes) + rest;
    assert PseudoHeader(source, destination, bytes) + rest == front + [0, PROTOCOL_UDP] + back;
    WordSumField(front, 0, PROTOCOL_UDP, back);
  }

  lemma UdpFields(sourcePort: nat, destinationPort: nat, checksum: nat, payload: seq<Byte>)
    requires sourcePort < 65536 && destinationPort < 65536 && checksum < 65536 && UDP_HEADER + |payload| < 65536
    ensures var b := UdpBytes(sourcePort, destinationPort, checksum, payload);
            ParseUdp(b) == Some(UdpView(sourcePort, destinationPort, UDP_HEADER + |payload|, checksum))
              && b[UDP_HEADER..] == payload
  {
    var b := UdpBytes(sourcePort, destinationPort, checksum, payload);
    assert b[0..2] == Word16(sourcePort) && b[2..4] == Word16(destinationPort);
    assert b[4..6] == Word16(UDP_HEADER + |payload|) && b[6..8] == Word16(checksum);
    ReadHeld16(b, 0, sourcePort);
    ReadHeld16(b, 2, destinationPort);
    ReadHeld16(b, 4, UDP_HEADER + |payload|);
    ReadHeld16(b, 6, checksum);
  }

  lemma UdpChecks(source: nat, destination: nat, sourcePort: nat, destinationPort: nat, payload: seq<Byte>)
    ensures var c := UdpChecksum(source, destination, sourcePort, destinationPort, payload);
            && 0 < c <= ONES
            && ChecksumOf(PseudoHeader(source, destination, UDP_HEADER + |payload|)
                          + UdpDatagram(source, destination, sourcePort, destinationPort, payload)) == 0
  {
    hide WordSum, ChecksumOf, Word16, Word32, PseudoHeader;
    var pseudo := PseudoHeader(source, destination, UDP_HEADER + |payload|);
    var c := UdpChecksum(source, destination, sourcePort, destinationPort, payload);
    var pre := pseudo + Word16(sourcePort) + Word16(destinationPort) + Word16(UDP_HEADER + |payload|);
    ZeroWord();
    ChecksumRange(pre + [0, 0] + payload);
    assert pseudo + UdpBytes(sourcePort, destinationPort, 0, payload) == pre + [0, 0] + payload;
    assert pseudo + UdpBytes(sourcePort, destinationPort, c, payload) == pre + Word16(c) + payload;
    PseudoNotZero(source, destination, UDP_HEADER + |payload|, UdpBytes(sourcePort, destinationPort, 0, payload));
    CheckedIsZero(pre, c, payload);
  }

  lemma ZeroWord()
    ensures Word16(0) == [0, 0]
  {
  }

  lemma ChecksumRange(b: seq<Byte>)
    ensures 0 <= ChecksumOf(b) <= ONES
  {
  }

  /** What the UDP sender builds the UDP receiver delivers, ports and bytes alike. */
  lemma UdpRoundTrip(header: Ipv4View, sourcePort: nat, destinationPort: nat, payload: seq<Byte>, ports: seq<nat>)
    requires sourcePort < 65536 && destinationPort < 65536 && UDP_HEADER + |payload| < 65536 && destinationPort in ports
    ensures var datagram := UdpDatagram(header.source, header.destination, sourcePort, destinationPort, payload);
            UdpAccept(datagram, header, ports) == Delivered(header.source, sourcePort, destinationPort, payload)
  {
    hide ParseUdp, ChecksumOf, UdpBytes, UdpChecksum, PseudoHeader;
    var b := UdpDatagram(header.source, header.destination, sourcePort, destinationPort, payload);
    UdpChecks(header.source, header.destination, sourcePort, destinationPort, payload);
    UdpFields(sourcePort, destinationPort,
      UdpChecksum(header.source, header.destination, sourcePort, destinationPort, payload), payload);
    assert b[..UDP_HEADER + |payload|] == b && b[UDP_HEADER..UDP_HEADER + |payload|] == b[UDP_HEADER..];
  }

  lemma HeaderChecks(source: nat, destination: nat, protocol: Byte, total: nat)
    ensures var c := ChecksumOf(Ipv4Header(source, destination, protocol, total, 0));
            0 <= c <= ONES && ChecksumOf(Ipv4Header(source, destination, protocol, total, c)) == 0
  {
    hide WordSum, ChecksumOf, Word16, Word32;
    var c := ChecksumOf(Ipv4Header(source, destination, protocol, total, 0));
    var pre := [0x45, 0] + Word16(total) + [0, 0, 0, 0] + [TIME_TO_LIVE, protocol];
    var post := Word32(source) + Word32(destination);
    ZeroWord();
    ChecksumRange(Ipv4Header(source, destination, protocol, total, 0));
    assert Ipv4Header(source, destination, protocol, total, 0) == pre + [0, 0] + post;
    assert Ipv4Header(source, destination, protocol, total, c) == pre + Word16(c) + post;
    HeaderNotZero(pre + [0, 0] + post);
    CheckedIsZero(pre, c, post);
  }

  lemma HeaderNotZero(b: seq<Byte>)
    requires |b| >= 2 && b[0] > 0
    ensures WordSum(b) > 0
  {
  }

  lemma HeaderFields(source: nat, destination: nat, protocol: Byte, total: nat, checksum: nat, rest: seq<Byte>)
    requires source < ADDRESSES && destination < ADDRESSES && IPV4_HEADER <= total < 65536
    ensures ParseIpv4(Ipv4Header(source, destination, protocol, total, checksum) + rest)
            == Ipv4Ok(Ipv4View(IPV4_HEADER, total, protocol, source, destination))
  {
    hide Read32;
    var b := Ipv4Header(source, destination, protocol, total, checksum) + rest;
    assert b[2..4] == Word16(total) && b[12..16] == Word32(source) && b[16..20] == Word32(destination);
    ReadHeld16(b, 2, total);
    ReadHeld32(b, 12, source);
    ReadHeld32(b, 16, destination);
  }

  /** What the IPv4 sender wraps the IPv4 receiver unwraps, whatever padding the carrier added. */
  lemma Ipv4RoundTrip(source: nat, destination: nat, protocol: Byte, payload: seq<Byte>, padding: seq<Byte>,
                      seats: seq<Byte>)
    requires source < ADDRESSES && destination < ADDRESSES && IPV4_HEADER + |payload| < 65536 && protocol in seats
    ensures Ipv4Accept(Ipv4Packet(source, destination, protocol, payload) + padding, seats)
            == Ipv4Passed(Ipv4View(IPV4_HEADER, IPV4_HEADER + |payload|, protocol, source, destination), payload)
  {
    hide ParseIpv4, ChecksumOf, Ipv4Header;
    var total := IPV4_HEADER + |payload|;
    var c := ChecksumOf(Ipv4Header(source, destination, protocol, total, 0));
    var header := Ipv4Header(source, destination, protocol, total, c);
    var b := Ipv4Packet(source, destination, protocol, payload) + padding;
    HeaderChecks(source, destination, protocol, total);
    HeaderFields(source, destination, protocol, total, c, payload + padding);
    assert b == header + (payload + padding);
    assert b[..IPV4_HEADER] == header && b[IPV4_HEADER..total] == payload;
  }

  /**
   End to end: a payload the UDP sender accepts, wrapped in IPv4 by a module with the same own address
   and padded by the carrier, passes both checks and is delivered with its ports and bytes.
   */
  lemma RoundTrip(own: nat, destination: nat, sourcePort: nat, destinationPort: nat, payload: seq<Byte>,
                  padding: seq<Byte>, seats: seq<Byte>, ports: seq<nat>)
    requires own < ADDRESSES && destination < ADDRESSES && sourcePort < 65536 && destinationPort < 65536
    requires |payload| <= MAX_DATAGRAM - IPV4_HEADER - UDP_HEADER && PROTOCOL_UDP in seats && destinationPort in ports
    ensures var source := SourceAddressFor(own, destination);
            var datagram := UdpDatagram(source, destination, sourcePort, destinationPort, payload);
            var wire := Ipv4Packet(source, destination, PROTOCOL_UDP, datagram) + padding;
            var passed := Ipv4Accept(wire, seats);
            && passed.Ipv4Passed?
            && UdpAccept(passed.payload, passed.header, ports)
               == Delivered(source, sourcePort, destinationPort, payload)
  {
    hide Ipv4Packet, Ipv4Accept, UdpAccept, UdpChecksum;
    var source := SourceAddressFor(own, destination);
    var datagram := UdpDatagram(source, destination, sourcePort, destinationPort, payload);
    Ipv4RoundTrip(source, destination, PROTOCOL_UDP, datagram, padding, seats);
    UdpRoundTrip(Ipv4View(IPV4_HEADER, IPV4_HEADER + |datagram|, PROTOCOL_UDP, source, destination), sourcePort,
      destinationPort, payload, ports);
  }

  /**
   Every packet carries version 4, a header of five words, its whole length, 64 hops to live, the
   protocol, the module's own address unless it goes to 127.0.0.0/8, and its destination.
   */
  lemma PacketCarries(own: nat, destination: nat, protocol: Byte, payload: seq<Byte>)
    requires own < ADDRESSES && destination < ADDRESSES && IPV4_HEADER + |payload| < 65536
    ensures var packet := Ipv4Packet(SourceAddressFor(own, destination), destination, protocol, payload);
            && |packet| == 20 + |payload| && packet[0] == 0x45 && packet[8] == 64 && packet[9] == protocol
            && Read16(packet, 2) == |packet| && packet[20..] == payload
            && Read32(packet, 12) == (if 0x7f00_0000 <= destination < 0x8000_0000 then 0x7f00_0001 else own)
            && Read32(packet, 16) == destination
  {
    hide ChecksumOf, Read16, Read32;
    var source, total := SourceAddressFor(own, destination), IPV4_HEADER + |payload|;
    HeaderFields(source, destination, protocol, total,
      ChecksumOf(Ipv4Header(source, destination, protocol, total, 0)), payload);
  }

  // ------------------------------------------------------------------ one word garbled on the way

  /** The bytes with the word at `at` replaced. */
  function Altered(b: seq<Byte>, at: nat, now: nat): (r: seq<Byte>)
    requires at + 2 <= |b|
    ensures |r| == |b|
  {
    b[..at] + Word16(now) + b[at + 2..]
  }

  lemma WordAt(b: seq<Byte>, at: nat)
    requires at + 2 <= |b|
    ensures Word16(Read16(b, at)) == b[at..at + 2] && Read16(b, at) <= ONES && Altered(b, at, Read16(b, at)) == b
  {
    var high: nat, low: nat := b[at], b[at + 1];
    assert (256 * high + low) / 256 % 256 == high && (256 * high + low) % 256 == low;
    assert b[at..at + 2] == [b[at], b[at + 1]];
  }

  lemma AlteredRead(b: seq<Byte>, at: nat, now: nat, other: nat)
    requires at + 2 <= |b| && other + 2 <= |b| && now <= ONES && (other == at || other + 2 <= at || at + 2 <= other)
    ensures Read16(Altered(b, at, now), other) == if other == at then now else Read16(b, other)
  {
    var r := Altered(b, at, now);
    if other == at {
      assert r[at..at + 2] == Word16(now);
      ReadHeld16(r, at, now);
    }
  }

  /** A word altered behind an even front changes the verdict of the sum unless the change is unseen. */
  lemma AlteredSum(front: seq<Byte>, b: seq<Byte>, at: nat, now: nat)
    requires |front| % 2 == 0 && at % 2 == 0 && at + 2 <= |b| && now <= ONES
    requires ChecksumOf(front + b) == 0 && WordSum(front + b[..at] + [0, 0] + b[at + 2..]) > 0
    ensures ChecksumOf(front + Altered(b, at, now)) == 0 <==> Unseen(Read16(b, at), now)
  {
    hide WordSum, ChecksumOf, Word16, Read16;
    var pre, post := front + b[..at], b[at + 2..];
    WordAt(b, at);
    assert front + b == pre + Word16(Read16(b, at)) + post;
    assert front + Altered(b, at, now) == pre + Word16(now) + post;
    OneWrongWord(pre, Read16(b, at), now, post);
  }

  /**
   A datagram with one word garbled, any but the length: the receiver notices, unless the word went
   from one form of zero to the other, or the garbled word is the checksum and became zero, which
   switches the test off. A length beyond what arrived is refused as a length.
   */
  lemma UdpNotices(header: Ipv4View, sourcePort: nat, destinationPort: nat, payload: seq<Byte>,
                   ports: seq<nat>, at: nat, now: nat)
    requires sourcePort < 65536 && destinationPort < 65536 && UDP_HEADER + |payload| < 65536
    requires at % 2 == 0 && at + 2 <= UDP_HEADER + |payload| && now <= ONES
    ensures var sent := UdpDatagram(header.source, header.destination, sourcePort, destinationPort, payload);
            var heard := UdpAccept(Altered(sent, at, now), header, ports);
            if at == 4 then now > |sent| ==> heard == RefusedLength
            else heard == RefusedChecksum <==> !Unseen(Read16(sent, at), now) && !(at == 6 && now == 0)
  {
    hide WordSum, ChecksumOf, PseudoHeader, UdpBytes, UdpChecksum, Word16, Read16, Altered;
    var sent := UdpDatagram(header.source, header.destination, sourcePort, destinationPort, payload);
    var pseudo := PseudoHeader(header.source, header.destination, |sent|);
    var c := UdpChecksum(header.source, header.destination, sourcePort, destinationPort, payload);
    UdpChecks(header.source, header.destination, sourcePort, destinationPort, payload);
    UdpFields(sourcePort, destinationPort, c, payload);
    var got := Altered(sent, at, now);
    AlteredRead(sent, at, now, 4);
    AlteredRead(sent, at, now, 6);
    assert got[..|sent|] == got;
    if at != 4 {
      PseudoNotZero(header.source, header.destination, |sent|, sent[..at] + [0, 0] + sent[at + 2..]);
      assert pseudo + (sent[..at] + [0, 0] + sent[at + 2..]) == pseudo + sent[..at] + [0, 0] + sent[at + 2..];
      AlteredSum(pseudo, sent, at, now);
    }
  }

  /** Garbling a word of the header leaves the payload and the header's other bytes. */
  lemma AlteredHeader(header: seq<Byte>, payload: seq<Byte>, at: nat, now: nat)
    requires |header| == IPV4_HEADER && header[0] == 0x45 && at % 2 == 0 && at + 2 <= IPV4_HEADER && now <= ONES
    requires at == 0 ==> now / 256 == 0x45
    ensures var got := Altered(header + payload, at, now);
            && got[..IPV4_HEADER] == Altered(header, at, now) && got[0] == 0x45
            && Read16(header + payload, at) == Read16(header, at)
  {
    var got := Altered(header + payload, at, now);
    assert got == header[..at] + Word16(now) + header[at + 2..] + payload;
  }

  /** The version byte and the time to live keep the sum of the other words above zero. */
  lemma HeaderStart(source: nat, destination: nat, protocol: Byte, total: nat, checksum: nat, at: nat)
    requires at % 2 == 0 && at + 2 <= IPV4_HEADER
    ensures var header := Ipv4Header(source, destination, protocol, total, checksum);
            header[0] == 0x45 && WordSum(header[..at] + [0, 0] + header[at + 2..]) > 0
  {
    hide WordSum, Word16, Word32;
    var header := Ipv4Header(source, destination, protocol, total, checksum);
    var rest := header[..at] + [0, 0] + header[at + 2..];
    if at > 0 {
      HeaderNotZero(rest);
    } else {
      assert rest == rest[..8] + [TIME_TO_LIVE, protocol] + rest[10..];
      WordSumField(rest[..8], TIME_TO_LIVE, protocol, rest[10..]);
    }
  }

  /**
   A packet with one word of its header garbled, as long as it still claims version 4 and a header of
   twenty bytes: the receiver notices, unless the word went from one form of zero to the other. A
   total length shorter than the header is refused as a length.
   */
  lemma Ipv4Notices(source: nat, destination: nat, protocol: Byte, payload: seq<Byte>, seats: seq<Byte>, at: nat,
                    now: nat)
    requires source < ADDRESSES && destination < ADDRESSES && IPV4_HEADER + |payload| < 65536
    requires at % 2 == 0 && at + 2 <= IPV4_HEADER && now <= ONES && (at == 0 ==> now / 256 == 0x45)
    ensures var sent := Ipv4Packet(source, destination, protocol, payload);
            var heard := Ipv4Accept(Altered(sent, at, now), seats);
            if at == 2 && now < IPV4_HEADER then heard == Ipv4Refused(BadTotalLength)
            else heard == Ipv4BadChecksum <==> !Unseen(Read16(sent, at), now)
  {
    hide WordSum, ChecksumOf, Word16, Word32, Read16, Read32, Altered, Ipv4Header;
    var total := IPV4_HEADER + |payload|;
    var c := ChecksumOf(Ipv4Header(source, destination, protocol, total, 0));
    var header := Ipv4Header(source, destination, protocol, total, c);
    var sent := Ipv4Packet(source, destination, protocol, payload);
    var got := Altered(sent, at, now);
    HeaderChecks(source, destination, protocol, total);
    HeaderFields(source, destination, protocol, total, c, payload);
    HeaderStart(source, destination, protocol, total, c, at);
    AlteredHeader(header, payload, at, now);
    AlteredRead(sent, at, now, 2);
    assert [] + header == header && [] + Altered(header, at, now) == Altered(header, at, now);
    assert [] + header[..at] + [0, 0] + header[at + 2..] == header[..at] + [0, 0] + header[at + 2..];
    AlteredSum([], header, at, now);
  }

  // ------------------------------------------------------------------ the modules

  /** Copies bytes into a buffer. */
  method WriteBytes(buffer: array<Byte>, at: nat, src: seq<Byte>)
    requires at + |src| <= buffer.Length
    modifies buffer
    ensures buffer[..at + |src|] == old(buffer[..at]) + src
    ensures forall i :: at + |src| <= i < buffer.Length ==> buffer[i] == old(buffer[i])
  {
    var i := 0;
    while i < |src|
      invariant 0 <= i <= |src|
      invariant forall k :: 0 <= k < at ==> buffer[k] == old(buffer[k])
      invariant forall k :: 0 <= k < i ==> buffer[at + k] == src[k]
      invariant forall k :: at + i <= k < buffer.Length ==> buffer[k] == old(buffer[k])
    {
      buffer[at + i] := src[i];
      i := i + 1;
    }
  }

  method Sum(first: seq<Byte>, second: seq<Byte>) returns (c: nat)
    requires |first| + |second| <= MOST
    ensures c == ChecksumOf(first + second)
  {
    var builder := new InternetChecksum();
    builder.Add(first);
    builder.Add(second);
    c := builder.Value();
    assert [] + first + second == first + second;
  }

  class UdpModule {
    var ownAddress: nat
    var ports: seq<nat>
    var wired: bool
    /** The UDP datagrams handed to the network layer, with their destinations. */
    var sent: seq<(nat, seq<Byte>)>

    constructor (ownAddress: nat, wired: bool)
      ensures this.ownAddress == ownAddress && ports == [] && this.wired == wired && sent == []
    {
      this.ownAddress, this.wired := ownAddress, wired;
      ports, sent := [], [];
    }

    method Send(destination: nat, sourcePort: nat, destinationPort: nat, payload: seq<Byte>) returns (ok: bool)
      requires ownAddress < ADDRESSES && destination < ADDRESSES && sourcePort < 65536 && destinationPort < 65536
      modifies this`sent
      ensures ok <==> |payload| <= MAX_DATAGRAM - IPV4_HEADER - UDP_HEADER && wired
      ensures var source := SourceAddressFor(ownAddress, destination);
              var datagram := UdpDatagram(source, destination, sourcePort, destinationPort, payload);
              sent == if ok then old(sent) + [(destination, datagram)] else old(sent)
    {
      hide ChecksumOf, Word16, Word32, PseudoHeader;
      if |payload| > MAX_DATAGRAM - IPV4_HEADER - UDP_HEADER {
        return false;
      }
      var outgoing := new Byte[MAX_DATAGRAM](_ => 0);
      var bytes := UDP_HEADER + |payload|;
      WriteBytes(outgoing, 0, Word16(sourcePort));
      WriteBytes(outgoing, 2, Word16(destinationPort));
      WriteBytes(outgoing, 4, Word16(bytes));
      ghost var front := Word16(sourcePort) + Word16(destinationPort) + Word16(bytes);
      assert outgoing[..6] == front;
      WriteBytes(outgoing, 6, Word16(0));
      WriteBytes(outgoing, UDP_HEADER, payload);
      assert outgoing[..bytes] == UdpBytes(sourcePort, destinationPort, 0, payload);
      Payload(outgoing[..], UDP_HEADER, front + Word16(0), payload);
      var source := SourceAddressFor(ownAddress, destination);
      var checksum := Sum(PseudoHeader(source, destination, bytes), outgoing[..bytes]);
      if checksum == 0 {
        checksum := ONES;
      }
      assert outgoing[..6] == front;
      WriteBytes(outgoing, 6, Word16(checksum));
      assert outgoing[..UDP_HEADER] == front + Word16(checksum);
      assert outgoing[UDP_HEADER..bytes] == payload;
      assert outgoing[..bytes] == outgoing[..UDP_HEADER] + outgoing[UDP_HEADER..bytes];
      if !wired {
        return false;
      }
      sent := sent + [(destination, outgoing[..bytes])];
      ok := true;
    }

    method Handle(b: seq<Byte>, header: Ipv4View) returns (r: UdpOutcome)
      ensures r == UdpAccept(b, header, ports)
    {
      hide ChecksumOf, PseudoHeader;
      var parsed := ParseUdp(b);
      if parsed.None? {
        return RefusedShort;
      }
      var view := parsed.value;
      if view.length < UDP_HEADER || view.length > |b| {
        return RefusedLength;
      }
      if view.checksum != 0 {
        var check := Sum(PseudoHeader(header.source, header.destination, view.length), b[..view.length]);
        if check != 0 {
          return RefusedChecksum;
        }
      }
      var index := 0;
      while index < |ports|
        invariant 0 <= index <= |ports| && view.destinationPort !in ports[..index]
      {
        if ports[index] == view.destinationPort {
          return Delivered(header.source, view.sourcePort, view.destinationPort, b[UDP_HEADER..view.length]);
        }
        index := index + 1;
      }
      assert ports[..index] == ports;
      r := Unclaimed;
    }
  }

  lemma Payload(b: seq<Byte>, at: nat, front: seq<Byte>, payload: seq<Byte>)
    requires at == |front| && at + |payload| <= |b| && b[..at + |payload|] == front + payload
    ensures b[..at] == front && b[at..at + |payload|] == payload
  {
    assert b[..at] == b[..at + |payload|][..at];
    assert b[at..at + |payload|] == b[..at + |payload|][at..];
  }

  /** The header's fields, the checksum still zero. */
  method WriteHeader(outgoing: array<Byte>, source: nat, destination: nat, protocol: Byte, total: nat)
    requires outgoing.Length >= IPV4_HEADER
    modifies outgoing
    ensures outgoing[..IPV4_HEADER] == Ipv4Header(source, destination, protocol, total, 0)
  {
    hide Word16, Word32;
    WriteBytes(outgoing, 0, [0x45, 0]);
    WriteBytes(outgoing, 2, Word16(total));
    WriteBytes(outgoing, 4, [0, 0, 0, 0]);
    WriteBytes(outgoing, 8, [TIME_TO_LIVE, protocol]);
    assert outgoing[..10] == [0x45, 0] + Word16(total) + [0, 0, 0, 0] + [TIME_TO_LIVE, protocol];
    WriteBytes(outgoing, 10, Word16(0));
    WriteBytes(outgoing, 12, Word32(source));
    WriteBytes(outgoing, 16, Word32(destination));
  }

  lemma ChecksumPlaced(source: nat, destination: nat, protocol: Byte, total: nat, checksum: nat)
    ensures var plain := Ipv4Header(source, destination, protocol, total, 0);
            plain[..10] + Word16(checksum) + plain[12..] == Ipv4Header(source, destination, protocol, total, checksum)
  {
    hide Word16, Word32;
  }

  class Ipv4Module {
    var ownAddress: nat
    var seats: seq<Byte>
    var wired: bool
    /** The packets handed to the carrier. */
    var sent: seq<seq<Byte>>

    constructor (ownAddress: nat, wired: bool)
      ensures this.ownAddress == ownAddress && seats == [] && this.wired == wired && sent == []
    {
      this.ownAddress, this.wired := ownAddress, wired;
      seats, sent := [], [];
    }

    method Send(destination: nat, protocol: Byte, payload: seq<Byte>) returns (ok: bool)
      requires ownAddress < ADDRESSES && destination < ADDRESSES
      modifies this`sent
      ensures ok <==> wired && |payload| <= MAX_DATAGRAM - IPV4_HEADER
      ensures var packet := Ipv4Packet(SourceAddressFor(ownAddress, destination), destination, protocol, payload);
              sent == if ok then old(sent) + [packet] else old(sent)
    {
      hide ChecksumOf, Word16, Word32, Ipv4Header;
      if !wired || |payload| > MAX_DATAGRAM - IPV4_HEADER {
        return false;
      }
      var outgoing := new Byte[MAX_DATAGRAM](_ => 0);
      var total := IPV4_HEADER + |payload|;
      var source := SourceAddressFor(ownAddress, destination);
      WriteHeader(outgoing, source, destination, protocol, total);
      ghost var plain := Ipv4Header(source, destination, protocol, total, 0);
      WriteBytes(outgoing, IPV4_HEADER, payload);
      Payload(outgoing[..], IPV4_HEADER, plain, payload);
      var checksum := Sum([], outgoing[..IPV4_HEADER]);
      assert [] + outgoing[..IPV4_HEADER] == outgoing[..IPV4_HEADER] == plain;
      assert outgoing[12..IPV4_HEADER] == plain[12..] && outgoing[..10] == plain[..10];
      WriteBytes(outgoing, 10, Word16(checksum));
      ChecksumPlaced(source, destination, protocol, total, checksum);
      assert outgoing[12..IPV4_HEADER] == plain[12..] && outgoing[IPV4_HEADER..total] == payload;
      assert outgoing[..total] == outgoing[..12] + outgoing[12..IPV4_HEADER] + outgoing[IPV4_HEADER..total];
      sent := sent + [outgoing[..total]];
      ok := true;
    }

    method Handle(b: seq<Byte>) returns (r: Ipv4Outcome)
      ensures r == Ipv4Accept(b, seats)
    {
      hide ChecksumOf;
      var parsed := ParseIpv4(b);
      if !parsed.Ipv4Ok? {
        return Ipv4Refused(parsed);
      }
      var view := parsed.view;
      var check := Sum([], b[..view.headerBytes]);
      assert [] + b[..view.headerBytes] == b[..view.headerBytes];
      if check != 0 {
        return Ipv4BadChecksum;
      }
      var effective := if view.totalLength < |b| then view.totalLength else |b|;
      var index := 0;
      while index < |seats|
        invariant 0 <= index <= |seats| && view.protocol !in seats[..index]
      {
        if seats[index] == view.protocol {
          return Ipv4Passed(view, b[view.headerBytes..effective]);
        }
        index := index + 1;
      }
      assert seats[..index] == seats;
      r := UnknownProtocol;
    }
  }
}
