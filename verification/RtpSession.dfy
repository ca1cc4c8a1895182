/**
 Sending: one RTP packet to one peer, and one RTP-MIDI packet to every peer of the session.
 */
module RtpSession {
  import opened Words
  import opened Wrappers
  import opened MidiList
  import opened RtpMidi
  import opened RtpPacket
  import opened PeerTable

  /** The buffers of an I/O vector one after the other. */
  function Gather(iov: seq<seq<Byte>>): seq<Byte> {
    if iov == [] then [] else Gather(iov[..|iov| - 1]) + iov[|iov| - 1]
  }

  function NextNumber(outSeqnum: Word): Half {
    (outSeqnum + 1) % 0x1_0000
  }

  /**
   RTPSessionSendPacket without padding and extension. Whether the socket takes the whole packet is
   up to the environment; only then the peer's sequence number advances. A socket that takes nothing
   is reported as success, too: the result is then the number of bytes.
   */
  method SendPacket(session: Session, peer: Peer, fields: Fields, iov: seq<seq<Byte>>)
    returns (result: int, totalSize: nat, taken: int, sent: bool)
    requires session.buffer.Length == 512 && |fields.csrc| <= 16 && |iov| <= 16
    modifies session`wire, session.buffer, peer`outSeqnum
    ensures result == if sent then 0 else if taken == totalSize then 1 else taken
    ensures result == 0 <==> sent || taken == 0
    ensures sent ==> taken == totalSize
    ensures var packet := HeaderOf(fields.(ssrc := session.ssrc, sequenceNumber := NextNumber(old(peer.outSeqnum))))
                          + Gather(iov);
            && totalSize == |packet|
            && session.wire == old(session.wire) + [Packet(peer, NextNumber(old(peer.outSeqnum)), packet, taken, sent)]
    ensures peer.outSeqnum == if sent then NextNumber(old(peer.outSeqnum)) else old(peer.outSeqnum)
  {
    var number := NextNumber(peer.outSeqnum);
    var f := fields.(ssrc := session.ssrc, sequenceNumber := number);
    ghost var before := session.buffer[..];
    var ok, written := EncodeRtpHeader(f, session.buffer, session.buffer.Length);
    WroteSlice(before, session.buffer[..], 0, HeaderOf(f));
    var gathered, iovlen := session.buffer[..written], 1;
    totalSize := written;
    var payloadSize := 0;
    while iovlen - 1 < |iov|
      invariant 1 <= iovlen <= |iov| + 1
      invariant gathered == HeaderOf(f) + Gather(iov[..iovlen - 1])
      invariant payloadSize == |Gather(iov[..iovlen - 1])|
    {
      assert iov[..iovlen][..iovlen - 1] == iov[..iovlen - 1];
      payloadSize := payloadSize + |iov[iovlen - 1]|;
      gathered, iovlen := gathered + iov[iovlen - 1], iovlen + 1;
    }
    assert iov[..iovlen - 1] == iov;
    totalSize := totalSize + payloadSize;
    taken := *;
    var flags: int := *;
    sent := taken == totalSize && flags == 0;
    session.wire := session.wire + [Packet(peer, number, gathered, taken, sent)];
    if taken != totalSize {
      result := taken;
    } else if flags != 0 {
      result := 1;
    } else {
      peer.outSeqnum := number;
      result := 0;
    }
  }

  /** When sending is reported as success: the last packet was sent, or the socket took nothing of it. */
  ghost predicate ReportsSuccess(packets: seq<Packet>) {
    packets == [] || packets[|packets| - 1].sent || packets[|packets| - 1].taken == 0
  }

  /** What one packet of a broadcast is: the RTP header of this peer in front of the common payload. */
  ghost predicate IsBroadcast(packet: Packet, peer: Peer, ssrc: Word, fields: Fields, payload: seq<Byte>) {
    && packet.peer == peer
    && packet.bytes == HeaderOf(fields.(ssrc := ssrc, sequenceNumber := packet.sequenceNumber)) + payload
  }

  /** One packet for every one of the peers, in this order. */
  ghost predicate AreBroadcasts(packets: seq<Packet>, peers: seq<Peer>,
                                ssrc: Word, fields: Fields, payload: seq<Byte>) {
    |packets| == |peers| && forall i :: 0 <= i < |peers| ==> IsBroadcast(packets[i], peers[i], ssrc, fields, payload)
  }

  lemma OneMore(wire: seq<Packet>, packets: seq<Packet>, packet: Packet, peers: seq<Peer>, peer: Peer,
                ssrc: Word, fields: Fields, payload: seq<Byte>)
    requires AreBroadcasts(packets, peers, ssrc, fields, payload) && IsBroadcast(packet, peer, ssrc, fields, payload)
    ensures AreBroadcasts(packets + [packet], peers + [peer], ssrc, fields, payload)
    ensures (wire + packets) + [packet] == wire + (packets + [packet])
    ensures ReportsSuccess(packets + [packet]) <==> ReportsSuccess([packet])
  {
  }

  lemma NextNumberIs(n: nat)
    ensures NextNumber(n % 0x1_0000) == (n + 1) % 0x1_0000
  {
  }

  /** One more packet on the wire keeps the numbering, and the count of every peer but its own. */
  lemma WireGrows(wire: seq<Packet>, packet: Packet, p: Peer)
    requires packet.sequenceNumber == (SentTo(wire, packet.peer) + 1) % 0x1_0000
    ensures packet.peer != p || !packet.sent ==> SentTo(wire + [packet], p) == SentTo(wire, p)
    ensures packet.peer == p && packet.sent ==> SentTo(wire + [packet], p) % 0x1_0000 == packet.sequenceNumber
  {
    SentToAppend(wire, packet, p);
  }

  /** Sending to a stored peer keeps the session valid and its table as it is. */
  method SendToStored(session: Session, peer: Peer, fields: Fields, iov: seq<seq<Byte>>)
    returns (result: int, ghost packet: Packet)
    requires session.Valid() && peer in session.Stored() && |fields.csrc| <= 16 && |iov| <= 16
    modifies session`wire, session.buffer, session.Stored()`outSeqnum
    ensures session.Valid() && session.Stored() == old(session.Stored())
    ensures session.peers[..] == old(session.peers[..])
    ensures session.wire == old(session.wire) + [packet]
    ensures IsBroadcast(packet, peer, session.ssrc, fields, Gather(iov))
    ensures result == 0 <==> ReportsSuccess([packet])
  {
    ghost var wire := session.wire;
    NextNumberIs(SentTo(wire, peer));
    var total, taken, sent;
    result, total, taken, sent := SendPacket(session, peer, fields, iov);
    packet := session.wire[|wire|];
    NumberedAppend(wire, packet);
    forall p | p in session.Stored()
      ensures p.outSeqnum == SentTo(session.wire, p) % 0x1_0000
    {
      WireGrows(wire, packet, p);
    }
  }

  /** One turn of the loop for the peer in `slot`: the packet for it, and the next peer. */
  method BroadcastTurn(session: Session, peer: Peer, fields: Fields, iov: seq<seq<Byte>>, ghost slot: nat)
    returns (result: int, next: Peer?, ghost nextSlot: nat, ghost packet: Packet)
    requires session.Valid() && |fields.csrc| <= 16 && |iov| <= 16
    requires slot < 16 && session.peers[slot] == peer
    modifies session`wire, session.buffer, session.Stored()`outSeqnum
    ensures session.Valid() && session.Stored() == old(session.Stored())
    ensures session.peers[..] == old(session.peers[..])
    ensures session.wire == old(session.wire) + [packet]
    ensures IsBroadcast(packet, peer, session.ssrc, fields, Gather(iov))
    ensures result == 0 <==> ReportsSuccess([packet])
    ensures slot < nextSlot <= 16 && (next == null <==> nextSlot == 16)
    ensures nextSlot < 16 ==> session.peers[nextSlot] == next
    ensures Occupied(session.peers[..][..nextSlot]) == Occupied(session.peers[..][..slot]) + [peer]
  {
    result, packet := SendToStored(session, peer, fields, iov);
    var ok;
    ok, next, nextSlot := session.NextPeer(peer, slot);
    OccupiedUpTo(session.peers[..], slot, nextSlot);
  }

  /**
   The loop over the peers of RTPMIDISessionSend: one attempt for every peer in the table, in slot
   order, all with the same payload.
   */
  method Broadcast(session: Session, fields: Fields, iov: seq<seq<Byte>>)
    returns (result: int, ghost packets: seq<Packet>)
    requires session.Valid() && |fields.csrc| <= 16 && |iov| <= 16
    modifies session`wire, session.buffer, session.Stored()`outSeqnum
    ensures session.Valid()
    ensures session.peers[..] == old(session.peers[..])
    ensures session.wire == old(session.wire) + packets
    ensures AreBroadcasts(packets, Occupied(session.peers[..]), session.ssrc, fields, Gather(iov))
    ensures result == 0 <==> ReportsSuccess(packets)
  {
    result, packets := 0, [];
    ghost var slots, done := session.peers[..], [];
    var ok, peer;
    ghost var slot;
    ok, peer, slot := session.NextPeer(null, 0);
    OccupiedOfEmpty(slots[..slot]);
    while peer != null
      invariant session.Valid() && session.peers[..] == slots && session.Stored() == old(session.Stored())
      invariant slot <= 16 && (peer == null <==> slot == 16) && (slot < 16 ==> slots[slot] == peer)
      invariant session.wire == old(session.wire) + packets && done == Occupied(slots[..slot])
      invariant AreBroadcasts(packets, done, session.ssrc, fields, Gather(iov))
      invariant result == 0 <==> ReportsSuccess(packets)
      decreases 16 - slot
    {
      ghost var here := peer;
      ghost var packet;
      result, peer, slot, packet := BroadcastTurn(session, peer, fields, iov, slot);
      OneMore(old(session.wire), packets, packet, done, here, session.ssrc, fields, Gather(iov));
      packets, done := packets + [packet], done + [here];
    }
    assert slots[..16] == slots;
  }

  /** Between two neighbouring occupied slots there is nothing. */
  lemma OccupiedUpTo(slots: seq<Peer?>, from: nat, to: nat)
    requires from < to <= |slots| && slots[from] != null
    requires forall j :: from < j < to ==> slots[j] == null
    ensures Occupied(slots[..to]) == Occupied(slots[..from]) + [slots[from]]
  {
    OccupiedAt(slots[..to], from);
    OccupiedOne(slots[from]);
    OccupiedOfEmpty(slots[..to][from + 1..]);
    assert slots[..to][..from] == slots[..from];
  }

  /** The header fields that RTPMIDISessionSend leaves to a receiver. */
  function MidiFields(ssrc: Word, sequenceNumber: Half, timestamp: int): Fields {
    Fields(false, 97, sequenceNumber, timestamp % 0x1_0000_0000, ssrc, [])
  }

  /** A receiver of RTP finds no marker, the payload type 97 and no contributing source in a MIDI packet. */
  lemma MidiPacketParses(ssrc: Word, sequenceNumber: Half, timestamp: int, payload: seq<Byte>)
    ensures ParseRtp(HeaderOf(MidiFields(ssrc, sequenceNumber, timestamp)) + payload)
         == Some((Fields(false, 97, sequenceNumber, timestamp % 0x1_0000_0000, ssrc, []), payload))
  {
    RtpRoundTrip(MidiFields(ssrc, sequenceNumber, timestamp), payload);
  }

  /** A receiver of RTP finds no marker, the payload type 97, no contributing source, and this payload. */
  predicate ParsesAsMidi(packet: Packet, ssrc: Word, timestamp: int, payload: seq<Byte>) {
    ParseRtp(packet.bytes)
    == Some((Fields(false, 97, packet.sequenceNumber, timestamp % 0x1_0000_0000, ssrc, []), payload))
  }

  lemma MidiPacketsParse(packets: seq<Packet>, ssrc: Word, timestamp: int, payload: seq<Byte>)
    requires forall i :: 0 <= i < |packets| ==>
               packets[i].bytes == HeaderOf(MidiFields(ssrc, packets[i].sequenceNumber, timestamp)) + payload
    ensures forall i :: 0 <= i < |packets| ==> ParsesAsMidi(packets[i], ssrc, timestamp, payload)
  {
    forall i | 0 <= i < |packets|
      ensures ParsesAsMidi(packets[i], ssrc, timestamp, payload)
    {
      MidiPacketParses(ssrc, packets[i].sequenceNumber, timestamp, payload);
    }
  }

  /** The payload of an RTP-MIDI packet: the section header and the list, timed from the first message. */
  function MidiPayload(messages: seq<Message>): seq<Byte>
    requires messages != [] && |EncodeList(messages, messages[0].timestamp)| <= 0xfff
  {
    var list := EncodeList(messages, messages[0].timestamp);
    HeaderBytes(false, false, false, |list|) + list
  }

  /** RTPMIDISession with its buffer. */
  class MidiSession {
    const rtp: Session
    const info: Info
    const buffer: array<Byte>

    constructor (rtp: Session)
      ensures this.rtp == rtp && fresh(info) && fresh(buffer) && buffer.Length == 512
    {
      this.rtp := rtp;
      info := new Info();
      buffer := new Byte[512];
    }

    /**
     RTPMIDISessionSend: the messages are encoded once, with the header behind the list in the
     buffer and in front of it in the packet, and go to every peer of the session.
     */
    method Send(messages: seq<Message>) returns (result: int, ghost packets: seq<Packet>)
      requires messages != [] && AllNotes(messages)
      requires |EncodeList(messages, messages[0].timestamp)| + 2 <= buffer.Length == 512
      requires rtp.Valid() && rtp.buffer != buffer
      modifies info, buffer, rtp`wire, rtp.buffer, rtp.Stored()`outSeqnum
      ensures rtp.Valid() && rtp.peers[..] == old(rtp.peers[..])
      ensures rtp.wire == old(rtp.wire) + packets
      ensures |packets| == |Occupied(rtp.peers[..])|
      ensures result == 0 <==> ReportsSuccess(packets)
      ensures result == 0 <==> packets == [] || packets[|packets| - 1].sent || packets[|packets| - 1].taken == 0
      ensures forall i :: 0 <= i < |packets| ==>
                && packets[i].peer == Occupied(rtp.peers[..])[i]
                && packets[i].bytes == HeaderOf(MidiFields(rtp.ssrc, packets[i].sequenceNumber, messages[0].timestamp))
                                       + MidiPayload(messages)
      ensures forall i :: 0 <= i < |packets| ==>
                ParsesAsMidi(packets[i], rtp.ssrc, messages[0].timestamp, MidiPayload(messages))
    {
      var timestamp := messages[0].timestamp;
      var fields := MidiFields(0, 0, timestamp);
      var iov := EncodePayload(messages);
      result, packets := Broadcast(rtp, fields, iov);
      assert Gather(iov) == MidiPayload(messages);
      MidiPacketsParse(packets, rtp.ssrc, messages[0].timestamp, MidiPayload(messages));
    }

    /** The two parts of the payload, from where they were written in the buffer. */
    method EncodePayload(messages: seq<Message>) returns (iov: seq<seq<Byte>>)
      requires messages != [] && AllNotes(messages)
      requires |EncodeList(messages, messages[0].timestamp)| + 2 <= buffer.Length == 512
      modifies info, buffer
      ensures |iov| == 2 && Gather(iov) == MidiPayload(messages)
    {
      ghost var list := EncodeList(messages, messages[0].timestamp);
      info.journal, info.phantom, info.zero := false, false, false;
      ghost var empty := buffer[..];
      var written := EncodeMessages(info, messages[0].timestamp, messages, buffer, 0, buffer.Length);
      ghost var listed := buffer[..];
      WroteSlice(empty, listed, 0, list);
      var ok, header := EncodeHeader(info, buffer, written, buffer.Length - written);
      WroteSlice(listed, buffer[..], written, HeaderBytes(false, false, false, |list|));
      assert buffer[..written] == listed[..written];
      iov := [buffer[written..written + header], buffer[..written]];
      GatherTwo(iov[0], iov[1]);
    }
  }

  lemma GatherTwo(a: seq<Byte>, b: seq<Byte>)
    ensures Gather([a, b]) == a + b
  {
    assert [a, b][..1] == [a] && [a][..0] == [];
    assert Gather([a]) == [] + a == a;
  }

  // ----- end to end -----

  /** A receiver of the payload, which counts times from `clock` on. */
  function ReceivePayload(payload: seq<Byte>, clock: int): Option<(Header, Parsed)> {
    match ParseHeader(payload)
    case None => None
    case Some((header, read)) =>
      if |payload| != read + header.len then None
      else
        match ParseList(payload[read..], header.zero, clock)
        case None => None
        case Some(parsed) => Some((header, parsed))
  }

  /** A receiver of RTP and RTP-MIDI, which counts from the timestamp in the RTP header. */
  function Receive(bytes: seq<Byte>): Option<(Fields, Header, Parsed)> {
    match ParseRtp(bytes)
    case None => None
    case Some((fields, payload)) =>
      match ReceivePayload(payload, fields.timestamp)
      case None => None
      case Some((header, parsed)) => Some((fields, header, parsed))
  }

  lemma PayloadDecodes(messages: seq<Message>, clock: int)
    requires messages != [] && AllNotes(messages) && DataBytesValid(messages)
    requires |EncodeList(messages, messages[0].timestamp)| <= 0xfff
    ensures ReceivePayload(MidiPayload(messages), clock)
         == Some((Header(false, false, false, |EncodeList(messages, messages[0].timestamp)|),
                  Parsed(Retimed(messages, messages[0].timestamp, clock), LastStatus(messages, 0))))
  {
    var base := messages[0].timestamp;
    var list := EncodeList(messages, base);
    var header := HeaderBytes(false, false, false, |list|);
    HeaderRoundTrip(false, false, false, |list|, list);
    assert (header + list)[|header|..] == list;
    ListDecodes(messages, base, clock);
  }

  lemma ReceiveBoth(bytes: seq<Byte>, fields: Fields, payload: seq<Byte>, header: Header, parsed: Parsed)
    requires ParseRtp(bytes) == Some((fields, payload))
    requires ReceivePayload(payload, fields.timestamp) == Some((header, parsed))
    ensures Receive(bytes) == Some((fields, header, parsed))
  {
  }

  /** What a receiver makes of a packet with these messages. */
  function Received(messages: seq<Message>, fields: Fields): (Fields, Header, Parsed)
    requires messages != []
  {
    var base := messages[0].timestamp;
    (fields, Header(false, false, false, |EncodeList(messages, base)|),
     Parsed(Retimed(messages, base, fields.timestamp), LastStatus(messages, 0)))
  }

  lemma PacketDecodes(messages: seq<Message>, fields: Fields)
    requires messages != [] && AllNotes(messages) && DataBytesValid(messages)
    requires |EncodeList(messages, messages[0].timestamp)| <= 0xfff
    requires |fields.csrc| <= 15 && fields.payloadType < 0x80
    ensures Receive(HeaderOf(fields) + MidiPayload(messages)) == Some(Received(messages, fields))
  {
    var payload := MidiPayload(messages);
    var received := Received(messages, fields);
    RtpRoundTrip(fields, payload);
    PayloadDecodes(messages, fields.timestamp);
    ReceiveBoth(HeaderOf(fields) + payload, fields, payload, received.1, received.2);
  }

  /**
   From end to end: every packet is understood, with the header fields of its peer, the length and
   the flags of the list; and the messages come out as they went in if and only if their times can
   be expressed: the gaps by delta times, and the first time by the 32 bits of the RTP timestamp.
   */
  lemma EndToEnd(messages: seq<Message>, ssrc: Word, number: Half)
    requires messages != [] && AllNotes(messages) && DataBytesValid(messages)
    requires |EncodeList(messages, messages[0].timestamp)| <= 0xfff
    ensures var base := messages[0].timestamp;
            var fields := MidiFields(ssrc, number, base);
            && Receive(HeaderOf(fields) + MidiPayload(messages)) == Some(Received(messages, fields))
            && (Received(messages, fields).2.messages == messages
                <==> GapsFit(messages, base) && 0 <= base < 0x1_0000_0000)
  {
    var fields := MidiFields(ssrc, number, messages[0].timestamp);
    PacketDecodes(messages, fields);
    RetimedFromFirst(messages, fields.timestamp);
    TimestampFits(messages[0].timestamp);
  }

  lemma TimestampFits(t: int)
    ensures t % 0x1_0000_0000 == t <==> 0 <= t < 0x1_0000_0000
  {
  }
}
