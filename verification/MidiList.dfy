/**
 The MIDI list of an RTP-MIDI packet: the byte strings that the encoder writes, the list parser
 of section 3 of RFC 6295 built on the repository's single-message decoder, and the proof that
 the two undo each other.
 */
module MidiList {
  import opened Words
  import opened Wrappers

  /** A three-byte channel message with its MIDITimestamp. */
  datatype Message = Message(status: Byte, data1: Byte, data2: Byte, timestamp: int)

  // ----- delta times -----

  /** The leading groups of a delta time, each with its continuation bit. */
  function Continued(v: nat): (r: seq<Byte>) {
    if v == 0 then [] else Continued(v / 0x80) + [0x80 + v % 0x80]
  }

  /** A delta time: groups of seven bits, most significant first. */
  function VarLen(v: nat): (r: seq<Byte>)
    ensures |r| > 0
  {
    Continued(v / 0x80) + [v % 0x80]
  }

  /** Delta times have at most four octets; the result is the value and the number of octets. */
  function ParseDelta(bytes: seq<Byte>): Option<(nat, nat)> {
    ParseGroups(bytes, 0, 0)
  }

  function ParseGroups(bytes: seq<Byte>, value: nat, used: nat): (r: Option<(nat, nat)>)
    ensures r.Some? ==> used < r.value.1 <= used + |bytes|
    decreases |bytes|
  {
    if bytes == [] || used == 4 then None
    else if bytes[0] < 0x80 then Some((value * 0x80 + bytes[0], used + 1))
    else ParseGroups(bytes[1..], value * 0x80 + (bytes[0] - 0x80), used + 1)
  }

  function Power128(n: nat): (p: nat)
    ensures p > 0
  {
    if n == 0 then 1 else 0x80 * Power128(n - 1)
  }

  lemma {:induction false} ContinuedLength(v: nat, n: nat)
    ensures |Continued(v)| <= n <==> v < Power128(n)
  {
    if v > 0 && n > 0 {
      ContinuedLength(v / 0x80, n - 1);
    }
  }

  lemma {:induction false} ParseContinued(v: nat, rest: seq<Byte>)
    requires |Continued(v)| <= 3
    ensures ParseGroups(Continued(v) + rest, 0, 0) == ParseGroups(rest, v, |Continued(v)|)
    decreases v
  {
    if v == 0 {
      assert Continued(v) + rest == rest;
    } else {
      var last := 0x80 + v % 0x80;
      assert Continued(v) + rest == Continued(v / 0x80) + ([last] + rest);
      ParseContinued(v / 0x80, [last] + rest);
      assert ([last] + rest)[1..] == rest;
    }
  }

  /** A delta time below 2^28 is read back, whatever follows it. */
  lemma DeltaRoundTrip(v: nat, rest: seq<Byte>)
    requires v < 0x1000_0000
    ensures |VarLen(v)| <= 4
    ensures ParseDelta(VarLen(v) + rest) == Some((v, |VarLen(v)|))
  {
    assert Power128(3) == 0x20_0000;
    ContinuedLength(v / 0x80, 3);
    assert VarLen(v) + rest == Continued(v / 0x80) + ([v % 0x80] + rest);
    ParseContinued(v / 0x80, [v % 0x80] + rest);
  }

  /** The four formats of a delta time, as section 3.1 of RFC 6295 shows them. */
  lemma DeltaFormats(a: nat, b: nat, c: nat, d: nat)
    requires a < 0x80 && b < 0x80 && c < 0x80 && d < 0x80
    ensures ParseDelta([a]) == Some((a, 1))
    ensures ParseDelta([0x80 + a, b]) == Some((0x80 * a + b, 2))
    ensures ParseDelta([0x80 + a, 0x80 + b, c]) == Some((0x4000 * a + 0x80 * b + c, 3))
    ensures ParseDelta([0x80 + a, 0x80 + b, 0x80 + c, d]) == Some((0x20_0000 * a + 0x4000 * b + 0x80 * c + d, 4))
  {
    OneGroup([a], 0, 0);
    OneGroup([0x80 + a, b], 0, 0);
    OneGroup([b], a, 1);
    OneGroup([0x80 + a, 0x80 + b, c], 0, 0);
    OneGroup([0x80 + b, c], a, 1);
    OneGroup([c], 0x80 * a + b, 2);
    OneGroup([0x80 + a, 0x80 + b, 0x80 + c, d], 0, 0);
    OneGroup([0x80 + b, 0x80 + c, d], a, 1);
    OneGroup([0x80 + c, d], 0x80 * a + b, 2);
    OneGroup([d], 0x4000 * a + 0x80 * b + c, 3);
  }

  lemma OneGroup(bytes: seq<Byte>, value: nat, used: nat)
    requires bytes != [] && used < 4
    ensures ParseGroups(bytes, value, used)
         == if bytes[0] < 0x80 then Some((value * 0x80 + bytes[0], used + 1))
            else ParseGroups(bytes[1..], value * 0x80 + (bytes[0] - 0x80), used + 1)
  {
  }

  lemma {:induction false} ParseGroupsBound(bytes: seq<Byte>, value: nat, used: nat)
    requires value < Power128(used)
    ensures var r := ParseGroups(bytes, value, used);
            r.Some? ==> r.value.0 < Power128(r.value.1)
    decreases |bytes|
  {
    assert Power128(used + 1) == 0x80 * Power128(used);
    if bytes == [] || used == 4 {
    } else if bytes[0] < 0x80 {
      assert ParseGroups(bytes, value, used) == Some((value * 0x80 + bytes[0], used + 1));
    } else {
      ParseGroupsBound(bytes[1..], value * 0x80 + (bytes[0] - 0x80), used + 1);
    }
  }

  /** No delta time that reads as v is shorter than the one written for v. */
  lemma VarLenShortest(bytes: seq<Byte>)
    requires ParseDelta(bytes).Some?
    ensures |VarLen(ParseDelta(bytes).value.0)| <= ParseDelta(bytes).value.1
  {
    var (v, n) := ParseDelta(bytes).value;
    ParseGroupsBound(bytes, 0, 0);
    ContinuedLength(v / 0x80, n - 1);
  }

  // ----- one message -----

  /** Channel messages set the running status, system messages clear it, real-time messages keep it. */
  function UpdatedStatus(first: Byte, status: Byte): Byte
    requires first >= 0x80
  {
    if first <= 0xef then first
    else if first <= 0xf7 then 0
    else status
  }

  function EncodeThree(m: Message, status: Byte): (r: seq<Byte>)
    ensures |r| == 2 || |r| == 3
  {
    if status != 0 && 0x80 <= m.status <= 0xef && m.status == status
    then [m.data1, m.data2]
    else [m.status, m.data1, m.data2]
  }

  datatype Decoded = Decoded(bytes: (Byte, Byte, Byte), read: nat, status: Byte)

  /** _decode_three_bytes: a data byte in front stands for the running status, if there is one. */
  function DecodeThree(bytes: seq<Byte>, status: Byte): Option<Decoded>
    requires |bytes| > 0
  {
    if status != 0 && bytes[0] < 0x80 then
      if |bytes| < 2 || status < 0x80 then None
      else Some(Decoded((status, bytes[0], bytes[1]), 2, UpdatedStatus(status, status)))
    else if |bytes| < 3 || bytes[0] < 0x80 then None
    else Some(Decoded((bytes[0], bytes[1], bytes[2]), 3, UpdatedStatus(bytes[0], status)))
  }

  /** Three bytes are read behind a status byte, two under a running status, and nothing else is understood. */
  lemma DecodesWhat(bytes: seq<Byte>, status: Byte)
    requires bytes != [] && (status == 0 || status >= 0x80)
    ensures DecodeThree(bytes, status).Some?
       <==> (bytes[0] >= 0x80 && |bytes| >= 3) || (bytes[0] < 0x80 && status != 0 && |bytes| >= 2)
    ensures DecodeThree(bytes, status).Some? ==>
              var d := DecodeThree(bytes, status).value;
              if bytes[0] >= 0x80 then d.bytes == (bytes[0], bytes[1], bytes[2]) && d.read == 3
              else d.bytes == (status, bytes[0], bytes[1]) && d.read == 2
  {
  }

  /** The test of the only message format: the status byte of a note on or a note off. */
  predicate IsNoteStatus(status: Byte) {
    status / 0x10 == 8 || status / 0x10 == 9
  }

  predicate AllNotes(messages: seq<Message>) {
    forall i :: 0 <= i < |messages| ==> IsNoteStatus(messages[i].status)
  }

  predicate DataBytesValid(messages: seq<Message>) {
    forall i :: 0 <= i < |messages| ==> messages[i].data1 < 0x80 && messages[i].data2 < 0x80
  }

  lemma MessageRoundTrip(m: Message, status: Byte, rest: seq<Byte>)
    requires IsNoteStatus(m.status) && m.data1 < 0x80 && m.data2 < 0x80
    requires status == 0 || IsNoteStatus(status)
    ensures DecodeThree(EncodeThree(m, status) + rest, status)
         == Some(Decoded((m.status, m.data1, m.data2), |EncodeThree(m, status)|, m.status))
  {
  }

  // ----- the list -----

  /** The 32-bit time difference: zero for a message that is not later than the one before. */
  function TimeDiff(from: int, to: int): (d: Word) {
    if to > from then (to - from) % 0x1_0000_0000 else 0
  }

  /** The delta time that is written: the low 28 bits of the difference. */
  function WrittenDelta(from: int, to: int): (d: nat)
    ensures d < 0x1000_0000
  {
    TimeDiff(from, to) % 0x1000_0000
  }

  /** Every message with its delta time; `base` and `status` come from the message before. */
  function EncodeRest(messages: seq<Message>, base: int, status: Byte): seq<Byte>
    decreases |messages|, 1
  {
    if messages == [] then []
    else VarLen(WrittenDelta(base, messages[0].timestamp)) + EncodeCommands(messages, status)
  }

  /** The same without the delta time of the first message. */
  function EncodeCommands(messages: seq<Message>, status: Byte): seq<Byte>
    requires messages != []
    decreases |messages|, 0
  {
    var m := messages[0];
    EncodeThree(m, status) + EncodeRest(messages[1..], m.timestamp, m.status)
  }

  /** The Z flag: the first message is preceded by a delta time. */
  predicate HasFirstDelta(messages: seq<Message>, base: int) {
    messages != [] && TimeDiff(base, messages[0].timestamp) != 0
  }

  function EncodeList(messages: seq<Message>, base: int): seq<Byte> {
    if messages == [] || HasFirstDelta(messages, base) then EncodeRest(messages, base, 0)
    else EncodeCommands(messages, 0)
  }

  datatype Parsed = Parsed(messages: seq<Message>, status: Byte)

  function ParseCommand(bytes: seq<Byte>, now: int, status: Byte): Option<Parsed>
    decreases |bytes|, 0
  {
    if bytes == [] then None
    else
      match DecodeThree(bytes, status)
      case None => None
      case Some(d) =>
        match ParseRest(bytes[d.read..], now, d.status)
        case None => None
        case Some(p) => Some(Parsed([Message(d.bytes.0, d.bytes.1, d.bytes.2, now)] + p.messages, p.status))
  }

  /** Delta times and commands in turn; the last command of a list may be empty. */
  function ParseRest(bytes: seq<Byte>, base: int, status: Byte): Option<Parsed>
    decreases |bytes|, 1
  {
    if bytes == [] then Some(Parsed([], status))
    else
      match ParseDelta(bytes)
      case None => None
      case Some((delta, read)) =>
        if read == |bytes| then Some(Parsed([], status)) else ParseCommand(bytes[read..], base + delta, status)
  }

  /** A MIDI list under its Z flag, read with running status cleared. */
  function ParseList(bytes: seq<Byte>, zero: bool, base: int): Option<Parsed> {
    if bytes == [] || zero then ParseRest(bytes, base, 0) else ParseCommand(bytes, base, 0)
  }

  // ----- round trip -----

  /** The messages at the times that the written delta times add up to. */
  function Retimed(messages: seq<Message>, base: int, clock: int): (r: seq<Message>)
    ensures |r| == |messages|
  {
    if messages == [] then []
    else
      var m := messages[0];
      var now := clock + WrittenDelta(base, m.timestamp);
      [m.(timestamp := now)] + Retimed(messages[1..], m.timestamp, now)
  }

  function LastStatus(messages: seq<Message>, status: Byte): Byte {
    if messages == [] then status else messages[|messages| - 1].status
  }

  lemma {:induction false} ParseRestEncodeRest(messages: seq<Message>, base: int, clock: int, status: Byte)
    requires AllNotes(messages) && DataBytesValid(messages)
    requires status == 0 || IsNoteStatus(status)
    ensures ParseRest(EncodeRest(messages, base, status), clock, status)
         == Some(Parsed(Retimed(messages, base, clock), LastStatus(messages, status)))
    decreases |messages|
  {
    if messages != [] {
      var delta := WrittenDelta(base, messages[0].timestamp);
      ParseDeltaFirst(delta, EncodeCommands(messages, status), clock, status);
      ParseCommandEncode(messages, clock + delta, status);
    }
  }

  lemma ParseDeltaFirst(delta: nat, body: seq<Byte>, clock: int, status: Byte)
    requires delta < 0x1000_0000 && body != []
    ensures ParseRest(VarLen(delta) + body, clock, status) == ParseCommand(body, clock + delta, status)
  {
    DeltaRoundTrip(delta, body);
    assert (VarLen(delta) + body)[|VarLen(delta)|..] == body;
  }

  lemma {:induction false} ParseCommandEncode(messages: seq<Message>, now: int, status: Byte)
    requires messages != [] && AllNotes(messages) && DataBytesValid(messages)
    requires status == 0 || IsNoteStatus(status)
    ensures ParseCommand(EncodeCommands(messages, status), now, status)
         == Some(Parsed([messages[0].(timestamp := now)] + Retimed(messages[1..], messages[0].timestamp, now),
                        LastStatus(messages, status)))
    decreases |messages|, 0
  {
    var m := messages[0];
    var rest := EncodeRest(messages[1..], m.timestamp, m.status);
    var bytes := EncodeCommands(messages, status);
    MessageRoundTrip(m, status, rest);
    assert bytes[|EncodeThree(m, status)|..] == rest;
    ParseRestEncodeRest(messages[1..], m.timestamp, now, m.status);
  }

  /**
   Parsing an encoded list gives the commands, the times that the delta times add up to from the
   receiver's time of the packet on, and the final status.
   */
  lemma ListDecodes(messages: seq<Message>, base: int, clock: int)
    requires AllNotes(messages) && DataBytesValid(messages)
    ensures ParseList(EncodeList(messages, base), HasFirstDelta(messages, base), clock)
         == Some(Parsed(Retimed(messages, base, clock), LastStatus(messages, 0)))
  {
    if messages == [] || HasFirstDelta(messages, base) {
      ParseRestEncodeRest(messages, base, clock, 0);
    } else {
      ParseCommandEncode(messages, clock, 0);
    }
  }

  /** Times that a delta time can express: in order, and less than 2^28 apart. */
  predicate GapsFit(messages: seq<Message>, base: int) {
    forall i :: 0 <= i < |messages| ==> 0 <= Gap(messages, base, i) < 0x1000_0000
  }

  /** The time between a message and the one before it; the first one counts from the base. */
  function Gap(messages: seq<Message>, base: int, i: nat): int
    requires i < |messages|
  {
    messages[i].timestamp - if i == 0 then base else messages[i - 1].timestamp
  }

  lemma {:induction false} RetimedIsIdentity(messages: seq<Message>, base: int)
    ensures Retimed(messages, base, base) == messages <==> GapsFit(messages, base)
    decreases |messages|
  {
    if messages != [] {
      var m, rest := messages[0], messages[1..];
      var now := base + WrittenDelta(base, m.timestamp);
      assert messages == [m] + rest;
      assert now == m.timestamp <==> 0 <= m.timestamp - base < 0x1000_0000;
      GapsFitTail(messages, base);
      if now == m.timestamp {
        RetimedIsIdentity(rest, m.timestamp);
        assert Retimed(messages, base, base) == [m] + Retimed(rest, m.timestamp, m.timestamp);
      } else {
        assert Retimed(messages, base, base)[0].timestamp == now;
      }
    }
  }

  /** Timed from the first message, the times come out right if the receiver's time is right, too. */
  lemma RetimedFromFirst(messages: seq<Message>, clock: int)
    requires messages != []
    ensures Retimed(messages, messages[0].timestamp, clock) == messages
       <==> GapsFit(messages, messages[0].timestamp) && clock == messages[0].timestamp
  {
    var base := messages[0].timestamp;
    if clock == base {
      RetimedIsIdentity(messages, base);
    } else {
      assert Retimed(messages, base, clock)[0].timestamp == clock;
    }
  }

  lemma GapsFitTail(messages: seq<Message>, base: int)
    requires messages != []
    ensures GapsFit(messages, base) <==>
              0 <= messages[0].timestamp - base < 0x1000_0000 && GapsFit(messages[1..], messages[0].timestamp)
  {
    var rest := messages[1..];
    forall i | 0 <= i < |rest|
      ensures Gap(rest, messages[0].timestamp, i) == Gap(messages, base, i + 1)
    {
    }
    if 0 <= messages[0].timestamp - base < 0x1000_0000 && GapsFit(rest, messages[0].timestamp) {
      forall i | 0 <= i < |messages|
        ensures 0 <= Gap(messages, base, i) < 0x1000_0000
      {
        if i > 0 {
          assert Gap(messages, base, i) == Gap(rest, messages[0].timestamp, i - 1);
        }
      }
    }
    if GapsFit(messages, base) {
      assert 0 <= Gap(messages, base, 0) < 0x1000_0000;
    }
  }

  /** The round trip: a parser gets back exactly what was encoded if and only if the gaps fit. */
  lemma ListRoundTrip(messages: seq<Message>, base: int)
    requires AllNotes(messages) && DataBytesValid(messages)
    ensures ParseList(EncodeList(messages, base), HasFirstDelta(messages, base), base)
              == Some(Parsed(messages, LastStatus(messages, 0)))
            <==> GapsFit(messages, base)
  {
    ListDecodes(messages, base, base);
    RetimedIsIdentity(messages, base);
  }

  // ----- length -----

  /** How often the status byte differs from the one before; the first message counts. */
  function StatusChanges(messages: seq<Message>, status: Byte): nat {
    if messages == [] then 0
    else (if messages[0].status == status then 0 else 1) + StatusChanges(messages[1..], messages[0].status)
  }

  function DeltaLengths(messages: seq<Message>, base: int): nat {
    if messages == [] then 0
    else |VarLen(WrittenDelta(base, messages[0].timestamp))| + DeltaLengths(messages[1..], messages[0].timestamp)
  }

  lemma {:induction false} RestLength(messages: seq<Message>, base: int, status: Byte)
    requires AllNotes(messages) && (status == 0 || IsNoteStatus(status))
    ensures |EncodeRest(messages, base, status)|
         == 2 * |messages| + StatusChanges(messages, status) + DeltaLengths(messages, base)
    decreases |messages|
  {
    if messages != [] {
      RestLength(messages[1..], messages[0].timestamp, messages[0].status);
    }
  }

  /** Two bytes a message, one for every change of status, and the delta times. */
  lemma ListLength(messages: seq<Message>, base: int)
    requires AllNotes(messages)
    ensures |EncodeList(messages, base)|
         == 2 * |messages| + StatusChanges(messages, 0) + DeltaLengths(messages, base)
            - (if messages == [] || HasFirstDelta(messages, base) then 0 else 1)
  {
    if messages == [] || HasFirstDelta(messages, base) {
      RestLength(messages, base, 0);
    } else {
      RestLength(messages[1..], messages[0].timestamp, messages[0].status);
      assert |VarLen(0)| == 1;
    }
  }
}
