/**
 The AppleMIDI session commands as messages: what the sender builds, what the receiver tests for
 and takes apart again.
 */
module CommandCodec {
  import opened Words
  import opened Wrappers
  import opened RtpMidi
  import opened RtpPacket

  const INVITATION: Half := 0x494e
  const INVITATION_REJECTED: Half := 0x4e4f
  const INVITATION_ACCEPTED: Half := 0x4f4b
  const ENDSESSION: Half := 0x4259
  const SYNCHRONIZATION: Half := 0x434b
  const RECEIVER_FEEDBACK: Half := 0x5253

  /** A command; which of its data is in use depends on its type. */
  datatype Command =
    | Session(kind: Half, version: Word, token: Word, ssrc: Word, name: seq<Byte>)
    | Sync(ssrc: Word, count: Word, timestamp1: DWord, timestamp2: DWord, timestamp3: DWord)
    | Feedback(ssrc: Word, seqnum: Word)

  predicate IsSessionKind(kind: Half) {
    kind == INVITATION || kind == INVITATION_ACCEPTED || kind == INVITATION_REJECTED || kind == ENDSESSION
  }

  /** What stands in front of the terminator of a C string. */
  predicate IsCString(name: seq<Byte>) {
    forall i :: 0 <= i < |name| ==> name[i] != 0
  }

  type Name = s: seq<Byte> | IsCString(s)

  /** A C string that fits into the message behind four words, with its terminator. */
  predicate NameFits(name: seq<Byte>) {
    |name| <= 47 && IsCString(name)
  }

  predicate WellFormed(c: Command) {
    c.Session? ==> IsSessionKind(c.kind) && NameFits(c.name)
  }

  // ----- building -----

  function Be64(x: DWord): (b: seq<Byte>)
    ensures |b| == 8
  {
    Be32(x / 0x1_0000_0000) + Be32(x % 0x1_0000_0000)
  }

  function Kind(c: Command): Half {
    match c
    case Session(kind, _, _, _, _) => kind
    case Sync(_, _, _, _, _) => SYNCHRONIZATION
    case Feedback(_, _) => RECEIVER_FEEDBACK
  }

  /** The signature 0xffff in the upper half of the first word, the type in the lower. */
  function Start(c: Command): (b: seq<Byte>)
    ensures |b| == 4
  {
    Be16(0xffff) + Be16(Kind(c))
  }

  function NameBytes(name: seq<Byte>): seq<Byte> {
    if name == [] then [] else name + [0]
  }

  function Body(c: Command): seq<Byte> {
    match c
    case Session(_, version, token, ssrc, name) =>
      Be32(version) + Be32(token) + Be32(ssrc) + NameBytes(name)
    case Sync(ssrc, count, t1, t2, t3) =>
      Be32(ssrc) + Be32(count * 0x100_0000 % 0x1_0000_0000) + Be64(t1) + Be64(t2) + Be64(t3)
    case Feedback(ssrc, seqnum) =>
      Be32(ssrc) + Be32(seqnum)
  }

  function Encoded(c: Command): seq<Byte> {
    Start(c) + Body(c)
  }

  // ----- receiving -----

  /** _test_applemidi */
  predicate Test(bytes: seq<Byte>) {
    |bytes| >= 4 && FromBe16(bytes[..2]) == 0xffff
    && var kind := FromBe16(bytes[2..4]);
       IsSessionKind(kind) || kind == RECEIVER_FEEDBACK || kind == SYNCHRONIZATION
  }

  function FromBe64(b: seq<Byte>): (x: DWord)
    requires |b| == 8
  {
    (FromBe32(b[..4]) as int) * 0x1_0000_0000 + FromBe32(b[4..])
  }

  /** What a C string holds: everything in front of the first zero. */
  function CString(bytes: seq<Byte>): seq<Byte> {
    if bytes == [] || bytes[0] == 0 then [] else [bytes[0]] + CString(bytes[1..])
  }

  /** The bytes that are copied as a name: all behind the fourth word, but at most 63. */
  function NamePart(bytes: seq<Byte>): (b: seq<Byte>)
    requires |bytes| >= 16
    ensures |b| == if |bytes| <= 79 then |bytes| - 16 else 63
  {
    if |bytes| <= 79 then bytes[16..] else bytes[16..79]
  }

  /**
   _applemidi_recv_command, with a buffer that is long enough. A session command without a name
   leaves the name of the command before in place.
   */
  function Receive(bytes: seq<Byte>, oldName: seq<Byte>): Option<Command>
    requires |bytes| >= 4
  {
    var kind := FromBe16(bytes[2..4]);
    if IsSessionKind(kind) then
      if |bytes| < 16 then None
      else
        var name := if |bytes| == 16 then oldName else CString(NamePart(bytes));
        Some(Session(kind, FromBe32(bytes[4..8]), FromBe32(bytes[8..12]), FromBe32(bytes[12..16]), name))
    else if kind == SYNCHRONIZATION then
      if |bytes| != 36 then None
      else Some(Sync(FromBe32(bytes[4..8]), FromBe32(bytes[8..12]) / 0x100_0000, FromBe64(bytes[12..20]),
                     FromBe64(bytes[20..28]), FromBe64(bytes[28..36])))
    else if kind == RECEIVER_FEEDBACK then
      if |bytes| != 12 then None
      else Some(Feedback(FromBe32(bytes[4..8]), FromBe32(bytes[8..12])))
    else None
  }

  // ----- round trip -----

  lemma Be64RoundTrip(x: DWord)
    ensures FromBe64(Be64(x)) == x
  {
    var b := Be64(x);
    assert b[..4] == Be32(x / 0x1_0000_0000) && b[4..] == Be32(x % 0x1_0000_0000);
    Be32RoundTrip(x / 0x1_0000_0000);
    Be32RoundTrip(x % 0x1_0000_0000);
  }

  lemma {:induction false} CStringRoundTrip(name: seq<Byte>)
    requires IsCString(name)
    ensures CString(name + [0]) == name
  {
    if name != [] {
      assert (name + [0])[1..] == name[1..] + [0];
      CStringRoundTrip(name[1..]);
    }
  }

  lemma StartOf(c: Command)
    requires WellFormed(c)
    ensures Test(Encoded(c)) && FromBe16(Encoded(c)[2..4]) == Kind(c)
  {
    assert Encoded(c)[..2] == Be16(0xffff) && Encoded(c)[2..4] == Be16(Kind(c));
  }

  /** The letters that stand for the types of commands. */
  function Letters(c: Command): string {
    match c
    case Session(kind, _, _, _, _) =>
      if kind == INVITATION then "IN" else if kind == INVITATION_ACCEPTED then "OK"
      else if kind == INVITATION_REJECTED then "NO" else "BY"
    case Sync(_, _, _, _, _) => "CK"
    case Feedback(_, _) => "RS"
  }

  /** Every message starts with two bytes 0xff and the letters of its type; then come its words, in network order. */
  lemma Layout(c: Command)
    requires WellFormed(c)
    ensures |Encoded(c)| >= 12 && Encoded(c)[..2] == [0xff, 0xff]
    ensures Encoded(c)[2] == Letters(c)[0] as int && Encoded(c)[3] == Letters(c)[1] as int
    ensures c.Session? ==>
              && Encoded(c)[4..] == Be32(c.version) + Be32(c.token) + Be32(c.ssrc)
                                    + if c.name == [] then [] else c.name + [0]
    ensures c.Sync? && c.count < 0x100 ==>
              && Encoded(c)[4..8] == Be32(c.ssrc) && Encoded(c)[8..12] == [c.count, 0, 0, 0]
              && Encoded(c)[12..] == Be64(c.timestamp1) + Be64(c.timestamp2) + Be64(c.timestamp3)
    ensures c.Feedback? ==> Encoded(c)[4..] == Be32(c.ssrc) + Be32(c.seqnum)
  {
    match c
    case Session(_, _, _, _, _) =>
      SessionLayout(c);
    case Sync(ssrc, count, t1, t2, t3) =>
      var times := Be64(t1) + Be64(t2) + Be64(t3);
      assert Encoded(c) == Start(c) + Be32(ssrc) + Be32(count * 0x100_0000 % 0x1_0000_0000) + times;
      if count < 0x100 {
        CountWord(count);
      }
    case Feedback(_, _) =>
  }

  lemma SessionLayout(c: Command)
    requires c.Session?
    ensures Encoded(c)[..4] == Start(c)
    ensures Encoded(c)[4..] == Be32(c.version) + Be32(c.token) + Be32(c.ssrc) + NameBytes(c.name)
  {
  }

  lemma CountWord(count: nat)
    requires count < 0x100
    ensures Be32(count * 0x100_0000 % 0x1_0000_0000) == [count, 0, 0, 0]
  {
  }

  /** The command that a receiver makes of the message for c. */
  function Arrived(c: Command, oldName: seq<Byte>): Command {
    match c
    case Session(_, _, _, _, name) => if name == [] then c.(name := oldName) else c
    case Sync(_, count, _, _, _) => c.(count := count % 0x100)
    case Feedback(_, _) => c
  }

  lemma SessionRoundTrip(c: Command, oldName: seq<Byte>)
    requires c.Session? && WellFormed(c)
    ensures |Encoded(c)| <= 64
    ensures Receive(Encoded(c), oldName) == Some(Arrived(c, oldName))
  {
    var m := Encoded(c);
    StartOf(c);
    assert m[4..8] == Be32(c.version) && m[8..12] == Be32(c.token) && m[12..16] == Be32(c.ssrc);
    Be32RoundTrip(c.version);
    Be32RoundTrip(c.token);
    Be32RoundTrip(c.ssrc);
    assert m[16..] == NameBytes(c.name);
    CStringRoundTrip(c.name);
  }

  lemma CountByte(count: Word)
    ensures count * 0x100_0000 % 0x1_0000_0000 / 0x100_0000 == count % 0x100
  {
  }

  lemma SyncRoundTrip(c: Command, oldName: seq<Byte>)
    requires c.Sync?
    ensures |Encoded(c)| == 36
    ensures Receive(Encoded(c), oldName) == Some(Arrived(c, oldName))
  {
    var m := Encoded(c);
    StartOf(c);
    var count := c.count * 0x100_0000 % 0x1_0000_0000;
    assert m[4..8] == Be32(c.ssrc) && m[8..12] == Be32(count);
    assert m[12..20] == Be64(c.timestamp1) && m[20..28] == Be64(c.timestamp2) && m[28..36] == Be64(c.timestamp3);
    Be32RoundTrip(c.ssrc);
    Be32RoundTrip(count);
    CountByte(c.count);
    Be64RoundTrip(c.timestamp1);
    Be64RoundTrip(c.timestamp2);
    Be64RoundTrip(c.timestamp3);
  }

  lemma FeedbackRoundTrip(c: Command, oldName: seq<Byte>)
    requires c.Feedback?
    ensures |Encoded(c)| == 12 && Receive(Encoded(c), oldName) == Some(Arrived(c, oldName))
  {
    var m := Encoded(c);
    StartOf(c);
    assert m[4..8] == Be32(c.ssrc) && m[8..12] == Be32(c.seqnum);
    Be32RoundTrip(c.ssrc);
    Be32RoundTrip(c.seqnum);
  }

  /** What a message can carry: a count of eight bits; and a name, unless the one it stands for is empty too. */
  predicate Transportable(c: Command, oldName: seq<Byte>) {
    (c.Sync? ==> c.count < 0x100) && (c.Session? && c.name == [] ==> oldName == [])
  }

  lemma Arrives(c: Command, oldName: seq<Byte>)
    requires WellFormed(c)
    ensures |Encoded(c)| <= 64 && Receive(Encoded(c), oldName) == Some(Arrived(c, oldName))
  {
    match c
    case Session(_, _, _, _, _) => SessionRoundTrip(c, oldName);
    case Sync(_, _, _, _, _) => SyncRoundTrip(c, oldName);
    case Feedback(_, _) => FeedbackRoundTrip(c, oldName);
  }

  lemma ArrivedUnchanged(c: Command, oldName: seq<Byte>)
    ensures Arrived(c, oldName) == c <==> Transportable(c, oldName)
  {
  }

  /** Every command passes the test, and arrives unchanged if and only if the message can carry it. */
  lemma CommandRoundTrip(c: Command, oldName: seq<Byte>)
    requires WellFormed(c)
    ensures Test(Encoded(c)) && |Encoded(c)| <= 64
    ensures Receive(Encoded(c), oldName) == Some(c) <==> Transportable(c, oldName)
  {
    StartOf(c);
    Arrives(c, oldName);
    ArrivedUnchanged(c, oldName);
  }

  // ----- the sender's buffer -----

  /** A command with a C string for a name fits the buffer of 64 bytes if and only if the name has at most 47 bytes. */
  lemma FitsBuffer(c: Command)
    requires c.Session? ==> IsSessionKind(c.kind) && IsCString(c.name)
    ensures |Encoded(c)| <= 64 <==> WellFormed(c)
  {
    if c.Session? {
      assert |Encoded(c)| == 16 + |NameBytes(c.name)|;
    } else {
      Arrives(c, []);
    }
  }

  /** The part of a message that lies inside the buffer. */
  function Inside(bytes: seq<Byte>): (b: seq<Byte>)
    ensures |b| == if |bytes| <= 64 then |bytes| else 64
  {
    if |bytes| <= 64 then bytes else bytes[..64]
  }

  function StartWord(c: Command): (w: Word)
    ensures Be32(w) == Start(c)
  {
    0xffff_0000 + Kind(c)
  }

  /**
   The part of _applemidi_send_command that fills msg[16] and determines the length. What does not
   fit the buffer goes behind it: the model shows what is written inside.
   */
  method BuildMessage(c: Command, msg: array<Byte>) returns (len: nat)
    requires c.Session? ==> IsSessionKind(c.kind) && IsCString(c.name)
    requires msg.Length == 64
    modifies msg
    ensures len == |Encoded(c)| && (len <= 64 <==> WellFormed(c))
    ensures Wrote(old(msg[..]), msg[..], 0, Inside(Encoded(c)))
  {
    FitsBuffer(c);
    match c
    case Session(_, _, _, _, name) =>
      BuildSession(c, msg);
      len := 16;
      if name != [] {
        len := len + |name| + 1;
      }
    case Sync(_, _, _, _, _) =>
      BuildSync(c, msg);
      len := 36;
    case Feedback(_, _) =>
      BuildFeedback(c, msg);
      len := 12;
  }

  method BuildSession(c: Command, msg: array<Byte>)
    requires c.Session? && msg.Length == 64
    modifies msg
    ensures Wrote(old(msg[..]), msg[..], 0, Inside(Encoded(c)))
  {
    PutTwo(StartWord(c), c.version, msg, 0);
    ghost var two := msg[..];
    PutTwo(c.token, c.ssrc, msg, 8);
    ghost var four := msg[..];
    var name := NameBytes(c.name);
    var inside := if |name| <= 48 then name else name[..48];
    PutBytes(inside, msg, 16);
    var first, second := Be32(StartWord(c)) + Be32(c.version), Be32(c.token) + Be32(c.ssrc);
    WroteTwice(old(msg[..]), two, four, 0, first, second);
    WroteTwice(old(msg[..]), four, msg[..], 0, first + second, inside);
    SessionInside(c, first, second, inside);
  }

  lemma SessionInside(c: Command, first: seq<Byte>, second: seq<Byte>, inside: seq<Byte>)
    requires c.Session? && first == Start(c) + Be32(c.version) && second == Be32(c.token) + Be32(c.ssrc)
    requires inside == if |NameBytes(c.name)| <= 48 then NameBytes(c.name) else NameBytes(c.name)[..48]
    ensures first + second + inside == Inside(Encoded(c))
  {
    Regroup(Start(c), Be32(c.version), Be32(c.token), Be32(c.ssrc), NameBytes(c.name));
    InsideOf(first + second, NameBytes(c.name));
  }

  lemma Regroup(a: seq<Byte>, b: seq<Byte>, c: seq<Byte>, d: seq<Byte>, e: seq<Byte>)
    ensures (a + b) + (c + d) + e == a + (b + c + d + e)
  {
  }

  lemma InsideOf(words: seq<Byte>, name: seq<Byte>)
    requires |words| == 16
    ensures Inside(words + name) == words + if |name| <= 48 then name else name[..48]
  {
  }

  method BuildSync(c: Command, msg: array<Byte>)
    requires c.Sync? && msg.Length == 64
    modifies msg
    ensures Wrote(old(msg[..]), msg[..], 0, Inside(Encoded(c)))
  {
    PutTwo(StartWord(c), c.ssrc, msg, 0);
    ghost var two := msg[..];
    var count := c.count * 0x100_0000 % 0x1_0000_0000;
    PutWord(count, msg, 8);
    ghost var three := msg[..];
    PutTimes(c.timestamp1, c.timestamp2, c.timestamp3, msg);
    var first := Be32(StartWord(c)) + Be32(c.ssrc);
    var times := Be64(c.timestamp1) + Be64(c.timestamp2) + Be64(c.timestamp3);
    WroteTwice(old(msg[..]), two, three, 0, first, Be32(count));
    WroteTwice(old(msg[..]), three, msg[..], 0, first + Be32(count), times);
    SyncInside(c, first, count, times);
  }

  lemma SyncInside(c: Command, first: seq<Byte>, count: Word, times: seq<Byte>)
    requires c.Sync? && first == Start(c) + Be32(c.ssrc) && count == c.count * 0x100_0000 % 0x1_0000_0000
    requires times == Be64(c.timestamp1) + Be64(c.timestamp2) + Be64(c.timestamp3)
    ensures first + Be32(count) + times == Inside(Encoded(c))
  {
    RegroupTimes(Start(c), Be32(c.ssrc), Be32(count), Be64(c.timestamp1), Be64(c.timestamp2), Be64(c.timestamp3));
  }

  lemma RegroupTimes(a: seq<Byte>, b: seq<Byte>, c: seq<Byte>, d: seq<Byte>, e: seq<Byte>, f: seq<Byte>)
    ensures (a + b) + c + (d + e + f) == a + (b + c + d + e + f)
  {
  }

  method BuildFeedback(c: Command, msg: array<Byte>)
    requires c.Feedback? && msg.Length == 64
    modifies msg
    ensures Wrote(old(msg[..]), msg[..], 0, Inside(Encoded(c)))
  {
    PutTwo(StartWord(c), c.ssrc, msg, 0);
    ghost var two := msg[..];
    PutWord(c.seqnum, msg, 8);
    var first := Be32(StartWord(c)) + Be32(c.ssrc);
    WroteTwice(old(msg[..]), two, msg[..], 0, first, Be32(c.seqnum));
    assert first + Be32(c.seqnum) == Encoded(c);
  }

  method PutTwo(a: Word, b: Word, msg: array<Byte>, at: nat)
    requires at + 8 <= msg.Length
    modifies msg
    ensures Wrote(old(msg[..]), msg[..], at, Be32(a) + Be32(b))
  {
    PutWord(a, msg, at);
    ghost var between := msg[..];
    PutWord(b, msg, at + 4);
    WroteTwice(old(msg[..]), between, msg[..], at, Be32(a), Be32(b));
  }

  method PutTimes(t1: DWord, t2: DWord, t3: DWord, msg: array<Byte>)
    requires msg.Length == 64
    modifies msg
    ensures Wrote(old(msg[..]), msg[..], 12, Be64(t1) + Be64(t2) + Be64(t3))
  {
    PutDWord(t1, msg, 12);
    ghost var first := msg[..];
    PutDWord(t2, msg, 20);
    ghost var second := msg[..];
    PutDWord(t3, msg, 28);
    WroteTwice(old(msg[..]), first, second, 12, Be64(t1), Be64(t2));
    WroteTwice(old(msg[..]), second, msg[..], 12, Be64(t1) + Be64(t2), Be64(t3));
  }

  method PutDWord(x: DWord, msg: array<Byte>, at: nat)
    requires at + 8 <= msg.Length
    modifies msg
    ensures Wrote(old(msg[..]), msg[..], at, Be64(x))
  {
    PutTwo(x / 0x1_0000_0000, x % 0x1_0000_0000, msg, at);
  }

  method PutBytes(bytes: seq<Byte>, msg: array<Byte>, at: nat)
    requires at + |bytes| <= msg.Length
    modifies msg
    ensures Wrote(old(msg[..]), msg[..], at, bytes)
  {
    forall i | 0 <= i < |bytes| {
      msg[at + i] := bytes[i];
    }
  }
}
