/**
 The RTP-MIDI payload encoder: variable-length numbers, running status, the MIDI command section
 header. Buffers are arrays that the methods fill in place from an offset on.
 */
module RtpMidi {
  import opened Words
  import opened Wrappers
  import opened MidiList

  /** `after` is `before` with `bytes` written from offset `at` on. */
  ghost predicate Wrote(before: seq<Byte>, after: seq<Byte>, at: nat, bytes: seq<Byte>) {
    && at + |bytes| <= |before| == |after|
    && forall i :: 0 <= i < |after| ==> after[i] == if at <= i < at + |bytes| then bytes[i - at] else before[i]
  }

  lemma WroteTwice(s0: seq<Byte>, s1: seq<Byte>, s2: seq<Byte>, at: nat, first: seq<Byte>, second: seq<Byte>)
    requires Wrote(s0, s1, at, first) && Wrote(s1, s2, at + |first|, second)
    ensures Wrote(s0, s2, at, first + second)
  {
  }

  lemma WroteSlice(before: seq<Byte>, after: seq<Byte>, at: nat, bytes: seq<Byte>)
    requires Wrote(before, after, at, bytes)
    ensures after == before[..at] + bytes + before[at + |bytes|..]
    ensures after[at..at + |bytes|] == bytes
  {
  }

  lemma ConcatAssociates(a: seq<Byte>, b: seq<Byte>, c: seq<Byte>)
    ensures a + (b + c) == (a + b) + c
  {
  }

  // ----- variable-length numbers -----

  /** The groups of `v`, right-aligned in the four bytes of `tmp`; the result is their number. */
  method FillGroups(value: nat, tmp: array<Byte>) returns (p: nat)
    requires value < 0x1000_0000
    requires tmp[..] == [0x80, 0x80, 0x80, 0x00]
    modifies tmp
    ensures 1 <= p <= 4
    ensures tmp[4 - p..] == VarLen(value)
  {
    var v: nat := value;
    p := 0;
    while p == 0 || (v != 0 && p < 4)
      invariant 0 <= p <= 4
      invariant v < GroupBound(p)
      invariant tmp[..4 - p] == [0x80, 0x80, 0x80, 0x00][..4 - p]
      invariant p == 0 ==> v == value
      invariant p > 0 ==> VarLen(value) == Continued(v) + tmp[4 - p..]
      decreases 4 - p
    {
      GroupStep(value, v, tmp[4 - p..]);
      GroupShrinks(v, p);
      assert tmp[3 - p] == [0x80, 0x80, 0x80, 0x00][..4 - p][3 - p];
      OrLowBits(tmp, 3 - p, v % 0x80);
      v := v / 0x80;
      p := p + 1;
    }
  }

  /** tmp[k] |= group */
  method OrLowBits(tmp: array<Byte>, k: nat, group: Byte)
    requires k < tmp.Length && group < 0x80 && (tmp[k] == 0x00 || tmp[k] == 0x80)
    modifies tmp
    ensures tmp[..k] == old(tmp[..k])
    ensures tmp[k..] == [old(tmp[k]) + group] + old(tmp[k + 1..])
  {
    OrGroup(group);
    tmp[k] := Or(tmp[k], group);
  }

  /** What is left of a 28-bit number after p groups is below this. */
  function GroupBound(p: nat): nat {
    if p == 0 then 0x1000_0000 else if p == 1 then 0x20_0000 else if p == 2 then 0x4000
    else if p == 3 then 0x80 else 1
  }

  lemma GroupShrinks(v: nat, p: nat)
    requires p < 4 && v < GroupBound(p)
    ensures v / 0x80 < GroupBound(p + 1)
  {
  }

  lemma GroupStep(value: nat, v: nat, tail: seq<Byte>)
    ensures tail == [] && v == value ==> VarLen(value) == Continued(v / 0x80) + ([v % 0x80] + tail)
    ensures v > 0 && VarLen(value) == Continued(v) + tail
            ==> VarLen(value) == Continued(v / 0x80) + ([0x80 + v % 0x80] + tail)
  {
    assert [v % 0x80] + [] == [v % 0x80];
  }

  /** MIDIUtilWriteVarLen: fails exactly if the low 28 bits of the value need more than `size` bytes. */
  method WriteVarLen(value: Word, buffer: array<Byte>, at: nat, size: nat) returns (ok: bool, written: nat)
    requires at + size <= buffer.Length
    modifies buffer
    ensures ok <==> |VarLen(value % 0x1000_0000)| <= size
    ensures ok ==> written == |VarLen(value % 0x1000_0000)|
    ensures ok ==> Wrote(old(buffer[..]), buffer[..], at, VarLen(value % 0x1000_0000))
    ensures !ok ==> buffer[..] == old(buffer[..])
  {
    var tmp := new Byte[4][0x80, 0x80, 0x80, 0x00];
    var p := FillGroups(value % 0x1000_0000, tmp);
    if p > size {
      return false, 0;
    }
    var q := 4 - p;
    CopyTail(tmp, q, buffer, at);
    return true, p;
  }

  method CopyTail(tmp: array<Byte>, q: nat, buffer: array<Byte>, at: nat)
    requires tmp != buffer && q <= tmp.Length && at + (tmp.Length - q) <= buffer.Length
    modifies buffer
    ensures Wrote(old(buffer[..]), buffer[..], at, tmp[q..])
  {
    var p := 0;
    while q + p < tmp.Length
      invariant 0 <= p <= tmp.Length - q
      invariant buffer[..] == old(buffer[..at]) + tmp[q..q + p] + old(buffer[at + p..])
      invariant tmp[..] == old(tmp[..])
    {
      buffer[at + p] := tmp[q + p];
      p := p + 1;
    }
    assert tmp[q..q + p] == tmp[q..];
  }

  lemma OrGroup(low: nat)
    requires low < 0x80
    ensures Or(0x80, low) == 0x80 + low && Or(0, low) == low
  {
    assert Shl(1, 7) == 0x80;
    OrDisjoint(1, low, 7);
    OrZero(low);
  }

  // ----- one message -----

  /** _check_encode_running_status */
  predicate UsesRunningStatus(first: Byte, status: Byte) {
    status != 0 && 0x80 <= first <= 0xef && first == status
  }

  /**
   _encode_three_bytes. The status is updated before the size is checked, and a first byte that is
   no status byte writes nothing.
   */
  method EncodeThreeBytes(m: Message, status: Byte, buffer: array<Byte>, at: nat, size: nat)
    returns (ok: bool, written: nat, newStatus: Byte)
    requires at + size <= buffer.Length
    modifies buffer
    ensures m.status >= 0x80 ==> (ok <==> |EncodeThree(m, status)| <= size)
    ensures m.status >= 0x80 && ok ==>
              && written == |EncodeThree(m, status)|
              && Wrote(old(buffer[..]), buffer[..], at, EncodeThree(m, status))
    ensures m.status < 0x80 || !ok ==> buffer[..] == old(buffer[..])
    ensures newStatus == if m.status < 0x80 then status else UpdatedStatus(m.status, status)
    ensures 0x80 <= m.status <= 0xef ==> newStatus == m.status
    ensures 0xf0 <= m.status <= 0xf7 ==> newStatus == 0
    ensures m.status < 0x80 || m.status >= 0xf8 ==> newStatus == status
  {
    newStatus, written := status, 0;
    if UsesRunningStatus(m.status, status) {
      if size < 2 {
        return false, 0, status;
      }
      buffer[at], buffer[at + 1] := m.data1, m.data2;
      written := 2;
    } else if m.status >= 0x80 {
      newStatus := UpdatedStatus(m.status, status);
      if size < 3 {
        return false, 0, newStatus;
      }
      buffer[at], buffer[at + 1], buffer[at + 2] := m.status, m.data1, m.data2;
      written := 3;
    }
    ok := true;
  }

  /** _decode_three_bytes, which always has at least the byte it tests. */
  method DecodeThreeBytes(buffer: array<Byte>, at: nat, size: nat, status: Byte)
    returns (ok: bool, bytes: (Byte, Byte, Byte), read: nat, newStatus: Byte)
    requires 0 < size && at + size <= buffer.Length
    ensures ok <==> DecodeThree(buffer[at..at + size], status).Some?
    ensures ok ==> DecodeThree(buffer[at..at + size], status) == Some(Decoded(bytes, read, newStatus))
  {
    bytes, read, newStatus := (0, 0, 0), 0, status;
    if status != 0 && buffer[at] < 0x80 {
      if size < 2 {
        return false, bytes, 0, status;
      }
      bytes, read := (status, buffer[at], buffer[at + 1]), 2;
    } else {
      if size < 3 {
        return false, bytes, 0, status;
      }
      bytes, read := (buffer[at], buffer[at + 1], buffer[at + 2]), 3;
    }
    ok := bytes.0 >= 0x80;
    if ok {
      newStatus := UpdatedStatus(bytes.0, status);
    }
  }

  // ----- the MIDI list -----

  /** RTPMIDIInfo: the fields of the MIDI command section header. */
  class Info {
    var journal: bool
    var zero: bool
    var phantom: bool
    var len: nat

    constructor ()
      ensures !journal && !zero && !phantom && len == 0
    {
      journal, zero, phantom, len := false, false, false, 0;
    }
  }

  function DeltaAndMessage(withDelta: bool, timeDiff: Word, m: Message, status: Byte): (r: seq<Byte>)
    ensures r != []
  {
    (if withDelta then VarLen(timeDiff % 0x1000_0000) else []) + EncodeThree(m, status)
  }

  /** One turn of the loop of _rtpmidi_encode_messages, after `done` was written from `data` on. */
  method EncodeOne(withDelta: bool, timeDiff: Word, m: Message, status: Byte,
                   buffer: array<Byte>, at: nat, size: nat,
                   ghost start: seq<Byte>, ghost data: nat, ghost done: seq<Byte>)
    returns (written: nat, newStatus: Byte)
    requires IsNoteStatus(m.status)
    requires at + size <= buffer.Length
    requires |DeltaAndMessage(withDelta, timeDiff, m, status)| <= size
    requires Wrote(start, buffer[..], data, done) && at == data + |done|
    modifies buffer
    ensures written == |DeltaAndMessage(withDelta, timeDiff, m, status)| && newStatus == m.status
    ensures Wrote(start, buffer[..], data, done + DeltaAndMessage(withDelta, timeDiff, m, status))
  {
    ghost var before := buffer[..];
    ghost var delta: seq<Byte> := [];
    written := 0;
    if withDelta {
      delta := VarLen(timeDiff % 0x1000_0000);
      var ok, w := WriteVarLen(timeDiff, buffer, at, size);
      written := w;
    }
    ghost var between := buffer[..];
    assert Wrote(before, between, at, delta);
    var ok, w, s := EncodeThreeBytes(m, status, buffer, at + written, size - written);
    WroteTwice(before, between, buffer[..], at, delta, EncodeThree(m, status));
    WroteTwice(start, before, buffer[..], data, done, delta + EncodeThree(m, status));
    written, newStatus := written + w, s;
  }

  /** What the list holds for message i: with the message before it, or with the start of the list. */
  ghost function Piece(messages: seq<Message>, timestamp: int, i: nat): (r: seq<Byte>)
    requires i < |messages|
    ensures r != []
  {
    if i == 0 then
      DeltaAndMessage(HasFirstDelta(messages, timestamp), TimeDiff(timestamp, messages[0].timestamp), messages[0], 0)
    else
      var before := messages[i - 1];
      DeltaAndMessage(true, TimeDiff(before.timestamp, messages[i].timestamp), messages[i], before.status)
  }

  ghost predicate ArePieces(ps: seq<seq<Byte>>, messages: seq<Message>, timestamp: int) {
    |ps| == |messages| && forall i :: 0 <= i < |ps| ==> ps[i] == Piece(messages, timestamp, i)
  }

  lemma {:induction false} MakePieces(messages: seq<Message>, timestamp: int, n: nat) returns (ps: seq<seq<Byte>>)
    requires n <= |messages|
    ensures |ps| == n && forall i :: 0 <= i < n ==> ps[i] == Piece(messages, timestamp, i)
  {
    if n == 0 {
      ps := [];
    } else {
      var before := MakePieces(messages, timestamp, n - 1);
      var piece := Piece(messages, timestamp, n - 1);
      ps := before + [piece];
      assert forall i :: 0 <= i < n - 1 ==> ps[i] == before[i];
    }
  }

  /** The first n strings one after the other. */
  ghost function Concat(ps: seq<seq<Byte>>, n: nat): seq<Byte>
    requires n <= |ps|
  {
    if n == 0 then [] else Concat(ps, n - 1) + ps[n - 1]
  }

  lemma {:induction false} ConcatGrows(ps: seq<seq<Byte>>, m: nat, n: nat)
    requires m <= n <= |ps|
    ensures |Concat(ps, m)| <= |Concat(ps, n)|
    decreases n
  {
    if m < n {
      ConcatGrows(ps, m, n - 1);
    }
  }

  /** The list from message n on. */
  ghost function RestFrom(messages: seq<Message>, n: nat): seq<Byte>
    requires 0 < n <= |messages|
  {
    EncodeRest(messages[n..], messages[n - 1].timestamp, messages[n - 1].status)
  }

  lemma FirstPiece(messages: seq<Message>, timestamp: int)
    requires messages != []
    ensures EncodeList(messages, timestamp) == Piece(messages, timestamp, 0) + RestFrom(messages, 1)
  {
    var three, rest := EncodeThree(messages[0], 0), RestFrom(messages, 1);
    assert EncodeCommands(messages, 0) == three + rest;
    if HasFirstDelta(messages, timestamp) {
      ConcatAssociates(VarLen(WrittenDelta(timestamp, messages[0].timestamp)), three, rest);
    } else {
      assert [] + three == three;
    }
  }

  lemma NextPiece(messages: seq<Message>, timestamp: int, i: nat)
    requires 0 < i < |messages|
    ensures RestFrom(messages, i) == Piece(messages, timestamp, i) + RestFrom(messages, i + 1)
  {
    assert messages[i..][0] == messages[i] && messages[i..][1..] == messages[i + 1..];
    assert EncodeCommands(messages[i..], messages[i - 1].status)
        == EncodeThree(messages[i], messages[i - 1].status) + RestFrom(messages, i + 1);
    ConcatAssociates(VarLen(WrittenDelta(messages[i - 1].timestamp, messages[i].timestamp)),
                     EncodeThree(messages[i], messages[i - 1].status), RestFrom(messages, i + 1));
  }

  lemma {:induction false} PiecesThenRest(messages: seq<Message>, timestamp: int, ps: seq<seq<Byte>>, n: nat)
    requires 0 < n <= |messages| && ArePieces(ps, messages, timestamp)
    ensures Concat(ps, n) + RestFrom(messages, n) == EncodeList(messages, timestamp)
  {
    if n == 1 {
      FirstPiece(messages, timestamp);
      assert Concat(ps, 1) == [] + ps[0] == ps[0];
    } else {
      PiecesThenRest(messages, timestamp, ps, n - 1);
      NextPiece(messages, timestamp, n - 1);
      ConcatAssociates(Concat(ps, n - 1), ps[n - 1], RestFrom(messages, n));
    }
  }

  lemma PiecesAreTheList(messages: seq<Message>, timestamp: int, ps: seq<seq<Byte>>)
    requires ArePieces(ps, messages, timestamp)
    ensures Concat(ps, |messages|) == EncodeList(messages, timestamp)
  {
    if messages != [] {
      PiecesThenRest(messages, timestamp, ps, |messages|);
      assert RestFrom(messages, |messages|) == [];
      assert Concat(ps, |messages|) + [] == Concat(ps, |messages|);
    } else {
      assert Concat(ps, 0) == EncodeRest(messages, timestamp, 0) == EncodeList(messages, timestamp);
    }
  }

  /** The timestamp that the delta time of message m counts from. */
  function TimeBefore(messages: seq<Message>, timestamp: int, m: nat): int
    requires m <= |messages|
  {
    if m == 0 then timestamp else messages[m - 1].timestamp
  }

  /** The running status in front of message m. */
  function StatusBefore(messages: seq<Message>, m: nat): Byte
    requires m <= |messages|
  {
    if m == 0 then 0 else messages[m - 1].status
  }

  /** One turn for message m: the string that belongs to it is written behind the earlier ones. */
  method EncodeTurn(info: Info, timestamp: int, messages: seq<Message>, ghost ps: seq<seq<Byte>>, m: nat,
                    now: int, status: Byte, buffer: array<Byte>, at: nat, size: nat,
                    ghost start: seq<Byte>, ghost data: nat) returns (written: nat, newStatus: Byte)
    requires m < |messages| && AllNotes(messages) && ArePieces(ps, messages, timestamp)
    requires now == TimeBefore(messages, timestamp, m) && status == StatusBefore(messages, m)
    requires m > 0 ==> info.zero == HasFirstDelta(messages, timestamp)
    requires at == data + |Concat(ps, m)| && at + size <= buffer.Length && |ps[m]| <= size
    requires Wrote(start, buffer[..], data, Concat(ps, m))
    modifies info`zero, buffer
    ensures info.zero == HasFirstDelta(messages, timestamp)
    ensures written == |ps[m]| && newStatus == messages[m].status
    ensures Wrote(start, buffer[..], data, Concat(ps, m) + ps[m])
  {
    var timeDiff := TimeDiff(now, messages[m].timestamp);
    if m == 0 {
      info.zero := timeDiff != 0;
    }
    var withDelta := m > 0 || info.zero;
    assert DeltaAndMessage(withDelta, timeDiff, messages[m], status) == ps[m];
    written, newStatus :=
      EncodeOne(withDelta, timeDiff, messages[m], status, buffer, at, size, start, data, Concat(ps, m));
  }

  /** There is space for string m if there is for all. */
  lemma NextFits(ps: seq<seq<Byte>>, m: nat)
    requires m < |ps|
    ensures Concat(ps, m + 1) == Concat(ps, m) + ps[m]
    ensures |Concat(ps, m)| + |ps[m]| <= |Concat(ps, |ps|)|
  {
    ConcatGrows(ps, m + 1, |ps|);
  }

  /** What holds of the cursors in front of message m. */
  predicate Cursors(messages: seq<Message>, timestamp: int, m: nat, now: int, status: Byte) {
    m <= |messages| && now == TimeBefore(messages, timestamp, m) && status == StatusBefore(messages, m)
  }

  /** The turn for message m, and the cursors behind it. */
  method EncodeNext(info: Info, timestamp: int, messages: seq<Message>, ghost ps: seq<seq<Byte>>, m: nat,
                    now: int, status: Byte, buffer: array<Byte>, at: nat, size: nat,
                    ghost start: seq<Byte>, ghost data: nat)
    returns (next: nat, newNow: int, newStatus: Byte, newAt: nat, newSize: nat)
    requires m < |messages| && AllNotes(messages) && ArePieces(ps, messages, timestamp)
    requires Cursors(messages, timestamp, m, now, status)
    requires m > 0 ==> info.zero == HasFirstDelta(messages, timestamp)
    requires at == data + |Concat(ps, m)| && data + |Concat(ps, |ps|)| <= at + size <= buffer.Length
    requires Wrote(start, buffer[..], data, Concat(ps, m))
    modifies info`zero, buffer
    ensures info.zero == HasFirstDelta(messages, timestamp)
    ensures next == m + 1 && Cursors(messages, timestamp, next, newNow, newStatus)
    ensures newAt == data + |Concat(ps, next)| && newAt + newSize == at + size
    ensures Wrote(start, buffer[..], data, Concat(ps, next))
  {
    NextFits(ps, m);
    var w, s := EncodeTurn(info, timestamp, messages, ps, m, now, status, buffer, at, size, start, data);
    return m + 1, messages[m].timestamp, s, at + w, size - w;
  }

  /** The loop of _rtpmidi_encode_messages, in terms of the strings it writes one after the other. */
  method EncodePieces(info: Info, timestamp: int, messages: seq<Message>, ghost ps: seq<seq<Byte>>,
                      buffer: array<Byte>, data: nat, available: nat) returns (written: nat)
    requires AllNotes(messages) && ArePieces(ps, messages, timestamp)
    requires |Concat(ps, |messages|)| <= available && data + available <= buffer.Length
    modifies info`zero, buffer
    ensures written == |Concat(ps, |messages|)|
    ensures info.zero == if messages == [] then old(info.zero) else HasFirstDelta(messages, timestamp)
    ensures Wrote(old(buffer[..]), buffer[..], data, Concat(ps, |messages|))
  {
    ghost var start := buffer[..];
    var m, size, at, now, status := 0, available, data, timestamp, 0;
    while size > 0 && m < |messages|
      invariant Cursors(messages, timestamp, m, now, status) && at + size == data + available
      invariant at == data + |Concat(ps, m)|
      invariant info.zero == if m == 0 then old(info.zero) else HasFirstDelta(messages, timestamp)
      invariant Wrote(start, buffer[..], data, Concat(ps, m))
    {
      m, now, status, at, size :=
        EncodeNext(info, timestamp, messages, ps, m, now, status, buffer, at, size, start, data);
    }
    NothingLeft(ps, m);
    written := at - data;
  }

  /** No string is empty, so space remains until the last message is written. */
  lemma NothingLeft(ps: seq<seq<Byte>>, m: nat)
    requires m <= |ps| && forall i :: 0 <= i < |ps| ==> ps[i] != []
    ensures m < |ps| ==> |Concat(ps, m)| < |Concat(ps, |ps|)|
  {
    if m < |ps| {
      var next := ps[m];
      assert Concat(ps, m + 1) == Concat(ps, m) + next && |next| > 0;
      ConcatGrows(ps, m + 1, |ps|);
    }
  }

  /**
   _rtpmidi_encode_messages with enough space: the MIDI list is written, and its length and
   whether it starts with a delta time are left in `info`.
   */
  method EncodeMessages(info: Info, timestamp: int, messages: seq<Message>,
                        buffer: array<Byte>, data: nat, available: nat) returns (written: nat)
    requires AllNotes(messages)
    requires |EncodeList(messages, timestamp)| <= available && data + available <= buffer.Length
    modifies info`zero, info`len, buffer
    ensures written == info.len == |EncodeList(messages, timestamp)|
    ensures info.zero == if messages == [] then old(info.zero) else HasFirstDelta(messages, timestamp)
    ensures Wrote(old(buffer[..]), buffer[..], data, EncodeList(messages, timestamp))
  {
    ghost var ps := MakePieces(messages, timestamp, |messages|);
    PiecesAreTheList(messages, timestamp, ps);
    written := EncodePieces(info, timestamp, messages, ps, buffer, data, available);
    info.len := written;
  }

  // ----- the MIDI command section header -----

  /** The header: one byte for a list of up to 15 bytes, two for up to 4095. */
  function HeaderBytes(journal: bool, zero: bool, phantom: bool, len: nat): seq<Byte>
    requires len <= 0xfff
  {
    var flags := Flag(journal, 0x40) + Flag(zero, 0x20) + Flag(phantom, 0x10);
    if len > 0x0f then [0x80 + flags + len / 0x100, len % 0x100] else [flags + len]
  }

  function Flag(on: bool, bit: Byte): Byte {
    if on then bit else 0
  }

  datatype Header = Header(journal: bool, zero: bool, phantom: bool, len: nat)

  /** Section 3 of RFC 6295: B selects the long form, J, Z and P are flags, LEN has 4 or 12 bits. */
  function ParseHeader(bytes: seq<Byte>): Option<(Header, nat)> {
    if bytes == [] then None
    else
      var b: nat := bytes[0];
      var journal, zero, phantom := b / 0x40 % 2 == 1, b / 0x20 % 2 == 1, b / 0x10 % 2 == 1;
      if b < 0x80 then Some((Header(journal, zero, phantom, b % 0x10), 1))
      else if |bytes| < 2 then None
      else Some((Header(journal, zero, phantom, (b % 0x10) * 0x100 + bytes[1]), 2))
  }

  lemma HeaderRoundTrip(journal: bool, zero: bool, phantom: bool, len: nat, rest: seq<Byte>)
    requires len <= 0xfff
    ensures ParseHeader(HeaderBytes(journal, zero, phantom, len) + rest)
         == Some((Header(journal, zero, phantom, len), |HeaderBytes(journal, zero, phantom, len)|))
  {
    var low := if len > 0x0f then len / 0x100 else len;
    FlagBits(len > 0x0f, journal, zero, phantom, low);
  }

  lemma FlagBits(long: bool, journal: bool, zero: bool, phantom: bool, low: nat)
    requires low < 0x10
    ensures var b := Flag(long, 0x80) + (Flag(journal, 0x40) + Flag(zero, 0x20) + Flag(phantom, 0x10)) + low;
            && (b >= 0x80 <==> long) && (b / 0x40 % 2 == 1 <==> journal) && (b / 0x20 % 2 == 1 <==> zero)
            && (b / 0x10 % 2 == 1 <==> phantom) && b % 0x10 == low
  {
  }

  /** The or of the flag bits and a length nibble. */
  function FlagByte(long: bool, journal: bool, zero: bool, phantom: bool, low: Byte): (b: Byte)
    requires low < 0x10
    ensures b == Flag(long, 0x80) + (Flag(journal, 0x40) + Flag(zero, 0x20) + Flag(phantom, 0x10)) + low
  {
    OrFlags(long, journal, zero, phantom, low);
    Or(Or(Or(Or(Flag(long, 0x80), Flag(journal, 0x40)), Flag(zero, 0x20)), Flag(phantom, 0x10)), low)
  }

  lemma OrFlags(long: bool, journal: bool, zero: bool, phantom: bool, low: nat)
    requires low < 0x10
    ensures Or(Or(Or(Or(Flag(long, 0x80), Flag(journal, 0x40)), Flag(zero, 0x20)), Flag(phantom, 0x10)), low)
         == Flag(long, 0x80) + Flag(journal, 0x40) + Flag(zero, 0x20) + Flag(phantom, 0x10) + low
  {
    FlagTimes(long, 0x80);
    FlagTimes(journal, 0x40);
    FlagTimes(zero, 0x20);
    FlagTimes(phantom, 0x10);
    OrBits(Flag(long, 1), Flag(journal, 1), Flag(zero, 1), Flag(phantom, 1), low);
  }

  lemma FlagTimes(on: bool, bit: Byte)
    ensures Flag(on, bit) == bit * Flag(on, 1) && Flag(on, 1) <= 1
  {
  }

  lemma OrBits(b: nat, j: nat, z: nat, p: nat, low: nat)
    requires j <= 1 && z <= 1 && p <= 1 && low < 0x10
    ensures Or(Or(Or(Or(0x80 * b, 0x40 * j), 0x20 * z), 0x10 * p), low)
         == 0x80 * b + 0x40 * j + 0x20 * z + 0x10 * p + low
  {
    OrBelow(b, 0x40 * j, 7, 0x80);
    OrBelow(2 * b + j, 0x20 * z, 6, 0x40);
    OrBelow(4 * b + 2 * j + z, 0x10 * p, 5, 0x20);
    OrBelow(8 * b + 4 * j + 2 * z + p, low, 4, 0x10);
  }

  lemma OrBelow(x: nat, low: nat, k: nat, unit: nat)
    requires 4 <= k <= 7
    requires unit == if k == 4 then 0x10 else if k == 5 then 0x20 else if k == 6 then 0x40 else 0x80
    requires low < unit
    ensures unit == 0x10 ==> Or(0x10 * x, low) == 0x10 * x + low
    ensures unit == 0x20 ==> Or(0x20 * x, low) == 0x20 * x + low
    ensures unit == 0x40 ==> Or(0x40 * x, low) == 0x40 * x + low
    ensures unit == 0x80 ==> Or(0x80 * x, low) == 0x80 * x + low
  {
    Shifts(1);
    Shifts(x);
    OrDisjoint(x, low, k);
  }

  lemma Shifts(x: nat)
    ensures Shl(x, 4) == 0x10 * x && Shl(x, 5) == 0x20 * x && Shl(x, 6) == 0x40 * x && Shl(x, 7) == 0x80 * x
  {
  }

  /** _rtpmidi_encode_header: fails if the length has more than 12 bits or the space does not suffice. */
  method EncodeHeader(info: Info, buffer: array<Byte>, at: nat, size: nat) returns (ok: bool, written: nat)
    requires at + size <= buffer.Length
    modifies buffer
    ensures ok <==> info.len <= 0xfff && |HeaderBytes(info.journal, info.zero, info.phantom, info.len)| <= size
    ensures ok ==> written == |HeaderBytes(info.journal, info.zero, info.phantom, info.len)|
    ensures ok ==> Wrote(old(buffer[..]), buffer[..], at, HeaderBytes(info.journal, info.zero, info.phantom, info.len))
    ensures !ok ==> buffer[..] == old(buffer[..])
  {
    if info.len > 0x0fff {
      return false, 0;
    }
    var journal, zero, phantom, len := info.journal, info.zero, info.phantom, info.len;
    LengthBits(len);
    if len > 0x0f {
      if size < 2 {
        return false, 0;
      }
      buffer[at] := FlagByte(true, journal, zero, phantom, len / 0x100 % 0x10);
      buffer[at + 1] := len % 0x100;
      written := 2;
    } else {
      if size < 1 {
        return false, 0;
      }
      buffer[at] := FlagByte(false, journal, zero, phantom, len % 0x10);
      written := 1;
    }
    ok := true;
  }

  lemma LengthBits(len: nat)
    requires len <= 0xfff
    ensures len / 0x100 % 0x10 == len / 0x100 < 0x10
    ensures len <= 0x0f ==> len % 0x10 == len
  {
  }
}
