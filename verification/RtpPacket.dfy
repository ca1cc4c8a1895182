/**
 The fixed RTP header of section 5.1 of RFC 3550, as the sender writes it and as a receiver reads it.
 */
module RtpPacket {
  import opened Words
  import opened Wrappers
  import opened RtpMidi

  // ----- network byte order -----

  function Be16(x: Half): (b: seq<Byte>)
    ensures |b| == 2
  {
    [x / 0x100, x % 0x100]
  }

  function Be32(x: Word): (b: seq<Byte>)
    ensures |b| == 4
  {
    Be16(x / 0x1_0000) + Be16(x % 0x1_0000)
  }

  function FromBe16(b: seq<Byte>): (x: Half)
    requires |b| == 2
  {
    (b[0] as int) * 0x100 + b[1]
  }

  function FromBe32(b: seq<Byte>): (x: Word)
    requires |b| == 4
  {
    (FromBe16(b[..2]) as int) * 0x1_0000 + FromBe16(b[2..])
  }

  lemma Be32RoundTrip(x: Word)
    ensures FromBe32(Be32(x)) == x
  {
    assert Be32(x)[..2] == Be16(x / 0x1_0000) && Be32(x)[2..] == Be16(x % 0x1_0000);
  }

  /** The four shifted and masked bytes that the C code stores one by one. */
  lemma ShiftedBytes(x: Word)
    ensures Be32(x) == [x / 0x100_0000 % 0x100, x / 0x1_0000 % 0x100, x / 0x100 % 0x100, x % 0x100]
  {
    ShiftedBytesHigh(x);
    ShiftedBytesLow(x);
  }

  lemma ShiftedBytesHigh(x: Word)
    ensures x / 0x1_0000 / 0x100 == x / 0x100_0000 % 0x100
    ensures x / 0x1_0000 % 0x100 == x / 0x1_0000 % 0x100
  {
  }

  lemma ShiftedBytesLow(x: Word)
    ensures x % 0x1_0000 / 0x100 == x / 0x100 % 0x100
    ensures x % 0x1_0000 % 0x100 == x % 0x100
  {
    var high, low := x / 0x1_0000, x % 0x1_0000;
    DivModUnique(x, 0x100, 0x100 * high + low / 0x100, low % 0x100);
    DivModUnique(0x100 * high + low / 0x100, 0x100, high, low / 0x100);
  }

  // ----- the header -----

  datatype Fields = Fields(marker: bool, payloadType: Byte, sequenceNumber: Half,
                           timestamp: Word, ssrc: Word, csrc: seq<Word>)

  function CsrcBytes(csrc: seq<Word>): (b: seq<Byte>)
    ensures |b| == 4 * |csrc|
  {
    if csrc == [] then [] else CsrcBytes(csrc[..|csrc| - 1]) + Be32(csrc[|csrc| - 1])
  }

  /** Version 2, no padding, no extension. */
  function HeaderOf(f: Fields): (b: seq<Byte>)
    ensures |b| == 12 + 4 * |f.csrc|
  {
    HeaderStart(f) + Be32(f.timestamp) + Be32(f.ssrc) + CsrcBytes(f.csrc)
  }

  function ParseCsrc(bytes: seq<Byte>, n: nat): (csrc: seq<Word>)
    requires |bytes| >= 4 * n
    ensures |csrc| == n
  {
    if n == 0 then [] else ParseCsrc(bytes, n - 1) + [FromBe32(bytes[4 * (n - 1)..4 * n])]
  }

  /** The receiver's reading of a header without padding and extension: the fields and the payload. */
  function ParseRtp(bytes: seq<Byte>): Option<(Fields, seq<Byte>)> {
    if |bytes| < 12 || bytes[0] / 0x10 != 8 then None
    else
      var n := bytes[0] % 0x10;
      if |bytes| < 12 + 4 * n then None
      else Some((Fields(bytes[1] >= 0x80, bytes[1] % 0x80, FromBe16(bytes[2..4]), FromBe32(bytes[4..8]),
                        FromBe32(bytes[8..12]), ParseCsrc(bytes[12..], n)),
                 bytes[12 + 4 * n..]))
  }

  lemma {:induction false} CsrcRoundTrip(csrc: seq<Word>, rest: seq<Byte>)
    ensures ParseCsrc(CsrcBytes(csrc) + rest, |csrc|) == csrc
  {
    if csrc != [] {
      var n := |csrc| - 1;
      var last := Be32(csrc[n]);
      assert CsrcBytes(csrc) + rest == CsrcBytes(csrc[..n]) + (last + rest);
      CsrcRoundTrip(csrc[..n], last + rest);
      assert (CsrcBytes(csrc) + rest)[4 * n..4 * (n + 1)] == last;
      Be32RoundTrip(csrc[n]);
      assert csrc[..n] + [csrc[n]] == csrc;
    }
  }

  lemma FixedFields(f: Fields, rest: seq<Byte>)
    ensures var b := HeaderOf(f) + rest;
            && b[0] == 0x80 + |f.csrc| % 0x10
            && b[1] == f.payloadType % 0x80 + Flag(f.marker, 0x80)
            && b[2..4] == Be16(f.sequenceNumber) && b[4..8] == Be32(f.timestamp) && b[8..12] == Be32(f.ssrc)
            && b[12..] == CsrcBytes(f.csrc) + rest
  {
  }

  lemma VariableFields(f: Fields, payload: seq<Byte>)
    ensures var b := HeaderOf(f) + payload;
            ParseCsrc(b[12..], |f.csrc|) == f.csrc && b[12 + 4 * |f.csrc|..] == payload
  {
    FixedFields(f, payload);
    CsrcRoundTrip(f.csrc, payload);
  }

  lemma CountNibble(n: nat)
    requires n <= 15
    ensures (0x80 + n % 0x10) / 0x10 == 8 && (0x80 + n % 0x10) % 0x10 == n
  {
  }

  lemma RtpParses(f: Fields, payload: seq<Byte>)
    requires |f.csrc| <= 15
    ensures ParseRtp(HeaderOf(f) + payload) == Some((f.(payloadType := f.payloadType % 0x80), payload))
  {
    var bytes := HeaderOf(f) + payload;
    FixedFields(f, payload);
    VariableFields(f, payload);
    CountNibble(|f.csrc|);
    FlagAbove(f.payloadType % 0x80, f.marker);
    Be32RoundTrip(f.timestamp);
    Be32RoundTrip(f.ssrc);
    Be16RoundTrip(f.sequenceNumber);
    var fields := Fields(f.marker, f.payloadType % 0x80, f.sequenceNumber, f.timestamp, f.ssrc, f.csrc);
    assert ParseRtp(bytes) == Some((fields, payload));
  }

  lemma Be16RoundTrip(x: Half)
    ensures FromBe16(Be16(x)) == x
  {
  }

  lemma FlagAbove(low: nat, marker: bool)
    requires low < 0x80
    ensures (low + Flag(marker, 0x80) >= 0x80) == marker && (low + Flag(marker, 0x80)) % 0x80 == low
  {
  }

  /**
   A receiver recovers every field and the payload exactly when the count of contributing sources
   has four bits and the payload type has seven.
   */
  lemma RtpRoundTrip(f: Fields, payload: seq<Byte>)
    ensures ParseRtp(HeaderOf(f) + payload) == Some((f, payload)) <==> |f.csrc| <= 15 && f.payloadType < 0x80
  {
    if |f.csrc| <= 15 {
      RtpParses(f, payload);
    } else if ParseRtp(HeaderOf(f) + payload).Some? {
      assert |ParseRtp(HeaderOf(f) + payload).value.0.csrc| == |f.csrc| % 0x10;
    }
  }

  // ----- writing -----

  method PutWord(x: Word, buffer: array<Byte>, at: nat)
    requires at + 4 <= buffer.Length
    modifies buffer
    ensures Wrote(old(buffer[..]), buffer[..], at, Be32(x))
  {
    ShiftedBytes(x);
    buffer[at] := x / 0x100_0000 % 0x100;
    buffer[at + 1] := x / 0x1_0000 % 0x100;
    buffer[at + 2] := x / 0x100 % 0x100;
    buffer[at + 3] := x % 0x100;
  }

  method PutCsrc(csrc: seq<Word>, buffer: array<Byte>, at: nat)
    requires at + 4 * |csrc| <= buffer.Length
    modifies buffer
    ensures Wrote(old(buffer[..]), buffer[..], at, CsrcBytes(csrc))
  {
    var i, j := 0, 0;
    while i < |csrc|
      invariant i <= |csrc| && j == 4 * i
      invariant Wrote(old(buffer[..]), buffer[..], at, CsrcBytes(csrc[..i]))
    {
      ghost var before := buffer[..];
      PutWord(csrc[i], buffer, at + j);
      WroteTwice(old(buffer[..]), before, buffer[..], at, CsrcBytes(csrc[..i]), Be32(csrc[i]));
      assert csrc[..i + 1][..i] == csrc[..i];
      i, j := i + 1, j + 4;
    }
    assert csrc[..i] == csrc;
  }

  /** _rtp_encode_header: fails if the space does not suffice for the header. */
  method EncodeRtpHeader(f: Fields, buffer: array<Byte>, size: nat) returns (ok: bool, written: nat)
    requires size <= buffer.Length
    modifies buffer
    ensures ok <==> |HeaderOf(f)| <= size
    ensures ok ==> written == |HeaderOf(f)| && Wrote(old(buffer[..]), buffer[..], 0, HeaderOf(f))
    ensures !ok ==> buffer[..] == old(buffer[..])
  {
    var headerSize := 12 + 4 * |f.csrc|;
    if size < headerSize {
      return false, 0;
    }
    PutStart(f, buffer);
    ghost var afterStart := buffer[..];
    PutWord(f.timestamp, buffer, 4);
    WroteTwice(old(buffer[..]), afterStart, buffer[..], 0, HeaderStart(f), Be32(f.timestamp));
    ghost var afterTime := buffer[..];
    PutWord(f.ssrc, buffer, 8);
    WroteTwice(old(buffer[..]), afterTime, buffer[..], 0, HeaderStart(f) + Be32(f.timestamp), Be32(f.ssrc));
    ghost var afterSsrc := buffer[..];
    PutCsrc(f.csrc, buffer, 12);
    WroteTwice(old(buffer[..]), afterSsrc, buffer[..], 0,
               HeaderStart(f) + Be32(f.timestamp) + Be32(f.ssrc), CsrcBytes(f.csrc));
    return true, headerSize;
  }

  function HeaderStart(f: Fields): (b: seq<Byte>)
    ensures |b| == 4
  {
    [0x80 + |f.csrc| % 0x10, f.payloadType % 0x80 + Flag(f.marker, 0x80)] + Be16(f.sequenceNumber)
  }

  method PutStart(f: Fields, buffer: array<Byte>)
    requires buffer.Length >= 4
    modifies buffer
    ensures Wrote(old(buffer[..]), buffer[..], 0, HeaderStart(f))
  {
    var first, second := VersionAndCount(|f.csrc| % 0x10), TypeAndMarker(f.payloadType % 0x80, f.marker);
    var high, low := f.sequenceNumber / 0x100 % 0x100, f.sequenceNumber % 0x100;
    HighByte(f.sequenceNumber);
    assert HeaderStart(f) == [first, second, high, low];
    buffer[0], buffer[1], buffer[2], buffer[3] := first, second, high, low;
  }

  lemma HighByte(x: nat)
    requires x < 0x1_0000
    ensures x / 0x100 % 0x100 == x / 0x100
  {
  }

  function VersionAndCount(count: Byte): (b: Byte)
    requires count < 0x10
    ensures b == 0x80 + count
  {
    OrBelow(8, count, 4, 0x10);
    Or(0x80, count)
  }

  function TypeAndMarker(payloadType: Byte, marker: bool): (b: Byte)
    requires payloadType < 0x80
    ensures b == payloadType + Flag(marker, 0x80)
  {
    MarkerBit(payloadType, marker);
    Or(payloadType, Flag(marker, 0x80))
  }

  lemma MarkerBit(payloadType: nat, marker: bool)
    requires payloadType < 0x80
    ensures Or(payloadType, Flag(marker, 0x80)) == payloadType + Flag(marker, 0x80)
  {
    OrBelow(Flag(marker, 1), payloadType, 7, 0x80);
    OrCommutes(payloadType, Flag(marker, 0x80));
  }
}
