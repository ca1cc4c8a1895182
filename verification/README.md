# Verified models of the Raspberry Pi MIDI keyboard

The repository turns a Raspberry Pi with key contacts into a MIDI keyboard on the network. A kernel
module debounces two contacts per key and measures how fast a key was struck
(`module/cmidid_gpio.c`); an AppleMIDI driver packs the notes into RTP-MIDI, sends them to every
invited peer and keeps the clocks in step (`applemidi/`); a 64-bit divider in ARM assembly stands
under every timestamp (`applemidi/_uldivmod.S`). This project restates that code in Dafny and proves
what it is for. Code that works in place (register loops, encoders, the peer table, the driver, the
keys) is modelled by methods over arrays and classes and proved against specification functions;
the properties over runs and round trips are lemmas about those functions.

| file | what it models |
|---|---|
| `Words.dfy` | bytes and words, shifts, or and and, one bit at a time |
| `Uldivmod.dfy` | the 64-bit divider on pairs of 32-bit registers |
| `MidiList.dfy` | the MIDI list of RFC 6295: encoding, a parser for it, round trip and length |
| `RtpMidi.dfy` | the encoders that write it into a buffer, and the section header |
| `RtpPacket.dfy` | the RTP header of RFC 3550 and a parser for it |
| `PeerTable.dfy` | peers with reference counts, the table of sixteen slots, sequence numbers |
| `RtpSession.dfy` | sending a packet to one peer and to all, and the wire format end to end |
| `CommandCodec.dfy` | the AppleMIDI commands as messages |
| `ClockSync.dfy` | the CK0/CK1/CK2 exchange over a network that loses and reorders |
| `AppleMidi.dfy` | the driver: invitations, ends of sessions, the message queue, disconnecting |
| `Keys.dfy` | the state machine of a key as a function of its history |
| `Debounce.dfy` | levels, interrupts and timers around it, as a system with runs |
| `Keyboard.dfy` | the key objects and the handlers that work on them in place |
| `Velocity.dfy` | from stroke time to velocity, on the linear curve |
| `Clock.dfy` | the fraction of a MIDI clock and the time it tells |
| `ExpSeries.dfy` | the integer series for e^z |

The environment is a parameter: kernel time, the levels of the GPIO pins, which datagrams arrive,
whether a lock is free and whether the socket takes a packet.

## Where the code differs from what it is meant to do

Each of these is proved, with the exact condition where there is one.

- Disconnecting sends no farewell. The code passes the address of its own pointer variable in place of
  the peer's address, so the address family that `_applemidi_send_command` tests is the low half of an
  aligned pointer and never AF_INET (`AppleMidi.NotInternet`, `AppleMidi.Driver.Disconnect`).
- The answer to an invitation can be longer than the 64-byte message buffer it is built in: exactly if
  the invitation has 64 bytes or more without a zero in the first 48 of its name, or has no name while a
  name of more than 47 bytes is held (`AppleMidi.RepliesFit`, `AppleMidi.ReceivedName`).
- Sending reports success if the socket took 0 bytes, since the status is then the number of bytes; and
  to many peers it reports what became of the last packet (`RtpSession.SendPacket`,
  `RtpSession.Broadcast`).
- The velocity curve overflows 32 bits for wide thresholds. A faster stroke never gets a lower
  velocity if and only if `max <= min` or `127 * (max - min - 1) < 2^32` (`Velocity.MonotoneIff`).
  Strokes start over at 2^42 ns: with a monotone curve, the strokes below a bound are ordered if and
  only if the bound is at most 2^42 ns, or `max <= min` and `min` is the largest 32-bit number, when
  every stroke gives 127 (`Velocity.OrderedBelowIff`).
- Without overflow every velocity is attained if and only if the thresholds are at least 127 apart
  (`Velocity.AttainedIff`).
- Delta times are cut to 28 bits and a message that is earlier than the one before gets the time
  zero. Messages come back at their own times if and only if every gap is in [0, 2^28)
  (`MidiList.ListRoundTrip`).
- The RTP timestamp has 32 bits of a 64-bit time. A receiver that has only the packet gets the messages
  back exactly if the gaps fit and the first time is in [0, 2^32) (`RtpSession.EndToEnd`).
- The RTP header has four bits for the number of CSRCs and seven for the payload type. It is read
  back if and only if both fit (`RtpPacket.RtpRoundTrip`).
- A command comes back as it was sent if and only if its count is below 256 and its name is not
  empty, unless the name that was there before is empty too (`CommandCodec.CommandRoundTrip`).
- A second start press does not touch a pressed key. A key is pressed exactly if the end button was
  pressed while the start button was held as it still is (`Keys.StateOfHistory`). That is the same as
  an end press since the last start press, all along, if and only if no start press comes while the key
  is pressed (`Keys.PressedSinceStartIff`); a bounce of the start button makes one come under every
  configuration (`Debounce.PressedAfterStartPressOnly`).
- Dividing a fraction is exact if and only if the denominator that is built fits 64 bits, or the
  numerator is zero (`Clock.DivideFrac`); for the rates of a clock it always does (`Clock.Create`).
- As long as the 64-bit product of kernel time and numerator does not overflow, the time that a clock
  tells is right if and only if the ticks since it was created are below 2^63, and negative otherwise
  (`Clock.NowIsTicksSinceCreation`). It is negative at some such time if and only if the rate is a
  multiple of 10^9 (`Clock.NegativeIff`).
- The power and the factorial that the exponential series needs fit 64 bits if and only if z is at
  most 8 (`ExpSeries.FitsIn64Bits`); as far as that the 64-bit loop gives the sum of the whole series
  (`ExpSeries.EToTheZ64`).

A slow stroke has the velocity 0, and receivers of MIDI take a note-on with the velocity 0 for a
note-off. What is said here about notes counts note-ons and note-offs as they are sent.

## Model

| member | source | states |
|---|---|---|
| `Uldivmod.Divide` | applemidi/_uldivmod.S:61-181 | For all 64-bit A and B as register pairs, whichever path is taken: Q = A / B and R = A mod B as numbers, all zero for B = 0, and at most max(0, clz B - clz A) + 1 rounds. |
| `Uldivmod.ShiftSubtract` | applemidi/_uldivmod.S:104-139 | The loop from an aligned divisor ends with A = Q * B + R and R < B after at most one round more than the shift; both early exits are covered. |
| `Uldivmod.AlignDivisor` | applemidi/_uldivmod.S:76-103 | The alignment shifts by max(0, clz B - clz A) < 64; the shifted divisor is B * 2^shift without losing a bit, C is 2^shift, and A is below twice the shifted divisor. |
| `Uldivmod.ShiftPair` | applemidi/_uldivmod.S:92-103 | The flag-driven shift of a register pair is the shift of the 64-bit number, for amounts below and from 32, because ARM shifts by 32 and more give zero. |
| `Uldivmod.Aligned` | applemidi/_uldivmod.S:78-103 | Bringing the leading bits together makes the divisor more than half the dividend and keeps it below 2^64. |
| `Uldivmod.TakeBit` | applemidi/_uldivmod.S:108-118 | A round that subtracts keeps the equation of dividend, divisor, remainder and partial quotient, and the bit bounds. |
| `Uldivmod.SkipBit` | applemidi/_uldivmod.S:108-112 | So does a round that does not subtract. |
| `Uldivmod.NextBit` | applemidi/_uldivmod.S:123-132 | Halving C and B leads from the end of one round to the start of the next while a bit is left. |
| `Uldivmod.Finished` | applemidi/_uldivmod.S:119-139 | At either exit (remainder zero, or no bit left) the result is quotient and remainder. |
| `Uldivmod.OrQuotientBit` | applemidi/_uldivmod.S:116-118 | Or-ing the current bit into the result pair adds it, since only higher bits are set. |
| `Uldivmod.DividePow2` | applemidi/_uldivmod.S:151-173 | The power-of-two path gives quotient and remainder when B and B - 1 have no bit in common. |
| `Uldivmod.LowPowerOfTwo` | applemidi/_uldivmod.S:64-69 | A divisor that passes the test with a low word is 2^k with k = 31 - clz, and masking with B - 1 gives the k lowest bits. |
| `Uldivmod.HighPowerOfTwo` | applemidi/_uldivmod.S:151-163 | The same for a divisor with only a high word: the low word of the dividend is all remainder. |
| `Uldivmod.PairShiftedRight` | applemidi/_uldivmod.S:166-169 | Shifting the two words right and moving bits across is the right shift of the 64-bit number. |
| `Words.AndPredecessor` | applemidi/_uldivmod.S:64-69 | x & (x - 1) = 0 for a positive x means that x is a power of two. |
| `MidiList.DeltaRoundTrip` | applemidi/rtpmidi.c:112-138 | Every delta time below 2^28 takes at most four octets and is read back, whatever follows it. |
| `MidiList.VarLenShortest` | applemidi/rtpmidi.c:112-138 | No octets that read as the same delta time are fewer than those written. |
| `MidiList.DeltaFormats` | applemidi/rtpmidi.c:112-138 | The parser reads the four formats of section 3.1 of RFC 6295 as they are shown there. |
| `MidiList.MessageRoundTrip` | applemidi/message.c:84-131 | A note under any running status is read back by the decoder, with the bytes consumed and the new running status. |
| `MidiList.DecodesWhat` | applemidi/message.c:108-131 | The decoder reads three bytes behind a status byte, two under a running status, and nothing else. |
| `MidiList.ListDecodes` | applemidi/rtpmidi.c:176-222 | A parser of the MIDI list gets every command, the times the written delta times add up to, and the final running status. |
| `MidiList.ListRoundTrip` | applemidi/rtpmidi.c:176-222 | It gets exactly the encoded messages if and only if all gaps are in [0, 2^28). |
| `MidiList.ListLength` | applemidi/rtpmidi.c:176-222 | The length is 2n, one for each change of status counting the first, and the shortest delta times. |
| `RtpMidi.FillGroups` | applemidi/rtpmidi.c:112-126 | The loop leaves exactly the variable-length form of the value at the end of its four bytes. |
| `RtpMidi.WriteVarLen` | applemidi/rtpmidi.c:112-138 | Fails exactly if the shortest form of the low 28 bits exceeds the space and then changes nothing; otherwise writes it there and nothing else. |
| `RtpMidi.EncodeThreeBytes` | applemidi/message.c:84-106 | Writes the message without its status byte under running status and fails exactly if the space does not suffice; in every case channel messages set the running status, system messages clear it and real-time messages keep it. |
| `RtpMidi.DecodeThreeBytes` | applemidi/message.c:108-131 | Reads what the specification of the decoder reads, and fails exactly where it does. |
| `RtpMidi.EncodeTurn` | applemidi/rtpmidi.c:190-216 | One turn of the loop writes delta time and command of its message behind the earlier ones, and the first turn sets the Z flag. |
| `RtpMidi.EncodePieces` | applemidi/rtpmidi.c:176-222 | The loop writes the strings of all messages one after the other, with nothing else in the buffer changed. |
| `RtpMidi.PiecesAreTheList` | applemidi/rtpmidi.c:176-222 | The strings that the turns write make up the MIDI list that is encoded. |
| `RtpMidi.EncodeMessages` | applemidi/rtpmidi.c:176-222 | With enough space the encoded list is in the buffer, its length in info and in written, and Z tells whether it starts with a delta time. |
| `RtpMidi.HeaderRoundTrip` | applemidi/rtpmidi.c:147-174 | For every length up to 4095 the header of section 3 of RFC 6295 is read back in its short and its long form, with flags and size. |
| `RtpMidi.FlagByte` | applemidi/rtpmidi.c:147-174 | The or of flag bits and length nibble is their sum. |
| `RtpMidi.EncodeHeader` | applemidi/rtpmidi.c:147-174 | Fails exactly if the length needs more than 12 bits or the space is too small, and then changes nothing; otherwise writes the header. |
| `RtpPacket.RtpParses` | applemidi/rtp.c:348-387 | With at most 15 CSRCs a receiver gets every field, the payload type modulo 128, and the payload. |
| `RtpPacket.RtpRoundTrip` | applemidi/rtp.c:348-387 | It gets exactly the fields that were sent if and only if there are at most 15 CSRCs and the payload type is below 128. |
| `RtpPacket.EncodeRtpHeader` | applemidi/rtp.c:348-387 | Fails exactly if the space is too small for the header, and then changes nothing; otherwise writes it at the start of the buffer. |
| `PeerTable.ProbeReaches` | applemidi/rtp.c:236-259 | Sixteen rounds of probing look at every slot, from any SSRC. |
| `PeerTable.ProbeIs` | applemidi/rtp.c:236-259 | Round i looks at slot (SSRC + i) mod 16. |
| `PeerTable.FirstProbedIs` | applemidi/rtp.c:236-259 | What is at the SSRC modulo 16 is found there first. |
| `PeerTable.Peer.constructor` | applemidi/rtp.c:67-85 | A new peer is live, has one reference and the sequence number zero. |
| `PeerTable.Peer.Release` | applemidi/rtp.c:115-120 | Gives up one reference; the peer is freed exactly with the last one. |
| `PeerTable.Session.AddPeer` | applemidi/rtp.c:236-259 | Succeeds if and only if a slot is free; the peer is then in the first free slot of its probe chain, which is the one at its SSRC modulo 16 if that is free, all other slots are as before, and it has one reference more. |
| `PeerTable.Session.RemovePeer` | applemidi/rtp.c:261-274 | Succeeds if and only if the peer is stored; exactly its slot is cleared and its reference given up, and it is freed if that was the last. |
| `PeerTable.Session.FindPeerBySSRC` | applemidi/rtp.c:331-346 | Finds a peer if and only if some stored peer has the SSRC, even behind holes that removals left, and the first one in probing order. |
| `PeerTable.Session.NextPeer` | applemidi/rtp.c:294-320 | From nothing the first stored peer, from a stored peer the next one in slot order, nothing at the end; fails exactly for a peer that is not stored. |
| `PeerTable.OccupiedUpdate` | applemidi/rtp.c:236-274 | Setting one slot changes the sequence of stored peers at exactly that place. |
| `PeerTable.SsrcsAdded` | applemidi/rtp.c:236-259 | Storing a peer adds its SSRC to the multiset of stored SSRCs. |
| `PeerTable.SsrcsRemoved` | applemidi/rtp.c:261-274 | Clearing the slot of a peer takes its SSRC out once. |
| `PeerTable.SsrcsCount` | applemidi/rtp.c:236-274 | The multiset has as many elements as peers are stored. |
| `PeerTable.NumbersCountUp` | applemidi/rtp.c:484-485 | On every wire that is numbered as SendPacket does it, the packets sent to a peer have the numbers 1, 2, 3, ... modulo 2^16; failed ones leave no gap. |
| `RtpSession.SendPacket` | applemidi/rtp.c:459-556 | One packet: RTP header with the session's SSRC and the peer's next number, then the gathered payload; its length is total_size, and the peer's number advances exactly if it was sent. The status is 0 if and only if it was sent or the socket took 0 bytes, and that number of bytes or 1 otherwise. |
| `RtpSession.SendToStored` | applemidi/rtp.c:459-556 | Sending to a stored peer keeps the session's invariant: numbering of the wire, one reference a peer, and the table. |
| `RtpSession.Broadcast` | applemidi/rtpmidi.c:283-313 | The loop attempts exactly one packet for every stored peer in slot order, all with the same payload behind their own header; the status is 0 if and only if there is no peer, or the last packet was sent or not taken at all. |
| `RtpSession.MidiSession.Send` | applemidi/rtpmidi.c:239-316 | Every stored peer gets one packet, in which a receiver of RTP finds the payload type 97, no marker, the session's SSRC, the time of the first message, the peer's number, and section header and list; table and numbering invariant are kept, and the status is that of the last packet. |
| `RtpSession.MidiSession.EncodePayload` | applemidi/rtpmidi.c:268-281 | The two I/O vectors over one buffer, where the header is written behind the list, give header and then list. |
| `RtpSession.EndToEnd` | applemidi/rtpmidi.c:239-316 | A receiver that has only the packet and counts from its RTP timestamp gets every header field, the length, the flags and the final status, and the messages: exactly those sent if and only if the gaps fit and the first time is in [0, 2^32). |
| `CommandCodec.Arrives` | applemidi/applemidi.c:150-245 | Every well-formed command fits 64 bytes, and what a receiver makes of its message is the command with its count modulo 256, and with the name from before if it has none. |
| `CommandCodec.CommandRoundTrip` | applemidi/applemidi.c:39-138 | Every command that can be built passes the test and arrives unchanged if and only if the message can carry it. |
| `CommandCodec.StartOf` | applemidi/applemidi.c:410-426 | Every well-formed command passes _test_applemidi and is recognised as its own type. |
| `CommandCodec.Layout` | applemidi/applemidi.c:55-95 | Every message is two bytes 0xff, the letters IN, OK, NO, BY, CK or RS, and then the words of the command in their order, in network byte order. |
| `CommandCodec.BuildMessage` | applemidi/applemidi.c:39-95 | For every name, the buffer holds the part of the message that lies inside it, and the length is that of the whole message; it is at most 64 exactly if the name has at most 47 bytes. |
| `CommandCodec.FitsBuffer` | applemidi/applemidi.c:62-73 | A command with a C string for a name fits the 64-byte buffer if and only if the name has at most 47 bytes. |
| `ClockSync.OffsetError` | applemidi/applemidi.c:257-322 | With clocks of equal rate and immediate replies, the offset computed on CK2 is the true difference plus the mean of the first two delays, halved as integers, minus the third. |
| `ClockSync.OffsetBound` | applemidi/applemidi.c:279-285 | With delays in [dmin, dmax] it is off by at most dmax - dmin, and both bounds are attained. |
| `ClockSync.ReactionFits` | applemidi/applemidi.c:257-322 | The reply to a datagram that belongs to an exchange belongs to it too, goes back to its sender and counts one further. |
| `ClockSync.SyncFlagAfter` | applemidi/applemidi.c:257-322 | After a CK0 an exchange is under way; after the CK1 or CK2 of an exchange none is. |
| `ClockSync.IdleStarts` | applemidi/applemidi.c:607-632 | Without an exchange under way the idle timer sends a CK0 with the own SSRC and time; otherwise it changes nothing. |
| `ClockSync.NextIdleStarts` | applemidi/applemidi.c:607-632 | The receiver of a CK1 or CK2 starts another exchange at its next idle timeout. |
| `ClockSync.RunKeepsInv` | applemidi/applemidi.c:257-337 | In every state of every run over a network that loses and reorders, every datagram is a CK0, CK1 or CK2 with the direction and the times of its own exchange. |
| `ClockSync.DeliverDrops` | applemidi/applemidi.c:257-322 | Every delivery takes exactly one off what the datagrams in flight still have to go. |
| `ClockSync.DeliveriesPlusRemaining` | applemidi/applemidi.c:257-337 | Over every run deliveries plus what remains are at most three for every exchange that a timer started. |
| `ClockSync.NoPingPong` | applemidi/applemidi.c:607-632 | So there are at most three deliveries for every exchange started, in every run. |
| `ClockSync.Ck2CarriesItsExchange` | applemidi/applemidi.c:295-319 | Every CK2 in flight carries the start time and the answer time of its own exchange, and t1 <= t3. |
| `AppleMidi.Driver.Enlist` | applemidi/applemidi.c:364-370 | Create, add, release: the new peer is stored with one reference if a slot is free, and freed otherwise. |
| `AppleMidi.Driver.ForgetPeer` | applemidi/applemidi.c:382-394 | A stored peer with the SSRC is cleared from its slot and freed; there is none exactly if no stored peer has it. |
| `AppleMidi.Driver.AdmitPeer` | applemidi/applemidi.c:364-370 | With a free slot the stored SSRCs are the old ones and the inviter's, otherwise the old ones; the peer is live exactly if it is stored. |
| `AppleMidi.Driver.AnswerInvitation` | applemidi/applemidi.c:355-379 | The answer is an acceptance if and only if the driver accepts, and a rejection if and only if it does not, with the driver's own SSRC and the version, token and name of the invitation; the inviter is stored exactly if accepted on the RTP socket with a slot free. |
| `AppleMidi.InviterReceives` | applemidi/applemidi.c:355-379 | What the inviter makes of the bytes of the answer is OK (0x4f4b) or NO (0x4e4f) as the driver accepts or not, with all other fields. |
| `AppleMidi.Driver.EndSession` | applemidi/applemidi.c:386-398 | Takes the SSRC out of the table once, if it is there, and every peer that leaves is freed. |
| `AppleMidi.Driver.SyncCommand` | applemidi/applemidi.c:257-322 | Command, sync flag and reply are those of the reaction that the network properties are about: a CK0 or CK1 of another driver is answered with the next count, a CK2 is not; for these a stored sender becomes the current peer, and the current peer stays otherwise. |
| `AppleMidi.Driver.Respond` | applemidi/applemidi.c:349-408 | Whatever the command, the table invariant is kept, only peers that are freed leave, the stored SSRCs, the sync flag and the current peer change as the command says, and exactly the answer that is due is sent, if the address is an internet address. |
| `AppleMidi.Driver.HandleQueue` | applemidi/applemidi.c:436-483 | A whole queue leaves the table, the answers, the sync flag and the current peer that its commands, one after the other, lead to; malformed messages and those that meet a taken lock change nothing; no peer leaves the table but freed. All answers fit the message buffer if and only if no invitation has a name that is too long. |
| `AppleMidi.TakenIff` | applemidi/applemidi.c:410-473 | A command is taken from a message if and only if the lock is free, the message starts with 0xff 0xff and the letters of a command, and it has the length this needs. |
| `AppleMidi.CarriedIsTaken` | applemidi/applemidi.c:451-473 | From an unlocked message that holds a well-formed command exactly this command is taken, as it arrives. |
| `AppleMidi.CarriedAreTaken` | applemidi/applemidi.c:451-473 | From a queue of such messages exactly their commands are taken, in order. |
| `AppleMidi.UnheardChangesNothing` | applemidi/applemidi.c:451-473 | A message that is locked out or holds no command changes neither table nor answers, sync flag or current peer. |
| `AppleMidi.EndSessionHeard` | applemidi/applemidi.c:385-398 | A message with the end of a session takes its SSRC out of the table once and does nothing else. |
| `AppleMidi.InvitationHeard` | applemidi/applemidi.c:355-379 | A message with an invitation adds its SSRC, if it is to be stored and fewer than sixteen are, and is answered with OK or NO. |
| `AppleMidi.SyncHeard` | applemidi/applemidi.c:283-322 | A message with a CK0 or CK1 of another driver is answered with the CK1 or CK2 that carries its times and the driver's own; sync flag and current peer change as they should. |
| `AppleMidi.RepliesAreInFlight` | applemidi/applemidi.c:257-322 | In every state of the network that keeps its invariant, the driver answers a datagram exactly if the network puts a reply in flight, and with that reply. |
| `AppleMidi.ReceivedName` | applemidi/applemidi.c:191-201 | The name of a taken session command fits the sender's buffer unless the message has 64 bytes or more without a zero in the first 48 of the name, or has no name and the one held has more than 47 bytes. |
| `AppleMidi.RepliesFit` | applemidi/applemidi.c:436-483 | All answers to a queue fit the 64-byte buffer if and only if no message is a heard invitation with such a name. |
| `AppleMidi.TableAndAnswers` | applemidi/applemidi.c:436-483 | What a queue leads to is the table after all its commands, and exactly their answers behind those sent before. |
| `AppleMidi.LastSyncDecides` | applemidi/applemidi.c:436-483 | After a queue the sync flag is the one that its last synchronization command leaves. |
| `AppleMidi.Foresee` | applemidi/applemidi.c:451-473 | Table, answers, sync flag and current peer that the loop passes through message by message end where all messages together lead. |
| `AppleMidi.NotInternet` | applemidi/applemidi.c:563-576 | The first half-word of a word-aligned pointer, which is what stands where the address family should, is never AF_INET. |
| `AppleMidi.Driver.DisconnectPeer` | applemidi/applemidi.c:546-576 | The farewell command is built, with the pointer for an address, and given to no socket; the peer leaves its slot and is freed. |
| `AppleMidi.Driver.Disconnect` | applemidi/applemidi.c:578-588 | The loop that starts over after each removal ends for every table with an empty one; each peer is visited once, in slot order, and freed; nothing is sent. |
| `AppleMidi.Driver.IdleTimeout` | applemidi/applemidi.c:607-632 | The next stored peer in slot order becomes the current one, or none at the end, and a current peer that has left the table stays; with a current peer and no exchange under way one CK0 is built, and given out if the address found for that peer is an internet address; otherwise nothing is. |
| `Keys.StateOfHistory` | module/cmidid_gpio.c:248-309 | After any history of events a key is not inactive if and only if the last start event was a press, and pressed if and only if the end button was pressed while the start button was held as it still is. |
| `Keys.PressedWithoutLaterEndPress` | module/cmidid_gpio.c:248-309 | A start press, an end press and a start press, at any times, leave the key pressed. |
| `Keys.PressedSinceStartIff` | module/cmidid_gpio.c:248-309 | At every moment of a history the key is pressed exactly if an end press has come since the last start event, a press, if and only if no start press in the history comes while the key is pressed. |
| `Keys.NotesOfHistory` | module/cmidid_gpio.c:248-309 | Note-ons minus effective note-offs are 1 exactly while the key is pressed and 0 otherwise, and before every note-on they are 0. |
| `Keys.HoldHasStart` | module/cmidid_gpio.c:256-262 | Every held key has the start press that began the hold. |
| `Keys.StruckHasStrike` | module/cmidid_gpio.c:274-285 | Every pressed key has the end press that struck it: the first one of the hold. |
| `Keys.HitTimeOfHistory` | module/cmidid_gpio.c:256-262 | The hit time of a held key is the time of the start press that began the hold. |
| `Keys.VelocityOfHistory` | module/cmidid_gpio.c:274-285 | The velocity that a struck key remembers is that of the time from the start press that began the hold to its first end press. |
| `Keys.StrokeNotes` | module/cmidid_gpio.c:274-285 | After any history the first end press of a hold sends exactly a note-on, with the velocity for the time since the start press that began the hold. |
| `Keys.RepeatNotes` | module/cmidid_gpio.c:286-309 | Every later end press of the hold sends exactly a note-off and the note-on of that stroke again. |
| `Keys.OtherNotes` | module/cmidid_gpio.c:248-309 | A start release sends exactly a note-off in every state; start presses, end releases, and end presses without a hold send nothing. |
| `Debounce.RunKeepsInv` | module/cmidid_gpio.c:447-521 | The invariant of levels, interrupts, timers, key and history holds in every state of every run. |
| `Debounce.LevelIsHandled` | module/cmidid_gpio.c:447-521 | In every reachable state a button without pending interrupt and timer was last handled at its present level. |
| `Debounce.NoStuckNotes` | module/cmidid_gpio.c:248-309 | If the start button is released and nothing is pending for it, the key is inactive and every note-on has had its note-off. |
| `Debounce.HeldKeysAreActive` | module/cmidid_gpio.c:248-309 | If it is held and nothing is pending for it, the key is not inactive. |
| `Debounce.NotesOfRun` | module/cmidid_gpio.c:248-309 | Over every run note-ons minus note-offs are 1 exactly while the key is pressed, and 0 otherwise. |
| `Debounce.EventsAreSpaced` | module/cmidid_gpio.c:489-521 | Handled events of one button are at least the jitter time apart, over every run. |
| `Debounce.FirstInterruptDecides` | module/cmidid_gpio.c:489-521 | While a button bounces its event is due the jitter time after the first interrupt, whatever interrupts come meanwhile. |
| `Debounce.SettlesWithinJitter` | module/cmidid_gpio.c:447-521 | From every reachable state with the start button released, its interrupt and timer make the key inactive, with every note-on followed by a note-off, within the jitter time. |
| `Debounce.PressedAfterStartPressOnly` | module/cmidid_gpio.c:447-521 | Under every configuration there is a run to a pressed key whose last event is a start press, after the only end press. |
| `Keyboard.Gpio.HandleButtonEvent` | module/cmidid_gpio.c:248-309 | The key object and the notes sent follow the state machine; an end press on a touched key measures the time since the hit time and sends the note-on with its velocity on the linear curve. |
| `Keyboard.StrokeIsMeasured` | module/cmidid_gpio.c:274-285 | After any history the first end press of a hold sends the velocity of the linear curve for the units of 1024 ns since the hold began, and these become the last stroke time. |
| `Keyboard.StrokeIsRepeated` | module/cmidid_gpio.c:286-309 | Later end presses of the hold send the same velocity behind a note-off. |
| `Keyboard.Gpio.KeyFromIrq` | module/cmidid_gpio.c:387-406 | The first key with the interrupt, its start button before its end button; none exactly if no key has it. |
| `Keyboard.Gpio.IrqHandler` | module/cmidid_gpio.c:489-521 | The first key with the interrupt is found, none exactly if no key has it; on that key it is the interrupt step of the debouncing system, and no other timer and no key state changes. |
| `Keyboard.Gpio.TimerIrq` | module/cmidid_gpio.c:447-473 | It is the expiry step of the debouncing system: the timer of the button is cleared and the level that is read under the polarity is handled, with the notes of the state machine. |
| `Velocity.InRange` | module/cmidid_gpio.c:334-345 | Every velocity is 0..127, for all thresholds and overflow included. |
| `Velocity.CurveIs` | module/cmidid_gpio.c:334-345 | 127 up to the lower threshold, 0 from the upper one, and between them, without overflow, the floor of the straight line. |
| `Velocity.UnitsAre` | module/cmidid_gpio.c:319-323 | Below 2^42 ns the units are of 1024 ns, rounded down. |
| `Velocity.MonotoneIff` | module/cmidid_gpio.c:334-345 | A faster stroke never gives a lower velocity if and only if max <= min or 127 * (max - min - 1) < 2^32. |
| `Velocity.Attained` | module/cmidid_gpio.c:334-345 | With max - min >= 127 and no overflow every velocity 0..127 is attained. |
| `Velocity.AttainedIff` | module/cmidid_gpio.c:334-345 | Without overflow every velocity 0..127 is attained if and only if max - min >= 127. |
| `Velocity.StrokesMonotone` | module/cmidid_gpio.c:319-345 | The order of stroke times in nanoseconds below 2^42 is kept through the conversion to 2^10 ns. |
| `Velocity.OrderedBelowIff` | module/cmidid_gpio.c:319-345 | With a monotone curve the strokes below a bound are ordered if and only if the bound is at most 2^42 ns, or every stroke gives 127. |
| `Velocity.StrokesWrap` | module/cmidid_gpio.c:319-323 | Times that differ by 2^42 ns have the same velocity. |
| `Clock.DivideFrac` | applemidi/clock.c:62-86 | Terminates for every positive factor; with the denominator that is built the result is exactly the fraction divided by the factor, and it is so after the cut to 64 bits if and only if that denominator is below 2^64 or the numerator is zero. |
| `Clock.NormalizeFrac` | applemidi/clock.c:41-60 | Terminates, keeps the ratio and leaves none of 2, 3, 5, 7 as a common factor. |
| `Clock.StaysReduced` | applemidi/clock.c:41-60 | Reducing by one prime does not bring back one that was taken out before. |
| `Clock.ReducedOverPow10` | applemidi/clock.c:114-125 | A fraction over a divisor of 10^9 without the common factors 2 and 5 is in lowest terms. |
| `Clock.Create` | applemidi/clock.c:114-128 | For every positive 32-bit rate that is asked for, the clock has it and numer * 10^9 = rate * denom in lowest terms; rate 0 gives 1/1 and the rate 10^9; readings count from the time of creation. |
| `Clock.MidiClock.GetRealTime` | applemidi/clock.c:101-104 | The quotient that the 64-bit divider gives on register pairs is the scaled time. |
| `Clock.MidiClock.GetNow` | applemidi/clock.c:219-225 | While the product does not overflow, a clock tells the ticks since it was created if and only if these are below 2^63, and a negative time exactly if they are not. |
| `Clock.ScaledTime` | applemidi/clock.c:101-104 | While t * numer < 2^64 the scaled time is floor(t * rate / 10^9). |
| `Clock.NowIsTicksSinceCreation` | applemidi/clock.c:219-225 | While the product does not overflow, the time told is the ticks since creation if and only if these are below 2^63, and exactly then it is not negative. |
| `Clock.ReadingsOrdered` | applemidi/clock.c:219-225 | The first reading is 0, and two later readings are in order and not negative if and only if the ticks at the second are below 2^63. |
| `Clock.NowIsExact` | applemidi/clock.c:219-225 | With every rate that is no multiple of 10^9 it is, as long as the product does not overflow. |
| `Clock.NegativeIff` | applemidi/clock.c:114-128 | For the fraction of a created clock, some time without overflow of the product is told as negative if and only if the rate is a multiple of 10^9. |
| `Clock.WholeRate` | applemidi/clock.c:114-125 | The fraction of a created clock has the denominator 1 if and only if its rate is a multiple of 10^9. |
| `ExpSeries.ComputePower` | playground/longdiv/longdiv.c:15-34 | The loop computes base to the exponent. |
| `ExpSeries.ComputeFactorial` | playground/longdiv/longdiv.c:36-55 | The loop computes the factorial. |
| `ExpSeries.SomeTermVanishes` | playground/longdiv/longdiv.c:57-75 | For every z some power is below its factorial, so the loop has an end. |
| `ExpSeries.VanishedForGood` | playground/longdiv/longdiv.c:57-75 | After the first term that vanishes all terms vanish. |
| `ExpSeries.EToTheZ` | playground/longdiv/longdiv.c:57-75 | Terminates for every z; the result is the sum up to the first zero term, and of any number of terms from there on. |
| `ExpSeries.Power64` | playground/longdiv/longdiv.c:15-34 | In 64-bit arithmetic the loop computes the power modulo 2^64. |
| `ExpSeries.Factorial64` | playground/longdiv/longdiv.c:36-55 | In 64-bit arithmetic the loop computes the factorial modulo 2^64. |
| `ExpSeries.EToTheZ64` | playground/longdiv/longdiv.c:57-75 | In 64-bit arithmetic the loop ends for every z; for z at most 8 no divisor is zero and the result is the sum of the whole series. |
| `ExpSeries.FitsIn64Bits` | playground/longdiv/longdiv.c:57-75 | The last power and factorial that are needed fit 64 bits if and only if z <= 8. |

## Left out

- Encoding without enough space: the caller ignores the encoders' error codes and goes on with an unset length, so `EncodeMessages` and `Send` need space for the list; `WriteVarLen`, `EncodeThreeBytes` and `EncodeHeader` cover their own error cases.
- Message formats other than note on and note off: the encoder detects no others.
- Padding and extension of RTP: the only caller never turns them on.
- The recovery journal: it is not implemented.
- EToTheZ64: for z above 8, where powers and factorials overflow, only that the loop ends; a divisor that is cut to zero ends it without a result.
- The 32-bit division that the divider calls: taken to be correct. `__div0` is taken to return.
- 64-bit builds, where `unsigned long` is wider than an SSRC: the target is a 32-bit ARM.
- Concave, convex and saturated velocity curves and the two calibration calls.
- The offset computed on CK1: it reads t3 before it was set. The one computed on CK2 is a value of the step; the code does not store it.
- Resynchronisation after a lost CK1 or CK2: the sync flag stays set until another exchange clears it.
- Duplicated datagrams: the network of `ClockSync` loses and reorders only.
- IdleTimeout: a current peer that was freed is read by the source. What is found there is an input (`copied`, for a stored peer the AF_INET it was invited from), and a new peer in the memory of a freed one counts as another peer.
- Disconnect: pointers are those of a 32-bit ARM with the low byte first.
- HandleQueue: an answer that does not fit the message buffer is counted as handed over; what the bytes behind the buffer do is not modelled.
- Respond: which socket an answer leaves by, and to which address, is not modelled.
- The union behind a command: what an earlier command leaves in the fields of a later one of another type is an arbitrary input here (`leftOver`, `heldName`), so the model also allows leftovers that cannot occur.
- Messages longer than 64 bytes: the source copies them past its buffer. The model reads them as if the buffer were long enough, and says nothing of what the overflow does.
- Reference counts of sessions and clocks, the shared clock, and failing allocations.
- An interrupt that belongs to no key: the source reads the key's levels before it tests for it.
- Handlers that interrupt each other: each is one atomic step. Every change of a level is taken to raise its interrupt, and so is a button that is active at the start.
- Keys that share a note, and transposition while a note is held: `Keys` is about one key.
- Setting up and taking down: GPIO and interrupt requests, ALSA, sockets, the character device, module parameters.
