/**
 The AppleMIDI driver: its commands change the peer table, and its replies.
 */
module AppleMidi {
  import opened Words
  import opened Wrappers
  import opened PeerTable
  import opened RtpPacket
  import CommandCodec
  import ClockSync

  lemma {:induction false} OccupiedCount(slots: seq<Peer?>)
    ensures |Occupied(slots)| <= |slots|
    ensures |Occupied(slots)| < |slots| <==> null in slots
  {
    if slots != [] {
      var front, last := slots[..|slots| - 1], slots[|slots| - 1];
      assert slots == front + [last];
      OccupiedCount(front);
    }
  }

  const AF_INET: Half := 2

  /** The check of the address family in _applemidi_send_command: what is given to a socket. */
  function Gate(family: Half, commands: seq<CommandCodec.Command>): seq<CommandCodec.Command> {
    if family == AF_INET then commands else []
  }

  /** The address of a peer's sockaddr_in, which is aligned like the words in it. */
  type Pointer = p: Word | p % 4 == 0

  /** The first half-word of a pointer in memory, low byte first, is never the internet address family. */
  lemma NotInternet(p: Pointer)
    ensures p % 0x1_0000 != AF_INET
  {
    assert p % 0x1_0000 % 4 == p % 4;
  }

  /**
   What a command makes of the SSRCs of the stored peers: an invitation adds one if it is to be
   stored and fewer than sixteen are, the end of a session takes one away.
   */
  ghost function TableAfter(m: multiset<Word>, c: CommandCodec.Command, admits: bool): multiset<Word> {
    if c.Session? && c.kind == CommandCodec.INVITATION then if admits then WithInviter(m, c.ssrc) else m
    else if c.Session? && c.kind == CommandCodec.ENDSESSION then m - multiset{c.ssrc}
    else m
  }

  ghost function WithInviter(m: multiset<Word>, ssrc: Word): multiset<Word> {
    if |m| < 16 then m + multiset{ssrc} else m
  }

  ghost function TableAfterAll(m: multiset<Word>, cs: seq<CommandCodec.Command>, admits: bool): multiset<Word> {
    if cs == [] then m else TableAfter(TableAfterAll(m, cs[..|cs| - 1], admits), cs[|cs| - 1], admits)
  }

  lemma TableAfterOneMore(m: multiset<Word>, cs: seq<CommandCodec.Command>, c: CommandCodec.Command, admits: bool)
    ensures TableAfterAll(m, cs + [c], admits) == TableAfter(TableAfterAll(m, cs, admits), c, admits)
  {
    assert (cs + [c])[..|cs|] == cs;
  }

  // ----- the queue -----

  /** A message, when it is handled, whether the lock is free then, and the name that the command still holds. */
  datatype Arrival = Arrival(bytes: seq<Byte>, now: DWord, unlocked: bool, heldName: CommandCodec.Name)

  /** _test_applemidi and spin_trylock */
  predicate Heard(a: Arrival) {
    CommandCodec.Test(a.bytes) && a.unlocked
  }

  /** _applemidi_recv_command on what is heard: the command to answer, if there is one. */
  function Taken(a: Arrival): Option<CommandCodec.Command> {
    if Heard(a) then CommandCodec.Receive(a.bytes, a.heldName) else None
  }

  function Listed(c: Option<CommandCodec.Command>): seq<CommandCodec.Command> {
    match c
    case None => []
    case Some(c) => [c]
  }

  /** The commands of the first n messages. */
  function Incoming(queue: seq<Arrival>, n: nat): seq<CommandCodec.Command>
    requires n <= |queue|
  {
    if n == 0 then [] else Incoming(queue, n - 1) + Listed(Taken(queue[n - 1]))
  }

  /** What a driver with the SSRC `own` answers to a command. */
  function Reply(own: Word, accept: bool, now: DWord, c: CommandCodec.Command): seq<CommandCodec.Command> {
    match c
    case Session(kind, version, token, _, name) =>
      if kind == CommandCodec.INVITATION then [Accepting(accept, version, token, own, name)] else []
    case Sync(_, _, _, _, _) =>
      var r := ClockSync.React(own, now, c);
      if r.sends then [r.command] else []
    case Feedback(_, _) => []
  }

  function Accepting(accept: bool, version: Word, token: Word, own: Word, name: seq<Byte>): CommandCodec.Command {
    CommandCodec.Session(if accept then CommandCodec.INVITATION_ACCEPTED else CommandCodec.INVITATION_REJECTED,
                         version, token, own, name)
  }

  function ReplyIfTaken(own: Word, accept: bool, now: DWord, c: Option<CommandCodec.Command>)
    : seq<CommandCodec.Command>
  {
    if c.None? then [] else Reply(own, accept, now, c.value)
  }

  /** The answers to the first n messages. */
  function Replies(own: Word, accept: bool, queue: seq<Arrival>, n: nat): seq<CommandCodec.Command>
    requires n <= |queue|
  {
    if n == 0 then []
    else
      var a := queue[n - 1];
      Replies(own, accept, queue, n - 1) + ReplyIfTaken(own, accept, a.now, Taken(a))
  }

  // ----- what commands and queues do to the driver -----

  /** What the driver has come to: its table, what it has sent, its sync flag, and whose peer is the current one. */
  datatype Status = Status(table: multiset<Word>, sent: seq<CommandCodec.Command>, sync: nat, current: Option<Word>)

  /** The sync flag after a command; only a synchronization changes it. */
  function SyncAfter(own: Word, sync: nat, now: DWord, c: CommandCodec.Command): nat {
    if c.Sync? then ClockSync.React(own, now, c).sync else sync
  }

  /** A synchronization of another driver makes its peer the current one, if that is stored. */
  ghost function CurrentAfter(own: Word, m: multiset<Word>, current: Option<Word>,
                              c: CommandCodec.Command): Option<Word> {
    if c.Sync? && c.ssrc != own && c.count <= 2 && c.ssrc in m then Some(c.ssrc) else current
  }

  ghost function StatusAfter(own: Word, accept: bool, admits: bool, s: Status, now: DWord,
                             c: CommandCodec.Command): Status {
    Status(TableAfter(s.table, c, admits), s.sent + Reply(own, accept, now, c),
           SyncAfter(own, s.sync, now, c), CurrentAfter(own, s.table, s.current, c))
  }

  /** The same for an answer that is to go to an address of this family. */
  ghost function StatusAfterGated(family: Half, own: Word, accept: bool, admits: bool, s: Status, now: DWord,
                                  c: CommandCodec.Command): Status {
    Status(TableAfter(s.table, c, admits), s.sent + Gate(family, Reply(own, accept, now, c)),
           SyncAfter(own, s.sync, now, c), CurrentAfter(own, s.table, s.current, c))
  }

  /** Acceptances, rejections and feedback change nothing. */
  lemma OthersChangeNothing(family: Half, own: Word, accept: bool, admits: bool, s: Status, now: DWord,
                            c: CommandCodec.Command)
    requires c.Feedback? || (c.Session? && c.kind != CommandCodec.INVITATION && c.kind != CommandCodec.ENDSESSION)
    ensures StatusAfterGated(family, own, accept, admits, s, now, c) == s
  {
    assert s.sent + [] == s.sent;
  }

  lemma EndTakesOne(family: Half, own: Word, accept: bool, admits: bool, s: Status, now: DWord,
                    c: CommandCodec.Command)
    requires c.Session? && c.kind == CommandCodec.ENDSESSION
    ensures StatusAfterGated(family, own, accept, admits, s, now, c) == s.(table := s.table - multiset{c.ssrc})
  {
    assert s.sent + [] == s.sent;
  }

  ghost function StatusIfTaken(own: Word, accept: bool, admits: bool, s: Status, now: DWord,
                               c: Option<CommandCodec.Command>): Status {
    if c.None? then s else StatusAfter(own, accept, admits, s, now, c.value)
  }

  /** The status after the first n messages. */
  ghost function StatusAfterAll(own: Word, accept: bool, admits: bool, s: Status, queue: seq<Arrival>, n: nat): Status
    requires n <= |queue|
  {
    if n == 0 then s
    else
      var before := StatusAfterAll(own, accept, admits, s, queue, n - 1);
      StatusIfTaken(own, accept, admits, before, queue[n - 1].now, Taken(queue[n - 1]))
  }

  /** From s to t the table changes as the first n messages' commands say, and exactly their answers are added. */
  ghost predicate Leads(own: Word, accept: bool, admits: bool, s: Status, t: Status, queue: seq<Arrival>, n: nat)
    requires n <= |queue|
  {
    && t.table == TableAfterAll(s.table, Incoming(queue, n), admits)
    && t.sent == s.sent + Replies(own, accept, queue, n)
  }

  lemma {:induction false} TableAndAnswers(own: Word, accept: bool, admits: bool, s: Status,
                                           queue: seq<Arrival>, n: nat)
    requires n <= |queue|
    ensures Leads(own, accept, admits, s, StatusAfterAll(own, accept, admits, s, queue, n), queue, n)
  {
    if n == 0 {
      assert s.sent + [] == s.sent;
    } else {
      var before, c := StatusAfterAll(own, accept, admits, s, queue, n - 1), Taken(queue[n - 1]);
      TableAndAnswers(own, accept, admits, s, queue, n - 1);
      LeadsOn(own, accept, admits, s, before, queue, n, c);
    }
  }

  lemma LeadsOn(own: Word, accept: bool, admits: bool, s: Status, before: Status, queue: seq<Arrival>, n: nat,
                c: Option<CommandCodec.Command>)
    requires 0 < n <= |queue| && c == Taken(queue[n - 1])
    requires Leads(own, accept, admits, s, before, queue, n - 1)
    ensures Leads(own, accept, admits, s, StatusIfTaken(own, accept, admits, before, queue[n - 1].now, c), queue, n)
  {
    StatusParts(own, accept, admits, before, queue[n - 1].now, c);
    OneMoreTaken(own, accept, admits, s, queue, n, c);
  }

  lemma StatusParts(own: Word, accept: bool, admits: bool, s: Status, now: DWord, c: Option<CommandCodec.Command>)
    ensures var t := StatusIfTaken(own, accept, admits, s, now, c);
            && t.table == (if c.None? then s.table else TableAfter(s.table, c.value, admits))
            && t.sent == s.sent + ReplyIfTaken(own, accept, now, c)
            && t.sync == (if c.Some? && c.value.Sync? then ClockSync.React(own, now, c.value).sync else s.sync)
  {
    assert s.sent + [] == s.sent;
  }

  lemma OneMoreTaken(own: Word, accept: bool, admits: bool, s: Status, queue: seq<Arrival>, n: nat,
                     c: Option<CommandCodec.Command>)
    requires 0 < n <= |queue| && c == Taken(queue[n - 1])
    ensures TableAfterAll(s.table, Incoming(queue, n), admits)
         == if c.None? then TableAfterAll(s.table, Incoming(queue, n - 1), admits)
            else TableAfter(TableAfterAll(s.table, Incoming(queue, n - 1), admits), c.value, admits)
    ensures s.sent + Replies(own, accept, queue, n)
         == (s.sent + Replies(own, accept, queue, n - 1)) + ReplyIfTaken(own, accept, queue[n - 1].now, c)
  {
    var cs := Incoming(queue, n - 1);
    if c.None? {
      assert cs + [] == cs;
    } else {
      TableAfterOneMore(s.table, cs, c.value, admits);
    }
    ThreeParts(s.sent, Replies(own, accept, queue, n - 1), ReplyIfTaken(own, accept, queue[n - 1].now, c));
  }

  lemma ThreeParts(a: seq<CommandCodec.Command>, b: seq<CommandCodec.Command>, c: seq<CommandCodec.Command>)
    ensures a + b + c == a + (b + c)
  {
  }

  predicate TakesSync(a: Arrival) {
    Taken(a).Some? && Taken(a).value.Sync?
  }

  /** The last synchronization of a queue decides the sync flag. */
  lemma {:induction false} LastSyncDecides(own: Word, accept: bool, admits: bool, s: Status, queue: seq<Arrival>,
                                           n: nat, i: nat)
    requires i < n <= |queue| && TakesSync(queue[i]) && forall j :: i < j < n ==> !TakesSync(queue[j])
    ensures StatusAfterAll(own, accept, admits, s, queue, n).sync
         == ClockSync.React(own, queue[i].now, Taken(queue[i]).value).sync
  {
    var before, c := StatusAfterAll(own, accept, admits, s, queue, n - 1), Taken(queue[n - 1]);
    StatusParts(own, accept, admits, before, queue[n - 1].now, c);
    if i < n - 1 {
      LastSyncDecides(own, accept, admits, s, queue, n - 1, i);
      assert !TakesSync(queue[n - 1]);
    }
  }

  // ----- the course of a queue: the status before the first message and after every one -----

  ghost predicate Follows(queue: seq<Arrival>, own: Word, accept: bool, admits: bool, course: seq<Status>, i: nat)
    requires i < |queue| && i + 1 < |course|
  {
    course[i + 1] == StatusIfTaken(own, accept, admits, course[i], queue[i].now, Taken(queue[i]))
  }

  ghost predicate IsCourse(queue: seq<Arrival>, n: nat, own: Word, accept: bool, admits: bool, course: seq<Status>) {
    n <= |queue| && |course| == n + 1 && forall i :: 0 <= i < n ==> Follows(queue, own, accept, admits, course, i)
  }

  /** Every queue has a course from every status, and it ends where all messages together lead to. */
  lemma {:induction false} Foresee(queue: seq<Arrival>, n: nat, own: Word, accept: bool, admits: bool, s: Status)
    returns (course: seq<Status>)
    requires n <= |queue|
    ensures IsCourse(queue, n, own, accept, admits, course)
    ensures course[0] == s && course[n] == StatusAfterAll(own, accept, admits, s, queue, n)
  {
    if n == 0 {
      course := [s];
    } else {
      var before := Foresee(queue, n - 1, own, accept, admits, s);
      course := before + [StatusAfterAll(own, accept, admits, s, queue, n)];
      forall i | 0 <= i < n ensures Follows(queue, own, accept, admits, course, i) {
        if i < n - 1 {
          assert Follows(queue, own, accept, admits, before, i);
          StillFollows(queue, own, accept, admits, before, course, i);
        }
      }
    }
  }

  lemma StillFollows(queue: seq<Arrival>, own: Word, accept: bool, admits: bool,
                     before: seq<Status>, course: seq<Status>, i: nat)
    requires before <= course && i < |queue| && i + 1 < |before| && Follows(queue, own, accept, admits, before, i)
    ensures Follows(queue, own, accept, admits, course, i)
  {
    assert course[i] == before[i] && course[i + 1] == before[i + 1];
  }

  lemma CourseStep(queue: seq<Arrival>, own: Word, accept: bool, admits: bool, course: seq<Status>, i: nat,
                   taken: Option<CommandCodec.Command>)
    requires IsCourse(queue, |queue|, own, accept, admits, course) && i < |queue| && taken == Taken(queue[i])
    ensures course[i + 1] == StatusIfTaken(own, accept, admits, course[i], queue[i].now, taken)
  {
    assert Follows(queue, own, accept, admits, course, i);
  }

  // ----- what is heard, in terms of the bytes -----

  /** The bytes of an unlocked message that make it a command: the signature, the letters and the length. */
  predicate IsCommand(bytes: seq<Byte>) {
    && |bytes| >= 4 && bytes[0] == bytes[1] == 0xff
    && if IsLetters(bytes, "IN") || IsLetters(bytes, "OK") || IsLetters(bytes, "NO") || IsLetters(bytes, "BY")
       then |bytes| >= 16
       else (IsLetters(bytes, "CK") && |bytes| == 36) || (IsLetters(bytes, "RS") && |bytes| == 12)
  }

  predicate IsLetters(bytes: seq<Byte>, letters: string)
    requires |bytes| >= 4 && |letters| == 2
  {
    bytes[2] == letters[0] as int && bytes[3] == letters[1] as int
  }

  /** A command is taken from a message if and only if the lock is free and the message is one. */
  lemma TakenIff(a: Arrival)
    ensures Taken(a).Some? <==> a.unlocked && IsCommand(a.bytes)
  {
    if |a.bytes| >= 4 {
      SignatureBytes(a.bytes[0], a.bytes[1]);
      SignatureBytes(a.bytes[2], a.bytes[3]);
      assert FromBe16(a.bytes[..2]) == (a.bytes[0] as int) * 0x100 + a.bytes[1];
      assert FromBe16(a.bytes[2..4]) == (a.bytes[2] as int) * 0x100 + a.bytes[3];
    }
  }

  lemma SignatureBytes(high: nat, low: nat)
    requires high < 0x100 && low < 0x100
    ensures high * 0x100 + low == 0xffff <==> high == 0xff && low == 0xff
    ensures high * 0x100 + low == 0x494e <==> high == 'I' as int && low == 'N' as int
    ensures high * 0x100 + low == 0x4f4b <==> high == 'O' as int && low == 'K' as int
    ensures high * 0x100 + low == 0x4e4f <==> high == 'N' as int && low == 'O' as int
    ensures high * 0x100 + low == 0x4259 <==> high == 'B' as int && low == 'Y' as int
    ensures high * 0x100 + low == 0x434b <==> high == 'C' as int && low == 'K' as int
    ensures high * 0x100 + low == 0x5253 <==> high == 'R' as int && low == 'S' as int
  {
  }

  /** A message that holds a command when the lock is free. */
  predicate Carries(a: Arrival, c: CommandCodec.Command) {
    a.unlocked && CommandCodec.WellFormed(c) && a.bytes == CommandCodec.Encoded(c)
  }

  /** Whatever well-formed command a message holds is taken from it, as it arrives. */
  lemma CarriedIsTaken(a: Arrival, c: CommandCodec.Command)
    requires Carries(a, c)
    ensures Taken(a) == Some(CommandCodec.Arrived(c, a.heldName))
  {
    CommandCodec.StartOf(c);
    CommandCodec.Arrives(c, a.heldName);
  }

  /** The commands that arrive from a queue of messages that hold `cs`. */
  function ArrivedAll(queue: seq<Arrival>, cs: seq<CommandCodec.Command>, n: nat): seq<CommandCodec.Command>
    requires n <= |queue| == |cs|
  {
    if n == 0 then []
    else ArrivedAll(queue, cs, n - 1) + [CommandCodec.Arrived(cs[n - 1], queue[n - 1].heldName)]
  }

  predicate AllArrive(queue: seq<Arrival>, cs: seq<CommandCodec.Command>) {
    && |queue| == |cs|
    && forall i :: 0 <= i < |queue| ==> ArrivesAs(queue[i], cs[i])
  }

  predicate ArrivesAs(a: Arrival, c: CommandCodec.Command) {
    Taken(a) == Some(CommandCodec.Arrived(c, a.heldName))
  }

  lemma ArrivedAreListed(queue: seq<Arrival>, cs: seq<CommandCodec.Command>)
    requires AllArrive(queue, cs)
    ensures Incoming(queue, |queue|) == ArrivedAll(queue, cs, |queue|)
  {
    var n := 0;
    while n < |queue|
      invariant n <= |queue| && Incoming(queue, n) == ArrivedAll(queue, cs, n)
    {
      n := n + 1;
      NextIsListed(queue, cs, n);
    }
  }

  lemma NextIsListed(queue: seq<Arrival>, cs: seq<CommandCodec.Command>, n: nat)
    requires AllArrive(queue, cs) && 0 < n <= |queue|
    requires Incoming(queue, n - 1) == ArrivedAll(queue, cs, n - 1)
    ensures Incoming(queue, n) == ArrivedAll(queue, cs, n)
  {
    assert ArrivesAs(queue[n - 1], cs[n - 1]);
    var arrived := CommandCodec.Arrived(cs[n - 1], queue[n - 1].heldName);
    assert Listed(Some(arrived)) == [arrived];
  }

  /** From messages that hold well-formed commands exactly these are taken, in order. */
  lemma CarriedAreTaken(queue: seq<Arrival>, cs: seq<CommandCodec.Command>)
    requires |queue| == |cs| && forall i :: 0 <= i < |queue| ==> Carries(queue[i], cs[i])
    ensures Incoming(queue, |queue|) == ArrivedAll(queue, cs, |queue|)
  {
    forall i | 0 <= i < |queue|
      ensures ArrivesAs(queue[i], cs[i])
    {
      CarriedIsTaken(queue[i], cs[i]);
    }
    ArrivedAreListed(queue, cs);
  }

  /** A message that is locked out, or holds no command, changes nothing. */
  lemma UnheardChangesNothing(own: Word, accept: bool, admits: bool, s: Status, a: Arrival)
    requires !a.unlocked || !IsCommand(a.bytes)
    ensures StatusIfTaken(own, accept, admits, s, a.now, Taken(a)) == s
  {
    TakenIff(a);
  }

  /** What is heard is done: the status after a message is that after the command it holds. */
  lemma HeardIsDone(own: Word, accept: bool, admits: bool, s: Status, a: Arrival, c: CommandCodec.Command,
                    arrived: CommandCodec.Command)
    requires Carries(a, c) && arrived == CommandCodec.Arrived(c, a.heldName)
    ensures StatusIfTaken(own, accept, admits, s, a.now, Taken(a))
         == StatusAfter(own, accept, admits, s, a.now, arrived)
  {
    CarriedIsTaken(a, c);
  }

  /** The end of a session takes its SSRC out of the table once, and that is all. */
  lemma EndSessionHeard(own: Word, accept: bool, admits: bool, s: Status, a: Arrival, c: CommandCodec.Command)
    requires Carries(a, c) && c.Session? && c.kind == CommandCodec.ENDSESSION
    ensures StatusIfTaken(own, accept, admits, s, a.now, Taken(a)) == s.(table := s.table - multiset{c.ssrc})
  {
    var arrived := CommandCodec.Arrived(c, a.heldName);
    HeardIsDone(own, accept, admits, s, a, c, arrived);
    EndSessionDone(own, accept, admits, s, a.now, arrived);
  }

  lemma EndSessionDone(own: Word, accept: bool, admits: bool, s: Status, now: DWord, c: CommandCodec.Command)
    requires c.Session? && c.kind == CommandCodec.ENDSESSION
    ensures StatusAfter(own, accept, admits, s, now, c) == s.(table := s.table - multiset{c.ssrc})
  {
    assert s.sent + [] == s.sent;
  }

  /**
   An invitation puts its SSRC into the table, if it is to be stored and there is space, and is
   answered with "OK" or "NO", the driver's own SSRC, and the version, token and name it came with.
   */
  lemma InvitationHeard(own: Word, accept: bool, admits: bool, s: Status, a: Arrival, c: CommandCodec.Command)
    requires Carries(a, c) && c.Session? && c.kind == CommandCodec.INVITATION
    ensures var name := if c.name == [] then a.heldName else c.name;
            StatusIfTaken(own, accept, admits, s, a.now, Taken(a))
            == s.(table := if admits && |s.table| < 16 then s.table + multiset{c.ssrc} else s.table,
                  sent := s.sent + [CommandCodec.Session(if accept then 0x4f4b else 0x4e4f,
                                                         c.version, c.token, own, name)])
  {
    var arrived := CommandCodec.Arrived(c, a.heldName);
    HeardIsDone(own, accept, admits, s, a, c, arrived);
    InvitationDone(own, accept, admits, s, a.now, arrived);
  }

  lemma InvitationDone(own: Word, accept: bool, admits: bool, s: Status, now: DWord, c: CommandCodec.Command)
    requires c.Session? && c.kind == CommandCodec.INVITATION
    ensures StatusAfter(own, accept, admits, s, now, c)
         == s.(table := if admits && |s.table| < 16 then s.table + multiset{c.ssrc} else s.table,
               sent := s.sent + [CommandCodec.Session(if accept then 0x4f4b else 0x4e4f,
                                                      c.version, c.token, own, c.name)])
  {
  }

  /** What the inviter makes of the answer. */
  lemma InviterReceives(accept: bool, version: Word, token: Word, own: Word, name: CommandCodec.Name, held: seq<Byte>)
    requires |name| <= 47
    ensures var answer := Accepting(accept, version, token, own, name);
            && CommandCodec.Test(CommandCodec.Encoded(answer))
            && CommandCodec.Receive(CommandCodec.Encoded(answer), held)
            == Some(CommandCodec.Session(if accept then 0x4f4b else 0x4e4f, version, token, own,
                                         if name == [] then held else name))
  {
    var answer := Accepting(accept, version, token, own, name);
    CommandCodec.StartOf(answer);
    CommandCodec.Arrives(answer, held);
  }

  /** A CK0, CK1 or CK2 of another driver leaves the table; a CK0 or CK1 is answered with the next count. */
  lemma SyncHeard(own: Word, accept: bool, admits: bool, s: Status, a: Arrival, c: CommandCodec.Command)
    requires Carries(a, c) && c.Sync? && c.ssrc != own && c.count <= 2
    ensures StatusIfTaken(own, accept, admits, s, a.now, Taken(a)) == Synchronized(own, s, a.now, c)
  {
    HeardIsDone(own, accept, admits, s, a, c, c);
    SyncDone(own, accept, admits, s, a.now, c);
  }

  /** The status after a CK0, CK1 or CK2 of another driver. */
  ghost function Synchronized(own: Word, s: Status, now: DWord, c: CommandCodec.Command): Status
    requires c.Sync? && c.count <= 2
  {
    var answers :=
      if c.count == 0 then [CommandCodec.Sync(own, 1, c.timestamp1, now, c.timestamp3)]
      else if c.count == 1 then [CommandCodec.Sync(own, 2, c.timestamp1, c.timestamp2, now)]
      else [];
    Status(s.table, s.sent + answers, if c.count == 0 then 2 else 0,
           if c.ssrc in s.table then Some(c.ssrc) else s.current)
  }

  lemma SyncDone(own: Word, accept: bool, admits: bool, s: Status, now: DWord, c: CommandCodec.Command)
    requires c.Sync? && c.ssrc != own && c.count <= 2
    ensures StatusAfter(own, accept, admits, s, now, c) == Synchronized(own, s, now, c)
  {
  }

  /** The driver answers exactly what the network of drivers puts in flight. */
  lemma RepliesAreInFlight(s: ClockSync.Net, x: nat, accept: bool)
    requires ClockSync.Inv(s) && ClockSync.Enabled(s, ClockSync.Deliver(x))
    ensures var node := s.nodes[s.flight[x].dst];
            var t := ClockSync.Step(s, ClockSync.Deliver(x));
            Reply(node.ssrc, accept, node.clock, s.flight[x].ck) == if x in t.flight then [t.flight[x].ck] else []
  {
  }

  // ----- answers that fit the sender's buffer -----

  predicate AllFit(cs: seq<CommandCodec.Command>) {
    forall i :: 0 <= i < |cs| ==> CommandCodec.WellFormed(cs[i])
  }

  /** An invitation brings a name, or leaves the held one in place, that the answer has no space for. */
  predicate NameTooLong(a: Arrival) {
    && Heard(a) && |a.bytes| >= 16 && FromBe16(a.bytes[2..4]) == CommandCodec.INVITATION
    && if |a.bytes| == 16 then |a.heldName| > 47
       else |a.bytes| >= 64 && forall i :: 16 <= i < 64 ==> a.bytes[i] != 0
  }

  /** A C string is as long as there are bytes before the first zero. */
  lemma {:induction false} CStringLength(b: seq<Byte>, n: nat)
    requires n <= |b|
    ensures CommandCodec.IsCString(CommandCodec.CString(b)) && |CommandCodec.CString(b)| <= |b|
    ensures |CommandCodec.CString(b)| >= n <==> forall i :: 0 <= i < n ==> b[i] != 0
    decreases |b|
  {
    if b != [] && b[0] != 0 {
      var rest := b[1..];
      CStringLength(rest, if n == 0 then 0 else n - 1);
      assert forall i :: 0 < i < n ==> b[i] == rest[i - 1];
      assert forall i :: 0 <= i < n - 1 ==> rest[i] == b[i + 1];
    }
  }

  /** What a message leaves as the name of its command. */
  lemma ReceivedName(a: Arrival)
    requires Heard(a) && Taken(a).Some? && Taken(a).value.Session?
    ensures |a.bytes| >= 16 && Taken(a).value.kind == FromBe16(a.bytes[2..4])
    ensures CommandCodec.NameFits(Taken(a).value.name)
       <==> if |a.bytes| == 16 then |a.heldName| <= 47
            else !(|a.bytes| >= 64 && forall i :: 16 <= i < 64 ==> a.bytes[i] != 0)
  {
    if |a.bytes| > 16 {
      NameIsLong(a.bytes);
    }
  }

  lemma NameIsLong(bytes: seq<Byte>)
    requires |bytes| > 16
    ensures var name := CommandCodec.CString(CommandCodec.NamePart(bytes));
            && CommandCodec.IsCString(name)
            && (|name| > 47 <==> |bytes| >= 64 && forall i :: 16 <= i < 64 ==> bytes[i] != 0)
  {
    var part := CommandCodec.NamePart(bytes);
    if |part| >= 48 {
      CStringLength(part, 48);
      assert forall i :: 16 <= i < 64 ==> bytes[i] == part[i - 16];
      assert forall i :: 0 <= i < 48 ==> part[i] == bytes[i + 16];
    } else {
      CStringLength(part, 0);
    }
  }

  /** The answer to a message fits the buffer exactly unless the name is too long. */
  lemma ReplyFits(own: Word, accept: bool, a: Arrival)
    ensures AllFit(ReplyIfTaken(own, accept, a.now, Taken(a))) <==> !NameTooLong(a)
  {
    var taken := Taken(a);
    var reply := ReplyIfTaken(own, accept, a.now, taken);
    if taken.Some? && taken.value.Session? {
      ReceivedName(a);
      if taken.value.kind == CommandCodec.INVITATION {
        assert reply[0].name == taken.value.name;
      }
    }
  }

  lemma AllFitBoth(a: seq<CommandCodec.Command>, b: seq<CommandCodec.Command>)
    ensures AllFit(a + b) <==> AllFit(a) && AllFit(b)
  {
    if AllFit(a + b) {
      assert forall i :: 0 <= i < |a| ==> (a + b)[i] == a[i];
      assert forall i :: 0 <= i < |b| ==> (a + b)[|a| + i] == b[i];
    }
  }

  /** None of the first n messages is an invitation with a name that is too long. */
  predicate NamesFit(queue: seq<Arrival>, n: nat)
    requires n <= |queue|
  {
    forall i :: 0 <= i < n ==> !NameTooLong(queue[i])
  }

  lemma NamesFitOneMore(queue: seq<Arrival>, n: nat)
    requires 0 < n <= |queue|
    ensures NamesFit(queue, n) <==> NamesFit(queue, n - 1) && !NameTooLong(queue[n - 1])
  {
  }

  /** Without messages there is nothing that has to fit. */
  lemma NoRepliesFit(own: Word, accept: bool, queue: seq<Arrival>)
    ensures AllFit(Replies(own, accept, queue, 0)) && NamesFit(queue, 0)
  {
  }

  /** All answers to a queue fit the sender's buffer if and only if no invitation has a name that is too long. */
  lemma {:induction false} RepliesFit(own: Word, accept: bool, queue: seq<Arrival>, n: nat)
    requires n <= |queue|
    ensures AllFit(Replies(own, accept, queue, n)) <==> NamesFit(queue, n)
    decreases n
  {
    if n == 0 {
      NoRepliesFit(own, accept, queue);
    } else {
      RepliesFit(own, accept, queue, n - 1);
      RepliesFitNext(own, accept, queue, n);
    }
  }

  lemma RepliesFitNext(own: Word, accept: bool, queue: seq<Arrival>, n: nat)
    requires 0 < n <= |queue|
    requires AllFit(Replies(own, accept, queue, n - 1)) <==> NamesFit(queue, n - 1)
    ensures AllFit(Replies(own, accept, queue, n)) <==> NamesFit(queue, n)
  {
    RepliesFitOneMore(own, accept, queue, n);
    NamesFitOneMore(queue, n);
  }

  lemma RepliesFitOneMore(own: Word, accept: bool, queue: seq<Arrival>, n: nat)
    requires 0 < n <= |queue|
    ensures AllFit(Replies(own, accept, queue, n)) <==>
            AllFit(Replies(own, accept, queue, n - 1)) && !NameTooLong(queue[n - 1])
  {
    var before, a := Replies(own, accept, queue, n - 1), queue[n - 1];
    var reply := ReplyIfTaken(own, accept, a.now, Taken(a));
    assert Replies(own, accept, queue, n) == before + reply;
    ReplyFits(own, accept, a);
    AllFitBoth(before, reply);
  }

  class Driver {
    const rtp: Session
    var accept: bool
    var sync: nat
    var peer: Peer?
    const token: Word
    const name: CommandCodec.Name
    /** The command under way, and the address family of where it is to go. */
    var command: CommandCodec.Command
    var family: Half
    /** The commands that were given to a socket. */
    var sent: seq<CommandCodec.Command>

    constructor (rtp: Session, accept: bool, token: Word, name: CommandCodec.Name)
      ensures this.rtp == rtp && this.accept == accept && this.token == token && this.name == name
      ensures sync == 0 && peer == null && family == 0 && sent == []
    {
      this.rtp, this.accept, this.token, this.name := rtp, accept, token, name;
      sync, peer, family, sent := 0, null, 0, [];
      command := CommandCodec.Sync(0, 0, 0, 0, 0);
    }

    /** A fresh peer for the table, which takes over the only reference; without a free slot it is freed. */
    method Enlist(ssrc: Word) returns (stored: bool, peer: Peer, ghost slot: nat)
      requires rtp.Valid()
      modifies rtp.peers
      ensures rtp.Valid()
      ensures fresh(peer) && peer.ssrc == ssrc && (peer.live <==> stored)
      ensures stored <==> null in old(rtp.peers[..])
      ensures stored ==>
                FirstProbed(old(rtp.peers[..]), ssrc, null, slot) && rtp.peers[..] == old(rtp.peers[..])[slot := peer]
      ensures !stored ==> rtp.peers[..] == old(rtp.peers[..])
      ensures rtp.Stored() == if stored then old(rtp.Stored()) + {peer} else old(rtp.Stored())
    {
      ghost var slots := rtp.peers[..];
      peer := new Peer(ssrc);
      NothingSent(rtp.wire, peer);
      stored, slot := rtp.AddPeer(peer);
      peer.Release();
      assert stored ==> rtp.peers[slot] == peer;
      assert stored ==> forall i :: 0 <= i < 16 && i != slot ==> rtp.peers[i] == slots[i];
    }

    /** A stored peer leaves the table, which held its only reference. */
    method Evict(peer: Peer) returns (ghost slot: nat)
      requires rtp.Valid() && peer in rtp.Stored()
      modifies rtp.peers, peer`refs, peer`live
      ensures rtp.Valid() && !peer.live
      ensures slot < 16 && old(rtp.peers[slot]) == peer && rtp.peers[..] == old(rtp.peers[..])[slot := null]
      ensures rtp.Stored() == old(rtp.Stored()) - {peer}
    {
      ghost var slots := rtp.peers[..];
      var ok;
      ok, slot := rtp.RemovePeer(peer);
      assert forall i :: 0 <= i < 16 && i != slot ==> rtp.peers[i] == slots[i];
    }

    /** A peer with this SSRC leaves the table and is freed, if there is one. */
    method ForgetPeer(ssrc: Word) returns (gone: Peer?, ghost slot: nat)
      requires rtp.Valid()
      modifies rtp.peers, rtp.Stored()`refs, rtp.Stored()`live
      ensures rtp.Valid()
      ensures gone == null <==> forall p :: p in old(rtp.Stored()) ==> p.ssrc != ssrc
      ensures gone == null ==> rtp.peers[..] == old(rtp.peers[..]) && rtp.Stored() == old(rtp.Stored())
      ensures gone != null ==>
                && gone in old(rtp.Stored()) && gone.ssrc == ssrc && !gone.live
                && slot < 16 && old(rtp.peers[slot]) == gone && rtp.peers[..] == old(rtp.peers[..])[slot := null]
                && rtp.Stored() == old(rtp.Stored()) - {gone}
    {
      slot := 16;
      gone := rtp.FindPeerBySSRC(ssrc);
      if gone != null {
        slot := Evict(gone);
      }
    }

    /** The SSRC of the current peer. */
    function Current(): Option<Word>
      reads this
    {
      if peer == null then None else Some(peer.ssrc)
    }

    ghost function Now(): Status
      reads this, rtp, rtp.peers
    {
      Status(Ssrcs(rtp.peers[..]), sent, sync, Current())
    }

    /** No peer of these has left the table but freed. */
    ghost predicate Freed(all: set<Peer>)
      reads rtp, rtp.peers, all
    {
      forall p :: p in all - rtp.Stored() ==> !p.live
    }

    /** The end of _applemidi_send_command: only an internet address lets the command reach a socket. */
    method SendCommand()
      modifies `sent
      ensures sent == old(sent) + Gate(family, [command])
    {
      if family == AF_INET {
        sent := sent + [command];
      }
    }

    /**
     _applemidi_disconnect_peer. The address that is copied for the farewell starts with the pointer
     to the peer's address, not with the address: no farewell reaches a socket.
     */
    method DisconnectPeer(peer: Peer, pointer: Pointer) returns (ghost slot: nat)
      requires rtp.Valid() && peer in rtp.Stored()
      modifies rtp.peers, peer`refs, peer`live, `command, `family, `sent
      ensures rtp.Valid() && !peer.live
      ensures slot < 16 && old(rtp.peers[slot]) == peer && rtp.peers[..] == old(rtp.peers[..])[slot := null]
      ensures rtp.Stored() == old(rtp.Stored()) - {peer}
      ensures command == CommandCodec.Session(CommandCodec.ENDSESSION, 2, token, rtp.ssrc, name)
      ensures family == pointer % 0x1_0000 && sent == old(sent)
    {
      ghost var slots := rtp.peers[..];
      family := pointer % 0x1_0000;
      command := CommandCodec.Session(CommandCodec.ENDSESSION, 2, token, rtp.ssrc, name);
      NotInternet(pointer);
      SendCommand();
      assert rtp.peers[..] == slots;
      slot := Evict(peer);
    }

    /** The first peer of the table and its slot, or no peer and the end of the table. */
    ghost predicate IsFirst(peer: Peer?, slot: nat)
      requires rtp.peers.Length == 16
      reads rtp.peers
    {
      && slot <= 16 && (peer == null <==> slot == 16) && (slot < 16 ==> rtp.peers[slot] == peer)
      && forall j :: 0 <= j < slot ==> rtp.peers[j] == null
    }

    /** One turn of the loop: the first peer leaves the table, and the next one is the first. */
    method DisconnectFirst(peer: Peer, pointer: Pointer, ghost slot: nat,
                           ghost all: set<Peer>, ghost peers: seq<Peer>)
      returns (next: Peer?, ghost nextSlot: nat, ghost rest: seq<Peer>)
      requires rtp.Valid() && IsFirst(peer, slot) && Freed(all) && peers == Occupied(rtp.peers[..])
      modifies rtp.peers, peer`refs, peer`live, `command, `family, `sent
      ensures rtp.Valid() && IsFirst(next, nextSlot) && Freed(all) && rtp.Stored() == old(rtp.Stored()) - {peer}
      ensures rest == Occupied(rtp.peers[..]) && peers == [peer] + rest && sent == old(sent)
    {
      FirstOccupied(rtp.peers[..], slot);
      ghost var at := DisconnectPeer(peer, pointer);
      assert at == slot;
      rest := Occupied(rtp.peers[..]);
      next, nextSlot := FirstPeer();
    }

    method FirstPeer() returns (peer: Peer?, ghost slot: nat)
      requires rtp.Valid()
      ensures rtp.Valid() && rtp.peers[..] == old(rtp.peers[..]) && rtp.Stored() == old(rtp.Stored())
      ensures IsFirst(peer, slot)
    {
      var ok;
      ok, peer, slot := rtp.NextPeer(null, 0);
    }

    /** The loop of _applemidi_disconnect, from the first peer on. */
    method DisconnectAll(first: Peer?, addressOf: Peer -> Pointer, ghost firstSlot: nat, ghost all: seq<Peer>)
      returns (ghost visits: seq<Peer>, ghost rest: seq<Peer>)
      requires rtp.Valid() && IsFirst(first, firstSlot) && all == Occupied(rtp.peers[..])
      modifies rtp.peers, rtp.Stored()`refs, rtp.Stored()`live, `command, `family, `sent
      ensures rtp.Valid() && Freed(old(rtp.Stored())) && IsFirst(null, 16)
      ensures visits + rest == all && rest == Occupied(rtp.peers[..]) && sent == old(sent)
    {
      ghost var slot, stored := firstSlot, rtp.Stored();
      visits, rest := [], all;
      var peer := first;
      while peer != null
        invariant rtp.Valid() && rtp.Stored() <= stored && IsFirst(peer, slot) && Freed(stored)
        invariant rest == Occupied(rtp.peers[..]) && visits + rest == all && sent == old(sent)
        decreases |rest|
      {
        var here := peer;
        ghost var before := visits;
        visits := before + [here];
        peer, slot, rest := DisconnectFirst(here, addressOf(here), slot, stored, rest);
        OneVisited(before, here, rest);
      }
    }

    /**
     _applemidi_disconnect: the first peer is disconnected and leaves the table, and the search starts
     again. Afterwards the table is empty, every peer was visited once and is freed; but nothing was
     sent. `addressOf` is where the peers' addresses are in memory.
     */
    method Disconnect(addressOf: Peer -> Pointer) returns (ghost visits: seq<Peer>)
      requires rtp.Valid()
      modifies rtp.peers, rtp.Stored()`refs, rtp.Stored()`live, `command, `family, `sent
      ensures rtp.Valid() && Occupied(rtp.peers[..]) == []
      ensures visits == Occupied(old(rtp.peers[..])) && sent == old(sent)
      ensures forall p :: p in old(rtp.Stored()) ==> !p.live
    {
      var peer;
      ghost var slot;
      peer, slot := FirstPeer();
      ghost var rest;
      visits, rest := DisconnectAll(peer, addressOf, slot, Occupied(rtp.peers[..]));
      OccupiedOfEmpty(rtp.peers[..]);
      assert rtp.Stored() == {};
    }

    /** Some stored peer has this SSRC. */
    ghost predicate IsStored(ssrc: Word)
      reads rtp, rtp.peers
    {
      exists p :: p in rtp.Stored() && p.ssrc == ssrc
    }

    /**
     _applemidi_sync on the driver's own command: the reaction replaces the command and the sync flag,
     a command of another driver makes its peer the current one, if that is stored, and a reply is sent.
     */
    method SyncCommand(now: DWord)
      requires rtp.Valid() && command.Sync?
      modifies `command, `sync, `peer, `sent
      ensures rtp.Valid() && rtp.peers[..] == old(rtp.peers[..])
      ensures command == ClockSync.React(rtp.ssrc, now, old(command)).command
      ensures sync == ClockSync.React(rtp.ssrc, now, old(command)).sync
      ensures sent == old(sent) + Gate(family, Reply(rtp.ssrc, accept, now, old(command)))
      ensures old(command.ssrc) != rtp.ssrc && old(command.count) < 2 ==>
                command.count == old(command.count) + 1 && sent == old(sent) + Gate(family, [command])
      ensures old(command.ssrc) != rtp.ssrc && old(command.count) == 2 ==> sent == old(sent)
      ensures old(command.ssrc) == rtp.ssrc || old(command.count) > 2 ==>
                command.count == 0 && sent == old(sent) + Gate(family, [command])
      ensures if old(command.ssrc) != rtp.ssrc && old(command.count) <= 2 && IsStored(old(command.ssrc))
              then peer != null && peer in rtp.Stored() && peer.ssrc == old(command.ssrc)
              else peer == old(peer)
    {
      var c := command;
      if c.ssrc == rtp.ssrc || c.count > 2 {
        command := CommandCodec.Sync(rtp.ssrc, 0, now, c.timestamp2, c.timestamp3);
        sync := 1;
        SendCommand();
      } else {
        MeetPeer(c.ssrc);
        if c.count == 2 {
          command := c.(ssrc := rtp.ssrc, count := 3);
          sync := 0;
        } else if c.count == 1 {
          command := c.(ssrc := rtp.ssrc, count := 2, timestamp3 := now);
          sync := 0;
          SendCommand();
        } else {
          command := c.(ssrc := rtp.ssrc, count := 1, timestamp2 := now);
          sync := 2;
          SendCommand();
        }
      }
    }

    /** A stored peer with this SSRC becomes the current one; without one the current peer stays. */
    method MeetPeer(ssrc: Word)
      requires rtp.Valid()
      modifies `peer
      ensures if IsStored(ssrc) then peer != null && peer in rtp.Stored() && peer.ssrc == ssrc else peer == old(peer)
    {
      var found := rtp.FindPeerBySSRC(ssrc);
      if found != null {
        peer := found;
      }
    }

    /**
     The part of an accepted invitation on the RTP socket: RTPPeerCreate, RTPSessionAddPeer,
     RTPPeerRelease. The inviter is stored unless sixteen peers are.
     */
    method AdmitPeer(ssrc: Word) returns (peer: Peer)
      requires rtp.Valid()
      modifies rtp.peers
      ensures rtp.Valid()
      ensures fresh(peer) && peer.ssrc == ssrc && (peer.live <==> peer in rtp.Stored())
      ensures old(rtp.Stored()) <= rtp.Stored() <= old(rtp.Stored()) + {peer}
      ensures Ssrcs(rtp.peers[..]) == WithInviter(Ssrcs(old(rtp.peers[..])), ssrc)
      ensures Ssrcs(rtp.peers[..])
           == Ssrcs(old(rtp.peers[..])) + if null in old(rtp.peers[..]) then multiset{ssrc} else multiset{}
    {
      ghost var slots := rtp.peers[..];
      SsrcsCount(slots);
      OccupiedCount(slots);
      var stored;
      ghost var slot;
      stored, peer, slot := Enlist(ssrc);
      if stored {
        SsrcsAdded(slots, slot, peer);
      }
    }

    /** An invitation is answered with the driver's own SSRC, and stored if it is accepted on the RTP socket. */
    method AnswerInvitation(onRtpSocket: bool)
      requires rtp.Valid() && command.Session? && command.kind == CommandCodec.INVITATION
      modifies `command, `sent, rtp.peers
      ensures rtp.Valid() && old(rtp.Stored()) <= rtp.Stored() && fresh(rtp.Stored() - old(rtp.Stored()))
      ensures Ssrcs(rtp.peers[..])
           == if accept && onRtpSocket then WithInviter(Ssrcs(old(rtp.peers[..])), old(command.ssrc))
              else Ssrcs(old(rtp.peers[..]))
      ensures command == Accepting(accept, old(command.version), old(command.token), rtp.ssrc, old(command.name))
      ensures command.Session? && command.ssrc == rtp.ssrc && command.version == old(command.version)
      ensures command.token == old(command.token) && command.name == old(command.name)
      ensures command.kind == CommandCodec.INVITATION_ACCEPTED <==> accept
      ensures command.kind == CommandCodec.INVITATION_REJECTED <==> !accept
      ensures sent == old(sent) + Gate(family, [command])
    {
      if accept {
        if onRtpSocket {
          var inviter := AdmitPeer(command.ssrc);
        }
      }
      assert rtp.Valid();
      AnswerWith(if accept then CommandCodec.INVITATION_ACCEPTED else CommandCodec.INVITATION_REJECTED);
    }

    method AnswerWith(kind: Half)
      requires command.Session?
      modifies `command, `sent
      ensures command
           == CommandCodec.Session(kind, old(command.version), old(command.token), rtp.ssrc, old(command.name))
      ensures sent == old(sent) + Gate(family, [command])
    {
      command := CommandCodec.Session(kind, command.version, command.token, rtp.ssrc, command.name);
      SendCommand();
    }

    /** The end of a session takes one peer with its SSRC out of the table, if there is one, and frees it. */
    method EndSession(ssrc: Word)
      requires rtp.Valid()
      modifies rtp.peers, rtp.Stored()`refs, rtp.Stored()`live
      ensures rtp.Valid() && rtp.Stored() <= old(rtp.Stored())
      ensures Ssrcs(rtp.peers[..]) == Ssrcs(old(rtp.peers[..])) - multiset{ssrc}
      ensures forall p :: p in old(rtp.Stored()) - rtp.Stored() ==> !p.live && p.ssrc == ssrc
    {
      ghost var slots := rtp.peers[..];
      var gone;
      ghost var slot;
      gone, slot := ForgetPeer(ssrc);
      if gone != null {
        SsrcsRemoved(slots, slot, gone);
      } else {
        assert forall i :: 0 <= i < 16 && slots[i] != null ==> slots[i] in rtp.Stored();
        SsrcsMember(slots, ssrc);
      }
    }

    /** The SSRC of a stored peer is one of the table's. */
    lemma StoredSsrcs(ssrc: Word)
      requires rtp.Valid()
      ensures IsStored(ssrc) <==> ssrc in Ssrcs(rtp.peers[..])
    {
      var slots := rtp.peers[..];
      if IsStored(ssrc) {
        var p :| p in rtp.Stored() && p.ssrc == ssrc;
        var k :| 0 <= k < 16 && rtp.peers[k] == p;
        SsrcsContain(slots, k);
      } else {
        assert forall i :: 0 <= i < 16 && slots[i] != null ==> slots[i] in rtp.Stored();
        SsrcsMember(slots, ssrc);
      }
    }

    /** The SYNCHRONIZATION case: the table stays as it is. */
    method RespondSync(onRtpSocket: bool, now: DWord)
      requires rtp.Valid() && command.Sync?
      modifies `command, `sync, `peer, `sent
      ensures rtp.Valid() && rtp.Stored() == old(rtp.Stored())
      ensures Now() == StatusAfterGated(family, rtp.ssrc, accept, accept && onRtpSocket, old(Now()), now, old(command))
      ensures command == ClockSync.React(rtp.ssrc, now, old(command)).command
      ensures peer == old(peer) || (peer != null && peer in rtp.Stored())
    {
      StoredSsrcs(command.ssrc);
      SyncCommand(now);
    }

    /** The INVITATION case. */
    method RespondInvitation(onRtpSocket: bool, now: DWord)
      requires rtp.Valid() && command.Session? && command.kind == CommandCodec.INVITATION
      modifies `command, `sent, rtp.peers
      ensures rtp.Valid() && old(rtp.Stored()) <= rtp.Stored() && fresh(rtp.Stored() - old(rtp.Stored()))
      ensures Now() == StatusAfterGated(family, rtp.ssrc, accept, accept && onRtpSocket, old(Now()), now, old(command))
    {
      AnswerInvitation(onRtpSocket);
    }

    /** The ENDSESSION case. */
    method RespondEnd(onRtpSocket: bool, now: DWord)
      requires rtp.Valid() && command.Session? && command.kind == CommandCodec.ENDSESSION
      modifies rtp.peers, rtp.Stored()`refs, rtp.Stored()`live
      ensures rtp.Valid() && rtp.Stored() <= old(rtp.Stored())
      ensures forall p :: p in old(rtp.Stored()) - rtp.Stored() ==> !p.live
      ensures Now() == StatusAfterGated(family, rtp.ssrc, accept, accept && onRtpSocket, old(Now()), now, command)
    {
      EndTakesOne(family, rtp.ssrc, accept, accept && onRtpSocket, Now(), now, command);
      EndSession(command.ssrc);
    }

    /** _applemidi_respond: only invitations and ends of sessions touch the table. */
    method Respond(onRtpSocket: bool, now: DWord)
      requires rtp.Valid()
      modifies `command, `sync, `peer, `sent, rtp.peers, rtp.Stored()`refs, rtp.Stored()`live
      ensures rtp.Valid() && fresh(rtp.Stored() - old(rtp.Stored()))
      ensures forall p :: p in old(rtp.Stored()) - rtp.Stored() ==> !p.live
      ensures Now() == StatusAfterGated(family, rtp.ssrc, accept, accept && onRtpSocket, old(Now()), now, old(command))
      ensures peer == old(peer) || (peer != null && peer in rtp.Stored())
      ensures old(command).Sync? ==> command == ClockSync.React(rtp.ssrc, now, old(command)).command
    {
      if command.Session? && command.kind == CommandCodec.INVITATION {
        RespondInvitation(onRtpSocket, now);
      } else if command.Session? && command.kind == CommandCodec.ENDSESSION {
        RespondEnd(onRtpSocket, now);
      } else if command.Sync? {
        RespondSync(onRtpSocket, now);
      } else {
        OthersChangeNothing(family, rtp.ssrc, accept, accept && onRtpSocket, Now(), now, command);
      }
    }

    /** A command that was received is answered to where it came from. */
    method AnswerReceived(c: CommandCodec.Command, onRtpSocket: bool, now: DWord)
      requires rtp.Valid()
      modifies `command, `family, `sync, `peer, `sent, rtp.peers, rtp.Stored()`refs, rtp.Stored()`live
      ensures rtp.Valid() && fresh(rtp.Stored() - old(rtp.Stored()))
      ensures forall p :: p in old(rtp.Stored()) - rtp.Stored() ==> !p.live
      ensures Now() == StatusAfter(rtp.ssrc, accept, accept && onRtpSocket, old(Now()), now, c)
      ensures family == AF_INET
    {
      ghost var slots := rtp.peers[..];
      command, family := c, AF_INET;
      assert rtp.peers[..] == slots;
      Respond(onRtpSocket, now);
    }

    /** What was received, if anything, is answered. */
    method HandleReceived(heard: bool, received: Option<CommandCodec.Command>, onRtpSocket: bool, now: DWord)
      requires rtp.Valid() && (received.Some? ==> heard)
      modifies `command, `family, `sync, `peer, `sent, rtp.peers, rtp.Stored()`refs, rtp.Stored()`live
      ensures rtp.Valid() && fresh(rtp.Stored() - old(rtp.Stored()))
      ensures forall p :: p in old(rtp.Stored()) - rtp.Stored() ==> !p.live
      ensures Now() == StatusIfTaken(rtp.ssrc, accept, accept && onRtpSocket, old(Now()), now, received)
      ensures family == if heard then AF_INET else old(family)
    {
      if received.Some? {
        AnswerReceived(received.value, onRtpSocket, now);
      } else if heard {
        ghost var slots := rtp.peers[..];
        family := AF_INET;
        assert rtp.peers[..] == slots;
      }
    }

    /** The message in turn, on the course. */
    method HandleNext(queue: seq<Arrival>, i: nat, onRtpSocket: bool, ghost course: seq<Status>, ghost all: set<Peer>)
      returns (next: nat)
      requires rtp.Valid() && Freed(all)
      requires i < |queue| && IsCourse(queue, |queue|, rtp.ssrc, accept, accept && onRtpSocket, course)
      requires Now() == course[i]
      modifies `command, `family, `sync, `peer, `sent, rtp.peers, rtp.Stored()`refs, rtp.Stored()`live
      ensures next == i + 1 && rtp.Valid() && Freed(all) && fresh(rtp.Stored() - old(rtp.Stored()))
      ensures Now() == course[next]
    {
      var taken := Taken(queue[i]);
      CourseStep(queue, rtp.ssrc, accept, accept && onRtpSocket, course, i, taken);
      HandleReceived(Heard(queue[i]), taken, onRtpSocket, queue[i].now);
      next := i + 1;
    }

    /** The loop of _socket_callback over the messages of a queue, on the course. */
    method HandleAll(queue: seq<Arrival>, onRtpSocket: bool, ghost course: seq<Status>, ghost all: set<Peer>)
      requires rtp.Valid() && Freed(all)
      requires IsCourse(queue, |queue|, rtp.ssrc, accept, accept && onRtpSocket, course)
      requires Now() == course[0]
      modifies `command, `family, `sync, `peer, `sent, rtp.peers, rtp.Stored()`refs, rtp.Stored()`live
      ensures rtp.Valid() && Freed(all)
      ensures Now() == course[|queue|]
    {
      var i := 0;
      while i < |queue|
        invariant i <= |queue| && rtp.Valid() && Freed(all)
        invariant fresh(rtp.Stored() - old(rtp.Stored()))
        invariant Now() == course[i]
      {
        i := HandleNext(queue, i, onRtpSocket, course, all);
      }
    }

    /**
     _socket_callback: the messages of the queue do to the driver what their commands do one after the
     other, and no peer leaves the table but freed. The answers fit the sender's buffer unless an
     invitation has a name that is too long.
     */
    method HandleQueue(queue: seq<Arrival>, onRtpSocket: bool)
      requires rtp.Valid()
      modifies `command, `family, `sync, `peer, `sent, rtp.peers, rtp.Stored()`refs, rtp.Stored()`live
      ensures rtp.Valid() && Freed(old(rtp.Stored()))
      ensures forall p :: p in old(rtp.Stored()) - rtp.Stored() ==> !p.live
      ensures Now() == StatusAfterAll(rtp.ssrc, accept, accept && onRtpSocket, old(Now()), queue, |queue|)
      ensures AllFit(Replies(rtp.ssrc, accept, queue, |queue|)) <==> NamesFit(queue, |queue|)
    {
      ghost var course := Foresee(queue, |queue|, rtp.ssrc, accept, accept && onRtpSocket, Now());
      RepliesFit(rtp.ssrc, accept, queue, |queue|);
      HandleAll(queue, onRtpSocket, course, rtp.Stored());
    }

    /**
     _applemidi_idle_timeout. The peer behind the current one becomes the current one, unless the
     current one has left the table (`at` is where it is otherwise); and if no exchange is under way
     one is started. `copied` is the address family that is found in the memory of the current peer.
     */
    method IdleTimeout(now: DWord, leftOver: CommandCodec.Command, copied: Half, ghost at: nat)
      returns (ghost slot: nat)
      requires rtp.Valid() && leftOver.Sync?
      requires peer != null && peer in rtp.peers[..] ==> at < 16 && rtp.peers[at] == peer
      modifies `command, `family, `sync, `peer, `sent
      ensures old(peer) != null && old(peer) !in rtp.peers[..] ==> peer == old(peer)
      ensures old(peer) == null || old(peer) in rtp.peers[..] ==>
                && slot <= 16 && (peer == null <==> slot == 16) && (slot < 16 ==> rtp.peers[slot] == peer)
                && (old(peer) != null ==> at < slot)
                && forall j :: (if old(peer) == null then 0 else at + 1) <= j < slot ==> rtp.peers[j] == null
      ensures peer != null && old(sync) == 0 ==>
                && command == ClockSync.React(rtp.ssrc, now, ClockSync.StartCommand(rtp.ssrc, leftOver)).command
                && command == CommandCodec.Sync(rtp.ssrc, 0, now, leftOver.timestamp2, leftOver.timestamp3)
                && command.count == 0 && sync == 1 && sent == old(sent) + Gate(copied, [command])
      ensures peer == null || old(sync) != 0 ==> command == old(command) && sync == old(sync) && sent == old(sent)
    {
      var ok;
      ok, peer, slot := rtp.NextPeer(peer, at);
      if peer != null {
        if sync == 0 {
          family := copied;
          command := ClockSync.StartCommand(rtp.ssrc, leftOver);
          SyncCommand(now);
        }
      }
    }
  }

  lemma OneVisited(before: seq<Peer>, peer: Peer, rest: seq<Peer>)
    ensures before + [peer] + rest == before + ([peer] + rest)
  {
  }

  lemma FirstOccupied(slots: seq<Peer?>, slot: nat)
    requires slot < |slots| && slots[slot] != null
    requires forall j :: 0 <= j < slot ==> slots[j] == null
    ensures Occupied(slots) == [slots[slot]] + Occupied(slots[slot := null])
  {
    OccupiedUpdate(slots, slot, slots[slot]);
    OccupiedOfEmpty(slots[..slot]);
    var rest := Occupied(slots[slot + 1..]);
    assert [] + rest == rest && [] + [slots[slot]] == [slots[slot]];
  }
}
