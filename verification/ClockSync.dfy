/**
 The clock synchronisation of AppleMIDI: one driver's reaction to a synchronisation command, and a
 network of drivers that exchange such commands.
 */
module ClockSync {
  import opened Words
  import opened Wrappers
  import opened CommandCodec

  // ----- one driver -----

  /** What _applemidi_sync does with a command: its new contents, whether it is sent back, the sync flag. */
  datatype Reaction = Reaction(command: Command, sends: bool, sync: nat)

  /** _applemidi_sync for a driver with SSRC `own` at time `now`. */
  function React(own: Word, now: DWord, c: Command): Reaction
    requires c.Sync?
  {
    if c.ssrc == own || c.count > 2 then
      Reaction(Sync(own, 0, now, c.timestamp2, c.timestamp3), true, 1)
    else if c.count == 2 then
      Reaction(c.(ssrc := own, count := 3), false, 0)
    else if c.count == 1 then
      Reaction(c.(ssrc := own, count := 2, timestamp3 := now), true, 0)
    else
      Reaction(c.(ssrc := own, count := 1, timestamp2 := now), true, 2)
  }

  /** _applemidi_start_sync: a count above two and the driver's own SSRC; the times are left over. */
  function StartCommand(own: Word, leftOver: Command): Command
    requires leftOver.Sync?
  {
    leftOver.(ssrc := own, count := 3)
  }

  /** A 64-bit word as MIDITimestamp, which is signed. */
  function ToSigned(x: DWord): int {
    if x < 0x8000_0000_0000_0000 then x else x - 0x1_0000_0000_0000_0000
  }

  /** The time difference between peer and self that is computed from a CK2, in 64-bit arithmetic. */
  function Offset(c: Command, now: DWord): int
    requires c.Sync?
  {
    var delay := (c.timestamp3 - c.timestamp1) % 0x1_0000_0000_0000_0000 / 2;
    ToSigned((c.timestamp3 + delay - now) % 0x1_0000_0000_0000_0000)
  }

  /**
   An exchange between an initiator whose clock is ahead of real time by `a` and a responder whose
   clock is ahead by `b`, started at real time `start`, with immediate replies and delays d1, d2, d3.
   */
  function Exchange(own: Word, other: Word, leftOver: Command, a: int, b: int, start: int, d1: nat, d2: nat): Command
    requires leftOver.Sync?
    requires IsTime(start + a) && IsTime(start + d1 + b) && IsTime(start + d1 + d2 + a)
  {
    var ck0 := React(own, start + a, StartCommand(own, leftOver)).command;
    var ck1 := React(other, start + d1 + b, ck0).command;
    React(own, start + d1 + d2 + a, ck1).command
  }

  predicate IsTime(t: int) {
    0 <= t < 0x8000_0000_0000_0000
  }

  /** What the responder computes is off the true difference of the clocks by the asymmetry of the delays. */
  lemma OffsetError(own: Word, other: Word, leftOver: Command, a: int, b: int, start: int, d1: nat, d2: nat, d3: nat)
    requires own != other && leftOver.Sync?
    requires IsTime(start + a) && IsTime(start + d1 + b) && IsTime(start + d1 + d2 + a)
    requires IsTime(start + d1 + d2 + d3 + b)
    requires -0x8000_0000_0000_0000 <= a - b + (d1 + d2) / 2 - d3 < 0x8000_0000_0000_0000
    ensures var ck2 := Exchange(own, other, leftOver, a, b, start, d1, d2);
            Offset(ck2, start + d1 + d2 + d3 + b) == (a - b) + (d1 + d2) / 2 - d3
  {
    var ck2 := Exchange(own, other, leftOver, a, b, start, d1, d2);
    assert ck2.timestamp1 == start + a && ck2.timestamp3 == start + d1 + d2 + a;
    assert (ck2.timestamp3 - ck2.timestamp1) % 0x1_0000_0000_0000_0000 == d1 + d2;
  }

  /** With delays between dmin and dmax the computed offset is off by at most their difference. */
  lemma OffsetBound(own: Word, other: Word, leftOver: Command, a: int, b: int, start: int,
                    d1: nat, d2: nat, d3: nat, dmin: nat, dmax: nat)
    requires own != other && leftOver.Sync?
    requires dmin <= d1 <= dmax && dmin <= d2 <= dmax && dmin <= d3 <= dmax
    requires IsTime(start + a) && IsTime(start + d1 + b) && IsTime(start + d1 + d2 + a)
    requires IsTime(start + d1 + d2 + d3 + b)
    requires -0x8000_0000_0000_0000 <= a - b - (dmax - dmin) && a - b + (dmax - dmin) < 0x8000_0000_0000_0000
    ensures var offset := Offset(Exchange(own, other, leftOver, a, b, start, d1, d2), start + d1 + d2 + d3 + b);
            && -(dmax - dmin) <= offset - (a - b) <= dmax - dmin
            && (d1 == d2 == dmin && d3 == dmax ==> offset - (a - b) == -(dmax - dmin))
            && (d1 == d2 == dmax && d3 == dmin ==> offset - (a - b) == dmax - dmin)
  {
    HalfBetween(d1, d2, dmin, dmax);
    OffsetError(own, other, leftOver, a, b, start, d1, d2, d3);
  }

  lemma HalfBetween(d1: nat, d2: nat, dmin: nat, dmax: nat)
    requires dmin <= d1 <= dmax && dmin <= d2 <= dmax
    ensures dmin <= (d1 + d2) / 2 <= dmax
    ensures d1 == d2 ==> (d1 + d2) / 2 == d1
  {
  }

  // ----- a network of drivers -----

  datatype Node = Node(ssrc: Word, clock: DWord, sync: nat)

  /** A datagram with its source and destination, as indices of drivers. */
  datatype Datagram = Datagram(src: nat, dst: nat, ck: Command)

  /** A record of an exchange: who started it with whom, at which time, and when the other answered. */
  datatype Record = Record(initiator: nat, responder: nat, t1: DWord, t2: Option<DWord>)

  /**
   Drivers, the datagrams in flight, and what happened so far. A datagram is filed under the number
   of the exchange it belongs to; a reply belongs to the exchange of the datagram it answers.
   */
  datatype Net = Net(nodes: seq<Node>, flight: map<nat, Datagram>, records: seq<Record>, deliveries: nat)

  /**
   Time passes for a driver; its idle timer expires with a peer at hand; a datagram arrives, in any
   order; a datagram is lost.
   */
  datatype Event =
    | Tick(node: nat, clock: DWord)
    | Idle(node: nat, peer: nat, leftOver: Command)
    | Deliver(exchange: nat)
    | Lose(exchange: nat)

  predicate Enabled(s: Net, e: Event) {
    match e
    case Tick(i, clock) => i < |s.nodes| && s.nodes[i].clock <= clock
    case Idle(i, peer, leftOver) => i < |s.nodes| && peer < |s.nodes| && peer != i && leftOver.Sync?
    case Deliver(x) => x in s.flight && s.flight[x].ck.Sync? && s.flight[x].dst < |s.nodes| && x < |s.records|
    case Lose(x) => x in s.flight
  }

  function Step(s: Net, e: Event): Net
    requires Enabled(s, e)
  {
    match e
    case Tick(i, clock) => s.(nodes := s.nodes[i := s.nodes[i].(clock := clock)])
    case Idle(i, peer, leftOver) =>
      var node := s.nodes[i];
      if node.sync != 0 then s
      else
        var r := React(node.ssrc, node.clock, StartCommand(node.ssrc, leftOver));
        s.(nodes := s.nodes[i := node.(sync := r.sync)],
           flight := s.flight[|s.records| := Datagram(i, peer, r.command)],
           records := s.records + [Record(i, peer, node.clock, None)])
    case Deliver(x) =>
      var d := s.flight[x];
      var node := s.nodes[d.dst];
      var r := React(node.ssrc, node.clock, d.ck);
      var record := s.records[x];
      Net(s.nodes[d.dst := node.(sync := r.sync)],
          if r.sends then s.flight[x := Datagram(d.dst, d.src, r.command)] else s.flight - {x},
          s.records[x := if d.ck.count == 0 then record.(t2 := Some(node.clock)) else record],
          s.deliveries + 1)
    case Lose(x) => s.(flight := s.flight - {x})
  }

  /** Drivers that all have their own SSRC, and nothing in flight. */
  predicate Init(s: Net) {
    && (forall i, j :: 0 <= i < j < |s.nodes| ==> s.nodes[i].ssrc != s.nodes[j].ssrc)
    && s.flight == map[] && s.records == [] && s.deliveries == 0
  }

  /** A run: its states, one more than its events, each event possible where it happens. */
  ghost predicate IsRun(states: seq<Net>, events: seq<Event>) {
    && |states| == |events| + 1
    && Init(states[0])
    && forall i :: 0 <= i < |events| ==> Enabled(states[i], events[i]) && states[i + 1] == Step(states[i], events[i])
  }

  /** A datagram fits the record of its exchange: direction, count and times. */
  predicate Fits(s: Net, d: Datagram, r: Record) {
    && d.ck.Sync? && d.ck.count <= 2
    && r.initiator < |s.nodes| && r.responder < |s.nodes| && r.initiator != r.responder
    && (if d.ck.count == 1 then d.src == r.responder && d.dst == r.initiator
        else d.src == r.initiator && d.dst == r.responder)
    && d.ck.ssrc == s.nodes[d.src].ssrc
    && d.ck.timestamp1 == r.t1 <= s.nodes[r.initiator].clock
    && (d.ck.count == 0 ==> r.t2 == None)
    && (d.ck.count > 0 ==> r.t2 == Some(d.ck.timestamp2))
    && (d.ck.count == 2 ==> d.ck.timestamp1 <= d.ck.timestamp3)
  }

  predicate Inv(s: Net) {
    && (forall i, j :: 0 <= i < j < |s.nodes| ==> s.nodes[i].ssrc != s.nodes[j].ssrc)
    && (forall x :: x in s.flight ==> x < |s.records| && Fits(s, s.flight[x], s.records[x]))
  }

  /** How far the datagrams of the first n exchanges are from their last count, each plus one. */
  function Remaining(flight: map<nat, Datagram>, n: nat): int {
    if n == 0 then 0
    else Remaining(flight, n - 1) + Share(flight, n - 1)
  }

  lemma FitsAgain(s: Net, t: Net, d: Datagram, r: Record)
    requires Fits(s, d, r) && |s.nodes| == |t.nodes|
    requires forall i :: 0 <= i < |s.nodes| ==>
               s.nodes[i].ssrc == t.nodes[i].ssrc && s.nodes[i].clock <= t.nodes[i].clock
    ensures Fits(t, d, r)
  {
  }

  /** The reaction to a datagram that fits its record fits the record too, with one more on its count. */
  lemma ReactionFits(s: Net, d: Datagram, r: Record)
    requires Fits(s, d, r) && d.dst < |s.nodes| && d.src < |s.nodes| && s.nodes[d.src].ssrc != s.nodes[d.dst].ssrc
    ensures var node := s.nodes[d.dst];
            var reaction := React(node.ssrc, node.clock, d.ck);
            && (reaction.sends <==> d.ck.count < 2)
            && (reaction.sends ==>
                  && reaction.command.count == d.ck.count + 1
                  && Fits(s, Datagram(d.dst, d.src, reaction.command),
                          if d.ck.count == 0 then r.(t2 := Some(node.clock)) else r))
  {
  }

  /** The first answer leaves an exchange under way, the second and the last receipt leave none. */
  lemma SyncFlagAfter(s: Net, x: nat)
    requires Inv(s) && Enabled(s, Deliver(x))
    ensures var d := s.flight[x];
            Step(s, Deliver(x)).nodes[d.dst].sync == if d.ck.count == 0 then 2 else 0
  {
    assert Fits(s, s.flight[x], s.records[x]);
  }

  /** With no exchange under way the idle timer starts one with a CK0; otherwise nothing happens. */
  lemma IdleStarts(s: Net, i: nat, peer: nat, leftOver: Command)
    requires Inv(s) && Enabled(s, Idle(i, peer, leftOver))
    ensures var t, n := Step(s, Idle(i, peer, leftOver)), |s.records|;
            if s.nodes[i].sync != 0 then t == s
            else
              && n in t.flight && t.flight[n].src == i && t.flight[n].dst == peer
              && t.flight[n].ck == Sync(s.nodes[i].ssrc, 0, s.nodes[i].clock, leftOver.timestamp2, leftOver.timestamp3)
              && t.nodes[i].sync == 1
  {
  }

  /** So the receiver of a CK1 or CK2 starts another exchange at its next idle timeout. */
  lemma NextIdleStarts(s: Net, x: nat, peer: nat, leftOver: Command)
    requires Inv(s) && Enabled(s, Deliver(x)) && s.flight[x].ck.count > 0 && leftOver.Sync?
    requires peer < |s.nodes| && peer != s.flight[x].dst
    ensures var t := Step(s, Deliver(x));
            var u := Step(t, Idle(s.flight[x].dst, peer, leftOver));
            |t.records| in u.flight && u.flight[|t.records|].ck.count == 0 && u.flight[|t.records|].dst == peer
  {
    SyncFlagAfter(s, x);
    DeliverKeepsInv(s, x);
    IdleStarts(Step(s, Deliver(x)), s.flight[x].dst, peer, leftOver);
  }

  lemma DeliverKeepsInv(s: Net, x: nat)
    requires Inv(s) && Enabled(s, Deliver(x))
    ensures Inv(Step(s, Deliver(x)))
  {
    var t := Step(s, Deliver(x));
    var d, r := s.flight[x], s.records[x];
    assert s.nodes[d.src].ssrc != s.nodes[d.dst].ssrc;
    ReactionFits(s, d, r);
    forall y | y in t.flight
      ensures y < |t.records| && Fits(t, t.flight[y], t.records[y])
    {
      FitsAgain(s, t, t.flight[y], t.records[y]);
    }
  }

  lemma StepKeepsInv(s: Net, e: Event)
    requires Inv(s) && Enabled(s, e)
    ensures Inv(Step(s, e))
  {
    match e
    case Tick(_, _) => QuietStepKeepsInv(s, e);
    case Idle(_, _, _) => IdleKeepsInv(s, e);
    case Deliver(x) => DeliverKeepsInv(s, x);
    case Lose(_) => QuietStepKeepsInv(s, e);
  }

  lemma QuietStepKeepsInv(s: Net, e: Event)
    requires Inv(s) && (e.Tick? || e.Lose?) && Enabled(s, e)
    ensures Inv(Step(s, e))
  {
    var t := Step(s, e);
    forall y | y in t.flight
      ensures y < |t.records| && Fits(t, t.flight[y], t.records[y])
    {
      FitsAgain(s, t, s.flight[y], s.records[y]);
    }
  }

  lemma IdleKeepsInv(s: Net, e: Event)
    requires Inv(s) && e.Idle? && Enabled(s, e)
    ensures Inv(Step(s, e))
  {
    var t := Step(s, e);
    forall y | y in t.flight
      ensures y < |t.records| && Fits(t, t.flight[y], t.records[y])
    {
      if y < |s.records| {
        FitsAgain(s, t, s.flight[y], s.records[y]);
      }
    }
  }

  /** In every state of every run, every datagram is a CK0, CK1 or CK2 that fits its exchange. */
  lemma {:induction false} RunKeepsInv(states: seq<Net>, events: seq<Event>, i: nat)
    requires IsRun(states, events) && i < |states|
    ensures Inv(states[i])
  {
    if i > 0 {
      RunKeepsInv(states, events, i - 1);
      StepKeepsInv(states[i - 1], events[i - 1]);
    }
  }

  lemma {:induction false} RemainingUpdate(f: map<nat, Datagram>, g: map<nat, Datagram>, x: nat, n: nat)
    requires forall y :: 0 <= y < n && y != x ==> (y in f <==> y in g) && (y in f ==> f[y] == g[y])
    ensures Remaining(g, n) - Remaining(f, n) == if x < n then Share(g, x) - Share(f, x) else 0
  {
    if n > 0 {
      RemainingUpdate(f, g, x, n - 1);
    }
  }

  function Share(flight: map<nat, Datagram>, x: nat): int {
    if x in flight && flight[x].ck.Sync? then 3 - flight[x].ck.count else 0
  }

  /** Every delivery takes exactly one off what remains: a reply counts one further, or there is none. */
  lemma DeliverDrops(s: Net, x: nat)
    requires Inv(s) && Enabled(s, Deliver(x))
    ensures var t := Step(s, Deliver(x));
            && Remaining(t.flight, |t.records|) == Remaining(s.flight, |s.records|) - 1
            && (s.flight[x].ck.count < 2 ==> x in t.flight && t.flight[x].ck.count == s.flight[x].ck.count + 1)
            && (s.flight[x].ck.count == 2 ==> x !in t.flight)
  {
    var d := s.flight[x];
    ReactionFits(s, d, s.records[x]);
    RemainingUpdate(s.flight, Step(s, Deliver(x)).flight, x, |s.records|);
  }

  lemma LoseDrops(s: Net, x: nat)
    requires Inv(s) && Enabled(s, Lose(x))
    ensures Remaining(Step(s, Lose(x)).flight, |s.records|) <= Remaining(s.flight, |s.records|)
  {
    RemainingUpdate(s.flight, s.flight - {x}, x, |s.records|);
  }

  lemma IdleAdds(s: Net, e: Event)
    requires Inv(s) && e.Idle? && Enabled(s, e)
    ensures var t := Step(s, e);
            && |s.records| <= |t.records|
            && Remaining(t.flight, |t.records|) == Remaining(s.flight, |s.records|) + 3 * (|t.records| - |s.records|)
  {
    var n := |s.records|;
    if s.nodes[e.node].sync == 0 {
      var t := Step(s, e);
      RemainingUpdate(s.flight, t.flight, n, n);
      assert Remaining(t.flight, n + 1) == Remaining(t.flight, n) + Share(t.flight, n);
    }
  }

  lemma {:induction false} RemainingNotNegative(s: Net, n: nat)
    requires Inv(s) && n <= |s.records|
    ensures Remaining(s.flight, n) >= 0
  {
    if n > 0 {
      RemainingNotNegative(s, n - 1);
    }
  }

  lemma {:induction false} DeliveriesPlusRemaining(states: seq<Net>, events: seq<Event>, i: nat)
    requires IsRun(states, events) && i < |states|
    ensures states[i].deliveries + Remaining(states[i].flight, |states[i].records|) <= 3 * |states[i].records|
  {
    if i > 0 {
      var s, e := states[i - 1], events[i - 1];
      DeliveriesPlusRemaining(states, events, i - 1);
      RunKeepsInv(states, events, i - 1);
      match e
      case Tick(_, _) =>
      case Idle(_, _, _) => IdleAdds(s, e);
      case Deliver(x) => DeliverDrops(s, x);
      case Lose(x) => LoseDrops(s, x);
    }
  }

  /**
   No ping-pong: over every run, at most three datagrams are delivered for every exchange that an
   idle timer has started.
   */
  lemma NoPingPong(states: seq<Net>, events: seq<Event>, i: nat)
    requires IsRun(states, events) && i < |states|
    ensures states[i].deliveries <= 3 * |states[i].records|
  {
    RunKeepsInv(states, events, i);
    DeliveriesPlusRemaining(states, events, i);
    RemainingNotNegative(states[i], |states[i].records|);
  }

  /** Every CK2 in flight carries the times of its own exchange: its start, the other's answer, and a later time. */
  lemma Ck2CarriesItsExchange(states: seq<Net>, events: seq<Event>, i: nat, x: nat)
    requires IsRun(states, events) && i < |states|
    requires x in states[i].flight && states[i].flight[x].ck.Sync? && states[i].flight[x].ck.count == 2
    ensures x < |states[i].records|
    ensures var d, r := states[i].flight[x], states[i].records[x];
            && d.src == r.initiator && d.dst == r.responder
            && d.ck.timestamp1 == r.t1 && Some(d.ck.timestamp2) == r.t2 && d.ck.timestamp1 <= d.ck.timestamp3
  {
    RunKeepsInv(states, events, i);
  }
}
