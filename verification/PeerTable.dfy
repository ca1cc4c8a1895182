/**
 RTP peers with reference counts, and the session's open-addressing table of sixteen of them.
 */
module PeerTable {
  import opened Words

  class Peer {
    const ssrc: Word
    var refs: nat
    var outSeqnum: Word
    /** False once the memory has been given back. */
    var live: bool

    /** RTPPeerCreate */
    constructor (ssrc: Word)
      ensures this.ssrc == ssrc && refs == 1 && outSeqnum == 0 && live
    {
      this.ssrc := ssrc;
      refs, outSeqnum, live := 1, 0, true;
    }

    /** RTPPeerRetain */
    method Retain()
      requires live
      modifies `refs
      ensures refs == old(refs) + 1
    {
      refs := refs + 1;
    }

    /** RTPPeerRelease: the last reference destroys the peer. */
    method Release()
      requires live && refs > 0
      modifies `refs, `live
      ensures refs == old(refs) - 1
      ensures live <==> refs > 0
    {
      refs := refs - 1;
      if refs == 0 {
        live := false;
      }
    }
  }

  // ----- slots -----

  /** The slot that is looked at in round i. */
  function Probe(ssrc: Word, i: nat): (p: nat)
    ensures p < 16
  {
    (i + ssrc % 16) % 16
  }

  /** Probing starts at the SSRC modulo 16 and goes on slot by slot. */
  lemma ProbeIs(ssrc: Word, i: nat)
    ensures Probe(ssrc, i) == (ssrc + i) % 16
  {
  }

  /** Sixteen rounds look at every slot. */
  lemma ProbeReaches(ssrc: Word, k: nat) returns (i: nat)
    requires k < 16
    ensures i < 16 && Probe(ssrc, i) == k
  {
    i := (k + 16 - ssrc % 16) % 16;
  }

  /** The slot of the first round that finds `what`. */
  ghost predicate FirstProbed(slots: seq<Peer?>, ssrc: Word, what: Peer?, slot: nat) {
    && |slots| == 16 && slot < 16 && slots[slot] == what
    && exists i: nat :: Probe(ssrc, i) == slot && forall j: nat :: j < i ==> slots[Probe(ssrc, j)] != what
  }

  /** The first probed slot is the one at the SSRC modulo 16, if that is right. */
  lemma FirstProbedIs(slots: seq<Peer?>, ssrc: Word, what: Peer?, slot: nat)
    requires FirstProbed(slots, ssrc, what, slot)
    ensures slots[ssrc % 16] == what ==> slot == ssrc % 16
  {
    var i: nat :| Probe(ssrc, i) == slot && forall j: nat :: j < i ==> slots[Probe(ssrc, j)] != what;
    ProbeIs(ssrc, 0);
    if i > 0 {
      assert slots[Probe(ssrc, 0)] != what;
    }
  }

  /** The peers in the table, in slot order. */
  ghost function Occupied(slots: seq<Peer?>): (ps: seq<Peer>) {
    if slots == [] then []
    else
      var last := slots[|slots| - 1];
      Occupied(slots[..|slots| - 1]) + if last == null then [] else [last]
  }

  /** No peer is in two slots. */
  ghost predicate Distinct(slots: seq<Peer?>) {
    forall i, j :: 0 <= i < j < |slots| && slots[i] != null ==> slots[i] != slots[j]
  }

  lemma {:induction false} OccupiedAppend(a: seq<Peer?>, b: seq<Peer?>)
    ensures Occupied(a + b) == Occupied(a) + Occupied(b)
    decreases |b|
  {
    if b == [] {
      assert a + b == a;
    } else {
      var front, last := b[..|b| - 1], b[|b| - 1];
      assert (a + b)[..|a + b| - 1] == a + front;
      OccupiedAppend(a, front);
    }
  }

  lemma OccupiedAt(slots: seq<Peer?>, k: nat)
    requires k < |slots|
    ensures Occupied(slots) == Occupied(slots[..k]) + Occupied([slots[k]]) + Occupied(slots[k + 1..])
  {
    SplitAround(slots, k);
    OccupiedJoin(slots[..k], [slots[k]], slots[k + 1..]);
  }

  lemma SplitAround(slots: seq<Peer?>, k: nat)
    requires k < |slots|
    ensures slots == slots[..k] + [slots[k]] + slots[k + 1..]
  {
  }

  lemma OccupiedJoin(a: seq<Peer?>, b: seq<Peer?>, c: seq<Peer?>)
    ensures Occupied(a + b + c) == Occupied(a) + Occupied(b) + Occupied(c)
  {
    OccupiedAppend(a, b);
    OccupiedAppend(a + b, c);
  }

  lemma OccupiedOne(s: Peer?)
    ensures Occupied([s]) == if s == null then [] else [s]
  {
    assert [s][..0] == [];
    assert Occupied([s]) == Occupied([]) + if s == null then [] else [s];
  }

  lemma {:induction false} OccupiedOfEmpty(slots: seq<Peer?>)
    requires forall i :: 0 <= i < |slots| ==> slots[i] == null
    ensures Occupied(slots) == []
  {
    if slots != [] {
      OccupiedOfEmpty(slots[..|slots| - 1]);
    }
  }

  /** Filling a free slot adds one peer to the multiset of stored peers, and clearing it takes it away. */
  lemma OccupiedUpdate(slots: seq<Peer?>, k: nat, p: Peer)
    requires k < |slots|
    ensures slots[k] == null ==> multiset(Occupied(slots[k := p])) == multiset(Occupied(slots)) + multiset{p}
    ensures slots[k] == p ==> multiset(Occupied(slots)) == multiset(Occupied(slots[k := null])) + multiset{p}
    ensures slots[k] == p ==> Occupied(slots) == Occupied(slots[..k]) + [p] + Occupied(slots[k + 1..])
    ensures Occupied(slots[k := null]) == Occupied(slots[..k]) + Occupied(slots[k + 1..])
  {
    OccupiedOne(p);
    OccupiedOne(null);
    OccupiedAt(slots, k);
    var filled, cleared := slots[k := p], slots[k := null];
    OccupiedAt(filled, k);
    OccupiedAt(cleared, k);
    assert filled[..k] == slots[..k] == cleared[..k] && filled[k + 1..] == slots[k + 1..] == cleared[k + 1..];
    assert Occupied(slots[..k]) + [] == Occupied(slots[..k]);
  }

  ghost function SsrcOf(s: Peer?): multiset<Word> {
    if s == null then multiset{} else multiset{s.ssrc}
  }

  /** The SSRCs of the stored peers, with repetitions. */
  ghost function Ssrcs(slots: seq<Peer?>): (m: multiset<Word>) {
    if slots == [] then multiset{} else Ssrcs(slots[..|slots| - 1]) + SsrcOf(slots[|slots| - 1])
  }

  lemma {:induction false} SsrcsPut(slots: seq<Peer?>, k: nat, s: Peer?)
    requires k < |slots|
    ensures Ssrcs(slots[k := s]) + SsrcOf(slots[k]) == Ssrcs(slots) + SsrcOf(s)
  {
    var n, changed := |slots| - 1, slots[k := s];
    var front := slots[..n];
    if k < n {
      SsrcsPut(front, k, s);
      assert changed[..n] == front[k := s] && changed[n] == slots[n];
      Exchange(Ssrcs(front[k := s]), SsrcOf(slots[k]), Ssrcs(front), SsrcOf(s), SsrcOf(slots[n]));
    } else {
      assert changed[..n] == front && changed[n] == s;
    }
  }

  lemma Exchange(a: multiset<Word>, x: multiset<Word>, b: multiset<Word>, y: multiset<Word>, z: multiset<Word>)
    requires a + x == b + y
    ensures (a + z) + x == (b + z) + y
  {
    assert (a + z) + x == (a + x) + z;
    assert (b + z) + y == (b + y) + z;
  }

  /** They count the stored peers. */
  lemma {:induction false} SsrcsCount(slots: seq<Peer?>)
    ensures |Ssrcs(slots)| == |Occupied(slots)|
  {
    if slots != [] {
      SsrcsCount(slots[..|slots| - 1]);
    }
  }

  lemma {:induction false} SsrcsMember(slots: seq<Peer?>, ssrc: Word)
    requires forall i :: 0 <= i < |slots| && slots[i] != null ==> slots[i].ssrc != ssrc
    ensures ssrc !in Ssrcs(slots) && Ssrcs(slots) - multiset{ssrc} == Ssrcs(slots)
  {
    if slots != [] {
      SsrcsMember(slots[..|slots| - 1], ssrc);
    }
  }

  lemma SsrcsContain(slots: seq<Peer?>, k: nat)
    requires k < |slots| && slots[k] != null
    ensures slots[k].ssrc in Ssrcs(slots)
  {
    SsrcsPut(slots, k, null);
    InSum(Ssrcs(slots[k := null]), slots[k].ssrc, Ssrcs(slots));
  }

  lemma InSum(a: multiset<Word>, x: Word, b: multiset<Word>)
    requires a + multiset{x} == b + multiset{}
    ensures x in b
  {
    assert x in a + multiset{x};
  }

  lemma SsrcsAdded(slots: seq<Peer?>, k: nat, p: Peer)
    requires k < |slots| && slots[k] == null
    ensures Ssrcs(slots[k := p]) == Ssrcs(slots) + multiset{p.ssrc}
  {
    SsrcsPut(slots, k, p);
  }

  lemma SsrcsRemoved(slots: seq<Peer?>, k: nat, p: Peer)
    requires k < |slots| && slots[k] == p
    ensures Ssrcs(slots[k := null]) == Ssrcs(slots) - multiset{p.ssrc}
  {
    SsrcsPut(slots, k, null);
    assert Ssrcs(slots[k := null]) + multiset{p.ssrc} == Ssrcs(slots);
  }

  // ----- the session -----

  /**
   One call of sock_sendmsg: to whom, with which sequence number, what, how many bytes it took by its
   own account, and whether it succeeded.
   */
  datatype Packet = Packet(peer: Peer, sequenceNumber: Half, bytes: seq<Byte>, taken: int, sent: bool)

  /** How many packets were sent to a peer. */
  function SentTo(wire: seq<Packet>, p: Peer): nat {
    if wire == [] then 0
    else
      var last := wire[|wire| - 1];
      SentTo(wire[..|wire| - 1], p) + if last.peer == p && last.sent then 1 else 0
  }

  /** Every packet is numbered one more than the packets sent to its peer before, modulo 2^16. */
  ghost predicate Numbered(wire: seq<Packet>) {
    forall i :: 0 <= i < |wire| ==> NumberedAt(wire, i)
  }

  ghost predicate NumberedAt(wire: seq<Packet>, i: nat)
    requires i < |wire|
  {
    wire[i].sequenceNumber == (SentTo(wire[..i], wire[i].peer) + 1) % 0x1_0000
  }

  lemma NumberedAtAppend(wire: seq<Packet>, packet: Packet, i: nat)
    requires i < |wire|
    ensures NumberedAt(wire + [packet], i) == NumberedAt(wire, i)
  {
    assert (wire + [packet])[..i] == wire[..i];
  }

  /** The sequence numbers of the packets that were sent to a peer. */
  function NumbersTo(wire: seq<Packet>, p: Peer): seq<Half> {
    if wire == [] then []
    else
      var last := wire[|wire| - 1];
      NumbersTo(wire[..|wire| - 1], p) + if last.peer == p && last.sent then [last.sequenceNumber] else []
  }

  /** They count up from 1 modulo 2^16; packets that were not sent leave no gap. */
  lemma {:induction false} NumbersCountUp(wire: seq<Packet>, p: Peer)
    requires Numbered(wire)
    ensures |NumbersTo(wire, p)| == SentTo(wire, p)
    ensures forall k :: 0 <= k < |NumbersTo(wire, p)| ==> NumbersTo(wire, p)[k] == (k + 1) % 0x1_0000
  {
    if wire != [] {
      NumberedPrefix(wire);
      NumbersCountUp(wire[..|wire| - 1], p);
      assert NumberedAt(wire, |wire| - 1);
    }
  }

  lemma NumberedPrefix(wire: seq<Packet>)
    requires wire != [] && Numbered(wire)
    ensures Numbered(wire[..|wire| - 1])
  {
    var before, last := wire[..|wire| - 1], wire[|wire| - 1];
    assert before + [last] == wire;
    forall i | 0 <= i < |before|
      ensures NumberedAt(before, i)
    {
      NumberedAtAppend(before, last, i);
      assert NumberedAt(wire, i);
    }
  }

  lemma NumberedAppend(wire: seq<Packet>, packet: Packet)
    requires Numbered(wire) && packet.sequenceNumber == (SentTo(wire, packet.peer) + 1) % 0x1_0000
    ensures Numbered(wire + [packet])
  {
    var longer := wire + [packet];
    forall i | 0 <= i < |longer|
      ensures NumberedAt(longer, i)
    {
      if i < |wire| {
        NumberedAtAppend(wire, packet, i);
      } else {
        assert longer[..i] == wire;
      }
    }
  }

  lemma SentToAppend(wire: seq<Packet>, packet: Packet, p: Peer)
    ensures SentTo(wire + [packet], p) == SentTo(wire, p) + if packet.peer == p && packet.sent then 1 else 0
  {
    assert (wire + [packet])[..|wire|] == wire;
  }

  lemma {:induction false} NothingSent(wire: seq<Packet>, p: Peer)
    requires forall i :: 0 <= i < |wire| ==> wire[i].peer != p
    ensures SentTo(wire, p) == 0
  {
    if wire != [] {
      NothingSent(wire[..|wire| - 1], p);
    }
  }

  predicate HasSsrc(s: Peer?, ssrc: Word) {
    s != null && s.ssrc == ssrc
  }

  class Session {
    const ssrc: Word
    const peers: array<Peer?>
    const buffer: array<Byte>
    /** Every attempt to send, in order. */
    var wire: seq<Packet>

    ghost predicate Shape()
      reads peers
    {
      peers.Length == 16 && buffer.Length == 512 && Distinct(peers[..])
    }

    ghost function Stored(): (ps: set<Peer>)
      reads peers
    {
      set i | 0 <= i < peers.Length && peers[i] != null :: peers[i]
    }

    /** What holds between the commands of the driver. */
    ghost predicate Valid()
      reads this, peers, Stored()
    {
      && Shape()
      && Numbered(wire)
      && forall p :: p in Stored() ==> p.live && p.refs == 1 && p.outSeqnum == SentTo(wire, p) % 0x1_0000
    }

    constructor (ssrc: Word)
      ensures Valid() && fresh(peers) && fresh(buffer) && wire == [] && Occupied(peers[..]) == []
    {
      this.ssrc := ssrc;
      buffer := new Byte[512];
      peers := new Peer?[16](_ => null);
      wire := [];
      new;
      OccupiedOfEmpty(peers[..]);
    }

    /** RTPSessionAddPeer: the first free slot in probing order, and a reference for the table. */
    method AddPeer(peer: Peer) returns (ok: bool, ghost slot: nat)
      requires peers.Length == 16 && peer.live
      modifies peers, peer`refs
      ensures ok <==> null in old(peers[..])
      ensures ok ==> FirstProbed(old(peers[..]), peer.ssrc, null, slot)
      ensures ok && old(peers[peer.ssrc % 16]) == null ==> slot == peer.ssrc % 16
      ensures ok ==> peers[..] == old(peers[..])[slot := peer]
      ensures ok ==> peer.refs == old(peer.refs) + 1
      ensures !ok ==> peers[..] == old(peers[..]) && peer.refs == old(peer.refs)
    {
      slot := 16;
      var i := 0;
      while i < 16
        invariant 0 <= i <= 16
        invariant forall j :: 0 <= j < i ==> peers[Probe(peer.ssrc, j)] != null
        invariant peers[..] == old(peers[..]) && peer.refs == old(peer.refs)
      {
        var p := Probe(peer.ssrc, i);
        if peers[p] == null {
          assert FirstProbed(peers[..], peer.ssrc, null, p);
          FirstProbedIs(peers[..], peer.ssrc, null, p);
          peers[p] := peer;
          peer.Retain();
          return true, p;
        }
        i := i + 1;
      }
      forall k | 0 <= k < 16
        ensures peers[k] != null
      {
        var j := ProbeReaches(peer.ssrc, k);
      }
      return false, slot;
    }

    /** RTPSessionRemovePeer: clears the slot of the peer and gives up the table's reference. */
    method RemovePeer(peer: Peer) returns (ok: bool, ghost slot: nat)
      requires peers.Length == 16
      requires peer in peers[..] ==> peer.live && peer.refs > 0
      modifies peers, peer`refs, peer`live
      ensures ok <==> peer in old(peers[..])
      ensures ok ==> FirstProbed(old(peers[..]), peer.ssrc, peer, slot)
      ensures ok ==> peers[..] == old(peers[..])[slot := null]
      ensures ok ==> peer.refs == old(peer.refs) - 1 && (peer.live <==> peer.refs > 0)
      ensures !ok ==> peers[..] == old(peers[..]) && peer.refs == old(peer.refs) && peer.live == old(peer.live)
    {
      slot := 16;
      var i := 0;
      while i < 16
        invariant 0 <= i <= 16
        invariant forall j :: 0 <= j < i ==> peers[Probe(peer.ssrc, j)] != peer
        invariant peers[..] == old(peers[..]) && peer.refs == old(peer.refs) && peer.live == old(peer.live)
      {
        var p := Probe(peer.ssrc, i);
        if peers[p] == peer {
          peers[p] := null;
          peer.Release();
          return true, p;
        }
        i := i + 1;
      }
      forall k | 0 <= k < 16
        ensures peers[k] != peer
      {
        var j := ProbeReaches(peer.ssrc, k);
      }
      return false, slot;
    }

    /** RTPSessionFindPeerBySSRC: looks through the holes that removals leave in probe chains. */
    method FindPeerBySSRC(ssrc: Word) returns (found: Peer?)
      requires peers.Length == 16
      ensures found == null <==> forall p :: p in Stored() ==> p.ssrc != ssrc
      ensures found != null ==> found in Stored() && found.ssrc == ssrc
      ensures found != null ==>
                exists i: nat :: peers[Probe(ssrc, i)] == found
                  && forall j: nat :: j < i ==> !HasSsrc(peers[Probe(ssrc, j)], ssrc)
    {
      var i := 0;
      while i < 16
        invariant 0 <= i <= 16
        invariant forall j :: 0 <= j < i ==> !HasSsrc(peers[Probe(ssrc, j)], ssrc)
      {
        var p := Probe(ssrc, i);
        if peers[p] != null {
          if peers[p].ssrc == ssrc {
            return peers[p];
          }
        }
        i := i + 1;
      }
      forall k | 0 <= k < 16
        ensures peers[k] != null ==> peers[k].ssrc != ssrc
      {
        var j := ProbeReaches(ssrc, k);
      }
      return null;
    }

    /**
     RTPSessionNextPeer: the peer in the first occupied slot behind the given one, or the first of all.
     A peer that is not in the table is an error and stays as it is. `at` is where the given peer is.
     */
    method NextPeer(peer: Peer?, ghost at: nat) returns (ok: bool, next: Peer?, ghost slot: nat)
      requires Shape()
      ensures ok <==> peer == null || peer in peers[..]
      ensures !ok ==> next == peer
      ensures ok ==> slot <= 16 && (next == null <==> slot == 16) && (slot < 16 ==> peers[slot] == next)
      ensures ok && peer == null ==> forall j :: 0 <= j < slot ==> peers[j] == null
      ensures ok && peer != null && at < 16 && peers[at] == peer ==>
                at < slot && forall j :: at < j < slot ==> peers[j] == null
    {
      var i := -1;
      if peer != null {
        i := 0;
        while i < 16 && peers[i] != peer
          invariant 0 <= i <= 16
          invariant forall j :: 0 <= j < i ==> peers[j] != peer
        {
          i := i + 1;
        }
        if i == 16 {
          return false, peer, 16;
        }
      }
      ghost var from := i;
      i := i + 1;
      while i < 16 && peers[i] == null
        invariant from < i <= 16
        invariant forall j :: from < j < i ==> peers[j] == null
      {
        i := i + 1;
      }
      if i == 16 {
        return true, null, 16;
      }
      return true, peers[i], i;
    }
  }
}
