/**
 The keys of the keyboard: the state machine that turns button events into notes, and what it does
 as a function of the whole history of events.
 */
module Keys {
  import opened Words

  datatype Button = StartButton | EndButton

  /** One value for each of the two buttons of a key. */
  datatype Pair<T> = Pair(start: T, end: T) {
    function Get(b: Button): T {
      if b.StartButton? then start else end
    }

    function Put(b: Button, x: T): Pair<T> {
      if b.StartButton? then this.(start := x) else this.(end := x)
    }
  }

  datatype KeyState = Inactive | Touched | Pressed
  datatype Note = On(velocity: Byte) | Off

  /** The part of a key that the state machine works on. */
  datatype Key = Key(state: KeyState, hitTime: int, lastVelocity: Byte)

  /** An event that has come through the debouncing, at its time. */
  datatype Event = Event(button: Button, active: bool, time: int)

  /** time_to_velocity behind stime64_to_utime32: the velocity for a stroke of so many nanoseconds. */
  type Curve = int -> Byte

  // ----- the state machine -----

  /** handle_button_event: the new key, and the notes that it triggers. */
  function Handle(k: Key, e: Event, curve: Curve): (Key, seq<Note>) {
    match k.state
    case Inactive =>
      if e.button.StartButton? then
        if e.active then (k.(hitTime := e.time, state := Touched), []) else (k, [Off])
      else (k, [])
    case Touched =>
      if e.button.StartButton? && !e.active then (k.(state := Inactive), [Off])
      else if e.button.EndButton? && e.active then
        var velocity := curve(e.time - k.hitTime);
        (k.(lastVelocity := velocity, state := Pressed), [On(velocity)])
      else (k, [])
    case Pressed =>
      if e.button.StartButton? && !e.active then (k.(state := Inactive), [Off])
      else if e.button.EndButton? && e.active then (k, [Off, On(k.lastVelocity)])
      else (k, [])
  }

  /** A key after a history of events, from its initial state, and all notes so far. */
  function Play(h: seq<Event>, curve: Curve): (Key, seq<Note>) {
    if h == [] then (Key(Inactive, 0, 0), [])
    else
      var (k, notes) := Play(h[..|h| - 1], curve);
      var (next, more) := Handle(k, h[|h| - 1], curve);
      (next, notes + more)
  }

  // ----- the state as a function of the history -----

  predicate Is(e: Event, button: Button, active: bool) {
    e.button == button && e.active == active
  }

  /** The start button was pressed at i and has not been released since. */
  ghost predicate HeldSince(h: seq<Event>, i: nat) {
    && i < |h| && Is(h[i], StartButton, true)
    && forall k :: i < k < |h| ==> !Is(h[k], StartButton, false)
  }

  /** The last event of the start button was a press. */
  ghost predicate Held(h: seq<Event>) {
    exists i: nat :: HeldSince(h, i)
  }

  /** The end button was pressed while the start button was held as it still is. */
  ghost predicate Struck(h: seq<Event>) {
    exists i: nat, j: nat :: HeldSince(h, i) && i < j < |h| && Is(h[j], EndButton, true)
  }

  lemma HeldAppend(h: seq<Event>, e: Event)
    ensures Held(h + [e]) <==> Is(e, StartButton, true) || (Held(h) && !Is(e, StartButton, false))
  {
    var longer := h + [e];
    if Is(e, StartButton, true) {
      assert HeldSince(longer, |h|);
    }
    if Held(h) && !Is(e, StartButton, false) {
      var i: nat :| HeldSince(h, i);
      assert HeldSince(longer, i);
    }
    if Held(longer) && !Is(e, StartButton, true) {
      var i: nat :| HeldSince(longer, i);
      assert longer[|h|] == e;
      assert forall k :: 0 <= k < |h| ==> longer[k] == h[k];
      assert HeldSince(h, i);
    }
  }

  lemma StruckAppend(h: seq<Event>, e: Event)
    ensures Struck(h + [e]) <==>
              (Struck(h) && !Is(e, StartButton, false)) || (Held(h) && Is(e, EndButton, true))
  {
    var longer := h + [e];
    assert longer[|h|] == e;
    assert forall k :: 0 <= k < |h| ==> longer[k] == h[k];
    if Struck(h) && !Is(e, StartButton, false) {
      var i: nat, j: nat :| HeldSince(h, i) && i < j < |h| && Is(h[j], EndButton, true);
      assert HeldSince(longer, i) && Is(longer[j], EndButton, true);
    }
    if Held(h) && Is(e, EndButton, true) {
      var i: nat :| HeldSince(h, i);
      assert HeldSince(longer, i) && Is(longer[|h|], EndButton, true);
    }
    if Struck(longer) {
      var i: nat, j: nat :| HeldSince(longer, i) && i < j < |longer| && Is(longer[j], EndButton, true);
      assert HeldSince(h, i);
      if j < |h| {
        assert Is(h[j], EndButton, true);
      }
    }
  }

  /**
   A key is inactive exactly if its start button is not held, and pressed exactly if its end button
   was pressed while the start button was held as it still is.
   */
  lemma {:induction false} StateOfHistory(h: seq<Event>, curve: Curve)
    ensures Play(h, curve).0.state != Inactive <==> Held(h)
    ensures Play(h, curve).0.state == Pressed <==> Struck(h)
  {
    if h == [] {
    } else {
      var before, e := h[..|h| - 1], h[|h| - 1];
      StateOfHistory(before, curve);
      HeldAppend(before, e);
      StruckAppend(before, e);
      assert h == before + [e];
    }
  }

  /** A key can be pressed although no end press came after its last start event. */
  lemma PressedWithoutLaterEndPress(curve: Curve, h: seq<Event>, t1: int, t2: int, t3: int)
    requires h == [Event(StartButton, true, t1), Event(EndButton, true, t2), Event(StartButton, true, t3)]
    ensures Play(h, curve).0.state == Pressed
  {
    assert HeldSince(h, 0) && Is(h[1], EndButton, true);
    StateOfHistory(h, curve);
  }

  /** The last event of the start button was a press, at i. */
  ghost predicate LastStart(h: seq<Event>, i: nat) {
    && i < |h| && Is(h[i], StartButton, true)
    && forall k :: i < k < |h| ==> h[k].button == EndButton
  }

  /** The end button was pressed since the last event of the start button, a press. */
  ghost predicate EndSince(h: seq<Event>) {
    exists i: nat, j: nat :: LastStart(h, i) && i < j < |h| && Is(h[j], EndButton, true)
  }

  lemma {:induction false} HeldHasLastStart(h: seq<Event>) returns (i: nat)
    requires Held(h)
    ensures LastStart(h, i)
  {
    var before, e := h[..|h| - 1], h[|h| - 1];
    assert h == before + [e];
    HeldAppend(before, e);
    if Is(e, StartButton, true) {
      i := |h| - 1;
    } else {
      i := HeldHasLastStart(before);
    }
  }

  /** Any start event begins anew, and an end press counts while the start button is held. */
  lemma EndSinceAppend(h: seq<Event>, e: Event)
    ensures EndSince(h + [e]) <==> e.button == EndButton && (EndSince(h) || (Held(h) && e.active))
  {
    var longer := h + [e];
    assert longer[|h|] == e && forall k :: 0 <= k < |h| ==> longer[k] == h[k];
    if EndSince(longer) {
      var i: nat, j: nat :| LastStart(longer, i) && i < j < |longer| && Is(longer[j], EndButton, true);
      assert LastStart(h, i) && HeldSince(h, i);
      assert j < |h| ==> Is(h[j], EndButton, true);
    }
    if e.button == EndButton && EndSince(h) {
      var i: nat, j: nat :| LastStart(h, i) && i < j < |h| && Is(h[j], EndButton, true);
      assert LastStart(longer, i) && Is(longer[j], EndButton, true);
    }
    if e.button == EndButton && Held(h) && e.active {
      var i := HeldHasLastStart(h);
      assert LastStart(longer, i) && Is(longer[|h|], EndButton, true);
    }
  }

  /** No start press comes while the key is pressed: the branch that ignores a start press is never taken. */
  ghost predicate NoStartWhileStruck(h: seq<Event>) {
    forall n :: 0 <= n < |h| && Is(h[n], StartButton, true) ==> !Struck(h[..n])
  }

  lemma {:induction false} EndSinceIsStruck(h: seq<Event>)
    ensures EndSince(h) ==> Struck(h)
    ensures NoStartWhileStruck(h) && Struck(h) ==> EndSince(h)
  {
    if h != [] {
      var before, e := h[..|h| - 1], h[|h| - 1];
      assert h == before + [e];
      EndSinceIsStruck(before);
      EndSinceAppend(before, e);
      StruckAppend(before, e);
      if NoStartWhileStruck(h) {
        forall n | 0 <= n < |before| && Is(before[n], StartButton, true)
          ensures !Struck(before[..n])
        {
          assert before[..n] == h[..n] && before[n] == h[n];
        }
        assert Is(h[|before|], StartButton, true) ==> !Struck(h[..|before|]);
      }
    }
  }

  /** The key was pressed exactly if the end button was pressed since its last start press, all along. */
  ghost predicate PressedIsEndSince(h: seq<Event>, curve: Curve) {
    forall n :: 0 <= n <= |h| ==> (Play(h[..n], curve).0.state == Pressed <==> EndSince(h[..n]))
  }

  lemma PressedIsEndSinceAt(h: seq<Event>, curve: Curve, n: nat)
    requires n <= |h| && NoStartWhileStruck(h)
    ensures Play(h[..n], curve).0.state == Pressed <==> EndSince(h[..n])
  {
    var before := h[..n];
    forall m | 0 <= m < n && Is(before[m], StartButton, true)
      ensures !Struck(before[..m])
    {
      assert before[..m] == h[..m] && before[m] == h[m];
    }
    EndSinceIsStruck(before);
    StateOfHistory(before, curve);
  }

  /** A start press while the key is pressed makes the difference. */
  lemma StartWhileStruck(h: seq<Event>, curve: Curve, n: nat)
    requires n < |h| && Is(h[n], StartButton, true) && Struck(h[..n])
    ensures Play(h[..n + 1], curve).0.state == Pressed && !EndSince(h[..n + 1])
  {
    assert h[..n + 1] == h[..n] + [h[n]];
    StruckAppend(h[..n], h[n]);
    EndSinceAppend(h[..n], h[n]);
    StateOfHistory(h[..n + 1], curve);
  }

  /**
   A key is pressed exactly if an end press has come since its last start press, at every moment of a
   history, if and only if no start press in it comes while the key is pressed.
   */
  lemma PressedSinceStartIff(h: seq<Event>, curve: Curve)
    ensures PressedIsEndSince(h, curve) <==> NoStartWhileStruck(h)
  {
    if NoStartWhileStruck(h) {
      forall n | 0 <= n <= |h|
        ensures Play(h[..n], curve).0.state == Pressed <==> EndSince(h[..n])
      {
        PressedIsEndSinceAt(h, curve, n);
      }
    } else {
      var n :| 0 <= n < |h| && Is(h[n], StartButton, true) && Struck(h[..n]);
      StartWhileStruck(h, curve, n);
    }
  }

  // ----- notes -----

  /** Note-ons minus note-offs: a note-off counts only behind a note-on without one. */
  function Balance(notes: seq<Note>): int {
    if notes == [] then 0
    else
      var b := Balance(notes[..|notes| - 1]);
      if notes[|notes| - 1].On? then b + 1 else if b > 0 then b - 1 else b
  }

  /** Before every note-on the earlier ones all have their note-off. */
  ghost predicate Alternating(notes: seq<Note>) {
    forall i :: 0 <= i < |notes| && notes[i].On? ==> Balance(notes[..i]) == 0
  }

  lemma NotesAppend(notes: seq<Note>, n: Note)
    ensures Balance(notes + [n])
         == if n.On? then Balance(notes) + 1 else if Balance(notes) > 0 then Balance(notes) - 1 else Balance(notes)
    ensures Alternating(notes) && (n.On? ==> Balance(notes) == 0) ==> Alternating(notes + [n])
  {
    var longer := notes + [n];
    assert longer[..|notes|] == notes;
    if Alternating(notes) && (n.On? ==> Balance(notes) == 0) {
      forall i | 0 <= i < |longer| && longer[i].On?
        ensures Balance(longer[..i]) == 0
      {
        if i < |notes| {
          assert longer[..i] == notes[..i];
        }
      }
    }
  }

  /** What handling an event does to the notes: nothing, a start, an end, or a repetition while pressed. */
  lemma HandleNotes(k: Key, e: Event, curve: Curve)
    ensures var (next, more) := Handle(k, e, curve);
            || (more == [] && (next.state == Pressed <==> k.state == Pressed))
            || (more == [Off] && next.state != Pressed)
            || (|more| == 1 && more[0].On? && k.state != Pressed && next.state == Pressed)
            || (|more| == 2 && more[0].Off? && more[1].On? && k.state == Pressed && next.state == Pressed)
  {
  }

  lemma NotesExtended(notes: seq<Note>, more: seq<Note>, was: bool, now: bool)
    requires Balance(notes) == (if was then 1 else 0) && Alternating(notes)
    requires || (more == [] && was == now)
             || (more == [Off] && !now)
             || (|more| == 1 && more[0].On? && !was && now)
             || (|more| == 2 && more[0].Off? && more[1].On? && was && now)
    ensures Balance(notes + more) == (if now then 1 else 0) && Alternating(notes + more)
  {
    if more == [] {
      assert notes + more == notes;
    } else {
      NotesAppend(notes, more[0]);
      if |more| == 1 {
        assert notes + more == notes + [more[0]];
      } else {
        NotesAppend(notes + [more[0]], more[1]);
        assert notes + more == notes + [more[0]] + [more[1]];
      }
    }
  }

  /** A note-on is without its note-off exactly while the key is pressed, and there are never two. */
  lemma {:induction false} NotesOfHistory(h: seq<Event>, curve: Curve)
    ensures Balance(Play(h, curve).1) == if Play(h, curve).0.state == Pressed then 1 else 0
    ensures Alternating(Play(h, curve).1)
  {
    if h != [] {
      var before, e := h[..|h| - 1], h[|h| - 1];
      NotesOfHistory(before, curve);
      var (k, notes) := Play(before, curve);
      var (next, more) := Handle(k, e, curve);
      HandleNotes(k, e, curve);
      NotesExtended(notes, more, k.state == Pressed, next.state == Pressed);
    }
  }

  // ----- which notes -----

  /** The start press that began the present hold. */
  ghost predicate StartsHold(h: seq<Event>, i: nat) {
    HeldSince(h, i) && forall k: nat :: k < i ==> !HeldSince(h, k)
  }

  /** The end press that struck the key: the first one in the present hold, which began at i. */
  ghost predicate StrikesAt(h: seq<Event>, i: nat, j: nat) {
    && StartsHold(h, i) && i < j < |h| && Is(h[j], EndButton, true)
    && forall k :: i < k < j ==> !Is(h[k], EndButton, true)
  }

  lemma HeldSinceBefore(h: seq<Event>, e: Event, k: nat)
    requires k < |h| && !Is(e, StartButton, false)
    ensures HeldSince(h + [e], k) <==> HeldSince(h, k)
  {
    var longer := h + [e];
    assert longer[|h|] == e && forall m :: 0 <= m < |h| ==> longer[m] == h[m];
  }

  lemma HoldContinues(h: seq<Event>, e: Event, i: nat)
    requires Held(h) && !Is(e, StartButton, false)
    ensures StartsHold(h + [e], i) <==> StartsHold(h, i)
  {
    forall k: nat | k < |h|
      ensures HeldSince(h + [e], k) <==> HeldSince(h, k)
    {
      HeldSinceBefore(h, e, k);
    }
    var first: nat :| HeldSince(h, first);
    assert HeldSince(h + [e], first);
  }

  lemma HoldBegins(h: seq<Event>, e: Event, i: nat)
    requires !Held(h)
    ensures StartsHold(h + [e], i) <==> i == |h| && Is(e, StartButton, true)
  {
    var longer := h + [e];
    assert longer[|h|] == e && forall m :: 0 <= m < |h| ==> longer[m] == h[m];
    forall k: nat | k < |h|
      ensures !HeldSince(longer, k)
    {
      assert HeldSince(longer, k) ==> HeldSince(h, k);
    }
  }

  /** Every hold has its first start press. */
  lemma {:induction false} HoldHasStart(h: seq<Event>) returns (i: nat)
    requires Held(h)
    ensures StartsHold(h, i)
  {
    var before, e := h[..|h| - 1], h[|h| - 1];
    assert h == before + [e];
    HeldAppend(before, e);
    if Held(before) && !Is(e, StartButton, false) {
      i := HoldHasStart(before);
      HoldContinues(before, e, i);
    } else {
      i := |before|;
      assert !Held(before);
      HoldBegins(before, e, i);
    }
  }

  /** The hit time of a key is the time of the start press that began the present hold. */
  lemma {:induction false} HitTimeOfHistory(h: seq<Event>, curve: Curve, i: nat)
    requires StartsHold(h, i)
    ensures Play(h, curve).0.hitTime == h[i].time
  {
    var before, e := h[..|h| - 1], h[|h| - 1];
    assert h == before + [e];
    StateOfHistory(before, curve);
    assert !Is(e, StartButton, false);
    if Held(before) {
      HoldContinues(before, e, i);
      HitTimeOfHistory(before, curve, i);
      assert h[i] == before[i];
    } else {
      HoldBegins(before, e, i);
    }
  }

  /** The first end press of a hold finds the key held and not struck. */
  lemma StrikeIsFirst(h: seq<Event>, e: Event, i: nat)
    requires StrikesAt(h + [e], i, |h|)
    ensures StartsHold(h, i) && !Struck(h)
  {
    var longer := h + [e];
    assert longer[|h|] == e && forall m :: 0 <= m < |h| ==> longer[m] == h[m];
    HeldSinceBefore(h, e, i);
    HoldContinues(h, e, i);
  }

  lemma StrikeStays(h: seq<Event>, e: Event, i: nat, j: nat)
    requires StrikesAt(h + [e], i, j) && j < |h|
    ensures StrikesAt(h, i, j) && Struck(h)
  {
    var longer := h + [e];
    assert longer[|h|] == e && forall m :: 0 <= m < |h| ==> longer[m] == h[m];
    HeldSinceBefore(h, e, i);
    HoldContinues(h, e, i);
  }

  /** The velocity that a struck key remembers is that of its stroke. */
  lemma {:induction false} VelocityOfHistory(h: seq<Event>, curve: Curve, i: nat, j: nat)
    requires StrikesAt(h, i, j)
    ensures Play(h, curve).0.lastVelocity == curve(h[j].time - h[i].time)
  {
    var before, e := h[..|h| - 1], h[|h| - 1];
    assert h == before + [e];
    StateOfHistory(before, curve);
    if j < |before| {
      StrikeStays(before, e, i, j);
      VelocityOfHistory(before, curve, i, j);
      assert h[i] == before[i] && h[j] == before[j];
    } else {
      StrikeIsFirst(before, e, i);
      HitTimeOfHistory(before, curve, i);
      assert h[i] == before[i];
    }
  }

  /** Every struck key has the end press that struck it. */
  lemma {:induction false} StruckHasStrike(h: seq<Event>) returns (i: nat, j: nat)
    requires Struck(h)
    ensures StrikesAt(h, i, j)
  {
    var a: nat, b: nat :| HeldSince(h, a) && a < b < |h| && Is(h[b], EndButton, true);
    assert Held(h);
    i := HoldHasStart(h);
    assert i <= a;
    j := FirstEndPress(h, i, b);
  }

  lemma {:induction false} FirstEndPress(h: seq<Event>, i: nat, b: nat) returns (j: nat)
    requires i < b < |h| && Is(h[b], EndButton, true)
    ensures i < j <= b && Is(h[j], EndButton, true) && forall k :: i < k < j ==> !Is(h[k], EndButton, true)
    decreases b
  {
    if k: nat :| i < k < b && Is(h[k], EndButton, true) {
      j := FirstEndPress(h, i, k);
    } else {
      j := b;
    }
  }

  lemma PlayAppend(h: seq<Event>, e: Event, curve: Curve)
    ensures Play(h + [e], curve).1 == Play(h, curve).1 + Handle(Play(h, curve).0, e, curve).1
  {
    assert (h + [e])[..|h|] == h;
  }

  /** A start release sends a note-off; start presses, end releases and end presses without a hold send nothing. */
  lemma OtherNotes(h: seq<Event>, e: Event, curve: Curve)
    requires Is(e, EndButton, true) ==> !Held(h)
    ensures Play(h + [e], curve).1 == Play(h, curve).1 + if Is(e, StartButton, false) then [Off] else []
  {
    PlayAppend(h, e, curve);
    StateOfHistory(h, curve);
  }

  /** The first end press of a hold sends a note-on with the velocity for the time since the hold began. */
  lemma StrokeNotes(h: seq<Event>, e: Event, curve: Curve, i: nat)
    requires Is(e, EndButton, true) && StartsHold(h, i) && !Struck(h)
    ensures Play(h + [e], curve).1 == Play(h, curve).1 + [On(curve(e.time - h[i].time))]
  {
    PlayAppend(h, e, curve);
    StateOfHistory(h, curve);
    HitTimeOfHistory(h, curve, i);
  }

  /** Every later one sends a note-off and the same note-on again. */
  lemma RepeatNotes(h: seq<Event>, e: Event, curve: Curve, i: nat, j: nat)
    requires Is(e, EndButton, true) && StrikesAt(h, i, j)
    ensures Play(h + [e], curve).1 == Play(h, curve).1 + [Off, On(curve(h[j].time - h[i].time))]
  {
    assert Struck(h);
    PlayAppend(h, e, curve);
    StateOfHistory(h, curve);
    VelocityOfHistory(h, curve, i, j);
  }
}
