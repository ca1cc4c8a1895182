/**
 The GPIO component of the keyboard: its key objects, the handlers for interrupts and timers, and
 the notes that go to the MIDI component.
 */
module Keyboard {
  import opened Words
  import opened Wrappers
  import opened Keys
  import Debounce
  import Velocity

  /** struct key */
  class KeyObject {
    const note: Byte
    const irqs: Pair<int>
    var state: KeyState
    var hitTime: int
    var lastVelocity: Byte
    var timerStarted: Pair<bool>
    var expires: Pair<int>

    constructor (note: Byte, irqs: Pair<int>)
      ensures this.note == note && this.irqs == irqs
      ensures Value() == Key(Inactive, 0, 0) && timerStarted == Pair(false, false)
    {
      this.note, this.irqs := note, irqs;
      state, hitTime, lastVelocity := Inactive, 0, 0;
      timerStarted, expires := Pair(false, false), Pair(0, 0);
    }

    /** The part of the object that the state machine works on. */
    function Value(): Key
      reads this
    {
      Key(state, hitTime, lastVelocity)
    }

    /** The timer of a button, while it runs. */
    function Timer(b: Button): Option<int>
      reads this
    {
      if timerStarted.Get(b) then Some(expires.Get(b)) else None
    }
  }

  /** The state of the debouncing system that a key object is in, whatever its environment does. */
  ghost predicate Shows(k: KeyObject, s: Debounce.System)
    reads k
  {
    s.key == k.Value() && s.timer == Pair(k.Timer(StartButton), k.Timer(EndButton))
  }

  /** A note with the key object that triggered it. */
  datatype KeyNote = KeyNote(key: KeyObject, note: Note)

  function From(key: KeyObject, notes: seq<Note>): (ms: seq<KeyNote>)
    ensures |ms| == |notes|
    ensures forall i :: 0 <= i < |ms| ==> ms[i] == KeyNote(key, notes[i])
  {
    seq(|notes|, i requires 0 <= i < |notes| => KeyNote(key, notes[i]))
  }

  function LinearCurve(min: Word, max: Word): Curve {
    ns => Velocity.OfStroke(min, max, ns)
  }

  /** The time of the last stroke: that from the start press to the end press, once a key is struck. */
  function StrokeTime(k: Key, button: Button, active: bool, now: int, last: Word): Word {
    if k.state == Touched && button == EndButton && active then Velocity.ToUnits(now - k.hitTime) else last
  }

  /**
   After any history with the linear curve, the first end press of a hold sends the velocity for the
   time since the hold began, and makes it the time of the last stroke.
   */
  lemma StrokeIsMeasured(h: seq<Event>, e: Event, min: Word, max: Word, i: nat, last: Word)
    requires Is(e, EndButton, true) && StartsHold(h, i) && !Struck(h)
    ensures var curve := LinearCurve(min, max);
            var units := Velocity.ToUnits(e.time - h[i].time);
            && Play(h + [e], curve).1 == Play(h, curve).1 + [On(Velocity.OfTime(min, max, units))]
            && StrokeTime(Play(h, curve).0, e.button, e.active, e.time, last) == units
  {
    var curve := LinearCurve(min, max);
    StrokeNotes(h, e, curve, i);
    HitTimeOfHistory(h, curve, i);
    StateOfHistory(h, curve);
  }

  /** And it is remembered for the end presses after it. */
  lemma StrokeIsRepeated(h: seq<Event>, e: Event, min: Word, max: Word, i: nat, j: nat)
    requires Is(e, EndButton, true) && StrikesAt(h, i, j)
    ensures var curve := LinearCurve(min, max);
            var velocity := Velocity.OfTime(min, max, Velocity.ToUnits(h[j].time - h[i].time));
            Play(h + [e], curve).1 == Play(h, curve).1 + [Off, On(velocity)]
  {
    RepeatNotes(h, e, LinearCurve(min, max), i, j);
  }

  /** struct cmidid_gpio_state, with the messages it has sent. */
  class Gpio {
    const keys: seq<KeyObject>
    const activeHigh: Pair<bool>
    const jitter: nat
    const min: Word
    const max: Word
    var lastStrokeTime: Word
    var midi: seq<KeyNote>

    constructor (keys: seq<KeyObject>, activeHigh: Pair<bool>, jitter: nat, min: Word, max: Word)
      ensures this.keys == keys && this.activeHigh == activeHigh && this.jitter == jitter
      ensures this.min == min && this.max == max && midi == []
    {
      this.keys, this.activeHigh, this.jitter, this.min, this.max := keys, activeHigh, jitter, min, max;
      lastStrokeTime, midi := 100000, [];
    }

    /** The system is one of this component's, and the timer of a button expires there at this level and time. */
    ghost predicate Expires(cfg: Debounce.Config, s: Debounce.System, button: Button, gpio: bool, now: int) {
      && cfg.activeHigh == activeHigh && cfg.curve == LinearCurve(min, max)
      && s.now == now && s.level.Get(button) == gpio && Debounce.Enabled(s, Debounce.Expire(button))
    }

    /** handle_button_event: the key and its notes follow the state machine. */
    method HandleButtonEvent(k: KeyObject, button: Button, active: bool, now: int)
      modifies k`state, k`hitTime, k`lastVelocity, `lastStrokeTime, `midi
      ensures var (next, notes) := Handle(old(k.Value()), Event(button, active, now), LinearCurve(min, max));
              k.Value() == next && midi == old(midi) + From(k, notes)
      ensures lastStrokeTime == StrokeTime(old(k.Value()), button, active, now, old(lastStrokeTime))
      ensures old(k.state) == Touched && button == EndButton && active ==>
                && lastStrokeTime == Velocity.ToUnits(now - old(k.hitTime))
                && midi == old(midi) + [KeyNote(k, On(Velocity.OfTime(min, max, lastStrokeTime)))]
    {
      var notes: seq<Note> := [];
      match k.state {
        case Inactive =>
          if button == StartButton && active {
            k.hitTime := now;
            k.state := Touched;
          } else if button == StartButton && !active {
            notes := [Off];
          }
        case Touched =>
          if button == StartButton && !active {
            notes := [Off];
            k.state := Inactive;
          } else if button == EndButton && active {
            lastStrokeTime := Velocity.ToUnits(now - k.hitTime);
            var velocity := Velocity.OfTime(min, max, lastStrokeTime);
            notes := [On(velocity)];
            k.lastVelocity := velocity;
            k.state := Pressed;
          }
        case Pressed =>
          if button == StartButton && !active {
            notes := [Off];
            k.state := Inactive;
          } else if button == EndButton && active {
            notes := [Off, On(k.lastVelocity)];
          }
      }
      midi := midi + From(k, notes);
    }

    /** get_key_from_irq: the first key with this interrupt, and which of its buttons raised it. */
    method KeyFromIrq(irq: int) returns (k: KeyObject?, button: Button)
      ensures k == null <==> forall i :: 0 <= i < |keys| ==> keys[i].irqs.start != irq && keys[i].irqs.end != irq
      ensures k != null ==> k in keys && k.irqs.Get(button) == irq && (button == EndButton ==> k.irqs.start != irq)
      ensures k != null ==>
                exists i :: 0 <= i < |keys| && keys[i] == k
                            && forall j :: 0 <= j < i ==> keys[j].irqs.start != irq && keys[j].irqs.end != irq
    {
      var i := 0;
      while i < |keys|
        invariant 0 <= i <= |keys|
        invariant forall j :: 0 <= j < i ==> keys[j].irqs.start != irq && keys[j].irqs.end != irq
      {
        if keys[i].irqs.start == irq {
          return keys[i], StartButton;
        }
        if keys[i].irqs.end == irq {
          return keys[i], EndButton;
        }
        i := i + 1;
      }
      return null, StartButton;
    }

    /** irq_handler: starts the timer of the button, unless it runs already. */
    method IrqHandler(irq: int, now: int) returns (k: KeyObject?, button: Button)
      modifies keys
      ensures k == null <==> forall i :: 0 <= i < |keys| ==> keys[i].irqs.start != irq && keys[i].irqs.end != irq
      ensures k != null ==> k in keys && k.irqs.Get(button) == irq && (button == EndButton ==> k.irqs.start != irq)
      ensures k != null ==>
                exists i :: 0 <= i < |keys| && keys[i] == k
                            && forall j :: 0 <= j < i ==> keys[j].irqs.start != irq && keys[j].irqs.end != irq
      ensures k != null ==> k.Timer(button) == Debounce.Started(old(k.Timer(button)), now, jitter)
      ensures k != null ==> forall b :: b != button ==> k.Timer(b) == old(k.Timer(b))
      ensures k != null ==> forall cfg: Debounce.Config, s: Debounce.System ::
                cfg.jitter == jitter && s.now == now && old(Shows(k, s))
                ==> Shows(k, Debounce.Step(cfg, s, Debounce.Interrupt(button)))
      ensures forall other :: other in keys ==>
                && other.Value() == old(other.Value())
                && (other != k ==> forall b :: other.Timer(b) == old(other.Timer(b)))
    {
      k, button := KeyFromIrq(irq);
      if k != null && !k.timerStarted.Get(button) {
        k.expires := k.expires.Put(button, now + jitter);
        k.timerStarted := k.timerStarted.Put(button, true);
      }
    }

    /** timer_irq for the timer of a key's button: handles what the GPIO reads now. */
    method TimerIrq(k: KeyObject, button: Button, gpio: bool, now: int)
      modifies k, `lastStrokeTime, `midi
      ensures k.Timer(button) == None
      ensures forall b :: b != button ==> k.Timer(b) == old(k.Timer(b))
      ensures var (next, notes) :=
                Handle(old(k.Value()), Event(button, activeHigh.Get(button) == gpio, now), LinearCurve(min, max));
              k.Value() == next && midi == old(midi) + From(k, notes)
      ensures lastStrokeTime
           == StrokeTime(old(k.Value()), button, activeHigh.Get(button) == gpio, now, old(lastStrokeTime))
      ensures forall cfg: Debounce.Config, s: Debounce.System :: Expires(cfg, s, button, gpio, now) && old(Shows(k, s))
                ==> Shows(k, Debounce.Step(cfg, s, Debounce.Expire(button)))
    {
      k.timerStarted := k.timerStarted.Put(button, false);
      HandleButtonEvent(k, button, !(activeHigh.Get(button) != gpio), now);
    }
  }
}
