/**
 The debouncing of one key as a system: levels that change at any time, interrupts, one timer per
 button, and the state machine behind them. Interrupt handler and timer handler are atomic.
 */
module Debounce {
  import opened Wrappers
  import opened Keys

  datatype Config = Config(activeHigh: Pair<bool>, jitter: nat, curve: Curve)

  /**
   `level` is what the GPIO reads, `irq` an interrupt that is raised but not handled, `timer` the
   expiry of the timer that timer_started stands for; `history` is what the timers have handled.
   */
  datatype System = System(now: int, level: Pair<bool>, irq: Pair<bool>, timer: Pair<Option<int>>,
                           key: Key, notes: seq<Note>, history: seq<Event>)

  /** Time passes; a level changes and raises its interrupt; a handler runs. */
  datatype Action = Pass(now: int) | Change(button: Button) | Interrupt(button: Button) | Expire(button: Button)

  /** timer_irq's reading of the level: the exclusive nor with the polarity. */
  predicate Active(cfg: Config, s: System, b: Button) {
    cfg.activeHigh.Get(b) == s.level.Get(b)
  }

  /** irq_handler for one button: a running timer makes it ignore the interrupt. */
  function Started(timer: Option<int>, now: int, jitter: nat): Option<int> {
    if timer == None then Some(now + jitter) else timer
  }

  /** An interrupt may also come without a change. */
  predicate Enabled(s: System, a: Action) {
    match a
    case Pass(now) => s.now <= now
    case Change(_) => true
    case Interrupt(_) => true
    case Expire(b) => s.timer.Get(b).Some? && s.timer.Get(b).value <= s.now
  }

  function Step(cfg: Config, s: System, a: Action): System
    requires Enabled(s, a)
  {
    match a
    case Pass(now) => s.(now := now)
    case Change(b) => s.(level := s.level.Put(b, !s.level.Get(b)), irq := s.irq.Put(b, true))
    case Interrupt(b) =>
      s.(irq := s.irq.Put(b, false), timer := s.timer.Put(b, Started(s.timer.Get(b), s.now, cfg.jitter)))
    case Expire(b) =>
      var e := Event(b, Active(cfg, s, b), s.now);
      var (k, more) := Handle(s.key, e, cfg.curve);
      s.(timer := s.timer.Put(b, None), key := k, notes := s.notes + more, history := s.history + [e])
  }

  /** An untouched key without timers; a button that is active already has raised its interrupt. */
  predicate Init(cfg: Config, s: System) {
    && s.timer == Pair(None, None) && s.key == Key(Inactive, 0, 0) && s.notes == [] && s.history == []
    && (Active(cfg, s, StartButton) ==> s.irq.start) && (Active(cfg, s, EndButton) ==> s.irq.end)
  }

  ghost predicate IsRun(cfg: Config, states: seq<System>, actions: seq<Action>) {
    && |states| == |actions| + 1
    && Init(cfg, states[0])
    && forall i :: 0 <= i < |actions| ==>
         Enabled(states[i], actions[i]) && states[i + 1] == Step(cfg, states[i], actions[i])
  }

  /** Nothing is on its way for a button: neither an interrupt nor a timer. */
  predicate Quiet(s: System, b: Button) {
    !s.irq.Get(b) && s.timer.Get(b) == None
  }

  /** What the state machine was last told about a button. */
  function LastHandled(h: seq<Event>, b: Button): bool {
    if h == [] then false
    else if h[|h| - 1].button == b then h[|h| - 1].active
    else LastHandled(h[..|h| - 1], b)
  }

  ghost predicate Inv(cfg: Config, s: System) {
    && Play(s.history, cfg.curve) == (s.key, s.notes)
    && (forall b :: Quiet(s, b) ==> LastHandled(s.history, b) == Active(cfg, s, b))
    && (forall i :: 0 <= i < |s.history| ==> s.history[i].time <= s.now)
    && (forall i :: 0 <= i < |s.history| && s.timer.Get(s.history[i].button).Some? ==>
          s.history[i].time + cfg.jitter <= s.timer.Get(s.history[i].button).value)
    && TimersDue(s, cfg.jitter)
    && Spaced(s.history, cfg.jitter)
  }

  /** Events of the same button are at least so far apart. */
  ghost predicate Spaced(h: seq<Event>, jitter: nat) {
    forall i, j :: 0 <= i < j < |h| && h[i].button == h[j].button ==> h[i].time + jitter <= h[j].time
  }

  ghost predicate TimersDue(s: System, jitter: nat) {
    forall b :: s.timer.Get(b).Some? ==> s.timer.Get(b).value <= s.now + jitter
  }

  lemma StepKeepsTimersDue(cfg: Config, s: System, a: Action)
    requires TimersDue(s, cfg.jitter) && Enabled(s, a)
    ensures TimersDue(Step(cfg, s, a), cfg.jitter)
  {
    var t := Step(cfg, s, a);
    forall b | t.timer.Get(b).Some?
      ensures t.timer.Get(b).value <= t.now + cfg.jitter
    {
      assert t.timer.Get(b) == s.timer.Get(b) || t.timer.Get(b) == Started(s.timer.Get(b), s.now, cfg.jitter);
    }
  }

  lemma ExpireKeepsInv(cfg: Config, s: System, b: Button)
    requires Inv(cfg, s) && Enabled(s, Expire(b))
    ensures Inv(cfg, Step(cfg, s, Expire(b)))
  {
    var t := Step(cfg, s, Expire(b));
    StepKeepsTimersDue(cfg, s, Expire(b));
    var e := Event(b, Active(cfg, s, b), s.now);
    assert t.history == s.history + [e];
    assert t.history[..|s.history|] == s.history && t.history[|s.history|] == e;
    forall c | Quiet(t, c)
      ensures LastHandled(t.history, c) == Active(cfg, t, c)
    {
      if c != b {
        assert Quiet(s, c);
      }
    }
  }

  lemma StepKeepsInv(cfg: Config, s: System, a: Action)
    requires Inv(cfg, s) && Enabled(s, a)
    ensures Inv(cfg, Step(cfg, s, a))
  {
    if a.Expire? {
      ExpireKeepsInv(cfg, s, a.button);
    } else {
      var t := Step(cfg, s, a);
      StepKeepsTimersDue(cfg, s, a);
      forall c | Quiet(t, c)
        ensures LastHandled(t.history, c) == Active(cfg, t, c)
      {
        assert Quiet(s, c);
      }
    }
  }

  /** The invariant holds in every state of every run. */
  lemma {:induction false} RunKeepsInv(cfg: Config, states: seq<System>, actions: seq<Action>, i: nat)
    requires IsRun(cfg, states, actions) && i < |states|
    ensures Inv(cfg, states[i])
  {
    if i > 0 {
      RunKeepsInv(cfg, states, actions, i - 1);
      StepKeepsInv(cfg, states[i - 1], actions[i - 1]);
    }
  }

  lemma {:induction false} HeldIsLastHandled(h: seq<Event>)
    ensures Held(h) <==> LastHandled(h, StartButton)
  {
    if h != [] {
      var before, e := h[..|h| - 1], h[|h| - 1];
      HeldIsLastHandled(before);
      HeldAppend(before, e);
      assert h == before + [e];
    }
  }

  /**
   In every reachable state a button on which nothing is under way has been handled at its level,
   whatever bounces came before.
   */
  lemma LevelIsHandled(cfg: Config, states: seq<System>, actions: seq<Action>, i: nat, b: Button)
    requires IsRun(cfg, states, actions) && i < |states| && Quiet(states[i], b)
    ensures LastHandled(states[i].history, b) == Active(cfg, states[i], b)
  {
    RunKeepsInv(cfg, states, actions, i);
  }

  /**
   No stuck notes: in every reachable state, if the start button is released and nothing is under way
   for it, the key is inactive and every note-on has had its note-off.
   */
  lemma NoStuckNotes(cfg: Config, states: seq<System>, actions: seq<Action>, i: nat)
    requires IsRun(cfg, states, actions) && i < |states|
    requires Quiet(states[i], StartButton) && !Active(cfg, states[i], StartButton)
    ensures states[i].key.state == Inactive && Balance(states[i].notes) == 0
  {
    RunKeepsInv(cfg, states, actions, i);
    HeldIsLastHandled(states[i].history);
    StateOfHistory(states[i].history, cfg.curve);
    NotesOfHistory(states[i].history, cfg.curve);
  }

  /** And if it is held down, and nothing is under way, the key is touched or pressed. */
  lemma HeldKeysAreActive(cfg: Config, states: seq<System>, actions: seq<Action>, i: nat)
    requires IsRun(cfg, states, actions) && i < |states|
    requires Quiet(states[i], StartButton) && Active(cfg, states[i], StartButton)
    ensures states[i].key.state != Inactive
  {
    RunKeepsInv(cfg, states, actions, i);
    HeldIsLastHandled(states[i].history);
    StateOfHistory(states[i].history, cfg.curve);
  }

  /** Over every run the notes alternate, and a note-on is without its note-off exactly while the key is pressed. */
  lemma NotesOfRun(cfg: Config, states: seq<System>, actions: seq<Action>, i: nat)
    requires IsRun(cfg, states, actions) && i < |states|
    ensures Alternating(states[i].notes)
    ensures Balance(states[i].notes) == if states[i].key.state == Pressed then 1 else 0
  {
    RunKeepsInv(cfg, states, actions, i);
    NotesOfHistory(states[i].history, cfg.curve);
  }

  /** Over every run the handled events of one button are at least the jitter time apart. */
  lemma EventsAreSpaced(cfg: Config, states: seq<System>, actions: seq<Action>, i: nat)
    requires IsRun(cfg, states, actions) && i < |states|
    ensures Spaced(states[i].history, cfg.jitter)
  {
    RunKeepsInv(cfg, states, actions, i);
  }

  /**
   Once the levels rest, a released key becomes inactive within the jitter time: its interrupt and
   its timer, handled when they are due, are enough.
   */
  lemma SettlesWithinJitter(cfg: Config, states: seq<System>, actions: seq<Action>, i: nat)
    requires IsRun(cfg, states, actions) && i < |states| && !Active(cfg, states[i], StartButton)
    ensures var s := states[i];
            var raised := Step(cfg, s, Interrupt(StartButton));
            var due := if raised.timer.start.value < s.now then s.now else raised.timer.start.value;
            var settled := Step(cfg, Step(cfg, raised, Pass(due)), Expire(StartButton));
            && due <= s.now + cfg.jitter
            && settled.key.state == Inactive && Balance(settled.notes) == 0
  {
    RunKeepsInv(cfg, states, actions, i);
    var s := states[i];
    var raised := Step(cfg, s, Interrupt(StartButton));
    StepKeepsInv(cfg, s, Interrupt(StartButton));
    var due := if raised.timer.start.value < s.now then s.now else raised.timer.start.value;
    assert raised.timer.Get(StartButton).value <= s.now + cfg.jitter;
    StepKeepsInv(cfg, raised, Pass(due));
    ReleaseIsHandled(cfg, Step(cfg, raised, Pass(due)));
  }

  lemma ReleaseIsHandled(cfg: Config, s: System)
    requires Inv(cfg, s) && Enabled(s, Expire(StartButton)) && !Active(cfg, s, StartButton)
    ensures var t := Step(cfg, s, Expire(StartButton)); t.key.state == Inactive && Balance(t.notes) == 0
  {
    var e := Event(StartButton, false, s.now);
    var h := s.history + [e];
    assert h[..|s.history|] == s.history;
    HeldAppend(s.history, e);
    StateOfHistory(h, cfg.curve);
    NotesOfHistory(h, cfg.curve);
  }

  /**
   While a button bounces its timer keeps the expiry that the first interrupt gave it: its event is
   due the jitter time after that, whatever interrupts come meanwhile.
   */
  lemma {:induction false} FirstInterruptDecides(cfg: Config, states: seq<System>, actions: seq<Action>,
                                                 i: nat, j: nat, b: Button)
    requires IsRun(cfg, states, actions) && i < j < |states|
    requires states[i].timer.Get(b) == None && actions[i] == Interrupt(b)
    requires forall k :: i < k < j ==> actions[k] != Expire(b)
    ensures states[j].timer.Get(b) == Some(states[i].now + cfg.jitter)
    ensures Enabled(states[j], Expire(b)) <==> states[j].now >= states[i].now + cfg.jitter
  {
    assert states[j] == Step(cfg, states[j - 1], actions[j - 1]);
    if i < j - 1 {
      FirstInterruptDecides(cfg, states, actions, i, j - 1, b);
      assert actions[j - 1] != Expire(b);
    }
  }

  // ----- a run that ends pressed, without an end press since the last start press -----

  /** What one action adds to a run. */
  lemma RunExtended(cfg: Config, states: seq<System>, actions: seq<Action>, a: Action)
    returns (longer: seq<System>, more: seq<Action>)
    requires IsRun(cfg, states, actions) && Enabled(states[|states| - 1], a)
    ensures IsRun(cfg, longer, more) && more == actions + [a]
    ensures |longer| == |states| + 1 && longer[|states|] == Step(cfg, states[|states| - 1], a)
  {
    longer, more := states + [Step(cfg, states[|states| - 1], a)], actions + [a];
  }

  /** A change, its interrupt, the jitter time and the expiry: one handled event. */
  lemma EventHandled(cfg: Config, states: seq<System>, actions: seq<Action>, b: Button)
    returns (longer: seq<System>, more: seq<Action>)
    requires IsRun(cfg, states, actions) && states[|states| - 1].timer.Get(b) == None
    ensures IsRun(cfg, longer, more) && |longer| > 0
    ensures var s, t := states[|states| - 1], longer[|longer| - 1];
            && t.now == s.now + cfg.jitter
            && t.level == s.level.Put(b, !s.level.Get(b)) && t.timer == s.timer
            && t.history == s.history + [Event(b, !Active(cfg, s, b), t.now)]
  {
    var s := states[|states| - 1];
    longer, more := RunExtended(cfg, states, actions, Change(b));
    longer, more := RunExtended(cfg, longer, more, Interrupt(b));
    longer, more := RunExtended(cfg, longer, more, Pass(s.now + cfg.jitter));
    longer, more := RunExtended(cfg, longer, more, Expire(b));
  }

  /** A bounce: a change, its interrupt and the change back before the timer expires. */
  lemma BounceHandled(cfg: Config, states: seq<System>, actions: seq<Action>, b: Button)
    returns (longer: seq<System>, more: seq<Action>)
    requires IsRun(cfg, states, actions) && states[|states| - 1].timer.Get(b) == None
    ensures IsRun(cfg, longer, more) && |longer| > 0
    ensures var s, t := states[|states| - 1], longer[|longer| - 1];
            t.history == s.history + [Event(b, Active(cfg, s, b), s.now + cfg.jitter)]
  {
    var s := states[|states| - 1];
    longer, more := RunExtended(cfg, states, actions, Change(b));
    longer, more := RunExtended(cfg, longer, more, Interrupt(b));
    longer, more := RunExtended(cfg, longer, more, Change(b));
    longer, more := RunExtended(cfg, longer, more, Pass(s.now + cfg.jitter));
    longer, more := RunExtended(cfg, longer, more, Expire(b));
  }

  /**
   Under every configuration a run reaches a key that is pressed although no end press follows its
   last start press: both buttons are pressed, and then the start button bounces.
   */
  lemma PressedAfterStartPressOnly(cfg: Config) returns (states: seq<System>, actions: seq<Action>)
    ensures IsRun(cfg, states, actions) && |states| > 0
    ensures var s := states[|states| - 1];
            && s.key.state == Pressed && Balance(s.notes) == 1
            && |s.history| == 3
            && Is(s.history[0], StartButton, true) && Is(s.history[1], EndButton, true)
            && Is(s.history[2], StartButton, true)
  {
    var levels := Pair(!cfg.activeHigh.start, !cfg.activeHigh.end);
    var s := System(0, levels, Pair(false, false), Pair(None, None), Key(Inactive, 0, 0), [], []);
    states, actions := [s], [];
    states, actions := EventHandled(cfg, states, actions, StartButton);
    states, actions := EventHandled(cfg, states, actions, EndButton);
    states, actions := BounceHandled(cfg, states, actions, StartButton);
    EndsPressed(cfg, states, actions);
  }

  lemma EndsPressed(cfg: Config, states: seq<System>, actions: seq<Action>)
    requires IsRun(cfg, states, actions) && |states| > 0 && |states[|states| - 1].history| == 3
    requires var h := states[|states| - 1].history;
             Is(h[0], StartButton, true) && Is(h[1], EndButton, true) && Is(h[2], StartButton, true)
    ensures states[|states| - 1].key.state == Pressed && Balance(states[|states| - 1].notes) == 1
  {
    RunKeepsInv(cfg, states, actions, |states| - 1);
    var h := states[|states| - 1].history;
    PressedWithoutLaterEndPress(cfg.curve, h, h[0].time, h[1].time, h[2].time);
    NotesOfHistory(h, cfg.curve);
  }
}
