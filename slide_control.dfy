/** The per-frame decision logic of the slide controller: cooldown gating of
    swipe gestures, emission of navigation commands, and the notification
    timer. `Step` is the pure specification of one frame tick; the class
    `SlideController` holds the same state in mutable fields and its `Tick`
    method is proved to perform exactly `Step`. */
module SlideControl {
  import opened Gestures

  /** Frames a direction stays suppressed after it fires. */
  const CooldownDuration: int := 30
  /** Frames a notification stays on screen. */
  const NotificationDuration: int := 30

  const NextLabel: string := "NEXT SLIDE >"
  const PreviousLabel: string := "< PREVIOUS SLIDE"

  datatype Option<T> = None | Some(value: T)

  /** A navigation command, sent on as a key press. */
  datatype Command = NextSlide | PreviousSlide {
    /** The key pressed for this command. */
    function Key(): string {
      match this
      case NextSlide => "right"
      case PreviousSlide => "left"
    }

    /** The notification text shown when this command fires. */
    function Label(): string {
      match this
      case NextSlide => NextLabel
      case PreviousSlide => PreviousLabel
    }
  }

  /** The controller's state: the two cooldowns, the notification counter
      and the notification text. */
  datatype State = State(next: int, prev: int, counter: int, text: string)

  /** The state at session start. */
  const Initial: State := State(0, 0, 0, "")

  /** The invariant kept by every tick: all three counters stay within
      their durations and never go negative. */
  predicate ValidState(s: State) {
    0 <= s.next <= CooldownDuration
    && 0 <= s.prev <= CooldownDuration
    && 0 <= s.counter <= NotificationDuration
  }

  /** The gesture that triggers a command. */
  predicate Swipes(h: Hand, c: Command) {
    match c
    case NextSlide => IsSwipeRight(h)
    case PreviousSlide => IsSwipeLeft(h)
  }

  /** The cooldown that gates a command. */
  function Cooldown(s: State, c: Command): int {
    match c
    case NextSlide => s.next
    case PreviousSlide => s.prev
  }

  function Max(a: int, b: int): int {
    if a < b then b else a
  }

  /** The state right after command `c` fires: its cooldown and the
      notification restart, its label replaces the text, and the other
      direction's cooldown is left alone. */
  function Fire(s: State, c: Command): (t: State)
    ensures Cooldown(t, c) == CooldownDuration
    ensures forall d :: d != c ==> Cooldown(t, d) == Cooldown(s, d)
    ensures t.counter == NotificationDuration && t.text == c.Label()
  {
    match c
    case NextSlide => s.(next := CooldownDuration, counter := NotificationDuration, text := NextLabel)
    case PreviousSlide => s.(prev := CooldownDuration, counter := NotificationDuration, text := PreviousLabel)
  }

  datatype HandOutcome = HandOutcome(state: State, fired: Option<Command>)

  /** One hand of a frame. The right swipe is tried first; the left swipe
      only when the right one did not fire. At most one command per hand,
      and a command fires exactly when its gesture is seen and its cooldown
      has run out. */
  function HandStep(s: State, h: Hand): (r: HandOutcome)
    ensures forall c :: r.fired == Some(c) <==> Swipes(h, c) && Cooldown(s, c) <= 0
    ensures r.fired.None? ==> r.state == s
    ensures r.fired.Some? ==> r.state == Fire(s, r.fired.value)
  {
    SwipesExclusive(h);
    if IsSwipeRight(h) && s.next <= 0 then HandOutcome(Fire(s, NextSlide), Some(NextSlide))
    else if IsSwipeLeft(h) && s.prev <= 0 then HandOutcome(Fire(s, PreviousSlide), Some(PreviousSlide))
    else HandOutcome(s, None)
  }

  function FiredSeq(o: Option<Command>): seq<Command> {
    match o
    case None => []
    case Some(c) => [c]
  }

  datatype HandsOutcome = HandsOutcome(state: State, cmds: seq<Command>)

  /** All hands of a frame, in order, against the shared counters. */
  function ProcessHands(s: State, hands: seq<Hand>): (r: HandsOutcome)
    ensures |r.cmds| <= |hands|
    decreases |hands|
  {
    if hands == [] then HandsOutcome(s, [])
    else
      var before := ProcessHands(s, hands[..|hands| - 1]);
      var o := HandStep(before.state, hands[|hands| - 1]);
      HandsOutcome(o.state, before.cmds + FiredSeq(o.fired))
  }

  /** What the frame tick produces: the new state, the commands emitted in
      order, whether the notification is drawn and the text it shows. */
  datatype TickResult = TickResult(state: State, cmds: seq<Command>, visible: bool, text: string)

  /** One frame tick: process the hands, decrement both cooldowns with a
      floor of 0, then show the notification and count it down if its
      counter is positive. */
  function Step(s: State, hands: seq<Hand>): TickResult {
    var afterHands := ProcessHands(s, hands);
    var t := afterHands.state;
    var decayed := t.(next := Max(0, t.next - 1), prev := Max(0, t.prev - 1));
    if decayed.counter > 0 then
      TickResult(decayed.(counter := decayed.counter - 1), afterHands.cmds, true, decayed.text)
    else
      TickResult(decayed, afterHands.cmds, false, decayed.text)
  }

  /** Processing one more hand extends the outcome of the earlier hands by
      that hand's step. */
  lemma ProcessHandsLast(s: State, hands: seq<Hand>, h: Hand)
    ensures var before := ProcessHands(s, hands);
      var o := HandStep(before.state, h);
      ProcessHands(s, hands + [h]) == HandsOutcome(o.state, before.cmds + FiredSeq(o.fired))
  {
    assert (hands + [h])[..|hands|] == hands;
  }

  /** Processing the first `i + 1` hands extends the outcome of the first
      `i` hands by the step of hand `i`. */
  lemma ProcessHandsPrefix(s: State, hands: seq<Hand>, i: nat)
    requires i < |hands|
    ensures var before := ProcessHands(s, hands[..i]);
      var o := HandStep(before.state, hands[i]);
      ProcessHands(s, hands[..i + 1]) == HandsOutcome(o.state, before.cmds + FiredSeq(o.fired))
  {
    assert hands[..i + 1] == hands[..i] + [hands[i]];
    ProcessHandsLast(s, hands[..i], hands[i]);
  }

  /** The state after the hands of a frame: the cooldown of each direction
      that fired is restarted and the other one is untouched; with no
      command the state is unchanged, otherwise the label of the last
      command is shown with a fresh counter (last write wins). */
  lemma {:induction false} ProcessHandsState(s: State, hands: seq<Hand>)
    ensures forall c :: Cooldown(ProcessHands(s, hands).state, c) ==
                        (if c in ProcessHands(s, hands).cmds then CooldownDuration else Cooldown(s, c))
    ensures ProcessHands(s, hands).cmds == [] ==> ProcessHands(s, hands).state == s
    ensures var r := ProcessHands(s, hands);
      r.cmds != [] ==> r.state.counter == NotificationDuration && r.state.text == r.cmds[|r.cmds| - 1].Label()
    decreases |hands|
  {
    if hands != [] {
      var init, last := hands[..|hands| - 1], hands[|hands| - 1];
      assert hands == init + [last];
      ProcessHandsState(s, init);
      ProcessHandsLast(s, init, last);
      var before := ProcessHands(s, init);
      var o := HandStep(before.state, last);
      var r := ProcessHands(s, hands);
      match o.fired
      case None =>
        assert r == before;
      case Some(d) =>
        assert r.cmds == before.cmds + [d];
        assert r.state == Fire(before.state, d);
        forall c
          ensures Cooldown(r.state, c) == (if c in r.cmds then CooldownDuration else Cooldown(s, c))
        {
          if c != d {
            assert c in r.cmds <==> c in before.cmds;
          }
        }
    }
  }

  /** The commands of the hands of a frame: a direction fires exactly when
      its cooldown had run out before the frame and some hand shows its
      gesture, and no direction fires twice. */
  lemma {:induction false} ProcessHandsCommands(s: State, hands: seq<Hand>)
    ensures forall c :: c in ProcessHands(s, hands).cmds <==>
      Cooldown(s, c) <= 0 && exists h :: h in hands && Swipes(h, c)
    ensures var cmds := ProcessHands(s, hands).cmds;
      forall i, j :: 0 <= i < j < |cmds| ==> cmds[i] != cmds[j]
    decreases |hands|
  {
    if hands != [] {
      var init, last := hands[..|hands| - 1], hands[|hands| - 1];
      assert hands == init + [last];
      ProcessHandsCommands(s, init);
      ProcessHandsState(s, init);
      ProcessHandsLast(s, init, last);
      var before := ProcessHands(s, init);
      var o := HandStep(before.state, last);
      SwipesExclusive(last);
      assert o.fired.Some? ==> o.fired.value !in before.cmds;
      forall c
        ensures c in ProcessHands(s, hands).cmds <==>
          Cooldown(s, c) <= 0 && exists h :: h in hands && Swipes(h, c)
      {
        if c in before.cmds {
          var h :| h in init && Swipes(h, c);
          assert h in hands;
        } else if Cooldown(s, c) <= 0 && Swipes(last, c) {
          assert o.fired == Some(c);
        }
      }
    }
  }

  /** The commands of one tick: a command is emitted exactly when its
      cooldown had run out at the start of the tick and some hand shows its
      gesture; no command is emitted twice and there is at most one per
      hand. */
  lemma TickCommands(s: State, hands: seq<Hand>)
    ensures forall c :: c in Step(s, hands).cmds <==>
      Cooldown(s, c) <= 0 && exists h :: h in hands && Swipes(h, c)
    ensures var cmds := Step(s, hands).cmds;
      |cmds| <= |hands| && forall i, j :: 0 <= i < j < |cmds| ==> cmds[i] != cmds[j]
  {
    ProcessHandsCommands(s, hands);
    assert Step(s, hands).cmds == ProcessHands(s, hands).cmds;
  }

  /** The cooldowns after one tick: a direction that fired this tick is at
      one less than the full cooldown; any other is decremented with a
      floor of 0. */
  lemma TickCooldowns(s: State, hands: seq<Hand>)
    ensures forall c :: Cooldown(Step(s, hands).state, c) ==
                        (if c in Step(s, hands).cmds then CooldownDuration - 1 else Max(0, Cooldown(s, c) - 1))
  {
    ProcessHandsState(s, hands);
  }

  /** The notification after one tick: it is visible exactly when a command
      fired this tick or a notification was already running; a command
      shows the label of the last command emitted (last write wins) and
      leaves one frame fewer than the full duration; otherwise the text is
      kept and a positive counter goes down by one. */
  lemma TickNotification(s: State, hands: seq<Hand>)
    ensures var r := Step(s, hands);
      && (r.visible <==> r.cmds != [] || s.counter > 0)
      && r.text == r.state.text
      && (r.cmds != [] ==> r.text == r.cmds[|r.cmds| - 1].Label() && r.state.counter == NotificationDuration - 1)
      && (r.cmds == [] ==> r.text == s.text && r.state.counter == if s.counter > 0 then s.counter - 1 else s.counter)
  {
    ProcessHandsState(s, hands);
  }

  /** A tick with no hand emits nothing, only counts the cooldowns down
      with a floor of 0, and counts a running notification down. */
  lemma EmptyTick(s: State)
    ensures Step(s, []).cmds == []
    ensures Step(s, []).state.next == Max(0, s.next - 1) && Step(s, []).state.prev == Max(0, s.prev - 1)
    ensures Step(s, []).visible == (s.counter > 0)
    ensures Step(s, []).state.counter == if s.counter > 0 then s.counter - 1 else s.counter
    ensures Step(s, []).state.text == s.text
  {
  }

  /** Every tick keeps the counters in range; after a tick both cooldowns
      and the counter are even strictly below their durations. */
  lemma TickPreservesValid(s: State, hands: seq<Hand>)
    requires ValidState(s)
    ensures ValidState(Step(s, hands).state)
    ensures var t := Step(s, hands).state;
      t.next < CooldownDuration && t.prev < CooldownDuration && t.counter < NotificationDuration
  {
    ProcessHandsState(s, hands);
    TickCooldowns(s, hands);
    TickNotification(s, hands);
    assert Cooldown(Step(s, hands).state, NextSlide) == Step(s, hands).state.next;
    assert Cooldown(Step(s, hands).state, PreviousSlide) == Step(s, hands).state.prev;
  }

  lemma InitialValid()
    ensures ValidState(Initial)
  {
  }

  /** The controller object. Its fields are updated in place, frame by frame. */
  class SlideController {
    var nextCooldown: int
    var prevCooldown: int
    var notificationCounter: int
    var currentNotification: string

    /** The abstract state held by the fields. */
    function Snapshot(): State
      reads this
    {
      State(nextCooldown, prevCooldown, notificationCounter, currentNotification)
    }

    ghost predicate Valid()
      reads this
    {
      ValidState(Snapshot())
    }

    constructor ()
      ensures Snapshot() == Initial && Valid()
    {
      prevCooldown := 0;
      nextCooldown := 0;
      currentNotification := "";
      notificationCounter := 0;
    }

    /** One detected hand: the right swipe is tried first, the left swipe
        only when the right one did not fire. Returns the command fired, if
        any. */
    method HandleHand(h: Hand) returns (fired: Option<Command>)
      modifies this
      ensures HandOutcome(Snapshot(), fired) == HandStep(old(Snapshot()), h)
    {
      if IsSwipeRight(h) && nextCooldown <= 0 {
        fired := Some(NextSlide);
        currentNotification := NextLabel;
        notificationCounter := NotificationDuration;
        nextCooldown := CooldownDuration;
      } else if IsSwipeLeft(h) && prevCooldown <= 0 {
        fired := Some(PreviousSlide);
        currentNotification := PreviousLabel;
        notificationCounter := NotificationDuration;
        prevCooldown := CooldownDuration;
      } else {
        fired := None;
      }
    }

    /** One frame: each detected hand in order, then the cooldown and
        notification countdown. Returns the commands emitted and what the
        notification overlay shows. */
    method Tick(hands: seq<Hand>) returns (cmds: seq<Command>, visible: bool, text: string)
      modifies this
      ensures TickResult(Snapshot(), cmds, visible, text) == Step(old(Snapshot()), hands)
      ensures old(Valid()) ==> Valid()
    {
      cmds := [];
      var i := 0;
      while i < |hands|
        invariant 0 <= i <= |hands|
        invariant HandsOutcome(Snapshot(), cmds) == ProcessHands(old(Snapshot()), hands[..i])
      {
        ProcessHandsPrefix(old(Snapshot()), hands, i);
        var fired := HandleHand(hands[i]);
        cmds := cmds + FiredSeq(fired);
        i := i + 1;
      }
      assert hands[..|hands|] == hands;

      nextCooldown := Max(0, nextCooldown - 1);
      prevCooldown := Max(0, prevCooldown - 1);

      visible := notificationCounter > 0;
      text := currentNotification;
      if notificationCounter > 0 {
        notificationCounter := notificationCounter - 1;
      }
      if old(Valid()) {
        TickPreservesValid(old(Snapshot()), hands);
      }
    }
  }
}
