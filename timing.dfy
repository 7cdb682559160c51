/** Properties of a run of consecutive frame ticks: commands of one
    direction are spaced by at least the cooldown, a held gesture repeats
    exactly when the cooldown has run out, and a notification stays on
    screen for exactly its duration unless replaced. */
module Timing {
  import opened Gestures
  import opened SlideControl

  /** The state after the first `k` ticks of `ticks`, starting from `s`. */
  function After(s: State, ticks: seq<seq<Hand>>, k: nat): State
    requires k <= |ticks|
    decreases k
  {
    if k == 0 then s else After(Step(s, ticks[0]).state, ticks[1..], k - 1)
  }

  /** The result of tick number `k` (counting from 0) of the run. */
  function At(s: State, ticks: seq<seq<Hand>>, k: nat): TickResult
    requires k < |ticks|
  {
    Step(After(s, ticks, k), ticks[k])
  }

  /** Tick `k` of a run is tick `k - 1` of the run that starts one tick later. */
  lemma AtShift(s: State, ticks: seq<seq<Hand>>, k: nat)
    requires 1 <= k < |ticks|
    ensures At(s, ticks, k) == At(Step(s, ticks[0]).state, ticks[1..], k - 1)
  {
  }

  /** The state after `k + 1` ticks is the state left by tick `k`. */
  lemma {:induction false} AfterLast(s: State, ticks: seq<seq<Hand>>, k: nat)
    requires k < |ticks|
    ensures After(s, ticks, k + 1) == At(s, ticks, k).state
    decreases k
  {
    if k > 0 {
      AfterLast(Step(s, ticks[0]).state, ticks[1..], k - 1);
    }
  }

  /** Whatever the frames show, a direction whose cooldown is at least `k`
      does not fire in the next `k` ticks, and its cooldown is then down
      by exactly `k`. */
  lemma {:induction false} CooldownCountdown(s: State, ticks: seq<seq<Hand>>, c: Command, k: nat)
    requires k <= |ticks| && k <= Cooldown(s, c)
    ensures Cooldown(After(s, ticks, k), c) == Cooldown(s, c) - k
    ensures forall i :: 0 <= i < k ==> c !in At(s, ticks, i).cmds
    decreases k
  {
    if k > 0 {
      var s1 := Step(s, ticks[0]).state;
      TickCommands(s, ticks[0]);
      TickCooldowns(s, ticks[0]);
      CooldownCountdown(s1, ticks[1..], c, k - 1);
      forall i | 1 <= i < k
        ensures c !in At(s, ticks, i).cmds
      {
        AtShift(s, ticks, i);
      }
    }
  }

  /** No repeat within the cooldown: two ticks that both emit the same
      command are at least the cooldown duration apart. */
  lemma {:induction false} CommandSpacing(s: State, ticks: seq<seq<Hand>>, c: Command, i: nat, j: nat)
    requires i < j < |ticks|
    requires c in At(s, ticks, i).cmds && c in At(s, ticks, j).cmds
    ensures j - i >= CooldownDuration
    decreases i
  {
    var s1 := Step(s, ticks[0]).state;
    AtShift(s, ticks, j);
    if i == 0 {
      TickCooldowns(s, ticks[0]);
      if j - 1 < CooldownDuration - 1 {
        CooldownCountdown(s1, ticks[1..], c, j);
        assert false;
      }
    } else {
      AtShift(s, ticks, i);
      CommandSpacing(s1, ticks[1..], c, i - 1, j - 1);
    }
  }

  /** A gesture held in every frame fires at once when its cooldown is
      clear, stays silent for the next cooldown-duration minus one ticks,
      and fires again on the tick exactly one cooldown duration later. */
  lemma HeldGestureRepeats(s: State, ticks: seq<seq<Hand>>, h: Hand, c: Command)
    requires Cooldown(s, c) <= 0 && Swipes(h, c)
    requires CooldownDuration < |ticks|
    requires forall k :: 0 <= k < |ticks| ==> h in ticks[k]
    ensures c in At(s, ticks, 0).cmds
    ensures forall k :: 0 < k < CooldownDuration ==> c !in At(s, ticks, k).cmds
    ensures c in At(s, ticks, CooldownDuration).cmds
  {
    var s1 := Step(s, ticks[0]).state;
    TickCommands(s, ticks[0]);
    TickCooldowns(s, ticks[0]);
    CooldownCountdown(s1, ticks[1..], c, CooldownDuration - 1);
    forall k | 0 < k < CooldownDuration
      ensures c !in At(s, ticks, k).cmds
    {
      AtShift(s, ticks, k);
    }
    var s30 := After(s, ticks, CooldownDuration);
    assert s30 == After(s1, ticks[1..], CooldownDuration - 1);
    TickCommands(s30, ticks[CooldownDuration]);
  }

  /** After a tick that emits commands, and with no command on the
      following `n` ticks, the notification counter runs down from one less
      than the full duration by one per tick to 0, and the text stays the
      one shown on the firing tick. */
  lemma {:induction false} NotificationRunsDown(s: State, ticks: seq<seq<Hand>>, n: nat)
    requires n < |ticks|
    requires At(s, ticks, 0).cmds != []
    requires forall i :: 0 < i <= n ==> At(s, ticks, i).cmds == []
    ensures After(s, ticks, n + 1).counter == Max(0, NotificationDuration - 1 - n)
    ensures After(s, ticks, n + 1).text == At(s, ticks, 0).text
    decreases n
  {
    AfterLast(s, ticks, n);
    TickNotification(After(s, ticks, n), ticks[n]);
    if n > 0 {
      NotificationRunsDown(s, ticks, n - 1);
    }
  }

  /** Notification lifetime: after a tick that emits commands, and with no
      command on the following `n` ticks, the notification is visible on
      exactly the first notification-duration ticks counted from the firing
      tick, and shows throughout the label of the last command emitted on
      the firing tick. */
  lemma NotificationLifetime(s: State, ticks: seq<seq<Hand>>, n: nat)
    requires n < |ticks|
    requires At(s, ticks, 0).cmds != []
    requires forall i :: 0 < i <= n ==> At(s, ticks, i).cmds == []
    ensures var cmds := At(s, ticks, 0).cmds;
      At(s, ticks, 0).text == cmds[|cmds| - 1].Label()
    ensures forall i :: 0 <= i <= n ==>
      && (At(s, ticks, i).visible <==> i < NotificationDuration)
      && At(s, ticks, i).text == At(s, ticks, 0).text
  {
    TickNotification(s, ticks[0]);
    forall i | 0 <= i <= n
      ensures At(s, ticks, i).visible <==> i < NotificationDuration
      ensures At(s, ticks, i).text == At(s, ticks, 0).text
    {
      TickNotification(After(s, ticks, i), ticks[i]);
      if i > 0 {
        NotificationRunsDown(s, ticks, i - 1);
      }
    }
  }

  /** Two frames of the same right-swiping hand from session start: the
      first emits the next-slide command and starts the notification, the
      second is suppressed by the cooldown while the notification stays up. */
  lemma SwipeRightTwoFrames()
    ensures var h := Hand(Landmark(0.0, 0.0), Landmark(0.3, 0.5), Landmark(0.45, 0.5));
      var first := Step(Initial, [h]);
      var second := Step(first.state, [h]);
      && first.cmds == [NextSlide] && first.visible && first.text == "NEXT SLIDE >"
      && first.state == State(29, 0, 29, "NEXT SLIDE >")
      && second.cmds == [] && second.visible
      && second.state == State(28, 0, 28, "NEXT SLIDE >")
  {
    var h := Hand(Landmark(0.0, 0.0), Landmark(0.3, 0.5), Landmark(0.45, 0.5));
    assert IsSwipeRight(h);
    assert [h][..0] == [];
  }
}
