# Slide controller: gesture classification and frame-tick state machine

The slide controller turns webcam frames into presentation key presses. A
hand detector supplies the hands seen in each frame. Each hand is classified
as a right swipe (next slide), a left swipe (previous slide) or neither. A
swipe fires a navigation command only when that direction's cooldown has run
out. Firing restarts that direction's 30-frame cooldown and a 30-frame
on-screen notification.

This project models that decision logic in Dafny:

- `gestures.dfy` (module `Gestures`): landmarks as exact reals and the two
  swipe predicates, with their exact characterisation, mutual exclusion, and
  the fact that the wrist landmark is ignored.
- `slide_control.dfy` (module `SlideControl`): the controller state (two
  cooldowns, the notification counter and text), the per-hand decision, the
  per-frame `Step` specification, and the class `SlideController`. The
  class's fields are updated in place by `Tick`, which is proved to do
  exactly what `Step` specifies and to keep every counter in range.
- `timing.dfy` (module `Timing`): runs of consecutive ticks. It proves
  spacing between repeated commands, the repeat of a held gesture after
  exactly one cooldown, and the exact notification lifetime.

Commands are values (`NextSlide`, `PreviousSlide`) instead of key presses.
The notification's visibility and text are returned by each tick instead of
being drawn.

The cooldown test in the code is `cooldown <= 0`, not `== 0`; the model
follows the code. The two are equivalent on every reachable state, because
`ValidState` keeps the cooldowns non-negative and every tick preserves it.

## Model

| member | source | states |
|---|---|---|
| `Gestures.SwipeRightExactly` | main.py:30-45 | a right swipe holds exactly when the index tip is more than 0.1 to the right of the thumb tip and the vertical offset is strictly within 0.1 |
| `Gestures.SwipeLeftExactly` | main.py:47-62 | a left swipe holds exactly when the index tip is more than 0.1 to the left of the thumb tip and the vertical offset is strictly within 0.1 |
| `Gestures.SwipesExclusive` | main.py:38-62 | no hand is both a right and a left swipe |
| `Gestures.NoSwipeOutsideThresholds` | main.py:40-44 | neither swipe holds when the horizontal separation is at most 0.1 (including level tips) or the vertical offset is at least 0.1 |
| `Gestures.WristIgnored` | main.py:35 | changing the wrist landmark changes neither classification |
| `SlideControl.Fire` | main.py:104-106 | firing a command restarts its cooldown at 30, sets the notification counter to 30 and the text to the command's label, and leaves the other cooldown unchanged |
| `SlideControl.HandStep` | main.py:100-114 | per hand, at most one command fires; a command fires exactly when its gesture is seen and its cooldown is at most 0; otherwise the state is unchanged |
| `SlideControl.ProcessHands` | main.py:91-114 | processing the hands of a frame emits at most one command per hand |
| `SlideControl.ProcessHandsState` | main.py:91-114 | after the hands of a frame, each fired direction's cooldown is 30 and the other is untouched; with no command the state is unchanged, otherwise the counter is 30 and the text is the last command's label (last write wins) |
| `SlideControl.ProcessHandsCommands` | main.py:91-114 | over the hands of a frame, a direction fires iff its cooldown had run out before the frame and some hand shows its gesture; no direction fires twice, so a second hand cannot repeat a command the first hand just fired |
| `SlideControl.TickCommands` | main.py:91-114 | a tick emits a command iff its cooldown was at most 0 at the start of the tick and some hand shows the gesture; no duplicates; at most one command per hand |
| `SlideControl.TickCooldowns` | main.py:101-118 | after a tick, a direction that fired has cooldown 29 and any other has its old cooldown decremented with a floor of 0 |
| `SlideControl.TickNotification` | main.py:104-139 | the notification is visible iff a command fired this tick or its counter was positive; after a command the last label shows and the counter is 29; otherwise the text is kept and a positive counter drops by one |
| `SlideControl.EmptyTick` | main.py:91-139 | a frame with no hands emits nothing, decrements both cooldowns with a floor of 0 and decrements only a positive notification counter |
| `SlideControl.TickPreservesValid` | main.py:21-28 | ticks keep both cooldowns in [0, 30] and the notification counter in [0, 30]; after a tick all three are below 30 |
| `SlideControl.InitialValid` | main.py:21-28 | the initial state (all counters 0, empty text) satisfies the invariant |
| `SlideControl.SlideController.constructor` | main.py:20-28 | a new controller starts with both cooldowns and the counter at 0 and an empty notification |
| `SlideControl.SlideController.HandleHand` | main.py:100-114 | one hand on the object's fields, in place: the fired command and the new fields are exactly those of `HandStep` |
| `SlideControl.SlideController.Tick` | main.py:91-139 | one frame on the object's fields, in place, gives exactly the commands, display and new state of `Step`, and keeps the range invariant |
| `Timing.CooldownCountdown` | main.py:101-118 | a direction whose cooldown is at least k does not fire in the next k ticks, whatever the frames show, and its cooldown drops by exactly k |
| `Timing.CommandSpacing` | main.py:101-118 | two ticks that emit the same command are at least 30 ticks apart |
| `Timing.HeldGestureRepeats` | main.py:101-118 | a swipe present in every frame fires on the first tick, not on ticks 1 to 29, and again on tick 30 |
| `Timing.NotificationRunsDown` | main.py:104-139 | after a tick with a command, and with no later command, the counter after n + 1 ticks is max(0, 29 - n) and the text is still the one shown on the firing tick |
| `Timing.NotificationLifetime` | main.py:104-139 | after a tick with a command, and with no later command, the notification shows the last command's label, is visible on ticks 0 to 29 and is hidden from tick 30 on |
| `Timing.SwipeRightTwoFrames` | main.py:101-139 | worked example: a right swipe from the initial state fires with state (29, 0, 29); the same hand in the next frame is suppressed with state (28, 0, 28) and the notification still visible |

## Left out

- Webcam capture, frame flipping and colour conversion, the preview window, the quit key and cleanup (main.py:65-85, main.py:141-150). These are camera and window I/O.
- Hand detection and its configuration (main.py:9-18, main.py:85). The detector is external; its output is the `seq<Hand>` each tick receives. An absent detection result is the empty sequence.
- Landmark and overlay drawing, alpha blending and text placement (main.py:88, main.py:94-98, main.py:122-136). These are rendering; the tick returns `visible` and `text` instead.
- Key presses and console messages (main.py:102-103, main.py:110-111). These are side effects; the emitted `Command` values stand for them, and `Command.Key` gives the key name.
- Floating-point rounding of landmark coordinates. Coordinates are exact `real` values, so thresholds are compared exactly.
- The outer frame loop (main.py:72) runs until the camera fails or the quit key is pressed. The model describes finite runs of ticks (`Timing.After`, `Timing.At`) and leaves the stopping condition out.
