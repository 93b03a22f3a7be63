# follow_square: a verified model of the perimeter-walk node

`scripts/follow_square.py` is a small interactive sketch. A `Node` owns a
rectangle and a circle. On every frame of the draw loop, while motion is on,
the circle takes one step of a four-state walk around the rectangle's
perimeter:

- state 0 goes up the right edge;
- state 1 goes left along the top edge;
- state 2 goes down the left edge;
- state 3 goes right along the bottom edge.

Mouse and keyboard callbacks move or resize the rectangle, change the speed,
and start, stop or reset the walk. This project models that state and those
callbacks.

- `vectors.dfy` (module `Vectors`): 2-D vectors of exact reals.
- `node_state.dfy` (module `NodeModel`): the node's state as a value
  (`NodeState`). There is one pure transition function per operation: `Step`,
  `Reset`, `Start`, `Stop`, `Frame`, `OnWheel`, `OnMouseMove`,
  `OnMousePress`, `OnKey` and `Initial`. Their `ensures` clauses state what
  one call does. `Inv` is the reachable-state invariant: the walk state is in
  0..3, the speed is at least 1, and the circle lies on the rectangle's
  perimeter whenever the size is non-negative. `Initial` establishes it.
  `Start`, `Stop`, `Frame`, `OnWheel`, `OnMouseMove`, `OnMousePress` and
  `OnKey` keep it (their contracts say `Inv(s) ==> Inv(t)`). `Reset`
  establishes it from any state whose speed is at least 1. For `Step` the
  lemma `StepKeepsInv` says it.
- `walk_lemmas.dfy` (module `WalkLemmas`): properties that span many calls.
  These cover how many ticks an edge takes (`EdgeProgress`, `EdgeArrival`),
  invariants kept over any number of ticks, reset after a walk, the frame
  gate over `n` frames, and the run from the constructor's defaults.
- `follow_square.dfy` (module `FollowSquare`): class `Node`. Its fields are
  updated in place by methods that mirror the Python methods one for one.
  Each method is proved to leave exactly `F(old state, arguments)` for its
  transition function `F`. `RunFrames` drives `Draw` in a loop.

The walk is specified by distances. `EdgeDistance` is how far the circle is
from the end of its edge. `Velocity` is speed × pixels-per-mm, the travel of
one frame. A tick slides the circle one frame's travel along its edge
(`Slide`). When that would reach or pass the end of the edge, the tick
instead stops the circle exactly at the end (`EdgeEnd`) and moves to the next
state in the cycle.

The node does not keep the rectangle's width and height at least 1. A
Shift+right-drag sets the size to the mouse point minus the rectangle's
position, with no clamp (`scripts/follow_square.py:87`), so zero and negative
sizes are reachable. The model follows the code: `OnMouseMove` states the
unclamped size, and `Inv` places the circle on the perimeter only when the
size is non-negative.

## Model

| member | source | states |
|---|---|---|
| `NodeModel.Initial` | scripts/follow_square.py:11-31 | the defaults: rectangle at (100,100) of size (600,600), circle at the far corner (700,700), speed 5, state 0, not moving, overlay on, no button; this state satisfies the invariant |
| `FollowSquare.Node.constructor` | scripts/follow_square.py:11-31 | the fields equal `Initial()`, the invariant holds, `show_circle` is true, `circle_size` is 50 and `switch` is false |
| `NodeModel.Step` | scripts/follow_square.py:118-138 | one tick changes only the circle's position and state. States 0/2 change only y and states 1/3 only x. If the edge's end is at most one frame's travel away, the state advances once in the cycle 0→1→2→3→0 and the circle lands exactly on the edge's end. Otherwise it slides one frame's travel, and the distance left shrinks by that much and stays positive. A state outside 0..3 changes nothing |
| `FollowSquare.Node.UpdateState` | scripts/follow_square.py:118-138 | keeps the invariant and the in-place update leaves exactly `Step` of the old state |
| `NodeModel.StepStaysOnTrack` | scripts/follow_square.py:118-138 | with non-negative speed and size, a circle on the perimeter edge of its state is still on the edge of its (possibly new) state after one tick |
| `NodeModel.StepKeepsInv` | scripts/follow_square.py:118-138 | one tick keeps the reachable-state invariant |
| `WalkLemmas.StepsMoveOnlyCircle` | scripts/follow_square.py:118-138 | any number of ticks leave the rectangle, speed, flags and button unchanged |
| `WalkLemmas.EdgeProgress` | scripts/follow_square.py:118-138 | while the edge's end is more than `k` frames of travel away, `k` ticks keep the state and slide the circle exactly `k` frames' travel along its edge |
| `WalkLemmas.EdgeArrival` | scripts/follow_square.py:118-138 | if the edge's end is more than `k-1` but at most `k` frames of travel away, then after exactly `k` ticks the circle is at the edge's end and the walk is in the next state |
| `WalkLemmas.StepsStayOnTrack` | scripts/follow_square.py:118-138 | with non-negative speed and size, any number of ticks keep the circle on the perimeter and inside the rectangle |
| `WalkLemmas.StaysInBoxAfterReset` | scripts/follow_square.py:119-146 | after `reset_circle`, with non-negative size and positive speed, any number of ticks keep the circle within the rectangle on both axes |
| `WalkLemmas.StepsKeepInv` | scripts/follow_square.py:118-138 | any number of ticks keep the invariant; in particular the state stays in 0..3 |
| `WalkLemmas.DefaultClimb` | scripts/follow_square.py:119-123 | from the defaults, after `k` ≤ 119 ticks the circle is at (700, 700 − 5k) in state 0; one tick gives y = 695 |
| `WalkLemmas.DefaultArrival` | scripts/follow_square.py:119-123 | from the defaults, after 120 ticks the circle is at (700, 100) exactly and the state is 1 |
| `NodeModel.Reset` | scripts/follow_square.py:143-146 | state 0, circle at rectangle position + size, motion off. Rectangle, speed, overlay and button are unchanged. The circle is on the perimeter when the size is non-negative, and the invariant holds when the speed is at least 1 |
| `FollowSquare.Node.ResetCircle` | scripts/follow_square.py:143-146 | the in-place update leaves exactly `Reset` of the old state, and the invariant holds afterwards whenever the speed is at least 1 |
| `WalkLemmas.ResetIdempotent` | scripts/follow_square.py:143-146 | resetting twice gives the same state as resetting once |
| `WalkLemmas.ResetAfterWalk` | scripts/follow_square.py:118-146 | resetting after any number of ticks gives the same state as resetting before them |
| `NodeModel.Start` | scripts/follow_square.py:148-149 | motion on, nothing else changes |
| `FollowSquare.Node.StartCircle` | scripts/follow_square.py:148-149 | keeps the invariant and leaves exactly `Start` of the old state |
| `NodeModel.Stop` | scripts/follow_square.py:140-141 | motion off, nothing else changes |
| `FollowSquare.Node.StopCircle` | scripts/follow_square.py:140-141 | keeps the invariant and leaves exactly `Stop` of the old state |
| `NodeModel.Frame` | scripts/follow_square.py:39-40 | a frame ticks the walk once when motion is on and changes nothing when it is off; the motion flag is kept |
| `FollowSquare.Node.Draw` | scripts/follow_square.py:36-40 | keeps the invariant and leaves exactly `Frame` of the old state |
| `WalkLemmas.FramesGate` | scripts/follow_square.py:39-40 | `n` frames equal `n` ticks when motion is on and no change when it is off |
| `FollowSquare.Node.RunFrames` | scripts/follow_square.py:39-40 | running the draw loop for `n` frames keeps the invariant and gives `n` ticks when motion was on, and the old state otherwise |
| `NodeModel.AtLeastOne` | scripts/follow_square.py:96 | `max(1, v)`: the result is at least 1 and at least `v`, and equals one of the two |
| `NodeModel.OnWheel` | scripts/follow_square.py:90-104 | no change while the overlay is hidden. SHIFT sets width to max(1, width + count) and CONTROL sets height to max(1, height + count); each keeps the other dimension, position and speed, and resets the walk. Any other key sets speed to max(1, speed + 0.2·count) and changes nothing else. The clamped quantity is at least 1; the invariant is kept |
| `FollowSquare.Node.MouseWheel` | scripts/follow_square.py:90-104 | keeps the invariant and leaves exactly `OnWheel` of the old state |
| `NodeModel.OnMouseMove` | scripts/follow_square.py:77-88 | no change while the overlay is hidden, or unless pressed with Shift held. Otherwise LEFT moves the rectangle to the mouse point with the same size; RIGHT keeps its position and puts its far corner at the mouse point (size = mouse − position, unclamped); any other button keeps the rectangle. In every case the walk is reset, and the invariant is kept |
| `FollowSquare.Node.MouseMoved` | scripts/follow_square.py:77-88 | keeps the invariant and leaves exactly `OnMouseMove` of the old state |
| `NodeModel.OnMousePress` | scripts/follow_square.py:74-75 | the pressed button (never `Unset`) is recorded, nothing else changes |
| `FollowSquare.Node.MousePressed` | scripts/follow_square.py:74-75 | keeps the invariant and leaves exactly `OnMousePress` of the old state |
| `NodeModel.OnKey` | scripts/follow_square.py:106-116 | "Q" toggles only the overlay. Space resets a moving walk, and starts a stopped one without moving the circle or changing its state. "C" toggles only the motion flag and leaves the circle's position and state alone. Any other key changes nothing. The invariant is kept |
| `FollowSquare.Node.KeyPressed` | scripts/follow_square.py:106-116 | keeps the invariant and leaves exactly `OnKey` of the old state |

## Left out

- Rendering and window setup: `setup`, and the drawing calls in `draw` (background, rectangle, ellipse, help text, the formatted speed string). They are graphics-library calls with no effect on the node's state.
- The ROS node and the `/switch` subscription. They are external middleware with asynchronous delivery. `switch_callback` is registered as a bound method (`scripts/follow_square.py:21`) but declared with a single parameter (`scripts/follow_square.py:151`), so each message delivery would fail with a TypeError before its body runs; the node is never changed by it. `switch` is kept as a constant field that nothing reads.
- The module-level forwarding callbacks and the `__main__` block. They only delegate to the single global node. `mouse_dragged` forwards to `mouse_moved`, which `Node.MouseMoved` models.
- The p5 globals `key`, `mouse_x` and `mouse_y`, and the event fields `pressed`, `modifiers`, `button` and `count`, are method parameters. Modifiers are a set of names. The wheel amount is a real. The Python `None` of `mouse_button` is `MouseButton.Unset`.
- Floating point: positions, sizes and the speed are exact reals, so IEEE rounding is not modelled. `pixels_per_mm` is the constant 1.0.
- `circle_size` only sets the drawn circle's diameter (`scripts/follow_square.py:54`). `show_circle` is set at line 24 and never read, because the circle is drawn unconditionally at lines 50-55. Both are constant fields set by the constructor.
