/** The animation state of the follow-square node as a value, and one pure
    transition function per operation of the node.  The class in
    follow_square.dfy changes its fields in place and is proved to do exactly
    what these functions say; the lemmas in walk_lemmas.dfy relate several
    transitions. */
module NodeModel {
  import opened Vectors

  /** Screen pixels per millimetre; the node fixes it at 1.0. */
  const PixelsPerMm: real := 1.0

  /** The mouse button last pressed; `Unset` until the first press. */
  datatype MouseButton = Unset | Left | Right | Center

  /** A button a press event can report: never `Unset`. */
  type PressedButton = b: MouseButton | b != Unset witness Left

  /** Everything the node's callbacks read or write.  `circleState` is the
      edge being walked: 0 = right edge going up, 1 = top edge going left,
      2 = left edge going down, 3 = bottom edge going right. */
  datatype NodeState = NodeState(
    rectPos: Vec,
    rectSize: Vec,
    circlePos: Vec,
    circleSpeed: real,
    circleState: int,
    moveCircle: bool,
    showDebug: bool,
    mouseButton: MouseButton)

  // ----- geometry of the rectangle -----

  function TopEdge(s: NodeState): real { s.rectPos.y }
  function BottomEdge(s: NodeState): real { s.rectPos.y + s.rectSize.y }
  function LeftEdge(s: NodeState): real { s.rectPos.x }
  function RightEdge(s: NodeState): real { s.rectPos.x + s.rectSize.x }

  /** The corner opposite `rectPos`, where every walk starts. */
  function Corner(s: NodeState): Vec { s.rectPos.Plus(s.rectSize) }

  predicate NonNegSize(v: Vec) { v.x >= 0.0 && v.y >= 0.0 }

  predicate InBox(s: NodeState) {
    LeftEdge(s) <= s.circlePos.x <= RightEdge(s) && TopEdge(s) <= s.circlePos.y <= BottomEdge(s)
  }

  /** The circle lies on the edge that its state says it is walking. */
  predicate OnTrack(s: NodeState) {
    var p := s.circlePos;
    if s.circleState == 0 then p.x == RightEdge(s) && TopEdge(s) <= p.y <= BottomEdge(s)
    else if s.circleState == 1 then p.y == TopEdge(s) && LeftEdge(s) <= p.x <= RightEdge(s)
    else if s.circleState == 2 then p.x == LeftEdge(s) && TopEdge(s) <= p.y <= BottomEdge(s)
    else if s.circleState == 3 then p.y == BottomEdge(s) && LeftEdge(s) <= p.x <= RightEdge(s)
    else false
  }

  /** What holds in every state the node can reach: the walk is in one of its
      four states, the speed is at least 1, and whenever the rectangle has a
      non-negative size the circle is on its perimeter. */
  ghost predicate Inv(s: NodeState) {
    0 <= s.circleState <= 3 && s.circleSpeed >= 1.0 &&
    (NonNegSize(s.rectSize) ==> OnTrack(s))
  }

  /** The walk is at its starting point: right edge, at the far corner, not moving. */
  predicate AtStart(s: NodeState) {
    s.circleState == 0 && s.circlePos == Corner(s) && !s.moveCircle
  }

  // ----- the perimeter walk -----

  /** Pixels travelled in one frame. */
  function Velocity(s: NodeState): real { s.circleSpeed * PixelsPerMm }

  /** The state that follows `k` in the cycle 0 -> 1 -> 2 -> 3 -> 0. */
  function Next(k: int): int { if k == 3 then 0 else k + 1 }

  /** How far the circle still is from the end of the edge it walks. */
  function EdgeDistance(s: NodeState): real {
    var p := s.circlePos;
    if s.circleState == 0 then p.y - TopEdge(s)
    else if s.circleState == 1 then p.x - LeftEdge(s)
    else if s.circleState == 2 then BottomEdge(s) - p.y
    else if s.circleState == 3 then RightEdge(s) - p.x
    else 0.0
  }

  /** The circle's position moved `d` pixels in the direction of its edge. */
  function Slide(s: NodeState, d: real): Vec {
    var p := s.circlePos;
    if s.circleState == 0 then Vec(p.x, p.y - d)
    else if s.circleState == 1 then Vec(p.x - d, p.y)
    else if s.circleState == 2 then Vec(p.x, p.y + d)
    else if s.circleState == 3 then Vec(p.x + d, p.y)
    else p
  }

  /** Where the circle stops when it reaches the end of its edge: the moving
      coordinate is set to the edge line, the other one is kept. */
  function EdgeEnd(s: NodeState): Vec {
    var p := s.circlePos;
    if s.circleState == 0 then Vec(p.x, TopEdge(s))
    else if s.circleState == 1 then Vec(LeftEdge(s), p.y)
    else if s.circleState == 2 then Vec(p.x, BottomEdge(s))
    else if s.circleState == 3 then Vec(RightEdge(s), p.y)
    else p
  }

  /** One tick of the walk (`update_state`).  Only the circle's position and
      state change; the circle moves along one axis; it either slides by one
      frame's travel, or, when that would reach or pass the end of the edge,
      stops exactly at the end and the state advances by one in the cycle. */
  function Step(s: NodeState): (t: NodeState)
    ensures t == s.(circlePos := t.circlePos, circleState := t.circleState)
    ensures s.circleState == 0 || s.circleState == 2 ==> t.circlePos.x == s.circlePos.x
    ensures s.circleState == 1 || s.circleState == 3 ==> t.circlePos.y == s.circlePos.y
    ensures !(0 <= s.circleState <= 3) ==> t == s
    ensures 0 <= s.circleState <= 3 && EdgeDistance(s) <= Velocity(s) ==>
              t.circleState == Next(s.circleState) && t.circlePos == EdgeEnd(s)
    ensures 0 <= s.circleState <= 3 && EdgeDistance(s) > Velocity(s) ==>
              t.circleState == s.circleState && t.circlePos == Slide(s, Velocity(s)) &&
              EdgeDistance(t) == EdgeDistance(s) - Velocity(s) > 0.0
  {
    var v := Velocity(s);
    var p := s.circlePos;
    if s.circleState == 0 then
      if p.y - v <= s.rectPos.y then s.(circlePos := Vec(p.x, s.rectPos.y), circleState := 1)
      else s.(circlePos := Vec(p.x, p.y - v))
    else if s.circleState == 1 then
      if p.x - v <= s.rectPos.x then s.(circlePos := Vec(s.rectPos.x, p.y), circleState := 2)
      else s.(circlePos := Vec(p.x - v, p.y))
    else if s.circleState == 2 then
      if p.y + v >= s.rectPos.y + s.rectSize.y then
        s.(circlePos := Vec(p.x, s.rectPos.y + s.rectSize.y), circleState := 3)
      else s.(circlePos := Vec(p.x, p.y + v))
    else if s.circleState == 3 then
      if p.x + v >= s.rectPos.x + s.rectSize.x then
        s.(circlePos := Vec(s.rectPos.x + s.rectSize.x, p.y), circleState := 0)
      else s.(circlePos := Vec(p.x + v, p.y))
    else s
  }

  /** A walk on the perimeter of a rectangle of non-negative size stays on
      it: a slide ends before the edge's end, a transition lands on the next edge. */
  lemma StepStaysOnTrack(s: NodeState)
    requires Velocity(s) >= 0.0 && NonNegSize(s.rectSize) && OnTrack(s)
    ensures OnTrack(Step(s))
  {
  }

  /** One tick keeps the reachable-state invariant. */
  lemma StepKeepsInv(s: NodeState)
    requires Inv(s)
    ensures Inv(Step(s))
  {
    if NonNegSize(s.rectSize) {
      StepStaysOnTrack(s);
    }
  }

  /** `n` ticks of the walk. */
  function Steps(s: NodeState, n: nat): NodeState {
    if n == 0 then s else Step(Steps(s, n - 1))
  }

  // ----- the walk controls -----

  /** `reset_circle`: back to the start of the walk at the far corner, motion
      off; the rectangle, the speed and the other flags stay. */
  function Reset(s: NodeState): (t: NodeState)
    ensures AtStart(t)
    ensures t.rectPos == s.rectPos && t.rectSize == s.rectSize && t.circleSpeed == s.circleSpeed
    ensures t.showDebug == s.showDebug && t.mouseButton == s.mouseButton
    ensures NonNegSize(s.rectSize) ==> OnTrack(t) && InBox(t)
    ensures s.circleSpeed >= 1.0 ==> Inv(t)
  {
    s.(circleState := 0, circlePos := s.rectPos.Plus(s.rectSize), moveCircle := false)
  }

  /** `start_circle`: motion on; nothing else changes. */
  function Start(s: NodeState): (t: NodeState)
    ensures t.moveCircle && t.(moveCircle := s.moveCircle) == s
    ensures Inv(s) ==> Inv(t)
  {
    s.(moveCircle := true)
  }

  /** `stop_circle`: motion off; nothing else changes. */
  function Stop(s: NodeState): (t: NodeState)
    ensures !t.moveCircle && t.(moveCircle := s.moveCircle) == s
    ensures Inv(s) ==> Inv(t)
  {
    s.(moveCircle := false)
  }

  /** The state part of `draw`: the walk ticks once exactly when motion is on. */
  function Frame(s: NodeState): (t: NodeState)
    ensures s.moveCircle ==> t == Step(s)
    ensures !s.moveCircle ==> t == s
    ensures t.moveCircle == s.moveCircle
    ensures Inv(s) ==> Inv(t)
  {
    if s.moveCircle then Step(s) else s
  }

  /** `n` calls of `draw`. */
  function Frames(s: NodeState, n: nat): NodeState {
    if n == 0 then s else Frame(Frames(s, n - 1))
  }

  // ----- input callbacks -----

  /** Python's `max(1, v)`. */
  function AtLeastOne(v: real): (r: real)
    ensures r >= 1.0 && r >= v
    ensures r == 1.0 || r == v
  {
    if v > 1.0 then v else 1.0
  }

  /** `mouse_wheel` with the last key `key` and the wheel amount `count`.
      Nothing happens while the debug overlay is hidden.  With SHIFT the width,
      with CONTROL the height, grows by `count`, is clamped at 1, and the walk
      is reset; with any other key the speed changes by `0.2 * count`, is
      clamped at 1, and nothing else changes. */
  function OnWheel(s: NodeState, key: string, count: real): (t: NodeState)
    ensures !s.showDebug ==> t == s
    ensures s.showDebug && key == "SHIFT" ==>
              t.rectSize == Vec(AtLeastOne(s.rectSize.x + count), s.rectSize.y) && t.rectSize.x >= 1.0 &&
              t.rectPos == s.rectPos && t.circleSpeed == s.circleSpeed && AtStart(t)
    ensures s.showDebug && key == "CONTROL" ==>
              t.rectSize == Vec(s.rectSize.x, AtLeastOne(s.rectSize.y + count)) && t.rectSize.y >= 1.0 &&
              t.rectPos == s.rectPos && t.circleSpeed == s.circleSpeed && AtStart(t)
    ensures s.showDebug && key != "SHIFT" && key != "CONTROL" ==>
              t == s.(circleSpeed := AtLeastOne(s.circleSpeed + count * 0.2)) && t.circleSpeed >= 1.0
    ensures t.showDebug == s.showDebug && t.mouseButton == s.mouseButton
    ensures Inv(s) ==> Inv(t)
  {
    if !s.showDebug then s
    else if key == "SHIFT" then
      Reset(s.(rectSize := Vec(AtLeastOne(s.rectSize.x + count), s.rectSize.y)))
    else if key == "CONTROL" then
      Reset(s.(rectSize := Vec(s.rectSize.x, AtLeastOne(s.rectSize.y + count))))
    else
      s.(circleSpeed := AtLeastOne(s.circleSpeed + count * 0.2))
  }

  /** `mouse_moved` (also bound to dragging) at the mouse point `(mouseX, mouseY)`.
      Nothing happens while the debug overlay is hidden or unless a button is
      pressed with Shift held.  Then the left button moves the rectangle to the
      mouse point, the right button puts its far corner there (no clamp: the
      size may become zero or negative), any other button leaves it, and in
      every case the walk is reset. */
  function OnMouseMove(s: NodeState, pressed: bool, modifiers: set<string>, mouseX: real, mouseY: real)
    : (t: NodeState)
    ensures !s.showDebug || !pressed || "Shift" !in modifiers ==> t == s
    ensures s.showDebug && pressed && "Shift" in modifiers ==>
              AtStart(t) && t.circleSpeed == s.circleSpeed &&
              t.showDebug == s.showDebug && t.mouseButton == s.mouseButton
    ensures s.showDebug && pressed && "Shift" in modifiers && s.mouseButton == Left ==>
              t.rectPos == Vec(mouseX, mouseY) && t.rectSize == s.rectSize
    ensures s.showDebug && pressed && "Shift" in modifiers && s.mouseButton == Right ==>
              t.rectPos == s.rectPos && Corner(t) == Vec(mouseX, mouseY) &&
              t.rectSize == Vec(mouseX - s.rectPos.x, mouseY - s.rectPos.y)
    ensures s.showDebug && pressed && "Shift" in modifiers && s.mouseButton != Left && s.mouseButton != Right ==>
              t.rectPos == s.rectPos && t.rectSize == s.rectSize
    ensures Inv(s) ==> Inv(t)
  {
    if !s.showDebug then s
    else if pressed && "Shift" in modifiers then
      var moved :=
        if s.mouseButton == Left then s.(rectPos := Vec(mouseX, mouseY))
        else if s.mouseButton == Right then s.(rectSize := Vec(mouseX, mouseY).Minus(s.rectPos))
        else s;
      Reset(moved)
    else s
  }

  /** `mouse_pressed`: remembers the button; nothing else changes. */
  function OnMousePress(s: NodeState, button: PressedButton): (t: NodeState)
    ensures t.mouseButton == button && t.(mouseButton := s.mouseButton) == s
    ensures Inv(s) ==> Inv(t)
  {
    s.(mouseButton := button)
  }

  /** `key_pressed` with key `key`: "Q" toggles the debug overlay; space resets
      a moving walk and starts a stopped one where it stands; "C" toggles
      motion without touching the walk; any other key does nothing. */
  function OnKey(s: NodeState, key: string): (t: NodeState)
    ensures key == "Q" ==> t == s.(showDebug := !s.showDebug)
    ensures key == " " && s.moveCircle ==> t == Reset(s)
    ensures key == " " && !s.moveCircle ==>
              t.moveCircle && t.circlePos == s.circlePos && t.circleState == s.circleState && t == Start(s)
    ensures key == "C" ==>
              t.moveCircle == !s.moveCircle && t.circlePos == s.circlePos && t.circleState == s.circleState &&
              t.(moveCircle := s.moveCircle) == s
    ensures key != "Q" && key != " " && key != "C" ==> t == s
    ensures Inv(s) ==> Inv(t)
  {
    var afterQ := if key == "Q" then s.(showDebug := !s.showDebug) else s;
    var afterSpace := if key == " " then (if afterQ.moveCircle then Reset(afterQ) else Start(afterQ)) else afterQ;
    if key == "C" then afterSpace.(moveCircle := !afterSpace.moveCircle) else afterSpace
  }

  /** The state `Node.__init__` builds. */
  function Initial(): (s: NodeState)
    ensures s.rectPos == Vec(100.0, 100.0) && s.rectSize == Vec(600.0, 600.0)
    ensures s.circlePos == Vec(700.0, 700.0) && s.circleSpeed == 5.0
    ensures AtStart(s) && s.showDebug && s.mouseButton == Unset
    ensures NonNegSize(s.rectSize) && Inv(s)
  {
    var rectPos := Vec(100.0, 100.0).Scale(PixelsPerMm);
    var rectSize := Vec(600.0, 600.0).Scale(PixelsPerMm);
    NodeState(rectPos, rectSize, rectPos.Plus(rectSize), 5.0, 0, false, true, Unset)
  }
}
