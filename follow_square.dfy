/** The follow-square node: a rectangle, a circle that walks its perimeter,
    and the callbacks through which the draw loop and the user's mouse and
    keyboard change them.  Each method updates the node's fields in place and
    is proved to leave exactly the state that the matching function of
    NodeModel gives; drawing, window setup and the message subscription are
    not modelled. */
module FollowSquare {
  import opened Vectors
  import opened NodeModel
  import WalkLemmas

  class Node {
    var rectPos: Vec
    var rectSize: Vec
    var circlePos: Vec
    var circleSpeed: real
    var circleState: int
    var moveCircle: bool
    var showDebug: bool
    var mouseButton: MouseButton

    /** Set once by the constructor and never reassigned.  `circleSize` is
        only the drawn circle's diameter; `showCircle` is never read, as the
        circle is drawn unconditionally. */
    const showCircle: bool
    const circleSize: int
    /** The last switch message was meant to land here; nothing ever
        assigns or reads it after construction. */
    const switch: bool

    /** The node's fields as a value. */
    function State(): NodeState
      reads this
    {
      NodeState(rectPos, rectSize, circlePos, circleSpeed, circleState, moveCircle, showDebug, mouseButton)
    }

    ghost predicate Valid()
      reads this
    {
      Inv(State())
    }

    /** `Node.__init__`: rectangle at (100,100) of size (600,600), circle at
        its far corner, speed 5, walk in state 0, not moving, overlay shown. */
    constructor ()
      ensures State() == Initial() && Valid()
      ensures showCircle && circleSize == 50 && !switch
    {
      var pos := Vec(100.0, 100.0).Scale(PixelsPerMm);
      var size := Vec(600.0, 600.0).Scale(PixelsPerMm);
      rectPos := pos;
      rectSize := size;
      circlePos := pos.Plus(size);
      circleSpeed := 5.0;
      switch := false;
      showCircle := true;
      circleSize := 50;
      moveCircle := false;
      showDebug := true;
      circleState := 0;
      mouseButton := Unset;
    }

    /** `update_state`: one tick of the perimeter walk. */
    method UpdateState()
      requires Valid()
      modifies this
      ensures Valid()
      ensures State() == Step(old(State()))
    {
      StepKeepsInv(State());
      if circleState == 0 {
        circlePos := Vec(circlePos.x, circlePos.y - circleSpeed * PixelsPerMm);
        if circlePos.y <= rectPos.y {
          circlePos := Vec(circlePos.x, rectPos.y);
          circleState := 1;
        }
      } else if circleState == 1 {
        circlePos := Vec(circlePos.x - circleSpeed * PixelsPerMm, circlePos.y);
        if circlePos.x <= rectPos.x {
          circlePos := Vec(rectPos.x, circlePos.y);
          circleState := 2;
        }
      } else if circleState == 2 {
        circlePos := Vec(circlePos.x, circlePos.y + circleSpeed * PixelsPerMm);
        if circlePos.y >= rectPos.y + rectSize.y {
          circlePos := Vec(circlePos.x, rectPos.y + rectSize.y);
          circleState := 3;
        }
      } else if circleState == 3 {
        circlePos := Vec(circlePos.x + circleSpeed * PixelsPerMm, circlePos.y);
        if circlePos.x >= rectPos.x + rectSize.x {
          circlePos := Vec(rectPos.x + rectSize.x, circlePos.y);
          circleState := 0;
        }
      }
    }

    /** `stop_circle`. */
    method StopCircle()
      requires Valid()
      modifies this
      ensures Valid()
      ensures State() == Stop(old(State()))
    {
      moveCircle := false;
    }

    /** `reset_circle`.  The wheel and mouse callbacks call it right after
        changing the rectangle, when the circle is not yet on the new
        perimeter, so it asks for no invariant; it restores it whenever the
        speed is at least 1. */
    method ResetCircle()
      modifies this
      ensures State() == Reset(old(State()))
      ensures old(circleSpeed) >= 1.0 ==> Valid()
    {
      circleState := 0;
      circlePos := rectPos.Plus(rectSize);
      moveCircle := false;
    }

    /** `start_circle`. */
    method StartCircle()
      requires Valid()
      modifies this
      ensures Valid()
      ensures State() == Start(old(State()))
    {
      moveCircle := true;
    }

    /** The state part of `draw`: tick the walk when motion is on. */
    method Draw()
      requires Valid()
      modifies this
      ensures Valid()
      ensures State() == Frame(old(State()))
    {
      if moveCircle {
        UpdateState();
      }
    }

    /** `mouse_pressed`: remember the button. */
    method MousePressed(button: PressedButton)
      requires Valid()
      modifies this
      ensures Valid()
      ensures State() == OnMousePress(old(State()), button)
    {
      mouseButton := button;
    }

    /** `mouse_moved` and `mouse_dragged`, with the event's pressed flag and
        modifier names and the mouse position. */
    method MouseMoved(pressed: bool, modifiers: set<string>, mouseX: real, mouseY: real)
      requires Valid()
      modifies this
      ensures Valid()
      ensures State() == OnMouseMove(old(State()), pressed, modifiers, mouseX, mouseY)
    {
      if !showDebug {
        return;
      }
      if pressed && "Shift" in modifiers {
        if mouseButton == Left {
          rectPos := Vec(mouseX, mouseY);
        } else if mouseButton == Right {
          rectSize := Vec(mouseX, mouseY).Minus(rectPos);
        }
        ResetCircle();
      }
    }

    /** `mouse_wheel`, with the last key and the wheel amount. */
    method MouseWheel(key: string, count: real)
      requires Valid()
      modifies this
      ensures Valid()
      ensures State() == OnWheel(old(State()), key, count)
    {
      if !showDebug {
        return;
      }
      if key == "SHIFT" {
        rectSize := Vec(rectSize.x + count, rectSize.y);
        rectSize := Vec(AtLeastOne(rectSize.x), rectSize.y);
        ResetCircle();
      } else if key == "CONTROL" {
        rectSize := Vec(rectSize.x, rectSize.y + count);
        rectSize := Vec(rectSize.x, AtLeastOne(rectSize.y));
        ResetCircle();
      } else {
        circleSpeed := circleSpeed + count * 0.2;
        circleSpeed := AtLeastOne(circleSpeed);
      }
    }

    /** `key_pressed`, with the key. */
    method KeyPressed(key: string)
      requires Valid()
      modifies this
      ensures Valid()
      ensures State() == OnKey(old(State()), key)
    {
      if key == "Q" {
        showDebug := !showDebug;
      }
      if key == " " {
        if moveCircle {
          ResetCircle();
        } else {
          StartCircle();
        }
      }
      if key == "C" {
        moveCircle := !moveCircle;
      }
    }

    /** The draw loop run for `n` frames: the walk ticks `n` times when motion
        is on, and nothing changes when it is off. */
    method RunFrames(n: nat)
      requires Valid()
      modifies this
      ensures Valid()
      ensures State() == Frames(old(State()), n)
      ensures State() == if old(moveCircle) then Steps(old(State()), n) else old(State())
    {
      for i := 0 to n
        invariant Valid()
        invariant State() == Frames(old(State()), i)
      {
        Draw();
      }
      WalkLemmas.FramesGate(old(State()), n);
    }
  }
}
