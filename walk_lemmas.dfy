/** Properties of the perimeter walk and of the node's operations that span
    more than one call: how many ticks an edge takes, the invariants that any
    number of ticks keeps, the frame gate, and the run from the defaults. */
module WalkLemmas {
  import opened Vectors
  import opened NodeModel

  /** Ticks never touch the rectangle, the speed, the flags or the button. */
  lemma {:induction false} StepsMoveOnlyCircle(s: NodeState, n: nat)
    ensures Steps(s, n) == s.(circlePos := Steps(s, n).circlePos, circleState := Steps(s, n).circleState)
  {
    if n > 0 {
      StepsMoveOnlyCircle(s, n - 1);
    }
  }

  /** How far `k` frames carry the circle at `v` pixels per frame. */
  function Travel(v: real, k: nat): real {
    if k == 0 then 0.0 else Travel(v, k - 1) + v
  }

  /** `k` frames of travel are `k * v` pixels. */
  lemma {:induction false} TravelIsProduct(v: real, k: nat)
    ensures Travel(v, k) == (k as real) * v
  {
    if k > 0 {
      TravelIsProduct(v, k - 1);
      assert ((k - 1) as real) * v + v == (k as real) * v;
    }
  }

  /** Sliding `d` and then `e` along an edge is sliding `d + e`; a slide
      shortens the remaining distance by its length and keeps the edge's end. */
  lemma SlideAlong(s: NodeState, d: real, e: real)
    requires 0 <= s.circleState <= 3
    ensures EdgeDistance(s.(circlePos := Slide(s, d))) == EdgeDistance(s) - d
    ensures EdgeEnd(s.(circlePos := Slide(s, d))) == EdgeEnd(s)
    ensures Slide(s.(circlePos := Slide(s, d)), e) == Slide(s, d + e)
  {
  }

  /** While the end of the edge is more than `k` frames of travel away, `k`
      ticks slide the circle `k` frames along the edge and keep the state. */
  lemma {:induction false} EdgeProgress(s: NodeState, k: nat)
    requires 0 <= s.circleState <= 3 && s.circleSpeed >= 0.0
    requires Travel(Velocity(s), k) < EdgeDistance(s)
    ensures Steps(s, k) == s.(circlePos := Slide(s, Travel(Velocity(s), k)))
  {
    var v := Velocity(s);
    if k == 0 {
      assert s.(circlePos := Slide(s, 0.0)) == s;
    } else {
      var d := Travel(v, k - 1);
      EdgeProgress(s, k - 1);
      var before := s.(circlePos := Slide(s, d));
      SlideAlong(s, d, v);
      assert Steps(s, k) == Step(before);
    }
  }

  /** The tick on which the remaining distance first fits into `k` frames of
      travel is the one that ends the edge: after exactly `k` ticks the circle
      is at the end of its edge and the walk is in the next state. */
  lemma {:induction false} EdgeArrival(s: NodeState, k: nat)
    requires 0 <= s.circleState <= 3 && s.circleSpeed >= 0.0 && k >= 1
    requires Travel(Velocity(s), k - 1) < EdgeDistance(s) <= Travel(Velocity(s), k)
    ensures Steps(s, k) == s.(circlePos := EdgeEnd(s), circleState := Next(s.circleState))
  {
    var v := Velocity(s);
    var d := Travel(v, k - 1);
    EdgeProgress(s, k - 1);
    var before := s.(circlePos := Slide(s, d));
    SlideAlong(s, d, v);
    assert Steps(s, k) == Step(before);
  }

  /** Any number of ticks on a rectangle of non-negative size keeps the
      circle on its perimeter, hence inside it. */
  lemma {:induction false} StepsStayOnTrack(s: NodeState, n: nat)
    requires s.circleSpeed >= 0.0 && NonNegSize(s.rectSize) && OnTrack(s)
    ensures OnTrack(Steps(s, n)) && InBox(Steps(s, n))
  {
    if n > 0 {
      StepsStayOnTrack(s, n - 1);
      StepsMoveOnlyCircle(s, n - 1);
      StepStaysOnTrack(Steps(s, n - 1));
    }
  }

  /** After `reset_circle`, with a non-negative size and a positive speed, any
      number of ticks keeps the circle within the rectangle on both axes. */
  lemma StaysInBoxAfterReset(s: NodeState, n: nat)
    requires NonNegSize(s.rectSize) && s.circleSpeed > 0.0
    ensures InBox(Steps(Reset(s), n))
  {
    StepsStayOnTrack(Reset(s), n);
  }

  /** Any number of ticks keeps the reachable-state invariant. */
  lemma {:induction false} StepsKeepInv(s: NodeState, n: nat)
    requires Inv(s)
    ensures Inv(Steps(s, n)) && 0 <= Steps(s, n).circleState <= 3
  {
    if n > 0 {
      StepsKeepInv(s, n - 1);
      StepKeepsInv(Steps(s, n - 1));
    }
  }

  /** The walk leaves the rectangle as it was, so resetting after any number
      of ticks gives the same state as resetting before them. */
  lemma {:induction false} ResetAfterWalk(s: NodeState, n: nat)
    ensures Reset(Steps(s, n)) == Reset(s)
  {
    StepsMoveOnlyCircle(s, n);
  }

  /** Resetting twice is resetting once. */
  lemma ResetIdempotent(s: NodeState)
    ensures Reset(Reset(s)) == Reset(s)
  {
  }

  /** `draw` gates the walk: `n` frames tick the walk `n` times when motion is
      on and leave the state alone when it is off. */
  lemma {:induction false} FramesGate(s: NodeState, n: nat)
    ensures Frames(s, n) == if s.moveCircle then Steps(s, n) else s
  {
    if n > 0 {
      FramesGate(s, n - 1);
      if s.moveCircle {
        StepsMoveOnlyCircle(s, n - 1);
      }
    }
  }

  /** From the defaults (rectangle at (100,100) of size (600,600), circle at
      (700,700), speed 5, state 0) the circle first climbs the right edge 5
      pixels per tick: after `k` ticks, for `k` up to 119, it is at y = 700 - 5k. */
  lemma {:induction false} DefaultClimb(k: nat)
    requires k <= 119
    ensures Steps(Initial(), k) == Initial().(circlePos := Vec(700.0, 700.0 - 5.0 * (k as real)))
  {
    var s := Initial();
    TravelIsProduct(Velocity(s), k);
    EdgeProgress(s, k);
  }

  /** From the defaults, the 120th tick lands the circle exactly on the top
      edge at y = 100 and turns the walk onto the top edge. */
  lemma DefaultArrival()
    ensures Steps(Initial(), 120) == Initial().(circlePos := Vec(700.0, 100.0), circleState := 1)
  {
    var s := Initial();
    var k := 120;
    var v := Velocity(s);
    assert EdgeDistance(s) == 600.0 && v == 5.0;
    assert Travel(v, k - 1) == 595.0 by { TravelIsProduct(v, k - 1); }
    assert Travel(v, k) == 600.0 by { TravelIsProduct(v, k); }
    EdgeArrival(s, k);
  }
}
