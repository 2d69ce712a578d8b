/** The velocity ramp of the drive node's loop: one tick moves the commanded speed
    towards the latest requested speed, slowly away from rest and quickly back. */
module VelocityRamp {

  function Min(a: real, b: real): real { if a <= b then a else b }

  function Max(a: real, b: real): real { if a >= b then a else b }

  /** One tick with the requested speed `input`. */
  function Tick(control: real, input: real): real {
    if input > 0.0 then
      if input > control then Min(input, control + 0.01)
      else if input < control then Max(input, control - 0.05)
      else input
    else if input < control then
      var c := Max(input, control - 0.01);
      if c > 0.0 then Max(input, c - 0.05) else c
    else if input > control then Min(input, control + 0.05)
    else input
  }

  function Run(control: real, inputs: seq<real>): real
    decreases |inputs|
  {
    if inputs == [] then control else Run(Tick(control, inputs[0]), inputs[1..])
  }

  predicate Between(a: real, x: real, b: real) {
    Min(a, b) <= x <= Max(a, b)
  }

  function Distance(a: real, b: real): real { if a <= b then b - a else a - b }

  /** A tick stays between the old speed and the target, moves at most 0.06, and covers
      at least 0.01 or arrives. */
  lemma TickMoves(control: real, input: real)
    ensures Between(control, Tick(control, input), input)
    ensures Distance(control, Tick(control, input)) <= 0.06
    ensures Tick(control, input) == input || Distance(Tick(control, input), input) <= Distance(control, input) - 0.01
  {
  }

  /** How fast the speed is changed: away from rest by 0.01, towards it by 0.05, and by
      both when a reverse is asked for at forward speed. */
  function Rate(control: real, input: real): real {
    if input > 0.0 then (if control < input then 0.01 else 0.05)
    else if control < input then 0.05
    else if control > 0.01 then 0.06
    else 0.01
  }

  /** A tick moves the speed towards the request by exactly that much, or the distance left. */
  lemma TickIsExact(control: real, input: real)
    ensures var step := Min(Rate(control, input), Distance(control, input));
            Tick(control, input) == if control <= input then control + step else control - step
  {
  }

  function Constant(input: real, n: nat): seq<real> {
    seq(n, i => input)
  }

  /** Under a constant forward request: 0.01 a tick up to it, */
  lemma {:induction false} Accelerates(control: real, input: real, n: nat)
    requires control <= input && input > 0.0
    ensures Run(control, Constant(input, n)) == Min(input, control + 0.01 * n as real)
    decreases n
  {
    if n > 0 {
      assert Constant(input, n)[1..] == Constant(input, n - 1);
      assert 0.01 * n as real == 0.01 + 0.01 * (n - 1) as real;
      Accelerates(Tick(control, input), input, n - 1);
    }
  }

  /** and 0.05 a tick down to it. */
  lemma {:induction false} Brakes(control: real, input: real, n: nat)
    requires control >= input > 0.0
    ensures Run(control, Constant(input, n)) == Max(input, control - 0.05 * n as real)
    decreases n
  {
    if n > 0 {
      assert Constant(input, n)[1..] == Constant(input, n - 1);
      assert 0.05 * n as real == 0.05 + 0.05 * (n - 1) as real;
      Brakes(Tick(control, input), input, n - 1);
    }
  }

  /** All speeds stay within any interval that holds the start and every request. */
  lemma {:induction false} StaysInHull(control: real, inputs: seq<real>, low: real, high: real)
    requires low <= control <= high && forall i | 0 <= i < |inputs| :: low <= inputs[i] <= high
    ensures low <= Run(control, inputs) <= high
    decreases |inputs|
  {
    if inputs != [] {
      TickMoves(control, inputs[0]);
      StaysInHull(Tick(control, inputs[0]), inputs[1..], low, high);
    }
  }

  /** Under a constant request the speed arrives within distance / 0.01 ticks and stays. */
  lemma {:induction false} Arrives(control: real, input: real, n: nat)
    requires Distance(control, input) <= 0.01 * n as real
    ensures Run(control, Constant(input, n)) == input
    decreases n
  {
    if n > 0 {
      var c := Tick(control, input);
      TickMoves(control, input);
      assert Constant(input, n)[1..] == Constant(input, n - 1);
      assert 0.01 * n as real == 0.01 * (n - 1) as real + 0.01;
      Arrives(c, input, n - 1);
    }
  }

  class DriveNode {
    var controlLinear: real
    var forwardCheck: bool

    constructor ()
      ensures controlLinear == 0.0
    {
      controlLinear, forwardCheck := 0.0, false;
    }

    method RampTick(linear: real)
      modifies this
      ensures controlLinear == Tick(old(controlLinear), linear) && forwardCheck == (linear > 0.0)
    {
      forwardCheck := linear > 0.0;
      if forwardCheck {
        if linear > controlLinear {
          controlLinear := Min(linear, controlLinear + 0.01);
        } else if linear < controlLinear {
          controlLinear := Max(linear, controlLinear - 0.05);
        } else {
          controlLinear := linear;
        }
      } else {
        if linear < controlLinear {
          controlLinear := Max(linear, controlLinear - 0.01);
          if controlLinear > 0.0 {
            controlLinear := Max(linear, controlLinear - 0.05);
          }
        } else if linear > controlLinear {
          controlLinear := Min(linear, controlLinear + 0.05);
        } else {
          controlLinear := linear;
        }
      }
    }
  }
}
