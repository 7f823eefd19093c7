/** Choosing the program of a colour light by switching it off and on: the pulse
    programmer, and a light that steps through its programs cyclically. */
module LightProgram {
  import opened Division

  /** A light with its current program, and whether it has been off long enough for
      the next switching on to start again at program 1. */
  datatype Light = Light(on: bool, program: int, armed: bool)

  predicate HasPrograms(l: Light, n: int) {
    1 <= l.program <= n
  }

  function NextProgram(p: int, n: int): int
    requires n >= 1
  {
    p % n + 1
  }

  /** One press of the light's button. */
  function Pressed(l: Light, n: int): Light
    requires n >= 1
  {
    if l.on then Light(false, l.program, false)
    else Light(true, if l.armed then 1 else NextProgram(l.program, n), false)
  }

  /** The reset pause: it arms a light that is off. */
  function Paused(l: Light): Light {
    if l.on then l else l.(armed := true)
  }

  function Presses(l: Light, n: int, k: nat): Light
    requires n >= 1
  {
    if k == 0 then l else Pressed(Presses(l, n, k - 1), n)
  }

  /** C's remainder: the sign of the dividend. */
  function CRem(a: int, b: int): int
    requires b > 0
  {
    if a >= 0 then a % b else -((-a) % b)
  }

  /** ((val - cmode) % n + n) % n in C */
  function AdvanceSteps(val: int, cmode: int, n: int): int
    requires n > 0
  {
    CRem(CRem(val - cmode, n) + n, n)
  }

  /** Configuration of the programmer. */
  datatype Config = Config(advance: bool, initialOn: int, initialOff: int, slow: bool)

  predicate Advances(l: Light, cmode: int, cfg: Config) {
    l.on && cfg.advance && cmode > 0
  }

  /** The light after the programmer has run. */
  function Programmed(l: Light, n: int, val: int, cmode: int, cfg: Config): Light
    requires n >= 1
  {
    if val <= 0 then (if l.on then Pressed(l, n) else l)
    else if Advances(l, cmode, cfg) then
      var steps := AdvanceSteps(val, cmode, n);
      if steps > 0 then Presses(Pressed(l, n), n, 2 * steps - 1) else l
    else
      var lit := if !l.on && cfg.initialOn > 0 then Pressed(l, n) else l;
      var reset := if cfg.initialOff > 0 then Paused(Pressed(lit, n)) else lit;
      Presses(reset, n, 2 * val - 1)
  }

  class Button {
    const programs: int
    var light: Light

    constructor (programs: int, light: Light)
      ensures this.programs == programs && this.light == light
    {
      this.programs, this.light := programs, light;
    }

    /** send_cmd with the button's code */
    method Press()
      requires programs >= 1
      modifies this
      ensures light == Pressed(old(light), programs)
    {
      if light.on {
        light := Light(false, light.program, false);
      } else {
        light := Light(true, if light.armed then 1 else light.program % programs + 1, false);
      }
    }

    method Pause()
      modifies this
      ensures light == Paused(old(light))
    {
      if !light.on {
        light := light.(armed := true);
      }
    }

    /** The pulses, in either mode: an odd number of presses. */
    method Pulse(val: int, slow: bool)
      requires programs >= 1
      modifies this
      ensures light == if val > 0 then Presses(old(light), programs, 2 * val - 1) else old(light)
    {
      if slow && val > 0 {
        for i := 1 to val * 2
          invariant light == Presses(old(light), programs, i - 1)
        {
          Press();
        }
      } else if val > 0 {
        for i := 1 to val
          invariant light == Presses(old(light), programs, 2 * (i - 1))
        {
          Press();
          Press();
        }
        Press();
      }
    }

    /** set_allbutton_light_programmode; the led shows whether the light is on. */
    method SetProgram(val0: int, cmode: int, cfg: Config) returns (saved: int)
      requires programs >= 1
      modifies this
      ensures light == Programmed(old(light), programs, val0, cmode, cfg)
      ensures val0 > 0 ==> saved == val0
    {
      var val, initialOn, initialOff := val0, cfg.initialOn, cfg.initialOff;
      saved := val;
      if val <= 0 {
        if light.on {
          Press();
        }
        return;
      }
      if light.on && cfg.advance {
        if cmode > 0 {
          var steps := AdvanceSteps(val, cmode, programs);
          if steps > 0 {
            Press();
          }
          val, initialOn, initialOff := steps, -1, -1;
        }
      }
      if !light.on && initialOn > 0 {
        Press();
      }
      if initialOff > 0 {
        Press();
        Pause();
      }
      Pulse(val, cfg.slow);
    }
  }

  // ------------------------------------------------------------------- theorems

  /** The program k steps on from p. */
  function Later(p: int, k: int, n: int): int
    requires n >= 1
  {
    (p - 1 + k) % n + 1
  }

  lemma SuccessorRemainder(a: int, n: int)
    requires n > 0
    ensures (a + 1) % n == if a % n == n - 1 then 0 else a % n + 1
  {
    var q, r := a / n, a % n;
    assert a == n * q + r;
    if r == n - 1 {
      assert n * (q + 1) == n * q + n;
      RemainderUnique(a + 1, n, q + 1, 0);
    } else {
      RemainderUnique(a + 1, n, q, r + 1);
    }
  }

  lemma LaterNext(p: int, k: int, n: int)
    requires 1 <= p <= n
    ensures NextProgram(Later(p, k, n), n) == Later(p, k + 1, n)
    ensures 1 <= Later(p, k, n) <= n
    ensures Later(p, 0, n) == p
  {
    var r := (p - 1 + k) % n;
    SuccessorRemainder(p - 1 + k, n);
    RemainderUnique(p - 1, n, 0, p - 1);
    if r == n - 1 {
      RemainderUnique(n, n, 1, 0);
    } else {
      RemainderUnique(r + 1, n, 0, r + 1);
    }
  }

  /** An odd number of presses turns a light that is off on, k - 1 programs beyond the
      one it starts with. */
  lemma {:induction false} OddPresses(l: Light, n: int, k: nat)
    requires HasPrograms(l, n) && !l.on && k >= 1
    ensures var first := if l.armed then 1 else NextProgram(l.program, n);
            1 <= first <= n && Presses(l, n, 2 * k - 1) == Light(true, Later(first, k - 1, n), false)
  {
    var first := if l.armed then 1 else NextProgram(l.program, n);
    LaterNext(first, 0, n);
    if k == 1 {
      assert Presses(l, n, 1) == Pressed(Presses(l, n, 0), n);
    } else {
      OddPresses(l, n, k - 1);
      LaterNext(first, k - 2, n);
      assert Presses(l, n, 2 * k - 2) == Pressed(Presses(l, n, 2 * k - 3), n);
      assert Presses(l, n, 2 * k - 1) == Pressed(Presses(l, n, 2 * k - 2), n);
    }
  }

  /** From a light that is on they leave it off. */
  lemma {:induction false} OddPressesFromOn(l: Light, n: int, k: nat)
    requires n >= 1 && l.on && k >= 1
    ensures !Presses(l, n, 2 * k - 1).on
  {
    if k == 1 {
      assert Presses(l, n, 1) == Pressed(Presses(l, n, 0), n);
    } else {
      OddPressesFromOn(l, n, k - 1);
      assert Presses(l, n, 2 * k - 2) == Pressed(Presses(l, n, 2 * k - 3), n);
      assert Presses(l, n, 2 * k - 1) == Pressed(Presses(l, n, 2 * k - 2), n);
    }
  }

  /** The C expression is the number of steps from cmode forward to val. */
  lemma AdvanceStepsMeaning(val: int, cmode: int, n: int)
    requires 1 <= val <= n && 1 <= cmode <= n
    ensures AdvanceSteps(val, cmode, n) == if val >= cmode then val - cmode else val - cmode + n
  {
    var d := val - cmode;
    if d >= 0 {
      RemainderUnique(d, n, 0, d);
      RemainderUnique(d + n, n, 1, d);
    } else {
      RemainderUnique(-d, n, 0, -d);
      RemainderUnique(d + n, n, 0, d + n);
    }
  }

  /** The light is on and shows the program asked for. */
  predicate Shows(l: Light, val: int) {
    l.on && l.program == val
  }

  /** Advancing without a reset reaches the program asked for if and only if the
      recorded program was the one the light was really in. */
  lemma AdvanceLands(l: Light, n: int, val: int, cmode: int, cfg: Config)
    requires HasPrograms(l, n) && 1 <= val <= n && 1 <= cmode <= n && l.on && cfg.advance
    ensures Shows(Programmed(l, n, val, cmode, cfg), val) <==> l.program == cmode
  {
    var steps := AdvanceSteps(val, cmode, n);
    AdvanceStepsMeaning(val, cmode, n);
    if steps > 0 {
      OddPresses(Pressed(l, n), n, steps);
      var p := l.program;
      LaterNext(p, 0, n);
      var first := NextProgram(p, n);
      LaterWraps(first, steps - 1, n);
      LaterWraps(p, 1, n);
    }
  }

  /** A request for no program leaves the light off, in the program it had, and a light that
      was off untouched. */
  lemma OffRequestEndsOff(l: Light, n: int, val: int, cmode: int, cfg: Config)
    requires n >= 1 && val <= 0
    ensures var r := Programmed(l, n, val, cmode, cfg); !r.on && r.program == l.program && (l.on || r == l)
  {
  }

  /** A light already known to be in the program asked for is not touched. */
  lemma AdvanceByNothing(l: Light, n: int, val: int, cfg: Config)
    requires HasPrograms(l, n) && 1 <= val <= n && l.on && cfg.advance
    ensures Programmed(l, n, val, val, cfg) == l
  {
    AdvanceStepsMeaning(val, val, n);
  }

  /** Later, without a remainder, for less than a full turn. */
  lemma LaterWraps(p: int, k: int, n: int)
    requires 1 <= p <= n && 0 <= k <= n
    ensures Later(p, k, n) == if p + k <= n then p + k else p + k - n
  {
    var a := p - 1 + k;
    if a < n {
      RemainderUnique(a, n, 0, a);
    } else {
      RemainderUnique(a, n, 1, a - n);
    }
  }

  /** When a light goes through the reset, exactly which settings bring it to the
      program asked for: on or off at first, the reset pause must be there, and a light
      that is off must be lit first; with neither, a light that is off comes right only
      by chance. */
  predicate ResetWorks(l: Light, n: int, cfg: Config) {
    if l.on then cfg.initialOff > 0
    else if cfg.initialOff > 0 then cfg.initialOn > 0
    else cfg.initialOn <= 0 && (l.armed || l.program == n)
  }

  lemma ResetLands(l: Light, n: int, val: int, cmode: int, cfg: Config)
    requires HasPrograms(l, n) && 1 <= val <= n && !(l.on && cfg.advance && cmode > 0)
    ensures Shows(Programmed(l, n, val, cmode, cfg), val) <==> ResetWorks(l, n, cfg)
  {
    var lit := if !l.on && cfg.initialOn > 0 then Pressed(l, n) else l;
    var reset := if cfg.initialOff > 0 then Paused(Pressed(lit, n)) else lit;
    LaterNext(l.program, 0, n);
    LaterWraps(l.program, 1, n);
    if reset.on {
      OddPressesFromOn(reset, n, val);
    } else {
      OddPresses(reset, n, val);
      var first := if reset.armed then 1 else NextProgram(reset.program, n);
      LaterWraps(first, val - 1, n);
    }
  }

  /** With both pauses configured and the recorded program true, every light ends on
      and in the program asked for, whichever path is taken and whichever way the
      pulses are timed. */
  lemma LightLands(l: Light, n: int, val: int, cmode: int, cfg: Config)
    requires HasPrograms(l, n) && 1 <= val <= n && cmode <= n
    requires cfg.initialOn > 0 && cfg.initialOff > 0
    requires l.on && cfg.advance && cmode > 0 ==> l.program == cmode
    ensures Shows(Programmed(l, n, val, cmode, cfg), val)
  {
    if l.on && cfg.advance && cmode > 0 {
      AdvanceLands(l, n, val, cmode, cfg);
    } else {
      ResetLands(l, n, val, cmode, cfg);
    }
  }
}
