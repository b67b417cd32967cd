/** The magnification control of the viewer: the ',' and '.' keys halve
    and double `mag`, which is clamped to [1, 16] after every pressed key
    (src/cmd_viz.cpp:198-204), and the Reset button sets it back to 8
    (src/cmd_viz.cpp:184, 220-222). */
module MagKeys {
  import opened Ints

  const Comma: int := 44
  const Period: int := 46

  /** Magnification at start-up and after Reset. */
  const InitialMag: uint64 := 8

  const MinMag: uint64 := 1
  const MaxMag: uint64 := 16

  /** What reaches the magnification: a pressed key code, or the Reset
      button. */
  datatype MagEvent = KeyPressed(code: int) | ResetPressed

  /** One pass of the key loop body for key `c`, on the uint64 `mag`. */
  function StepMag(mag: uint64, c: int): (m: uint64)
    ensures MinMag <= m <= MaxMag
    ensures c != Comma && c != Period && MinMag <= mag <= MaxMag ==> m == mag
    ensures c == Comma && MinMag <= mag <= MaxMag ==> m == (if mag >= 2 then mag / 2 else MinMag)
    ensures c == Period && MinMag <= mag <= MaxMag ==> m == (if mag <= MaxMag / 2 then 2 * mag else MaxMag)
  {
    var halved := if c == Comma then mag / 2 else mag;
    var doubled := if c == Period then (halved * 2) % TWO_64 else halved;
    var low := if doubled < MinMag then MinMag else doubled;
    if low > MaxMag then MaxMag else low
  }

  function Apply(mag: uint64, e: MagEvent): uint64 {
    match e
    case KeyPressed(c) => StepMag(mag, c)
    case ResetPressed => InitialMag
  }

  /** The magnification after a sequence of events. */
  function ApplyAll(mag: uint64, es: seq<MagEvent>): uint64
    decreases |es|
  {
    if |es| == 0 then mag else ApplyAll(Apply(mag, es[0]), es[1..])
  }

  predicate IsPowerOfTwo(n: nat) {
    n == 1 || (n >= 2 && n % 2 == 0 && IsPowerOfTwo(n / 2))
  }

  /** The powers of two the clamp admits. */
  lemma PowersOfTwoInRange(m: nat)
    requires MinMag <= m <= MaxMag
    ensures IsPowerOfTwo(m) <==> m == 1 || m == 2 || m == 4 || m == 8 || m == 16
  {
    assert IsPowerOfTwo(1) && IsPowerOfTwo(2) && IsPowerOfTwo(4) && IsPowerOfTwo(8) && IsPowerOfTwo(16);
    if IsPowerOfTwo(m) && m != 1 {
      assert IsPowerOfTwo(m / 2);
      if m / 2 != 1 {
        assert IsPowerOfTwo(m / 4);
        if m / 4 != 1 {
          assert IsPowerOfTwo(m / 8);
        }
      }
    }
  }

  /** A key press keeps a power-of-two magnification within [1, 16] a
      power of two. */
  lemma StepKeepsPowerOfTwo(mag: uint64, c: int)
    requires MinMag <= mag <= MaxMag && IsPowerOfTwo(mag)
    ensures IsPowerOfTwo(StepMag(mag, c))
  {
    PowersOfTwoInRange(mag);
    PowersOfTwoInRange(StepMag(mag, c));
  }

  /** From start-up, whatever keys are pressed and however often Reset is
      clicked, `mag` stays a power of two within [1, 16]. */
  lemma {:induction false} ReachableMagsArePowersOfTwo(mag: uint64, es: seq<MagEvent>)
    requires MinMag <= mag <= MaxMag && IsPowerOfTwo(mag)
    ensures var m := ApplyAll(mag, es); MinMag <= m <= MaxMag && IsPowerOfTwo(m)
    decreases |es|
  {
    if |es| > 0 {
      if es[0].KeyPressed? {
        StepKeepsPowerOfTwo(mag, es[0].code);
      } else {
        PowersOfTwoInRange(InitialMag);
      }
      ReachableMagsArePowersOfTwo(Apply(mag, es[0]), es[1..]);
    }
  }

  lemma FromStartUp(es: seq<MagEvent>)
    ensures var m := ApplyAll(InitialMag, es); MinMag <= m <= MaxMag && IsPowerOfTwo(m)
  {
    PowersOfTwoInRange(InitialMag);
    ReachableMagsArePowersOfTwo(InitialMag, es);
  }

  /** ',' undoes '.' below the upper clamp, and '.' undoes ',' above the
      lower one. At the clamps a key press is lost: '.' at 16 and ',' at 1
      leave `mag` unchanged. */
  lemma ZoomKeysAreInverse(mag: uint64)
    requires MinMag <= mag <= MaxMag && IsPowerOfTwo(mag)
    ensures mag < MaxMag ==> StepMag(StepMag(mag, Period), Comma) == mag
    ensures mag > MinMag ==> StepMag(StepMag(mag, Comma), Period) == mag
    ensures StepMag(MaxMag, Period) == MaxMag && StepMag(MinMag, Comma) == MinMag
  {
    PowersOfTwoInRange(mag);
  }

  /** Every admissible magnification is reachable from start-up. */
  lemma EveryPowerOfTwoIsReachable(m: uint64)
    requires MinMag <= m <= MaxMag && IsPowerOfTwo(m)
    ensures exists es: seq<MagEvent> :: ApplyAll(InitialMag, es) == m
  {
    PowersOfTwoInRange(m);
    var comma, period := KeyPressed(Comma), KeyPressed(Period);
    assert [comma, comma, comma][1..] == [comma, comma] && [comma, comma][1..] == [comma];
    if m == 1 {
      assert ApplyAll(2, [comma]) == 1;
      assert ApplyAll(4, [comma, comma]) == ApplyAll(2, [comma]);
      assert ApplyAll(InitialMag, [comma, comma, comma]) == ApplyAll(4, [comma, comma]);
      assert ApplyAll(InitialMag, [comma, comma, comma]) == m;
    } else if m == 2 {
      assert ApplyAll(4, [comma]) == 2;
      assert ApplyAll(InitialMag, [comma, comma]) == ApplyAll(4, [comma]);
      assert ApplyAll(InitialMag, [comma, comma]) == m;
    } else if m == 4 {
      assert ApplyAll(InitialMag, [comma]) == m;
    } else if m == 8 {
      assert ApplyAll(InitialMag, []) == m;
    } else {
      assert ApplyAll(InitialMag, [period]) == m;
    }
  }
}
