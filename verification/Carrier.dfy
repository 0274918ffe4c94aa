/** The carrier delay arithmetic of computeCarrierDelays in
    software/usb_ir/device-interface.c. */
module Carrier {
  import opened Bytes

  const UINT8 := 0x100
  const SEVENS_IN_FIRMWARE := 4
  const FOURS_IN_FIRMWARE := 110

  /** Clock cycles per half period at 24 MHz, rounded half up. */
  function Cycles(carrier: nat): nat
    requires carrier > 0
  {
    (24000000 + carrier) / (2 * carrier)
  }

  function Sevens(rest: nat): (n: nat)
    ensures n <= 3 && (rest + n) % 4 == 0
  {
    (4 - rest % 4) % 4
  }

  /** The number of delays of four, in 32-bit arithmetic and cut to a byte. */
  function Fours(rest: nat): nat {
    (rest + UINT32 - 7 * Sevens(rest)) % UINT32 / 4 % UINT8
  }

  /** The byte offsets sent to the device. */
  datatype Delays = Delays(skip7: nat, skip4: nat)

  function Offsets(rest: nat): Delays {
    Delays((SEVENS_IN_FIRMWARE - Sevens(rest)) * 2, (FOURS_IN_FIRMWARE + UINT8 - Fours(rest)) % UINT8)
  }

  /** computeCarrierDelays. */
  method ComputeCarrierDelays(carrier: nat, loopCycles: nat) returns (delays: Delays)
    requires carrier > 0 && loopCycles < UINT8
    ensures var rest := (Cycles(carrier) + UINT32 - loopCycles) % UINT32;
      && delays == Offsets(rest)
      && (Firmware(delays) == Waits(rest) <==>
        Representable(rest) && rest <= 7 * Sevens(rest) + 440)
      && forall s: nat, f: nat | Combination(rest, s, f) :: 4 - delays.skip7 / 2 <= s
  {
    var cycles := Cycles(carrier);
    cycles := (cycles + UINT32 - loopCycles) % UINT32;
    var sevens := (4 - cycles % 4) % 4;
    var fours := (cycles + UINT32 - sevens * 7) % UINT32 / 4 % UINT8;
    delays := Delays((4 - sevens) * 2, (110 + UINT8 - fours) % UINT8);
    DelayExact(cycles);
    SevensAreFewest(cycles);
  }

  datatype Delay = Crash | Waits(cycles: nat)

  /** What the firmware does with the offsets: it jumps into four two-byte instructions of
      seven cycles, then into 110 one-byte instructions of four cycles. */
  function Firmware(d: Delays): Delay {
    if d.skip7 > 2 * SEVENS_IN_FIRMWARE || d.skip7 % 2 != 0 || d.skip4 > FOURS_IN_FIRMWARE then Crash
    else Waits(7 * (SEVENS_IN_FIRMWARE - d.skip7 / 2) + 4 * (FOURS_IN_FIRMWARE - d.skip4))
  }

  ghost predicate Combination(rest: nat, sevens: nat, fours: nat) {
    7 * sevens + 4 * fours == rest
  }

  ghost predicate Representable(rest: nat) {
    exists s: nat, f: nat :: Combination(rest, s, f)
  }

  /** The formula finds a combination whenever there is one, and uses the fewest sevens. */
  lemma SevensAreFewest(rest: nat)
    ensures Representable(rest) <==> rest >= 7 * Sevens(rest)
    ensures forall s: nat, f: nat | Combination(rest, s, f) :: s >= Sevens(rest)
  {
    var n, p := Sevens(rest), Quarter(rest);
    forall s: nat, f: nat | Combination(rest, s, f)
      ensures s >= n
    {
      Fewest(rest, n, p, s, f);
    }
    if rest >= 7 * n {
      assert Combination(rest, n, p - 2 * n);
    }
  }

  lemma Fewest(rest: nat, n: nat, p: nat, s: nat, f: nat)
    requires rest == 4 * p - n && n <= 3 && Combination(rest, s, f)
    ensures s >= n && rest >= 7 * n
  {
    assert n - s == 4 * (p - (2 * s + f));
  }

  /** A quarter of the rest after adding one cycle per seven. */
  function Quarter(rest: nat): (p: nat)
    ensures rest == 4 * p - Sevens(rest)
  {
    (rest + Sevens(rest)) / 4
  }

  /** All but nine small values are combinations; 17 is the largest exception. */
  lemma RepresentableFrom18(rest: nat)
    ensures Representable(rest) <==> rest !in {1, 2, 3, 5, 6, 9, 10, 13, 17}
  {
    SevensAreFewest(rest);
  }

  /** The device waits exactly the requested rest if and only if the rest is a combination
      of fours and sevens that needs at most 110 fours. */
  lemma DelayExact(rest: nat)
    requires rest < UINT32
    ensures Firmware(Offsets(rest)) == Waits(rest) <==>
      Representable(rest) && rest <= 7 * Sevens(rest) + 4 * FOURS_IN_FIRMWARE
  {
    var n := Sevens(rest);
    SevensAreFewest(rest);
    FoursValue(rest);
    OffsetsRead(n, Fours(rest));
    if rest >= 7 * n {
      ByteOfFours(n, Quarter(rest) - 2 * n);
    }
  }

  /** The byte of fours stands for the fours themselves, if there are enough of them. */
  lemma ByteOfFours(sevens: nat, fours: nat)
    ensures var byte := fours % UINT8;
      var delay := if byte <= FOURS_IN_FIRMWARE then Waits(7 * sevens + 4 * byte) else Crash;
      delay == Waits(7 * sevens + 4 * fours) <==> fours <= FOURS_IN_FIRMWARE
  {
    ByteOf(fours);
  }

  lemma ByteOf(f: nat)
    ensures f < UINT8 ==> f % UINT8 == f
    ensures f >= UINT8 ==> f % UINT8 < f
  {
  }

  /** The firmware reads the offsets back as the two counts, if there are enough fours. */
  lemma OffsetsRead(sevens: nat, fours: nat)
    requires sevens <= 3 && fours < UINT8
    ensures Firmware(Delays((SEVENS_IN_FIRMWARE - sevens) * 2, (FOURS_IN_FIRMWARE + UINT8 - fours) % UINT8)) ==
      if fours <= FOURS_IN_FIRMWARE then Waits(7 * sevens + 4 * fours) else Crash
  {
    var skip4 := (FOURS_IN_FIRMWARE + UINT8 - fours) % UINT8;
    if fours <= FOURS_IN_FIRMWARE {
      assert skip4 == FOURS_IN_FIRMWARE - fours;
    } else {
      assert skip4 == FOURS_IN_FIRMWARE + UINT8 - fours;
    }
  }

  /** The byte of fours: the quotient modulo 256, or nearly 256 when the subtraction wraps. */
  lemma FoursValue(rest: nat)
    requires rest < UINT32
    ensures var s, p := Sevens(rest), Quarter(rest);
      if rest >= 7 * s then p >= 2 * s && Fours(rest) == (p - 2 * s) % UINT8 else Fours(rest) >= 251
    ensures Fours(rest) < UINT8
  {
    var s, p := Sevens(rest), Quarter(rest);
    if rest >= 7 * s {
      WrapsOnce(rest - 7 * s);
      assert rest - 7 * s == 4 * (p - 2 * s);
    } else {
      assert rest + UINT32 - 7 * s == 4 * (0x4000_0000 + p - 2 * s);
      NearlyFull((p as int) - 2 * s);
    }
  }

  /** A small negative number of fours, in 32 bits and cut to a byte. */
  lemma NearlyFull(n: int)
    requires -6 < n < 0
    ensures 4 * (0x4000_0000 + n) % UINT32 / 4 % UINT8 == 256 + n
  {
  }

  lemma WrapsOnce(n: nat)
    requires n < UINT32
    ensures (n + UINT32) % UINT32 == n
  {
  }

  /** The rounded half period is within half a clock cycle of the exact one. */
  lemma HalfPeriodRounded(carrier: nat)
    requires carrier > 0
    ensures -(carrier as int) < 2 * (Cycles(carrier) * carrier - 12000000) <= carrier
  {
    var n, d := 24000000 + carrier, 2 * carrier;
    assert n == n / d * d + n % d;
    assert Cycles(carrier) * (2 * carrier) == 2 * (Cycles(carrier) * carrier);
  }

  /** For the carriers that the daemon admits and the default loop of 65 cycles, the device
      produces the rounded half period, except between 145455 and 147239 Hz, where a rest of
      17 cycles remains. */
  lemma DefaultLoopExact(carrier: nat)
    requires 25000 <= carrier <= 150000
    ensures Cycles(carrier) >= 65
    ensures Firmware(Offsets(Cycles(carrier) - 65)) == Waits(Cycles(carrier) - 65)
      <==> !(145455 <= carrier <= 147239)
  {
    CyclesRange(carrier);
    var rest := Cycles(carrier) - 65;
    DelayExact(rest);
    RepresentableFrom18(rest);
  }

  /** At 146000 Hz, for example, the device does not wait 17 cycles. */
  lemma GapCarrier()
    ensures Cycles(146000) - 65 == 17 && Firmware(Offsets(17)) == Crash
  {
    FoursValue(17);
    OffsetsRead(Sevens(17), Fours(17));
  }

  lemma CyclesRange(carrier: nat)
    requires 25000 <= carrier <= 150000
    ensures 80 <= Cycles(carrier) <= 480
    ensures Cycles(carrier) == 82 <==> 145455 <= carrier <= 147239
  {
    var c := Cycles(carrier);
    HalfPeriodRounded(carrier);
    assert c <= 480 by { CyclesBelow(carrier, 480); }
    assert c >= 80 by { CyclesAbove(carrier, 80); }
    CyclesAbove(carrier, 82);
    CyclesBelow(carrier, 82);
  }

  lemma CyclesBelow(carrier: nat, k: nat)
    requires carrier > 0
    ensures Cycles(carrier) <= k <==> 24000000 < carrier * (2 * k + 1)
  {
    DivisionBound(24000000 + carrier, 2 * carrier, k);
    assert 2 * carrier * (k + 1) == carrier * (2 * k + 1) + carrier;
  }

  lemma CyclesAbove(carrier: nat, k: nat)
    requires carrier > 0 && k > 0
    ensures Cycles(carrier) >= k <==> carrier * (2 * k - 1) <= 24000000
  {
    CyclesBelow(carrier, k - 1);
  }

  lemma DivisionBound(n: nat, d: nat, k: nat)
    requires d > 0
    ensures n / d <= k <==> n < d * (k + 1)
  {
    assert n == n / d * d + n % d;
    if n / d <= k {
      assert n / d * d <= k * d;
    } else {
      assert n / d * d >= (k + 1) * d;
    }
  }
}
