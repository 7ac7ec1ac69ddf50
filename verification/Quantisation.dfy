/** The two-stage quantisation of pseudorange and carrier phase in MSM4: a rough range per satellite in
    units of 2^-10 ms, and fine residuals per signal in 2^-24 ms and 2^-29 ms. Doubles are modelled as
    reals and the constants P2_n as exact powers of two. */
module Quantisation {
  import opened BitFields

  const CLIGHT := 299792458.0
  const RANGE_MS := 299792.458  // range in 1 ms
  const FREQ1 := 1575420000.0
  const FREQ1_CMP := 1561098000.0

  /** ROUND and ROUND_U. */
  function Round(x: real): int {
    (x + 0.5).Floor
  }

  function Abs(x: real): (r: real) {
    if x < 0.0 then -x else x
  }

  lemma RoundNearest(x: real)
    ensures Round(x) as real - 0.5 <= x < Round(x) as real + 0.5
  {
  }

  lemma RoundOfInt(n: int)
    ensures Round(n as real) == n
  {
  }

  lemma RoundMonotone(x: real, y: real)
    requires x <= y
    ensures Round(x) <= Round(y)
  {
  }

  // ---------- rough range ----------

  /** The rough range of a pseudorange, in units of 2^-10 ms. */
  function RoughUnits(p: real): int {
    Round(p / RANGE_MS * 1024.0)
  }

  /** rrng_s of gen_msm_sat, in metres. */
  function RoughOf(p: real): real {
    RoughUnits(p) as real * RANGE_MS / 1024.0
  }

  /** The rough range re-quantised by the two encoders below. */
  function Requantised(rrng: real): int {
    Round(rrng / RANGE_MS * 1024.0)
  }

  /** encode_msm_int_rrng: 255 marks an invalid range. */
  function IntMs(rrng: real): (r: nat)
    ensures r <= 255
  {
    if rrng == 0.0 then 255
    else if rrng < 0.0 || rrng > RANGE_MS * 255.0 then 255
    else
      RoundMonotone(0.0, rrng / RANGE_MS * 1024.0);
      RoundMonotone(rrng / RANGE_MS * 1024.0, (255 * 1024) as real);
      RoundOfInt(0);
      RoundOfInt(255 * 1024);
      Requantised(rrng) / 1024
  }

  /** encode_msm_mod_rrng. */
  function ModMs(rrng: real): (r: nat)
    ensures r < 1024
  {
    if rrng <= 0.0 || rrng > RANGE_MS * 255.0 then 0
    else
      RoundMonotone(0.0, rrng / RANGE_MS * 1024.0);
      RoundOfInt(0);
      Requantised(rrng) % 1024
  }

  /** The integer field is its invalid marker exactly when the rounded range is not strictly between
      0 and 255 ms; otherwise the two fields together are the rounded range. */
  lemma RoughFields(p: real)
    ensures IntMs(RoughOf(p)) == 255 <==> RoughUnits(p) <= 0 || 255 * 1024 <= RoughUnits(p)
    ensures IntMs(RoughOf(p)) != 255 ==> IntMs(RoughOf(p)) * 1024 + ModMs(RoughOf(p)) == RoughUnits(p)
  {
    var n := RoughUnits(p);
    assert RoughOf(p) / RANGE_MS * 1024.0 == n as real;
    RoundOfInt(n);
  }

  /** The rough range is within half a unit of the measured range. */
  lemma RoughError(p: real)
    ensures Abs(p - RoughOf(p)) <= RANGE_MS / 2048.0
  {
    RoundNearest(p / RANGE_MS * 1024.0);
  }

  // ---------- fine pseudorange ----------

  const PSRNG_INVALID := -16384

  /** encode_msm_psrng: a zero or large residual is sent as invalid. */
  function FinePsr(x: real): int {
    if x == 0.0 then PSRNG_INVALID
    else if Abs(x) > 292.7 then PSRNG_INVALID
    else Round(x / RANGE_MS * 16777216.0)
  }

  /** The 15-bit field never overflows, and carries its invalid marker exactly for a zero residual or
      one above 292.7 m. */
  lemma FinePsrFits(x: real)
    ensures -0x4000 <= FinePsr(x) < 0x4000
    ensures SInt(SField(FinePsr(x), 15)) == FinePsr(x)
    ensures FinePsr(x) == -16384 <==> x == 0.0 || Abs(x) > 292.7
  {
    if x != 0.0 && Abs(x) <= 292.7 {
      RoundMonotone(x / RANGE_MS * 16777216.0, 16383.0);
      RoundMonotone(-16383.0, x / RANGE_MS * 16777216.0);
      RoundOfInt(16383);
      RoundOfInt(-16383);
    }
    Pow2Of14And21();
    SIntSField(FinePsr(x), 15);
  }

  lemma Pow2Of14And21()
    ensures Pow2(14) == 0x4000 && Pow2(21) == 0x20_0000
  {
    assert Pow2(6) == 64;
    assert Pow2(10) == 1024;
    assert Pow2(14) == 0x4000;
    assert Pow2(18) == 0x4_0000;
  }

  /** The range a receiver forms from the three fields, in metres. */
  function DecodedRange(intMs: nat, modMs: nat, fine: int): real {
    (intMs as real + modMs as real / 1024.0 + fine as real / 16777216.0) * 299792.458
  }

  /** A signal sent against any satellite's rough range: whenever no field is invalid, the decoded
      range is within half a step of 2^-24 ms of the measured one. */
  lemma RangeDecodes(p: real, q: real)
    requires IntMs(RoughOf(q)) != 255
    requires FinePsr(p - RoughOf(q)) != PSRNG_INVALID
    ensures Abs(DecodedRange(IntMs(RoughOf(q)), ModMs(RoughOf(q)), FinePsr(p - RoughOf(q))) - p)
         <= RANGE_MS / 33554432.0
  {
    var rrng := RoughOf(q);
    var i, m, f := IntMs(rrng), ModMs(rrng), FinePsr(p - rrng);
    RoughFields(q);
    FinePsrFits(p - rrng);
    RoundNearest((p - rrng) / RANGE_MS * 16777216.0);
    assert i as real * 1024.0 + m as real == RoughUnits(q) as real;
    assert (i as real + m as real / 1024.0) * RANGE_MS == rrng;
  }

  /** A satellite with one signal: the residual never exceeds the limit, so the fine field is invalid
      exactly when the range falls on the rough grid. */
  lemma SingleSignalInvalid(p: real)
    ensures FinePsr(p - RoughOf(p)) == PSRNG_INVALID <==> p == RoughOf(p)
  {
    RoughError(p);
    FinePsrFits(p - RoughOf(p));
  }

  // ---------- fine phase ----------

  const PHRNG_INVALID := -2097152

  /** encode_msm_phrng. */
  function FinePhr(x: real): int {
    if x == 0.0 then PHRNG_INVALID
    else if Abs(x) > 1171.0 then PHRNG_INVALID
    else Round(x / RANGE_MS * 536870912.0)
  }

  lemma FinePhrFits(x: real)
    ensures -0x20_0000 <= FinePhr(x) < 0x20_0000
    ensures SInt(SField(FinePhr(x), 22)) == FinePhr(x)
    ensures FinePhr(x) == -2097152 <==> x == 0.0 || Abs(x) > 1171.0
  {
    if x != 0.0 && Abs(x) <= 1171.0 {
      RoundMonotone(x / RANGE_MS * 536870912.0, 2097151.0);
      RoundMonotone(-2097151.0, x / RANGE_MS * 536870912.0);
      RoundOfInt(2097151);
      RoundOfInt(-2097151);
    }
    Pow2Of14And21();
    SIntSField(FinePhr(x), 22);
  }

  /** A phase residual decodes, against the rough range, to within half a step of 2^-29 ms. */
  lemma PhaseResidualDecodes(x: real)
    requires FinePhr(x) != PHRNG_INVALID
    ensures Abs(FinePhr(x) as real / 536870912.0 * RANGE_MS - x) <= RANGE_MS / 1073741824.0
  {
    FinePhrFits(x);
    RoundNearest(x / RANGE_MS * 536870912.0);
  }

  // ---------- the carried integer-cycle offset ----------

  /** satwavelen: 0 for any frequency but the first. */
  function Wavelength(beidou: bool, frequency: nat): real {
    if frequency != 1 then 0.0 else if beidou then CLIGHT / FREQ1_CMP else CLIGHT / FREQ1
  }

  /** The offset is reset on a slip or a drift above 1171 m; with no wavelength the product is 0. */
  predicate Resets(slip: bool, phase: real, cp: real) {
    slip || Abs(phase - cp) > 1171.0
  }

  function Cycles(n: int, lambda: real): real {
    n as real * lambda
  }

  function NextOffset(slip: bool, phase: real, cp: real, lambda: real): real {
    if !Resets(slip, phase, cp) then cp
    else if lambda == 0.0 then 0.0
    else Cycles(Round(phase / lambda), lambda)
  }

  ghost predicate WholeCycles(cp: real, lambda: real) {
    exists n: int :: cp == Cycles(n, lambda)
  }

  /** One update keeps the offset a whole number of cycles, changes it only for the two reasons given,
      and leaves a residual within the range of the fine field. */
  lemma OffsetStep(slip: bool, phase: real, cp: real, lambda: real)
    requires 0.0 < lambda <= 1.0 && WholeCycles(cp, lambda)
    ensures var next := NextOffset(slip, phase, cp, lambda);
            && WholeCycles(next, lambda)
            && (next != cp ==> slip || Abs(phase - cp) > 1171.0)
            && Abs(phase - next) <= 1171.0
  {
    if Resets(slip, phase, cp) {
      ResetResidual(phase, lambda);
      assert NextOffset(slip, phase, cp, lambda) == Cycles(Round(phase / lambda), lambda);
    }
  }

  /** A reset leaves at most half a cycle. */
  lemma ResetResidual(phase: real, lambda: real)
    requires 0.0 < lambda <= 1.0
    ensures Abs(phase - Cycles(Round(phase / lambda), lambda)) <= 0.5
  {
    RoundNearest(phase / lambda);
    Quotient(phase, lambda);
    HalfCycle(phase, phase / lambda, Round(phase / lambda), lambda);
  }

  lemma Quotient(a: real, b: real)
    requires b > 0.0
    ensures a == (a / b) * b
  {
  }

  lemma HalfCycle(phase: real, x: real, n: int, lambda: real)
    requires phase == x * lambda && -0.5 <= x - n as real < 0.5 && 0.0 < lambda <= 1.0
    ensures Abs(phase - Cycles(n, lambda)) <= 0.5
  {
    var d := x - n as real;
    assert phase - Cycles(n, lambda) == d * lambda;
    if d < 0.0 {
      assert -d * lambda <= 0.5 * lambda;
    } else {
      assert d * lambda <= 0.5 * lambda;
    }
  }
}
