/** The divider search of the MIPI D-PHY driver (phy-rockchip-inno-mipi-dphy.c).  The PLL multiplies its reference,
    `fin` MHz, by a feedback divider and divides it by a pre-divider; the search tries every pre-divider the reference
    allows, each with the largest feedback divider that stays at or below the target, `fout` MHz. */
module PllSearch {
  import opened Octets

  const USEC_PER_SEC := 1_000_000
  const MAX_LANE_MBPS := 2500 // of the last row of the timing table
  const WORD := 0x1_0000_0000

  function Reference(prate: nat): nat { prate / USEC_PER_SEC % WORD }

  function Target(rate: nat): (fout: nat)
    ensures fout <= 2 * MAX_LANE_MBPS
    ensures fout * (USEC_PER_SEC / 2) <= rate
    ensures rate / USEC_PER_SEC <= MAX_LANE_MBPS ==> rate < (fout + 2) * (USEC_PER_SEC / 2)
  {
    var wanted := 2 * (rate / USEC_PER_SEC) % WORD;
    if wanted > 2 * MAX_LANE_MBPS then 2 * MAX_LANE_MBPS else wanted
  }

  // The reference divided by the pre-divider lies between 5 and 40 MHz.
  predicate InRange(fin: nat, p: nat) {
    0 < p && 5 * p <= fin <= 40 * p
  }

  // What an eight-bit variable keeps of a number.
  function Octet(n: nat): (r: Byte)
    ensures r <= n
  {
    if n < 0x100 then n else Octet(n - 0x100)
  }

  lemma {:induction false} OctetIs(n: nat)
    ensures Octet(n) == n % 0x100
  {
    if n >= 0x100 {
      OctetIs(n - 0x100);
    }
  }

  // The bounds of the search loop.
  function Low(fin: nat): Byte { Octet((fin + 39) % WORD / 40) }
  function High(fin: nat): Byte { Octet(fin / 5) }

  // The pre-dividers the loop goes through.
  predicate Tried(fin: nat, p: nat) {
    Low(fin) <= p <= High(fin)
  }

  // Up to 1274 MHz the bounds fit, and the loop goes through all that are in range.
  lemma TriedIsInRange(fin: nat, p: nat)
    requires 0 < fin <= 1274
    ensures Tried(fin, p) <==> InRange(fin, p)
  {
  }

  // The feedback dividers the hardware accepts.
  predicate Settable(fbdiv: nat) {
    fbdiv in {12, 13, 14} || 16 <= fbdiv <= 511
  }

  function Feedback(fin: nat, fout: nat, p: nat): nat
    requires fin > 0
  {
    fout * p / fin
  }

  function Output(fin: nat, fbdiv: nat, p: nat): nat
    requires p > 0
  {
    fbdiv * fin / p
  }

  predicate Admissible(fin: nat, fout: nat, p: nat) {
    fin > 0 && Tried(fin, p) && Settable(Feedback(fin, fout, p))
  }

  function Reached(fin: nat, fout: nat, p: nat): nat
    requires Admissible(fin, fout, p)
  {
    Output(fin, Feedback(fin, fout, p), p)
  }

  // `p` reaches closer to the target than `q`, or as close and comes first.
  predicate Beats(fin: nat, fout: nat, p: nat, q: nat)
    requires Admissible(fin, fout, p) && Admissible(fin, fout, q)
  {
    if q < p then Reached(fin, fout, q) < Reached(fin, fout, p) else Reached(fin, fout, q) <= Reached(fin, fout, p)
  }

  ghost predicate Closest(fin: nat, fout: nat, p: nat) {
    Admissible(fin, fout, p) && forall q: nat :: Admissible(fin, fout, q) ==> Beats(fin, fout, p, q)
  }

  ghost predicate ClosestBelow(fin: nat, fout: nat, p: nat, bound: nat) {
    p < bound && Admissible(fin, fout, p) &&
    forall q: nat :: q < bound && Admissible(fin, fout, q) ==> Beats(fin, fout, p, q)
  }

  // A setting the hardware offers whose exact output does not exceed the target.
  predicate Offered(fin: nat, fout: nat, fbdiv: nat, p: nat) {
    InRange(fin, p) && Settable(fbdiv) && fbdiv * fin <= fout * p
  }

  // ------------------------------------------------------------------ arithmetic

  lemma DivBounds(a: nat, b: nat)
    requires b > 0
    ensures a / b * b <= a < a / b * b + b
  {
  }

  lemma DivAtMost(a: nat, b: nat, c: nat)
    requires c > 0 && a < (b + 1) * c
    ensures a / c <= b
  {
    DivBounds(a, c);
    if a / c >= b + 1 {
      MulMono(b + 1, a / c, c);
    }
  }

  lemma DivAtLeast(a: nat, b: nat, c: nat)
    requires c > 0 && a >= b * c
    ensures a / c >= b
  {
    DivBounds(a, c);
    if a / c + 1 <= b {
      MulMono(a / c + 1, b, c);
    }
  }

  lemma MulMono(a: nat, b: nat, c: nat)
    requires a <= b
    ensures a * c <= b * c
  {
  }

  lemma MulMonoRight(c: nat, a: nat, b: nat)
    requires a <= b
    ensures c * a <= c * b
  {
  }

  // An admissible setting never overshoots and never comes out as zero; with the pre-divider in
  // range it misses by at most 40 MHz.
  lemma ReachedBounds(fin: nat, fout: nat, p: nat)
    requires Admissible(fin, fout, p)
    ensures 60 <= Reached(fin, fout, p) <= fout
    ensures InRange(fin, p) ==> fout <= Reached(fin, fout, p) + 40
  {
    var fb := Feedback(fin, fout, p);
    DivBounds(fout * p, fin);
    DivAtMost(fb * fin, fout, p) by {
      assert (fout + 1) * p == fout * p + p;
    }
    assert fb * fin >= 60 * p by {
      MulMono(12, fb, fin);
    }
    DivAtLeast(fb * fin, 60, p);
    if InRange(fin, p) && fout >= 40 {
      assert (fout - 40) * p == fout * p - 40 * p;
      DivAtLeast(fb * fin, fout - 40, p);
    }
  }

  // For each pre-divider the search takes the largest feedback divider that does not overshoot.
  lemma FeedbackIsLargest(fin: nat, fout: nat, fbdiv: nat, p: nat)
    requires fin > 0 && p > 0
    ensures fbdiv * fin <= fout * p <==> fbdiv <= Feedback(fin, fout, p)
  {
    var fb := Feedback(fin, fout, p);
    DivBounds(fout * p, fin);
    if fbdiv <= fb {
      MulMono(fbdiv, fb, fin);
    } else {
      MulMono(fb + 1, fbdiv, fin);
      assert (fb + 1) * fin == fb * fin + fin;
    }
  }

  lemma OutputMono(fin: nat, low: nat, high: nat, p: nat)
    requires p > 0 && low <= high
    ensures Output(fin, low, p) <= Output(fin, high, p)
  {
    MulMono(low, high, fin);
    DivBounds(low * fin, p);
    DivAtLeast(high * fin, low * fin / p, p);
  }

  // A setting with the larger exact output has the larger output.
  lemma OutputCross(fin: nat, a: nat, q: nat, b: nat, p: nat)
    requires q > 0 && p > 0 && a * p >= b * q
    ensures Output(fin, a, q) >= Output(fin, b, p)
  {
    var k := Output(fin, b, p);
    DivBounds(b * fin, p);
    if a * fin < k * q {
      // Both sides times p: a fin p < k q p <= b fin q <= a p fin.
      MulLess(a * fin, k * q, p);
      MulMono(k * p, b * fin, q);
      MulMono(b * q, a * p, fin);
      Commute(a, fin, p);
      Commute(k, q, p);
      Commute(b, fin, q);
    }
    DivAtLeast(a * fin, k, q);
  }

  lemma MulLess(a: nat, b: nat, c: nat)
    requires a < b && c > 0
    ensures a * c < b * c
  {
  }

  lemma Commute(a: nat, b: nat, c: nat)
    ensures a * b * c == a * c * b
  {
  }

  // ------------------------------------------------------------------ the best on offer

  // A pre-divider the search passes over although it has a lower setting that would do.
  predicate Skipped(fin: nat, fout: nat, p: nat) {
    fin > 0 && InRange(fin, p) && (Feedback(fin, fout, p) == 15 || Feedback(fin, fout, p) > 511)
  }

  function Fallback(fin: nat, fout: nat, p: nat): nat
    requires Skipped(fin, fout, p)
  {
    if Feedback(fin, fout, p) == 15 then 14 else 511
  }

  // A pre-divider in range whose feedback divider the hardware accepts.
  predicate Usable(fin: nat, fout: nat, p: nat) {
    fin > 0 && InRange(fin, p) && Settable(Feedback(fin, fout, p))
  }

  lemma FeedbackIs(fin: nat, fout: nat, p: nat, fb: nat)
    requires fin > 0 && p > 0
    ensures Feedback(fin, fout, p) == fb <==> fb * fin <= fout * p < (fb + 1) * fin
  {
    FeedbackIsLargest(fin, fout, fb, p);
    FeedbackIsLargest(fin, fout, fb + 1, p);
  }

  // Common factors cancel: from lo * fin <= fout * p and fout * q < hi * fin.
  lemma Cancel(fin: nat, fout: nat, lo: nat, p: nat, hi: nat, q: nat)
    requires fin > 0 && p > 0 && lo * fin <= fout * p && fout * q < hi * fin
    ensures lo * q < hi * p
  {
    if hi * p <= lo * q {
      MulMono(hi * p, lo * q, fin);
      MulMono(lo * fin, fout * p, q);
      MulLess(fout * q, hi * fin, p);
      Commute(hi, p, fin);
      Commute(lo, q, fin);
      Commute(fout, p, q);
    }
  }

  // One pre-divider lower, the feedback divider 15 becomes at least 12.
  lemma OneLower(fin: nat, fout: nat, p: nat) returns (fb: nat)
    requires fin > 0 && p >= 5 && Feedback(fin, fout, p) == 15
    ensures fb == Feedback(fin, fout, p - 1) && 12 <= fb <= 15 && fb * p >= 14 * (p - 1)
  {
    fb := Feedback(fin, fout, p - 1);
    FeedbackIs(fin, fout, p, 15);
    FeedbackIs(fin, fout, p - 1, fb);
    assert fout * (p - 1) == fout * p - fout;
    MulMono(5, p, fout);
    FeedbackIsLargest(fin, fout, 12, p - 1);
    FeedbackIsLargest(fin, fout, 16, p - 1);
    Cancel(fin, fout, 15, p, fb + 1, p - 1);
  }

  // Twice the pre-divider makes 30 or 31 of it.
  lemma TwiceAsHigh(fin: nat, fout: nat, p: nat)
    requires fin > 0 && p > 0 && Feedback(fin, fout, p) == 15
    ensures var fb := Feedback(fin, fout, 2 * p);
      30 <= fb <= 31 && fb * p >= 14 * (2 * p)
  {
    var q := 2 * p;
    FeedbackIs(fin, fout, p, 15);
    assert fout * q == 2 * (fout * p);
    FeedbackIsLargest(fin, fout, 30, q);
    FeedbackIsLargest(fin, fout, 32, q);
    MulMono(30, Feedback(fin, fout, q), p);
  }

  // Where the search passes over 15, another pre-divider does at least as well as 14 there.
  lemma {:induction false} BetterThan14(fin: nat, fout: nat, p: nat, r: nat) returns (q: nat)
    requires fin > 0 && InRange(fin, p) && Feedback(fin, fout, p) == 15 && Usable(fin, fout, r)
    ensures Usable(fin, fout, q) && Feedback(fin, fout, q) * p >= 14 * q
    decreases p
  {
    FeedbackIs(fin, fout, p, 15);
    if 10 * p <= fin {
      q := 2 * p;
      TwiceAsHigh(fin, fout, p);
    } else if p >= 5 {
      q := p - 1;
      var fb := OneLower(fin, fout, p);
      if fb == 15 {
        q := BetterThan14(fin, fout, q, r);
        MulMonoRight(Feedback(fin, fout, q), p - 1, p);
      }
    } else {
      q := p + 1;
      FewPreDividers(fin, fout, p, r);
    }
  }

  // Of at most four pre-dividers the next one up does better than one at 15, if it is in range,
  // and if it is not then none is usable.
  lemma FewPreDividers(fin: nat, fout: nat, p: nat, r: nat)
    requires fin > 0 && 1 <= p <= 4 && InRange(fin, p) && fin < 10 * p && Usable(fin, fout, r)
    requires 15 * fin <= fout * p < 16 * fin
    ensures Usable(fin, fout, p + 1) && Feedback(fin, fout, p + 1) * p >= 14 * (p + 1)
  {
    if fin < 5 * (p + 1) {
      NoneUsable(fin, fout, p, r);
    } else {
      OneHigher(fin, fout, p);
    }
  }

  lemma OneHigher(fin: nat, fout: nat, p: nat)
    requires fin > 0 && 2 <= p <= 4 && 15 * fin <= fout * p < 16 * fin
    ensures var fb := Feedback(fin, fout, p + 1);
      18 <= fb <= 24 && fb * p >= 14 * (p + 1)
  {
    assert fout * (p + 1) == fout * p + fout;
    if p == 2 {
      FeedbackIsLargest(fin, fout, 22, 3);
      FeedbackIsLargest(fin, fout, 25, 3);
    } else if p == 3 {
      FeedbackIsLargest(fin, fout, 20, 4);
      FeedbackIsLargest(fin, fout, 25, 4);
    } else {
      FeedbackIsLargest(fin, fout, 18, 5);
      FeedbackIsLargest(fin, fout, 25, 5);
    }
  }

  lemma NoneUsable(fin: nat, fout: nat, p: nat, r: nat)
    requires fin > 0 && 1 <= p <= 4 && fin < 5 * (p + 1)
    requires 15 * fin <= fout * p < 16 * fin
    ensures !Usable(fin, fout, r)
  {
    if InRange(fin, r) {
      FeedbackIs(fin, fout, p, 15);
      if r < p {
        FeedbackIsLargest(fin, fout, 12, r);
        assert (p - 1) * 16 <= 12 * p;
        MulMono(r, p - 1, fout);
        assert fout * (p - 1) == fout * p - fout;
      }
    }
  }

  // The last pre-divider before the feedback divider exceeds 511.
  lemma LastBelow512(fin: nat, fout: nat, r: nat, p: nat) returns (q: nat)
    requires r < p && fout * r < 512 * fin <= fout * p
    ensures r <= q < p && fout * q < 512 * fin <= fout * (q + 1)
    decreases p - r
  {
    if fout * (r + 1) < 512 * fin {
      assert r + 1 != p;
      q := LastBelow512(fin, fout, r + 1, p);
    } else {
      q := r;
    }
  }

  // Where the search passes over more than 511, another pre-divider does at least as well as 511 there.
  lemma BetterThan511(fin: nat, fout: nat, p: nat, r: nat) returns (q: nat)
    requires fin > 0 && InRange(fin, p) && Feedback(fin, fout, p) > 511 && Usable(fin, fout, r)
    ensures Usable(fin, fout, q) && Feedback(fin, fout, q) * p >= 511 * q
  {
    FeedbackIsLargest(fin, fout, 512, p);
    FeedbackIsLargest(fin, fout, 512, r);
    if p <= r {
      MulMono(p, r, fout);
    }
    q := LastBelow512(fin, fout, r, p);
    JustBelow512(fin, fout, q);
    MulMonoRight(Feedback(fin, fout, q), q + 1, p);
  }

  lemma JustBelow512(fin: nat, fout: nat, q: nat)
    requires fin > 0 && q > 0 && fout * q < 512 * fin <= fout * (q + 1)
    ensures var fb := Feedback(fin, fout, q);
      256 <= fb <= 511 && fb * (q + 1) >= 511 * q
  {
    var fb := Feedback(fin, fout, q);
    FeedbackIs(fin, fout, q, fb);
    FeedbackIsLargest(fin, fout, 512, q);
    MulMono(q + 1, 2 * q, fout);
    assert fout * (2 * q) == 2 * (fout * q);
    FeedbackIsLargest(fin, fout, 256, q);
    Cancel(fin, fout, 512, q + 1, fb + 1, q);
    assert (fb + 1) * (q + 1) == fb * (q + 1) + q + 1;
  }

  lemma OfferedOutput(fin: nat, fout: nat, fbdiv: nat, p: nat)
    requires fin > 0 && Offered(fin, fout, fbdiv, p)
    ensures Usable(fin, fout, p) || Skipped(fin, fout, p)
    ensures Usable(fin, fout, p) ==> Output(fin, fbdiv, p) <= Output(fin, Feedback(fin, fout, p), p)
    ensures Skipped(fin, fout, p) ==> Output(fin, fbdiv, p) <= Output(fin, Fallback(fin, fout, p), p)
  {
    FeedbackIsLargest(fin, fout, fbdiv, p);
    if Usable(fin, fout, p) {
      OutputMono(fin, fbdiv, Feedback(fin, fout, p), p);
    } else {
      OutputMono(fin, fbdiv, Fallback(fin, fout, p), p);
    }
  }

  // Whenever anything is usable, no setting on offer beats the usable ones.
  lemma UsableIsAsGood(fin: nat, fout: nat, fbdiv: nat, p: nat, r: nat) returns (q: nat)
    requires fin > 0 && Offered(fin, fout, fbdiv, p) && Usable(fin, fout, r)
    ensures Usable(fin, fout, q) && Output(fin, fbdiv, p) <= Output(fin, Feedback(fin, fout, q), q)
  {
    OfferedOutput(fin, fout, fbdiv, p);
    if Usable(fin, fout, p) {
      q := p;
    } else if Feedback(fin, fout, p) == 15 {
      q := BetterThan14(fin, fout, p, r);
      OutputCross(fin, Feedback(fin, fout, q), q, 14, p);
    } else {
      q := BetterThan511(fin, fout, p, r);
      OutputCross(fin, Feedback(fin, fout, q), q, 511, p);
    }
  }

  ghost predicate BestOffered(fin: nat, fout: nat, reached: nat) {
    forall fbdiv, p :: Offered(fin, fout, fbdiv, p) ==> Output(fin, fbdiv, p) <= reached
  }

  /** What the search finds is the best of every setting the hardware offers at or below the target,
      not only of those the search looks at. */
  lemma ClosestIsBest(fin: nat, fout: nat, best: nat)
    requires 0 < fin <= 1274 && Closest(fin, fout, best)
    ensures BestOffered(fin, fout, Reached(fin, fout, best))
  {
    TriedIsInRange(fin, best);
    forall fbdiv, p | Offered(fin, fout, fbdiv, p)
      ensures Output(fin, fbdiv, p) <= Reached(fin, fout, best)
    {
      var q := UsableIsAsGood(fin, fout, fbdiv, p, best);
      TriedIsInRange(fin, q);
      assert Admissible(fin, fout, q) && Beats(fin, fout, best, q);
    }
  }

  // A setting on offer beats everything the search considers.
  ghost predicate Missed(fin: nat, fout: nat, fbdiv: nat, p: nat) {
    && Offered(fin, fout, fbdiv, p)
    && forall q :: Admissible(fin, fout, q) ==> Reached(fin, fout, q) < Output(fin, fbdiv, p)
  }

  /** The search misses a setting on offer exactly when no pre-divider is admissible and it passes
      over one. */
  lemma MissedExactly(fin: nat, fout: nat)
    requires 0 < fin <= 1274
    ensures (exists fbdiv, p :: Missed(fin, fout, fbdiv, p)) <==>
      (exists p :: Skipped(fin, fout, p)) && (forall q :: !Admissible(fin, fout, q))
  {
    if (exists p :: Skipped(fin, fout, p)) && (forall q :: !Admissible(fin, fout, q)) {
      var p :| Skipped(fin, fout, p);
      FeedbackIsLargest(fin, fout, Fallback(fin, fout, p), p);
      assert Missed(fin, fout, Fallback(fin, fout, p), p);
    }
    if fbdiv, p :| Missed(fin, fout, fbdiv, p) {
      forall r ensures !Admissible(fin, fout, r) {
        if Admissible(fin, fout, r) {
          TriedIsInRange(fin, r);
          var q := UsableIsAsGood(fin, fout, fbdiv, p, r);
          TriedIsInRange(fin, q);
          assert Admissible(fin, fout, q);
        }
      }
      OfferedOutput(fin, fout, fbdiv, p);
      TriedIsInRange(fin, p);
      assert Skipped(fin, fout, p) by { assert !Admissible(fin, fout, p); }
    }
  }

  /** With the usual 24 MHz reference, targets of 90 to 95 MHz find nothing, although 84 MHz is on offer. */
  lemma GapAt24MHz(fout: nat)
    requires fout <= 2 * MAX_LANE_MBPS
    ensures (exists p :: Admissible(24, fout, p)) <==> 72 <= fout && !(90 <= fout < 96)
    ensures 90 <= fout < 96 ==> Missed(24, fout, 14, 4) && Output(24, 14, 4) == 84
  {
    if p :| Admissible(24, fout, p) {
      assert p in {1, 2, 3, 4};
    }
    if 72 <= fout < 90 || 96 <= fout < 288 {
      assert Admissible(24, fout, 4);
    } else if 360 <= fout < 384 {
      assert Admissible(24, fout, 2);
    } else if 288 <= fout {
      assert Admissible(24, fout, 1);
    }
  }

  // ------------------------------------------------------------------ the search

  // No pre-divider below `bound` is admissible.
  ghost predicate NoneBelow(fin: nat, fout: nat, bound: nat) {
    forall q: nat :: q < bound ==> !Admissible(fin, fout, q)
  }

  // What one turn of the loop does with the best so far.
  lemma Considered(fin: nat, fout: nat, best: nat, p: nat)
    requires ClosestBelow(fin, fout, best, p)
    ensures !Admissible(fin, fout, p) ==> ClosestBelow(fin, fout, best, p + 1)
    ensures Admissible(fin, fout, p) ==>
      if Reached(fin, fout, p) > Reached(fin, fout, best)
      then ClosestBelow(fin, fout, p, p + 1) else ClosestBelow(fin, fout, best, p + 1)
  {
  }

  // A setting within 40 MHz below the target gives a rate within 21 MHz below the request.
  lemma WithinRequest(rate: nat, reached: nat, freq: nat)
    requires reached <= Target(rate) && freq == reached * USEC_PER_SEC / 2
    ensures freq == reached * (USEC_PER_SEC / 2) <= rate
    ensures Target(rate) <= reached + 40 && rate / USEC_PER_SEC <= MAX_LANE_MBPS ==> rate < freq + 21 * USEC_PER_SEC
  {
  }

  // The eight-bit counter, started at `low`, gets past `high` after some number of turns.
  ghost predicate Ends(low: Byte, high: Byte) {
    exists turns: nat :: Counter(low, turns) > high
  }

  function Counter(low: Byte, turns: nat): Byte { (low + turns) % 0x100 }

  /** The search loop ends if and only if its upper bound is not the counter's largest value. */
  lemma EndsUnlessFull(prate: nat)
    ensures Ends(Low(Reference(prate)), High(Reference(prate))) <==> Reference(prate) / 5 % 0x100 != 255
  {
    var low, high := Low(Reference(prate)), High(Reference(prate));
    OctetIs(Reference(prate) / 5);
    if high != 255 {
      assert Counter(low, 255 - low) == 255;
    }
  }

  /** From 1275 to 1279 and from 2555 to 2559 MHz the loop never ends. */
  lemma NeverEnds(prate: nat)
    requires 1275 <= Reference(prate) <= 1279 || 2555 <= Reference(prate) <= 2559
    ensures !Ends(Low(Reference(prate)), High(Reference(prate)))
  {
    EndsUnlessFull(prate);
  }

  /** Whatever the reference, if only the loop ends and does not divide by zero: 0 exactly when no
      pre-divider it goes through is admissible, and then the dividers stay; otherwise the first
      of the closest. Up to 1274 MHz that is the best of all settings on offer. */
  method RoundRate(prate: nat, rate: nat, oldPrediv: Byte, oldFbdiv: U16)
    returns (freq: nat, prediv: Byte, fbdiv: U16)
    requires Reference(prate) > 0 && Ends(Low(Reference(prate)), High(Reference(prate)))
    ensures freq == 0 <==> forall p: nat :: !Admissible(Reference(prate), Target(rate), p)
    ensures freq == 0 ==> prediv == oldPrediv && fbdiv == oldFbdiv
    ensures freq != 0 ==>
      var fin, fout := Reference(prate), Target(rate);
      && Closest(fin, fout, prediv)
      && fbdiv == Feedback(fin, fout, prediv)
      && freq == Reached(fin, fout, prediv) * (USEC_PER_SEC / 2) <= rate
    ensures freq != 0 && Reference(prate) <= 1274 ==>
      var fin, fout := Reference(prate), Target(rate);
      && BestOffered(fin, fout, Reached(fin, fout, prediv))
      && (rate / USEC_PER_SEC <= MAX_LANE_MBPS ==> rate < freq + 21 * USEC_PER_SEC)
  {
    EndsUnlessFull(prate);
    var fin := Reference(prate);
    var fout := Target(rate);
    prediv, fbdiv := oldPrediv, oldFbdiv;
    var best, multiplier, reached := Search(fin, fout);
    freq := reached * USEC_PER_SEC / 2;
    if reached != 0 {
      ReachedBounds(fin, fout, best);
      WithinRequest(rate, reached, freq);
      prediv, fbdiv := best, multiplier;
      if fin <= 1274 {
        TriedIsInRange(fin, best);
        ClosestIsBest(fin, fout, best);
      }
    }
  }

  // One turn of the search: the setting for one pre-divider and how far it is off.
  method Try(fin: nat, fout: nat, p: nat) returns (usable: bool, fb: nat, delta: int, tmp: nat)
    requires fin > 0 && Tried(fin, p)
    ensures usable == Admissible(fin, fout, p)
    ensures usable ==> fb == Feedback(fin, fout, p) < 512
    ensures usable ==> tmp == Reached(fin, fout, p) > 0 && delta == fout - tmp
  {
    fb, delta, tmp := Feedback(fin, fout, p), 0, 0;
    usable := !(fb == 15 || fb < 12 || fb > 511);
    if usable {
      ReachedBounds(fin, fout, p);
      tmp := Output(fin, fb, p);
      delta := if fout < tmp then tmp - fout else fout - tmp;
    }
  }

  method Search(fin: nat, fout: nat) returns (best: Byte, fbdiv: U16, reached: nat)
    requires fin > 0 && High(fin) != 255 && fout <= 2 * MAX_LANE_MBPS
    ensures reached == 0 <==> forall p: nat :: !Admissible(fin, fout, p)
    ensures reached != 0 ==> Closest(fin, fout, best) && fbdiv == Feedback(fin, fout, best)
    ensures reached != 0 ==> reached == Reached(fin, fout, best)
  {
    var minPrediv, maxPrediv := Low(fin), High(fin);
    var minDelta: int := WORD - 1;
    best, fbdiv, reached := 1, 1, 0;
    var p: Byte := minPrediv;
    while p <= maxPrediv
      invariant minPrediv <= p
      invariant reached == 0 ==> minDelta == WORD - 1 && NoneBelow(fin, fout, p)
      invariant reached != 0 ==> ClosestBelow(fin, fout, best, p) && fbdiv == Feedback(fin, fout, best)
      invariant reached != 0 ==> reached == Reached(fin, fout, best) && minDelta == fout - reached
      decreases 256 - p
    {
      if reached != 0 { Considered(fin, fout, best, p); }
      var usable, fb, delta, tmp := Try(fin, fout, p);
      if usable && delta < minDelta {
        best, fbdiv, minDelta, reached := p, fb, delta, tmp;
      }
      p := p + 1; // below 255, so the counter does not wrap
    }
  }
}
