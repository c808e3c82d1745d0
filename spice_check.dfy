/** The comparison of a simulated IV curve against an LTspice reference:
    `compare_artifact_against_LT_spice` (utilities.py:221-249), its mode
    gate and its acceptance rules.

    It does nothing unless the configured mode is "test".  The two
    maximum powers must agree within 1e-5 (absolute and relative, the
    reference's Pmax as the base).  Each reference point (V, I) is then
    accepted when the model's voltage at I OR the model's current at V
    agrees with it within 1e-4.  In pytest mode the first rejection,
    after its line is printed, fails an assertion.

    The maximum powers and the interpolated values are inputs here:
    computing them is numeric work of the circuit library and numpy. */
module SpiceCheck {
  import opened PyValues
  import opened Tolerance

  /** One reference point with the model's values interpolated at it:
      `iInterp` is the model's current at `v`, `vInterp` its voltage at `i`. */
  datatype Sample = Sample(v: real, i: real, vInterp: real, iInterp: real)

  /** A printed line. */
  datatype SpiceLine =
    | PmaxDiffers(reference: real, model: real)                  // "Difference at Pmax: ..."
    | CurveDiffers(v: real, i: real, iInterp: real)              // "Difference in IV curves at V = ..."

  /** How the call ends: `(None, None, None)` outside test mode, the
      verdict with both maximum powers, or an exception. */
  datatype SpiceOutcome = Skipped | Compared(allPass: bool, pmax1: real, pmax2: real) | SpiceRaised(error: Exception)

  datatype SpiceRun = SpiceRun(outcome: SpiceOutcome, report: seq<SpiceLine>)

  /** The tolerances: 1e-5 for Pmax, 1e-4 for the curve points. */
  const PmaxTol: real := 0.00001
  const PointTol: real := 0.0001

  predicate PmaxAgrees(pmax1: real, pmax2: real)
  {
    IsClose(pmax1, pmax2, PmaxTol, PmaxTol)
  }

  /** A point is rejected when neither interpolated value is close. */
  predicate PointFails(s: Sample)
  {
    !IsClose(s.vInterp, s.v, PointTol, PointTol) && !IsClose(s.iInterp, s.i, PointTol, PointTol)
  }

  /** The loop over the reference points so far: whether an assertion
      stopped it, whether every point passed, and the lines printed. */
  datatype Scan = Scan(halted: bool, allPass: bool, report: seq<SpiceLine>)

  function ScanPoints(samples: seq<Sample>, pytest: bool): Scan
  {
    if samples == [] then Scan(false, true, [])
    else
      var n := |samples| - 1;
      var before := ScanPoints(samples[..n], pytest);
      var s := samples[n];
      if before.halted || !PointFails(s) then before
      else Scan(pytest, false, before.report + [CurveDiffers(s.v, s.i, s.iInterp)])
  }

  /** The whole function, with the mode read from the configuration. */
  function CompareToSpice(mode: string, pmax1: real, pmax2: real, samples: seq<Sample>, pytest: bool): SpiceRun
  {
    if mode != "test" then SpiceRun(Skipped, [])
    else
      var head := if PmaxAgrees(pmax1, pmax2) then [] else [PmaxDiffers(pmax2, pmax1)];
      if !PmaxAgrees(pmax1, pmax2) && pytest then SpiceRun(SpiceRaised(AssertionError), head)
      else
        var scan := ScanPoints(samples, pytest);
        SpiceRun(if scan.halted then SpiceRaised(AssertionError)
                 else Compared(PmaxAgrees(pmax1, pmax2) && scan.allPass, pmax1, pmax2),
                 head + scan.report)
  }

  method CompareArtifactAgainstSpice(mode: string, pmax1: real, pmax2: real, samples: seq<Sample>, pytestMode: bool)
    returns (run: SpiceRun)
    ensures run == CompareToSpice(mode, pmax1, pmax2, samples, pytestMode)
  {
    if mode != "test" {
      return SpiceRun(Skipped, []);
    }
    var allPass := true;
    var report: seq<SpiceLine> := [];
    if !IsClose(pmax1, pmax2, PmaxTol, PmaxTol) {
      report := report + [PmaxDiffers(pmax2, pmax1)];
      allPass := false;
      if pytestMode {
        return SpiceRun(SpiceRaised(AssertionError), report);
      }
    }
    ghost var head := report;
    assert head == if PmaxAgrees(pmax1, pmax2) then [] else [PmaxDiffers(pmax2, pmax1)];
    for k := 0 to |samples|
      invariant !ScanPoints(samples[..k], pytestMode).halted
      invariant allPass == (PmaxAgrees(pmax1, pmax2) && ScanPoints(samples[..k], pytestMode).allPass)
      invariant report == head + ScanPoints(samples[..k], pytestMode).report
    {
      assert samples[..k + 1][..k] == samples[..k];
      var s := samples[k];
      if !IsClose(s.vInterp, s.v, PointTol, PointTol) && !IsClose(s.iInterp, s.i, PointTol, PointTol) {
        report := report + [CurveDiffers(s.v, s.i, s.iInterp)];
        allPass := false;
        if pytestMode {
          ScanHaltIsFinal(samples, k + 1);
          assert samples[..|samples|] == samples;
          return SpiceRun(SpiceRaised(AssertionError), report);
        }
      }
    }
    assert samples[..|samples|] == samples;
    return SpiceRun(Compared(allPass, pmax1, pmax2), report);
  }

  /** Once an assertion stopped the scan, later points change nothing. */
  lemma {:induction false} ScanHaltIsFinal(samples: seq<Sample>, k: nat)
    requires k <= |samples| && ScanPoints(samples[..k], true).halted
    ensures ScanPoints(samples, true) == ScanPoints(samples[..k], true)
    decreases |samples|
  {
    if k < |samples| {
      var n := |samples| - 1;
      assert samples[..n][..k] == samples[..k];
      ScanHaltIsFinal(samples[..n], k);
    } else {
      assert samples[..k] == samples;
    }
  }

  // ---------------------------------------------------------------------
  // Properties

  /** Outside test mode nothing is compared or printed. */
  lemma InactiveUnlessTestMode(mode: string, pmax1: real, pmax2: real, samples: seq<Sample>, pytest: bool)
    requires mode != "test"
    ensures CompareToSpice(mode, pmax1, pmax2, samples, pytest) == SpiceRun(Skipped, [])
  {
  }

  /** The report-mode scan never stops and passes exactly when no point
      is rejected, printing one line per rejected point. */
  lemma {:induction false} ScanVerdict(samples: seq<Sample>)
    ensures !ScanPoints(samples, false).halted
    ensures ScanPoints(samples, false).allPass <==> forall k :: 0 <= k < |samples| ==> !PointFails(samples[k])
    ensures |ScanPoints(samples, false).report| <= |samples|
    decreases |samples|
  {
    if samples != [] {
      var n := |samples| - 1;
      ScanVerdict(samples[..n]);
      assert forall k :: 0 <= k < n ==> samples[..n][k] == samples[k];
    }
  }

  /** The report-mode scan prints a line for exactly the rejected points,
      with the point's voltage, current and interpolated current. */
  lemma {:induction false} ScanReportsRejections(samples: seq<Sample>, l: SpiceLine)
    ensures l in ScanPoints(samples, false).report <==>
            exists k :: 0 <= k < |samples| && PointFails(samples[k]) && l == CurveDiffers(samples[k].v, samples[k].i, samples[k].iInterp)
    decreases |samples|
  {
    if samples != [] {
      var n := |samples| - 1;
      ScanReportsRejections(samples[..n], l);
      ScanVerdict(samples[..n]);
      if exists k :: 0 <= k < |samples| && PointFails(samples[k]) && l == CurveDiffers(samples[k].v, samples[k].i, samples[k].iInterp) {
        var k :| 0 <= k < |samples| && PointFails(samples[k]) && l == CurveDiffers(samples[k].v, samples[k].i, samples[k].iInterp);
        if k < n {
          assert samples[..n][k] == samples[k];
        }
      }
      if exists k :: 0 <= k < n && PointFails(samples[..n][k]) && l == CurveDiffers(samples[..n][k].v, samples[..n][k].i, samples[..n][k].iInterp) {
        var k :| 0 <= k < n && PointFails(samples[..n][k]) && l == CurveDiffers(samples[..n][k].v, samples[..n][k].i, samples[..n][k].iInterp);
        assert samples[..n][k] == samples[k];
      }
    }
  }

  /** In test mode the verdict is true exactly when Pmax agrees and every
      reference point is accepted by one of its two interpolations. */
  lemma SpiceVerdict(pmax1: real, pmax2: real, samples: seq<Sample>)
    ensures CompareToSpice("test", pmax1, pmax2, samples, false).outcome
         == Compared(PmaxAgrees(pmax1, pmax2) && forall k :: 0 <= k < |samples| ==> !PointFails(samples[k]), pmax1, pmax2)
  {
    ScanVerdict(samples);
  }

  /** Pytest mode fails an assertion exactly when report mode's verdict
      is false; otherwise it ends the same way. */
  lemma {:induction false} ScanPytest(samples: seq<Sample>)
    ensures ScanPoints(samples, true).halted <==> !ScanPoints(samples, false).allPass
    ensures !ScanPoints(samples, true).halted ==> ScanPoints(samples, true) == ScanPoints(samples, false)
    decreases |samples|
  {
    if samples != [] {
      ScanPytest(samples[..|samples| - 1]);
    }
  }

  lemma PytestFailsExactlyOnRejection(pmax1: real, pmax2: real, samples: seq<Sample>)
    ensures var strict := CompareToSpice("test", pmax1, pmax2, samples, true);
            var lenient := CompareToSpice("test", pmax1, pmax2, samples, false);
            && (strict.outcome.SpiceRaised? <==> lenient.outcome == Compared(false, pmax1, pmax2))
            && (strict.outcome.SpiceRaised? ==> strict.outcome.error == AssertionError)
            && (!strict.outcome.SpiceRaised? ==> strict == lenient)
  {
    ScanPytest(samples);
    ScanVerdict(samples);
  }

  /** A model that reproduces the reference exactly passes. */
  lemma IdenticalCurvePasses(pmax: real, samples: seq<Sample>)
    requires forall k :: 0 <= k < |samples| ==> samples[k].vInterp == samples[k].v && samples[k].iInterp == samples[k].i
    ensures CompareToSpice("test", pmax, pmax, samples, false) == SpiceRun(Compared(true, pmax, pmax), [])
  {
    IsCloseReflexive(pmax, PmaxTol, PmaxTol);
    forall k | 0 <= k < |samples|
      ensures !PointFails(samples[k])
    {
      IsCloseReflexive(samples[k].v, PointTol, PointTol);
    }
    ScanVerdict(samples);
    NoRejectionNoLines(samples);
  }

  lemma {:induction false} NoRejectionNoLines(samples: seq<Sample>)
    requires forall k :: 0 <= k < |samples| ==> !PointFails(samples[k])
    ensures ScanPoints(samples, false).report == []
    decreases |samples|
  {
    if samples != [] {
      var n := |samples| - 1;
      assert forall k :: 0 <= k < n ==> samples[..n][k] == samples[k];
      NoRejectionNoLines(samples[..n]);
    }
  }

  /** A point whose current misses badly is still accepted when the
      voltage matches. */
  lemma EitherInterpolationSuffices()
    ensures !PointFails(Sample(0.5, 3.0, 0.5, 2.0))
  {
  }
}
