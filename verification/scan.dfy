/** The window scan of `calc`: parameter checks, then a cursor loop that
    applies the supplied metric to each window and collects the results. */
module Scan {
  import opened Wrappers
  import opened Errors
  import opened Nucleotides
  import opened Ratios
  import opened Sliding

  /** Apply `ratio` to every window in order. The first window whose
      metric fails stops the evaluation with that failure, as a raised
      exception leaves the loop. */
  function EvalAll(ratio: Metric, ws: seq<seq<char>>): (r: Result<seq<real>, Error>)
    ensures r.Success? ==>
              |r.value| == |ws| &&
              forall j :: 0 <= j < |ws| ==> ratio(ws[j]) == Success(r.value[j])
    ensures r.Failure? ==>
              exists j :: 0 <= j < |ws| && ratio(ws[j]) == Failure(r.error) &&
                          forall i :: 0 <= i < j ==> ratio(ws[i]).Success?
    decreases |ws|
  {
    if |ws| == 0 then Success([])
    else
      match ratio(ws[0])
      case Failure(e) => Failure(e)
      case Success(v) =>
        match EvalAll(ratio, ws[1..])
        case Failure(e) => Failure(e)
        case Success(vs) => Success([v] + vs)
  }

  /** The evaluation reports the failure of the first window whose metric
      fails. */
  lemma EvalAllFirstFailure(ratio: Metric, ws: seq<seq<char>>, k: nat)
    requires k < |ws|
    requires forall i :: 0 <= i < k ==> ratio(ws[i]).Success?
    requires ratio(ws[k]).Failure?
    ensures EvalAll(ratio, ws) == Failure(ratio(ws[k]).error)
  {
  }

  /** When every window's metric is defined, the evaluation is exactly
      the series of those values. */
  lemma EvalAllDefined(ratio: Metric, ws: seq<seq<char>>, vs: seq<real>)
    requires |vs| == |ws|
    requires forall j :: 0 <= j < |ws| ==> ratio(ws[j]) == Success(vs[j])
    ensures EvalAll(ratio, ws) == Success(vs)
  {
    var r := EvalAll(ratio, ws);
    assert |r.value| == |vs|;
    forall j | 0 <= j < |vs|
      ensures r.value[j] == vs[j]
    {
      assert ratio(ws[j]) == Success(r.value[j]);
    }
    assert r.value == vs;
  }

  /** `calc` with the step check corrected: a non-positive step is refused
      as a wrong step instead of being let through. The checks come in the
      script's order; on success result k is the metric of window k, the
      slice ending at cursor `w + k * step`. */
  function Calc(s: seq<char>, w: int, step: int, ratio: Metric): (r: Result<seq<real>, Error>)
    ensures |s| < w ==> r == Failure(WrongWindowSize)
    ensures w <= |s| && (w < step || step <= 0) ==> r == Failure(WrongStep)
    ensures r.Success? ==>
              0 < step <= w <= |s| &&
              |r.value| == WindowCount(|s|, w, step) &&
              forall k :: 0 <= k < |r.value| ==>
                ratio(Windows(s, w, step)[k]) == Success(r.value[k])
    ensures r.Failure? && 0 < step <= w <= |s| ==>
              exists k :: 0 <= k < WindowCount(|s|, w, step) &&
                          ratio(Windows(s, w, step)[k]) == Failure(r.error) &&
                          forall i :: 0 <= i < k ==> ratio(Windows(s, w, step)[i]).Success?
  {
    if |s| < w then Failure(WrongWindowSize)
    else if w < step || step <= 0 then Failure(WrongStep)
    else EvalAll(ratio, Windows(s, w, step))
  }

  /** Once the checks pass, `Calc` is the evaluation of the windows. */
  lemma CalcEvaluatesWindows(s: seq<char>, w: int, step: int, ratio: Metric)
    requires 0 < step <= w <= |s|
    ensures Calc(s, w, step, ratio) == EvalAll(ratio, Windows(s, w, step))
  {
  }

  /** The loop of `calc`, run imperatively: the cursor starts at the
      window size, each pass evaluates the window ending at the cursor and
      advances the cursor by the step, and the loop stops as soon as the
      cursor reaches the end of the sequence. */
  method CalcLoop(s: seq<char>, w: int, step: int, ratio: Metric) returns (r: Result<seq<real>, Error>)
    ensures r == Calc(s, w, step, ratio)
  {
    if |s| < w {
      return Failure(WrongWindowSize);
    }
    if w < step || step <= 0 {
      return Failure(WrongStep);
    }
    ghost var ws := Windows(s, w, step);
    var ratios: seq<real> := [];
    var cur := w;
    CursorBelowLength(|s|, w, step, 0);
    while cur < |s|
      invariant cur == w + |ratios| * step
      invariant |ratios| <= |ws|
      invariant cur < |s| <==> |ratios| < |ws|
      invariant forall j :: 0 <= j < |ratios| ==> ratio(ws[j]) == Success(ratios[j])
      decreases |s| - cur
    {
      assert cur - w == |ratios| * step;
      assert s[cur - w .. cur] == ws[|ratios|];
      var v := ratio(s[cur - w .. cur]);
      if v.Failure? {
        EvalAllFirstFailure(ratio, ws, |ratios|);
        return Failure(v.error);
      }
      ratios := ratios + [v.value];
      cur := cur + step;
      assert cur == w + |ratios| * step by {
        assert |ratios| * step == (|ratios| - 1) * step + step;
      }
      CursorBelowLength(|s|, w, step, |ratios|);
    }
    EvalAllDefined(ratio, ws, ratios);
    return Success(ratios);
  }

  /** With the GC-ratio metric every window is non-empty, so a scan with
      valid parameters always succeeds, with every value in [0, 1]. */
  lemma GcRatioScanSucceeds(s: seq<char>, w: int, step: int)
    requires 0 < step <= w <= |s|
    ensures Calc(s, w, step, GcRatioFunc.Func()).Success?
    ensures forall v :: v in Calc(s, w, step, GcRatioFunc.Func()).value ==> 0.0 <= v <= 1.0
  {
    var ratio := GcRatioFunc.Func();
    var ws := Windows(s, w, step);
    var r := Calc(s, w, step, ratio);
    forall v | v in r.value
      ensures 0.0 <= v <= 1.0
    {
      var k :| 0 <= k < |r.value| && r.value[k] == v;
      assert ratio(ws[k]) == Success(v);
    }
  }

  /** State of the script's loop after a bounded number of passes: it has
      returned (a series or an error), or it is still running. */
  datatype Outcome = Done(result: Result<seq<real>, Error>) | Running

  /** The loop of `calc` as written, for at most `fuel` passes, starting
      at `cursor` with `acc` already collected. */
  function RunLoop(s: seq<char>, w: nat, step: nat, ratio: Metric,
                   cursor: nat, acc: seq<real>, fuel: nat): Outcome
    requires w <= cursor
    decreases fuel
  {
    if |s| <= cursor then Done(Success(acc))
    else if fuel == 0 then Running
    else
      match ratio(s[cursor - w .. cursor])
      case Failure(e) => Done(Failure(e))
      case Success(v) => RunLoop(s, w, step, ratio, cursor + step, acc + [v], fuel - 1)
  }

  /** The loop only ever appends: whatever it returns starts with what it
      had already collected, and it gains at most one value per pass. */
  lemma {:induction false} RunLoopKeepsCollected(s: seq<char>, w: nat, step: nat, ratio: Metric,
                                                 cursor: nat, acc: seq<real>, fuel: nat)
    requires w <= cursor
    ensures RunLoop(s, w, step, ratio, cursor, acc, fuel).Done? &&
            RunLoop(s, w, step, ratio, cursor, acc, fuel).result.Success? ==>
              acc <= RunLoop(s, w, step, ratio, cursor, acc, fuel).result.value &&
              |RunLoop(s, w, step, ratio, cursor, acc, fuel).result.value| <= |acc| + fuel
    decreases fuel
  {
    if cursor < |s| && fuel > 0 {
      var r := ratio(s[cursor - w .. cursor]);
      if r.Success? {
        RunLoopKeepsCollected(s, w, step, ratio, cursor + step, acc + [r.value], fuel - 1);
      }
    }
  }

  /** `calc` exactly as the script checks its parameters: only a step
      larger than the window is refused, so a zero step reaches the loop.
      Negative sizes are outside this model. */
  function CalcAsWritten(s: seq<char>, w: nat, step: nat, ratio: Metric, fuel: nat): (o: Outcome)
    ensures |s| < w ==> o == Done(Failure(WrongWindowSize))
    ensures w <= |s| && w < step ==> o == Done(Failure(WrongStep))
    ensures w == |s| && step <= w ==> o == Done(Success([]))
  {
    if |s| < w then Done(Failure(WrongWindowSize))
    else if w < step then Done(Failure(WrongStep))
    else RunLoop(s, w, step, ratio, w, [], fuel)
  }

  /** Series already collected, followed by the rest of the evaluation. */
  function Prepend(acc: seq<real>, r: Result<seq<real>, Error>): Result<seq<real>, Error> {
    match r
    case Success(vs) => Success(acc + vs)
    case Failure(e) => Failure(e)
  }

  lemma PrependTwice(acc: seq<real>, v: real, r: Result<seq<real>, Error>)
    ensures Prepend(acc + [v], r) == Prepend(acc, Prepend([v], r))
  {
    if r.Success? {
      assert acc + [v] + r.value == acc + ([v] + r.value);
    }
  }

  /** One step of the evaluation of the windows from the k-th on. */
  lemma EvalAllUnfold(ratio: Metric, ws: seq<seq<char>>, k: nat)
    requires k < |ws|
    ensures EvalAll(ratio, ws[k..]) ==
            match ratio(ws[k])
            case Failure(e) => Failure(e)
            case Success(v) => Prepend([v], EvalAll(ratio, ws[k + 1..]))
  {
    assert ws[k..][0] == ws[k];
    assert ws[k..][1..] == ws[k + 1..];
  }

  /** One pass of the loop as written at a cursor inside the sequence:
      it evaluates the window ending at the cursor and moves one step on. */
  lemma RunLoopPass(s: seq<char>, w: nat, step: nat, ratio: Metric,
                    cursor: nat, acc: seq<real>, fuel: nat)
    requires w <= cursor < |s|
    requires 0 < fuel
    ensures RunLoop(s, w, step, ratio, cursor, acc, fuel) ==
            match ratio(s[cursor - w .. cursor])
            case Failure(e) => Done(Failure(e))
            case Success(v) => RunLoop(s, w, step, ratio, cursor + step, acc + [v], fuel - 1)
  {
  }

  /** Past the last window the loop test fails and the loop returns what
      it has collected. */
  lemma RunLoopExit(s: seq<char>, w: nat, step: nat, ratio: Metric,
                    ws: seq<seq<char>>, cursor: nat, acc: seq<real>, fuel: nat)
    requires 0 < step <= w <= |s|
    requires ws == Windows(s, w, step)
    requires cursor == w + |ws| * step
    ensures RunLoop(s, w, step, ratio, cursor, acc, fuel) == Done(Success(acc))
  {
    CursorBelowLength(|s|, w, step, |ws|);
  }

  /** From the k-th cursor position on, the loop as written computes the
      remaining windows' metrics in order, given fuel for every remaining
      pass. */
  lemma {:induction false} RunLoopMatchesWindows(s: seq<char>, w: nat, step: nat, ratio: Metric,
                                                 ws: seq<seq<char>>, k: nat, cursor: nat,
                                                 acc: seq<real>, fuel: nat)
    requires 0 < step <= w <= |s|
    requires ws == Windows(s, w, step)
    requires k <= |ws| && cursor == w + k * step
    requires fuel >= |ws| - k
    ensures w <= cursor
    ensures RunLoop(s, w, step, ratio, cursor, acc, fuel) == Done(Prepend(acc, EvalAll(ratio, ws[k..])))
    decreases |ws| - k
  {
    if k == |ws| {
      RunLoopExit(s, w, step, ratio, ws, cursor, acc, fuel);
      assert ws[k..] == [];
      assert acc + [] == acc;
    } else {
      CursorWindow(s, w, step, k);
      RunLoopPass(s, w, step, ratio, cursor, acc, fuel);
      EvalAllUnfold(ratio, ws, k);
      match ratio(ws[k])
      case Failure(e) =>
      case Success(v) =>
        RunLoopMatchesWindows(s, w, step, ratio, ws, k + 1, cursor + step, acc + [v], fuel - 1);
        PrependTwice(acc, v, EvalAll(ratio, ws[k + 1..]));
    }
  }

  /** With a positive step the script's loop ends within |s| passes, with
      exactly the result of the corrected `Calc`: the two differ only where
      the step is zero. */
  lemma AsWrittenAgreesForPositiveStep(s: seq<char>, w: nat, step: nat, ratio: Metric, fuel: nat)
    requires 0 < step
    requires fuel >= |s|
    ensures CalcAsWritten(s, w, step, ratio, fuel) == Done(Calc(s, w, step, ratio))
  {
    if w <= |s| && step <= w {
      WindowCountBound(|s|, w, step);
      var ws := Windows(s, w, step);
      RunLoopMatchesWindows(s, w, step, ratio, ws, 0, w, [], fuel);
      assert ws[0..] == ws;
      match EvalAll(ratio, ws)
      case Failure(e) =>
      case Success(vs) =>
        assert [] + vs == vs;
    }
  }

  /** With a zero step the cursor never moves: once the first window's
      metric is defined, the loop as written never returns. */
  lemma {:induction false} RunLoopStuck(s: seq<char>, w: nat, ratio: Metric, acc: seq<real>, fuel: nat)
    requires w < |s|
    requires ratio(s[..w]).Success?
    ensures RunLoop(s, w, 0, ratio, w, acc, fuel) == Running
    decreases fuel
  {
    assert s[w - w .. w] == s[..w];
    if fuel > 0 {
      RunLoopStuck(s, w, ratio, acc + [ratio(s[..w]).value], fuel - 1);
    }
  }

  /** The script accepts a zero step when the window is shorter than the
      sequence and, once the first window's metric is defined, never
      returns, however many passes it is given; the corrected `Calc`
      refuses the same call. */
  lemma StepZeroHangs(s: seq<char>, w: nat, ratio: Metric, fuel: nat)
    requires w < |s|
    requires ratio(s[..w]).Success?
    ensures CalcAsWritten(s, w, 0, ratio, fuel) == Running
    ensures Calc(s, w, 0, ratio) == Failure(WrongStep)
  {
    RunLoopStuck(s, w, ratio, [], fuel);
  }

  /** A concrete instance: "ACGTA" with window 4 and step 0. */
  lemma StepZeroExample(fuel: nat)
    ensures CalcAsWritten("ACGTA", 4, 0, GcRatioFunc.Func(), fuel) == Running
    ensures Calc("ACGTA", 4, 0, GcRatioFunc.Func()) == Failure(WrongStep)
  {
    StepZeroHangs("ACGTA", 4, GcRatioFunc.Func(), fuel);
  }

  /** A window spanning the whole sequence is never evaluated: the loop
      test is strict, so the result is empty. */
  lemma FullWindowGivesNothing(s: seq<char>, step: int, ratio: Metric)
    requires 0 < step <= |s|
    ensures Calc(s, |s|, step, ratio) == Success([])
  {
    CursorBelowLength(|s|, |s|, step, 0);
  }

  /** "ACGTACGTAC" with window 4 and step 2 visits cursors 4, 6 and 8 and
      stops at 10, so it evaluates three windows; the window "CGTA" ending
      at 10 is not among them. */
  lemma ExampleWindows()
    ensures Windows("ACGTACGTAC", 4, 2) == ["ACGT", "GTAC", "ACGT"]
  {
    var ws := Windows("ACGTACGTAC", 4, 2);
    assert |ws| == 3;
    assert ws[0] == "ACGT" && ws[1] == "GTAC" && ws[2] == "ACGT";
  }

  /** Each of those windows holds one G and one C among four symbols. */
  lemma ExampleGcCount(w: seq<char>)
    requires w == "ACGT" || w == "GTAC"
    ensures |w| == 4 && GcCount(w) == 2
  {
    if w == "ACGT" {
      assert multiset(w) == multiset{'A', 'C', 'G', 'T'};
    } else {
      assert multiset(w) == multiset{'G', 'T', 'A', 'C'};
    }
  }

  /** Each of those windows has GC ratio one half. */
  lemma ExampleHalf(w: seq<char>)
    requires w == "ACGT" || w == "GTAC"
    ensures GcRatioFunc.Func()(w) == Success(0.5)
  {
    ExampleGcCount(w);
    var r := GcRatio(w);
    assert r * 4.0 == 2.0;
  }

  /** The scan of "ACGTACGTAC" with window 4 and step 2, for any metric
      that gives one half on "ACGT" and on "GTAC". */
  lemma ExampleScan(ratio: Metric)
    requires ratio("ACGT") == Success(0.5) && ratio("GTAC") == Success(0.5)
    ensures Calc("ACGTACGTAC", 4, 2, ratio) == Success([0.5, 0.5, 0.5])
  {
    var ws: seq<seq<char>> := ["ACGT", "GTAC", "ACGT"];
    assert Windows("ACGTACGTAC", 4, 2) == ws by {
      ExampleWindows();
    }
    assert EvalAll(ratio, ws) == Success([0.5, 0.5, 0.5]) by {
      assert forall j :: 0 <= j < 3 ==> ratio(ws[j]) == Success(0.5);
      EvalAllDefined(ratio, ws, [0.5, 0.5, 0.5]);
    }
    CalcEvaluatesWindows("ACGTACGTAC", 4, 2, ratio);
  }

  /** The whole scan of "ACGTACGTAC" with window 4 and step 2 under the
      GC-ratio metric: exactly three results, all one half. */
  lemma ExampleThreeWindows()
    ensures Calc("ACGTACGTAC", 4, 2, GcRatioFunc.Func()) == Success([0.5, 0.5, 0.5])
  {
    ExampleHalf("ACGT");
    ExampleHalf("GTAC");
    ExampleScan(GcRatioFunc.Func());
  }

  /** With the GC-skew metric a scan with valid parameters succeeds exactly
      when every window evaluated holds at least one G or C; otherwise it
      fails with the division by zero. */
  lemma GcSkewScanDefined(s: seq<char>, w: int, step: int)
    requires 0 < step <= w <= |s|
    ensures Calc(s, w, step, GcSkewFunc.Func()).Success? <==>
            forall k :: 0 <= k < WindowCount(|s|, w, step) ==> GcCount(Windows(s, w, step)[k]) > 0
    ensures Calc(s, w, step, GcSkewFunc.Func()).Failure? ==>
            Calc(s, w, step, GcSkewFunc.Func()).error == ZeroDivision
  {
    var ratio := GcSkewFunc.Func();
    var ws := Windows(s, w, step);
    var r := Calc(s, w, step, ratio);
    if r.Failure? {
      var k :| 0 <= k < |ws| && ratio(ws[k]) == Failure(r.error);
      assert GcCount(ws[k]) == 0;
    } else {
      forall k | 0 <= k < |ws|
        ensures GcCount(ws[k]) > 0
      {
        assert ratio(ws[k]).Success?;
      }
    }
  }

  /** With a zero step and a first window whose metric is undefined, the
      script raises on its first pass instead of hanging, while the
      corrected `Calc` refuses the call as a wrong step. */
  lemma StepZeroRaises(s: seq<char>, w: nat, ratio: Metric, fuel: nat)
    requires w < |s|
    requires ratio(s[..w]).Failure?
    requires 0 < fuel
    ensures CalcAsWritten(s, w, 0, ratio, fuel) == Done(Failure(ratio(s[..w]).error))
    ensures Calc(s, w, 0, ratio) == Failure(WrongStep)
  {
    assert s[w - w .. w] == s[..w];
  }

  /** Concrete instances: "AAAAA" with window 4 and step 0 under the skew,
      and "A" with window 0 and step 0 under the ratio, both divide by
      zero on the first pass. */
  lemma StepZeroRaisesExamples(fuel: nat)
    requires 0 < fuel
    ensures CalcAsWritten("AAAAA", 4, 0, GcSkewFunc.Func(), fuel) == Done(Failure(ZeroDivision))
    ensures CalcAsWritten("A", 0, 0, GcRatioFunc.Func(), fuel) == Done(Failure(ZeroDivision))
  {
    assert "AAAAA"[..4] == "AAAA";
    assert multiset("AAAA") == multiset{'A', 'A', 'A', 'A'};
    assert GcCount("AAAA") == 0;
    StepZeroRaises("AAAAA", 4, GcSkewFunc.Func(), fuel);
    StepZeroRaises("A", 0, GcRatioFunc.Func(), fuel);
  }
}
