/** The index and parameter arithmetic of scripts/visualize_ship_landing.py:
    which part of the trajectory show_plot draws per segment, where
    compute_best_position places the holding point, and which prefixes
    live_replay draws. Plotting, trigonometry and file reading are left to
    parameters or out. */
module ShipLandingPlot {
  import opened Wrappers
  import opened ManeuverConstants

  function Min(a: nat, b: nat): nat
  {
    if a < b then a else b
  }

  /*************************
   * show_plot
   *************************/

  /** Python's `a[b:e]` for non-negative bounds: both clamp to the length and
      an empty slice results when the end is not after the start. */
  function PySlice<T>(a: seq<T>, b: nat, e: nat): (r: seq<T>)
    ensures |r| == (if Min(e, |a|) > Min(b, |a|) then Min(e, |a|) - Min(b, |a|) else 0)
    ensures forall i :: 0 <= i < |r| ==> b + i < |a| && r[i] == a[b + i]
  {
    var lo := Min(b, |a|);
    var hi := Min(e, |a|);
    if hi > lo then a[lo..hi] else []
  }

  /** A skipped-entries count of 0 is read as 1: the trace was not thinned. */
  function Stride(skipped: nat): (k: nat)
    ensures k >= 1
    ensures skipped > 0 ==> k == skipped
    ensures skipped == 0 ==> k == 1
  {
    if skipped == 0 then 1 else skipped
  }

  /** Where segment i starts, in thinned indices: 0 for the first, one past
      the previous boundary otherwise. */
  function SegStart(segments: seq<nat>, i: nat): nat
    requires i <= |segments|
  {
    if i == 0 then 0 else segments[i - 1] + 1
  }

  /** The slice bounds of the pieces show_plot draws: start and boundary of
      each segment, scaled back to the full trace. */
  function PieceBounds(segments: seq<nat>, k: nat): (r: seq<(nat, nat)>)
    ensures |r| == |segments|
  {
    seq(|segments|, i requires 0 <= i < |segments| => (SegStart(segments, i) * k, segments[i] * k))
  }

  /** The start of the trailing piece, as written: the last segment start,
      not scaled. */
  function AsWrittenTail(segments: seq<nat>): nat
  {
    SegStart(segments, |segments|)
  }

  /** The start of the trailing piece, scaled like the other pieces. */
  function IntendedTail(segments: seq<nat>, k: nat): nat
  {
    SegStart(segments, |segments|) * k
  }

  /** The loop of show_plot drawing one trajectory (the x, y and z arrays are
      sliced alike); the plotting calls and the legend are left out. */
  method ShowPlotPieces<T>(traj: seq<T>, segments: seq<nat>, skipped: nat)
    returns (pieces: seq<seq<T>>, tail: seq<T>)
    ensures |pieces| == |segments|
    ensures forall i :: 0 <= i < |segments| ==>
              pieces[i] == PySlice(traj, PieceBounds(segments, Stride(skipped))[i].0,
                                   PieceBounds(segments, Stride(skipped))[i].1)
    ensures tail == PySlice(traj, AsWrittenTail(segments), |traj|)
  {
    var segmentStart: nat := 0;
    var k := if skipped == 0 then 1 else skipped;
    assert k == Stride(skipped);
    pieces := [];
    for i := 0 to |segments|
      invariant segmentStart == SegStart(segments, i)
      invariant |pieces| == i
      invariant forall j :: 0 <= j < i ==>
                  pieces[j] == PySlice(traj, PieceBounds(segments, k)[j].0, PieceBounds(segments, k)[j].1)
    {
      var beginning := segmentStart * k;
      var end := segments[i] * k;
      assert PieceBounds(segments, k)[i] == (beginning, end);
      pieces := pieces + [PySlice(traj, beginning, end)];
      segmentStart := segments[i] + 1;
    }
    tail := PySlice(traj, segmentStart, |traj|);
  }

  lemma MulMono(a: nat, b: nat, k: nat)
    requires a <= b
    ensures a * k <= b * k
  {
  }

  /** Boundaries that grow strictly, as the segmentation produces them. */
  predicate Increasing(segments: seq<nat>)
  {
    forall i, j :: 0 <= i < j < |segments| ==> segments[i] < segments[j]
  }

  /** With increasing boundaries the pieces come in order, do not overlap,
      and k samples lie between one piece's end and the next one's start. */
  lemma PiecesOrdered(segments: seq<nat>, k: nat)
    requires Increasing(segments) && k >= 1
    ensures var b := PieceBounds(segments, k);
            (forall i :: 0 <= i < |b| ==> b[i].0 <= b[i].1) &&
            (forall i :: 0 < i < |b| ==> b[i].0 == b[i - 1].1 + k)
  {
    var b := PieceBounds(segments, k);
    forall i | 0 <= i < |b|
      ensures b[i].0 <= b[i].1
    {
      if i > 0 {
        MulMono(segments[i - 1] + 1, segments[i], k);
      }
    }
  }

  /** The scaled tail starts after every piece. */
  lemma IntendedTailAfter(segments: seq<nat>, k: nat)
    requires Increasing(segments) && k >= 1
    ensures forall i :: 0 <= i < |segments| ==> PieceBounds(segments, k)[i].1 < IntendedTail(segments, k)
  {
    forall i | 0 <= i < |segments|
      ensures PieceBounds(segments, k)[i].1 < IntendedTail(segments, k)
    {
      MulMono(segments[i] + 1, segments[|segments| - 1] + 1, k);
    }
  }

  /** As written, once samples were skipped the tail starts inside the last
      piece, so part of the trajectory is drawn twice. */
  lemma AsWrittenTailOverlaps(segments: seq<nat>, k: nat)
    requires |segments| > 0 && k >= 2 && segments[|segments| - 1] >= 2
    ensures AsWrittenTail(segments) < PieceBounds(segments, k)[|segments| - 1].1
  {
    var s := segments[|segments| - 1];
    MulMono(2, k, s);
  }

  /** The two tails agree exactly when nothing was skipped (or no sample
      precedes the tail). */
  lemma TailsAgreeUnthinned(segments: seq<nat>)
    ensures AsWrittenTail(segments) == IntendedTail(segments, Stride(0))
  {
  }

  /** boundary 10 with 5 skipped entries over 100 samples: the loop draws
      samples 0..49 and the tail again from sample 11. */
  lemma TailOverlapExample()
    ensures PieceBounds([10], Stride(5))[0] == (0, 50)
    ensures AsWrittenTail([10]) == 11 && IntendedTail([10], Stride(5)) == 55
  {
  }

  /*************************
   * compute_best_position
   *************************/

  /** The holding point relative to the ship: angle to its heading, distance
      behind it and height above it. */
  datatype Placement = Placement(angle: real, behind: real, above: real)

  /** Python's truth value of a string. */
  predicate Truthy(s: string)
  {
    |s| > 0
  }

  /** The if-chain of compute_best_position; None where it would print
      "Unknown maneuver!" and exit. The fourth test is the string "Oblique"
      itself, which is always true. */
  function BestPlacement(behavior: string): Option<Placement>
  {
    if behavior == "Lateral" then Some(Placement(90.0, 20.0, 20.0))
    else if behavior == "45Deg" then Some(Placement(135.0, 30.0, 20.0))
    else if behavior == "Straight" then Some(Placement(180.0, 20.0, 20.0))
    else if Truthy("Oblique") then Some(Placement(135.0, 30.0, 20.0))
    else None
  }

  /** The exit branch is unreachable: every behaviour other than Lateral,
      45Deg and Straight gets the oblique placement. */
  lemma BestPlacementTotal(behavior: string)
    ensures BestPlacement(behavior).Some?
    ensures behavior != "Lateral" && behavior != "45Deg" && behavior != "Straight" ==>
            BestPlacement(behavior) == BestPlacement("Oblique")
  {
    assert Truthy("Oblique") by {
      assert |"Oblique"| == 7;
    }
  }

  /** The script's placements agree with the maneuver constants of the
      monitor: angle, distance and height for each of the four. */
  lemma PlacementMatchesConstants()
    ensures BestPlacement("Lateral") ==
            Some(Placement(LateralValue(LateralAngleToShip), LateralValue(LateralDistanceToShip),
                           LateralValue(LateralHeightAboveShip)))
    ensures BestPlacement("45Deg") ==
            Some(Placement(Deg45Value(Deg45AngleToShip), Deg45Value(Deg45DistanceToShip),
                           Deg45Value(Deg45HeightAboveShip)))
    ensures BestPlacement("Straight") ==
            Some(Placement(StraightValue(StraightAngleToShip), StraightValue(StraightDistanceToShip),
                           StraightValue(StraightHeightAboveShip)))
    ensures BestPlacement("Oblique") ==
            Some(Placement(ObliqueValue(ObliqueAngleToShip), ObliqueValue(ObliqueDistanceToShip),
                           ObliqueValue(ObliqueHeightAboveShip)))
  {
    BestPlacementTotal("Oblique");
  }

  /** compute_best_position: one heading offset per ship sample, then the
      ship's track moved by the placement. `radians`, `cos` and `sin` are
      parameters. */
  method ComputeBestPosition(behavior: string, xs: seq<real>, ys: seq<real>, zs: seq<real>, hs: seq<real>,
                             radians: real -> real, cos: real -> real, sin: real -> real)
    returns (px: seq<real>, py: seq<real>, pz: seq<real>)
    requires |xs| == |hs| && |ys| == |hs| && |zs| == |hs|
    ensures var p := BestPlacement(behavior).value;
            |px| == |hs| && |py| == |hs| && |pz| == |hs| &&
            forall i :: 0 <= i < |hs| ==>
              px[i] == xs[i] + p.behind * cos(radians(p.angle) + hs[i]) &&
              py[i] == ys[i] + p.behind * sin(radians(p.angle) + hs[i]) &&
              pz[i] == zs[i] + 20.0
  {
    BestPlacementTotal(behavior);
    var p := BestPlacement(behavior).value;
    var headingX: seq<real> := [];
    var headingY: seq<real> := [];
    for i := 0 to |hs|
      invariant |headingX| == i && |headingY| == i
      invariant forall j :: 0 <= j < i ==>
                  headingX[j] == cos(radians(p.angle) + hs[j]) && headingY[j] == sin(radians(p.angle) + hs[j])
    {
      var angleWithHeading := radians(p.angle) + hs[i];
      headingX := headingX + [cos(angleWithHeading)];
      headingY := headingY + [sin(angleWithHeading)];
    }
    px := seq(|hs|, i requires 0 <= i < |hs| => xs[i] + p.behind * headingX[i]);
    py := seq(|hs|, i requires 0 <= i < |hs| => ys[i] + p.behind * headingY[i]);
    pz := seq(|hs|, i requires 0 <= i < |hs| => zs[i] + p.above);
  }

  /*************************
   * live_replay
   *************************/

  /** Python's int() of a float: truncation toward zero. */
  function Trunc(x: real): (r: int)
    ensures x >= 0.0 ==> r as real <= x < r as real + 1.0
    ensures x < 0.0 ==> r as real - 1.0 < x <= r as real
  {
    if x >= 0.0 then x.Floor else -((-x).Floor)
  }

  /** The step of the replay; None where the division by the log frequency
      raises, which ends the replay. */
  function NumberEvents(sampleTime: real, frequencyLogs: real, speedUp: real): (r: Option<int>)
    ensures r.None? <==> frequencyLogs == 0.0
  {
    if frequencyLogs == 0.0 then None else Some(Trunc(sampleTime / frequencyLogs * speedUp))
  }

  /** The prefix lengths drawn from current step `cur` on; the iteration that
      finds the step past the ship's trace is the last one. */
  function ReplayFrom(cur: nat, events: nat, lenUas: nat, lenShip: nat): seq<nat>
    requires events > 0
    decreases if cur <= lenShip then lenShip + 1 - cur else 0
  {
    [Min(cur, lenUas)] + (if cur > lenShip then [] else ReplayFrom(cur + events, events, lenUas, lenShip))
  }

  lemma MulSucc(n: nat, e: nat)
    ensures e + n * e == (n + 1) * e
  {
  }

  /** The n-th drawn prefix is min(cur + n * events, len(uas)); all steps but
      the last are within the ship's trace, and the last is past it. */
  lemma {:induction false} ReplayFromShape(cur: nat, events: nat, lenUas: nat, lenShip: nat)
    requires events > 0
    ensures var r := ReplayFrom(cur, events, lenUas, lenShip);
            |r| >= 1 &&
            (forall n :: 0 <= n < |r| ==> r[n] == Min(cur + n * events, lenUas)) &&
            cur + (|r| - 1) * events > lenShip &&
            (|r| >= 2 ==> cur + (|r| - 2) * events <= lenShip)
    decreases if cur <= lenShip then lenShip + 1 - cur else 0
  {
    var r := ReplayFrom(cur, events, lenUas, lenShip);
    if cur <= lenShip {
      var c := cur + events;
      ReplayFromShape(c, events, lenUas, lenShip);
      var t := ReplayFrom(c, events, lenUas, lenShip);
      assert r == [Min(cur, lenUas)] + t;
      forall n | 0 < n < |r|
        ensures r[n] == Min(cur + n * events, lenUas)
      {
        assert r[n] == t[n - 1];
        MulSucc(n - 1, events);
      }
      MulSucc(|t| - 1, events);
      if |t| >= 2 {
        MulSucc(|t| - 2, events);
      }
    } else {
      assert r == [Min(cur, lenUas)];
    }
  }

  /** The drawn prefixes never exceed the UAS trace and never shrink. */
  lemma ReplayMonotone(events: nat, lenUas: nat, lenShip: nat)
    requires events > 0
    ensures var r := ReplayFrom(0, events, lenUas, lenShip);
            forall n, m :: 0 <= n <= m < |r| ==> r[n] <= r[m] <= lenUas
  {
    ReplayFromShape(0, events, lenUas, lenShip);
    var r := ReplayFrom(0, events, lenUas, lenShip);
    forall n, m | 0 <= n <= m < |r|
      ensures r[n] <= r[m] <= lenUas
    {
      MulMono(n, m, events);
    }
  }

  /** The loop of live_replay with a positive step: the prefix lengths it
      draws. Drawing and the pause are left out. */
  method LiveReplay(events: int, lenUas: nat, lenShip: nat) returns (steps: seq<nat>)
    requires events > 0
    ensures steps == ReplayFrom(0, events, lenUas, lenShip)
  {
    var currentStep: nat := 0;
    steps := [];
    while true
      invariant steps + ReplayFrom(currentStep, events, lenUas, lenShip) == ReplayFrom(0, events, lenUas, lenShip)
      decreases if currentStep <= lenShip then lenShip + 1 - currentStep else 0
    {
      var step := Min(currentStep, lenUas);
      assert ReplayFrom(currentStep, events, lenUas, lenShip) ==
             [step] + (if currentStep > lenShip then [] else ReplayFrom(currentStep + events, events, lenUas, lenShip));
      assert steps + [step] + ReplayFrom(currentStep + events, events, lenUas, lenShip) ==
             steps + ([step] + ReplayFrom(currentStep + events, events, lenUas, lenShip));
      steps := steps + [step];
      if currentStep > lenShip {
        assert steps == ReplayFrom(0, events, lenUas, lenShip);
        break;
      }
      currentStep := currentStep + events;
    }
  }
}
