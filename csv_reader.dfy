/** The trace reader and the subsampling heuristic of src/csv_reader.rs.

    A CSV record is modelled by the text of the selected column, None when the
    record has no such field; parsing text as f32 is a parameter. Opening the
    file and locating the column in the header are left out. */
module CsvReader {
  import opened Wrappers
  import opened ExtReal
  import opened Stl
  import opened StlEval
  import opened TbtTree

  /*************************
   * read_csv_file
   *************************/

  /** The column texts of the records that have the column, in order. */
  function Present(recs: seq<Option<string>>): (r: seq<string>)
    ensures |r| <= |recs|
  {
    if |recs| == 0 then []
    else Present(recs[..|recs| - 1]) + (if recs[|recs| - 1].Some? then [recs[|recs| - 1].value] else [])
  }

  /** The position of the j-th present record within its stride of k:
      0, 1, ..., k - 1, 0, 1, ... */
  function Phase(j: nat, k: nat): (r: nat)
    requires k >= 1
    ensures r < k
  {
    if j == 0 then 0
    else if Phase(j - 1, k) == k - 1 then 0 else Phase(j - 1, k) + 1
  }

  /** The elements at phase 0, that is positions 0, k, 2k, ... */
  function Picked<T>(s: seq<T>, k: nat): seq<T>
    requires k >= 1
  {
    if |s| == 0 then []
    else Picked(s[..|s| - 1], k) + (if Phase(|s| - 1, k) == 0 then [s[|s| - 1]] else [])
  }

  /** The values that parse, in order; the others are dropped. */
  function Parsed(s: seq<string>, parse: string -> Option<Ext>): seq<Ext>
  {
    if |s| == 0 then []
    else Parsed(s[..|s| - 1], parse) + (if parse(s[|s| - 1]).Some? then [parse(s[|s| - 1]).value] else [])
  }

  /** A stride of 0 keeps every record, like a stride of 1. */
  function Stride(k: nat): nat
  {
    if k == 0 then 1 else k
  }

  /** The trace read_csv_file returns: the present values at positions
      0, k, 2k, ... among the records having the column, those that parse. */
  function ReadColumn(recs: seq<Option<string>>, k: nat, parse: string -> Option<Ext>): seq<Ext>
  {
    Parsed(Picked(Present(recs), Stride(k)), parse)
  }

  /** Without subsampling every present record that parses is kept. */
  lemma {:induction false} PickedOne<T>(s: seq<T>)
    ensures Picked(s, 1) == s
  {
    if |s| > 0 {
      PickedOne(s[..|s| - 1]);
    }
  }

  /** Picked holds ceil(|s| / k) elements, the i-th being s[i * k]: the last
      position sits Phase(|s| - 1, k) after the last multiple of k. */
  lemma PickedAt<T>(s: seq<T>, k: nat)
    requires k >= 1
    ensures |Picked(s, k)| == 0 <==> |s| == 0
    ensures |s| > 0 ==> |s| - 1 == (|Picked(s, k)| - 1) * k + Phase(|s| - 1, k)
    ensures forall i :: 0 <= i < |Picked(s, k)| ==> i * k < |s| && Picked(s, k)[i] == s[i * k]
  {
    PickedLength(s, k);
    PickedIndex(s, k);
  }

  lemma {:induction false} PickedLength<T>(s: seq<T>, k: nat)
    requires k >= 1
    ensures |Picked(s, k)| == 0 <==> |s| == 0
    ensures |s| > 0 ==> |s| - 1 == (|Picked(s, k)| - 1) * k + Phase(|s| - 1, k)
  {
    if |s| > 0 {
      var p := s[..|s| - 1];
      var j := |s| - 1;
      PickedLength(p, k);
      var m := |Picked(p, k)|;
      if j > 0 {
        MulStep(m - 1, k);
      }
    }
  }

  lemma {:induction false} PickedIndex<T>(s: seq<T>, k: nat)
    requires k >= 1
    ensures forall i :: 0 <= i < |Picked(s, k)| ==> i * k < |s| && Picked(s, k)[i] == s[i * k]
  {
    if |s| > 0 {
      var p := s[..|s| - 1];
      var j := |s| - 1;
      PickedIndex(p, k);
      PickedLength(s, k);
      var m := |Picked(p, k)|;
      assert Picked(s, k) == Picked(p, k) + (if Phase(j, k) == 0 then [s[j]] else []);
      forall i | 0 <= i < |Picked(s, k)|
        ensures i * k < |s| && Picked(s, k)[i] == s[i * k]
      {
        MulMono(i, |Picked(s, k)| - 1, k);
        if i < m {
          assert Picked(s, k)[i] == Picked(p, k)[i];
        } else {
          assert Picked(s, k)[i] == s[j];
        }
      }
    }
  }

  lemma MulStep(m: int, k: int)
    ensures m * k + k == (m + 1) * k
  {
  }

  lemma MulMono(i: nat, n: nat, k: nat)
    requires i <= n
    ensures i * k <= n * k
  {
  }

  /** ceil(|s| / k) without division: k * (|Picked| - 1) < |s| <= k * |Picked|. */
  lemma PickedCount<T>(s: seq<T>, k: nat)
    requires k >= 1
    ensures (|Picked(s, k)| - 1) * k < |s| <= |Picked(s, k)| * k
  {
    PickedAt(s, k);
    if |s| > 0 {
      assert (|Picked(s, k)| - 1) * k + k == |Picked(s, k)| * k;
    }
  }

  /** The entries kept by read_csv_file: the counter starts at k - 1 (0 when
      k is 0); a present record is selected when k is 0 or the counter is
      k - 1, which resets the counter even when the text does not parse; any
      other present record raises the counter; a record without the column
      leaves it alone. */
  method ReadCsvColumn(recs: seq<Option<string>>, k: nat, parse: string -> Option<Ext>) returns (trace: seq<Ext>)
    ensures trace == ReadColumn(recs, k, parse)
  {
    trace := [];
    var counter := if k == 0 then k else k - 1;
    ghost var present: seq<string> := [];
    for n := 0 to |recs|
      invariant present == Present(recs[..n])
      invariant trace == Parsed(Picked(present, Stride(k)), parse)
      invariant k >= 1 ==> counter == if |present| == 0 then k - 1 else Phase(|present| - 1, k)
    {
      assert recs[..n + 1][..n] == recs[..n];
      if recs[n].Some? {
        var text := recs[n].value;
        ghost var picked := Picked(present, Stride(k));
        assert (present + [text])[..|present|] == present;
        assert Picked(present + [text], Stride(k)) ==
               picked + (if Phase(|present|, Stride(k)) == 0 then [text] else []);
        if k == 0 || counter == k - 1 {
          assert Phase(|present|, Stride(k)) == 0;
          counter := 0;
          var v := parse(text);
          assert (picked + [text])[..|picked|] == picked;
          assert Parsed(picked + [text], parse) == Parsed(picked, parse) + (if v.Some? then [v.value] else []);
          if v.Some? {
            trace := trace + [v.value];
          }
        } else {
          assert Phase(|present|, Stride(k)) != 0;
          counter := counter + 1;
          assert picked + [] == picked;
        }
        present := present + [text];
      }
    }
    assert recs[..|recs|] == recs;
  }

  /** With k at most 1 every present value that parses is kept, in order. */
  lemma ReadColumnAll(recs: seq<Option<string>>, k: nat, parse: string -> Option<Ext>)
    requires k <= 1
    ensures ReadColumn(recs, k, parse) == Parsed(Present(recs), parse)
  {
    PickedOne(Present(recs));
  }

  /** When every value parses, nothing is dropped. */
  lemma {:induction false} ParsedAll(s: seq<string>, parse: string -> Option<Ext>)
    requires forall j :: 0 <= j < |s| ==> parse(s[j]).Some?
    ensures |Parsed(s, parse)| == |s| && forall j :: 0 <= j < |s| ==> Parsed(s, parse)[j] == parse(s[j]).value
  {
    if |s| > 0 {
      var p := s[..|s| - 1];
      assert forall j :: 0 <= j < |p| ==> p[j] == s[j];
      ParsedAll(p, parse);
    }
  }

  /** When every selected value parses, the trace holds exactly the values of
      the present records at positions 0, k, 2k, ... */
  lemma ReadColumnStrided(recs: seq<Option<string>>, k: nat, parse: string -> Option<Ext>)
    requires k >= 1
    requires forall j :: 0 <= j < |Present(recs)| ==> parse(Present(recs)[j]).Some?
    ensures var tr := ReadColumn(recs, k, parse);
            (|tr| - 1) * k < |Present(recs)| <= |tr| * k &&
            forall i :: 0 <= i < |tr| ==> i * k < |Present(recs)| && tr[i] == parse(Present(recs)[i * k]).value
  {
    var p := Present(recs);
    PickedAt(p, k);
    PickedCount(p, k);
    ParsedAll(Picked(p, k), parse);
  }

  /*************************
   * get_best_number_skipped
   *************************/

  /** `v >= 0.0` for the positive streaks, `v < 0.0` for the negative ones. */
  predicate OnSide(v: Ext, pos: bool)
  {
    if pos then !IsNeg(v) else IsNeg(v)
  }

  /** The number of samples at the end of s that lie on the side. */
  function Trail(s: seq<Ext>, pos: bool): (r: nat)
    ensures r <= |s|
  {
    if |s| == 0 || !OnSide(s[|s| - 1], pos) then 0 else 1 + Trail(s[..|s| - 1], pos)
  }

  /** Sample b closes a run of the side: it lies off the side and the sample
      before it on it. The run is the Trail(s[..b], pos) samples before b. */
  predicate Closes(s: seq<Ext>, pos: bool, b: nat)
  {
    b < |s| && !OnSide(s[b], pos) && Trail(s[..b], pos) > 0
  }

  type Range = (Ext, Ext)

  /** f32::MAX and f32::MIN, the initial (min, max) of an empty range. */
  const F32Max: Ext := Fin(340282346638528859811704183484516925440.0)
  const F32Min: Ext := Fin(-340282346638528859811704183484516925440.0)

  /** (min, max) of the non-negative samples of s, starting from
      (f32::MAX, f32::MIN). The source never resets it between runs. */
  function PosRange(s: seq<Ext>): Range
  {
    if |s| == 0 then (F32Max, F32Min)
    else
      var p := PosRange(s[..|s| - 1]);
      var v := s[|s| - 1];
      if !IsNeg(v) then (Min(p.0, v), Max(p.1, v)) else p
  }

  /** A shortest streak: its length (None where the source keeps usize::MAX)
      and the range recorded with it. */
  datatype Streak = Streak(len: Option<nat>, dif: Range)

  /** Strictly below, None standing for usize::MAX. */
  predicate Shorter(n: Option<nat>, m: Option<nat>)
  {
    n.Some? && (m.None? || n.value < m.value)
  }

  /** The shortest run of the side closed before sample i; the first such
      run wins, and its range is PosRange up to and including its closing
      sample (both sides record pos_interval_values). */
  function Shortest(s: seq<Ext>, pos: bool, i: nat): (r: Streak)
    requires i <= |s|
    ensures r.len.Some? ==> r.len.value >= 1
  {
    if i == 0 then Streak(None, (F32Max, F32Min))
    else
      var st := Shortest(s, pos, i - 1);
      var b := i - 1;
      if Closes(s, pos, b) && Shorter(Some(Trail(s[..b], pos)), st.len)
      then Streak(Some(Trail(s[..b], pos)), PosRange(s[..b + 1]))
      else st
  }

  /** Shortest is None exactly when no run is closed before i. */
  lemma {:induction false} ShortestNone(s: seq<Ext>, pos: bool, i: nat)
    requires i <= |s|
    ensures Shortest(s, pos, i).len.None? <==> forall b :: 0 <= b < i ==> !Closes(s, pos, b)
    ensures Shortest(s, pos, i).len.None? ==> Shortest(s, pos, i).dif == (F32Max, F32Min)
  {
    if i > 0 {
      ShortestNone(s, pos, i - 1);
    }
  }

  /** No run closed before i is shorter than Shortest. */
  lemma {:induction false} ShortestLower(s: seq<Ext>, pos: bool, i: nat)
    requires i <= |s|
    ensures forall b :: 0 <= b < i && Closes(s, pos, b) ==>
              Shortest(s, pos, i).len.Some? && Shortest(s, pos, i).len.value <= Trail(s[..b], pos)
  {
    if i > 0 {
      ShortestLower(s, pos, i - 1);
    }
  }

  /** Some closing sample b before i has Shortest's length, every closed run
      before b is longer, and the range is the one taken at b. */
  lemma {:induction false} ShortestAttained(s: seq<Ext>, pos: bool, i: nat)
    requires i <= |s| && Shortest(s, pos, i).len.Some?
    ensures var n := Shortest(s, pos, i).len.value;
            exists b :: 0 <= b < i && Closes(s, pos, b) && Trail(s[..b], pos) == n &&
              (forall b' :: 0 <= b' < b && Closes(s, pos, b') ==> Trail(s[..b'], pos) > n) &&
              Shortest(s, pos, i).dif == PosRange(s[..b + 1])
  {
    var st := Shortest(s, pos, i - 1);
    var b := i - 1;
    if Closes(s, pos, b) && Shorter(Some(Trail(s[..b], pos)), st.len) {
      ShortestLower(s, pos, b);
      ShortestNone(s, pos, b);
      var n := Trail(s[..b], pos);
      assert forall b' :: 0 <= b' < b && Closes(s, pos, b') ==> Trail(s[..b'], pos) > n;
    } else {
      ShortestAttained(s, pos, i - 1);
    }
  }

  lemma TrailStep(s: seq<Ext>, pos: bool, i: nat)
    requires i < |s|
    ensures Trail(s[..i + 1], pos) == if OnSide(s[i], pos) then Trail(s[..i], pos) + 1 else 0
    ensures PosRange(s[..i + 1]) == if !IsNeg(s[i]) then (Min(PosRange(s[..i]).0, s[i]), Max(PosRange(s[..i]).1, s[i])) else PosRange(s[..i])
  {
    assert s[..i + 1][..i] == s[..i];
  }

  /** The values of an atomic proposition at every sample of the trace. */
  function AtomValues(names: seq<string>, fn: nat, tr: Trace, ap: Ap): seq<Ext>
  {
    seq(tr.length, i requires 0 <= i < tr.length => ap(fn, Samples(tr, names, i)))
  }

  /** The per-atomic loop of get_best_number_skipped: the counters of the
      current runs, the shortest closed runs and pos_interval_values.
      (neg_interval_values is updated there but never read, so it is left out.) */
  method ScanAtomic(names: seq<string>, fn: nat, tr: Trace, ap: Ap) returns (pos: Streak, neg: Streak)
    requires forall k :: 0 <= k < |names| ==> names[k] in tr.signals
    ensures pos == Shortest(AtomValues(names, fn, tr, ap), true, tr.length)
    ensures neg == Shortest(AtomValues(names, fn, tr, ap), false, tr.length)
  {
    ghost var s := AtomValues(names, fn, tr, ap);
    var posCount := 0;
    var negCount := 0;
    var range: Range := (F32Max, F32Min);
    pos := Streak(None, (F32Max, F32Min));
    neg := Streak(None, (F32Max, F32Min));
    for i := 0 to tr.length
      invariant posCount == Trail(s[..i], true) && negCount == Trail(s[..i], false)
      invariant range == PosRange(s[..i])
      invariant pos == Shortest(s, true, i) && neg == Shortest(s, false, i)
    {
      var v := EvaluateFnc(names, tr, i, fn, ap);
      assert v == s[i];
      TrailStep(s, true, i);
      TrailStep(s, false, i);
      if !IsNeg(v) {
        posCount := posCount + 1;
        range := (Min(range.0, v), Max(range.1, v));
      } else if posCount > 0 {
        if Shorter(Some(posCount), pos.len) {
          pos := Streak(Some(posCount), range);
        }
        posCount := 0;
      }
      if IsNeg(v) {
        negCount := negCount + 1;
      } else if negCount > 0 {
        if Shorter(Some(negCount), neg.len) {
          neg := Streak(Some(negCount), range);
        }
        negCount := 0;
      }
    }
  }

  /** The global streak over the atomics: the first strictly shortest one. */
  function Global(sts: seq<Streak>): (r: Streak)
    ensures (forall a :: 0 <= a < |sts| && sts[a].len.Some? ==> sts[a].len.value >= 1) ==>
              (r.len.Some? ==> r.len.value >= 1)
  {
    if |sts| == 0 then Streak(None, (F32Max, F32Min))
    else
      var g := Global(sts[..|sts| - 1]);
      if Shorter(sts[|sts| - 1].len, g.len) then sts[|sts| - 1] else g
  }

  /** The global streak is None exactly when every atomic's is, and otherwise
      the streak of an atomic whose length no other atomic beats. */
  lemma {:induction false} GlobalSpec(sts: seq<Streak>)
    ensures Global(sts).len.None? <==> forall a :: 0 <= a < |sts| ==> sts[a].len.None?
    ensures Global(sts).len.None? ==> Global(sts).dif == (F32Max, F32Min)
    ensures Global(sts).len.Some? ==> exists a :: 0 <= a < |sts| && sts[a] == Global(sts)
    ensures forall a :: 0 <= a < |sts| && sts[a].len.Some? ==>
              Global(sts).len.Some? && Global(sts).len.value <= sts[a].len.value
  {
    if |sts| > 0 {
      var p := sts[..|sts| - 1];
      GlobalSpec(p);
      assert forall a :: 0 <= a < |p| ==> p[a] == sts[a];
      if Global(sts).len.Some? && Global(sts) == Global(p) {
        var a :| 0 <= a < |p| && p[a] == Global(p);
        assert sts[a] == Global(sts);
      }
    }
  }

  /** The number of skipped entries chosen from the start value n: the
      largest m <= n whose event count 1 / (0.005 * m) is whole, 0 if none.
      `whole(m)` stands for the f32 test `(1.0 / (0.005 * m as f32)).fract() == 0.0`. */
  method SkipDown(n: nat, whole: nat -> bool) returns (m: nat)
    ensures m <= n && (m == 0 || whole(m))
    ensures forall j :: m < j <= n ==> !whole(j)
  {
    m := n;
    while m > 0
      invariant m <= n
      invariant forall j :: m < j <= n ==> !whole(j)
    {
      if whole(m) {
        break;
      }
      m := m - 1;
    }
  }

  /** In exact arithmetic 1 / (0.005 * m) = 200 / m is whole exactly when m
      divides 200. */
  predicate ExactWhole(m: nat)
  {
    m > 0 && 200 % m == 0
  }

  /** With the exact test the choice is never 0 once n >= 1: it is the largest
      divisor of 200 not above n. */
  lemma SkipDownExact(n: nat, m: nat)
    requires n >= 1
    requires m <= n && (m == 0 || ExactWhole(m))
    requires forall j :: m < j <= n ==> !ExactWhole(j)
    ensures m >= 1 && 200 % m == 0
  {
    if m == 0 {
      assert ExactWhole(1);
    }
  }

  /** The streak lengths and ranges of every atomic of the tree. */
  function AtomicStreaks(atomics: seq<Formula>, tr: Trace, ap: Ap, pos: bool): seq<Streak>
  {
    seq(|atomics|, k requires 0 <= k < |atomics| =>
      if atomics[k].Atomic? then Shortest(AtomValues(atomics[k].names, atomics[k].fn, tr, ap), pos, tr.length)
      else Streak(None, (F32Max, F32Min)))
  }

  /** Every signal the tree's atomics read is in the trace (the source
      panics otherwise). */
  predicate AtomicNamesIn(atomics: seq<Formula>, tr: Trace)
  {
    forall k, j :: 0 <= k < |atomics| && atomics[k].Atomic? && 0 <= j < |atomics[k].names| ==> atomics[k].names[j] in tr.signals
  }

  /** The outer loop of get_best_number_skipped: the global streaks of both
      sides over the atomics of the tree. */
  method GlobalStreaks(atomics: seq<Formula>, tr: Trace, ap: Ap) returns (gPos: Streak, gNeg: Streak)
    requires forall k :: 0 <= k < |atomics| ==> atomics[k].Atomic?
    requires AtomicNamesIn(atomics, tr)
    ensures gPos == Global(AtomicStreaks(atomics, tr, ap, true))
    ensures gNeg == Global(AtomicStreaks(atomics, tr, ap, false))
  {
    ghost var ps := AtomicStreaks(atomics, tr, ap, true);
    ghost var ns := AtomicStreaks(atomics, tr, ap, false);
    gPos := Streak(None, (F32Max, F32Min));
    gNeg := Streak(None, (F32Max, F32Min));
    for k := 0 to |atomics|
      invariant gPos == Global(ps[..k]) && gNeg == Global(ns[..k])
    {
      var a := atomics[k];
      var p, n := ScanAtomic(a.names, a.fn, tr, ap);
      assert ps[..k + 1][..k] == ps[..k] && ns[..k + 1][..k] == ns[..k];
      if Shorter(p.len, gPos.len) {
        gPos := p;
      }
      if Shorter(n.len, gNeg.len) {
        gNeg := n;
      }
    }
    assert ps[..|atomics|] == ps && ns[..|atomics|] == ns;
  }

  /** get_best_number_skipped: 0 when some side never closed a run; otherwise
      the choice of SkipDown from min(pos, neg) - 1; with the ranges of the
      global streaks. */
  method GetBestNumberSkipped(tr: Trace, tree: TbtNode, ap: Ap, whole: nat -> bool)
    returns (skipped: nat, posDif: Range, negDif: Range)
    requires AtomicNamesIn(TbtGetAtomics(tree), tr)
    ensures var g := Global(AtomicStreaks(TbtGetAtomics(tree), tr, ap, true));
            var h := Global(AtomicStreaks(TbtGetAtomics(tree), tr, ap, false));
            posDif == g.dif && negDif == h.dif &&
            (g.len.None? || h.len.None? ==> skipped == 0) &&
            (g.len.Some? && h.len.Some? ==>
              var n := (if g.len.value < h.len.value then g.len.value else h.len.value) - 1;
              skipped <= n && (skipped == 0 || whole(skipped)) && forall j :: skipped < j <= n ==> !whole(j))
  {
    var atomics := TbtGetAtomics(tree);
    TbtGetAtomicsOfLeaves(tree);
    var gPos, gNeg := GlobalStreaks(atomics, tr, ap);
    posDif := gPos.dif;
    negDif := gNeg.dif;
    if gPos.len.None? || gNeg.len.None? {
      skipped := 0;
    } else {
      var start := (if gPos.len.value < gNeg.len.value then gPos.len.value else gNeg.len.value) - 1;
      skipped := SkipDown(start, whole);
    }
  }
}
