/** The grid layout arithmetic of `CalculateGridGeometry`: how the space of a
    grid parent (its width or height less twice its padding) is divided among
    the non-floating siblings of a component. Each sibling is seen along the
    grid's axis only: its percentage and its minimum and maximum size on that
    axis. Floating-point values are modelled as reals. */
module Grid {
  import opened Base

  /** One grid member along the grid's axis; a non-positive value means the
      percentage or limit is unset. */
  datatype Sibling = Sibling(percent: int, min: int, max: int)

  // ----- Percentages -----

  /** The weight the first loop records: a positive percentage as it is; an
      unset one as 0, except that a vertical grid records the raw value even
      when it is negative. */
  function Weight(s: Sibling, vertical: bool): real
  {
    if s.percent > 0 || vertical then s.percent as real else 0.0
  }

  function Weights(sibs: seq<Sibling>, vertical: bool): (ws: seq<real>)
    ensures |ws| == |sibs|
    ensures forall i :: 0 <= i < |sibs| ==> ws[i] == Weight(sibs[i], vertical)
  {
    if sibs == [] then []
    else Weights(sibs[..|sibs| - 1], vertical) + [Weight(sibs[|sibs| - 1], vertical)]
  }

  /** The sum of the positive percentages. */
  function SetSum(sibs: seq<Sibling>): real
  {
    if sibs == [] then 0.0
    else
      var last := sibs[|sibs| - 1];
      SetSum(sibs[..|sibs| - 1]) + (if last.percent > 0 then last.percent as real else 0.0)
  }

  /** How many percentages are positive. */
  function SetCount(sibs: seq<Sibling>): nat
  {
    if sibs == [] then 0
    else SetCount(sibs[..|sibs| - 1]) + (if sibs[|sibs| - 1].percent > 0 then 1 else 0)
  }

  /** The share every unset entry receives: what the set percentages leave of
      100, spread evenly over the unset entries; or, when the set ones reach
      100 already, an even share of 100. */
  function FillShare(sibs: seq<Sibling>): real
    requires |sibs| >= 1
  {
    if SetSum(sibs) < 100.0 then FloatDiv(100.0 - SetSum(sibs), (|sibs| - SetCount(sibs)) as real)
    else FloatDiv(100.0, |sibs| as real)
  }

  /** The zero entries replaced by `fill`. */
  function Filled(ps: seq<real>, fill: real): (r: seq<real>)
    ensures |r| == |ps|
    ensures forall i :: 0 <= i < |ps| ==> r[i] == if ps[i] == 0.0 then fill else ps[i]
  {
    if ps == [] then []
    else
      var last := ps[|ps| - 1];
      Filled(ps[..|ps| - 1], fill) + [if last == 0.0 then fill else last]
  }

  function Scaled(ps: seq<real>, factor: real): (r: seq<real>)
    ensures |r| == |ps|
  {
    if ps == [] then [] else Scaled(ps[..|ps| - 1], factor) + [ps[|ps| - 1] * factor]
  }

  /** Every entry is multiplied by the factor. */
  lemma {:induction false} ScaledAt(ps: seq<real>, factor: real)
    ensures forall i :: 0 <= i < |ps| ==> Scaled(ps, factor)[i] == ps[i] * factor
  {
    if ps != [] {
      ScaledAt(ps[..|ps| - 1], factor);
    }
  }

  /** Every entry scaled by the factor that brings the total to 100. */
  function Normalized(ps: seq<real>): (r: seq<real>)
    ensures |r| == |ps|
  {
    Scaled(ps, FloatDiv(100.0, SumReal(ps)))
  }

  /** The min/max correction of one percentage. The comparison scales both
      sides by the target size over 100, so it compares the percentage with
      the raw limit in cells; a limit that applies replaces the percentage by
      the limit's share of the target size. */
  function Clamp(p: real, s: Sibling, targetSize: int): real
  {
    var t := targetSize as real;
    if s.min > 0 && p / 100.0 * t < s.min as real / 100.0 * t then FloatDiv(s.min as real, t) * 100.0
    else if s.max > 0 && p / 100.0 * t > s.max as real / 100.0 * t then FloatDiv(s.max as real, t) * 100.0
    else p
  }

  function Clamped(ps: seq<real>, sibs: seq<Sibling>, targetSize: int): (r: seq<real>)
    requires |ps| == |sibs|
    ensures |r| == |ps|
    ensures forall i :: 0 <= i < |ps| ==> r[i] == Clamp(ps[i], sibs[i], targetSize)
  {
    if ps == [] then []
    else
      var n := |ps| - 1;
      Clamped(ps[..n], sibs[..n], targetSize) + [Clamp(ps[n], sibs[n], targetSize)]
  }

  /** The percentages the sizes are computed from: filled, normalised,
      clamped and normalised again. */
  function Percentages(sibs: seq<Sibling>, vertical: bool, targetSize: int): (ps: seq<real>)
    requires |sibs| >= 1
    ensures |ps| == |sibs|
  {
    var filled := Filled(Weights(sibs, vertical), FillShare(sibs));
    Normalized(Clamped(Normalized(filled), sibs, targetSize))
  }

  // ----- Sizes -----

  /** `p` percent of the target size, truncated toward zero. */
  function PercentOf(targetSize: int, p: real): int
  {
    TruncReal(targetSize as real * p / 100.0)
  }

  /** Each percentage of the target size, truncated toward zero. */
  function Truncated(ps: seq<real>, targetSize: int): (sizes: seq<int>)
    ensures |sizes| == |ps|
    ensures forall i :: 0 <= i < |ps| ==> sizes[i] == PercentOf(targetSize, ps[i])
  {
    if ps == [] then []
    else Truncated(ps[..|ps| - 1], targetSize) + [PercentOf(targetSize, ps[|ps| - 1])]
  }

  /** The indices, in order, of the siblings that have both limits set. */
  function Flexible(sibs: seq<Sibling>): (flex: seq<int>)
    ensures forall k :: 0 <= k < |flex| ==> 0 <= flex[k] < |sibs|
    ensures forall j, k :: 0 <= j < k < |flex| ==> flex[j] < flex[k]
    ensures forall i :: 0 <= i < |sibs| ==> (i in flex <==> sibs[i].min > 0 && sibs[i].max > 0)
  {
    if sibs == [] then []
    else
      var n := |sibs| - 1;
      var front := Flexible(sibs[..n]);
      front + (if sibs[n].min > 0 && sibs[n].max > 0 then [n] else [])
  }

  /** The entry the k-th correction step adjusts: the k-th flexible sibling
      while there is one, then the k-th entry, then always the last. */
  function StepIndex(flex: seq<int>, n: int, k: nat): int
  {
    if k < |flex| then flex[k] else Min(k, n - 1)
  }

  /** How many of the first `steps` correction steps adjust entry `j`. */
  function Hits(flex: seq<int>, n: int, steps: nat, j: int): nat
  {
    if steps == 0 then 0
    else Hits(flex, n, steps - 1, j) + (if StepIndex(flex, n, steps - 1) == j then 1 else 0)
  }

  /** Correction steps stay inside the sizes. */
  ghost predicate InRange(flex: seq<int>, n: int)
  {
    n >= 1 && forall k :: 0 <= k < |flex| ==> 0 <= flex[k] < n
  }

  /** The sizes after `steps` correction steps of `d` each. */
  function Adjusted(sizes: seq<int>, flex: seq<int>, d: int, steps: nat): (r: seq<int>)
    requires InRange(flex, |sizes|)
    ensures |r| == |sizes|
  {
    if steps == 0 then sizes
    else
      var r := Adjusted(sizes, flex, d, steps - 1);
      var j := StepIndex(flex, |sizes|, steps - 1);
      r[j := r[j] + d]
  }

  /** The rounding correction: one step of +1 or -1 per cell of difference
      between the target size and the truncated sizes' total. */
  function Corrected(sizes: seq<int>, flex: seq<int>, targetSize: int): (r: seq<int>)
    requires InRange(flex, |sizes|)
    ensures |r| == |sizes|
  {
    var diff := targetSize - Sum(sizes);
    Adjusted(sizes, flex, if diff > 0 then 1 else -1, Abs(diff))
  }

  /** The sizes `CalculateGridGeometry` gives the grid members, in order. */
  function GridSizes(sibs: seq<Sibling>, vertical: bool, targetSize: int): (sizes: seq<int>)
    requires |sibs| >= 1
    ensures |sizes| == |sibs|
  {
    Corrected(Truncated(Percentages(sibs, vertical, targetSize), targetSize), Flexible(sibs), targetSize)
  }

  /** Where the k-th member starts along the axis: after the padding and the
      members before it. */
  function Offset(padding: int, sizes: seq<int>, k: int): int
    requires 0 <= k <= |sizes|
  {
    padding + Sum(sizes[..k])
  }

  /** The geometry (x, y, width, height) the placement loop gives the k-th
      member of a grid parent. */
  function Placement(horizontal: bool, padding: int, parentWidth: int, parentHeight: int,
                     sizes: seq<int>, k: int): (int, int, int, int)
    requires 0 <= k < |sizes|
  {
    if horizontal then (Offset(padding, sizes, k), padding, sizes[k], parentHeight - padding * 2)
    else (padding, Offset(padding, sizes, k), parentWidth - padding * 2, sizes[k])
  }

  // ----- Properties -----

  lemma {:induction false} ScaledSum(ps: seq<real>, factor: real)
    ensures SumReal(Scaled(ps, factor)) == SumReal(ps) * factor
  {
    if ps != [] {
      var n := |ps| - 1;
      ScaledLast(ps, factor);
      ScaledSum(ps[..n], factor);
      Distribute(SumReal(ps[..n]), ps[n], factor);
    }
  }

  lemma {:induction false} ScaledLast(ps: seq<real>, factor: real)
    requires ps != []
    ensures SumReal(Scaled(ps, factor)) == SumReal(Scaled(ps[..|ps| - 1], factor)) + ps[|ps| - 1] * factor
  {
    var scaled := Scaled(ps, factor);
    assert scaled[..|ps| - 1] == Scaled(ps[..|ps| - 1], factor);
  }

  lemma {:induction false} Distribute(a: real, b: real, factor: real)
    ensures a * factor + b * factor == (a + b) * factor
  {
  }

  lemma {:induction false} ScaledByOne(ps: seq<real>)
    ensures Scaled(ps, 1.0) == ps
  {
    ScaledAt(ps, 1.0);
  }

  /** Normalising brings any non-zero total to 100. */
  lemma {:induction false} NormalizedSum(ps: seq<real>)
    requires SumReal(ps) != 0.0
    ensures SumReal(Normalized(ps)) == 100.0
  {
    var total := SumReal(ps);
    var factor := FloatDiv(100.0, total);
    ScaledSum(ps, factor);
    assert factor == 100.0 / total;
    Cancel(total, 100.0);
  }

  lemma {:induction false} Cancel(t: real, a: real)
    requires t != 0.0
    ensures t * (a / t) == a
  {
  }

  /** A zero total (all weights cancel out) yields all zeros, where the
      program divides by zero. */
  lemma {:induction false} NormalizedZero(ps: seq<real>)
    requires SumReal(ps) == 0.0
    ensures forall i :: 0 <= i < |ps| ==> Normalized(ps)[i] == 0.0
  {
    ScaledAt(ps, FloatDiv(100.0, SumReal(ps)));
  }

  lemma {:induction false} SetSumNonNegative(sibs: seq<Sibling>)
    ensures SetSum(sibs) >= 0.0
  {
    if sibs != [] {
      SetSumNonNegative(sibs[..|sibs| - 1]);
    }
  }

  /** How many entries of `ps` are zero. */
  function Zeros(ps: seq<real>): nat
  {
    if ps == [] then 0 else Zeros(ps[..|ps| - 1]) + (if ps[|ps| - 1] == 0.0 then 1 else 0)
  }

  /** The fill share counted once per zero entry. */
  function FillTotal(ps: seq<real>, fill: real): real
  {
    if ps == [] then 0.0 else FillTotal(ps[..|ps| - 1], fill) + (if ps[|ps| - 1] == 0.0 then fill else 0.0)
  }

  lemma {:induction false} FillTotalIs(ps: seq<real>, fill: real)
    ensures FillTotal(ps, fill) == Zeros(ps) as real * fill
  {
    if ps != [] {
      var n := |ps| - 1;
      FillTotalIs(ps[..n], fill);
      if ps[n] == 0.0 {
        OneMoreShare(Zeros(ps[..n]), fill);
      }
    }
  }

  lemma {:induction false} OneMoreShare(z: nat, fill: real)
    ensures (z + 1) as real * fill == z as real * fill + fill
  {
  }

  /** Filling adds the fill share once per zero entry. */
  lemma {:induction false} FilledSumStep(ps: seq<real>, fill: real)
    ensures SumReal(Filled(ps, fill)) == SumReal(ps) + FillTotal(ps, fill)
  {
    if ps != [] {
      FilledLast(ps, fill);
      FilledSumStep(ps[..|ps| - 1], fill);
    }
  }

  lemma {:induction false} FilledLast(ps: seq<real>, fill: real)
    requires ps != []
    ensures var n := |ps| - 1;
            SumReal(Filled(ps, fill)) == SumReal(Filled(ps[..n], fill)) + (if ps[n] == 0.0 then fill else ps[n])
  {
    var filled := Filled(ps, fill);
    assert filled[..|ps| - 1] == Filled(ps[..|ps| - 1], fill);
  }

  /** In a horizontal grid (or any grid without negative percentages) the
      weights sum to the set percentages and the zero weights are exactly the
      unset ones. */
  lemma {:induction false} WeightsCount(sibs: seq<Sibling>, vertical: bool)
    requires !vertical || forall i :: 0 <= i < |sibs| ==> sibs[i].percent >= 0
    ensures SumReal(Weights(sibs, vertical)) == SetSum(sibs)
    ensures Zeros(Weights(sibs, vertical)) == |sibs| - SetCount(sibs)
  {
    if sibs != [] {
      var n := |sibs| - 1;
      assert Weights(sibs, vertical)[..n] == Weights(sibs[..n], vertical);
      WeightsCount(sibs[..n], vertical);
    }
  }

  /** When the set percentages stay below 100 and some are unset, filling
      makes the weights add up to exactly 100, so the first normalisation
      changes nothing. */
  lemma {:induction false} FilledSum(sibs: seq<Sibling>, vertical: bool)
    requires |sibs| >= 1
    requires !vertical || forall i :: 0 <= i < |sibs| ==> sibs[i].percent >= 0
    requires SetSum(sibs) < 100.0 && SetCount(sibs) < |sibs|
    ensures SumReal(Filled(Weights(sibs, vertical), FillShare(sibs))) == 100.0
    ensures Normalized(Filled(Weights(sibs, vertical), FillShare(sibs)))
            == Filled(Weights(sibs, vertical), FillShare(sibs))
  {
    var ws := Weights(sibs, vertical);
    WeightsCount(sibs, vertical);
    FilledSumStep(ws, FillShare(sibs));
    FillCovers(sibs, ws);
    ScaledByOne(Filled(ws, FillShare(sibs)));
  }

  /** The fill shares of the unset entries make up what the set ones leave
      of 100. */
  lemma {:induction false} FillCovers(sibs: seq<Sibling>, ws: seq<real>)
    requires |sibs| >= 1 && SetSum(sibs) < 100.0 && SetCount(sibs) < |sibs|
    requires Zeros(ws) == |sibs| - SetCount(sibs)
    ensures FillTotal(ws, FillShare(sibs)) == 100.0 - SetSum(sibs)
    ensures FloatDiv(100.0, 100.0) == 1.0
  {
    FillTotalIs(ws, FillShare(sibs));
    SharesCover(sibs, Zeros(ws));
    Hundred();
  }

  /** One fill share per unset entry makes up what the set ones leave. */
  lemma {:induction false} SharesCover(sibs: seq<Sibling>, n: nat)
    requires |sibs| >= 1 && SetSum(sibs) < 100.0 && n == |sibs| - SetCount(sibs) && n != 0
    ensures n as real * FillShare(sibs) == 100.0 - SetSum(sibs)
  {
    FillShareIs(sibs);
    DivBack(100.0 - SetSum(sibs), n, FillShare(sibs));
  }

  lemma {:induction false} FillShareIs(sibs: seq<Sibling>)
    requires |sibs| >= 1 && SetSum(sibs) < 100.0
    ensures FillShare(sibs) == FloatDiv(100.0 - SetSum(sibs), (|sibs| - SetCount(sibs)) as real)
  {
  }

  /** `n` shares of `a / n` make up `a`. */
  lemma {:induction false} DivBack(a: real, n: nat, q: real)
    requires n != 0 && q == FloatDiv(a, n as real)
    ensures n as real * q == a
  {
  }

  lemma {:induction false} Hundred()
    ensures FloatDiv(100.0, 100.0) == 1.0
  {
  }

  /** The fill share is only ever used for an unset entry, and then there is
      one to divide by: the division by zero the program could hit when every
      percentage is set never reaches an entry. */
  lemma {:induction false} FillShareDefined(sibs: seq<Sibling>, vertical: bool)
    requires exists i :: 0 <= i < |sibs| && Weights(sibs, vertical)[i] == 0.0
    ensures SetCount(sibs) < |sibs|
  {
    var i :| 0 <= i < |sibs| && Weights(sibs, vertical)[i] == 0.0;
    var n := |sibs| - 1;
    if i == n {
      assert sibs[n].percent <= 0;
      SetCountBound(sibs[..n]);
    } else {
      assert Weights(sibs[..n], vertical)[i] == 0.0;
      FillShareDefined(sibs[..n], vertical);
    }
  }

  lemma {:induction false} SetCountBound(sibs: seq<Sibling>)
    ensures SetCount(sibs) <= |sibs|
  {
    if sibs != [] {
      SetCountBound(sibs[..|sibs| - 1]);
    }
  }

  /** The limits are compared with the percentage as if they were
      percentages too (for a positive target size the scaling cancels out),
      and an applied limit becomes the percentage that is exactly that many
      cells of the target size. */
  lemma {:induction false} ClampCompares(p: real, s: Sibling, targetSize: int)
    requires targetSize > 0
    ensures s.min > 0 && p < s.min as real ==>
              Clamp(p, s, targetSize) / 100.0 * targetSize as real == s.min as real
    ensures !(s.min > 0 && p < s.min as real) && s.max > 0 && p > s.max as real ==>
              Clamp(p, s, targetSize) / 100.0 * targetSize as real == s.max as real
    ensures !(s.min > 0 && p < s.min as real) && !(s.max > 0 && p > s.max as real) ==>
              Clamp(p, s, targetSize) == p
  {
    var t := targetSize as real;
    assert (p / 100.0 * t < s.min as real / 100.0 * t) == (p < s.min as real);
    assert (p / 100.0 * t > s.max as real / 100.0 * t) == (p > s.max as real);
  }

  /** With no target size no limit ever applies. */
  lemma {:induction false} ClampEmptyTarget(p: real, s: Sibling)
    ensures Clamp(p, s, 0) == p
  {
  }

  /** Each correction step adjusts an existing entry. */
  lemma {:induction false} StepInRange(flex: seq<int>, n: int, k: nat)
    requires InRange(flex, n)
    ensures 0 <= StepIndex(flex, n, k) < n
  {
  }

  /** `steps` steps of `d` change the total by `steps * d`. */
  lemma {:induction false} AdjustedSum(sizes: seq<int>, flex: seq<int>, d: int, steps: nat)
    requires InRange(flex, |sizes|)
    ensures Sum(Adjusted(sizes, flex, d, steps)) == Sum(sizes) + d * steps
  {
    if steps > 0 {
      var prev, j := Adjusted(sizes, flex, d, steps - 1), StepIndex(flex, |sizes|, steps - 1);
      AdjustedSum(sizes, flex, d, steps - 1);
      StepInRange(flex, |sizes|, steps - 1);
      assert Adjusted(sizes, flex, d, steps) == prev[j := prev[j] + d];
      SumUpdate(prev, j, d);
      StepMore(d, steps);
    }
  }

  lemma {:induction false} StepMore(d: int, k: int)
    ensures d * (k - 1) + d == d * k
  {
  }

  /** After `steps` steps every entry has moved by `d` once per step that
      picked it. */
  lemma {:induction false} AdjustedEntries(sizes: seq<int>, flex: seq<int>, d: int, steps: nat, j: int)
    requires InRange(flex, |sizes|) && 0 <= j < |sizes|
    ensures Adjusted(sizes, flex, d, steps)[j] == sizes[j] + d * Hits(flex, |sizes|, steps, j)
  {
    if steps > 0 {
      AdjustedEntries(sizes, flex, d, steps - 1, j);
    }
  }

  /** After the correction the sizes fill the target size exactly. */
  lemma {:induction false} CorrectedSum(sizes: seq<int>, flex: seq<int>, targetSize: int)
    requires InRange(flex, |sizes|)
    ensures Sum(Corrected(sizes, flex, targetSize)) == targetSize
  {
    var diff := targetSize - Sum(sizes);
    AdjustedSum(sizes, flex, if diff > 0 then 1 else -1, Abs(diff));
  }

  /** An entry is adjusted exactly when some step picks it. */
  lemma {:induction false} HitsPositive(flex: seq<int>, n: int, steps: nat, j: int)
    ensures Hits(flex, n, steps, j) > 0 <==> exists k :: 0 <= k < steps && StepIndex(flex, n, k) == j
  {
    if steps > 0 {
      HitsPositive(flex, n, steps - 1, j);
      if StepIndex(flex, n, steps - 1) != j && exists k :: 0 <= k < steps && StepIndex(flex, n, k) == j {
        var k :| 0 <= k < steps && StepIndex(flex, n, k) == j;
        assert k < steps - 1;
      }
    }
  }

  /** The correction moves every entry in the direction of the difference,
      leaves the entries no step picks as they were, and changes nothing
      when the truncated sizes already fill the target. */
  lemma {:induction false} CorrectedEntries(sizes: seq<int>, flex: seq<int>, targetSize: int, j: int)
    requires InRange(flex, |sizes|) && 0 <= j < |sizes|
    ensures var diff := targetSize - Sum(sizes);
            var c := Corrected(sizes, flex, targetSize);
            && (diff >= 0 ==> c[j] >= sizes[j])
            && (diff <= 0 ==> c[j] <= sizes[j])
            && (c[j] != sizes[j] <==> exists k :: 0 <= k < Abs(diff) && StepIndex(flex, |sizes|, k) == j)
  {
    var diff := targetSize - Sum(sizes);
    AdjustedEntries(sizes, flex, if diff > 0 then 1 else -1, Abs(diff), j);
    HitsPositive(flex, |sizes|, Abs(diff), j);
  }

  /** Consecutive members abut: each starts where the previous one ends, and
      the last ends at the padding plus the total of the sizes. */
  lemma {:induction false} OffsetsTile(padding: int, sizes: seq<int>, k: int)
    requires 0 <= k < |sizes|
    ensures Offset(padding, sizes, k + 1) == Offset(padding, sizes, k) + sizes[k]
    ensures Offset(padding, sizes, 0) == padding
    ensures Offset(padding, sizes, |sizes|) == padding + Sum(sizes)
  {
    assert sizes[..k + 1][..k] == sizes[..k];
    assert sizes[..|sizes|] == sizes;
  }

  /** The corrected grid sizes fill the parent's inner extent. */
  lemma {:induction false} GridFills(sibs: seq<Sibling>, vertical: bool, targetSize: int, padding: int)
    requires |sibs| >= 1
    ensures Sum(GridSizes(sibs, vertical, targetSize)) == targetSize
    ensures Offset(padding, GridSizes(sibs, vertical, targetSize), |sibs|) == padding + targetSize
  {
    var sizes := Truncated(Percentages(sibs, vertical, targetSize), targetSize);
    CorrectedSum(sizes, Flexible(sibs), targetSize);
    OffsetsTile(padding, GridSizes(sibs, vertical, targetSize), 0);
  }

  // ----- The loops of CalculateGridGeometry and NormalizePercentages -----

  /** `NormalizePercentages`: total the entries, then scale each by 100 over
      the total. */
  method NormalizePercentages(percentages: seq<real>) returns (normalized: seq<real>)
    ensures normalized == Normalized(percentages)
    ensures SumReal(percentages) != 0.0 ==> SumReal(normalized) == 100.0
  {
    var percentSum := TotalPercent(percentages);
    var correctionFactor := FloatDiv(100.0, percentSum);
    normalized := ScaleBy(percentages, correctionFactor);
    if SumReal(percentages) != 0.0 {
      NormalizedSum(percentages);
    }
  }

  /** The summing loop of `NormalizePercentages`. */
  method TotalPercent(percentages: seq<real>) returns (percentSum: real)
    ensures percentSum == SumReal(percentages)
  {
    percentSum := 0.0;
    var i := 0;
    while i < |percentages|
      invariant 0 <= i <= |percentages|
      invariant percentSum == SumReal(percentages[..i])
    {
      assert percentages[..i + 1][..i] == percentages[..i];
      percentSum := percentSum + percentages[i];
      i := i + 1;
    }
    assert percentages[..i] == percentages;
  }

  /** The scaling loop of `NormalizePercentages`. */
  method ScaleBy(percentages: seq<real>, correctionFactor: real) returns (normalized: seq<real>)
    ensures normalized == Scaled(percentages, correctionFactor)
  {
    normalized := seq(|percentages|, _ => 0.0);
    var i := 0;
    while i < |percentages|
      invariant 0 <= i <= |percentages| && |normalized| == |percentages|
      invariant forall k :: 0 <= k < i ==> normalized[k] == percentages[k] * correctionFactor
    {
      normalized := normalized[i := percentages[i] * correctionFactor];
      i := i + 1;
    }
    ScaledAt(percentages, correctionFactor);
  }

  /** The weights loop: records each weight and totals and counts the
      positive percentages. */
  method RecordWeights(sibs: seq<Sibling>, vertical: bool)
    returns (percentages: seq<real>, setCount: int, setSum: real)
    ensures percentages == Weights(sibs, vertical)
    ensures setCount == SetCount(sibs) && setSum == SetSum(sibs)
  {
    percentages := seq(|sibs|, _ => 0.0);
    setCount := 0;
    setSum := 0.0;
    var i := 0;
    while i < |sibs|
      invariant 0 <= i <= |sibs| && |percentages| == |sibs|
      invariant forall k :: 0 <= k < i ==> percentages[k] == Weight(sibs[k], vertical)
      invariant forall k :: i <= k < |sibs| ==> percentages[k] == 0.0
      invariant setCount == SetCount(sibs[..i]) && setSum == SetSum(sibs[..i])
    {
      assert sibs[..i + 1][..i] == sibs[..i];
      if vertical {
        if sibs[i].percent > 0 {
          percentages := percentages[i := sibs[i].percent as real];
          setSum := setSum + percentages[i];
          setCount := setCount + 1;
        }
        percentages := percentages[i := sibs[i].percent as real];
      } else {
        if sibs[i].percent > 0 {
          percentages := percentages[i := sibs[i].percent as real];
          setSum := setSum + percentages[i];
          setCount := setCount + 1;
        }
      }
      i := i + 1;
    }
    assert sibs[..i] == sibs;
  }

  /** The percentages part of `CalculateGridGeometry`. */
  method ComputePercentages(sibs: seq<Sibling>, vertical: bool, targetSize: int) returns (percentages: seq<real>)
    requires |sibs| >= 1
    ensures percentages == Percentages(sibs, vertical, targetSize)
  {
    var setCount, setSum;
    percentages, setCount, setSum := RecordWeights(sibs, vertical);
    var fillPercentage := FloatDiv(100.0, |sibs| as real);
    if setSum < 100.0 {
      fillPercentage := FloatDiv(100.0 - setSum, (|sibs| - setCount) as real);
    }
    percentages := FillUnset(percentages, fillPercentage);
    percentages := NormalizePercentages(percentages);
    percentages := ClampToLimits(percentages, sibs, targetSize);
    percentages := NormalizePercentages(percentages);
  }

  /** The loop that gives every zero entry the fill share. */
  method FillUnset(weights: seq<real>, fillPercentage: real) returns (percentages: seq<real>)
    ensures percentages == Filled(weights, fillPercentage)
  {
    percentages := weights;
    var i := 0;
    while i < |percentages|
      invariant 0 <= i <= |percentages| && |percentages| == |weights|
      invariant forall k :: 0 <= k < i ==> percentages[k] == Filled(weights, fillPercentage)[k]
      invariant forall k :: i <= k < |weights| ==> percentages[k] == weights[k]
    {
      if percentages[i] == 0.0 {
        percentages := percentages[i := fillPercentage];
      }
      i := i + 1;
    }
  }

  /** The min/max correction loop. */
  method ClampToLimits(normalized: seq<real>, sibs: seq<Sibling>, targetSize: int) returns (percentages: seq<real>)
    requires |normalized| == |sibs|
    ensures percentages == Clamped(normalized, sibs, targetSize)
  {
    percentages := normalized;
    var t := targetSize as real;
    var i := 0;
    while i < |percentages|
      invariant 0 <= i <= |percentages| && |percentages| == |sibs|
      invariant forall k :: 0 <= k < i ==> percentages[k] == Clamp(normalized[k], sibs[k], targetSize)
      invariant forall k :: i <= k < |sibs| ==> percentages[k] == normalized[k]
    {
      var c := sibs[i];
      if c.min > 0 && percentages[i] / 100.0 * t < c.min as real / 100.0 * t {
        percentages := percentages[i := FloatDiv(c.min as real, t) * 100.0];
      } else if c.max > 0 && percentages[i] / 100.0 * t > c.max as real / 100.0 * t {
        percentages := percentages[i := FloatDiv(c.max as real, t) * 100.0];
      }
      i := i + 1;
    }
  }

  /** The total of the sizes, as the first correction loop computes it. */
  method Total(sizes: seq<int>) returns (total: int)
    ensures total == Sum(sizes)
  {
    total := 0;
    var i := 0;
    while i < |sizes|
      invariant 0 <= i <= |sizes| && total == Sum(sizes[..i])
    {
      assert sizes[..i + 1][..i] == sizes[..i];
      total := total + sizes[i];
      i := i + 1;
    }
    assert sizes[..i] == sizes;
  }

  /** The flexible-members loop. */
  method FlexibleIndices(sibs: seq<Sibling>) returns (flex: seq<int>)
    ensures flex == Flexible(sibs)
  {
    flex := [];
    var i := 0;
    while i < |sibs|
      invariant 0 <= i <= |sibs| && flex == Flexible(sibs[..i])
    {
      FlexibleStep(sibs, i);
      if sibs[i].min > 0 && sibs[i].max > 0 {
        flex := flex + [i];
      }
      i := i + 1;
    }
    assert sibs[..i] == sibs;
  }

  lemma {:induction false} FlexibleStep(sibs: seq<Sibling>, i: int)
    requires 0 <= i < |sibs|
    ensures Flexible(sibs[..i + 1]) == Flexible(sibs[..i]) + (if sibs[i].min > 0 && sibs[i].max > 0 then [i] else [])
  {
    assert sibs[..i + 1][..i] == sibs[..i];
  }

  /** Go's `d := sizeDiff / utils.Abs(sizeDiff)` is the sign of the
      difference. */
  lemma {:induction false} SignStep(a: int)
    requires a != 0
    ensures TruncDiv(a, Abs(a)) == (if a > 0 then 1 else -1)
  {
    if a > 0 {
      DivModUnique(a, a, 1, 0);
    } else {
      DivModUnique(-a, -a, 1, 0);
    }
  }

  /** The rounding correction of `CalculateGridGeometry`: when the sizes do
      not add up to the target, step through the flexible members, then the
      members in order, then the last one, moving one cell per step. */
  method CorrectSizes(sizes: seq<int>, sibs: seq<Sibling>, targetSize: int) returns (corrected: seq<int>)
    requires |sizes| == |sibs| >= 1
    ensures corrected == Corrected(sizes, Flexible(sibs), targetSize)
    ensures Sum(corrected) == targetSize
  {
    corrected := sizes;
    var sumSizes := Total(sizes);
    if sumSizes != targetSize {
      var flex := FlexibleIndices(sibs);
      corrected := Spread(sizes, flex, targetSize - sumSizes);
    } else {
      assert Adjusted(sizes, Flexible(sibs), -1, 0) == sizes;
    }
    CorrectedSum(sizes, Flexible(sibs), targetSize);
  }

  /** The stepping loop of the correction: one cell per step, in the
      direction of the difference, until none is left. */
  method Spread(sizes: seq<int>, flex: seq<int>, difference: int) returns (corrected: seq<int>)
    requires InRange(flex, |sizes|)
    ensures corrected == Adjusted(sizes, flex, if difference > 0 then 1 else -1, Abs(difference))
  {
    corrected := sizes;
    var sizeDiff := difference;
    ghost var sign := if difference > 0 then 1 else -1;
    var i := 0;
    while sizeDiff != 0
      invariant 0 <= i <= Abs(difference)
      invariant sizeDiff == (if sign > 0 then Abs(difference) - i else i - Abs(difference))
      invariant corrected == Adjusted(sizes, flex, sign, i)
      decreases Abs(sizeDiff)
    {
      SignStep(sizeDiff);
      var d := TruncDiv(sizeDiff, Abs(sizeDiff));
      StepInRange(flex, |sizes|, i);
      if |flex| > i {
        corrected := corrected[flex[i] := corrected[flex[i]] + d];
      } else {
        var m := Min(i, |corrected| - 1);
        corrected := corrected[m := corrected[m] + d];
      }
      sizeDiff := sizeDiff - d;
      i := i + 1;
    }
  }

  /** The sizes part of `CalculateGridGeometry`: percentages, truncation,
      correction. */
  method ComputeSizes(sibs: seq<Sibling>, vertical: bool, targetSize: int) returns (sizes: seq<int>)
    requires |sibs| >= 1
    ensures sizes == GridSizes(sibs, vertical, targetSize)
    ensures Sum(sizes) == targetSize
  {
    var percentages := ComputePercentages(sibs, vertical, targetSize);
    sizes := Truncate(percentages, targetSize);
    sizes := CorrectSizes(sizes, sibs, targetSize);
  }

  /** The loop that turns percentages into whole cells. */
  method Truncate(percentages: seq<real>, targetSize: int) returns (sizes: seq<int>)
    ensures sizes == Truncated(percentages, targetSize)
  {
    sizes := seq(|percentages|, _ => 0);
    var i := 0;
    while i < |percentages|
      invariant 0 <= i <= |percentages| && |sizes| == |percentages|
      invariant forall k :: 0 <= k < i ==> sizes[k] == TruncReal(targetSize as real * percentages[k] / 100.0)
    {
      sizes := sizes[i := TruncReal(targetSize as real * percentages[i] / 100.0)];
      i := i + 1;
    }
  }

  // ----- Worked examples -----

  /** Without positive percentages nothing counts as set. */
  lemma {:induction false} NoneSet(sibs: seq<Sibling>)
    requires forall i :: 0 <= i < |sibs| ==> sibs[i].percent <= 0
    ensures SetSum(sibs) == 0.0 && SetCount(sibs) == 0
  {
    if sibs != [] {
      NoneSet(sibs[..|sibs| - 1]);
    }
  }

  /** Three members without percentages or limits share 90 cells evenly. */
  lemma {:induction false} EvenSplit()
    ensures GridSizes([Sibling(0, -1, -1), Sibling(0, -1, -1), Sibling(0, -1, -1)], false, 90) == [30, 30, 30]
  {
    var sibs := [Sibling(0, -1, -1), Sibling(0, -1, -1), Sibling(0, -1, -1)];
    var third := 100.0 / 3.0;
    NoneSet(sibs);
    assert FillShare(sibs) == third;
    var ws := Weights(sibs, false);
    var filled := Filled(ws, third);
    assert filled == [third, third, third];
    FilledSum(sibs, false);
    assert Normalized(filled) == filled;
    assert Clamped(filled, sibs, 90) == filled;
    var sizes := Truncated(filled, 90);
    assert sizes == [30, 30, 30];
    assert sizes[..2] == [30, 30] && [30, 30][..1] == [30] && [30][..0] == [];
    assert Sum([30]) == 30;
    assert Sum([30, 30]) == 60;
    assert Sum(sizes) == 90;
    assert Corrected(sizes, Flexible(sibs), 90) == sizes;
  }

  /** A minimum is not a guarantee: the clamped percentage is normalised
      again together with the others, so a first member with a minimum of 50
      cells out of 90 ends up with 41. */
  lemma {:induction false} MinimumDiluted()
    ensures GridSizes([Sibling(0, 50, -1), Sibling(0, -1, -1), Sibling(0, -1, -1)], false, 90) == [41, 25, 24]
  {
    var sibs := [Sibling(0, 50, -1), Sibling(0, -1, -1), Sibling(0, -1, -1)];
    DilutedPercentages();
    DilutedTruncated();
    DilutedFlexible();
    DilutedCorrected();
  }

  /** No member of that example has both limits. */
  lemma {:induction false} DilutedFlexible()
    ensures Flexible([Sibling(0, 50, -1), Sibling(0, -1, -1), Sibling(0, -1, -1)]) == []
  {
    var sibs := [Sibling(0, 50, -1), Sibling(0, -1, -1), Sibling(0, -1, -1)];
    assert sibs[..2] == [Sibling(0, 50, -1), Sibling(0, -1, -1)];
    assert sibs[..2][..1] == [Sibling(0, 50, -1)] && [Sibling(0, 50, -1)][..0] == [];
  }

  /** The correction of that example: two cells short, so the first two
      entries grow by one each. */
  lemma {:induction false} DilutedCorrected()
    ensures InRange([], 3) && Corrected([40, 24, 24], [], 90) == [41, 25, 24]
  {
    var sizes := [40, 24, 24];
    assert sizes[..2] == [40, 24] && [40, 24][..1] == [40] && [40][..0] == [];
    assert Sum(sizes) == 88;
    assert Adjusted(sizes, [], 1, 1) == [41, 24, 24];
    assert Adjusted(sizes, [], 1, 2) == [41, 25, 24];
  }

  /** The truncated sizes of that example. */
  lemma {:induction false} DilutedTruncated()
    ensures Truncated([500.0 / 11.0, 300.0 / 11.0, 300.0 / 11.0], 90) == [40, 24, 24]
  {
    assert 90.0 * (500.0 / 11.0) / 100.0 == 450.0 / 11.0;
    assert PercentOf(90, 500.0 / 11.0) == 40;
    assert 90.0 * (300.0 / 11.0) / 100.0 == 270.0 / 11.0;
    assert PercentOf(90, 300.0 / 11.0) == 24;
  }

  /** The percentages of that example: 50 of 90 cells is 500/9 percent
      against 100/3 for the others, which normalises to 500:300:300 over 11. */
  lemma {:induction false} DilutedPercentages()
    ensures Percentages([Sibling(0, 50, -1), Sibling(0, -1, -1), Sibling(0, -1, -1)], false, 90)
            == [500.0 / 11.0, 300.0 / 11.0, 300.0 / 11.0]
  {
    var sibs := [Sibling(0, 50, -1), Sibling(0, -1, -1), Sibling(0, -1, -1)];
    var third := 100.0 / 3.0;
    NoneSet(sibs);
    assert FillShare(sibs) == third;
    var filled := Filled(Weights(sibs, false), third);
    assert filled == [third, third, third];
    FilledSum(sibs, false);
    var clamped := Clamped(filled, sibs, 90);
    assert clamped == [500.0 / 9.0, third, third];
    ClampedTotal(third);
    assert FloatDiv(100.0, 1100.0 / 9.0) == 9.0 / 11.0;
    ScaledAt(clamped, 9.0 / 11.0);
  }

  lemma {:induction false} ClampedTotal(third: real)
    requires third == 100.0 / 3.0
    ensures SumReal([500.0 / 9.0, third, third]) == 1100.0 / 9.0
  {
    var clamped := [500.0 / 9.0, third, third];
    assert clamped[..2] == [500.0 / 9.0, third] && clamped[..2][..1] == [500.0 / 9.0] && [500.0 / 9.0][..0] == [];
    assert SumReal([500.0 / 9.0]) == 500.0 / 9.0;
    assert SumReal([500.0 / 9.0, third]) == 500.0 / 9.0 + third;
  }
}
