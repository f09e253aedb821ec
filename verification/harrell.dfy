/** Harrell's concordance index for right-censored data, stated over the
    samples listed in ascending order of their observed time ("sort
    positions"). Everything here is a reference definition: the methods in
    comparable.dfy and concordance.dfy are proved to compute these values. */
module Harrell {

  /** How one comparable pair (event j, other sample k) is scored. */
  datatype PairClass = Concordant | Discordant | TiedRisk

  /** The value of `numerator / denominator`: the exact quotient when the
      denominator is non-zero, and IEEE 754's NaN or signed infinity when it
      is zero. */
  datatype Ratio = Finite(value: real) | NaN | Infinite(positive: bool)

  function Abs(x: real): real {
    if x < 0.0 then -x else x
  }

  /** w * n, written as n copies of w added up, so that the totals below stay
      linear in the weights. */
  function Times(w: real, n: nat): real {
    if n == 0 then 0.0 else Times(w, n - 1) + w
  }

  /** Division with exact quotients, keeping the outcomes IEEE 754 gives a
      zero denominator: NaN for 0/0 and a signed infinity otherwise. */
  function Divide(num: real, den: real): (q: Ratio)
    ensures q.Finite? <==> den != 0.0
    ensures q.Finite? ==> q.value * den == num
    ensures q.NaN? <==> den == 0.0 && num == 0.0
  {
    if den != 0.0 then Finite(num / den)
    else if num == 0.0 then NaN
    else Infinite(num > 0.0)
  }

  // ---------------------------------------------------------------------
  // Sort order

  /** `xs[order]`: the entry of xs at each sort position. */
  function Permuted<T>(xs: seq<T>, order: seq<nat>): (ys: seq<T>)
    requires forall k :: 0 <= k < |order| ==> order[k] < |xs|
    ensures |ys| == |order|
    ensures forall k :: 0 <= k < |order| ==> ys[k] == xs[order[k]]
  {
    seq(|order|, k requires 0 <= k < |order| => xs[order[k]])
  }

  predicate IsPermutation(order: seq<nat>, n: nat) {
    && |order| == n
    && (forall k :: 0 <= k < n ==> order[k] < n)
    && (forall p, q :: 0 <= p < q < n ==> order[p] != order[q])
  }

  predicate Ascending(ts: seq<real>) {
    forall p, q :: 0 <= p <= q < |ts| ==> ts[p] <= ts[q]
  }

  /** What `numpy.argsort(times)` may return: any permutation of the sample
      indices that lists the times in ascending order, equal times in any order. */
  predicate IsArgsort(order: seq<nat>, times: seq<real>) {
    IsPermutation(order, |times|) && Ascending(Permuted(times, order))
  }

  // ---------------------------------------------------------------------
  // Comparable pairs

  /** The event at sort position j is comparable with sample k when k was
      observed strictly later, or at the same time and censored then.
      Two events at the same time are never comparable. */
  predicate Comparable(ev: seq<bool>, ts: seq<real>, j: nat, k: nat)
    requires |ev| == |ts| && j < |ts| && k < |ts|
    ensures Comparable(ev, ts, j, k) ==> ev[j] && ts[j] <= ts[k] && j != k
    ensures ev[j] && ev[k] && ts[j] == ts[k] ==> !Comparable(ev, ts, j, k)
    ensures ev[j] && ts[j] < ts[k] ==> Comparable(ev, ts, j, k)
  {
    ev[j] && (ts[j] < ts[k] || (ts[j] == ts[k] && !ev[k]))
  }

  /** The comparability row of sort position j, over all sort positions. */
  function ComparableMask(ev: seq<bool>, ts: seq<real>, j: nat): (mask: seq<bool>)
    requires |ev| == |ts| && j < |ts|
    ensures |mask| == |ts|
    ensures forall k :: 0 <= k < |ts| ==> mask[k] == Comparable(ev, ts, j, k)
  {
    seq(|ts|, k requires 0 <= k < |ts| => Comparable(ev, ts, j, k))
  }

  /** The group scan gives sort position j an entry when it is an event and
      it is not alone in the last time group (the scan stops at n - 1). */
  predicate HasEntry(ev: seq<bool>, ts: seq<real>, j: nat)
    requires |ev| == |ts| && j < |ts|
    ensures HasEntry(ev, ts, j) ==> ev[j]
    ensures ev[j] && !HasEntry(ev, ts, j) ==> j == |ts| - 1
  {
    ev[j] && (j + 1 < |ts| || (0 < j && ts[j - 1] == ts[j]))
  }

  // ---------------------------------------------------------------------
  // Counting over masks (numpy's `sum`, fancy indexing and comparisons)

  /** `mask.sum()`. */
  function CountTrue(mask: seq<bool>): (c: nat)
    ensures c <= |mask|
  {
    if mask == [] then 0
    else CountTrue(mask[..|mask| - 1]) + (if mask[|mask| - 1] then 1 else 0)
  }

  /** `xs[mask]`: the entries at the marked positions, in position order. */
  function Gather<T>(xs: seq<T>, mask: seq<bool>): (g: seq<T>)
    requires |xs| == |mask|
    ensures |g| <= |xs|
  {
    if mask == [] then []
    else Gather(xs[..|xs| - 1], mask[..|mask| - 1])
         + (if mask[|mask| - 1] then [xs[|xs| - 1]] else [])
  }

  /** Scoring of a comparable estimate `est` against the event's `estI`:
      a risk tie within `tol` first, then concordant if strictly lower. */
  function Classify(estI: real, est: real, tol: real): (c: PairClass)
    ensures c == TiedRisk <==> Abs(est - estI) <= tol
    ensures c == Concordant ==> est < estI
    ensures c == Discordant ==> estI <= est
    ensures 0.0 <= tol && est == estI ==> c == TiedRisk
  {
    if Abs(est - estI) <= tol then TiedRisk
    else if est < estI then Concordant
    else Discordant
  }

  /** How many entries of `est` are scored `c` against `estI`. */
  function CountClass(est: seq<real>, estI: real, tol: real, c: PairClass): (n: nat)
    ensures n <= |est|
  {
    if est == [] then 0
    else CountClass(est[..|est| - 1], estI, tol, c)
         + (if Classify(estI, est[|est| - 1], tol) == c then 1 else 0)
  }


  // ---------------------------------------------------------------------
  // Per-row counts and totals, as the accumulator reports them

  predicate Aligned(ev: seq<bool>, ts: seq<real>, es: seq<real>) {
    |ev| == |ts| == |es|
  }

  /** Pairs of row j scored `c`. */
  function RowCount(ev: seq<bool>, ts: seq<real>, es: seq<real>, tol: real, j: nat, c: PairClass): nat
    requires Aligned(ev, ts, es) && j < |ts|
  {
    CountClass(Gather(es, ComparableMask(ev, ts, j)), es[j], tol, c)
  }

  /** Row counts of pairs scored `c`, one per sort position. */
  function ClassCounts(ev: seq<bool>, ts: seq<real>, es: seq<real>, tol: real, c: PairClass): (r: seq<nat>)
    requires Aligned(ev, ts, es)
    ensures |r| == |ts|
    ensures forall j :: 0 <= j < |ts| ==> r[j] == RowCount(ev, ts, es, tol, j, c)
  {
    seq(|ts|, j requires 0 <= j < |ts| => RowCount(ev, ts, es, tol, j, c))
  }

  /** Row counts of comparable pairs, one per sort position. */
  function PairCounts(ev: seq<bool>, ts: seq<real>): (r: seq<nat>)
    requires |ev| == |ts|
    ensures |r| == |ts|
    ensures forall j :: 0 <= j < |ts| ==> r[j] == CountTrue(ComparableMask(ev, ts, j))
  {
    seq(|ts|, j requires 0 <= j < |ts| => CountTrue(ComparableMask(ev, ts, j)))
  }

  /** Censored samples among positions below m observed at time t. */
  function CensoredAt(ev: seq<bool>, ts: seq<real>, t: real, m: nat): nat
    requires |ev| == |ts| && m <= |ts|
  {
    if m == 0 then 0
    else CensoredAt(ev, ts, t, m - 1) + (if !ev[m - 1] && ts[m - 1] == t then 1 else 0)
  }

  /** For every event, the censored samples observed at its time. */
  function TiedCounts(ev: seq<bool>, ts: seq<real>): (r: seq<nat>)
    requires |ev| == |ts|
    ensures |r| == |ts|
    ensures forall j :: 0 <= j < |ts| ==> r[j] == if ev[j] then CensoredAt(ev, ts, ts[j], |ts|) else 0
  {
    seq(|ts|, j requires 0 <= j < |ts| => if ev[j] then CensoredAt(ev, ts, ts[j], |ts|) else 0)
  }

  /** xs[0] + ... + xs[m - 1]. */
  function Total(xs: seq<nat>, m: nat): nat
    requires m <= |xs|
  {
    if m == 0 then 0 else Total(xs, m - 1) + xs[m - 1]
  }

  /** ws[0] * xs[0] + ... + ws[m - 1] * xs[m - 1]. */
  function WeightedSum(ws: seq<real>, xs: seq<nat>, m: nat): real
    requires |ws| == |xs| && m <= |xs|
  {
    if m == 0 then 0.0 else WeightedSum(ws, xs, m - 1) + Times(ws[m - 1], xs[m - 1])
  }

  /** Comparable pairs scored `c`: the `concordant`, `discordant` and
      `tied_risk` results. */
  function ClassTotal(ev: seq<bool>, ts: seq<real>, es: seq<real>, tol: real, c: PairClass): nat
    requires Aligned(ev, ts, es)
  {
    Total(ClassCounts(ev, ts, es, tol, c), |ts|)
  }

  /** All comparable pairs. */
  function PairTotal(ev: seq<bool>, ts: seq<real>): nat
    requires |ev| == |ts|
  {
    Total(PairCounts(ev, ts), |ts|)
  }

  /** (event, censored) pairs observed at the same time: the `tied_time` result. */
  function TiedTime(ev: seq<bool>, ts: seq<real>): nat
    requires |ev| == |ts|
  {
    Total(TiedCounts(ev, ts), |ts|)
  }

  /** Weighted credit: one per concordant pair, one half per risk tie. */
  function Numerator(ev: seq<bool>, ts: seq<real>, es: seq<real>, ws: seq<real>, tol: real): real
    requires Aligned(ev, ts, es) && |ws| == |ts|
  {
    WeightedSum(ws, ClassCounts(ev, ts, es, tol, Concordant), |ts|)
    + 0.5 * WeightedSum(ws, ClassCounts(ev, ts, es, tol, TiedRisk), |ts|)
  }

  /** Weighted number of comparable pairs. */
  function Denominator(ev: seq<bool>, ts: seq<real>, ws: seq<real>): real
    requires |ev| == |ts| == |ws|
  {
    WeightedSum(ws, PairCounts(ev, ts), |ts|)
  }

  predicate UnitWeights(ws: seq<real>) {
    forall k :: 0 <= k < |ws| ==> ws[k] == 1.0
  }

  predicate NonNegativeWeights(ws: seq<real>) {
    forall k :: 0 <= k < |ws| ==> ws[k] >= 0.0
  }

  // ---------------------------------------------------------------------
  // Arithmetic of the sums

  lemma {:induction false} TimesIsProduct(w: real, n: nat)
    ensures Times(w, n) == w * n as real
  {
    if n > 0 {
      TimesIsProduct(w, n - 1);
    }
  }

  lemma {:induction false} TimesAdd(w: real, a: nat, b: nat)
    ensures Times(w, a + b) == Times(w, a) + Times(w, b)
  {
    if b > 0 {
      TimesAdd(w, a, b - 1);
    }
  }

  lemma {:induction false} TimesNonNegative(w: real, n: nat)
    requires w >= 0.0
    ensures Times(w, n) >= 0.0
  {
    if n > 0 {
      TimesNonNegative(w, n - 1);
    }
  }

  lemma TimesScaled(c: real, w: real, w': real, n: nat)
    requires w' == c * w
    ensures Times(w', n) == c * Times(w, n)
  {
    TimesIsProduct(w', n);
    TimesIsProduct(w, n);
    assert w' * (n as real) == c * (w * n as real);
  }

  lemma Distribute(c: real, sum: real, x: real, y: real)
    requires sum == x + y
    ensures c * sum == c * x + c * y
  {
  }

  lemma {:induction false} TotalOfParts(a: seq<nat>, b: seq<nat>, c: seq<nat>, p: seq<nat>, m: nat)
    requires |a| == |b| == |c| == |p| && m <= |p|
    requires forall j :: 0 <= j < |p| ==> a[j] + b[j] + c[j] == p[j]
    ensures Total(a, m) + Total(b, m) + Total(c, m) == Total(p, m)
  {
    if m > 0 {
      TotalOfParts(a, b, c, p, m - 1);
    }
  }

  lemma {:induction false} WeightedSumOfUnits(ws: seq<real>, xs: seq<nat>, m: nat)
    requires |ws| == |xs| && m <= |xs| && UnitWeights(ws)
    ensures WeightedSum(ws, xs, m) == Total(xs, m) as real
  {
    if m > 0 {
      WeightedSumOfUnits(ws, xs, m - 1);
      TimesIsProduct(ws[m - 1], xs[m - 1]);
    }
  }

  lemma {:induction false} WeightedSumBound(ws: seq<real>, a: seq<nat>, b: seq<nat>, p: seq<nat>, m: nat)
    requires |ws| == |a| == |b| == |p| && m <= |p| && NonNegativeWeights(ws)
    requires forall j :: 0 <= j < |p| ==> a[j] + b[j] <= p[j]
    ensures 0.0 <= WeightedSum(ws, a, m) + 0.5 * WeightedSum(ws, b, m) <= WeightedSum(ws, p, m)
  {
    if m > 0 {
      var j := m - 1;
      WeightedSumBound(ws, a, b, p, j);
      TimesAdd(ws[j], a[j], b[j]);
      TimesAdd(ws[j], a[j] + b[j], p[j] - (a[j] + b[j]));
      TimesNonNegative(ws[j], a[j]);
      TimesNonNegative(ws[j], b[j]);
      TimesNonNegative(ws[j], p[j] - (a[j] + b[j]));
    }
  }

  lemma {:induction false} WeightedSumScaled(ws: seq<real>, ws': seq<real>, c: real, xs: seq<nat>, m: nat)
    requires |ws| == |ws'| == |xs| && m <= |xs|
    requires forall k :: 0 <= k < |ws| ==> ws'[k] == c * ws[k]
    ensures WeightedSum(ws', xs, m) == c * WeightedSum(ws, xs, m)
  {
    if m > 0 {
      var j := m - 1;
      WeightedSumScaled(ws, ws', c, xs, j);
      TimesScaled(c, ws[j], ws'[j], xs[j]);
      Distribute(c, WeightedSum(ws, xs, m), WeightedSum(ws, xs, j), Times(ws[j], xs[j]));
    }
  }

  // ---------------------------------------------------------------------
  // Properties of the concordance counts

  /** `est.size == mask.sum()`. */
  lemma {:induction false} GatherLength<T>(xs: seq<T>, mask: seq<bool>)
    requires |xs| == |mask|
    ensures |Gather(xs, mask)| == CountTrue(mask)
  {
    if mask != [] {
      GatherLength(xs[..|xs| - 1], mask[..|mask| - 1]);
    }
  }

  /** When every marked estimate is scored `c` against `estI`, so is every
      entry of `es[mask]`. */
  lemma {:induction false} GatherClassified(es: seq<real>, mask: seq<bool>, estI: real, tol: real, c: PairClass)
    requires |es| == |mask|
    requires forall k :: 0 <= k < |es| && mask[k] ==> Classify(estI, es[k], tol) == c
    ensures forall i :: 0 <= i < |Gather(es, mask)| ==> Classify(estI, Gather(es, mask)[i], tol) == c
  {
    if mask != [] {
      var n := |es| - 1;
      GatherClassified(es[..n], mask[..n], estI, tol, c);
      assert Gather(es, mask) == Gather(es[..n], mask[..n]) + (if mask[n] then [es[n]] else []);
    }
  }

  /** Every gathered estimate is exactly one of concordant, discordant, tied. */
  lemma {:induction false} ClassPartition(est: seq<real>, estI: real, tol: real)
    ensures CountClass(est, estI, tol, Concordant) + CountClass(est, estI, tol, Discordant)
            + CountClass(est, estI, tol, TiedRisk) == |est|
  {
    if est != [] {
      ClassPartition(est[..|est| - 1], estI, tol);
    }
  }

  /** Within one row, concordant + discordant + tied equals the row's pairs. */
  lemma RowPartition(ev: seq<bool>, ts: seq<real>, es: seq<real>, tol: real, j: nat)
    requires Aligned(ev, ts, es) && j < |ts|
    ensures RowCount(ev, ts, es, tol, j, Concordant) + RowCount(ev, ts, es, tol, j, Discordant)
            + RowCount(ev, ts, es, tol, j, TiedRisk) == CountTrue(ComparableMask(ev, ts, j))
  {
    var mask := ComparableMask(ev, ts, j);
    ClassPartition(Gather(es, mask), es[j], tol);
    GatherLength(es, mask);
  }

  lemma {:induction false} CountTrueNone(mask: seq<bool>)
    requires forall k :: 0 <= k < |mask| ==> !mask[k]
    ensures CountTrue(mask) == 0
  {
    if mask != [] {
      CountTrueNone(mask[..|mask| - 1]);
    }
  }

  /** When every estimate of a row is scored `c`, the row counts all of them
      as `c` and none as anything else. */
  lemma {:induction false} CountClassUniform(est: seq<real>, estI: real, tol: real, c: PairClass)
    requires forall i :: 0 <= i < |est| ==> Classify(estI, est[i], tol) == c
    ensures forall c' :: CountClass(est, estI, tol, c') == if c' == c then |est| else 0
  {
    if est != [] {
      CountClassUniform(est[..|est| - 1], estI, tol, c);
    }
  }

  lemma {:induction false} TotalOfZeros(xs: seq<nat>, m: nat)
    requires m <= |xs| && forall j :: 0 <= j < |xs| ==> xs[j] == 0
    ensures Total(xs, m) == 0
  {
    if m > 0 {
      TotalOfZeros(xs, m - 1);
    }
  }

  /** A sort position without an entry has no comparable sample at all: it is
      censored, or it is an event alone at the largest time. */
  lemma NoPairsWithoutEntry(ev: seq<bool>, ts: seq<real>, es: seq<real>, tol: real, j: nat)
    requires Aligned(ev, ts, es) && Ascending(ts) && j < |ts|
    requires !HasEntry(ev, ts, j)
    ensures forall k :: 0 <= k < |ts| ==> !Comparable(ev, ts, j, k)
    ensures CountTrue(ComparableMask(ev, ts, j)) == 0
    ensures forall c :: RowCount(ev, ts, es, tol, j, c) == 0
  {
    var mask := ComparableMask(ev, ts, j);
    forall k | 0 <= k < |ts| ensures !Comparable(ev, ts, j, k) {
      if ev[j] && k < j {
        assert ts[k] <= ts[j - 1] < ts[j];
      }
    }
    CountTrueNone(mask);
    GatherLength(es, mask);
  }

  /** Pair conservation: concordant + discordant + tied_risk is the number of
      comparable pairs. */
  lemma PairConservation(ev: seq<bool>, ts: seq<real>, es: seq<real>, tol: real)
    requires Aligned(ev, ts, es)
    ensures ClassTotal(ev, ts, es, tol, Concordant) + ClassTotal(ev, ts, es, tol, Discordant)
            + ClassTotal(ev, ts, es, tol, TiedRisk) == PairTotal(ev, ts)
  {
    forall j | 0 <= j < |ts|
      ensures RowCount(ev, ts, es, tol, j, Concordant) + RowCount(ev, ts, es, tol, j, Discordant)
              + RowCount(ev, ts, es, tol, j, TiedRisk) == CountTrue(ComparableMask(ev, ts, j))
    {
      RowPartition(ev, ts, es, tol, j);
    }
    TotalOfParts(ClassCounts(ev, ts, es, tol, Concordant), ClassCounts(ev, ts, es, tol, Discordant),
                 ClassCounts(ev, ts, es, tol, TiedRisk), PairCounts(ev, ts), |ts|);
  }

  /** Every censored sample observed at the time of event j is comparable with j. */
  lemma {:induction false} CensoredAtWithinRow(ev: seq<bool>, ts: seq<real>, j: nat, m: nat)
    requires |ev| == |ts| && j < |ts| && ev[j] && m <= |ts|
    ensures CensoredAt(ev, ts, ts[j], m) <= CountTrue(ComparableMask(ev, ts, j)[..m])
  {
    if m > 0 {
      CensoredAtWithinRow(ev, ts, j, m - 1);
      var mask := ComparableMask(ev, ts, j);
      assert mask[..m][..m - 1] == mask[..m - 1];
    }
  }

  lemma {:induction false} TotalMonotone(a: seq<nat>, b: seq<nat>, m: nat)
    requires |a| == |b| && m <= |a|
    requires forall j :: 0 <= j < |a| ==> a[j] <= b[j]
    ensures Total(a, m) <= Total(b, m)
  {
    if m > 0 {
      TotalMonotone(a, b, m - 1);
    }
  }

  /** The pairs counted by `tied_time` are comparable pairs sharing a time, so
      there are never more of them than comparable pairs. */
  lemma TiedTimeWithinPairs(ev: seq<bool>, ts: seq<real>)
    requires |ev| == |ts|
    ensures TiedTime(ev, ts) <= PairTotal(ev, ts)
  {
    forall j | 0 <= j < |ts| ensures TiedCounts(ev, ts)[j] <= PairCounts(ev, ts)[j] {
      if ev[j] {
        CensoredAtWithinRow(ev, ts, j, |ts|);
        assert ComparableMask(ev, ts, j)[..|ts|] == ComparableMask(ev, ts, j);
      }
    }
    TotalMonotone(TiedCounts(ev, ts), PairCounts(ev, ts), |ts|);
  }

  /** With unit weights the denominator counts comparable pairs and the
      numerator is concordant + tied_risk / 2. */
  lemma UnitWeightTotals(ev: seq<bool>, ts: seq<real>, es: seq<real>, ws: seq<real>, tol: real)
    requires Aligned(ev, ts, es) && |ws| == |ts| && UnitWeights(ws)
    ensures Denominator(ev, ts, ws) == PairTotal(ev, ts) as real
    ensures Numerator(ev, ts, es, ws, tol)
            == ClassTotal(ev, ts, es, tol, Concordant) as real + 0.5 * ClassTotal(ev, ts, es, tol, TiedRisk) as real
  {
    WeightedSumOfUnits(ws, PairCounts(ev, ts), |ts|);
    WeightedSumOfUnits(ws, ClassCounts(ev, ts, es, tol, Concordant), |ts|);
    WeightedSumOfUnits(ws, ClassCounts(ev, ts, es, tol, TiedRisk), |ts|);
  }

  /** For non-negative weights, 0 <= numerator <= denominator. */
  lemma NumeratorWithinDenominator(ev: seq<bool>, ts: seq<real>, es: seq<real>, ws: seq<real>, tol: real)
    requires Aligned(ev, ts, es) && |ws| == |ts| && NonNegativeWeights(ws)
    ensures 0.0 <= Numerator(ev, ts, es, ws, tol) <= Denominator(ev, ts, ws)
  {
    var con := ClassCounts(ev, ts, es, tol, Concordant);
    var tie := ClassCounts(ev, ts, es, tol, TiedRisk);
    var pairs := PairCounts(ev, ts);
    forall j | 0 <= j < |ts| ensures con[j] + tie[j] <= pairs[j] {
      RowPartition(ev, ts, es, tol, j);
    }
    WeightedSumBound(ws, con, tie, pairs, |ts|);
  }

  lemma RatioInUnitInterval(num: real, den: real)
    requires 0.0 <= num <= den && den > 0.0
    ensures 0.0 <= num / den <= 1.0
  {
    var q := num / den;
    assert q * den == num;
  }

  /** The concordance index lies in [0, 1] whenever the weights are
      non-negative and the denominator is positive. */
  lemma CIndexInUnitInterval(ev: seq<bool>, ts: seq<real>, es: seq<real>, ws: seq<real>, tol: real)
    requires Aligned(ev, ts, es) && |ws| == |ts| && NonNegativeWeights(ws)
    requires Denominator(ev, ts, ws) > 0.0
    ensures Divide(Numerator(ev, ts, es, ws, tol), Denominator(ev, ts, ws)).Finite?
    ensures 0.0 <= Divide(Numerator(ev, ts, es, ws, tol), Denominator(ev, ts, ws)).value <= 1.0
  {
    NumeratorWithinDenominator(ev, ts, es, ws, tol);
    RatioInUnitInterval(Numerator(ev, ts, es, ws, tol), Denominator(ev, ts, ws));
  }

  lemma RatioOfCredit(num: real, den: real, con: real, dis: real, tie: real)
    requires num == con + 0.5 * tie && den == con + dis + tie && den > 0.0
    ensures dis == 0.0 && tie == 0.0 ==> num / den == 1.0
    ensures con == 0.0 && dis == 0.0 ==> num / den == 0.5
  {
  }

  /** When every comparable pair is scored `c`, all pairs are counted as `c`
      and none as anything else. */
  lemma UniformRows(ev: seq<bool>, ts: seq<real>, es: seq<real>, tol: real, c: PairClass)
    requires Aligned(ev, ts, es)
    requires forall j, k :: 0 <= j < |ts| && 0 <= k < |ts| && Comparable(ev, ts, j, k)
                            ==> Classify(es[j], es[k], tol) == c
    ensures ClassTotal(ev, ts, es, tol, c) == PairTotal(ev, ts)
    ensures forall c' :: c' != c ==> ClassTotal(ev, ts, es, tol, c') == 0
  {
    forall j | 0 <= j < |ts|
      ensures forall c' :: RowCount(ev, ts, es, tol, j, c') == if c' == c then CountTrue(ComparableMask(ev, ts, j)) else 0
    {
      var mask := ComparableMask(ev, ts, j);
      GatherClassified(es, mask, es[j], tol, c);
      CountClassUniform(Gather(es, mask), es[j], tol, c);
      GatherLength(es, mask);
    }
    assert ClassCounts(ev, ts, es, tol, c) == PairCounts(ev, ts);
    forall c' | c' != c ensures ClassTotal(ev, ts, es, tol, c') == 0 {
      TotalOfZeros(ClassCounts(ev, ts, es, tol, c'), |ts|);
    }
  }

  /** With unit weights and at least one comparable pair: a ranking that puts
      every comparable sample strictly below the event's estimate, by more
      than `tied_tol`, gives 1; estimates within `tied_tol` of the event's on
      every comparable pair give 1/2. */
  lemma ExtremeRankings(ev: seq<bool>, ts: seq<real>, es: seq<real>, ones: seq<real>, tol: real)
    requires Aligned(ev, ts, es) && |ones| == |ts| && UnitWeights(ones) && PairTotal(ev, ts) > 0
    ensures (forall j, k :: 0 <= j < |ts| && 0 <= k < |ts| && Comparable(ev, ts, j, k)
                            ==> es[k] < es[j] && es[j] - es[k] > tol)
            ==> Divide(Numerator(ev, ts, es, ones, tol), Denominator(ev, ts, ones)) == Finite(1.0)
    ensures (forall j, k :: 0 <= j < |ts| && 0 <= k < |ts| && Comparable(ev, ts, j, k)
                            ==> Abs(es[k] - es[j]) <= tol)
            ==> Divide(Numerator(ev, ts, es, ones, tol), Denominator(ev, ts, ones)) == Finite(0.5)
  {
    UnitWeightTotals(ev, ts, es, ones, tol);
    PairConservation(ev, ts, es, tol);
    if forall j, k :: 0 <= j < |ts| && 0 <= k < |ts| && Comparable(ev, ts, j, k)
                      ==> es[k] < es[j] && es[j] - es[k] > tol {
      UniformRows(ev, ts, es, tol, Concordant);
    }
    if forall j, k :: 0 <= j < |ts| && 0 <= k < |ts| && Comparable(ev, ts, j, k)
                      ==> Abs(es[k] - es[j]) <= tol {
      UniformRows(ev, ts, es, tol, TiedRisk);
    }
    RatioOfCredit(Numerator(ev, ts, es, ones, tol), Denominator(ev, ts, ones),
                  ClassTotal(ev, ts, es, tol, Concordant) as real, ClassTotal(ev, ts, es, tol, Discordant) as real,
                  ClassTotal(ev, ts, es, tol, TiedRisk) as real);
  }

  // ---------------------------------------------------------------------
  // Weight neutrality

  lemma ScaleCredit(c: real, num: real, num': real, a: real, a': real, b: real, b': real)
    requires num == a + 0.5 * b && num' == a' + 0.5 * b'
    requires a' == c * a && b' == c * b
    ensures num' == c * num
  {
  }

  lemma ScaleEqual(c: real, x: real, y: real)
    requires x == y
    ensures c * x == c * y
  {
  }

  lemma CreditScaled(ws: seq<real>, ws': seq<real>, c: real, a: seq<nat>, b: seq<nat>, m: nat)
    requires |ws| == |ws'| == |a| == |b| && m <= |a|
    requires forall k :: 0 <= k < |ws| ==> ws'[k] == c * ws[k]
    ensures WeightedSum(ws', a, m) + 0.5 * WeightedSum(ws', b, m)
         == c * (WeightedSum(ws, a, m) + 0.5 * WeightedSum(ws, b, m))
  {
    WeightedSumScaled(ws, ws', c, a, m);
    WeightedSumScaled(ws, ws', c, b, m);
    ScaleCredit(c, WeightedSum(ws, a, m) + 0.5 * WeightedSum(ws, b, m),
                WeightedSum(ws', a, m) + 0.5 * WeightedSum(ws', b, m),
                WeightedSum(ws, a, m), WeightedSum(ws', a, m),
                WeightedSum(ws, b, m), WeightedSum(ws', b, m));
  }

  /** Scaling every weight by c scales the numerator by c. */
  lemma ScaledNumerator(ev: seq<bool>, ts: seq<real>, es: seq<real>, ws: seq<real>, ws': seq<real>, c: real, tol: real)
    requires Aligned(ev, ts, es) && |ws| == |ts| == |ws'|
    requires forall k :: 0 <= k < |ws| ==> ws'[k] == c * ws[k]
    ensures Numerator(ev, ts, es, ws', tol) == c * Numerator(ev, ts, es, ws, tol)
  {
    var con := ClassCounts(ev, ts, es, tol, Concordant);
    var tie := ClassCounts(ev, ts, es, tol, TiedRisk);
    var credit := WeightedSum(ws, con, |ts|) + 0.5 * WeightedSum(ws, tie, |ts|);
    assert Numerator(ev, ts, es, ws, tol) == credit;
    assert Numerator(ev, ts, es, ws', tol) == WeightedSum(ws', con, |ts|) + 0.5 * WeightedSum(ws', tie, |ts|);
    CreditScaled(ws, ws', c, con, tie, |ts|);
    ScaleEqual(c, Numerator(ev, ts, es, ws, tol), credit);
  }

  /** Scaling every weight by c scales the denominator by c. */
  lemma ScaledDenominator(ev: seq<bool>, ts: seq<real>, ws: seq<real>, ws': seq<real>, c: real)
    requires |ev| == |ts| && |ws| == |ts| == |ws'|
    requires forall k :: 0 <= k < |ws| ==> ws'[k] == c * ws[k]
    ensures Denominator(ev, ts, ws') == c * Denominator(ev, ts, ws)
  {
    WeightedSumScaled(ws, ws', c, PairCounts(ev, ts), |ts|);
    ScaleEqual(c, Denominator(ev, ts, ws), WeightedSum(ws, PairCounts(ev, ts), |ts|));
  }

  /** A positive common factor does not change the ratio. */
  lemma DivideScaleInvariant(num: real, den: real, c: real)
    requires c > 0.0
    ensures Divide(c * num, c * den) == Divide(num, den)
  {
    if den != 0.0 {
      var q := num / den;
      assert c * den != 0.0;
      assert q * (c * den) == c * num;
    } else {
      assert c * num == 0.0 <==> num == 0.0;
      assert c * num > 0.0 <==> num > 0.0;
    }
  }

  /** Weight neutrality: the same positive weight c for every sample gives the
      concordance index of unit weights. */
  lemma ConstantWeightsNeutral(ev: seq<bool>, ts: seq<real>, es: seq<real>, ws: seq<real>, ones: seq<real>, c: real, tol: real)
    requires Aligned(ev, ts, es) && |ws| == |ts| == |ones| && c > 0.0
    requires UnitWeights(ones) && forall k :: 0 <= k < |ws| ==> ws[k] == c
    ensures Divide(Numerator(ev, ts, es, ws, tol), Denominator(ev, ts, ws))
         == Divide(Numerator(ev, ts, es, ones, tol), Denominator(ev, ts, ones))
  {
    forall k | 0 <= k < |ones| ensures ws[k] == c * ones[k] {
      assert ones[k] == 1.0;
    }
    ScaledNumerator(ev, ts, es, ones, ws, c, tol);
    ScaledDenominator(ev, ts, ones, ws, c);
    DivideScaleInvariant(Numerator(ev, ts, es, ones, tol), Denominator(ev, ts, ones), c);
  }

  // ---------------------------------------------------------------------
  // Symmetry under negation of the estimates

  function Negated(xs: seq<real>): (ys: seq<real>)
    ensures |ys| == |xs| && forall k :: 0 <= k < |xs| ==> ys[k] == -xs[k]
  {
    seq(|xs|, k requires 0 <= k < |xs| => -xs[k])
  }

  function Mirror(c: PairClass): PairClass {
    match c
    case Concordant => Discordant
    case Discordant => Concordant
    case TiedRisk => TiedRisk
  }

  /** For a non-negative tolerance, negating both estimates keeps a risk tie
      and swaps concordant with discordant. */
  lemma ClassifyNegated(estI: real, est: real, tol: real)
    requires tol >= 0.0
    ensures Classify(-estI, -est, tol) == Mirror(Classify(estI, est, tol))
  {
    assert Abs(-est - -estI) == Abs(est - estI);
  }

  lemma {:induction false} GatherNegated(xs: seq<real>, mask: seq<bool>)
    requires |xs| == |mask|
    ensures Gather(Negated(xs), mask) == Negated(Gather(xs, mask))
  {
    if mask != [] {
      var n := |xs|;
      assert Negated(xs)[..n - 1] == Negated(xs[..n - 1]);
      GatherNegated(xs[..n - 1], mask[..n - 1]);
    }
  }

  lemma {:induction false} CountClassNegated(est: seq<real>, estI: real, tol: real, c: PairClass)
    requires tol >= 0.0
    ensures CountClass(Negated(est), -estI, tol, Mirror(c)) == CountClass(est, estI, tol, c)
  {
    if est != [] {
      var n := |est|;
      assert Negated(est)[..n - 1] == Negated(est[..n - 1]);
      CountClassNegated(est[..n - 1], estI, tol, c);
      ClassifyNegated(estI, est[n - 1], tol);
    }
  }

  /** Negating the estimates swaps the concordant and discordant row counts. */
  lemma ClassCountsNegated(ev: seq<bool>, ts: seq<real>, es: seq<real>, tol: real, c: PairClass)
    requires Aligned(ev, ts, es) && tol >= 0.0
    ensures ClassCounts(ev, ts, Negated(es), tol, Mirror(c)) == ClassCounts(ev, ts, es, tol, c)
  {
    forall j | 0 <= j < |ts|
      ensures RowCount(ev, ts, Negated(es), tol, j, Mirror(c)) == RowCount(ev, ts, es, tol, j, c)
    {
      var mask := ComparableMask(ev, ts, j);
      GatherNegated(es, mask);
      CountClassNegated(Gather(es, mask), es[j], tol, c);
    }
  }

  lemma ZeroFactor(a: real, b: real)
    requires a * b == 0.0 && b > 0.0
    ensures a == 0.0
  {
  }

  /** Concordant credit and discordant credit share the denominator. */
  lemma ComplementRatio(num: real, num': real, den: real, con: real, dis: real, tie: real)
    requires num == con + 0.5 * tie && num' == dis + 0.5 * tie
    requires den == con + dis + tie && den > 0.0
    ensures num' / den == 1.0 - num / den
  {
    var x := num / den;
    var y := num' / den;
    assert x * den == num;
    assert y * den == num';
    assert (x + y - 1.0) * den == x * den + y * den - den;
    ZeroFactor(x + y - 1.0, den);
  }

  /** With unit weights and a non-negative tolerance, negating every estimate
      turns the concordance index c into 1 - c (risk ties keep their half). */
  lemma NegatedEstimatesComplement(ev: seq<bool>, ts: seq<real>, es: seq<real>, ones: seq<real>, tol: real)
    requires Aligned(ev, ts, es) && |ones| == |ts| && UnitWeights(ones) && tol >= 0.0
    requires PairTotal(ev, ts) > 0
    ensures Denominator(ev, ts, ones) > 0.0
    ensures Numerator(ev, ts, Negated(es), ones, tol) / Denominator(ev, ts, ones)
         == 1.0 - Numerator(ev, ts, es, ones, tol) / Denominator(ev, ts, ones)
  {
    var con := ClassTotal(ev, ts, es, tol, Concordant) as real;
    var dis := ClassTotal(ev, ts, es, tol, Discordant) as real;
    var tie := ClassTotal(ev, ts, es, tol, TiedRisk) as real;
    var num := Numerator(ev, ts, es, ones, tol);
    var num' := Numerator(ev, ts, Negated(es), ones, tol);
    var den := Denominator(ev, ts, ones);
    UnitWeightTotals(ev, ts, es, ones, tol);
    PairConservation(ev, ts, es, tol);
    assert num == con + 0.5 * tie;
    assert den == con + dis + tie;
    UnitWeightTotals(ev, ts, Negated(es), ones, tol);
    ClassCountsNegated(ev, ts, es, tol, Discordant);
    ClassCountsNegated(ev, ts, es, tol, TiedRisk);
    assert num' == dis + 0.5 * tie;
    ComplementRatio(num, num', den, con, dis, tie);
  }
}
