/** The estimator behind `concordance_index_censored`
    (`_estimate_concordance_index`): it walks the rows of the comparable
    pairs and adds up the counts and the weighted numerator and denominator. */
module Concordance {
  import opened Harrell
  import opened ComparablePairs

  /** The ways the concordance index computation can refuse its input, with
      the error each is raised as. */
  datatype CIndexError =
    | InconsistentLengths   // ValueError from `check_consistent_length`
    | NoSamples             // ValueError from `check_array`: an array with 0 samples
    | TooFewSamples         // ValueError "Need a minimum of two samples"
    | AllCensored           // ValueError "All samples are censored"
    | NoComparablePair      // NoComparablePairException, a ValueError: "Data has no comparable pairs, ..."

  datatype Result<T> = Success(value: T) | Failure(error: CIndexError)

  /** The default `tied_tol` of both entry points, 1e-8. */
  const DefaultTiedTol: real := 0.00000001

  /** `(cindex, concordant, discordant, tied_risk, tied_time)`. */
  datatype Estimate = Estimate(cindex: Ratio, concordant: nat, discordant: nat, tiedRisk: nat, tiedTime: nat)

  /** Whether the group scan gives any sort position a row. */
  predicate AnyEntry(ev: seq<bool>, ts: seq<real>)
    requires |ev| == |ts|
  {
    exists j :: 0 <= j < |ts| && HasEntry(ev, ts, j)
  }

  /** The estimate Harrell's definition gives, over the sort positions. */
  function HarrellEstimate(ev: seq<bool>, ts: seq<real>, es: seq<real>, ws: seq<real>, tol: real): (e: Estimate)
    requires Aligned(ev, ts, es) && |ws| == |ts|
    ensures e.concordant + e.discordant + e.tiedRisk == PairTotal(ev, ts)
  {
    PairConservation(ev, ts, es, tol);
    Estimate(Divide(Numerator(ev, ts, es, ws, tol), Denominator(ev, ts, ws)),
             ClassTotal(ev, ts, es, tol, Concordant), ClassTotal(ev, ts, es, tol, Discordant),
             ClassTotal(ev, ts, es, tol, TiedRisk), TiedTime(ev, ts))
  }

  /** The accumulators after the rows of the sort positions below m. */
  predicate Accumulated(ev: seq<bool>, ts: seq<real>, es: seq<real>, ws: seq<real>, tol: real, m: nat,
                        concordant: nat, discordant: nat, tiedRisk: nat, numerator: real, denominator: real)
    requires Aligned(ev, ts, es) && |ws| == |ts| && m <= |ts|
  {
    && concordant == Total(ClassCounts(ev, ts, es, tol, Concordant), m)
    && discordant == Total(ClassCounts(ev, ts, es, tol, Discordant), m)
    && tiedRisk == Total(ClassCounts(ev, ts, es, tol, TiedRisk), m)
    && numerator == WeightedSum(ws, ClassCounts(ev, ts, es, tol, Concordant), m)
                    + 0.5 * WeightedSum(ws, ClassCounts(ev, ts, es, tol, TiedRisk), m)
    && denominator == WeightedSum(ws, PairCounts(ev, ts), m)
  }

  /** Adding one row: with weight w, c concordant pairs and t ties out of p
      comparable pairs (`mask.sum()`), `size` of them gathered (`est.size`). */
  lemma AccumulateRow(ev: seq<bool>, ts: seq<real>, es: seq<real>, ws: seq<real>, tol: real, m: nat,
                      concordant: nat, discordant: nat, tiedRisk: nat, numerator: real, denominator: real,
                      w: real, c: nat, t: nat, p: nat, size: nat)
    requires Aligned(ev, ts, es) && |ws| == |ts| && m < |ts|
    requires Accumulated(ev, ts, es, ws, tol, m, concordant, discordant, tiedRisk, numerator, denominator)
    requires w == ws[m] && p == CountTrue(ComparableMask(ev, ts, m)) && size == p
    requires c == RowCount(ev, ts, es, tol, m, Concordant) && t == RowCount(ev, ts, es, tol, m, TiedRisk)
    ensures c + t <= size
    ensures Accumulated(ev, ts, es, ws, tol, m + 1, concordant + c, discordant + (size - c - t), tiedRisk + t,
                        numerator + (w * c as real + 0.5 * w * t as real), denominator + w * p as real)
  {
    RowPartition(ev, ts, es, tol, m);
    TimesIsProduct(w, c);
    TimesIsProduct(w, t);
    TimesIsProduct(w, p);
    assert 0.5 * w * t as real == 0.5 * (w * t as real);
  }

  /** Passing a position without a row changes nothing. */
  lemma AccumulateNothing(ev: seq<bool>, ts: seq<real>, es: seq<real>, ws: seq<real>, tol: real, m: nat,
                          concordant: nat, discordant: nat, tiedRisk: nat, numerator: real, denominator: real)
    requires Aligned(ev, ts, es) && |ws| == |ts| && m < |ts| && Ascending(ts) && !HasEntry(ev, ts, m)
    requires Accumulated(ev, ts, es, ws, tol, m, concordant, discordant, tiedRisk, numerator, denominator)
    ensures Accumulated(ev, ts, es, ws, tol, m + 1, concordant, discordant, tiedRisk, numerator, denominator)
  {
    NoPairsWithoutEntry(ev, ts, es, tol, m);
  }

  /** The loop over the rows of `comparable` (a dict walked in the order its
      keys were inserted, ascending sort positions): for each row, the
      event's estimate, indicator and weight, the comparable estimates, the
      scoring, and the five accumulators. */
  method SumRows(eventIndicator: seq<bool>, eventTime: seq<real>, estimate: seq<real>, weights: seq<real>,
                 tiedTol: real, order: seq<nat>, comparable: map<nat, seq<bool>>)
    returns (concordant: nat, discordant: nat, tiedRisk: nat, numerator: real, denominator: real)
    requires |eventIndicator| == |eventTime| == |estimate| == |weights|
    requires IsArgsort(order, eventTime)
    requires forall j: nat :: j in comparable
               <==> j < |eventTime| && HasEntry(Permuted(eventIndicator, order), Permuted(eventTime, order), j)
    requires forall j :: j in comparable
               ==> comparable[j] == ComparableMask(Permuted(eventIndicator, order), Permuted(eventTime, order), j)
    ensures concordant == ClassTotal(Permuted(eventIndicator, order), Permuted(eventTime, order),
                                     Permuted(estimate, order), tiedTol, Concordant)
    ensures discordant == ClassTotal(Permuted(eventIndicator, order), Permuted(eventTime, order),
                                     Permuted(estimate, order), tiedTol, Discordant)
    ensures tiedRisk == ClassTotal(Permuted(eventIndicator, order), Permuted(eventTime, order),
                                   Permuted(estimate, order), tiedTol, TiedRisk)
    ensures numerator == Numerator(Permuted(eventIndicator, order), Permuted(eventTime, order),
                                   Permuted(estimate, order), Permuted(weights, order), tiedTol)
    ensures denominator == Denominator(Permuted(eventIndicator, order), Permuted(eventTime, order),
                                       Permuted(weights, order))
  {
    ghost var ev := Permuted(eventIndicator, order);
    ghost var ts := Permuted(eventTime, order);
    ghost var ws := Permuted(weights, order);
    var es := Permuted(estimate, order);
    var n := |eventTime|;
    concordant, discordant, tiedRisk := 0, 0, 0;
    numerator, denominator := 0.0, 0.0;
    for ind := 0 to n
      invariant Accumulated(ev, ts, es, ws, tiedTol, ind, concordant, discordant, tiedRisk, numerator, denominator)
    {
      if ind in comparable {
        var mask := comparable[ind];
        var estI := estimate[order[ind]];
        var eventI := eventIndicator[order[ind]];
        var wI := weights[order[ind]];
        var est := Gather(es, mask);
        assert eventI;

        var nTies := CountClass(est, estI, tiedTol, TiedRisk);
        var nCon := CountClass(est, estI, tiedTol, Concordant);
        var nPairs := CountTrue(mask);
        GatherLength(es, mask);
        AccumulateRow(ev, ts, es, ws, tiedTol, ind, concordant, discordant, tiedRisk, numerator, denominator,
                      wI, nCon, nTies, nPairs, |est|);
        numerator := numerator + (wI * nCon as real + 0.5 * wI * nTies as real);
        denominator := denominator + wI * nPairs as real;

        tiedRisk := tiedRisk + nTies;
        concordant := concordant + nCon;
        discordant := discordant + (|est| - nCon - nTies);
      } else {
        AccumulateNothing(ev, ts, es, ws, tiedTol, ind, concordant, discordant, tiedRisk, numerator, denominator);
      }
    }
  }

  /** `_estimate_concordance_index`: refuses data whose scan recorded no row,
      and otherwise returns Harrell's estimate for the sort order `order`
      (what `numpy.argsort(event_time)` returned): the pair counts, and the
      weighted concordant credit divided by the weighted comparable pairs. */
  method EstimateConcordanceIndex(eventIndicator: seq<bool>, eventTime: seq<real>, estimate: seq<real>,
                                  weights: seq<real>, tiedTol: real, order: seq<nat>)
    returns (r: Result<Estimate>)
    requires |eventIndicator| == |eventTime| == |estimate| == |weights|
    requires IsArgsort(order, eventTime)
    ensures r.Failure? <==> !AnyEntry(Permuted(eventIndicator, order), Permuted(eventTime, order))
    ensures r.Failure? ==> r.error == NoComparablePair
    ensures r.Success? ==> r.value == HarrellEstimate(Permuted(eventIndicator, order), Permuted(eventTime, order),
                                                      Permuted(estimate, order), Permuted(weights, order), tiedTol)
  {
    ghost var ev := Permuted(eventIndicator, order);
    ghost var ts := Permuted(eventTime, order);
    var comparable, tiedTime := GetComparable(eventIndicator, eventTime, order);

    if |comparable| == 0 {
      forall j | 0 <= j < |ts| ensures !HasEntry(ev, ts, j) {
        assert j !in comparable;
      }
      return Failure(NoComparablePair);
    }
    ghost var some :| some in comparable;
    assert HasEntry(ev, ts, some);

    var concordant, discordant, tiedRisk, numerator, denominator :=
      SumRows(eventIndicator, eventTime, estimate, weights, tiedTol, order, comparable);
    var cindex := Divide(numerator, denominator);
    return Success(Estimate(cindex, concordant, discordant, tiedRisk, tiedTime));
  }
}
