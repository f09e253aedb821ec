/** `concordance_index_censored`: the input checks, then the estimator with
    every weight set to one. */
module CIndexCensored {
  import opened Harrell
  import opened ComparablePairs
  import opened Concordance

  /** The value checks of `_check_inputs`, in the order they are made: equal
      lengths, no empty array, at least two samples, at least one event. */
  function CheckInputs(eventIndicator: seq<bool>, eventTime: seq<real>, estimate: seq<real>): (r: Result<()>)
    ensures r == Failure(InconsistentLengths) <==> !(|eventIndicator| == |eventTime| == |estimate|)
    ensures r == Failure(NoSamples) <==> |eventIndicator| == |eventTime| == |estimate| == 0
    ensures r == Failure(TooFewSamples) <==> |eventIndicator| == |eventTime| == |estimate| && |eventTime| == 1
    ensures r == Failure(AllCensored)
            <==> |eventIndicator| == |eventTime| == |estimate| && |eventTime| >= 2
                 && forall k :: 0 <= k < |eventIndicator| ==> !eventIndicator[k]
    ensures r.Success? <==> |eventIndicator| == |eventTime| == |estimate| && |eventTime| >= 2
                            && exists k :: 0 <= k < |eventIndicator| && eventIndicator[k]
  {
    if !(|eventIndicator| == |eventTime| == |estimate|) then Failure(InconsistentLengths)
    else if |eventTime| == 0 then Failure(NoSamples)
    else if |eventTime| < 2 then Failure(TooFewSamples)
    else if forall k :: 0 <= k < |eventIndicator| ==> !eventIndicator[k] then Failure(AllCensored)
    else Success(())
  }

  /** `numpy.ones_like(estimate)`. */
  function OnesLike(estimate: seq<real>): (w: seq<real>)
    ensures |w| == |estimate| && UnitWeights(w)
  {
    seq(|estimate|, _ => 1.0)
  }

  /** Every sort position of unit weights still holds weight one. */
  lemma PermutedOnes(estimate: seq<real>, order: seq<nat>)
    requires forall k :: 0 <= k < |order| ==> order[k] < |estimate|
    ensures UnitWeights(Permuted(OnesLike(estimate), order))
  {
  }

  /** The index with unit weights: no comparable pair gives NaN (0 / 0);
      otherwise (concordant + tied_risk / 2) / pairs, which lies in [0, 1]. */
  lemma UnitWeightIndex(ev: seq<bool>, ts: seq<real>, es: seq<real>, ones: seq<real>, tol: real)
    requires Aligned(ev, ts, es) && |ones| == |ts| && UnitWeights(ones)
    ensures HarrellEstimate(ev, ts, es, ones, tol).cindex.NaN? <==> PairTotal(ev, ts) == 0
    ensures !HarrellEstimate(ev, ts, es, ones, tol).cindex.Infinite?
    ensures PairTotal(ev, ts) > 0
            ==> (HarrellEstimate(ev, ts, es, ones, tol).cindex
                 == Finite((ClassTotal(ev, ts, es, tol, Concordant) as real
                            + 0.5 * ClassTotal(ev, ts, es, tol, TiedRisk) as real) / PairTotal(ev, ts) as real))
    ensures PairTotal(ev, ts) > 0 ==> 0.0 <= HarrellEstimate(ev, ts, es, ones, tol).cindex.value <= 1.0
  {
    UnitWeightTotals(ev, ts, es, ones, tol);
    PairConservation(ev, ts, es, tol);
    if PairTotal(ev, ts) > 0 {
      CIndexInUnitInterval(ev, ts, es, ones, tol);
    }
  }

  /** Data the estimator's guard refuses has no comparable pair: the guard
      never refuses data with a comparable pair. */
  lemma NoEntryNoPairs(ev: seq<bool>, ts: seq<real>)
    requires |ev| == |ts| && Ascending(ts) && !AnyEntry(ev, ts)
    ensures PairTotal(ev, ts) == 0
  {
    forall j | 0 <= j < |ts| ensures PairCounts(ev, ts)[j] == 0 {
      NoPairsWithoutEntry(ev, ts, ts, 0.0, j);
    }
    TotalOfZeros(PairCounts(ev, ts), |ts|);
  }

  /** `concordance_index_censored` as written: the checks, then the estimator
      with unit weights. The estimator's guard counts rows, not pairs, so
      data whose events only meet other events at their own time passes it
      and yields NaN. */
  method ConcordanceIndexCensored(eventIndicator: seq<bool>, eventTime: seq<real>, estimate: seq<real>,
                                  tiedTol: real, order: seq<nat>)
    returns (r: Result<Estimate>)
    requires IsArgsort(order, eventTime)
    ensures CheckInputs(eventIndicator, eventTime, estimate).Failure?
            ==> r == Failure(CheckInputs(eventIndicator, eventTime, estimate).error)
    ensures CheckInputs(eventIndicator, eventTime, estimate).Success?
            ==> (r.Failure? <==> !AnyEntry(Permuted(eventIndicator, order), Permuted(eventTime, order)))
    ensures CheckInputs(eventIndicator, eventTime, estimate).Success? && r.Failure?
            ==> r.error == NoComparablePair
    ensures r.Success? ==> |eventIndicator| == |eventTime| == |estimate|
    ensures r.Success? ==> r.value == HarrellEstimate(Permuted(eventIndicator, order), Permuted(eventTime, order),
                                                      Permuted(estimate, order), Permuted(OnesLike(estimate), order), tiedTol)
    ensures r.Success? ==> (r.value.cindex.NaN? <==> PairTotal(Permuted(eventIndicator, order), Permuted(eventTime, order)) == 0)
    ensures r.Success? ==> !r.value.cindex.Infinite?
    ensures r.Success? && r.value.cindex.Finite? ==> 0.0 <= r.value.cindex.value <= 1.0
  {
    var checked := CheckInputs(eventIndicator, eventTime, estimate);
    if checked.Failure? {
      return Failure(checked.error);
    }
    var w := OnesLike(estimate);
    r := EstimateConcordanceIndex(eventIndicator, eventTime, estimate, w, tiedTol, order);
    PermutedOnes(estimate, order);
    UnitWeightIndex(Permuted(eventIndicator, order), Permuted(eventTime, order), Permuted(estimate, order),
                    Permuted(w, order), tiedTol);
  }

  /** Two events observed at the same time have rows but no comparable pair. */
  lemma TiedEventsRows()
    ensures AnyEntry([true, true], [1.0, 1.0]) && PairTotal([true, true], [1.0, 1.0]) == 0
  {
    var ev, ts := [true, true], [1.0, 1.0];
    assert HasEntry(ev, ts, 0);
    forall j | 0 <= j < 2 ensures PairCounts(ev, ts)[j] == 0 {
      CountTrueNone(ComparableMask(ev, ts, j));
    }
    TotalOfZeros(PairCounts(ev, ts), 2);
  }

  /** Two events observed at the same time, and nothing else: the checks
      pass and the guard finds rows, yet there is no comparable pair, so the
      index is 0 / 0. */
  lemma TiedEventsOnlyGiveNaN(estimate: seq<real>, tol: real)
    requires |estimate| == 2
    ensures CheckInputs([true, true], [1.0, 1.0], estimate).Success?
    ensures IsArgsort([0, 1], [1.0, 1.0])
    ensures AnyEntry([true, true], [1.0, 1.0]) && PairTotal([true, true], [1.0, 1.0]) == 0
    ensures HarrellEstimate([true, true], [1.0, 1.0], Permuted(estimate, [0, 1]),
                            Permuted(OnesLike(estimate), [0, 1]), tol).cindex == NaN
  {
    var ev, ts := [true, true], [1.0, 1.0];
    assert Permuted(ev, [0, 1]) == ev && Permuted(ts, [0, 1]) == ts;
    TiedEventsRows();
    PermutedOnes(estimate, [0, 1]);
    UnitWeightIndex(ev, ts, Permuted(estimate, [0, 1]), Permuted(OnesLike(estimate), [0, 1]), tol);
  }

  /** `concordance_index_censored` with the guard on what its message says:
      data without a comparable pair is refused, so the index returned is
      always a number in [0, 1]. */
  method ConcordanceIndexCensoredChecked(eventIndicator: seq<bool>, eventTime: seq<real>, estimate: seq<real>,
                                         tiedTol: real, order: seq<nat>)
    returns (r: Result<Estimate>)
    requires IsArgsort(order, eventTime)
    ensures CheckInputs(eventIndicator, eventTime, estimate).Failure?
            ==> r == Failure(CheckInputs(eventIndicator, eventTime, estimate).error)
    ensures CheckInputs(eventIndicator, eventTime, estimate).Success?
            ==> (r.Failure? <==> PairTotal(Permuted(eventIndicator, order), Permuted(eventTime, order)) == 0)
    ensures CheckInputs(eventIndicator, eventTime, estimate).Success? && r.Failure?
            ==> r.error == NoComparablePair
    ensures r.Success? ==> |eventIndicator| == |eventTime| == |estimate|
    ensures r.Success? ==> r.value == HarrellEstimate(Permuted(eventIndicator, order), Permuted(eventTime, order),
                                                      Permuted(estimate, order), Permuted(OnesLike(estimate), order), tiedTol)
    ensures r.Success? ==> r.value.cindex.Finite? && 0.0 <= r.value.cindex.value <= 1.0
  {
    r := ConcordanceIndexCensored(eventIndicator, eventTime, estimate, tiedTol, order);
    if r.Success? && r.value.concordant + r.value.discordant + r.value.tiedRisk == 0 {
      r := Failure(NoComparablePair);
    } else if r.Failure? && CheckInputs(eventIndicator, eventTime, estimate).Success? {
      NoEntryNoPairs(Permuted(eventIndicator, order), Permuted(eventTime, order));
    }
  }

  /** The call itself on two events at one time: it succeeds with NaN. */
  method TiedEventsCall() returns (r: Result<Estimate>)
    ensures r.Success? && r.value.cindex == NaN
  {
    TiedEventsOnlyGiveNaN([0.3, 0.7], DefaultTiedTol);
    assert Permuted([true, true], [0, 1]) == [true, true];
    assert Permuted([1.0, 1.0], [0, 1]) == [1.0, 1.0];
    r := ConcordanceIndexCensored([true, true], [1.0, 1.0], [0.3, 0.7], DefaultTiedTol, [0, 1]);
  }

  /** The same call with the guard on pairs is refused. */
  method TiedEventsCallChecked() returns (r: Result<Estimate>)
    ensures r == Failure(NoComparablePair)
  {
    TiedEventsOnlyGiveNaN([0.3, 0.7], DefaultTiedTol);
    assert Permuted([true, true], [0, 1]) == [true, true];
    assert Permuted([1.0, 1.0], [0, 1]) == [1.0, 1.0];
    r := ConcordanceIndexCensoredChecked([true, true], [1.0, 1.0], [0.3, 0.7], DefaultTiedTol, [0, 1]);
  }
}
