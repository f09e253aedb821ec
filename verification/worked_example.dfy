/** A small data set worked through by hand: four samples, one censored
    at the time of an event, already listed in ascending time. */
module WorkedExamples {
  import opened Harrell
  import opened Concordance
  import opened CIndexCensored

  const Events: seq<bool> := [true, true, false, true]
  const Times: seq<real> := [1.0, 2.0, 2.0, 3.0]
  const Risks: seq<real> := [0.9, 0.5, 0.5, 0.1]
  const Ones: seq<real> := [1.0, 1.0, 1.0, 1.0]

  function Pick<T>(x: T, keep: bool): seq<T> {
    if keep then [x] else []
  }

  /** `xs[mask]` written out for four samples. */
  lemma Gather4<T>(a: T, b: T, c: T, d: T, p: bool, q: bool, r: bool, s: bool)
    ensures Gather([a, b, c, d], [p, q, r, s]) == Pick(a, p) + Pick(b, q) + Pick(c, r) + Pick(d, s)
  {
    assert [a][..0] == [] && [p][..0] == [];
    assert Gather([a], [p]) == Pick(a, p);
    assert [a, b][..1] == [a] && [p, q][..1] == [p];
    assert Gather([a, b], [p, q]) == Pick(a, p) + Pick(b, q);
    assert [a, b, c][..2] == [a, b] && [p, q, r][..2] == [p, q];
    assert Gather([a, b, c], [p, q, r]) == Pick(a, p) + Pick(b, q) + Pick(c, r);
    assert [a, b, c, d][..3] == [a, b, c] && [p, q, r, s][..3] == [p, q, r];
  }

  /** `mask.sum()` written out for four samples. */
  lemma CountTrue4(p: bool, q: bool, r: bool, s: bool)
    ensures CountTrue([p, q, r, s]) == |Pick(0, p) + Pick(0, q) + Pick(0, r) + Pick(0, s)|
  {
    assert [p][..0] == [];
    assert CountTrue([p]) == |Pick(0, p)|;
    assert [p, q][..1] == [p];
    assert CountTrue([p, q]) == |Pick(0, p) + Pick(0, q)|;
    assert [p, q, r][..2] == [p, q];
    assert CountTrue([p, q, r]) == |Pick(0, p) + Pick(0, q) + Pick(0, r)|;
    assert [p, q, r, s][..3] == [p, q, r];
  }

  /** The rows: the first event is comparable with the three later samples,
      the second with the censored sample at its time and the last sample;
      the censored sample and the last event have none. */
  lemma WorkedRows()
    ensures ComparableMask(Events, Times, 0) == [false, true, true, true]
    ensures ComparableMask(Events, Times, 1) == [false, false, true, true]
    ensures ComparableMask(Events, Times, 2) == [false, false, false, false]
    ensures ComparableMask(Events, Times, 3) == [false, false, false, false]
    ensures !HasEntry(Events, Times, 3)
  {
  }

  /** The estimates each row gathers. */
  lemma WorkedGathered()
    ensures Gather(Risks, ComparableMask(Events, Times, 0)) == [0.5, 0.5, 0.1]
    ensures Gather(Risks, ComparableMask(Events, Times, 1)) == [0.5, 0.1]
    ensures Gather(Risks, ComparableMask(Events, Times, 2)) == []
    ensures Gather(Risks, ComparableMask(Events, Times, 3)) == []
    ensures CountTrue(ComparableMask(Events, Times, 0)) == 3 && CountTrue(ComparableMask(Events, Times, 1)) == 2
    ensures CountTrue(ComparableMask(Events, Times, 2)) == 0 && CountTrue(ComparableMask(Events, Times, 3)) == 0
  {
    WorkedRows();
    Gather4(0.9, 0.5, 0.5, 0.1, false, true, true, true);
    Gather4(0.9, 0.5, 0.5, 0.1, false, false, true, true);
    Gather4(0.9, 0.5, 0.5, 0.1, false, false, false, false);
    CountTrue4(false, true, true, true);
    CountTrue4(false, false, true, true);
    CountTrue4(false, false, false, false);
  }

  /** Scoring [0.5, 0.5, 0.1] against 0.9 and [0.5, 0.1] against 0.5. */
  lemma WorkedScores()
    ensures CountClass([0.5, 0.5, 0.1], 0.9, DefaultTiedTol, Concordant) == 3
    ensures CountClass([0.5, 0.5, 0.1], 0.9, DefaultTiedTol, TiedRisk) == 0
    ensures CountClass([0.5, 0.5, 0.1], 0.9, DefaultTiedTol, Discordant) == 0
    ensures CountClass([0.5, 0.1], 0.5, DefaultTiedTol, Concordant) == 1
    ensures CountClass([0.5, 0.1], 0.5, DefaultTiedTol, TiedRisk) == 1
    ensures CountClass([0.5, 0.1], 0.5, DefaultTiedTol, Discordant) == 0
  {
    assert [0.5, 0.5, 0.1][..2] == [0.5, 0.5] && [0.5, 0.5][..1] == [0.5] && [0.5][..0] == [];
    assert [0.5, 0.1][..1] == [0.5];
  }

  /** Per row: 3 concordant; 1 concordant and 1 risk tie; nothing; nothing. */
  lemma WorkedCounts()
    ensures ClassCounts(Events, Times, Risks, DefaultTiedTol, Concordant) == [3, 1, 0, 0]
    ensures ClassCounts(Events, Times, Risks, DefaultTiedTol, TiedRisk) == [0, 1, 0, 0]
    ensures ClassCounts(Events, Times, Risks, DefaultTiedTol, Discordant) == [0, 0, 0, 0]
    ensures PairCounts(Events, Times) == [3, 2, 0, 0]
  {
    WorkedGathered();
    WorkedScores();
  }

  /** One (event, censored) pair shares a time. */
  lemma WorkedTiedTime()
    ensures TiedCounts(Events, Times) == [0, 1, 0, 0]
  {
    assert CensoredAt(Events, Times, 2.0, 4) == 1;
    assert CensoredAt(Events, Times, 1.0, 4) == 0;
    assert CensoredAt(Events, Times, 3.0, 4) == 0;
  }

  lemma Total4(a: nat, b: nat, c: nat, d: nat)
    ensures Total([a, b, c, d], 4) == a + b + c + d
  {
    var xs := [a, b, c, d];
    assert Total(xs, 1) == a;
    assert Total(xs, 2) == a + b;
    assert Total(xs, 3) == a + b + c;
  }

  /** Four concordant pairs, one risk tie, no discordant pair, five
      comparable pairs and one pair tied in time. */
  lemma WorkedTotals()
    ensures ClassTotal(Events, Times, Risks, DefaultTiedTol, Concordant) == 4
    ensures ClassTotal(Events, Times, Risks, DefaultTiedTol, TiedRisk) == 1
    ensures ClassTotal(Events, Times, Risks, DefaultTiedTol, Discordant) == 0
    ensures PairTotal(Events, Times) == 5 && TiedTime(Events, Times) == 1
  {
    WorkedCounts();
    WorkedTiedTime();
    Total4(3, 1, 0, 0);
    Total4(0, 1, 0, 0);
    Total4(0, 0, 0, 0);
    Total4(3, 2, 0, 0);
  }

  /** The index is (4 + 1/2) / 5 = 0.9. */
  lemma WorkedIndex()
    ensures HarrellEstimate(Events, Times, Risks, Ones, DefaultTiedTol).cindex == Finite(0.9)
  {
    WorkedTotals();
    assert UnitWeights(Ones);
    UnitWeightIndex(Events, Times, Risks, Ones, DefaultTiedTol);
    assert (4 as real + 0.5 * 1 as real) / 5 as real == 0.9;
  }

  /** The four samples pass the checks and the scan gives the first event a row. */
  lemma WorkedChecks()
    ensures CheckInputs(Events, Times, Risks).Success?
    ensures AnyEntry(Events, Times)
  {
    assert Events[0];
    assert HasEntry(Events, Times, 0);
  }

  /** Listing four samples in the order they are given changes nothing. */
  lemma Identity4<T>(xs: seq<T>)
    requires |xs| == 4
    ensures Permuted(xs, [0, 1, 2, 3]) == xs
  {
  }

  /** The samples are already in time order: the identity is an argsort. */
  lemma WorkedOrder()
    ensures IsArgsort([0, 1, 2, 3], Times)
    ensures Permuted(Events, [0, 1, 2, 3]) == Events && Permuted(Times, [0, 1, 2, 3]) == Times
    ensures Permuted(Risks, [0, 1, 2, 3]) == Risks && Permuted(OnesLike(Risks), [0, 1, 2, 3]) == Ones
  {
    Identity4(Events);
    Identity4(Times);
    Identity4(Risks);
    Identity4(OnesLike(Risks));
    assert OnesLike(Risks) == Ones;
    assert Ascending(Times);
  }

  /** The whole estimate: (0.9, 4, 0, 1, 1). */
  lemma WorkedEstimate()
    ensures HarrellEstimate(Events, Times, Risks, Ones, DefaultTiedTol) == Estimate(Finite(0.9), 4, 0, 1, 1)
  {
    WorkedTotals();
    WorkedIndex();
  }

  /** `concordance_index_censored` on the four samples with the default
      `tied_tol`: it returns (0.9, 4, 0, 1, 1). */
  method WorkedCall() returns (r: Result<Estimate>)
    ensures r == Success(Estimate(Finite(0.9), 4, 0, 1, 1))
  {
    WorkedChecks();
    WorkedOrder();
    r := ConcordanceIndexCensored(Events, Times, Risks, DefaultTiedTol, [0, 1, 2, 3]);
    WorkedEstimate();
  }
}
