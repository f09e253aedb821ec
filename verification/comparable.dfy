/** The scan over time groups that lists, for every event, the samples it is
    comparable with (`_get_comparable`), and what it adds to `tied_time`. */
module ComparablePairs {
  import opened Harrell

  /** `~event_indicator[order[i:e]]` over the sort positions i .. e - 1. */
  function CensoredRun(ev: seq<bool>, i: nat, e: nat): (r: seq<bool>)
    requires i <= e <= |ev|
    ensures |r| == e - i
    ensures forall k :: 0 <= k < e - i ==> r[k] == !ev[i + k]
  {
    seq(e - i, k requires 0 <= k < e - i => !ev[i + k])
  }

  /** `event_indicator[order[i:e]]` over the sort positions i .. e - 1. */
  function EventRun(ev: seq<bool>, i: nat, e: nat): (r: seq<bool>)
    requires i <= e <= |ev|
    ensures |r| == e - i
    ensures forall k :: 0 <= k < e - i ==> r[k] == ev[i + k]
  {
    seq(e - i, k requires 0 <= k < e - i => ev[i + k])
  }

  /** The sort positions observed at time t are exactly i .. end - 1. */
  predicate IsTimeGroup(ts: seq<real>, t: real, i: nat, end: nat) {
    && i <= end <= |ts|
    && forall k :: 0 <= k < |ts| ==> (ts[k] == t <==> i <= k < end)
  }

  /** A run of equal times that is preceded by a smaller time (or starts the
      order) and followed by a different time (or ends the order) holds every
      sample observed at that time. */
  lemma GroupIsMaximal(ts: seq<real>, t: real, i: nat, end: nat)
    requires Ascending(ts) && i < end <= |ts|
    requires forall k :: i <= k < end ==> ts[k] == t
    requires 0 < i ==> ts[i - 1] < t
    requires end < |ts| ==> ts[end] != t
    ensures IsTimeGroup(ts, t, i, end)
  {
    forall k | 0 <= k < |ts| ensures ts[k] == t <==> i <= k < end {
      if k < i {
        assert ts[k] <= ts[i - 1];
      } else if end <= k {
        assert ts[end - 1] <= ts[end] <= ts[k];
      }
    }
  }

  /** Counting the censored samples at t over a prefix meets the group of t
      only inside i .. end - 1. */
  lemma {:induction false} CensoredInGroup(ev: seq<bool>, ts: seq<real>, t: real, i: nat, end: nat, m: nat)
    requires |ev| == |ts| && IsTimeGroup(ts, t, i, end) && m <= |ts|
    ensures CensoredAt(ev, ts, t, m)
         == if m <= i then 0 else CountTrue(CensoredRun(ev, i, if m < end then m else end))
  {
    if m > 0 {
      CensoredInGroup(ev, ts, t, i, end, m - 1);
      if i < m <= end {
        assert CensoredRun(ev, i, m)[..m - 1 - i] == CensoredRun(ev, i, m - 1);
      }
    }
  }

  /** Over a time group, `tied_time` grows by one count of the censored
      samples of the group for every event of the group, before position e. */
  lemma {:induction false} TiedTimeInGroup(ev: seq<bool>, ts: seq<real>, t: real, i: nat, end: nat, e: nat)
    requires |ev| == |ts| && IsTimeGroup(ts, t, i, end) && i <= e <= end
    ensures Total(TiedCounts(ev, ts), e)
         == Total(TiedCounts(ev, ts), i) + CountTrue(EventRun(ev, i, e)) * CensoredAt(ev, ts, t, |ts|)
  {
    if e > i {
      TiedTimeInGroup(ev, ts, t, i, end, e - 1);
      var a := CountTrue(EventRun(ev, i, e - 1));
      var b := if ev[e - 1] then 1 else 0;
      var c := CensoredAt(ev, ts, t, |ts|);
      assert EventRun(ev, i, e)[..e - 1 - i] == EventRun(ev, i, e - 1);
      assert CountTrue(EventRun(ev, i, e)) == a + b;
      assert TiedCounts(ev, ts)[e - 1] == b * c;
      MulStep(a, b, c);
    }
  }

  lemma MulStep(a: nat, b: nat, c: nat)
    ensures (a + b) * c == a * c + b * c
  {
  }

  /** A time group contributes #events x #censored to `tied_time`. */
  lemma GroupTiedTime(ev: seq<bool>, ts: seq<real>, t: real, i: nat, end: nat)
    requires |ev| == |ts| && IsTimeGroup(ts, t, i, end)
    ensures Total(TiedCounts(ev, ts), end) - Total(TiedCounts(ev, ts), i)
         == CountTrue(EventRun(ev, i, end)) * CountTrue(CensoredRun(ev, i, end))
  {
    TiedTimeInGroup(ev, ts, t, i, end, end);
    CensoredInGroup(ev, ts, t, i, end, |ts|);
  }

  /** The comparability row built for an event j of the group i .. end - 1:
      false before the group, the censored flags inside it, true after it. */
  lemma GroupMask(ev: seq<bool>, ts: seq<real>, t: real, i: nat, end: nat, j: nat, mask: seq<bool>)
    requires |ev| == |ts| && Ascending(ts) && IsTimeGroup(ts, t, i, end)
    requires i <= j < end && ev[j] && |mask| == |ts|
    requires forall k :: 0 <= k < i ==> !mask[k]
    requires forall k :: i <= k < end ==> mask[k] == !ev[k]
    requires forall k :: end <= k < |ts| ==> mask[k]
    ensures mask == ComparableMask(ev, ts, j)
  {
    forall k | 0 <= k < |ts| ensures mask[k] == Comparable(ev, ts, j, k) {
      if k < i {
        assert ts[k] <= ts[j] && ts[k] != t;
      } else if end <= k {
        assert ts[j] <= ts[k] && ts[k] != t;
      }
    }
  }

  /** The rows recorded after the scan has passed the sort positions below m:
      exactly the positions below m with an entry, each with its row. */
  predicate Scanned(ev: seq<bool>, ts: seq<real>, comparable: map<nat, seq<bool>>, m: nat)
    requires |ev| == |ts| && m <= |ts|
  {
    && (forall j: nat :: j in comparable ==> j < m)
    && (forall j :: 0 <= j < m ==> (j in comparable <==> HasEntry(ev, ts, j)))
    && (forall j :: j in comparable ==> comparable[j] == ComparableMask(ev, ts, j))
  }

  /** Passing a position without an entry records nothing. */
  lemma ScanSkip(ev: seq<bool>, ts: seq<real>, comparable: map<nat, seq<bool>>, m: nat)
    requires |ev| == |ts| && m < |ts| && Scanned(ev, ts, comparable, m) && !HasEntry(ev, ts, m)
    ensures Scanned(ev, ts, comparable, m + 1)
  {
  }

  /** Passing a position with an entry records its row. */
  lemma ScanRecord(ev: seq<bool>, ts: seq<real>, comparable: map<nat, seq<bool>>, m: nat, row: seq<bool>)
    requires |ev| == |ts| && m < |ts| && Scanned(ev, ts, comparable, m)
    requires HasEntry(ev, ts, m) && row == ComparableMask(ev, ts, m)
    ensures Scanned(ev, ts, comparable[m := row], m + 1)
  {
  }

  /** An event of a group that does not start at the last position has an
      entry, and its row is the one built for the group. */
  lemma GroupEntry(ev: seq<bool>, ts: seq<real>, t: real, i: nat, end: nat, j: nat,
                   comparable: map<nat, seq<bool>>, mask: seq<bool>)
    requires |ev| == |ts| && Ascending(ts) && IsTimeGroup(ts, t, i, end) && i + 1 < |ts|
    requires i <= j < end && ev[j] && Scanned(ev, ts, comparable, j) && |mask| == |ts|
    requires forall k :: 0 <= k < i ==> !mask[k]
    requires forall k :: i <= k < end ==> mask[k] == CensoredRun(ev, i, end)[k - i]
    requires forall k :: end <= k < |ts| ==> mask[k]
    ensures Scanned(ev, ts, comparable[j := mask], j + 1)
  {
    GroupMask(ev, ts, t, i, end, j, mask);
    assert j + 1 < |ts| || ts[j - 1] == ts[j];
    ScanRecord(ev, ts, comparable, j, mask);
  }

  /** Within a group, every event adds the group's censored count. */
  lemma GroupTiedStep(ev: seq<bool>, ts: seq<real>, t: real, i: nat, end: nat, j: nat)
    requires |ev| == |ts| && IsTimeGroup(ts, t, i, end) && i <= j < end
    ensures Total(TiedCounts(ev, ts), j + 1)
         == Total(TiedCounts(ev, ts), j) + if ev[j] then CountTrue(CensoredRun(ev, i, end)) else 0
  {
    CensoredInGroup(ev, ts, t, i, end, |ts|);
  }

  /** The row of an event of the group i .. end - 1: `numpy.zeros(n)`, then
      true from `end` on, then the group's censored flags over the group. */
  method GroupRow(n: nat, i: nat, end: nat, censoredAtSameTime: seq<bool>) returns (row: seq<bool>)
    requires i <= end <= n && |censoredAtSameTime| == end - i
    ensures |row| == n
    ensures forall k :: 0 <= k < i ==> !row[k]
    ensures forall k :: i <= k < end ==> row[k] == censoredAtSameTime[k - i]
    ensures forall k :: end <= k < n ==> row[k]
  {
    var mask := new bool[n](_ => false);
    forall k | end <= k < n {
      mask[k] := true;
    }
    forall k | i <= k < end {
      mask[k] := censoredAtSameTime[k - i];
    }
    row := mask[..];
  }

  /** One time group i .. end - 1 of the scan: every event of the group gets
      its row, and adds the group's censored count to `tied_time`. */
  method RecordGroup(eventIndicator: seq<bool>, eventTime: seq<real>, order: seq<nat>, i: nat, end: nat,
                     comparable: map<nat, seq<bool>>, tiedTime: nat)
    returns (comparable': map<nat, seq<bool>>, tiedTime': nat)
    requires |eventIndicator| == |eventTime| == |order| && i < end <= |order| && i + 1 < |order|
    requires forall k :: 0 <= k < |order| ==> order[k] < |eventTime|
    requires Ascending(Permuted(eventTime, order))
    requires IsTimeGroup(Permuted(eventTime, order), eventTime[order[i]], i, end)
    requires Scanned(Permuted(eventIndicator, order), Permuted(eventTime, order), comparable, i)
    requires tiedTime == Total(TiedCounts(Permuted(eventIndicator, order), Permuted(eventTime, order)), i)
    ensures Scanned(Permuted(eventIndicator, order), Permuted(eventTime, order), comparable', end)
    ensures tiedTime' == Total(TiedCounts(Permuted(eventIndicator, order), Permuted(eventTime, order)), end)
  {
    ghost var ev := Permuted(eventIndicator, order);
    ghost var ts := Permuted(eventTime, order);
    var n := |eventTime|;
    var timeI := eventTime[order[i]];
    comparable', tiedTime' := comparable, tiedTime;

    var censoredAtSameTime := seq(end - i, k requires 0 <= k < end - i => !eventIndicator[order[i + k]]);
    assert censoredAtSameTime == CensoredRun(ev, i, end);
    for j := i to end
      invariant Scanned(ev, ts, comparable', j)
      invariant tiedTime' == Total(TiedCounts(ev, ts), j)
    {
      GroupTiedStep(ev, ts, timeI, i, end, j);
      if eventIndicator[order[j]] {
        var mask := GroupRow(n, i, end, censoredAtSameTime);
        GroupEntry(ev, ts, timeI, i, end, j, comparable', mask);
        comparable' := comparable'[j := mask];
        tiedTime' := tiedTime' + CountTrue(censoredAtSameTime);
      } else {
        ScanSkip(ev, ts, comparable', j);
      }
    }
  }

  /** `_get_comparable`: scans the samples in sort order, one group of equal
      times at a time, and for each event of a group records the row of
      samples it is comparable with. The scan stops before the last position,
      so an event alone at the largest time gets no row. Keys are sort
      positions; every row is indexed by sort position as well. */
  method GetComparable(eventIndicator: seq<bool>, eventTime: seq<real>, order: seq<nat>)
    returns (comparable: map<nat, seq<bool>>, tiedTime: nat)
    requires |eventIndicator| == |eventTime| && IsArgsort(order, eventTime)
    ensures forall j: nat :: j in comparable
              <==> j < |eventTime| && HasEntry(Permuted(eventIndicator, order), Permuted(eventTime, order), j)
    ensures forall j :: j in comparable
              ==> comparable[j] == ComparableMask(Permuted(eventIndicator, order), Permuted(eventTime, order), j)
    ensures tiedTime == TiedTime(Permuted(eventIndicator, order), Permuted(eventTime, order))
  {
    ghost var ev := Permuted(eventIndicator, order);
    ghost var ts := Permuted(eventTime, order);
    var n := |eventTime|;
    tiedTime := 0;
    comparable := map[];
    var i := 0;
    while i + 1 < n
      invariant i <= n
      invariant 0 < i < n ==> ts[i - 1] < ts[i]
      invariant Scanned(ev, ts, comparable, i)
      invariant tiedTime == Total(TiedCounts(ev, ts), i)
      decreases n - i
    {
      var timeI := eventTime[order[i]];
      var start := i + 1;
      var end := start;
      while end < n && eventTime[order[end]] == timeI
        invariant start <= end <= n
        invariant forall k :: i <= k < end ==> ts[k] == timeI
        decreases n - end
      {
        end := end + 1;
      }
      GroupIsMaximal(ts, timeI, i, end);

      comparable, tiedTime := RecordGroup(eventIndicator, eventTime, order, i, end, comparable, tiedTime);
      i := end;
    }
    if i + 1 == n {
      // the last position, alone in its time group, is never visited
      GroupIsMaximal(ts, ts[i], i, n);
      CensoredInGroup(ev, ts, ts[i], i, n, n);
      assert CensoredRun(ev, i, n)[..0] == [];
      ScanSkip(ev, ts, comparable, i);
    }
  }
}
