/** The leap-second table: the whole number of seconds GPS time is ahead of UTC
    at a given Julian Date. */
module LeapSeconds {
  import opened Wrappers

  /** Start of GPS time, 1980-01-06 00:00:00 UTC, where the offset is 0. */
  const GpsEpochJulianDate: real := 2444244.5

  /** Julian Dates from which the offset is 1, 2, ..., 15: the starts of
      1981-07-01, 1982-07-01, 1983-07-01, 1985-07-01, 1988-01-01, 1990-01-01,
      1991-01-01, 1992-07-01, 1993-07-01, 1994-07-01, 1996-01-01, 1997-07-01,
      1999-01-01, 2006-01-01 and 2009-01-01. */
  const Thresholds: seq<real> := [
    2444786.5, 2445151.5, 2445516.5, 2446247.5, 2447161.5,
    2447892.5, 2448257.5, 2448804.5, 2449169.5, 2449534.5,
    2450083.5, 2450630.5, 2451179.5, 2453736.5, 2454832.5
  ]

  /** The largest offset in the table. */
  const MaxOffset: nat := 15

  /** The offset lookup as the source writes it, one comparison per table
      entry; a negative Julian Date fails. */
  function DetermineUtcOffset(jd: real): (r: Option<nat>)
    ensures r.None? <==> jd < 0.0
    ensures r.Some? ==> r.value <= MaxOffset
  {
    if jd < 0.0 then None
    else if jd < 2444786.5 then Some(0)
    else if jd < 2445151.5 then Some(1)
    else if jd < 2445516.5 then Some(2)
    else if jd < 2446247.5 then Some(3)
    else if jd < 2447161.5 then Some(4)
    else if jd < 2447892.5 then Some(5)
    else if jd < 2448257.5 then Some(6)
    else if jd < 2448804.5 then Some(7)
    else if jd < 2449169.5 then Some(8)
    else if jd < 2449534.5 then Some(9)
    else if jd < 2450083.5 then Some(10)
    else if jd < 2450630.5 then Some(11)
    else if jd < 2451179.5 then Some(12)
    else if jd < 2453736.5 then Some(13)
    else if jd < 2454832.5 then Some(14)
    else Some(15)
  }

  /** Data-driven reference: scan the ascending thresholds and count those
      already reached, stopping at the first one that is not. */
  function TableOffset(thresholds: seq<real>, jd: real): (k: nat)
    ensures k <= |thresholds|
  {
    if thresholds == [] || jd < thresholds[0] then 0
    else 1 + TableOffset(thresholds[1..], jd)
  }

  ghost predicate Ascending(s: seq<real>)
  {
    forall i, j :: 0 <= i < j < |s| ==> s[i] < s[j]
  }

  /** A sequence that rises at every step is ascending. */
  lemma {:induction false} StepsAscending(s: seq<real>)
    requires forall i :: 0 < i < |s| ==> s[i - 1] < s[i]
    ensures Ascending(s)
  {
    if 1 < |s| {
      StepsAscending(s[1..]);
      forall i, j | 0 <= i < j < |s|
        ensures s[i] < s[j]
      {
        if 0 < i {
          assert s[1..][i - 1] < s[1..][j - 1];
        } else if 1 < j {
          assert s[1..][0] < s[1..][j - 1];
        }
      }
    }
  }

  /** Every consecutive pair of thresholds is at least a year (365 days) apart. */
  lemma ThresholdsSpread()
    ensures |Thresholds| == MaxOffset
    ensures forall i :: 0 < i < |Thresholds| ==> Thresholds[i - 1] + 365.0 <= Thresholds[i]
    ensures GpsEpochJulianDate + 365.0 <= Thresholds[0]
    ensures Ascending(Thresholds)
  {
    StepsAscending(Thresholds);
  }

  /** On an ascending table the scan yields `k` exactly when `jd` lies between
      threshold `k` (the k-th entry, counting from 1) and the next one. */
  lemma {:induction false} TableOffsetIs(thresholds: seq<real>, jd: real, k: nat)
    requires Ascending(thresholds)
    requires k <= |thresholds|
    requires k == 0 || thresholds[k - 1] <= jd
    requires k == |thresholds| || jd < thresholds[k]
    ensures TableOffset(thresholds, jd) == k
  {
    if k > 0 {
      assert thresholds[0] <= thresholds[k - 1];
      TableOffsetIs(thresholds[1..], jd, k - 1);
    }
  }

  /** The scan never decreases as the date advances, on any table. */
  lemma {:induction false} TableOffsetMonotonic(thresholds: seq<real>, jd1: real, jd2: real)
    requires jd1 <= jd2
    ensures TableOffset(thresholds, jd1) <= TableOffset(thresholds, jd2)
  {
    if thresholds != [] && thresholds[0] <= jd1 {
      TableOffsetMonotonic(thresholds[1..], jd1, jd2);
    }
  }

  /** The if-chain of the source is the table scan over `Thresholds`. */
  lemma OffsetMatchesTable(jd: real)
    requires 0.0 <= jd
    ensures DetermineUtcOffset(jd) == Some(TableOffset(Thresholds, jd))
  {
    ThresholdsSpread();
    var k := DetermineUtcOffset(jd).value;
    TableOffsetIs(Thresholds, jd, k);
  }

  /** The offset is `k` exactly on the `k`-th interval of the table:
      from threshold `k` (or the start, for 0) up to threshold `k + 1` (or for
      ever, for 15). */
  lemma OffsetInterval(jd: real, k: nat)
    requires 0.0 <= jd && k <= MaxOffset
    ensures DetermineUtcOffset(jd) == Some(k)
        <==> (k == 0 || Thresholds[k - 1] <= jd) && (k == MaxOffset || jd < Thresholds[k])
  {
    ThresholdsSpread();
    if (k == 0 || Thresholds[k - 1] <= jd) && (k == MaxOffset || jd < Thresholds[k]) {
      TableOffsetIs(Thresholds, jd, k);
      OffsetMatchesTable(jd);
    } else {
      var j := DetermineUtcOffset(jd).value;
      TableOffsetIs(Thresholds, jd, j);
      OffsetMatchesTable(jd);
    }
  }

  /** A later date never has a smaller offset. */
  lemma OffsetMonotonic(jd1: real, jd2: real)
    requires 0.0 <= jd1 <= jd2
    ensures DetermineUtcOffset(jd1).value <= DetermineUtcOffset(jd2).value
  {
    OffsetMatchesTable(jd1);
    OffsetMatchesTable(jd2);
    TableOffsetMonotonic(Thresholds, jd1, jd2);
  }

  /** Feeding the offset back as a correction of at most a few seconds settles
      it: starting from the true UTC Julian Date `jd` with offset `k`, the date
      `k` seconds later has offset `k` or `k + 1`, and the date corrected by the
      difference has offset `k` again. This is why a few passes of the GPS to
      UTC iteration reach the offset of the true date. */
  lemma CorrectionSettles(jd: real)
    requires 0.0 <= jd
    ensures var k := DetermineUtcOffset(jd).value;
            var o1 := DetermineUtcOffset(jd + k as real / 86400.0).value;
            && k <= o1 <= k + 1
            && DetermineUtcOffset(jd + (k as int - o1) as real / 86400.0) == Some(k)
  {
    ThresholdsSpread();
    var k := DetermineUtcOffset(jd).value;
    OffsetInterval(jd, k);
    var x1 := jd + k as real / 86400.0;
    var o1 := DetermineUtcOffset(x1).value;
    OffsetMonotonic(jd, x1);
    OffsetInterval(x1, o1);
    if k + 1 < MaxOffset {
      assert Thresholds[k] + 365.0 <= Thresholds[k + 1];
    }
    var x2 := jd + (k as int - o1) as real / 86400.0;
    if o1 == k {
      assert x2 == jd;
    } else {
      assert Thresholds[k] <= x1;
      OffsetInterval(x2, k);
    }
  }

  /** The source's test vector: 2022-01-02 00:00:00 UTC has offset 15. */
  lemma OffsetExample()
    ensures DetermineUtcOffset(2459581.5) == Some(15)
  {
  }
}
