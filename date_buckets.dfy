/**
 * `daterange_interval`: a date range broken into consecutive buckets that end
 * on month-ends, plus a trailing partial bucket.
 */
module DateBuckets {
  import opened Wrappers
  import opened Calendar

  /** Why a call fails: in the source each is an unbound local variable. */
  datatype BucketError =
    | UnsupportedInterval  // `interval` is not 'monthly': `start` and `end` are never assigned
    | NoMonthEnd           // the range holds no month-end: the loop never binds `dr`
    | InvalidRange         // the end precedes the start (raised only by the corrected routine)

  /** The two parallel lists `start` and `end` the routine returns. */
  datatype Buckets = Buckets(starts: seq<Date>, ends: seq<Date>)

  /**
   * Equal lengths, at least one bucket, the first starting at `startDate` and
   * every later one starting the day after the previous one ended.
   */
  predicate Chained(startDate: Date, b: Buckets)
  {
    |b.starts| == |b.ends| > 0
    && b.starts[0] == startDate
    && forall i :: 0 < i < |b.ends| ==> Valid(b.ends[i - 1]) && b.starts[i] == NextDay(b.ends[i - 1])
  }

  /**
   * What the source returns for an interval of 'monthly': the buckets end on
   * the month-ends of the range, and a trailing bucket ending on `endDate` is
   * appended exactly when the day after the last month-end is not `endDate`.
   */
  predicate SourceLayout(startDate: Date, endDate: Date, b: Buckets)
    requires Valid(startDate) && Valid(endDate)
  {
    var me := MonthEnds(startDate, endDate);
    me != []
    && Chained(startDate, b)
    && |me| <= |b.ends| && b.ends[..|me|] == me
    && if NextDay(me[|me| - 1]) != endDate
       then |b.ends| == |me| + 1 && b.ends[|me|] == endDate
       else |b.ends| == |me|
  }

  /** The loop over the month-ends: one bucket per month-end, chained from `startDate`. */
  method ChainMonthEnds(startDate: Date, daterange: seq<Date>) returns (start: seq<Date>, end: seq<Date>)
    requires forall i :: 0 <= i < |daterange| ==> Valid(daterange[i])
    ensures end == daterange && |start| == |daterange|
    ensures daterange != [] ==> Chained(startDate, Buckets(start, end))
  {
    start, end := [], [];
    for i := 0 to |daterange|
      invariant end == daterange[..i] && |start| == i
      invariant i > 0 ==> start[0] == startDate
      invariant forall k :: 0 < k < i ==> start[k] == NextDay(daterange[k - 1])
    {
      if i == 0 {
        start := start + [startDate];
      } else {
        start := start + [NextDay(daterange[i - 1])];
      }
      end := end + [daterange[i]];
    }
  }

  /** `daterange_interval(interval, start_date, end_date)` as written. */
  method DaterangeInterval(interval: string, startDate: Date, endDate: Date)
    returns (r: Result<Buckets, BucketError>)
    requires Valid(startDate) && Valid(endDate)
    ensures interval != "monthly" ==> r == Failure(UnsupportedInterval)
    ensures interval == "monthly" && MonthEnds(startDate, endDate) == [] ==> r == Failure(NoMonthEnd)
    ensures interval == "monthly" && MonthEnds(startDate, endDate) != [] ==>
              r.Success? && SourceLayout(startDate, endDate, r.value)
  {
    if interval != "monthly" {
      return Failure(UnsupportedInterval);
    }
    var daterange := MonthEnds(startDate, endDate);
    var start, end := ChainMonthEnds(startDate, daterange);
    if daterange == [] {
      return Failure(NoMonthEnd);
    }
    var dr := daterange[|daterange| - 1];
    if NextDay(dr) != endDate {
      ChainExtend(startDate, Buckets(start, end), endDate);
      assert (end + [endDate])[..|daterange|] == end;
      start := start + [NextDay(dr)];
      end := end + [endDate];
    }
    return Success(Buckets(start, end));
  }

  /** A chain stays a chain when a bucket starting the day after its last end is appended. */
  lemma ChainExtend(startDate: Date, b: Buckets, x: Date)
    requires Chained(startDate, b)
    requires forall i :: 0 <= i < |b.ends| ==> Valid(b.ends[i])
    ensures Chained(startDate, Buckets(b.starts + [NextDay(b.ends[|b.ends| - 1])], b.ends + [x]))
  {
    var n := |b.ends|;
    var starts := b.starts + [NextDay(b.ends[n - 1])];
    var ends := b.ends + [x];
    forall i | 0 < i < |ends|
      ensures Valid(ends[i - 1]) && starts[i] == NextDay(ends[i - 1])
    {
      assert ends[i - 1] == b.ends[i - 1];
      if i < n {
        assert starts[i] == b.starts[i];
      }
    }
  }

  /** Every bucket before the trailing one is a whole month, except that the first starts at `startDate`. */
  lemma SourceBucketsAreMonths(startDate: Date, endDate: Date, b: Buckets, i: int)
    requires Valid(startDate) && Valid(endDate) && SourceLayout(startDate, endDate, b)
    requires 0 <= i < |MonthEnds(startDate, endDate)|
    ensures IsMonthEnd(b.ends[i])
    ensures i == 0 ==>
              NotAfter(startDate, b.ends[0]) && b.ends[0] == MonthEnd(startDate.year, startDate.month)
    ensures i > 0 ==> b.starts[i].day == 1 && b.ends[i] == MonthEnd(b.starts[i].year, b.starts[i].month)
  {
    var me := MonthEnds(startDate, endDate);
    assert b.ends[i] == b.ends[..|me|][i] == me[i];
    if i > 0 {
      assert b.ends[i - 1] == b.ends[..|me|][i - 1] == me[i - 1];
      MonthEndsConsecutive(startDate, endDate, i);
    }
  }

  /** Consecutive buckets never overlap: each ends strictly before the next one starts. */
  lemma ChainedSeparated(startDate: Date, b: Buckets, i: int, j: int)
    requires Chained(startDate, b) && 0 <= i < j < |b.ends|
    requires forall k :: i < k < j ==> NotAfter(b.starts[k], b.ends[k])
    ensures Before(b.ends[i], b.starts[j])
    decreases j - i
  {
    if j > i + 1 {
      ChainedSeparated(startDate, b, i, j - 1);
    }
  }

  /**
   * An `end_date` on the first of a month adds no trailing bucket: the last
   * month-end is the day before it.
   */
  lemma SourceEndOnFirstOfMonth(startDate: Date, endDate: Date, b: Buckets)
    requires Valid(startDate) && Valid(endDate) && SourceLayout(startDate, endDate, b)
    requires endDate.day == 1
    ensures |b.ends| == |MonthEnds(startDate, endDate)|
    ensures NextDay(b.ends[|b.ends| - 1]) == endDate
  {
    var me := MonthEnds(startDate, endDate);
    LastMonthEndBeforeFirst(startDate, endDate);
    assert b.ends[|me| - 1] == b.ends[..|me|][|me| - 1];
  }

  /** When the range ends on the 1st of a month, its last month-end is the day before. */
  lemma LastMonthEndBeforeFirst(startDate: Date, endDate: Date)
    requires Valid(startDate) && Valid(endDate) && endDate.day == 1
    requires MonthEnds(startDate, endDate) != []
    ensures NextDay(MonthEnds(startDate, endDate)[|MonthEnds(startDate, endDate)| - 1]) == endDate
  {
    var me := MonthEnds(startDate, endDate);
    var last := me[|me| - 1];
    var prev := if endDate.month == 1 then MonthEnd(endDate.year - 1, 12)
                else MonthEnd(endDate.year, endDate.month - 1);
    assert NextDay(prev) == endDate;
    MonthEndOrder(me[0], prev);
    MonthEndsExactly(startDate, endDate, prev);
    LastMonthEndIsLatest(startDate, endDate, prev);
    if Before(prev, last) {
      NextDayIsSuccessor(prev, last);
      assert false;
    }
  }

  /**
   * An `end_date` that is itself a month-end still gets a trailing bucket, and
   * that bucket starts the day after it ends.
   */
  lemma SourceInvertedTrailingBucket(startDate: Date, endDate: Date, b: Buckets)
    requires Valid(startDate) && Valid(endDate) && SourceLayout(startDate, endDate, b)
    requires IsMonthEnd(endDate)
    ensures |b.ends| == |MonthEnds(startDate, endDate)| + 1
    ensures Before(b.ends[|b.ends| - 1], b.starts[|b.ends| - 1])
  {
    var me := MonthEnds(startDate, endDate);
    var last := me[|me| - 1];
    LastMonthEndIsLatest(startDate, endDate, endDate);
    assert last == endDate;
    assert b.ends[|me| - 1] == b.ends[..|me|][|me| - 1];
  }

  /** The smallest such range: 2020-01-01 to 2020-01-31 yields the buckets (Jan 1, Jan 31) and (Feb 1, Jan 31). */
  lemma SourceJanuary2020(b: Buckets)
    requires SourceLayout(Date(2020, 1, 1), Date(2020, 1, 31), b)
    ensures b == Buckets([Date(2020, 1, 1), Date(2020, 2, 1)], [Date(2020, 1, 31), Date(2020, 1, 31)])
  {
    var me := MonthEnds(Date(2020, 1, 1), Date(2020, 1, 31));
    assert me == [Date(2020, 1, 31)];
    assert b.ends[0] == b.ends[..1][0];
  }

  /** A range inside one month holds no month-end, so the source fails on it (`dr` is never bound). */
  lemma SourceMidMonthRangeFails()
    ensures MonthEnds(Date(2020, 1, 5), Date(2020, 1, 20)) == []
  {
    assert Before(Date(2020, 1, 20), MonthEnd(2020, 1));
  }

  /** A range that ends before it starts holds no month-end either. */
  lemma ReversedRangeHasNoMonthEnd(startDate: Date, endDate: Date)
    requires Valid(startDate) && Valid(endDate) && Before(endDate, startDate)
    ensures MonthEnds(startDate, endDate) == []
  {
  }

  /** A range over a leap-year February: 2020-01-01 to 2020-03-15. */
  lemma SourceLeapYearRange(b: Buckets)
    requires SourceLayout(Date(2020, 1, 1), Date(2020, 3, 15), b)
    ensures b == Buckets([Date(2020, 1, 1), Date(2020, 2, 1), Date(2020, 3, 1)],
                         [Date(2020, 1, 31), Date(2020, 2, 29), Date(2020, 3, 15)])
  {
    var me := MonthEnds(Date(2020, 1, 1), Date(2020, 3, 15));
    assert me == [Date(2020, 1, 31), Date(2020, 2, 29)];
    assert b.ends[0] == b.ends[..2][0] && b.ends[1] == b.ends[..2][1];
  }

  /** The driver's year, 2019-09-01 to 2020-09-01: twelve whole-month buckets and no trailing one. */
  lemma SourceDriverYear(b: Buckets)
    requires SourceLayout(Date(2019, 9, 1), Date(2020, 9, 1), b)
    ensures |b.ends| == 12 && b.ends[11] == Date(2020, 8, 31)
  {
    var me := MonthEnds(Date(2019, 9, 1), Date(2020, 9, 1));
    SourceEndOnFirstOfMonth(Date(2019, 9, 1), Date(2020, 9, 1), b);
    MonthEndsExactly(Date(2019, 9, 1), Date(2020, 9, 1), Date(2020, 8, 31));
    assert |me| == 12;
  }

  /**
   * The buckets partition `[startDate, endDate]`: chained, each non-empty, the
   * last one ending on `endDate`.
   */
  predicate Partition(startDate: Date, endDate: Date, b: Buckets)
  {
    Chained(startDate, b)
    && b.ends[|b.ends| - 1] == endDate
    && forall i :: 0 <= i < |b.ends| ==> Valid(b.ends[i]) && NotAfter(b.starts[i], b.ends[i])
  }

  predicate InBucket(b: Buckets, i: int, x: Date)
    requires 0 <= i < |b.starts| == |b.ends|
  {
    NotAfter(b.starts[i], x) && NotAfter(x, b.ends[i])
  }

  lemma {:induction false} PartitionCoversFrom(startDate: Date, endDate: Date, b: Buckets, k: int, x: Date)
    requires Partition(startDate, endDate, b) && 0 <= k < |b.ends|
    requires Valid(x) && NotAfter(b.starts[k], x) && NotAfter(x, endDate)
    ensures exists i :: k <= i < |b.ends| && InBucket(b, i, x)
    decreases |b.ends| - k
  {
    if !NotAfter(x, b.ends[k]) {
      assert b.ends[|b.ends| - 1] == endDate;
      assert k + 1 < |b.ends|;
      assert Valid(b.ends[k]) && b.starts[k + 1] == NextDay(b.ends[k]);
      NextDayIsSuccessor(b.ends[k], x);
      PartitionCoversFrom(startDate, endDate, b, k + 1, x);
    } else {
      assert InBucket(b, k, x);
    }
  }

  /** Every day of `[startDate, endDate]` lies in some bucket of a partition. */
  lemma PartitionCovers(startDate: Date, endDate: Date, b: Buckets, x: Date)
    requires Partition(startDate, endDate, b)
    requires Valid(x) && NotAfter(startDate, x) && NotAfter(x, endDate)
    ensures exists i :: 0 <= i < |b.ends| && InBucket(b, i, x)
  {
    PartitionCoversFrom(startDate, endDate, b, 0, x);
  }

  /** No day lies in two buckets of a partition. */
  lemma PartitionDisjoint(startDate: Date, endDate: Date, b: Buckets, i: int, j: int, x: Date)
    requires Partition(startDate, endDate, b) && 0 <= i < j < |b.ends|
    requires InBucket(b, i, x)
    ensures !InBucket(b, j, x)
  {
    ChainedSeparated(startDate, b, i, j);
  }

  /** Buckets ending on the month-ends of a range are all non-empty. */
  lemma MonthEndBucketsNonEmpty(startDate: Date, endDate: Date, b: Buckets)
    requires Valid(startDate) && Valid(endDate)
    requires b.ends == MonthEnds(startDate, endDate) && Chained(startDate, b)
    ensures forall i :: 0 <= i < |b.ends| ==> Valid(b.ends[i]) && NotAfter(b.starts[i], b.ends[i])
  {
    forall i | 0 < i < |b.ends|
      ensures NotAfter(b.starts[i], b.ends[i])
    {
      MonthEndsIncreasing(startDate, endDate, i - 1, i);
      NextDayIsSuccessor(b.ends[i - 1], b.ends[i]);
    }
  }

  /** Appending a bucket from the day after the last end up to a later `endDate` completes a partition. */
  lemma AppendTrailingBucket(startDate: Date, endDate: Date, b: Buckets)
    requires Chained(startDate, b) && Valid(endDate)
    requires forall i :: 0 <= i < |b.ends| ==> Valid(b.ends[i]) && NotAfter(b.starts[i], b.ends[i])
    requires Before(b.ends[|b.ends| - 1], endDate)
    ensures Partition(startDate, endDate,
                      Buckets(b.starts + [NextDay(b.ends[|b.ends| - 1])], b.ends + [endDate]))
  {
    ChainExtend(startDate, b, endDate);
    NextDayIsSuccessor(b.ends[|b.ends| - 1], endDate);
  }

  /**
   * The number of buckets after the month-end ones: none when the last
   * month-end is `endDate` itself, one otherwise (also when there is no
   * month-end at all).
   */
  function TrailingCount(endDate: Date, me: seq<Date>): nat
  {
    if me != [] && me[|me| - 1] == endDate then 0 else 1
  }

  /**
   * The corrected routine, whose buckets partition `[startDate, endDate]`: a
   * range that precedes its start is refused, a range without a month-end is
   * the one bucket `(startDate, endDate)`, no bucket is inverted, and the
   * trailing bucket is appended exactly when the last month-end is not
   * `endDate` itself.
   */
  method DaterangeIntervalFixed(interval: string, startDate: Date, endDate: Date)
    returns (r: Result<Buckets, BucketError>)
    requires Valid(startDate) && Valid(endDate)
    ensures interval != "monthly" ==> r == Failure(UnsupportedInterval)
    ensures interval == "monthly" && Before(endDate, startDate) ==> r == Failure(InvalidRange)
    ensures interval == "monthly" && NotAfter(startDate, endDate) ==>
              r.Success? && Partition(startDate, endDate, r.value)
              && |MonthEnds(startDate, endDate)| <= |r.value.ends|
              && r.value.ends[..|MonthEnds(startDate, endDate)|] == MonthEnds(startDate, endDate)
              && |r.value.ends| == |MonthEnds(startDate, endDate)| + TrailingCount(endDate, MonthEnds(startDate, endDate))
    ensures interval == "monthly" && NotAfter(startDate, endDate) && MonthEnds(startDate, endDate) == [] ==>
              r == Success(Buckets([startDate], [endDate]))
  {
    if interval != "monthly" {
      return Failure(UnsupportedInterval);
    }
    if Before(endDate, startDate) {
      return Failure(InvalidRange);
    }
    var daterange := MonthEnds(startDate, endDate);
    var start, end := ChainMonthEnds(startDate, daterange);
    if daterange == [] {
      return Success(Buckets([startDate], [endDate]));
    }
    MonthEndBucketsNonEmpty(startDate, endDate, Buckets(start, end));
    var dr := daterange[|daterange| - 1];
    if dr != endDate {
      AppendTrailingBucket(startDate, endDate, Buckets(start, end));
      start := start + [NextDay(dr)];
      end := end + [endDate];
    }
    return Success(Buckets(start, end));
  }
}
