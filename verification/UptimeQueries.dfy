/** The queries over the hourly statistics (`storage/store/memory/memory.go`) and what they say about the history. */
module UptimeQueries {
  import opened Arithmetic
  import opened Uptime
  import opened Wrappers

  /** How many hours a query looks at, and the last of them. */
  function Visits(from: int, to: int): nat
    requires from <= to
  {
    (to - from) / HOUR + 1
  }

  function LastVisited(from: int, to: int): int
    requires from <= to
  {
    HourOf(from) + (Visits(from, to) - 1) * 3600
  }

  lemma HourAfter(from: int, k: nat)
    ensures HourOf(from + k * HOUR) == HourOf(from) + k * 3600
  {
    assert (from + k * HOUR) / HOUR == from / HOUR + k;
  }

  /**
   The hour in which the range ends is looked at exactly when the range ends at least as far into that hour as it
   started into its first one; otherwise the query stops an hour short of it.
   */
  lemma LastHourVisitedIff(from: int, to: int)
    requires from <= to
    ensures LastVisited(from, to) == HourOf(to) <==> to % HOUR >= from % HOUR
    ensures to % HOUR < from % HOUR ==> LastVisited(from, to) == HourOf(to) - 3600
  {
    var hours, rest := to / HOUR - from / HOUR, to % HOUR - from % HOUR;
    assert to - from == hours * HOUR + rest;
    if rest >= 0 {
      assert (to - from) / HOUR == hours;
    } else {
      assert to - from == (hours - 1) * HOUR + (rest + HOUR);
      assert (to - from) / HOUR == hours - 1;
    }
  }

  // ---------- sums over visited hours ----------

  /** The running totals of the query loops after n hours; the sum of response times is a uint64. */
  function RangeSum(index: Index, first: int, n: nat): Bucket {
    if n == 0 then NOTHING
    else
      var s, b := RangeSum(index, first, n - 1), At(index, first + (n - 1) * 3600);
      if b.total == 0 then s
      else Bucket(s.total + b.total, s.successful + b.successful, (s.responseTime + b.responseTime) % TWO64)
  }

  lemma RangeSumGrows(index: Index, first: int, n: nat)
    ensures var s, b := RangeSum(index, first, n), At(index, first + n * 3600);
            RangeSum(index, first, n + 1) ==
            if b.total == 0 then s
            else Bucket(s.total + b.total, s.successful + b.successful, (s.responseTime + b.responseTime) % TWO64)
  {
  }

  /** The same sum of response times without wrap-around. */
  function RangeResponse(index: Index, first: int, n: nat): nat {
    if n == 0 then 0
    else
      var b := At(index, first + (n - 1) * 3600);
      RangeResponse(index, first, n - 1) + if b.total == 0 then 0 else b.responseTime
  }

  lemma {:induction false} ResponseWraps(index: Index, first: int, n: nat)
    ensures RangeSum(index, first, n).responseTime == RangeResponse(index, first, n) % TWO64
    decreases n
  {
    if n > 0 {
      ResponseWraps(index, first, n - 1);
      var s, b := RangeResponse(index, first, n - 1), At(index, first + (n - 1) * 3600);
      if b.total != 0 {
        AddThenWrap(s, b.responseTime);
      }
    }
  }

  lemma AddThenWrap(s: nat, b: nat)
    ensures (s % TWO64 + b) % TWO64 == (s + b) % TWO64
  {
    assert s + b == s / TWO64 * TWO64 + (s % TWO64 + b);
  }

  // ---------- queries and history ----------

  lemma {:induction false} CleanedDownward(hs: seq<Insertion>, h: int, h': int)
    requires !Cleaned(hs, h) && h <= h'
    ensures !Cleaned(hs, h')
    decreases |hs|
  {
    if hs != [] {
      CleanedDownward(hs[..|hs| - 1], h, h');
    }
  }

  lemma {:induction false} EmptyRange(hs: seq<Insertion>, lo: int, hi: int)
    requires hi < lo
    ensures Totals(hs, lo, hi) == NOTHING && TotalMilliseconds(hs, lo, hi) == 0
    decreases |hs|
  {
    if hs != [] {
      EmptyRange(hs[..|hs| - 1], lo, hi);
    }
  }

  /** A range of whole hours and the hour after it. */
  lemma {:induction false} RangesAdd(hs: seq<Insertion>, lo: int, hi: int)
    requires lo <= hi && hi % 3600 == 0
    ensures Count(hs, lo, hi) == Count(hs, lo, hi - 3600) + Count(hs, hi, hi)
    ensures Successes(hs, lo, hi) == Successes(hs, lo, hi - 3600) + Successes(hs, hi, hi)
    ensures TotalMilliseconds(hs, lo, hi) == TotalMilliseconds(hs, lo, hi - 3600) + TotalMilliseconds(hs, hi, hi)
    decreases |hs|
  {
    if hs != [] {
      RangesAdd(hs[..|hs| - 1], lo, hi);
      WholeHours(hs[|hs| - 1].result.timestamp, hi);
    }
  }

  lemma WholeHours(t: int, hi: int)
    requires hi % 3600 == 0
    ensures HourOf(t) <= hi <==> HourOf(t) <= hi - 3600 || HourOf(t) == hi
  {
    assert HourOf(t) % 3600 == 0;
  }

  /** No bucket exists without an execution in it, and no hour without executions took any time. */
  lemma {:induction false} NoExecutionsNoTime(hs: seq<Insertion>, lo: int, hi: int)
    requires Count(hs, lo, hi) == 0
    ensures Totals(hs, lo, hi) == NOTHING && TotalMilliseconds(hs, lo, hi) == 0
    decreases |hs|
  {
    if hs != [] {
      NoExecutionsNoTime(hs[..|hs| - 1], lo, hi);
    }
  }

  /** Queries that start at an hour that has not been cut off sum up the history, each hour once. */
  lemma {:induction false} RangeSumIsHistory(hs: seq<Insertion>, first: int, n: nat)
    requires first % 3600 == 0 && !Cleaned(hs, first)
    ensures RangeSum(Replay(hs), first, n) == Totals(hs, first, first + (n - 1) * 3600)
    decreases n
  {
    if n == 0 {
      EmptyRange(hs, first, first - 3600);
    } else {
      var hi := first + (n - 1) * 3600;
      RangeSumIsHistory(hs, first, n - 1);
      CleanedDownward(hs, first, hi);
      IndexAgreesWithHistory(hs, hi);
      RangesAdd(hs, first, hi);
      WrappingSum(TotalMilliseconds(hs, first, hi - 3600), TotalMilliseconds(hs, hi, hi));
      if Count(hs, hi, hi) == 0 {
        NoExecutionsNoTime(hs, hi, hi);
      }
    }
  }

  function Ratio(b: Bucket): real {
    if b.total == 0 then 0.0 else b.successful as real / b.total as real
  }

  lemma {:induction false} SuccessesAreCounted(hs: seq<Insertion>, lo: int, hi: int)
    ensures Successes(hs, lo, hi) <= Count(hs, lo, hi)
    decreases |hs|
  {
    if hs != [] {
      SuccessesAreCounted(hs[..|hs| - 1], lo, hi);
    }
  }

  /** An uptime is the share of the results that succeeded: 0 without results, and 1 if and only if all of some did. */
  ghost predicate UptimeOfHistory(hs: seq<Insertion>, first: int, last: int, uptime: real) {
    var total, successful := Count(hs, first, last), Successes(hs, first, last);
    && 0.0 <= uptime <= 1.0 && uptime * total as real == successful as real
    && (total == 0 ==> uptime == 0.0) && (uptime == 1.0 <==> total > 0 && successful == total)
  }

  lemma ShareOf(a: nat, b: nat)
    requires a <= b && b > 0
    ensures var r := a as real / b as real; 0.0 <= r <= 1.0 && r * b as real == a as real && (r == 1.0 <==> a == b)
  {
  }

  lemma RatioIsUptime(hs: seq<Insertion>, first: int, last: int)
    ensures UptimeOfHistory(hs, first, last, Ratio(Totals(hs, first, last)))
  {
    SuccessesAreCounted(hs, first, last);
    if Count(hs, first, last) > 0 {
      ShareOf(Successes(hs, first, last), Count(hs, first, last));
    }
  }

  // ---------- the last thirty days ----------

  /** With a clock that never goes back, queries that start within the last 30 days answer from the full history. */
  lemma LastThirtyDaysAreAnswered(hs: seq<Insertion>, from: int, to: int)
    requires from <= to && hs != [] && forall i, j | 0 <= i <= j < |hs| :: hs[i].now <= hs[j].now
    requires from >= hs[|hs| - 1].now - 30 * 24 * 3600 * 1_000_000_000
    ensures !Cleaned(hs, HourOf(from))
    ensures RangeSum(Replay(hs), HourOf(from), Visits(from, to)) == Totals(hs, HourOf(from), LastVisited(from, to))
  {
    HoursAreOrdered(hs[|hs| - 1].now - 30 * 24 * 3600 * 1_000_000_000, from);
    ThirtyDaysAreKept(hs, HourOf(from));
    RangeSumIsHistory(hs, HourOf(from), Visits(from, to));
  }

  function Mean(b: Bucket): nat {
    if b.total == 0 then 0 else b.responseTime / b.total
  }

  /** The hourly averages: one for every visited hour that has executions. */
  function HourlyMeans(index: Index, first: int, n: nat): map<int, nat> {
    if n == 0 then map[]
    else
      var h := first + (n - 1) * 3600;
      if At(index, h).total == 0 then HourlyMeans(index, first, n - 1)
      else HourlyMeans(index, first, n - 1)[h := Mean(index[h])]
  }

  /** The map has exactly the visited hours with executions, each with the mean of its bucket. */
  lemma {:induction false} HourlyMeansAre(index: Index, first: int, n: nat, h: int)
    ensures var m := HourlyMeans(index, first, n);
            && (h in m <==> first <= h < first + n * 3600 && (h - first) % 3600 == 0 && At(index, h).total != 0)
            && (h in m ==> m[h] == Mean(At(index, h)))
    decreases n
  {
    if n > 0 {
      var last := first + (n - 1) * 3600;
      HourlyMeansAre(index, first, n - 1, h);
      if last <= h < last + 3600 {
        OneHourApart(h - first, n - 1);
      }
    }
  }

  lemma OneHourApart(d: int, k: nat)
    requires k * 3600 <= d < k * 3600 + 3600
    ensures d % 3600 == 0 <==> d == k * 3600
  {
    assert d % 3600 == d - k * 3600;
  }

  lemma {:induction false} CountedHoursAreWhole(hs: seq<Insertion>, h: int)
    requires Count(hs, h, h) > 0
    ensures h % 3600 == 0
    decreases |hs|
  {
    if Count(hs[..|hs| - 1], h, h) > 0 {
      CountedHoursAreWhole(hs[..|hs| - 1], h);
    }
  }

  /** What the query promises of its map: the visited hours with executions, with the means of their buckets. */
  ghost predicate HourlyOf(index: Index, from: int, to: int, m: map<int, nat>)
    requires from <= to
  {
    forall h: int ::
      && (h in m <==> HourOf(from) <= h <= LastVisited(from, to) && h % 3600 == 0 && At(index, h).total != 0)
      && (h in m ==> m[h] == Mean(At(index, h)))
  }

  /**
   The same in terms of the history: the visited hours in which results were ever inserted, with the means of these.
   */
  ghost predicate HourlyOfHistory(hs: seq<Insertion>, from: int, to: int, m: map<int, nat>)
    requires from <= to
  {
    forall h: int ::
      && (h in m <==> HourOf(from) <= h <= LastVisited(from, to) && Count(hs, h, h) > 0)
      && (h in m ==> m[h] == Mean(Totals(hs, h, h)))
  }

  lemma WholeHoursVisited(from: int, to: int, h: int)
    requires from <= to
    ensures var first := HourOf(from);
            first <= h < first + Visits(from, to) * 3600 && (h - first) % 3600 == 0 <==>
            first <= h <= LastVisited(from, to) && h % 3600 == 0
  {
    assert HourOf(from) % 3600 == 0 && LastVisited(from, to) % 3600 == 0;
  }

  lemma HourlyMeansAnswer(index: Index, from: int, to: int)
    requires from <= to
    ensures HourlyOf(index, from, to, HourlyMeans(index, HourOf(from), Visits(from, to)))
  {
    forall h: int
      ensures var m := HourlyMeans(index, HourOf(from), Visits(from, to));
              && (h in m <==> HourOf(from) <= h <= LastVisited(from, to) && h % 3600 == 0 && At(index, h).total != 0)
              && (h in m ==> m[h] == Mean(At(index, h)))
    {
      HourlyMeansAre(index, HourOf(from), Visits(from, to), h);
      WholeHoursVisited(from, to, h);
    }
  }

  /** If the first hour has not been cut off, the two say the same. */
  lemma HourlyAnswerIsHistory(hs: seq<Insertion>, from: int, to: int, m: map<int, nat>)
    requires from <= to && !Cleaned(hs, HourOf(from)) && HourlyOf(Replay(hs), from, to, m)
    ensures HourlyOfHistory(hs, from, to, m)
  {
    forall h: int
      ensures h in m <==> HourOf(from) <= h <= LastVisited(from, to) && Count(hs, h, h) > 0
      ensures h in m ==> m[h] == Mean(Totals(hs, h, h))
    {
      if HourOf(from) <= h {
        CleanedDownward(hs, HourOf(from), h);
        IndexAgreesWithHistory(hs, h);
        if Count(hs, h, h) > 0 {
          CountedHoursAreWhole(hs, h);
        }
      }
    }
  }

  // ---------- averages ----------

  /** Some visited hours bound the mean of all of them from below and from above. */
  lemma {:induction false} MeansBracket(index: Index, first: int, n: nat) returns (lo: int, hi: int)
    requires RangeSum(index, first, n).total > 0
    ensures var m, total := HourlyMeans(index, first, n), RangeSum(index, first, n).total;
            && lo in m && hi in m
            && m[lo] * total <= RangeResponse(index, first, n) < (m[hi] + 1) * total
    decreases n
  {
    var h := first + (n - 1) * 3600;
    var b, before := At(index, h), HourlyMeans(index, first, n - 1);
    HoursBefore(index, first, n - 1, h);
    if b.total == 0 {
      lo, hi := MeansBracket(index, first, n - 1);
    } else {
      var mean := Mean(b);
      DivisionBrackets(b.responseTime, b.total);
      if RangeSum(index, first, n - 1).total == 0 {
        NoExecutionsNoResponse(index, first, n - 1);
        lo, hi := h, h;
      } else {
        lo, hi := MeansBracket(index, first, n - 1);
        var s, total := RangeResponse(index, first, n - 1), RangeSum(index, first, n - 1).total;
        Mediant(before[lo], mean, total, b.total, s, b.responseTime);
        MediantUp(before[hi], mean, total, b.total, s, b.responseTime);
        lo := if before[lo] <= mean then lo else h;
        hi := if before[hi] >= mean then hi else h;
      }
    }
  }

  lemma {:induction false} HoursBefore(index: Index, first: int, n: nat, h: int)
    requires h >= first + n * 3600
    ensures h !in HourlyMeans(index, first, n)
    decreases n
  {
    if n > 0 {
      HoursBefore(index, first, n - 1, h);
    }
  }

  lemma {:induction false} NoExecutionsNoResponse(index: Index, first: int, n: nat)
    requires RangeSum(index, first, n).total == 0
    ensures RangeResponse(index, first, n) == 0
    decreases n
  {
    if n > 0 {
      NoExecutionsNoResponse(index, first, n - 1);
    }
  }

  lemma Mediant(p: nat, q: nat, m: nat, n: nat, s: nat, t: nat)
    requires p * m <= s && q * n <= t
    ensures (if p <= q then p else q) * (m + n) <= s + t
  {
    var least := if p <= q then p else q;
    assert least * m <= p * m && least * n <= q * n;
    assert least * (m + n) == least * m + least * n;
  }

  lemma MediantUp(p: nat, q: nat, m: nat, n: nat, s: nat, t: nat)
    requires s < (p + 1) * m && t < (q + 1) * n
    ensures s + t < ((if p >= q then p else q) + 1) * (m + n)
  {
    var most := if p >= q then p else q;
    assert (p + 1) * m <= (most + 1) * m && (q + 1) * n <= (most + 1) * n;
    assert (most + 1) * (m + n) == (most + 1) * m + (most + 1) * n;
  }

  lemma WrapTakesAway(s: int)
    requires s >= TWO64
    ensures s % TWO64 + TWO64 <= s
  {
  }

  /**
   The average over a range lies between the least and the greatest hourly average of the same range, provided the
   response times of the range add up to less than 2^64; it never exceeds the greatest in any case.
   */
  lemma AverageIsBetweenHourlyAverages(index: Index, first: int, n: nat) returns (lo: int, hi: int)
    requires RangeSum(index, first, n).total > 0
    ensures var m, mean := HourlyMeans(index, first, n), Mean(RangeSum(index, first, n));
            && lo in m && hi in m && mean <= m[hi]
            && (RangeResponse(index, first, n) < TWO64 ==> m[lo] <= mean)
  {
    lo, hi := MeansBracket(index, first, n);
    var s, total := RangeResponse(index, first, n), RangeSum(index, first, n).total;
    ResponseWraps(index, first, n);
    QuotientBetween(HourlyMeans(index, first, n)[lo], HourlyMeans(index, first, n)[hi], s, total);
    QuotientMonotone(s % TWO64, s, total);
  }

  /** An hour of the least hourly average. */
  ghost predicate Least(m: map<int, nat>, h: int) {
    h in m && forall k | k in m :: m[h] <= m[k]
  }

  /**
   The average is at least the least hourly average exactly when the response times exceed that average, taken for every
   execution, by as much as their sum has lost in wrapping around; so always, if it has not wrapped around.
   */
  lemma AverageIsAtLeastTheLeastIff(index: Index, first: int, n: nat, h: int)
    requires RangeSum(index, first, n).total > 0 && Least(HourlyMeans(index, first, n), h)
    ensures var m, total, s :=
            HourlyMeans(index, first, n), RangeSum(index, first, n).total, RangeResponse(index, first, n);
            && s - m[h] * total >= 0
            && (m[h] <= Mean(RangeSum(index, first, n)) <==> s - m[h] * total >= s / TWO64 * TWO64)
  {
    var least, total, s :=
      HourlyMeans(index, first, n)[h], RangeSum(index, first, n).total, RangeResponse(index, first, n);
    var lo, hi := MeansBracket(index, first, n);
    Monotone(least, HourlyMeans(index, first, n)[lo], total);
    ResponseWraps(index, first, n);
    AtMostQuotientIff(least, s % TWO64, total);
    assert s == s / TWO64 * TWO64 + s % TWO64;
  }

  lemma AtMostQuotientIff(q: nat, a: nat, d: nat)
    requires d > 0
    ensures q <= a / d <==> q * d <= a
  {
    DivisionBrackets(a, d);
    if q <= a / d {
      Monotone(q, a / d, d);
    } else {
      Monotone(a / d + 1, q, d);
    }
  }

  // ---------- averages and the durations of results ----------

  /**
   The average over a range is that of the results ever inserted in it, rounded down, exactly when their durations add
   up to something that fits a uint64: not to less than zero, and not to 2^64 milliseconds.
   */
  lemma AverageIsTrueIff(hs: seq<Insertion>, first: int, n: nat)
    requires first % 3600 == 0 && !Cleaned(hs, first)
    requires 0 < Count(hs, first, first + (n - 1) * 3600) <= TWO64
    ensures var last := first + (n - 1) * 3600;
            Mean(RangeSum(Replay(hs), first, n)) == TotalMilliseconds(hs, first, last) / Count(hs, first, last)
            <==> 0 <= TotalMilliseconds(hs, first, last) < TWO64
  {
    var last := first + (n - 1) * 3600;
    RangeSumIsHistory(hs, first, n);
    TrueQuotientIff(TotalMilliseconds(hs, first, last), Count(hs, first, last));
  }

  lemma TrueQuotientIff(t: int, d: nat)
    requires 0 < d <= TWO64
    ensures ToUint64(t) / d == t / d <==> 0 <= t < TWO64
  {
    if t < 0 {
      QuotientsHaveSigns(ToUint64(t), t, d);
    } else if t >= TWO64 {
      SmallerQuotient(ToUint64(t), t, d);
    }
  }

  lemma QuotientsHaveSigns(a: nat, t: int, d: nat)
    requires d > 0 && t < 0
    ensures t / d < 0 <= a / d
  {
    DivisionBrackets(a, d);
    Cancel(-1, a / d, d);
    Cancel(t / d, 0, d);
  }

  lemma SmallerQuotient(a: nat, t: nat, d: nat)
    requires 0 < d <= TWO64 <= t && a == t % TWO64
    ensures a / d < t / d
  {
    WrapTakesAway(t);
    QuotientMonotone(a + d, t, d);
    OneMore(a, d);
  }

  /** Likewise for every hourly average the query answers. */
  lemma HourlyAverageIsTrueIff(hs: seq<Insertion>, from: int, to: int, m: map<int, nat>, h: int)
    requires from <= to && HourlyOfHistory(hs, from, to, m) && h in m && Count(hs, h, h) <= TWO64
    ensures Count(hs, h, h) > 0
    ensures m[h] == TotalMilliseconds(hs, h, h) / Count(hs, h, h) <==> 0 <= TotalMilliseconds(hs, h, h) < TWO64
  {
    TrueQuotientIff(TotalMilliseconds(hs, h, h), Count(hs, h, h));
  }

  /** Results of which none took a negative time. */
  ghost predicate NonNegative(hs: seq<Insertion>) {
    forall i | 0 <= i < |hs| :: hs[i].result.duration >= 0
  }

  lemma {:induction false} NonNegativeTotal(hs: seq<Insertion>, lo: int, hi: int)
    requires NonNegative(hs)
    ensures TotalMilliseconds(hs, lo, hi) >= 0
    decreases |hs|
  {
    if hs != [] {
      NonNegativeTotal(hs[..|hs| - 1], lo, hi);
    }
  }

  /** Then the sum wraps around only if they add up to 2^64 milliseconds: nothing is counted that was not measured. */
  lemma {:induction false} NonNegativeDurationsDoNotWrap(hs: seq<Insertion>, first: int, n: nat)
    requires first % 3600 == 0 && !Cleaned(hs, first) && NonNegative(hs)
    ensures 0 <= RangeResponse(Replay(hs), first, n) <= TotalMilliseconds(hs, first, first + (n - 1) * 3600)
    decreases n
  {
    if n == 0 {
      EmptyRange(hs, first, first - 3600);
    } else {
      var hi := first + (n - 1) * 3600;
      NonNegativeDurationsDoNotWrap(hs, first, n - 1);
      CleanedDownward(hs, first, hi);
      IndexAgreesWithHistory(hs, hi);
      RangesAdd(hs, first, hi);
      NonNegativeTotal(hs, hi, hi);
    }
  }

  /**
   A single negative duration makes its hour's average, and that of any range it dominates, an enormous number: here,
   -1 ms is reported as 2^64 - 1 ms.
   */
  lemma NegativeDurationIsEnormous()
    ensures var hs := [Insertion(Result(true, 0, -1_000_000), 0)];
            && Mean(RangeSum(Replay(hs), 0, 1)) == 18_446_744_073_709_551_615
            && TotalMilliseconds(hs, 0, 0) == -1 && Count(hs, 0, 0) == 1
  {
    var hs := [Insertion(Result(true, 0, -1_000_000), 0)];
    assert hs[..0] == [];
    assert Replay(hs) == map[0 := Bucket(1, 1, TWO64 - 1)];
    assert RangeSum(Replay(hs), 0, 0) == NOTHING;
  }

  /**
   A true average can be below every hourly average, of which one is enormous: -1 ms and, an hour later, 1 ms have the
   average 0, and the hourly averages 2^64 - 1 and 1.
   */
  lemma TrueAverageBelowHourlyAverages()
    ensures var hs := [Insertion(Result(true, 0, -1_000_000), 0),
                       Insertion(Result(true, 3_600_000_000_000, 1_000_000), 3_600_000_000_000)];
            var index := Replay(hs);
            && Mean(RangeSum(index, 0, 2)) == 0
            && HourlyMeans(index, 0, 2) == map[0 := 18_446_744_073_709_551_615, 3600 := 1]
  {
    var hs := [Insertion(Result(true, 0, -1_000_000), 0),
               Insertion(Result(true, 3_600_000_000_000, 1_000_000), 3_600_000_000_000)];
    assert hs[..1] == [hs[0]] && hs[..1][..0] == [];
    assert Replay(hs[..1]) == map[0 := Bucket(1, 1, TWO64 - 1)];
    assert Replay(hs) == map[0 := Bucket(1, 1, TWO64 - 1), 3600 := Bucket(1, 1, 1)];
    var index := Replay(hs);
    assert RangeSum(index, 0, 1) == Bucket(1, 1, TWO64 - 1);
    assert RangeSum(index, 0, 2) == Bucket(2, 2, 0);
    assert HourlyMeans(index, 0, 1) == map[0 := TWO64 - 1];
  }
}
