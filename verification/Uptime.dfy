/**
 The hourly statistics of an endpoint (`storage/store/memory/uptime.go`) and the queries over them
 (`storage/store/memory/memory.go`), as functions of everything ever inserted.

 Instants and durations are nanoseconds, hours are Unix seconds rounded down to the hour.
 */
module Uptime {
  import opened Wrappers

  const SECOND := 1_000_000_000
  const HOUR := 3600 * SECOND
  const MILLISECOND := 1_000_000
  const CLEAN_UP_THRESHOLD := 32 * 24
  const RETENTION := 30 * 24 * HOUR
  const TWO64 := 0x1_0000_0000_0000_0000

  datatype Result = Result(success: bool, timestamp: int, duration: int)

  /** The counters of one hour. Response times are kept in a uint64, in which a negative duration wraps around. */
  datatype Bucket = Bucket(total: nat, successful: nat, responseTime: nat)

  type Index = map<int, Bucket>

  /** Timestamp.Truncate(time.Hour).Unix(): rounds down, also before 1970. */
  function HourOf(t: int): int {
    t / HOUR * 3600
  }

  /** Duration.Milliseconds(): truncates toward zero. */
  function Milliseconds(d: int): int {
    if d >= 0 then d / MILLISECOND else -((-d) / MILLISECOND)
  }

  /** An hour is the number of seconds at which it began, and holds 3600 * 10^9 nanoseconds. */
  lemma HourOfIff(t: int, h: int)
    ensures HourOf(t) == h <==> h % 3600 == 0 && h * 1_000_000_000 <= t < (h + 3600) * 1_000_000_000
  {
    assert t == t / HOUR * HOUR + t % HOUR;
    if h % 3600 == 0 && h * 1_000_000_000 <= t < (h + 3600) * 1_000_000_000 {
      assert h / 3600 * HOUR <= t < (h / 3600 + 1) * HOUR;
    }
  }

  /** A millisecond is 10^6 nanoseconds; what does not fill one is dropped, on either side of zero. */
  lemma MillisecondsIff(d: int, n: int)
    requires n >= 0
    ensures d >= 0 ==> (Milliseconds(d) == n <==> n * 1_000_000 <= d < (n + 1) * 1_000_000)
    ensures d < 0 ==> (Milliseconds(d) == -n <==> -(n + 1) * 1_000_000 < d <= -n * 1_000_000)
  {
    var a: nat := if d >= 0 then d else -d;
    assert a == a / 1_000_000 * 1_000_000 + a % 1_000_000;
  }

  function ToUint64(n: int): nat {
    n % TWO64
  }

  const NOTHING := Bucket(0, 0, 0)

  function At(index: Index, h: int): Bucket {
    if h in index then index[h] else NOTHING
  }

  function Counted(b: Bucket, r: Result): Bucket {
    Bucket(b.total + 1, b.successful + (if r.success then 1 else 0),
           (b.responseTime + ToUint64(Milliseconds(r.duration))) % TWO64)
  }

  function WithResult(index: Index, r: Result): Index {
    index[HourOf(r.timestamp) := Counted(At(index, HourOf(r.timestamp)), r)]
  }

  /** time.Now().Add(-(uptimeRetention + time.Hour)).Unix() */
  function CutOff(now: int): int {
    (now - (RETENTION + HOUR)) / SECOND
  }

  function CleanedUp(index: Index, cutOff: int): Index {
    map h | h in index && h >= cutOff :: index[h]
  }

  function TooMany(index: Index): bool {
    |index| > CLEAN_UP_THRESHOLD
  }

  function Process(index: Index, r: Result, now: int): Index {
    var more := WithResult(index, r);
    if TooMany(more) then CleanedUp(more, CutOff(now)) else more
  }

  // ---------- history ----------

  /** A result, and the clock when it was inserted. */
  datatype Insertion = Insertion(result: Result, now: int)

  function Replay(hs: seq<Insertion>): Index {
    if hs == [] then map[] else Process(Replay(hs[..|hs| - 1]), hs[|hs| - 1].result, hs[|hs| - 1].now)
  }

  /** The last insertion of the history triggered a clean-up. */
  predicate CleansUp(hs: seq<Insertion>)
    requires hs != []
  {
    TooMany(WithResult(Replay(hs[..|hs| - 1]), hs[|hs| - 1].result))
  }

  /** Some clean-up had a cut-off after this hour. */
  predicate Cleaned(hs: seq<Insertion>, h: int) {
    hs != [] && (Cleaned(hs[..|hs| - 1], h) || (CleansUp(hs) && CutOff(hs[|hs| - 1].now) > h))
  }

  /** The cut-off of the latest clean-up. */
  function LatestCutOff(hs: seq<Insertion>): Option<int> {
    if hs == [] then None
    else if CleansUp(hs) then Some(CutOff(hs[|hs| - 1].now))
    else LatestCutOff(hs[..|hs| - 1])
  }

  // What all insertions of an hour range add up to.

  predicate Within(i: Insertion, lo: int, hi: int) {
    lo <= HourOf(i.result.timestamp) <= hi
  }

  function Count(hs: seq<Insertion>, lo: int, hi: int): nat {
    if hs == [] then 0 else Count(hs[..|hs| - 1], lo, hi) + if Within(hs[|hs| - 1], lo, hi) then 1 else 0
  }

  function Successes(hs: seq<Insertion>, lo: int, hi: int): nat {
    if hs == [] then 0
    else
      Successes(hs[..|hs| - 1], lo, hi)
      + if Within(hs[|hs| - 1], lo, hi) && hs[|hs| - 1].result.success then 1 else 0
  }

  function TotalMilliseconds(hs: seq<Insertion>, lo: int, hi: int): int {
    if hs == [] then 0
    else
      TotalMilliseconds(hs[..|hs| - 1], lo, hi)
      + if Within(hs[|hs| - 1], lo, hi) then Milliseconds(hs[|hs| - 1].result.duration) else 0
  }

  /** The statistics of all insertions of an hour range. */
  function Totals(hs: seq<Insertion>, lo: int, hi: int): Bucket {
    Bucket(Count(hs, lo, hi), Successes(hs, lo, hi), ToUint64(TotalMilliseconds(hs, lo, hi)))
  }

  lemma WrappingSum(a: int, b: int)
    ensures (ToUint64(a) + ToUint64(b)) % TWO64 == ToUint64(a + b)
  {
    var qa, qb := a / TWO64, b / TWO64;
    var s := ToUint64(a) + ToUint64(b);
    assert a + b == (qa + qb) * TWO64 + s;
    if s < TWO64 {
      assert (a + b) / TWO64 == qa + qb;
    } else {
      assert a + b == (qa + qb + 1) * TWO64 + (s - TWO64);
      assert (a + b) / TWO64 == qa + qb + 1;
    }
  }

  /**
   The index agrees with the whole history: every hour that no clean-up has cut off holds exactly what all results
   ever inserted in that hour add up to, and is absent exactly when there are none.
   */
  lemma {:induction false} IndexAgreesWithHistory(hs: seq<Insertion>, h: int)
    requires !Cleaned(hs, h)
    ensures At(Replay(hs), h) == Totals(hs, h, h)
    ensures h in Replay(hs) <==> Count(hs, h, h) > 0
    decreases |hs|
  {
    if hs != [] {
      var front, r := hs[..|hs| - 1], hs[|hs| - 1].result;
      IndexAgreesWithHistory(front, h);
      if HourOf(r.timestamp) == h {
        WrappingSum(TotalMilliseconds(front, h, h), Milliseconds(r.duration));
      }
    }
  }

  /** The hour began at least a second more than 30 days and an hour before the clock, in nanoseconds. */
  ghost predicate Expired(h: int, now: int) {
    (h + 1) * 1_000_000_000 <= now - (30 * 24 + 1) * 3600 * 1_000_000_000
  }

  /** Insertion n finds more than 768 hours, counting its own, when this hour has expired. */
  ghost predicate CutOffAt(hs: seq<Insertion>, n: nat, h: int)
    requires n < |hs|
  {
    |Replay(hs[..n]).Keys + {HourOf(hs[n].result.timestamp)}| > 768 && Expired(h, hs[n].now)
  }

  /** Exactly which hours are ever cut off. */
  lemma {:induction false} CleanedIff(hs: seq<Insertion>, h: int)
    ensures Cleaned(hs, h) <==> exists n: nat :: n < |hs| && CutOffAt(hs, n, h)
    decreases |hs|
  {
    if hs != [] {
      var front := hs[..|hs| - 1];
      CleanedIff(front, h);
      CutOffAtLastIff(hs, h);
      forall n: nat | n < |front| ensures CutOffAt(front, n, h) <==> CutOffAt(hs, n, h) {
        CutOffInPrefix(hs, n, h);
      }
    }
  }

  lemma CutOffInPrefix(hs: seq<Insertion>, n: nat, h: int)
    requires n < |hs| - 1
    ensures CutOffAt(hs[..|hs| - 1], n, h) <==> CutOffAt(hs, n, h)
  {
    assert hs[..|hs| - 1][..n] == hs[..n];
  }

  /** Right after the insertion that cuts an hour off, it is gone. */
  lemma CutOffIsGone(hs: seq<Insertion>, h: int)
    requires hs != [] && CutOffAt(hs, |hs| - 1, h)
    ensures h !in Replay(hs)
  {
    CutOffAtLastIff(hs, h);
  }

  lemma CutOffAtLastIff(hs: seq<Insertion>, h: int)
    requires hs != []
    ensures CutOffAt(hs, |hs| - 1, h) <==> CleansUp(hs) && CutOff(hs[|hs| - 1].now) > h
  {
    var front, last := hs[..|hs| - 1], hs[|hs| - 1];
    var more := WithResult(Replay(front), last.result);
    assert more.Keys == Replay(front).Keys + {HourOf(last.result.timestamp)};
    assert |more| == |more.Keys|;
    ExpiredIff(h, last.now);
  }

  lemma ExpiredIff(h: int, now: int)
    ensures Expired(h, now) <==> CutOff(now) > h
  {
    var x := now - (30 * 24 + 1) * 3600 * 1_000_000_000;
    assert RETENTION + HOUR == (30 * 24 + 1) * 3600 * 1_000_000_000;
    assert x == x / 1_000_000_000 * 1_000_000_000 + x % 1_000_000_000;
  }

  // ---------- the clock ----------

  /** The clock never goes back, and no result is stamped later than the clock. */
  ghost predicate Clocked(hs: seq<Insertion>) {
    && (forall i | 0 <= i < |hs| :: hs[i].result.timestamp <= hs[i].now)
    && (forall i, j | 0 <= i <= j < |hs| :: hs[i].now <= hs[j].now)
  }

  /** With a clock that never goes back, the hours cut off are those before the latest cut-off. */
  lemma {:induction false} CleanedBeforeLatestCutOff(hs: seq<Insertion>, h: int)
    requires forall i, j | 0 <= i <= j < |hs| :: hs[i].now <= hs[j].now
    ensures Cleaned(hs, h) <==> LatestCutOff(hs).Some? && LatestCutOff(hs).value > h
    ensures LatestCutOff(hs).Some? ==> hs != [] && LatestCutOff(hs).value <= CutOff(hs[|hs| - 1].now)
    decreases |hs|
  {
    if hs != [] {
      CleanedBeforeLatestCutOff(hs[..|hs| - 1], h);
    }
  }

  // ---------- the size of the index ----------

  lemma {:induction false} HoursAreNotInTheFuture(hs: seq<Insertion>, h: int)
    requires Clocked(hs) && h in Replay(hs)
    ensures h <= HourOf(hs[|hs| - 1].now) && h % 3600 == 0
    decreases |hs|
  {
    var front, last := hs[..|hs| - 1], hs[|hs| - 1];
    HoursAreOrdered(last.result.timestamp, last.now);
    if h in Replay(front) {
      HoursAreNotInTheFuture(front, h);
      HoursAreOrdered(front[|front| - 1].now, last.now);
    }
  }

  lemma HoursAreOrdered(t: int, u: int)
    requires t <= u
    ensures HourOf(t) <= HourOf(u) && HourOf(t) % 3600 == 0
  {
    assert t / HOUR <= u / HOUR;
  }

  /** No more than n hours fit between two hours n - 1 apart. */
  lemma {:induction false} Pigeonhole(hours: set<int>, lo: int, n: nat)
    requires forall h | h in hours :: h % 3600 == 0 && lo <= h < lo + n * 3600
    ensures |hours| <= n
    decreases n
  {
    if n == 0 {
      assert forall h :: h !in hours;
      assert hours == {};
    } else {
      var last := (lo + n * 3600 - 1) / 3600 * 3600;
      forall h | h in hours - {last} ensures lo <= h < lo + (n - 1) * 3600 {
        OnlyOneHour(h, last, lo + (n - 1) * 3600);
      }
      Pigeonhole(hours - {last}, lo, n - 1);
      assert hours <= (hours - {last}) + {last};
    }
  }

  lemma OnlyOneHour(h: int, last: int, lo: int)
    requires h % 3600 == 0 && last == (lo + 3600 - 1) / 3600 * 3600 && h != last && h < lo + 3600
    ensures h < lo
  {
    assert last % 3600 == 0 && lo <= last < lo + 3600;
  }

  /** Right after a clean-up at most 722 hours remain; 769 are never reached. */
  lemma {:induction false} IndexStaysSmall(hs: seq<Insertion>)
    requires Clocked(hs)
    ensures |Replay(hs)| <= 768
    ensures hs != [] && CleansUp(hs) ==> |Replay(hs)| <= 722
    decreases |hs|
  {
    if hs != [] && CleansUp(hs) {
      var hours, now := Replay(hs).Keys, hs[|hs| - 1].now;
      forall h | h in hours ensures h % 3600 == 0 && CutOff(now) <= h < CutOff(now) + 722 * 3600 {
        HoursAreNotInTheFuture(hs, h);
        CutOffDistance(now);
      }
      Pigeonhole(hours, CutOff(now), 722);
      assert |hours| == |Replay(hs)|;
    }
  }

  lemma CutOffDistance(now: int)
    ensures HourOf(now) <= CutOff(now) + 721 * 3600
  {
    assert now - (RETENTION + HOUR) == now - 721 * 3600 * SECOND;
    assert CutOff(now) == now / SECOND - 721 * 3600;
    assert now / HOUR * 3600 <= now / SECOND by {
      assert now / HOUR * HOUR <= now;
      assert (now / HOUR * 3600) * SECOND <= now;
    }
  }

  // ---------- what is kept ----------

  /** The hours in which results were inserted. */
  function Hours(hs: seq<Insertion>): set<int> {
    set i | 0 <= i < |hs| :: HourOf(hs[i].result.timestamp)
  }

  lemma {:induction false} IndexedHours(hs: seq<Insertion>)
    ensures Replay(hs).Keys <= Hours(hs)
    decreases |hs|
  {
    if hs != [] {
      var front, last := hs[..|hs| - 1], hs[|hs| - 1];
      IndexedHours(front);
      assert forall i | 0 <= i < |front| :: HourOf(front[i].result.timestamp) == HourOf(hs[i].result.timestamp);
      assert Hours(front) <= Hours(hs) && HourOf(last.result.timestamp) in Hours(hs);
    }
  }

  lemma MoreHours(a: set<int>, b: set<int>)
    requires a <= b
    ensures |a| <= |b|
  {
    assert b == a + (b - a);
  }

  lemma FrontHours(hs: seq<Insertion>)
    requires hs != []
    ensures Hours(hs[..|hs| - 1]) <= Hours(hs) && HourOf(hs[|hs| - 1].result.timestamp) in Hours(hs)
  {
    var front := hs[..|hs| - 1];
    assert forall i | 0 <= i < |front| :: HourOf(front[i].result.timestamp) == HourOf(hs[i].result.timestamp);
  }

  /** As long as there were results in no more than 768 hours, 32 days, nothing is ever cut off. */
  lemma {:induction false} FewHoursAreKept(hs: seq<Insertion>, h: int)
    requires |Hours(hs)| <= 768
    ensures !Cleaned(hs, h)
    decreases |hs|
  {
    if hs != [] {
      var front, last := hs[..|hs| - 1], hs[|hs| - 1];
      FrontHours(hs);
      MoreHours(Hours(front), Hours(hs));
      FewHoursAreKept(front, h);
      IndexedHours(front);
      var more := WithResult(Replay(front), last.result);
      MoreHours(more.Keys, Hours(hs));
      assert |more| == |more.Keys|;
    }
  }

  /** Whatever is cut off, the last 30 days never are: 30 * 24 hours of 3600 * 10^9 nanoseconds before the clock. */
  lemma ThirtyDaysAreKept(hs: seq<Insertion>, h: int)
    requires hs != [] && forall i, j | 0 <= i <= j < |hs| :: hs[i].now <= hs[j].now
    requires h >= HourOf(hs[|hs| - 1].now - 30 * 24 * 3600 * 1_000_000_000)
    ensures !Cleaned(hs, h)
  {
    var now := hs[|hs| - 1].now;
    CleanedBeforeLatestCutOff(hs, h);
    CutOffBeforeThirtyDays(now);
  }

  lemma CutOffBeforeThirtyDays(now: int)
    ensures CutOff(now) <= HourOf(now - 30 * 24 * 3600 * 1_000_000_000)
  {
    var t := now - 30 * 24 * 3600 * 1_000_000_000;
    HourOfIff(t, HourOf(t));
    assert CutOff(now) == (t - 3600 * 1_000_000_000) / 1_000_000_000;
    assert (t - 3600 * 1_000_000_000) / 1_000_000_000 == t / 1_000_000_000 - 3600;
    assert t / 1_000_000_000 < HourOf(t) + 3600;
  }
}
