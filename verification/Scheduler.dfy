/**
 The RSS polling loop: schedules, the due test, the wait, and the loop over a map of
 last-poll times.  Times and durations are nanoseconds.

 A wake is one iteration.  `delays(k)` is everything between the end of the wait of wake
 `k` and the clock reading of wake `k + 1`, plus the time the polls of wake `k` took: the
 wait is computed from the clock reading taken before the polls.
 */
module Scheduler {
  import opened Wrappers
  import Text

  const SECOND := 1_000_000_000

  // ------------------------------------------------------------------
  // Schedules
  // ------------------------------------------------------------------

  datatype Feed = Feed(tenant: string, interval: string)

  datatype Schedule = Schedule(feed: nat, interval: int)

  /** The feed's own interval when it parses and is positive; the default, passed on as it
      is, without one. */
  function PollInterval(f: Feed, fallback: int, parse: string -> Option<int>): (d: int)
    ensures f.interval != "" && parse(f.interval).Some? && parse(f.interval).value > 0 ==> parse(f.interval) == Some(d)
    ensures f.interval == "" || parse(f.interval) == None || parse(f.interval).value <= 0 ==> d == fallback
  {
    if f.interval == "" then fallback
    else if parse(f.interval).Some? && parse(f.interval).value > 0 then parse(f.interval).value
    else fallback
  }

  ghost predicate Scheduled(feeds: seq<Feed>, fallback: int, parse: string -> Option<int>, s: Schedule) {
    && s.feed < |feeds|
    && !Text.AllSpace(feeds[s.feed].tenant)
    && s.interval == PollInterval(feeds[s.feed], fallback, parse)
  }

  ghost predicate Ascending(ss: seq<Schedule>) {
    forall i, j | 0 <= i < j < |ss| :: ss[i].feed < ss[j].feed
  }

  /** Every feed with a tenant, in order, each once. */
  method BuildRSSSchedules(feeds: seq<Feed>, fallback: int, parse: string -> Option<int>) returns (out: seq<Schedule>)
    ensures forall s :: s in out <==> Scheduled(feeds, fallback, parse, s)
    ensures Ascending(out)
    ensures fallback > 0 ==> forall s | s in out :: s.interval > 0
  {
    out := [];
    for i := 0 to |feeds|
      invariant forall s :: s in out <==> Scheduled(feeds, fallback, parse, s) && s.feed < i
      invariant Ascending(out)
    {
      ghost var front, behind := Text.TrimSpaceMeans(feeds[i].tenant);
      if Text.TrimSpace(feeds[i].tenant) == "" {
        continue;
      }
      out := out + [Schedule(i, PollInterval(feeds[i], fallback, parse))];
    }
  }

  // ------------------------------------------------------------------
  // Due feeds and the wait
  // ------------------------------------------------------------------

  type Polled = map<nat, int>

  predicate IsDue(s: Schedule, last: Polled, now: int) {
    s.feed !in last || now - last[s.feed] >= s.interval
  }

  /** The due feeds, in the order of their schedules. */
  function DueOf(ss: seq<Schedule>, last: Polled, now: int): seq<nat> {
    if ss == [] then []
    else
      var s := ss[|ss| - 1];
      DueOf(ss[..|ss| - 1], last, now) + if IsDue(s, last, now) then [s.feed] else []
  }

  method DueRSSFeedIndexes(ss: seq<Schedule>, last: Polled, now: int) returns (due: seq<nat>)
    ensures due == DueOf(ss, last, now)
    ensures forall f :: f in due <==> Polls(ss, Wake(now, last), f)
    ensures Ascending(ss) ==> forall i, j | 0 <= i < j < |due| :: due[i] < due[j]
  {
    due := [];
    for i := 0 to |ss|
      invariant due == DueOf(ss[..i], last, now)
      invariant forall f :: f in due <==> exists j | 0 <= j < i :: ss[j].feed == f && IsDue(ss[j], last, now)
      invariant Ascending(ss) ==> forall a, j | 0 <= a < |due| && i <= j < |ss| :: due[a] < ss[j].feed
      invariant Ascending(ss) ==> forall a, b | 0 <= a < b < |due| :: due[a] < due[b]
    {
      assert ss[..i + 1][..i] == ss[..i];
      if IsDue(ss[i], last, now) {
        due := due + [ss[i].feed];
      }
    }
    assert ss[..|ss|] == ss;
  }

  function Left(s: Schedule, last: Polled, now: int): int
    requires s.feed in last
  {
    if s.interval - (now - last[s.feed]) > 0 then s.interval - (now - last[s.feed]) else 0
  }

  /** `w` is what `nextRSSPollWait` may answer. */
  ghost predicate IsWait(ss: seq<Schedule>, last: Polled, now: int, w: int) {
    if ss == [] then w == 1_000_000_000
    else if exists s | s in ss :: s.feed !in last then w == 0
    else (forall s | s in ss :: w <= Left(s, last, now)) && (exists s | s in ss :: w == Left(s, last, now))
  }

  method NextRSSPollWait(ss: seq<Schedule>, last: Polled, now: int) returns (w: int)
    ensures IsWait(ss, last, now, w) && w >= 0
  {
    if ss == [] {
      return SECOND;
    }
    w := -1;
    for i := 0 to |ss|
      invariant forall j | 0 <= j < i :: ss[j].feed in last
      invariant i == 0 ==> w == -1
      invariant i > 0 ==> w >= 0
      invariant forall j | 0 <= j < i :: w <= Left(ss[j], last, now)
      invariant i > 0 ==> exists j | 0 <= j < i :: w == Left(ss[j], last, now)
    {
      if ss[i].feed !in last {
        return 0;
      }
      var wait := Left(ss[i], last, now);
      if w < 0 || wait < w {
        w := wait;
      }
    }
  }

  // ------------------------------------------------------------------
  // The loop
  // ------------------------------------------------------------------

  /** One iteration: the clock reading and the map it finds. */
  datatype Wake = Wake(now: int, last: Polled)

  ghost predicate Polls(ss: seq<Schedule>, w: Wake, f: nat) {
    exists s | s in ss :: s.feed == f && IsDue(s, w.last, w.now)
  }

  /** The map after the polls of a wake: what is due gets the clock reading. */
  ghost predicate Marks(ss: seq<Schedule>, w: Wake, last: Polled) {
    && (forall f :: f in last <==> f in w.last || Polls(ss, w, f))
    && (forall f | f in last :: last[f] == if Polls(ss, w, f) then w.now else w.last[f])
  }

  ghost predicate Follows(ss: seq<Schedule>, w: Wake, delay: nat, next: Wake) {
    && Marks(ss, w, next.last)
    && exists wait :: IsWait(ss, next.last, w.now, wait) && next.now == w.now + (if wait <= 0 then 1_000_000_000 else wait) + delay
  }

  /** A run of the loop that starts at `t0`. */
  ghost predicate IsRun(ss: seq<Schedule>, t0: int, delays: seq<nat>, run: seq<Wake>) {
    && |run| == |delays| + 1
    && run[0] == Wake(t0, map[])
    && forall k | 0 <= k < |delays| :: Follows(ss, run[k], delays[k], run[k + 1])
  }

  method MarkPolled(last: Polled, due: seq<nat>, now: int) returns (r: Polled)
    ensures forall f :: f in r <==> f in last || f in due
    ensures forall f | f in r :: r[f] == if f in due then now else last[f]
  {
    r := last;
    for i := 0 to |due|
      invariant forall f :: f in r <==> f in last || f in due[..i]
      invariant forall f | f in r :: r[f] == if f in due[..i] then now else last[f]
    {
      r := r[due[i] := now];
      assert due[..i + 1] == due[..i] + [due[i]];
    }
    assert due[..|due|] == due;
  }

  /** The polls of a wake, if there are any, succeed. */
  predicate PollsSucceed(ss: seq<Schedule>, w: Wake, k: nat, ok: (nat, seq<nat>) -> bool) {
    DueOf(ss, w.last, w.now) == [] || ok(k, DueOf(ss, w.last, w.now))
  }

  /** The loop until the context ends, after `|delays|` waits, or a wake's polls fail.  `ok(k,
      due)` is the outcome of polling `due` at wake `k`: the run goes on past a wake exactly
      when its polls succeed, and the failing wake marks nothing. */
  method PollLoop(ss: seq<Schedule>, t0: int, delays: seq<nat>, ok: (nat, seq<nat>) -> bool) returns (run: seq<Wake>, failed: bool)
    ensures 0 < |run| <= |delays| + 1 && IsRun(ss, t0, delays[..|run| - 1], run)
    ensures forall k | 0 <= k < |run| - 1 :: PollsSucceed(ss, run[k], k, ok)
    ensures failed ==> !PollsSucceed(ss, run[|run| - 1], |run| - 1, ok)
    ensures !failed ==> |run| == |delays| + 1
    ensures failed ==> |run| <= |delays|
  {
    var last: Polled := map[];
    var now := t0;
    run := [Wake(now, last)];
    for k := 0 to |delays|
      invariant |run| == k + 1 && run[k] == Wake(now, last)
      invariant IsRun(ss, t0, delays[..k], run)
      invariant forall j | 0 <= j < k :: PollsSucceed(ss, run[j], j, ok)
    {
      last, failed := PollDue(ss, last, now, k, ok);
      if failed {
        return;
      }
      var wait := NextRSSPollWait(ss, last, now);
      NextFollows(ss, run[k], last, wait, delays[k]);
      if wait <= 0 {
        wait := SECOND;
      }
      now := now + wait + delays[k];
      RunGrows(ss, t0, delays, run, Wake(now, last));
      run := run + [Wake(now, last)];
    }
    failed := false;
    assert delays[..|delays|] == delays;
  }

  /** The polls of one wake. */
  method PollDue(ss: seq<Schedule>, last: Polled, now: int, k: nat, ok: (nat, seq<nat>) -> bool) returns (marked: Polled, failed: bool)
    ensures failed <==> !PollsSucceed(ss, Wake(now, last), k, ok)
    ensures !failed ==> Marks(ss, Wake(now, last), marked)
    ensures failed ==> marked == last
  {
    var due := DueRSSFeedIndexes(ss, last, now);
    marked, failed := last, false;
    if |due| > 0 {
      if !ok(k, due) {
        return last, true;
      }
      marked := MarkPolled(last, due, now);
    }
  }

  lemma RunGrows(ss: seq<Schedule>, t0: int, delays: seq<nat>, run: seq<Wake>, next: Wake)
    requires 0 < |run| <= |delays| && IsRun(ss, t0, delays[..|run| - 1], run)
    requires Follows(ss, run[|run| - 1], delays[|run| - 1], next)
    ensures IsRun(ss, t0, delays[..|run|], run + [next])
  {
  }

  lemma NextFollows(ss: seq<Schedule>, w: Wake, last: Polled, wait: int, delay: nat)
    requires Marks(ss, w, last) && IsWait(ss, last, w.now, wait)
    ensures Follows(ss, w, delay, Wake(w.now + (if wait <= 0 then SECOND else wait) + delay, last))
  {
  }

  // ------------------------------------------------------------------
  // Every run
  // ------------------------------------------------------------------

  ghost predicate Positive(ss: seq<Schedule>) {
    forall s | s in ss :: s.interval > 0
  }

  lemma PollsScheduled(ss: seq<Schedule>, s: Schedule, w: Wake)
    requires Ascending(ss) && s in ss
    ensures Polls(ss, w, s.feed) <==> IsDue(s, w.last, w.now)
  {
    if r :| r in ss && r.feed == s.feed && IsDue(r, w.last, w.now) {
      var i :| 0 <= i < |ss| && ss[i] == r;
      var j :| 0 <= j < |ss| && ss[j] == s;
      assert i == j;
    }
  }

  /** What a wake leaves of one schedule: it was polled now or is not due yet. */
  lemma Marked(ss: seq<Schedule>, s: Schedule, w: Wake, last: Polled)
    requires Ascending(ss) && s in ss && Marks(ss, w, last)
    ensures s.feed in last
    ensures last[s.feed] == if IsDue(s, w.last, w.now) then w.now else w.last[s.feed]
    ensures s.interval > 0 ==> w.now < last[s.feed] + s.interval
  {
    PollsScheduled(ss, s, w);
  }

  /** With positive intervals the next wake comes `delay` after the earliest deadline. */
  lemma NextWake(ss: seq<Schedule>, w: Wake, delay: nat, next: Wake)
    requires Ascending(ss) && ss != [] && Follows(ss, w, delay, next) && Positive(ss)
    ensures forall s | s in ss :: s.feed in next.last && w.now < next.last[s.feed] + s.interval && next.now <= next.last[s.feed] + s.interval + delay
    ensures exists s | s in ss :: s.feed in next.last && next.now == next.last[s.feed] + s.interval + delay
  {
    forall s | s in ss ensures s.feed in next.last && w.now < next.last[s.feed] + s.interval {
      Marked(ss, s, w, next.last);
    }
    var wait :| IsWait(ss, next.last, w.now, wait) && next.now == w.now + (if wait <= 0 then SECOND else wait) + delay;
    EarliestDeadline(ss, next.last, w.now, wait);
  }

  lemma EarliestDeadline(ss: seq<Schedule>, last: Polled, now: int, wait: int)
    requires ss != [] && IsWait(ss, last, now, wait)
    requires forall s | s in ss :: s.feed in last && now < last[s.feed] + s.interval
    ensures wait > 0
    ensures forall s | s in ss :: now + wait <= last[s.feed] + s.interval
    ensures exists s | s in ss :: now + wait == last[s.feed] + s.interval
  {
    assert ss[0] in ss;
    var s :| s in ss && wait == Left(s, last, now);
    assert now + wait == last[s.feed] + s.interval;
  }

  /** One interval that is not positive makes the loop tick by the second. */
  lemma NextTick(ss: seq<Schedule>, w: Wake, delay: nat, next: Wake)
    requires Ascending(ss) && Follows(ss, w, delay, next) && !Positive(ss)
    requires forall f | f in w.last :: w.last[f] <= w.now
    ensures next.now == w.now + SECOND + delay
  {
    var wait :| IsWait(ss, next.last, w.now, wait) && next.now == w.now + (if wait <= 0 then SECOND else wait) + delay;
    var s :| s in ss && s.interval <= 0;
    Marked(ss, s, w, next.last);
    PollsScheduled(ss, s, w);
    forall r | r in ss ensures r.feed in next.last { Marked(ss, r, w, next.last); }
    assert wait <= Left(s, next.last, w.now);
  }

  lemma {:induction false} WakesIncrease(ss: seq<Schedule>, t0: int, delays: seq<nat>, run: seq<Wake>, i: nat, j: nat)
    requires IsRun(ss, t0, delays, run) && i < j < |run|
    ensures run[i].now < run[j].now
  {
    assert Follows(ss, run[j - 1], delays[j - 1], run[j]);
    if i < j - 1 {
      WakesIncrease(ss, t0, delays, run, i, j - 1);
    }
  }

  lemma {:induction false} LastIsPast(ss: seq<Schedule>, t0: int, delays: seq<nat>, run: seq<Wake>, k: nat)
    requires IsRun(ss, t0, delays, run) && k < |run|
    ensures forall f | f in run[k].last :: t0 <= run[k].last[f] < run[k].now
    ensures k == 0 || run[k].now > t0
  {
    if k > 0 {
      LastIsPast(ss, t0, delays, run, k - 1);
      WakesIncrease(ss, t0, delays, run, k - 1, k);
      assert Follows(ss, run[k - 1], delays[k - 1], run[k]);
    }
  }

  /** Polled at wake `i` and at no wake between `i` and `k`: the map still holds the time of `i`. */
  lemma {:induction false} LastPoll(ss: seq<Schedule>, t0: int, delays: seq<nat>, run: seq<Wake>, f: nat, i: nat, k: nat)
    requires IsRun(ss, t0, delays, run) && i < k < |run| && Polls(ss, run[i], f)
    requires forall m | i < m < k :: !Polls(ss, run[m], f)
    ensures f in run[k].last && run[k].last[f] == run[i].now
  {
    assert Follows(ss, run[k - 1], delays[k - 1], run[k]);
    if i < k - 1 {
      LastPoll(ss, t0, delays, run, f, i, k - 1);
    }
  }

  /** However late the wakes: two polls of a feed with none between are at least its
      interval apart, and the second is later than its deadline by at most the delay of
      the one wait before it.  Earlier delays do not add up. */
  lemma Lateness(ss: seq<Schedule>, t0: int, delays: seq<nat>, run: seq<Wake>, s: Schedule, i: nat, j: nat)
    requires IsRun(ss, t0, delays, run) && Ascending(ss) && s in ss && i < j < |run|
    requires Polls(ss, run[i], s.feed) && Polls(ss, run[j], s.feed) && forall m | i < m < j :: !Polls(ss, run[m], s.feed)
    ensures run[j].now - run[i].now >= s.interval
    ensures Positive(ss) ==> run[j].now - run[i].now <= s.interval + delays[j - 1]
  {
    LastPoll(ss, t0, delays, run, s.feed, i, j);
    PollsScheduled(ss, s, run[j]);
    if Positive(ss) {
      NextWake(ss, run[j - 1], delays[j - 1], run[j]);
    }
  }

  /** A feed is polled at the first wake, and a wake more than its deadline later polls it:
      no poll is skipped. */
  lemma NoPollSkipped(ss: seq<Schedule>, t0: int, delays: seq<nat>, run: seq<Wake>, s: Schedule, i: nat, j: nat)
    requires IsRun(ss, t0, delays, run) && Ascending(ss) && s in ss && i < j < |run|
    requires Polls(ss, run[i], s.feed) && run[j].now >= run[i].now + s.interval
    ensures Polls(ss, run[0], s.feed)
    ensures exists m | i < m <= j :: Polls(ss, run[m], s.feed)
  {
    PollsScheduled(ss, s, run[0]);
    PollsScheduled(ss, s, run[j]);
    if forall m | i < m < j :: !Polls(ss, run[m], s.feed) {
      LastPoll(ss, t0, delays, run, s.feed, i, j);
    }
  }

  // ------------------------------------------------------------------
  // The ideal clock
  // ------------------------------------------------------------------

  ghost predicate Ideal(delays: seq<nat>) {
    forall k | 0 <= k < |delays| :: delays[k] == 0
  }

  ghost predicate OnGrid(t0: int, interval: int, t: int)
    requires interval > 0
  {
    t >= t0 && (t - t0) % interval == 0
  }

  lemma NextOnGrid(t0: int, interval: int, last: int, t: int)
    requires interval > 0 && OnGrid(t0, interval, last) && last < t <= last + interval
    ensures OnGrid(t0, interval, t) <==> t == last + interval
  {
    var q := (last - t0) / interval;
    assert last - t0 == q * interval;
    if t == last + interval {
      assert t - t0 == (q + 1) * interval;
      Multiple(q + 1, interval);
    } else {
      Between(q, interval, t - t0);
    }
  }

  lemma Multiple(q: int, n: int)
    requires n > 0
    ensures (q * n) % n == 0
  {
    var r := (q * n) % n;
    var d := (q * n) / n;
    assert q * n == d * n + r;
    assert (q - d) * n == r;
    Between0(q - d, n);
  }

  lemma Between0(k: int, n: int)
    requires n > 0 && 0 <= k * n < n
    ensures k == 0
  {
    assert k >= 1 ==> k * n >= n;
    assert k <= -1 ==> k * n <= -n;
  }

  lemma Between(q: int, n: int, x: int)
    requires n > 0 && q * n < x < q * n + n
    ensures x % n != 0
  {
    var d := x / n;
    if x % n == 0 {
      assert x == d * n;
      assert 0 < (d - q) * n < n;
      Between0(d - q, n);
    }
  }

  /** What makes a feed's polls exact: every interval positive, or the feed's own a whole
      number of seconds. */
  ghost predicate Regular(ss: seq<Schedule>, s: Schedule) {
    s.interval > 0 && (Positive(ss) || s.interval % 1_000_000_000 == 0)
  }

  /** Found at a wake after the first: the last poll was on the grid, less than or exactly
      one interval ago. */
  ghost predicate OnTime(t0: int, s: Schedule, w: Wake)
    requires s.interval > 0
  {
    s.feed in w.last && OnGrid(t0, s.interval, w.last[s.feed]) && w.last[s.feed] < w.now <= w.last[s.feed] + s.interval
  }

  lemma TickAfter(ss: seq<Schedule>, t0: int, delays: seq<nat>, run: seq<Wake>, k: nat)
    requires IsRun(ss, t0, delays, run) && Ascending(ss) && !Positive(ss) && k < |delays|
    ensures run[k + 1].now == run[k].now + SECOND + delays[k]
  {
    LastIsPast(ss, t0, delays, run, k);
    NextTick(ss, run[k], delays[k], run[k + 1]);
  }

  lemma {:induction false} Ticks(ss: seq<Schedule>, t0: int, delays: seq<nat>, run: seq<Wake>, k: nat)
    requires IsRun(ss, t0, delays, run) && Ascending(ss) && Ideal(delays) && !Positive(ss) && k < |run|
    ensures run[k].now == t0 + k * SECOND
  {
    if k > 0 {
      Ticks(ss, t0, delays, run, k - 1);
      TickAfter(ss, t0, delays, run, k - 1);
    }
  }

  /** Polled exactly when the clock is on the feed's grid. */
  lemma DueOnGrid(t0: int, s: Schedule, w: Wake)
    requires s.interval > 0 && OnTime(t0, s, w)
    ensures IsDue(s, w.last, w.now) <==> OnGrid(t0, s.interval, w.now)
  {
    NextOnGrid(t0, s.interval, w.last[s.feed], w.now);
  }

  /** Whole seconds: below the next deadline there is room for one more tick. */
  lemma RoomForTick(t0: int, interval: int, last: int, k: nat)
    requires interval > 0 && interval % SECOND == 0 && OnGrid(t0, interval, last)
    requires t0 + k * SECOND < last + interval
    ensures t0 + (k + 1) * SECOND <= last + interval
  {
    var q, u := (last - t0) / interval, interval / SECOND;
    assert last - t0 == q * interval && interval == u * SECOND;
    assert (q + 1) * interval == (q + 1) * u * SECOND;
    assert k * SECOND < ((q + 1) * u) * SECOND;
    assert k < (q + 1) * u;
  }

  lemma {:induction false} StaysOnTime(ss: seq<Schedule>, t0: int, delays: seq<nat>, run: seq<Wake>, s: Schedule, k: nat)
    requires IsRun(ss, t0, delays, run) && Ascending(ss) && Ideal(delays) && s in ss && Regular(ss, s) && 0 < k < |run|
    ensures OnTime(t0, s, run[k])
  {
    var w, next := run[k - 1], run[k];
    assert Follows(ss, w, delays[k - 1], next);
    Marked(ss, s, w, next.last);
    WakesIncrease(ss, t0, delays, run, k - 1, k);
    if k == 1 {
      assert next.last[s.feed] == t0;
    } else {
      StaysOnTime(ss, t0, delays, run, s, k - 1);
      DueOnGrid(t0, s, w);
    }
    if Positive(ss) {
      NextWake(ss, w, delays[k - 1], next);
    } else {
      Ticks(ss, t0, delays, run, k - 1);
      Ticks(ss, t0, delays, run, k);
      RoomForTick(t0, s.interval, next.last[s.feed], k - 1);
    }
  }

  /** No extra poll and no drift: a wake polls the feed exactly when its clock is at
      `t0 + m * interval`. */
  lemma PolledIffOnGrid(ss: seq<Schedule>, t0: int, delays: seq<nat>, run: seq<Wake>, s: Schedule, k: nat)
    requires IsRun(ss, t0, delays, run) && Ascending(ss) && Ideal(delays) && s in ss && Regular(ss, s) && k < |run|
    ensures Polls(ss, run[k], s.feed) <==> OnGrid(t0, s.interval, run[k].now)
  {
    PollsScheduled(ss, s, run[k]);
    if k > 0 {
      StaysOnTime(ss, t0, delays, run, s, k);
      DueOnGrid(t0, s, run[k]);
    }
  }

  /** No skip: every grid time the run reaches has its wake. */
  lemma {:induction false} GridTimeIsWake(ss: seq<Schedule>, t0: int, delays: seq<nat>, run: seq<Wake>, s: Schedule, t: int, k: nat)
    requires IsRun(ss, t0, delays, run) && Ascending(ss) && Ideal(delays) && s in ss && Regular(ss, s)
    requires k < |run| && OnGrid(t0, s.interval, t) && t <= run[k].now
    ensures exists j | 0 <= j <= k :: run[j].now == t
  {
    if t < run[k].now && k > 0 {
      if t <= run[k - 1].now {
        GridTimeIsWake(ss, t0, delays, run, s, t, k - 1);
      } else {
        NoGridTimeBetween(ss, t0, delays, run, s, t, k);
      }
    }
  }

  lemma NoGridTimeBetween(ss: seq<Schedule>, t0: int, delays: seq<nat>, run: seq<Wake>, s: Schedule, t: int, k: nat)
    requires IsRun(ss, t0, delays, run) && Ascending(ss) && Ideal(delays) && s in ss && Regular(ss, s)
    requires 0 < k < |run| && run[k - 1].now < t < run[k].now
    ensures !OnGrid(t0, s.interval, t)
  {
    StaysOnTime(ss, t0, delays, run, s, k);
    assert Follows(ss, run[k - 1], delays[k - 1], run[k]);
    Marked(ss, s, run[k - 1], run[k].last);
    LastIsPast(ss, t0, delays, run, k - 1);
    NextOnGrid(t0, s.interval, run[k].last[s.feed], t);
  }

  ghost predicate PolledAt(ss: seq<Schedule>, run: seq<Wake>, f: nat, t: int) {
    exists k | 0 <= k < |run| :: run[k].now == t && Polls(ss, run[k], f)
  }

  /** The feed's polls are the times `t0 + m * interval`, as far as the run goes. */
  ghost predicate Exact(ss: seq<Schedule>, t0: int, run: seq<Wake>, s: Schedule)
    requires s.interval > 0 && run != []
  {
    forall t | t <= run[|run| - 1].now :: PolledAt(ss, run, s.feed, t) <==> OnGrid(t0, s.interval, t)
  }

  lemma RegularIsExact(ss: seq<Schedule>, t0: int, delays: seq<nat>, run: seq<Wake>, s: Schedule)
    requires IsRun(ss, t0, delays, run) && Ascending(ss) && Ideal(delays) && s in ss && Regular(ss, s)
    ensures Exact(ss, t0, run, s)
  {
    forall t | t <= run[|run| - 1].now ensures PolledAt(ss, run, s.feed, t) <==> OnGrid(t0, s.interval, t) {
      if k :| 0 <= k < |run| && run[k].now == t && Polls(ss, run[k], s.feed) {
        PolledIffOnGrid(ss, t0, delays, run, s, k);
      }
      if OnGrid(t0, s.interval, t) {
        GridTimeIsWake(ss, t0, delays, run, s, t, |run| - 1);
        var j :| 0 <= j < |run| && run[j].now == t;
        PolledIffOnGrid(ss, t0, delays, run, s, j);
      }
    }
  }

  /** Under an ideal clock, a feed with a positive interval is polled exactly on its grid in
      every run past its first interval if and only if all intervals are positive or its own
      is a whole number of seconds.  The command's default interval is not checked, so the
      condition can fail. */
  lemma ExactIffRegular(ss: seq<Schedule>, t0: int, delays: seq<nat>, run: seq<Wake>, s: Schedule)
    requires IsRun(ss, t0, delays, run) && Ascending(ss) && Ideal(delays) && s in ss && s.interval > 0
    requires run[|run| - 1].now >= t0 + s.interval
    ensures Exact(ss, t0, run, s) <==> Positive(ss) || s.interval % 1_000_000_000 == 0
  {
    if Regular(ss, s) {
      RegularIsExact(ss, t0, delays, run, s);
    } else if PolledAt(ss, run, s.feed, t0 + s.interval) {
      var k :| 0 <= k < |run| && run[k].now == t0 + s.interval && Polls(ss, run[k], s.feed);
      Ticks(ss, t0, delays, run, k);
      Multiple(k, SECOND);
      assert false;
    } else {
      assert OnGrid(t0, s.interval, t0 + s.interval);
    }
  }

  /** With positive intervals every wake of an ideal run polls something. */
  lemma EveryWakePolls(ss: seq<Schedule>, t0: int, delays: seq<nat>, run: seq<Wake>, k: nat)
    requires IsRun(ss, t0, delays, run) && Ascending(ss) && Ideal(delays) && Positive(ss) && ss != [] && k < |run|
    ensures exists s | s in ss :: Polls(ss, run[k], s.feed)
  {
    if k == 0 {
      assert ss[0] in ss;
      PollsScheduled(ss, ss[0], run[0]);
    } else {
      NextWake(ss, run[k - 1], delays[k - 1], run[k]);
      var s :| s in ss && s.feed in run[k].last && run[k].now == run[k].last[s.feed] + s.interval + 0;
      PollsScheduled(ss, s, run[k]);
    }
  }
}
