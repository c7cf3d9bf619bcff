/** The usage statistics of volcano/statistics.py: one open session at a
    time, a record per finished session, and windowed queries over the
    records. Times are whole seconds, dates whole day numbers; `now` and
    `today` are parameters. */
module Statistics {
  import opened Common

  /** A non-empty list of temperatures: an open session always holds at
      least the one it started with. */
  type Temps = s: seq<real> | |s| > 0 witness [0.0]

  /** The session being recorded (`_session_start` and `_current_session`). */
  datatype OpenSession = OpenSession(startTemp: real, startTime: int, temps: Temps, peak: real)

  /** One finished session; `duration` is in seconds. */
  datatype SessionRecord = SessionRecord(
    duration: real,
    avgTemp: real,
    maxTemp: real,
    startTemp: real,
    date: int,
    startTime: int,
    endTime: int)

  datatype Stats = Stats(current: Option<OpenSession>, sessions: seq<SessionRecord>)

  /** The peak is the largest recorded temperature and the first recorded
      temperature is the start temperature. */
  predicate ValidSession(o: OpenSession)
  {
    o.peak == MaxOf(o.temps) && o.startTemp == o.temps[0]
  }

  predicate Valid(st: Stats)
  {
    st.current.Some? ==> ValidSession(st.current.value)
  }

  function Init(): (st: Stats)
    ensures Valid(st) && st.current.None? && |st.sessions| == 0
  {
    Stats(None, [])
  }

  /** The largest element of a sequence extended by one is the larger of
      the old largest and the new element. */
  lemma MaxOfAppend(xs: seq<real>, t: real)
    requires |xs| > 0
    ensures MaxOf(xs + [t]) == if t > MaxOf(xs) then t else MaxOf(xs)
  {
    assert (xs + [t])[..|xs|] == xs;
  }

  // ---------------------------------------------------------------------------
  // Session lifecycle

  /** `record_heat_on`: opens a session at `t`, replacing any open one. */
  function RecordHeatOn(st: Stats, t: real, now: int): (r: Stats)
    ensures r.sessions == st.sessions
    ensures r.current.Some? && Valid(r)
    ensures r.current.value.temps == [t] && r.current.value.peak == t
    ensures r.current.value.startTemp == t && r.current.value.startTime == now
  {
    Stats(Some(OpenSession(t, now, [t], t)), st.sessions)
  }

  /** `record_temperature_change`: nothing without a session; otherwise the
      temperature is appended and the peak kept the maximum. */
  function RecordTemperatureChange(st: Stats, t: real): (r: Stats)
    ensures st.current.None? ==> r == st
    ensures r.sessions == st.sessions
    ensures st.current.Some? ==>
      && r.current.Some?
      && r.current.value.temps == st.current.value.temps + [t]
      && r.current.value.startTemp == st.current.value.startTemp
      && r.current.value.startTime == st.current.value.startTime
      && r.current.value.peak >= t
    ensures Valid(st) ==> Valid(r)
  {
    match st.current
    case None => st
    case Some(o) =>
      var peak := if o.peak >= t then o.peak else t;
      MaxOfAppend(o.temps, t);
      assert (o.temps + [t])[0] == o.temps[0];
      Stats(Some(o.(temps := o.temps + [t], peak := peak)), st.sessions)
  }

  /** The arithmetic mean of a non-empty list of temperatures. */
  function Mean(xs: Temps): (m: real)
    ensures m * |xs| as real == Sum(xs)
  {
    Sum(xs) / |xs| as real
  }

  /** The record `record_heat_off` builds for an open session ending at `now` on `today`. */
  function Finish(o: OpenSession, now: int, today: int): (rec: SessionRecord)
    ensures rec.duration == (now - o.startTime) as real
    ensures rec.avgTemp * |o.temps| as real == Sum(o.temps)
    ensures rec.maxTemp == o.peak && rec.startTemp == o.startTemp
    ensures rec.date == today && rec.startTime == o.startTime && rec.endTime == now
  {
    SessionRecord((now - o.startTime) as real, Mean(o.temps), o.peak, o.startTemp, today, o.startTime, now)
  }

  /** `record_heat_off`: nothing without a session; otherwise exactly one
      record is appended and the session closed. */
  function RecordHeatOff(st: Stats, now: int, today: int): (r: Stats)
    ensures st.current.None? ==> r == st
    ensures st.current.Some? ==>
      && r.current.None?
      && r.sessions == st.sessions + [Finish(st.current.value, now, today)]
    ensures Valid(r)
  {
    match st.current
    case None => st
    case Some(o) => Stats(None, st.sessions + [Finish(o, now, today)])
  }

  /** A sum is at most its length times any upper bound of its elements. */
  lemma {:induction false} SumAtMost(xs: seq<real>, bound: real)
    requires forall i :: 0 <= i < |xs| ==> xs[i] <= bound
    ensures Sum(xs) <= |xs| as real * bound
  {
    if |xs| > 0 {
      SumAtMost(xs[..|xs| - 1], bound);
    }
  }

  /** A sum is at least its length times any lower bound of its elements. */
  lemma {:induction false} SumAtLeast(xs: seq<real>, bound: real)
    requires forall i :: 0 <= i < |xs| ==> bound <= xs[i]
    ensures |xs| as real * bound <= Sum(xs)
  {
    if |xs| > 0 {
      SumAtLeast(xs[..|xs| - 1], bound);
    }
  }

  /** A finished record of a valid session has its mean temperature between
      the lowest recorded temperature and the peak. */
  lemma FinishedRecordBounds(o: OpenSession, now: int, today: int, low: real)
    requires ValidSession(o)
    requires forall i :: 0 <= i < |o.temps| ==> low <= o.temps[i]
    ensures low <= Finish(o, now, today).avgTemp <= Finish(o, now, today).maxTemp
  {
    assert Finish(o, now, today).avgTemp == Mean(o.temps);
    MeanWithin(o.temps, low, o.peak);
  }

  /** The mean lies between any lower and upper bound of the elements. */
  lemma MeanWithin(xs: Temps, low: real, high: real)
    requires forall i :: 0 <= i < |xs| ==> low <= xs[i] <= high
    ensures low <= Mean(xs) <= high
  {
    SumAtMost(xs, high);
    SumAtLeast(xs, low);
    QuotientWithin(Sum(xs), |xs| as real, low, high);
  }

  /** One call on the statistics object. */
  datatype Op =
    | HeatOn(t: real, now: int)
    | TemperatureChange(t: real)
    | HeatOff(now: int, today: int)

  function Apply(st: Stats, op: Op): Stats
  {
    match op
    case HeatOn(t, now) => RecordHeatOn(st, t, now)
    case TemperatureChange(t) => RecordTemperatureChange(st, t)
    case HeatOff(now, today) => RecordHeatOff(st, now, today)
  }

  function ApplyAll(st: Stats, ops: seq<Op>): Stats
    decreases |ops|
  {
    if |ops| == 0 then st else ApplyAll(Apply(st, ops[0]), ops[1..])
  }

  /** Over any sequence of calls the session list only grows (old records
      stay in place), by at most one record per call, and the open session
      stays valid. */
  lemma {:induction false} HistoryOnlyGrows(st: Stats, ops: seq<Op>)
    requires Valid(st)
    ensures Valid(ApplyAll(st, ops))
    ensures |ApplyAll(st, ops).sessions| >= |st.sessions|
    ensures ApplyAll(st, ops).sessions[..|st.sessions|] == st.sessions
    ensures |ApplyAll(st, ops).sessions| <= |st.sessions| + |ops|
    decreases |ops|
  {
    if |ops| > 0 {
      var st' := Apply(st, ops[0]);
      assert |st'.sessions| <= |st.sessions| + 1;
      assert st'.sessions[..|st.sessions|] == st.sessions;
      HistoryOnlyGrows(st', ops[1..]);
      var fin := ApplyAll(st', ops[1..]).sessions;
      assert fin[..|st.sessions|] == fin[..|st'.sessions|][..|st.sessions|];
    }
  }

  // ---------------------------------------------------------------------------
  // Queries

  /** The records dated `day`, in order. */
  function OnDay(sessions: seq<SessionRecord>, day: int): (r: seq<SessionRecord>)
    ensures |r| <= |sessions|
    ensures forall k :: 0 <= k < |r| ==> r[k].date == day
  {
    if |sessions| == 0 then []
    else
      var last := sessions[|sessions| - 1];
      var init := sessions[..|sessions| - 1];
      assert forall i :: 0 <= i < |sessions| - 1 ==> sessions[i] == init[i];
      OnDay(init, day) + (if last.date == day then [last] else [])
  }

  /** Today's sessions are records, and every record dated that day is among them. */
  lemma {:induction false} OnDayMembers(sessions: seq<SessionRecord>, day: int)
    ensures forall k :: 0 <= k < |OnDay(sessions, day)| ==> OnDay(sessions, day)[k] in sessions
    ensures forall i :: 0 <= i < |sessions| && sessions[i].date == day ==> sessions[i] in OnDay(sessions, day)
  {
    if |sessions| > 0 {
      var init, last := sessions[..|sessions| - 1], sessions[|sessions| - 1];
      OnDayMembers(init, day);
      assert sessions == init + [last];
      var ri, r := OnDay(init, day), OnDay(sessions, day);
      assert r == ri + (if last.date == day then [last] else []);
      forall k | 0 <= k < |r|
        ensures r[k] in sessions
      {
        if k < |ri| {
          assert r[k] == ri[k] && ri[k] in init;
        }
      }
      forall i | 0 <= i < |sessions| && sessions[i].date == day
        ensures sessions[i] in r
      {
        if i < |init| {
          assert sessions[i] == init[i] && init[i] in ri;
        } else {
          assert r[|r| - 1] == last;
        }
      }
    }
  }

  /** The records dated `cutoff` or later, in order. */
  function Since(sessions: seq<SessionRecord>, cutoff: int): (r: seq<SessionRecord>)
    ensures |r| <= |sessions|
    ensures forall k :: 0 <= k < |r| ==> r[k].date >= cutoff
  {
    if |sessions| == 0 then []
    else
      var last := sessions[|sessions| - 1];
      var init := sessions[..|sessions| - 1];
      assert forall i :: 0 <= i < |sessions| - 1 ==> sessions[i] == init[i];
      Since(init, cutoff) + (if last.date >= cutoff then [last] else [])
  }

  /** The durations of the records, in seconds. */
  function Durations(sessions: seq<SessionRecord>): (d: seq<real>)
    ensures |d| == |sessions| && forall i :: 0 <= i < |sessions| ==> d[i] == sessions[i].duration
  {
    seq(|sessions|, i requires 0 <= i < |sessions| => sessions[i].duration)
  }

  /** The window holds records only, and every record dated on or after the
      cutoff is in it. */
  lemma {:induction false} SinceMembers(sessions: seq<SessionRecord>, cutoff: int)
    ensures forall k :: 0 <= k < |Since(sessions, cutoff)| ==> Since(sessions, cutoff)[k] in sessions
    ensures forall i :: 0 <= i < |sessions| && sessions[i].date >= cutoff ==> sessions[i] in Since(sessions, cutoff)
  {
    if |sessions| > 0 {
      var init, last := sessions[..|sessions| - 1], sessions[|sessions| - 1];
      SinceMembers(init, cutoff);
      assert sessions == init + [last];
      var ri, r := Since(init, cutoff), Since(sessions, cutoff);
      assert r == ri + (if last.date >= cutoff then [last] else []);
      forall k | 0 <= k < |r|
        ensures r[k] in sessions
      {
        if k < |ri| {
          assert r[k] == ri[k] && ri[k] in init;
        }
      }
      forall i | 0 <= i < |sessions| && sessions[i].date >= cutoff
        ensures sessions[i] in r
      {
        if i < |init| {
          assert sessions[i] == init[i] && init[i] in ri;
        } else {
          assert r[|r| - 1] == last;
        }
      }
    }
  }

  /** `get_today_sessions`. */
  function TodaySessions(st: Stats, today: int): seq<SessionRecord>
  {
    OnDay(st.sessions, today)
  }

  /** `get_sessions_today`. */
  function SessionsToday(st: Stats, today: int): (n: nat)
    ensures n <= |st.sessions|
  {
    |TodaySessions(st, today)|
  }

  /** `get_total_runtime_today`, in minutes. */
  function TotalRuntimeToday(st: Stats, today: int): real
  {
    Sum(Durations(TodaySessions(st, today))) / 60.0
  }

  /** `get_average_session_duration`: the mean duration in minutes of the
      records dated `today - days` or later, 0.0 when there are none. */
  function AverageSessionDuration(st: Stats, today: int, days: int): (r: real)
    ensures
      var recent := Since(st.sessions, today - days);
      (|recent| == 0 ==> r == 0.0) &&
      (|recent| > 0 ==> (r * 60.0) * |recent| as real == Sum(Durations(recent)))
  {
    var recent := Since(st.sessions, today - days);
    if |recent| == 0 then 0.0 else PerItemMinutes(Sum(Durations(recent)), |recent|)
  }

  /** The share of each of `n` items in `total` seconds, in minutes. */
  function PerItemMinutes(total: real, n: nat): (m: real)
    requires n > 0
    ensures (m * 60.0) * n as real == total
  {
    MinutesTimesCount(total, n as real);
    total / n as real / 60.0
  }

  /** Converting a per-item quotient back to seconds and multiplying by the
      count restores the total. */
  lemma MinutesTimesCount(total: real, n: real)
    requires n > 0.0
    ensures (total / n / 60.0 * 60.0) * n == total
  {
    var q := total / n;
    assert q * n == total;
    assert total / n / 60.0 * 60.0 == q;
  }

  /** A quotient by a positive number lies between bounds whose multiples
      bracket the dividend. */
  lemma QuotientWithin(total: real, n: real, low: real, high: real)
    requires n > 0.0
    requires n * low <= total <= n * high
    ensures low <= total / n <= high
  {
    var q := total / n;
    assert q * n == total;
    assert (q - low) * n >= 0.0;
    assert (high - q) * n >= 0.0;
  }

  /** Bounds on every record carry over to the durations of a window. */
  lemma WindowDurationsWithin(sessions: seq<SessionRecord>, cutoff: int, low: real, high: real)
    requires forall i :: 0 <= i < |sessions| ==> low <= sessions[i].duration <= high
    ensures forall i :: 0 <= i < |Durations(Since(sessions, cutoff))| ==>
      low <= Durations(Since(sessions, cutoff))[i] <= high
  {
    var recent := Since(sessions, cutoff);
    SinceMembers(sessions, cutoff);
    forall i | 0 <= i < |recent|
      ensures low <= recent[i].duration <= high
    {
      assert recent[i] in sessions;
    }
  }

  /** The mean of bounded seconds, in minutes, is bounded by the bounds in minutes. */
  lemma MeanMinutesWithin(d: seq<real>, low: real, high: real)
    requires |d| > 0
    requires forall i :: 0 <= i < |d| ==> low <= d[i] <= high
    ensures low / 60.0 <= Sum(d) / |d| as real / 60.0 <= high / 60.0
  {
    SumAtMost(d, high);
    SumAtLeast(d, low);
    QuotientWithin(Sum(d), |d| as real, low, high);
  }

  /** The average lies between any bounds of the durations in its window. */
  lemma AverageWithinBounds(st: Stats, today: int, days: int, low: real, high: real)
    requires forall i :: 0 <= i < |st.sessions| ==> low <= st.sessions[i].duration <= high
    requires |Since(st.sessions, today - days)| > 0
    ensures low / 60.0 <= AverageSessionDuration(st, today, days) <= high / 60.0
  {
    var recent := Since(st.sessions, today - days);
    var d := Durations(recent);
    WindowDurationsWithin(st.sessions, today - days, low, high);
    MeanMinutesWithin(d, low, high);
  }

  /** The number of occurrences of `x` in `xs`. */
  function Occurrences(xs: seq<real>, x: real): nat
  {
    if |xs| == 0 then 0
    else Occurrences(xs[..|xs| - 1], x) + (if xs[|xs| - 1] == x then 1 else 0)
  }

  /** The start temperatures of the records, in order. */
  function StartTemps(sessions: seq<SessionRecord>): (s: seq<real>)
    ensures |s| == |sessions| && forall i :: 0 <= i < |sessions| ==> s[i] == sessions[i].startTemp
  {
    seq(|sessions|, i requires 0 <= i < |sessions| => sessions[i].startTemp)
  }

  /** The first element of `xs` with the highest number of occurrences; the
      counting dictionary keeps keys in first-seen order and `max` keeps the
      first maximal key. */
  method MostFrequent(xs: seq<real>) returns (best: real)
    requires |xs| > 0
    ensures exists p ::
      && 0 <= p < |xs| && xs[p] == best
      && (forall j :: 0 <= j < p ==> Occurrences(xs, xs[j]) < Occurrences(xs, best))
    ensures forall j :: 0 <= j < |xs| ==> Occurrences(xs, xs[j]) <= Occurrences(xs, best)
  {
    best := xs[0];
    var bestCount := Occurrences(xs, best);
    ghost var at := 0;
    var i := 1;
    while i < |xs|
      invariant 1 <= i <= |xs|
      invariant 0 <= at < i && xs[at] == best && bestCount == Occurrences(xs, best)
      invariant forall j :: 0 <= j < at ==> Occurrences(xs, xs[j]) < bestCount
      invariant forall j :: 0 <= j < i ==> Occurrences(xs, xs[j]) <= bestCount
    {
      var c := Occurrences(xs, xs[i]);
      if c > bestCount {
        best, bestCount, at := xs[i], c, i;
      }
      i := i + 1;
    }
  }

  /** `r` is the favourite of `temps`: None exactly when there are none,
      otherwise the value used most often, ties going to the one seen first. */
  predicate IsFavorite(temps: seq<real>, r: Option<real>)
  {
    && (r.None? <==> |temps| == 0)
    && (r.Some? ==>
      && (exists p :: 0 <= p < |temps| && temps[p] == r.value &&
            (forall j :: 0 <= j < p ==> Occurrences(temps, temps[j]) < Occurrences(temps, r.value)))
      && (forall j :: 0 <= j < |temps| ==> Occurrences(temps, temps[j]) <= Occurrences(temps, r.value)))
  }

  /** `get_favorite_temperature`: the favourite start temperature of the
      records in the window. */
  method FavoriteTemperature(st: Stats, today: int, days: int) returns (r: Option<real>)
    ensures IsFavorite(StartTemps(Since(st.sessions, today - days)), r)
  {
    var temps := StartTemps(Since(st.sessions, today - days));
    if |temps| == 0 {
      return None;
    }
    var best := MostFrequent(temps);
    r := Some(best);
  }

  /** The latest end time of a non-empty list of records. */
  function LatestEnd(sessions: seq<SessionRecord>): (m: int)
    requires |sessions| > 0
    ensures exists i :: 0 <= i < |sessions| && sessions[i].endTime == m
    ensures forall i :: 0 <= i < |sessions| ==> sessions[i].endTime <= m
  {
    if |sessions| == 1 then sessions[0].endTime
    else
      var m' := LatestEnd(sessions[..|sessions| - 1]);
      assert forall i :: 0 <= i < |sessions| - 1 ==> sessions[..|sessions| - 1][i] == sessions[i];
      if sessions[|sessions| - 1].endTime > m' then sessions[|sessions| - 1].endTime else m'
  }

  /** `get_time_since_last_use`, in seconds. */
  function TimeSinceLastUse(st: Stats, now: int): (r: Option<int>)
    ensures r.None? <==> |st.sessions| == 0
    ensures r.Some? ==>
      && (exists i :: 0 <= i < |st.sessions| && r.value == now - st.sessions[i].endTime)
      && (forall i :: 0 <= i < |st.sessions| ==> r.value <= now - st.sessions[i].endTime)
  {
    if |st.sessions| == 0 then None else Some(now - LatestEnd(st.sessions))
  }

  /** The appended record joins the window of its day and of every cutoff it meets. */
  lemma FiltersAppend(sessions: seq<SessionRecord>, rec: SessionRecord, day: int)
    ensures OnDay(sessions + [rec], day) == OnDay(sessions, day) + (if rec.date == day then [rec] else [])
    ensures Since(sessions + [rec], day) == Since(sessions, day) + (if rec.date >= day then [rec] else [])
  {
    assert (sessions + [rec])[..|sessions|] == sessions;
  }

  /** `Durations` distributes over appending one record. */
  lemma DurationsAppend(sessions: seq<SessionRecord>, rec: SessionRecord)
    ensures Durations(sessions + [rec]) == Durations(sessions) + [rec.duration]
  {
  }

  /** Ending an open session today adds one to today's count. */
  lemma HeatOffCountsToday(st: Stats, now: int, today: int)
    requires st.current.Some?
    ensures SessionsToday(RecordHeatOff(st, now, today), today) == SessionsToday(st, today) + 1
  {
    FiltersAppend(st.sessions, Finish(st.current.value, now, today), today);
  }

  /** Ending an open session today adds its duration to today's runtime. */
  lemma HeatOffAddsRuntime(st: Stats, now: int, today: int)
    requires st.current.Some?
    ensures TotalRuntimeToday(RecordHeatOff(st, now, today), today)
         == TotalRuntimeToday(st, today) + (now - st.current.value.startTime) as real / 60.0
  {
    var rec := Finish(st.current.value, now, today);
    FiltersAppend(st.sessions, rec, today);
    DurationsAppend(OnDay(st.sessions, today), rec);
    SumAppend(Durations(OnDay(st.sessions, today)), rec.duration);
  }

  /** Right after ending a session, when no earlier session ended later, the
      time since last use is zero. */
  lemma HeatOffResetsLastUse(st: Stats, now: int, today: int)
    requires st.current.Some?
    requires forall i :: 0 <= i < |st.sessions| ==> st.sessions[i].endTime <= now
    ensures TimeSinceLastUse(RecordHeatOff(st, now, today), now) == Some(0)
  {
    var s' := RecordHeatOff(st, now, today).sessions;
    assert s'[|s'| - 1].endTime == now;
    assert forall i :: 0 <= i < |s'| ==> s'[i].endTime <= now by {
      forall i | 0 <= i < |s'|
        ensures s'[i].endTime <= now
      {
        if i < |st.sessions| {
          assert s'[i] == st.sessions[i];
        }
      }
    }
  }

  /** The record `get_diagnostics` returns (the time since last use unformatted). */
  datatype Diagnostics = Diagnostics(
    totalSessions: nat,
    sessionsToday: nat,
    avgSessionDuration7d: real,
    favoriteTemperature30d: Option<real>,
    totalRuntimeToday: real,
    timeSinceLastUse: Option<int>,
    currentSessionActive: bool)

  /** `get_diagnostics` over the windows of 7 and 30 days. */
  method GetDiagnostics(st: Stats, now: int, today: int) returns (d: Diagnostics)
    ensures d.totalSessions == |st.sessions|
    ensures d.sessionsToday <= d.totalSessions
    ensures d.currentSessionActive <==> st.current.Some?
    ensures d.timeSinceLastUse.None? <==> d.totalSessions == 0
    ensures d.favoriteTemperature30d.None? <==> |Since(st.sessions, today - 30)| == 0
    ensures d.avgSessionDuration7d == AverageSessionDuration(st, today, 7)
    ensures d.sessionsToday == SessionsToday(st, today)
    ensures d.totalRuntimeToday == TotalRuntimeToday(st, today)
    ensures d.timeSinceLastUse == TimeSinceLastUse(st, now)
    ensures IsFavorite(StartTemps(Since(st.sessions, today - 30)), d.favoriteTemperature30d)
  {
    var fav := FavoriteTemperature(st, today, 30);
    d := Diagnostics(
      |st.sessions|,
      SessionsToday(st, today),
      AverageSessionDuration(st, today, 7),
      fav,
      TotalRuntimeToday(st, today),
      TimeSinceLastUse(st, now),
      st.current.Some?);
  }
}
