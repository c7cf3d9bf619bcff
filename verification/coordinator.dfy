/** The polling coordinator of __init__.py: the dynamic poll interval, the
    session heuristics, the capped ring of session durations, the daily and
    total counters, the slow-path device-info counter, and one poll cycle
    mapping (state, device reads, clock) to (state, events, snapshot). */
module Coordinator {
  import opened Common
  import opened Api

  /** Poll intervals, in seconds. */
  const FAST_INTERVAL: nat := 1
  const ACTIVE_INTERVAL: nat := 2
  const COOLING_INTERVAL: nat := 3
  const BASE_INTERVAL: nat := 5

  /** How many session durations are kept for the rolling average. */
  const MAX_DURATIONS: nat := 100

  /** Device information is fetched once every this many completed cycles. */
  const INFO_EVERY: nat := 120

  /** Connection attempts made when a poll finds the link down. */
  const RECONNECT_RETRIES: int := 2

  /** The slow-path device information. Firmware and serial strings are kept
      only when non-empty. */
  datatype DeviceInfo = DeviceInfo(
    bleFirmware: Option<string>,
    volcanoFirmware: Option<string>,
    serial: Option<string>,
    hours: nat,
    minutes: nat)

  /** The session statistics a poll adds to its snapshot. */
  datatype SessionStats = SessionStats(
    sessionsToday: nat,
    totalSessions: nat,
    lastDuration: Option<real>,
    averageDuration: Option<real>,
    minutesSinceLastUse: Option<int>)

  /** What a poll hands to the entities. */
  datatype Snapshot =
    | Offline   // connected False, both temperatures None, heat and fan False
    | Live(cur: real, target: real, heat: bool, fan: bool, stats: SessionStats, info: Option<DeviceInfo>)
      // connected True

  /** The `volcano_session_event` payloads, timestamps in seconds. */
  datatype Event =
    | SessionStarted(target: real, current: real, at: int, countToday: nat, total: nat)
    | TemperatureReached(target: real, actual: real, at: int, sessionActive: bool)
    | SessionEnded(minutes: real, start: int, end: int)
    | FanStarted(at: int, sessionActive: bool)
    | FanStopped(at: int, sessionActive: bool)

  /** The coordinator's own fields, with the API object it owns. */
  datatype Coord = Coord(
    api: ApiState,
    sessionStart: Option<int>,     // the open session, if any: at most one
    lastSessionEnd: Option<int>,
    durations: seq<real>,          // minutes, oldest first
    sessionsToday: nat,
    totalSessions: nat,
    lastResetDate: int,
    lastTemp: Option<real>,
    lastTarget: Option<real>,
    lastFan: bool,
    infoCounter: nat,
    cachedInfo: Option<DeviceInfo>)

  /** The coordinator right after construction on day `today`. */
  function Init(today: int): (c: Coord)
    ensures Inv(c) && c.sessionStart.None? && c.totalSessions == 0
  {
    Coord(Api.Init(), None, None, [], 0, 0, today, None, None, false, 0, None)
  }

  /** What every reachable coordinator satisfies. */
  predicate Inv(c: Coord)
  {
    c.sessionsToday <= c.totalSessions && |c.durations| <= MAX_DURATIONS
  }

  // ---------------------------------------------------------------------------
  // Dynamic poll interval

  /** The priority-ordered interval table, on present values. */
  function IntervalFor(heat: bool, fan: bool, cur: real, target: real): (r: nat)
    ensures r in {FAST_INTERVAL, ACTIVE_INTERVAL, COOLING_INTERVAL, BASE_INTERVAL}
    ensures fan ==> r == FAST_INTERVAL
    ensures heat ==> r <= ACTIVE_INTERVAL
    ensures !heat && !fan && target <= 0.0 ==> r == if cur > 50.0 then COOLING_INTERVAL else BASE_INTERVAL
  {
    if fan then FAST_INTERVAL
    else if heat && target > 0.0 && cur > target - 10.0 then FAST_INTERVAL
    else if heat || (target > 0.0 && cur < target) then ACTIVE_INTERVAL
    else if cur > 50.0 then COOLING_INTERVAL
    else BASE_INTERVAL
  }

  /** The interval table as a decision table: every row says exactly when it applies. */
  lemma IntervalTable(heat: bool, fan: bool, cur: real, target: real)
    ensures IntervalFor(heat, fan, cur, target) in {1, 2, 3, 5}
    ensures IntervalFor(heat, fan, cur, target) == 1 <==>
      fan || (heat && target > 0.0 && cur > target - 10.0)
    ensures IntervalFor(heat, fan, cur, target) == 2 <==>
      !fan && !(heat && target > 0.0 && cur > target - 10.0) && (heat || (target > 0.0 && cur < target))
    ensures IntervalFor(heat, fan, cur, target) == 3 <==>
      !fan && !heat && !(target > 0.0 && cur < target) && cur > 50.0
    ensures IntervalFor(heat, fan, cur, target) == 5 <==>
      !fan && !heat && !(target > 0.0 && cur < target) && cur <= 50.0
    ensures heat ==> IntervalFor(heat, fan, cur, target) <= 2
  {
  }

  /** The heat, fan and temperature values the interval heuristic reads from
      the previous snapshot: the `.get` defaults when there is none, and the
      stored `None`s of the disconnected snapshot. */
  function IntervalInputs(prev: Option<Snapshot>): (r: (bool, bool, Option<real>, Option<real>))
    ensures r.2.None? <==> prev == Some(Offline)
    ensures r.3.None? <==> prev == Some(Offline)
    ensures prev == Some(Offline) ==> !r.0 && !r.1
  {
    match prev
    case None => (false, false, Some(0.0), Some(0.0))
    case Some(Offline) => (false, false, None, None)
    case Some(Live(cur, target, heat, fan, _, _)) => (heat, fan, Some(cur), Some(target))
  }

  /** An interval, or the TypeError Python raises when it orders `None`. */
  datatype Interval = Seconds(n: nat) | TypeError

  /** `_get_dynamic_update_interval` as written: it compares whatever the
      snapshot holds, so a `None` temperature that is reached raises. */
  function IntervalAsWritten(heat: bool, fan: bool, cur: Option<real>, target: Option<real>): (r: Interval)
    ensures cur.Some? && target.Some? ==> r == Seconds(IntervalFor(heat, fan, cur.value, target.value))
    ensures fan ==> r == Seconds(FAST_INTERVAL)
  {
    if fan then Seconds(FAST_INTERVAL)
    else if heat then
      if target.None? then TypeError
      else if target.value > 0.0 && cur.None? then TypeError
      else if target.value > 0.0 && cur.value > target.value - 10.0 then Seconds(FAST_INTERVAL)
      else Seconds(ACTIVE_INTERVAL)
    else if target.None? then TypeError
    else if target.value > 0.0 && cur.None? then TypeError
    else if target.value > 0.0 && cur.value < target.value then Seconds(ACTIVE_INTERVAL)
    else if cur.None? then TypeError
    else if cur.value > 50.0 then Seconds(COOLING_INTERVAL)
    else Seconds(BASE_INTERVAL)
  }

  /** The disconnected snapshot the coordinator itself returns makes the
      interval heuristic of the next poll raise. */
  lemma OfflineSnapshotRaisesAsWritten()
    ensures
      var (heat, fan, cur, target) := IntervalInputs(Some(Offline));
      IntervalAsWritten(heat, fan, cur, target) == TypeError
  {
  }

  /** The interval heuristic with a missing temperature read as the `.get`
      default 0: it never raises, agrees with the code on every snapshot the
      code handles, and gives the idle 5 seconds when there is no live data. */
  function DynamicInterval(prev: Option<Snapshot>): (r: nat)
    ensures r in {FAST_INTERVAL, ACTIVE_INTERVAL, COOLING_INTERVAL, BASE_INTERVAL}
    ensures !(prev.Some? && prev.value.Live?) ==> r == BASE_INTERVAL
    ensures
      var (heat, fan, cur, target) := IntervalInputs(prev);
      IntervalAsWritten(heat, fan, cur, target).Seconds? ==> IntervalAsWritten(heat, fan, cur, target) == Seconds(r)
  {
    var (heat, fan, cur, target) := IntervalInputs(prev);
    IntervalFor(heat, fan, cur.GetOr(0.0), target.GetOr(0.0))
  }

  // ---------------------------------------------------------------------------
  // Session durations

  /** Append a duration, dropping the oldest once there are more than 100. */
  function AppendCapped(d: seq<real>, x: real): (r: seq<real>)
    ensures |d| <= MAX_DURATIONS ==> |r| <= MAX_DURATIONS
    ensures |r| > 0 && r[|r| - 1] == x
  {
    var e := d + [x];
    if |e| > MAX_DURATIONS then e[1..] else e
  }

  /** The buffer after appending every duration of `history` to an empty one. */
  function Ring(history: seq<real>): (r: seq<real>)
    ensures |r| <= MAX_DURATIONS
  {
    if |history| == 0 then [] else AppendCapped(Ring(history[..|history| - 1]), history[|history| - 1])
  }

  /** The buffer always holds exactly the last min(k, 100) durations appended, in order. */
  lemma {:induction false} RingKeepsLast(history: seq<real>)
    ensures |Ring(history)| == if |history| < MAX_DURATIONS then |history| else MAX_DURATIONS
    ensures Ring(history) == history[|history| - |Ring(history)|..]
  {
    if |history| > 0 {
      var n := |history|;
      var h := history[..n - 1];
      RingKeepsLast(h);
      var k := n - 1 - |Ring(h)|;
      SuffixThenLast(history, k);
      if |Ring(h)| + 1 > MAX_DURATIONS {
        SuffixTail(history, k);
      }
    }
  }

  /** A suffix of all but the last element, followed by the last element, is
      a suffix of the whole sequence. */
  lemma SuffixThenLast(s: seq<real>, k: nat)
    requires k < |s|
    ensures s[..|s| - 1][k..] + [s[|s| - 1]] == s[k..]
  {
    assert s[..|s| - 1][k..] == s[k..|s| - 1];
  }

  /** Dropping the first element of a suffix gives the next suffix. */
  lemma SuffixTail(s: seq<real>, k: nat)
    requires k < |s|
    ensures s[k..][1..] == s[k + 1..]
  {
  }

  /** `average_session_duration` before rounding: None for an empty buffer,
      else the mean. */
  function AverageDuration(d: seq<real>): (r: Option<real>)
    ensures r.None? <==> |d| == 0
    ensures r.Some? ==> r.value * (|d| as real) == Sum(d)
  {
    if |d| == 0 then None else Some(Sum(d) / (|d| as real))
  }

  /** `last_session_duration`: the most recently appended duration. */
  function LastDuration(d: seq<real>): (r: Option<real>)
    ensures r.None? <==> |d| == 0
  {
    if |d| == 0 then None else Some(d[|d| - 1])
  }

  /** Appending a duration makes it the last one and keeps the average defined. */
  lemma AppendThenQuery(d: seq<real>, x: real)
    ensures LastDuration(AppendCapped(d, x)) == Some(x)
    ensures AverageDuration(AppendCapped(d, x)).Some?
  {
  }

  /** `int(seconds / 60)`: division truncating toward zero. */
  function TruncDiv(a: int, b: int): (q: int)
    requires b > 0
    ensures a >= 0 ==> q * b <= a < (q + 1) * b
    ensures a <= 0 ==> (q - 1) * b < a <= q * b
    ensures (q > 0 ==> a > 0) && (q < 0 ==> a < 0)
  {
    if a >= 0 then
      DivBounds(a, b);
      a / b
    else
      var n := (-a) / b;
      DivBounds(-a, b);
      assert (-n) * b == -(n * b);
      assert (-n - 1) * b == -((n + 1) * b);
      -n
  }

  /** The bracketing determines the quotient: `TruncDiv` is the only integer
      that rounds a / b toward zero. */
  lemma TruncDivUnique(a: int, b: int, q: int)
    requires b > 0
    requires a >= 0 ==> q * b <= a < (q + 1) * b
    requires a <= 0 ==> (q - 1) * b < a <= q * b
    ensures q == TruncDiv(a, b)
  {
    var t := TruncDiv(a, b);
    if q > t {
      MulMono(t + 1, q, b);
      MulMono(t, q - 1, b);
    } else if q < t {
      MulMono(q + 1, t, b);
      MulMono(q, t - 1, b);
    }
  }

  /** Multiplying by a positive number keeps the order. */
  lemma MulMono(x: int, y: int, b: int)
    requires x <= y && b > 0
    ensures x * b <= y * b
  {
    assert y * b - x * b == (y - x) * b;
  }

  /** Euclidean division of a natural number brackets it between consecutive
      multiples of the divisor. */
  lemma DivBounds(a: nat, b: int)
    requires b > 0
    ensures 0 <= a / b && (a / b) * b <= a < (a / b + 1) * b
  {
    var q, m := a / b, a % b;
    assert a == q * b + m;
    assert (q + 1) * b == q * b + b;
  }

  /** The statistics part of a live snapshot. */
  function StatsOf(c: Coord, now: int): (r: SessionStats)
    ensures r.sessionsToday == c.sessionsToday && r.totalSessions == c.totalSessions
    ensures r.lastDuration == LastDuration(c.durations) && r.averageDuration == AverageDuration(c.durations)
    ensures r.minutesSinceLastUse.None? <==> c.lastSessionEnd.None?
    ensures c.lastSessionEnd.Some? ==> r.minutesSinceLastUse == Some(TruncDiv(now - c.lastSessionEnd.value, 60))
  {
    SessionStats(
      c.sessionsToday, c.totalSessions, LastDuration(c.durations), AverageDuration(c.durations),
      match c.lastSessionEnd
      case None => None
      case Some(end) => Some(TruncDiv(now - end, 60)))
  }

  // ---------------------------------------------------------------------------
  // Session heuristics

  /** `_detect_session_start`: a cold previous reading, a hot current one, a
      high target and no open session open a session and count it. */
  function DetectStart(c: Coord, cur: real, target: real, now: int): (r: (Coord, seq<Event>))
    ensures |r.1| <= 1
    ensures |r.1| == 1 <==>
      c.lastTemp.Some? && c.lastTemp.value < 50.0 && cur > 60.0 && target > 100.0 && c.sessionStart.None?
    ensures |r.1| == 0 ==> r.0 == c
    ensures |r.1| == 1 ==>
      && r.0 == c.(sessionStart := Some(now), sessionsToday := c.sessionsToday + 1, totalSessions := c.totalSessions + 1)
      && r.1[0] == SessionStarted(target, cur, now, r.0.sessionsToday, r.0.totalSessions)
  {
    if c.lastTemp.Some? && c.lastTemp.value < 50.0 && cur > 60.0 && target > 100.0 && c.sessionStart.None? then
      var c' := c.(sessionStart := Some(now), sessionsToday := c.sessionsToday + 1, totalSessions := c.totalSessions + 1);
      (c', [SessionStarted(target, cur, now, c'.sessionsToday, c'.totalSessions)])
    else (c, [])
  }

  /** `_detect_temperature_reached`: fires when the reading crosses into the
      last five degrees below a non-zero target; it changes no state. */
  function DetectReached(c: Coord, cur: real, target: real, now: int): (r: seq<Event>)
    ensures |r| <= 1
    ensures |r| == 1 <==>
      target != 0.0 && cur >= target - 5.0 && c.lastTemp.Some? && c.lastTemp.value < target - 5.0
    ensures |r| == 1 ==> r[0] == TemperatureReached(target, cur, now, c.sessionStart.Some?)
  {
    if target != 0.0 && cur >= target - 5.0 && c.lastTemp.Some? && c.lastTemp.value < target - 5.0 then
      [TemperatureReached(target, cur, now, c.sessionStart.Some?)]
    else []
  }

  /** The end condition of `_detect_session_end`: a drop from above 80 to
      below 50 degrees, or the fan just switched off above 100 degrees. */
  predicate SessionEnding(c: Coord, cur: real, fan: bool)
  {
    (cur < 50.0 && c.lastTemp.Some? && c.lastTemp.value != 0.0 && c.lastTemp.value > 80.0)
    || (!fan && c.lastFan && cur > 100.0)
  }

  /** `_detect_session_end`: closes the open session, records its length in
      minutes and its end time. */
  function DetectEnd(c: Coord, cur: real, fan: bool, now: int): (r: (Coord, seq<Event>))
    ensures |r.1| <= 1
    ensures |r.1| == 1 <==> SessionEnding(c, cur, fan) && c.sessionStart.Some?
    ensures |r.1| == 0 ==> r.0 == c
    ensures |r.1| == 1 ==>
      && r.0.sessionStart.None? && r.0.lastSessionEnd == Some(now)
      && r.0.durations == AppendCapped(c.durations, (now - c.sessionStart.value) as real / 60.0)
      && r.1[0] == SessionEnded((now - c.sessionStart.value) as real / 60.0, c.sessionStart.value, now)
      && r.0.sessionsToday == c.sessionsToday && r.0.totalSessions == c.totalSessions
  {
    if SessionEnding(c, cur, fan) && c.sessionStart.Some? then
      var start := c.sessionStart.value;
      var minutes := (now - start) as real / 60.0;
      (c.(durations := AppendCapped(c.durations, minutes), lastSessionEnd := Some(now), sessionStart := None),
       [SessionEnded(minutes, start, now)])
    else (c, [])
  }

  /** `_handle_fan_events`: one event exactly when the fan differs from the last poll. */
  function FanEvents(c: Coord, fan: bool, now: int): (r: seq<Event>)
    ensures |r| <= 1
    ensures |r| == 1 <==> fan != c.lastFan
    ensures |r| == 1 ==> r[0] == if fan then FanStarted(now, c.sessionStart.Some?) else FanStopped(now, c.sessionStart.Some?)
  {
    if fan == c.lastFan then []
    else if fan then [FanStarted(now, c.sessionStart.Some?)]
    else [FanStopped(now, c.sessionStart.Some?)]
  }

  /** The three detectors in the code's order, all against the previous reading. */
  function Detect(c: Coord, cur: real, target: real, fan: bool, now: int): (r: (Coord, seq<Event>))
    ensures |r.1| <= 3
    ensures c.totalSessions <= r.0.totalSessions <= c.totalSessions + 1
    ensures r.0.sessionsToday - c.sessionsToday == r.0.totalSessions - c.totalSessions
    ensures r.0.lastTemp == c.lastTemp && r.0.lastFan == c.lastFan && r.0.lastResetDate == c.lastResetDate
    ensures r.0.api == c.api && r.0.infoCounter == c.infoCounter && r.0.cachedInfo == c.cachedInfo
  {
    var (c1, e1) := DetectStart(c, cur, target, now);
    var e2 := DetectReached(c1, cur, target, now);
    var (c2, e3) := DetectEnd(c1, cur, fan, now);
    (c2, e1 + e2 + e3)
  }

  /** Session tracking of one poll: detection only when the current reading
      is present, then fan events, then the readings become "last". */
  function Track(c: Coord, cur: Option<real>, target: real, fan: bool, now: int): (r: (Coord, seq<Event>))
    ensures r.0.lastTemp == cur && r.0.lastTarget == Some(target) && r.0.lastFan == fan
    ensures c.totalSessions <= r.0.totalSessions <= c.totalSessions + 1
    ensures r.0.sessionsToday - c.sessionsToday == r.0.totalSessions - c.totalSessions
    ensures cur.None? ==> r.0.totalSessions == c.totalSessions && r.0.sessionsToday == c.sessionsToday
    ensures r.0.lastResetDate == c.lastResetDate
    ensures r.0.api == c.api && r.0.infoCounter == c.infoCounter && r.0.cachedInfo == c.cachedInfo
  {
    var (c1, e) := if cur.Some? then Detect(c, cur.value, target, fan, now) else (c, []);
    (c1.(lastTemp := cur, lastTarget := Some(target), lastFan := fan), e + FanEvents(c1, fan, now))
  }

  /** `_reset_daily_stats`: a new date clears today's count. */
  function ResetDaily(c: Coord, today: int): (r: Coord)
    ensures r.lastResetDate == today
    ensures today != c.lastResetDate ==> r.sessionsToday == 0
    ensures today == c.lastResetDate ==> r == c
    ensures r.totalSessions == c.totalSessions && r.sessionStart == c.sessionStart
  {
    if today != c.lastResetDate then c.(sessionsToday := 0, lastResetDate := today) else c
  }

  /** Session tracking followed by the daily reset, in the order the code
      runs them (the reset happens when the snapshot reads `sessions_today`). */
  function TrackThenReset(c: Coord, cur: Option<real>, target: real, fan: bool, now: int, today: int): (r: (Coord, seq<Event>))
    ensures r.0.lastResetDate == today
    ensures today != c.lastResetDate ==> r.0.sessionsToday == 0
    ensures r.0.api == c.api && r.0.infoCounter == c.infoCounter && r.0.cachedInfo == c.cachedInfo
  {
    var (c1, e) := Track(c, cur, target, fan, now);
    (ResetDaily(c1, today), e)
  }

  /** A session detected on the first poll of a new day is counted, then
      wiped by the reset, and its event reports yesterday's count plus one. */
  lemma NewDayStartLostAsWritten()
    ensures
      var c := Init(1).(sessionsToday := 3, totalSessions := 3, lastTemp := Some(30.0));
      var (c', e) := TrackThenReset(c, Some(70.0), 180.0, false, 100000, 2);
      && e == [SessionStarted(180.0, 70.0, 100000, 4, 4)]
      && c'.sessionStart == Some(100000)
      && c'.sessionsToday == 0
  {
  }

  /** The daily reset followed by session tracking. */
  function ResetThenTrack(c: Coord, cur: Option<real>, target: real, fan: bool, now: int, today: int): (r: (Coord, seq<Event>))
    ensures r.0.lastResetDate == today
    ensures today != c.lastResetDate ==> r.0.sessionsToday <= 1
    ensures today == c.lastResetDate ==> r == TrackThenReset(c, cur, target, fan, now, today)
    ensures r.0.api == c.api && r.0.infoCounter == c.infoCounter && r.0.cachedInfo == c.cachedInfo
  {
    Track(ResetDaily(c, today), cur, target, fan, now)
  }

  /** With the reset first, the same poll counts the new session for the new
      day and reports that count. */
  lemma NewDayStartKeptCorrected()
    ensures
      var c := Init(1).(sessionsToday := 3, totalSessions := 3, lastTemp := Some(30.0));
      var (c', e) := ResetThenTrack(c, Some(70.0), 180.0, false, 100000, 2);
      && e == [SessionStarted(180.0, 70.0, 100000, 1, 4)]
      && c'.sessionsToday == 1
  {
  }

  /** The events report a session start. */
  predicate HasStart(e: seq<Event>)
  {
    exists i :: 0 <= i < |e| && e[i].SessionStarted?
  }

  /** The events report a fan transition. */
  predicate HasFanEvent(e: seq<Event>)
  {
    exists i :: 0 <= i < |e| && (e[i].FanStarted? || e[i].FanStopped?)
  }

  /** The three detectors keep the invariant, count a session exactly when
      they report its start (never while one is open), and touch neither the
      fan nor the "last" readings. */
  lemma DetectProperties(c: Coord, cur: real, target: real, fan: bool, now: int)
    requires Inv(c)
    ensures
      var (c', e) := Detect(c, cur, target, fan, now);
      && Inv(c')
      && c'.totalSessions == c.totalSessions + (if HasStart(e) then 1 else 0)
      && c'.sessionsToday == c.sessionsToday + (if HasStart(e) then 1 else 0)
      && (HasStart(e) ==> c.sessionStart.None? && e[0] == SessionStarted(target, cur, now, c'.sessionsToday, c'.totalSessions))
      && (forall i :: 1 <= i < |e| ==> !e[i].SessionStarted?)
      && !HasFanEvent(e)
      && c'.lastTemp == c.lastTemp && c'.lastFan == c.lastFan && c'.lastResetDate == c.lastResetDate
      && c'.api == c.api && c'.infoCounter == c.infoCounter && c'.cachedInfo == c.cachedInfo
  {
    var (c1, e1) := DetectStart(c, cur, target, now);
    var e2 := DetectReached(c1, cur, target, now);
    var (c2, e3) := DetectEnd(c1, cur, fan, now);
    var e := e1 + e2 + e3;
    assert Detect(c, cur, target, fan, now) == (c2, e);
    assert forall i :: 0 <= i < |e| ==> (i < |e1| && e[i] == e1[i]) || (|e1| <= i < |e1| + |e2| && e[i] == e2[i - |e1|]) || (|e1 + e2| <= i && e[i] == e3[i - |e1 + e2|]);
    if |e1| == 1 {
      assert e[0].SessionStarted?;
    }
  }

  /** What one round of tracking promises: the invariant is kept, both
      counters grow by one exactly when a start is reported (as the first
      event, carrying the new counts), a fan event is emitted exactly when the
      fan changed, and no start is reported without a current reading. */
  lemma TrackProperties(c: Coord, cur: Option<real>, target: real, fan: bool, now: int)
    requires Inv(c)
    ensures
      var (c', e) := Track(c, cur, target, fan, now);
      && Inv(c')
      && c'.totalSessions == c.totalSessions + (if HasStart(e) then 1 else 0)
      && c'.sessionsToday == c.sessionsToday + (if HasStart(e) then 1 else 0)
      && (HasStart(e) ==>
            && c.sessionStart.None? && e[0].SessionStarted?
            && e[0].countToday == c'.sessionsToday && e[0].total == c'.totalSessions)
      && (HasFanEvent(e) <==> fan != c.lastFan)
      && (cur.None? ==> !HasStart(e))
  {
    var (c1, e) := if cur.Some? then Detect(c, cur.value, target, fan, now) else (c, []);
    if cur.Some? {
      DetectProperties(c, cur.value, target, fan, now);
    }
    var e4 := FanEvents(c1, fan, now);
    var all := e + e4;
    assert forall i :: 0 <= i < |all| ==> (i < |e| && all[i] == e[i]) || (|e| <= i && all[i] == e4[i - |e|]);
    assert HasStart(all) <==> HasStart(e);
    if |e4| == 1 {
      assert all[|e|] == e4[0];
    }
    assert HasFanEvent(all) <==> |e4| == 1;
    if HasStart(all) {
      assert all[0] == e[0];
    }
  }

  /** Tracking in the code's order: the new day's reset comes last, so a
      session started on that poll reports yesterday's count plus one and is
      then dropped from today's count. */
  lemma TrackThenResetProperties(c: Coord, cur: Option<real>, target: real, fan: bool, now: int, today: int)
    requires Inv(c)
    ensures
      var (c', e) := TrackThenReset(c, cur, target, fan, now, today);
      && Inv(c')
      && c'.totalSessions == c.totalSessions + (if HasStart(e) then 1 else 0)
      && (HasStart(e) ==> e[0].SessionStarted? && e[0].countToday == c.sessionsToday + 1)
      && c'.lastTemp == cur && c'.lastTarget == Some(target) && c'.lastFan == fan
      && (today == c.lastResetDate ==> c'.sessionsToday == c.sessionsToday + (if HasStart(e) then 1 else 0))
      && (HasFanEvent(e) <==> fan != c.lastFan)
  {
    TrackProperties(c, cur, target, fan, now);
  }

  /** Tracking with the reset first: a started session is counted for the
      day it starts on, and the event reports that count. */
  lemma TrackingProperties(c: Coord, cur: Option<real>, target: real, fan: bool, now: int, today: int)
    requires Inv(c)
    ensures
      var (c', e) := ResetThenTrack(c, cur, target, fan, now, today);
      && Inv(c')
      && c'.lastTemp == cur && c'.lastTarget == Some(target) && c'.lastFan == fan
      && c'.totalSessions == c.totalSessions + (if HasStart(e) then 1 else 0)
      && (HasStart(e) ==> c.sessionStart.None? && e[0].SessionStarted? && e[0].countToday == c'.sessionsToday >= 1)
      && (today != c.lastResetDate ==> c'.sessionsToday == (if HasStart(e) then 1 else 0))
      && (HasFanEvent(e) <==> fan != c.lastFan)
      && (cur.None? ==> !HasStart(e))
  {
    TrackProperties(ResetDaily(c, today), cur, target, fan, now);
  }

  // ---------------------------------------------------------------------------
  // One poll cycle

  /** The slow-path reads: the firmware and serial strings as decoded (None
      when the read raised), and the raw counter reads. */
  datatype InfoReads = InfoReads(
    bleFirmware: Option<string>,
    volcanoFirmware: Option<string>,
    serial: Option<string>,
    hours: Read,
    minutes: Read)

  /** Keep a string only when it is non-empty. */
  function NonEmpty(s: string): Option<string>
  {
    if s == "" then None else Some(s)
  }

  /** `get_device_info_data`: every read must succeed, else the result is
      empty (None); empty strings are left out. */
  function FetchDeviceInfo(api: ApiState, io: InfoReads): (r: Option<DeviceInfo>)
    ensures r.Some? <==>
      IsConnected(api) && io.bleFirmware.Some? && io.volcanoFirmware.Some? && io.serial.Some?
      && ReadCounter(api, io.hours).Ok? && ReadCounter(api, io.minutes).Ok?
    ensures r.Some? ==>
      && (r.value.bleFirmware.Some? <==> io.bleFirmware.value != "")
      && (r.value.volcanoFirmware.Some? <==> io.volcanoFirmware.value != "")
      && (r.value.serial.Some? <==> io.serial.value != "")
      && r.value.hours == ReadCounter(api, io.hours).value
      && r.value.minutes == ReadCounter(api, io.minutes).value
  {
    if !IsConnected(api) || io.bleFirmware.None? || io.volcanoFirmware.None? || io.serial.None? then None
    else match (ReadCounter(api, io.hours), ReadCounter(api, io.minutes))
      case (Ok(h), Ok(m)) =>
        Some(DeviceInfo(NonEmpty(io.bleFirmware.value), NonEmpty(io.volcanoFirmware.value),
                        NonEmpty(io.serial.value), h, m))
      case _ => None
  }

  /** Everything one poll reads from the device, in the order it reads it. */
  datatype PollReads = PollReads(
    attempts: seq<Attempt>,   // connection attempts, used only when the link is down
    current: Read,
    target: Read,
    status: Read,
    info: InfoReads)

  /** The slow path: on every 120th completed cycle the device information is
      fetched, and a non-empty result replaces the cache; in between the cache
      is reported. Returns what the snapshot reports and the new cache. */
  function SlowPath(counter: nat, cached: Option<DeviceInfo>, api: ApiState, info: InfoReads): (r: (Option<DeviceInfo>, Option<DeviceInfo>))
    ensures counter % INFO_EVERY != 0 ==> r == (cached, cached)
    ensures counter % INFO_EVERY == 0 ==>
      r.0 == FetchDeviceInfo(api, info) && r.1 == (if r.0.Some? then r.0 else cached)
  {
    if counter % INFO_EVERY == 0 then
      var fetched := FetchDeviceInfo(api, info);
      (fetched, if fetched.Some? then fetched else cached)
    else (cached, cached)
  }

  /** How a poll ends: the new state and the events fired, then either the
      data handed to the entities with the new poll interval (None: left as
      it was), or the UpdateFailed the framework receives when the poll
      raised after tracking, in which case it keeps its previous data. */
  datatype PollResult =
    | Published(coord: Coord, events: seq<Event>, snapshot: Snapshot, interval: Option<nat>)
    | UpdateFailed(coord: Coord, events: seq<Event>)

  /** The interval the code computes from the previous data: it raises on
      the disconnected snapshot and nowhere else, and agrees with the
      corrected heuristic wherever it does not raise. */
  function PrevInterval(prev: Option<Snapshot>): (r: Interval)
    ensures r.TypeError? <==> prev == Some(Offline)
    ensures r.Seconds? ==> r.n == DynamicInterval(prev)
  {
    var (heat, fan, cur, target) := IntervalInputs(prev);
    IntervalAsWritten(heat, fan, cur, target)
  }

  /** The end of a poll once tracking is done: the statistics, the slow path
      and the device-info counter, then the interval; a raising interval turns
      the poll into UpdateFailed after all of that has happened. */
  function Complete(c1: Coord, events: seq<Event>, dev: DeviceState, info: InfoReads, now: int, interval: Interval): PollResult
  {
    var (shown, cached) := SlowPath(c1.infoCounter, c1.cachedInfo, c1.api, info);
    var c2 := c1.(infoCounter := c1.infoCounter + 1, cachedInfo := cached);
    match interval
    case TypeError => UpdateFailed(c2, events)
    case Seconds(n) => Published(c2, events, Live(dev.cur, dev.target, dev.heat, dev.fan, StatsOf(c1, now), shown), Some(n))
  }

  /** What `Complete` hands on: the state with the counter advanced and the
      cache refreshed, the events unchanged, and the snapshot unless the
      interval raised. */
  lemma CompleteFacts(c1: Coord, events: seq<Event>, dev: DeviceState, info: InfoReads, now: int, interval: Interval)
    ensures
      var r := Complete(c1, events, dev, info, now, interval);
      var (shown, cached) := SlowPath(c1.infoCounter, c1.cachedInfo, c1.api, info);
      && r.coord == c1.(infoCounter := c1.infoCounter + 1, cachedInfo := cached)
      && r.events == events
      && (r.UpdateFailed? <==> interval.TypeError?)
      && (r.Published? ==>
            r.snapshot == Live(dev.cur, dev.target, dev.heat, dev.fan, StatsOf(c1, now), shown) && r.interval == Some(interval.n))
  {
  }

  /** The part of a poll after both temperature reads, as written: the status
      read, tracking followed by the daily reset, the statistics, the slow
      path, and last the interval from the previous data. */
  function CycleAsWritten(c: Coord, prev: Option<Snapshot>, cur: Option<real>, target: real, io: PollReads, now: int, today: int): (r: PollResult)
    requires IsConnected(c.api)
    ensures r.UpdateFailed? <==> prev == Some(Offline)
    ensures IsConnected(r.coord.api) && r.coord.infoCounter == c.infoCounter + 1
    ensures today != c.lastResetDate ==> r.coord.sessionsToday == 0
  {
    var ds := GetDeviceState(c.api, io.status);
    var dev := ds.result.value;
    var (c1, events) := TrackThenReset(c.(api := ds.state), cur, target, dev.fan, now, today);
    Complete(c1, events, dev, io.info, now, PrevInterval(prev))
  }

  /** The same part of a poll with both corrections: the reset before
      tracking, and the interval that reads a missing temperature as 0. */
  function CycleCorrected(c: Coord, prev: Option<Snapshot>, cur: Option<real>, target: real, io: PollReads, now: int, today: int): (r: PollResult)
    requires IsConnected(c.api)
    ensures r.Published? && r.snapshot.Live? && r.interval == Some(DynamicInterval(prev))
    ensures IsConnected(r.coord.api) && r.coord.infoCounter == c.infoCounter + 1
  {
    var ds := GetDeviceState(c.api, io.status);
    var dev := ds.result.value;
    var (c1, events) := ResetThenTrack(c.(api := ds.state), cur, target, dev.fan, now, today);
    Complete(c1, events, dev, io.info, now, Seconds(DynamicInterval(prev)))
  }

  /** The link the poll works on: kept when connected, else a two-attempt reconnect. */
  function Reconnect(api: ApiState, attempts: seq<Attempt>): (r: Connected)
    requires |attempts| >= RECONNECT_RETRIES
    ensures r.result.Ok? ==> r.result.value == IsConnected(r.state)
    ensures IsConnected(api) ==> r.state == api && r.result == Ok(true)
    ensures r.tried <= RECONNECT_RETRIES
    ensures !IsConnected(api) ==>
      (r.result == Ok(true) <==> attempts[0] == Up || attempts[1] == Up) &&
      (r.result.Err? <==> attempts[0] != Up && attempts[1] != Up && attempts[1].Raises())
  {
    if IsConnected(api) then Connected(Ok(true), api, 0, 0)
    else Connect(api, RECONNECT_RETRIES, attempts)
  }

  /** How the start of a poll ends. */
  datatype Prelude =
    | Stopped(api: ApiState)                              // ConnectionError: the disconnected snapshot follows
    | Readings(api: ApiState, cur: Option<real>, target: real)

  /** The start of `_async_update_data`: the link is kept or re-established,
      then the current temperature (None when its read raised) and the
      target are read; a failed reconnect or target read stops the poll. */
  function ReadTemperatures(api: ApiState, io: PollReads): (r: Prelude)
    requires |io.attempts| >= RECONNECT_RETRIES
    ensures r.Readings? <==>
      IsConnected(Reconnect(api, io.attempts).state) && io.target.Bytes? && |io.target.data| >= 2
    ensures r.Readings? ==>
      IsConnected(r.api) && (r.cur.Some? <==> io.current.Bytes? && |io.current.data| >= 2)
  {
    var conn := Reconnect(api, io.attempts);
    if conn.result.Err? then Stopped(conn.state)
    else
      var cr := GetCurrentTemperature(conn.state, io.current);
      var cur := if cr.result.Ok? then Some(cr.result.value) else None;
      var tr := GetTargetTemperature(cr.state, io.target);
      if tr.result.Err? then Stopped(tr.state)
      else Readings(tr.state, cur, tr.result.value)
  }

  /** `_async_update_data` as written: reconnect if needed and read both
      temperatures, then the status, session tracking followed by the daily
      reset, the statistics, the device info and the counter, and last the
      interval from the previous data `prev`, which raises UpdateFailed
      when `prev` is the disconnected snapshot. A failed reconnect or target
      read publishes the disconnected snapshot and leaves the coordinator's
      own fields alone. */
  function PollAsWritten(c: Coord, prev: Option<Snapshot>, io: PollReads, now: int, today: int): (r: PollResult)
    requires |io.attempts| >= RECONNECT_RETRIES
    ensures r.UpdateFailed? ==> prev == Some(Offline)
    ensures r.Published? && r.snapshot.Offline? ==> r.events == [] && r.interval.None?
  {
    match ReadTemperatures(c.api, io)
    case Stopped(api) => Published(c.(api := api), [], Offline, None)
    case Readings(api, cur, target) => CycleAsWritten(c.(api := api), prev, cur, target, io, now, today)
  }

  /** `_async_update_data` with both corrections: it always publishes. */
  function PollCorrected(c: Coord, prev: Option<Snapshot>, io: PollReads, now: int, today: int): (r: PollResult)
    requires |io.attempts| >= RECONNECT_RETRIES
    ensures r.Published?
    ensures r.snapshot.Offline? <==> r.interval.None?
  {
    match ReadTemperatures(c.api, io)
    case Stopped(api) => Published(c.(api := api), [], Offline, None)
    case Readings(api, cur, target) => CycleCorrected(c.(api := api), prev, cur, target, io, now, today)
  }

  /** The coordinator fields other than the API object are unchanged. */
  predicate SameTracking(c: Coord, c': Coord)
  {
    c' == c.(api := c'.api)
  }

  /** What the tail of a poll promises as written: the invariant is kept,
      the counter advances and the readings become the "last" ones whether or
      not the poll then raises, which it does exactly after the disconnected
      snapshot; a new day's count is always 0, even when this poll started a
      session; a published snapshot carries the counts and the device info. */
  lemma CycleProperties(c: Coord, prev: Option<Snapshot>, cur: Option<real>, target: real, io: PollReads, now: int, today: int)
    requires Inv(c) && IsConnected(c.api)
    ensures
      var r := CycleAsWritten(c, prev, cur, target, io, now, today);
      && Inv(r.coord)
      && (r.UpdateFailed? <==> prev == Some(Offline))
      && r.coord.infoCounter == c.infoCounter + 1
      && r.coord.totalSessions == c.totalSessions + (if HasStart(r.events) then 1 else 0)
      && (HasStart(r.events) ==> r.events[0].SessionStarted? && r.events[0].countToday == c.sessionsToday + 1)
      && (today != c.lastResetDate ==> r.coord.sessionsToday == 0)
      && r.coord.lastTemp == cur && r.coord.lastTarget == Some(target)
      && (HasFanEvent(r.events) <==> r.coord.lastFan != c.lastFan)
      && (r.Published? ==>
            && r.snapshot.Live?
            && r.interval == Some(DynamicInterval(prev))
            && r.snapshot.fan == r.coord.lastFan
            && r.snapshot.cur == r.coord.api.cur && r.snapshot.target == r.coord.api.target
            && r.snapshot.stats.sessionsToday == r.coord.sessionsToday
            && r.snapshot.stats.totalSessions == r.coord.totalSessions
            && (c.infoCounter % INFO_EVERY != 0 ==> r.snapshot.info == c.cachedInfo))
      && (c.infoCounter % INFO_EVERY != 0 ==> r.coord.cachedInfo == c.cachedInfo)
  {
    var ds := GetDeviceState(c.api, io.status);
    var dev := ds.result.value;
    var (c1, events) := TrackThenReset(c.(api := ds.state), cur, target, dev.fan, now, today);
    TrackThenResetProperties(c.(api := ds.state), cur, target, dev.fan, now, today);
    assert CycleAsWritten(c, prev, cur, target, io, now, today) == Complete(c1, events, dev, io.info, now, PrevInterval(prev));
    CompleteFacts(c1, events, dev, io.info, now, PrevInterval(prev));
  }

  /** What the tail of a poll promises with both corrections. */
  lemma CycleCorrectedProperties(c: Coord, prev: Option<Snapshot>, cur: Option<real>, target: real, io: PollReads, now: int, today: int)
    requires Inv(c) && IsConnected(c.api)
    ensures
      var r := CycleCorrected(c, prev, cur, target, io, now, today);
      && Inv(r.coord)
      && r.coord.totalSessions == c.totalSessions + (if HasStart(r.events) then 1 else 0)
      && (today != c.lastResetDate ==> r.coord.sessionsToday == (if HasStart(r.events) then 1 else 0))
      && r.coord.lastTemp == cur && r.coord.lastTarget == Some(target) && r.coord.lastFan == r.snapshot.fan
      && r.snapshot.cur == r.coord.api.cur && r.snapshot.target == r.coord.api.target
      && r.snapshot.stats.sessionsToday == r.coord.sessionsToday
      && r.snapshot.stats.totalSessions == r.coord.totalSessions
      && (HasFanEvent(r.events) <==> r.snapshot.fan != c.lastFan)
      && (c.infoCounter % INFO_EVERY != 0 ==> r.snapshot.info == c.cachedInfo && r.coord.cachedInfo == c.cachedInfo)
      && (c.infoCounter % INFO_EVERY == 0 ==>
            r.snapshot.info == FetchDeviceInfo(r.coord.api, io.info)
            && r.coord.cachedInfo == (if r.snapshot.info.Some? then r.snapshot.info else c.cachedInfo))
  {
    var ds := GetDeviceState(c.api, io.status);
    var dev := ds.result.value;
    var (c1, events) := ResetThenTrack(c.(api := ds.state), cur, target, dev.fan, now, today);
    TrackingProperties(c.(api := ds.state), cur, target, dev.fan, now, today);
    assert CycleCorrected(c, prev, cur, target, io, now, today) == Complete(c1, events, dev, io.info, now, Seconds(DynamicInterval(prev)));
    CompleteFacts(c1, events, dev, io.info, now, Seconds(DynamicInterval(prev)));
  }

  /** What a poll promises as written: the invariant is kept and the total
      never decreases; the disconnected snapshot leaves the coordinator's own
      fields and the interval alone and fires nothing; UpdateFailed comes
      exactly when the reads succeed after the disconnected snapshot, and by
      then the counter has advanced. */
  lemma PollProperties(c: Coord, prev: Option<Snapshot>, io: PollReads, now: int, today: int)
    requires Inv(c)
    requires |io.attempts| >= RECONNECT_RETRIES
    ensures
      var r := PollAsWritten(c, prev, io, now, today);
      && Inv(r.coord)
      && r.coord.totalSessions >= c.totalSessions
      && (r.Published? && r.snapshot.Offline? ==> r.events == [] && r.interval.None? && SameTracking(c, r.coord))
      && (r.UpdateFailed? <==> prev == Some(Offline) && ReadTemperatures(c.api, io).Readings?)
      && (!(r.Published? && r.snapshot.Offline?) ==>
            IsConnected(r.coord.api) && r.coord.infoCounter == c.infoCounter + 1)
      && (r.Published? && r.snapshot.Live? ==> r.interval == Some(DynamicInterval(prev)))
  {
    match ReadTemperatures(c.api, io)
    case Stopped(_) =>
    case Readings(api, cur, target) =>
      CycleProperties(c.(api := api), prev, cur, target, io, now, today);
  }

  /** What a poll promises with both corrections: it always publishes, the
      disconnected snapshot changes nothing but the link, and a live snapshot
      is everything `CycleCorrectedProperties` states. */
  lemma PollCorrectedProperties(c: Coord, prev: Option<Snapshot>, io: PollReads, now: int, today: int)
    requires Inv(c)
    requires |io.attempts| >= RECONNECT_RETRIES
    ensures
      var r := PollCorrected(c, prev, io, now, today);
      && r.Published?
      && Inv(r.coord)
      && r.coord.totalSessions >= c.totalSessions
      && (r.snapshot.Offline? <==> ReadTemperatures(c.api, io).Stopped?)
      && (r.snapshot.Offline? ==> r.events == [] && SameTracking(c, r.coord))
      && (r.snapshot.Live? ==>
            && IsConnected(r.coord.api)
            && r.coord.infoCounter == c.infoCounter + 1
            && (HasFanEvent(r.events) <==> r.snapshot.fan != c.lastFan)
            && (c.infoCounter % INFO_EVERY != 0 ==> r.snapshot.info == c.cachedInfo))
  {
    match ReadTemperatures(c.api, io)
    case Stopped(_) =>
    case Readings(api, cur, target) =>
      CycleCorrectedProperties(c.(api := api), prev, cur, target, io, now, today);
  }

  /** On a day that is not new and after anything but the disconnected
      snapshot, the code and the corrected poll agree exactly; where the code
      raises, the corrected poll publishes live data. */
  lemma PollsAgree(c: Coord, prev: Option<Snapshot>, io: PollReads, now: int, today: int)
    requires |io.attempts| >= RECONNECT_RETRIES
    ensures today == c.lastResetDate && prev != Some(Offline) ==>
      PollAsWritten(c, prev, io, now, today) == PollCorrected(c, prev, io, now, today)
    ensures PollAsWritten(c, prev, io, now, today).UpdateFailed? ==>
      PollCorrected(c, prev, io, now, today).snapshot.Live?
  {
    match ReadTemperatures(c.api, io)
    case Stopped(_) =>
    case Readings(api, cur, target) =>
      var c0 := c.(api := api);
      var ds := GetDeviceState(c0.api, io.status);
      if today == c.lastResetDate && prev != Some(Offline) {
        assert ResetThenTrack(c0.(api := ds.state), cur, target, ds.result.value.fan, now, today)
            == TrackThenReset(c0.(api := ds.state), cur, target, ds.result.value.fan, now, today);
      }
  }

  /** A reconnect that raises on both attempts yields the disconnected
      snapshot, after which the code's interval heuristic raises while the
      corrected one settles on the idle interval. */
  lemma FailedReconnectThenInterval(c: Coord, io: PollReads, now: int, today: int)
    requires !IsConnected(c.api)
    requires io.attempts == [Failed, Failed]
    ensures PollAsWritten(c, None, io, now, today) == Published(c.(api := PollAsWritten(c, None, io, now, today).coord.api), [], Offline, None)
    ensures PrevInterval(Some(PollAsWritten(c, None, io, now, today).snapshot)) == TypeError
    ensures DynamicInterval(Some(PollAsWritten(c, None, io, now, today).snapshot)) == BASE_INTERVAL
  {
    var conn := Connect(c.api, RECONNECT_RETRIES, io.attempts);
    assert conn.result.Err?;
  }

  // ---------------------------------------------------------------------------
  // Several polls

  /** One poll's device reads and clock. */
  datatype Tick = Tick(io: PollReads, now: int, today: int)

  /** Every poll has the two reconnect attempts it may need. */
  predicate Ticks(ticks: seq<Tick>)
  {
    forall i :: 0 <= i < |ticks| ==> |ticks[i].io.attempts| >= RECONNECT_RETRIES
  }

  /** The framework's data after a poll: the published snapshot, or the
      previous data when the poll raised UpdateFailed. */
  function NextData(prev: Option<Snapshot>, r: PollResult): (d: Option<Snapshot>)
    ensures d.Some? || d == prev
    ensures r.Published? ==> d == Some(r.snapshot)
  {
    if r.Published? then Some(r.snapshot) else prev
  }

  /** The framework's data after a run of polls as written. */
  function RunAsWritten(c: Coord, data: Option<Snapshot>, ticks: seq<Tick>): Option<Snapshot>
    requires Ticks(ticks)
    decreases |ticks|
  {
    if |ticks| == 0 then data
    else
      var r := PollAsWritten(c, data, ticks[0].io, ticks[0].now, ticks[0].today);
      RunAsWritten(r.coord, NextData(data, r), ticks[1..])
  }

  /** Once the disconnected snapshot is the data, the code never publishes
      live data again: a poll whose reads fail publishes the disconnected
      snapshot once more, and one whose reads succeed raises and leaves it
      in place, whatever the device answers. */
  lemma {:induction false} OfflineStaysAsWritten(c: Coord, ticks: seq<Tick>)
    requires Ticks(ticks)
    ensures RunAsWritten(c, Some(Offline), ticks) == Some(Offline)
    decreases |ticks|
  {
    if |ticks| > 0 {
      var r := PollAsWritten(c, Some(Offline), ticks[0].io, ticks[0].now, ticks[0].today);
      assert NextData(Some(Offline), r) == Some(Offline);
      OfflineStaysAsWritten(r.coord, ticks[1..]);
    }
  }

  /** With the corrections, the disconnected snapshot is left on the first
      poll whose reads succeed. */
  lemma OfflineLeftCorrected(c: Coord, io: PollReads, now: int, today: int)
    requires |io.attempts| >= RECONNECT_RETRIES
    requires IsConnected(c.api) && io.target.Bytes? && |io.target.data| >= 2
    ensures PollCorrected(c, Some(Offline), io, now, today).snapshot.Live?
    ensures PollAsWritten(c, Some(Offline), io, now, today).UpdateFailed?
  {
  }
}
