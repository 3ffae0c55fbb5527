/**
 The supervisor's crash breaker and its restart back-off: five kept crash times decide as all
 crash times would, and the growing, never reset pauses leave the breaker only two chances.
 */
module CrashBreaker {
  const BACKOFF_MIN := 2
  const BACKOFF_MAX := 30
  const CRASH_WINDOW := 60
  const CRASH_LIMIT := 5

  /** How many of the times lie at most 60 seconds back. */
  function Recent(times: seq<int>, now: int): (n: nat)
    ensures n <= |times|
  {
    if times == [] then 0
    else Recent(times[..|times| - 1], now) + if now - times[|times| - 1] <= CRASH_WINDOW then 1 else 0
  }

  /** Crash times so far, up to `now`. */
  predicate History(times: seq<int>, now: int) {
    && (forall i, j :: 0 <= i < j < |times| ==> times[i] <= times[j])
    && forall i :: 0 <= i < |times| ==> times[i] <= now
  }

  lemma {:induction false} RecentAll(times: seq<int>, now: int)
    requires forall i :: 0 <= i < |times| ==> now - times[i] <= CRASH_WINDOW
    ensures Recent(times, now) == |times|
  {
    if times != [] { RecentAll(times[..|times| - 1], now); }
  }

  lemma {:induction false} RecentNone(times: seq<int>, now: int)
    requires forall i :: 0 <= i < |times| ==> now - times[i] > CRASH_WINDOW
    ensures Recent(times, now) == 0
  {
    if times != [] { RecentNone(times[..|times| - 1], now); }
  }

  /** At least `n` crashes are recent exactly when the `n`-th last one is. */
  lemma {:induction false} AtLeast(times: seq<int>, now: int, n: nat)
    requires History(times, now) && n > 0
    ensures Recent(times, now) >= n <==> |times| >= n && now - times[|times| - n] <= CRASH_WINDOW
  {
    if times != [] {
      var front, last := times[..|times| - 1], times[|times| - 1];
      if now - last > CRASH_WINDOW {
        RecentNone(front, now);
      } else if n == 1 {
      } else {
        AtLeast(front, now, n - 1);
      }
    }
  }

  lemma RecentSnoc(times: seq<int>, time: int, now: int)
    ensures Recent(times + [time], now) == Recent(times, now) + if now - time <= CRASH_WINDOW then 1 else 0
  {
    assert (times + [time])[..|times|] == times;
  }

  lemma HistorySnoc(times: seq<int>, now: int)
    requires History(times, now)
    ensures History(times + [now], now)
  {
  }

  class CrashTracker {
    const timestamps: array<int>
    var count: nat
    /** Every crash so far. */
    ghost var log: seq<int>

    ghost predicate Valid()
      reads this, timestamps
    {
      && timestamps.Length == CRASH_LIMIT
      && count == (if |log| < CRASH_LIMIT then |log| else CRASH_LIMIT)
      && timestamps[..count] == log[|log| - count..]
    }

    constructor ()
      ensures Valid() && fresh(timestamps) && log == []
    {
      timestamps := new int[CRASH_LIMIT](_ => 0);
      count := 0;
      log := [];
    }

    method CountRecent(now: int) returns (recent: nat)
      requires Valid()
      ensures recent == Recent(timestamps[..count], now)
    {
      hide Recent;
      assert Recent(timestamps[..0], now) == 0 by { RecentNone(timestamps[..0], now); }
      recent := 0;
      var i := 0;
      while i < count
        invariant 0 <= i <= count
        invariant recent == Recent(timestamps[..i], now)
      {
        assert timestamps[..i + 1] == timestamps[..i] + [timestamps[i]];
        RecentSnoc(timestamps[..i], timestamps[i], now);
        if now - timestamps[i] <= CRASH_WINDOW { recent := recent + 1; }
        i := i + 1;
      }
    }

    /** The newest time goes last; when all five places are taken the oldest goes. */
    method Keep(now: int)
      requires Valid()
      modifies this, timestamps
      ensures Valid() && log == old(log) + [now]
    {
      ghost var kept := timestamps[..count];
      if count < CRASH_LIMIT {
        timestamps[count] := now;
        count := count + 1;
        assert timestamps[..count] == kept + [now];
      } else {
        var i := 0;
        while i < CRASH_LIMIT - 1
          invariant 0 <= i <= CRASH_LIMIT - 1 && count == old(count) && log == old(log)
          invariant forall k :: 0 <= k < i ==> timestamps[k] == kept[k + 1]
          invariant forall k :: i <= k < CRASH_LIMIT ==> timestamps[k] == kept[k]
        {
          timestamps[i] := timestamps[i + 1];
          i := i + 1;
        }
        timestamps[CRASH_LIMIT - 1] := now;
        assert timestamps[..count] == kept[1..] + [now];
      }
      log := log + [now];
    }

    /** Records a crash; the five kept times answer for all of them. */
    method Record(now: int) returns (tripped: bool)
      requires Valid() && History(log, now)
      modifies this, timestamps
      ensures Valid() && log == old(log) + [now] && History(log, now)
      ensures tripped == (Recent(log, now) >= CRASH_LIMIT)
    {
      RecentSnoc(log, now, now);
      KeptDecide(log, timestamps[..count], now);
      HistorySnoc(log, now);
      hide Recent, History;
      var recent := CountRecent(now);
      Keep(now);
      recent := recent + 1;
      return recent >= CRASH_LIMIT;
    }
  }

  /** The last five times hold enough recent ones exactly when all times do. */
  lemma KeptDecide(log: seq<int>, kept: seq<int>, now: int)
    requires History(log, now) && |kept| <= |log| && kept == log[|log| - |kept|..]
    requires |kept| == if |log| < CRASH_LIMIT then |log| else CRASH_LIMIT
    ensures Recent(kept, now) >= CRASH_LIMIT - 1 <==> Recent(log, now) >= CRASH_LIMIT - 1
  {
    AtLeast(log, now, CRASH_LIMIT - 1);
    AtLeast(kept, now, CRASH_LIMIT - 1);
  }

  // ----- The supervise loop

  /** What happens to one round of the loop; a delay counts from the end of the pause before it. */
  datatype Event = ForkFailed(delay: nat) | Crash(uptime: nat) | CleanExit | WaitError | Shutdown

  datatype State = State(clock: int, backoff: nat, crashes: seq<int>)

  datatype Outcome = Going(st: State) | Stopped(st: State) | Tripped(st: State)

  function Doubled(backoff: nat): nat { if backoff < BACKOFF_MAX then backoff * 2 else backoff }

  function Started(start: int): State { State(start, BACKOFF_MIN, []) }

  /** One round of the loop, judged by all crashes so far. */
  function Next(st: State, event: Event): Outcome {
    match event
    case ForkFailed(delay) => Going(State(st.clock + delay + st.backoff, Doubled(st.backoff), st.crashes))
    case Crash(uptime) =>
      var now := st.clock + uptime;
      var crashes := st.crashes + [now];
      if Recent(crashes, now) >= CRASH_LIMIT then Tripped(State(now, st.backoff, crashes))
      else Going(State(now + st.backoff, Doubled(st.backoff), crashes))
    case _ => Stopped(st)
  }

  function Supervise(st: State, events: seq<Event>): Outcome
    decreases |events|
  {
    if events == [] then Going(st)
    else
      var o := Next(st, events[0]);
      if o.Going? then Supervise(o.st, events[1..]) else o
  }

  datatype Code = GoingOn | ReturnZero | ReturnOne

  function Finished(code: Code, st: State): Outcome {
    match code
    case GoingOn => Going(st)
    case ReturnZero => Stopped(st)
    case ReturnOne => Tripped(st)
  }

  lemma Round(st: State, events: seq<Event>, i: nat, code: Code, last: State)
    requires i < |events| && Finished(code, last) == Next(st, events[i])
    ensures Supervise(st, events[i..]) == if code.GoingOn? then Supervise(last, events[i + 1..]) else Finished(code, last)
  {
    assert events[i..][0] == events[i] && events[i..][1..] == events[i + 1..];
    hide Next;
  }

  lemma NoMoreRounds(st: State, events: seq<Event>)
    ensures Supervise(st, events[|events|..]) == Finished(GoingOn, st)
  {
  }

  lemma HistoryEmpty(now: int)
    ensures History([], now)
  {
  }

  lemma NextCrash(st: State, uptime: nat)
    requires History(st.crashes, st.clock)
    ensures History(st.crashes, st.clock + uptime)
    ensures var o := Next(st, Crash(uptime));
            History(o.st.crashes, o.st.clock)
  {
    hide Recent;
  }

  lemma NextFork(st: State, delay: nat)
    requires History(st.crashes, st.clock)
    ensures History(st.crashes, st.clock + delay + st.backoff)
  {
  }

  /** The loop is still going when a clean exit, a failed wait or a shutdown comes. */
  predicate Ends(st: State, events: seq<Event>, i: nat)
    requires i < |events|
  {
    (events[i] == CleanExit || events[i] == WaitError || events[i] == Shutdown) && Supervise(st, events[..i]).Going?
  }

  ghost predicate EndsQuietly(st: State, events: seq<Event>) { exists i :: 0 <= i < |events| && Ends(st, events, i) }

  /** Only they stop the loop without tripping the breaker, and whatever comes after them does not count. */
  lemma {:induction false} StoppedExactly(st: State, events: seq<Event>)
    ensures Supervise(st, events).Stopped? <==> EndsQuietly(st, events)
    ensures forall i :: 0 <= i < |events| && Ends(st, events, i) ==> Supervise(st, events) == Stopped(Supervise(st, events[..i]).st)
    decreases |events|
  {
    if events != [] {
      var o, rest := Next(st, events[0]), events[1..];
      if o.Going? { StoppedExactly(o.st, rest); }
      forall i | 0 <= i < |events|
        ensures Ends(st, events, i) <==> if i == 0 then o.Stopped? else o.Going? && Ends(o.st, rest, i - 1)
        ensures i > 0 && o.Going? ==> Supervise(st, events[..i]) == Supervise(o.st, rest[..i - 1])
      {
        if i > 0 { assert events[..i][0] == events[0] && events[..i][1..] == rest[..i - 1]; }
      }
      if o.Stopped? { assert Ends(st, events, 0); }
      if i :| o.Going? && 0 <= i < |rest| && Ends(o.st, rest, i) { assert Ends(st, events, i + 1); }
    }
  }

  lemma ReturnsZero(st: State, events: seq<Event>, code: Code, last: State)
    requires Supervise(st, events) == Finished(code, last)
    ensures Supervise(st, events).st == last
    ensures code == ReturnZero <==> EndsQuietly(st, events)
  {
    StoppedExactly(st, events);
  }

  /** One round: a crash goes through the tracker, and only one that trips it ends the loop with 1. */
  method Restart(tracker: CrashTracker, event: Event, since: int, pause: nat)
    returns (code: Code, clock: int, backoff: nat)
    requires tracker.Valid() && History(tracker.log, since)
    modifies tracker, tracker.timestamps
    ensures tracker.Valid() && History(tracker.log, clock)
    ensures Finished(code, State(clock, backoff, tracker.log)) == Next(State(since, pause, old(tracker.log)), event)
  {
    hide Recent, History, CrashTracker.Valid;
    clock, backoff := since, pause;
    match event
    case ForkFailed(delay) =>
      NextFork(State(since, pause, tracker.log), delay);
      clock := clock + delay + backoff;
      if backoff < BACKOFF_MAX { backoff := backoff * 2; }
      code := GoingOn;
    case Crash(uptime) =>
      NextCrash(State(since, pause, tracker.log), uptime);
      clock := clock + uptime;
      var tripped := tracker.Record(clock);
      if tripped {
        code := ReturnOne;
      } else {
        clock := clock + backoff;
        if backoff < BACKOFF_MAX { backoff := backoff * 2; }
        code := GoingOn;
      }
    case _ => code := ReturnZero;
  }

  /** The loop with its tracker ends as the loop that remembers every crash, and with code 0 exactly
      when an exit that is not a crash comes while it is still going. */
  method RunSuperviseLoop(start: int, events: seq<Event>) returns (code: Code, clock: int, backoff: nat)
    ensures var o := Supervise(Started(start), events);
            o == Finished(code, State(clock, backoff, o.st.crashes))
    ensures code == ReturnZero <==> EndsQuietly(Started(start), events)
  {
    hide Recent, History, CrashTracker.Valid, Supervise, Next, Doubled, Finished, EndsQuietly;
    HistoryEmpty(start);
    var tracker := new CrashTracker();
    clock, backoff := start, BACKOFF_MIN;
    code := GoingOn;
    var i := 0;
    assert events[0..] == events;
    while i < |events|
      invariant 0 <= i <= |events| && code.GoingOn?
      invariant tracker.Valid() && fresh(tracker) && fresh(tracker.timestamps) && History(tracker.log, clock)
      invariant Supervise(State(clock, backoff, tracker.log), events[i..]) == Supervise(Started(start), events)
    {
      ghost var st := State(clock, backoff, tracker.log);
      code, clock, backoff := Restart(tracker, events[i], clock, backoff);
      Round(st, events, i, code, State(clock, backoff, tracker.log));
      if !code.GoingOn? { break; }
      i := i + 1;
    }
    if code.GoingOn? { NoMoreRounds(State(clock, backoff, tracker.log), events); }
    ReturnsZero(Started(start), events, code, State(clock, backoff, tracker.log));
  }

  // ----- When the breaker can trip

  /** The pause after `n` earlier ones: 2, 4, 8, 16 and then 32 for ever, above the stated limit of 30. */
  function Pause(n: nat): nat {
    if n == 0 then BACKOFF_MIN else Doubled(Pause(n - 1))
  }

  function Paused(n: nat): nat {
    if n == 0 then 0 else Paused(n - 1) + Pause(n - 1)
  }

  lemma {:induction false} PauseValue(n: nat)
    ensures Pause(n) == if n == 0 then 2 else if n == 1 then 4 else if n == 2 then 8 else if n == 3 then 16 else 32
  {
    if n > 0 { PauseValue(n - 1); }
  }

  lemma {:induction false} PausedGrows(m: nat, n: nat)
    requires m <= n
    ensures Paused(m) <= Paused(n)
  {
    if m < n { PausedGrows(m, n - 1); }
  }

  /** Four pauses in a row outlast the window, save the first four and the next. */
  lemma FourPauses(p: nat)
    ensures Paused(p + 4) - Paused(p) <= CRASH_WINDOW <==> p <= 1
  {
    PauseValue(p);
    PauseValue(p + 1);
    PauseValue(p + 2);
    PauseValue(p + 3);
    assert Paused(p + 1) == Paused(p) + Pause(p);
    assert Paused(p + 2) == Paused(p + 1) + Pause(p + 1);
    assert Paused(p + 3) == Paused(p + 2) + Pause(p + 2);
    assert Paused(p + 4) == Paused(p + 3) + Pause(p + 3);
  }

  /** `m` pauses lie behind; `before[i]` of them came before crash `i`, and at least one after each. */
  predicate Paced(st: State, m: nat, before: seq<nat>) {
    && st.backoff == Pause(m) && |before| == |st.crashes| && History(st.crashes, st.clock)
    && (forall i :: 0 <= i < |before| ==> before[i] + (|before| - i) <= m)
    && (forall i :: 0 <= i < |before| ==> st.clock - st.crashes[i] >= Paused(m) - Paused(before[i]))
  }

  lemma {:induction false} TripsEarly(st: State, m: nat, before: seq<nat>, first: nat, events: seq<Event>)
    requires Paced(st, m, before) && first <= m
    requires forall i :: 0 <= i < |before| ==> first + i <= before[i]
    requires first + |before| <= m
    ensures var o := Supervise(st, events); o.Tripped? ==> CRASH_LIMIT <= |o.st.crashes| <= CRASH_LIMIT + 1 - first
    decreases |events|
  {
    hide Pause, Paused, Recent;
    if events != [] {
      match events[0]
      case ForkFailed(delay) =>
        PacedFork(st, m, before, delay);
        TripsEarly(State(st.clock + delay + st.backoff, Doubled(st.backoff), st.crashes), m + 1, before, first, events[1..]);
      case Crash(uptime) =>
        var now := st.clock + uptime;
        var crashes := st.crashes + [now];
        PacedCrash(st, m, before, uptime);
        if Recent(crashes, now) >= CRASH_LIMIT {
          TripBound(st, m, before, first, uptime);
        } else {
          TripsEarly(State(now + st.backoff, Doubled(st.backoff), crashes), m + 1, before + [m], first, events[1..]);
        }
      case _ =>
    }
  }

  lemma PacedFork(st: State, m: nat, before: seq<nat>, delay: nat)
    requires Paced(st, m, before)
    ensures Paced(State(st.clock + delay + st.backoff, Doubled(st.backoff), st.crashes), m + 1, before)
  {
    assert Paused(m + 1) == Paused(m) + Pause(m) && Pause(m + 1) == Doubled(Pause(m));
    hide Pause, Paused;
  }

  lemma PacedCrash(st: State, m: nat, before: seq<nat>, uptime: nat)
    requires Paced(st, m, before)
    ensures Paced(State(st.clock + uptime + st.backoff, Doubled(st.backoff), st.crashes + [st.clock + uptime]),
                  m + 1, before + [m])
  {
    assert Paused(m + 1) == Paused(m) + Pause(m) && Pause(m + 1) == Doubled(Pause(m));
    hide Pause, Paused;
  }

  lemma TripBound(st: State, m: nat, before: seq<nat>, first: nat, uptime: nat)
    requires Paced(st, m, before)
    requires forall i :: 0 <= i < |before| ==> first + i <= before[i]
    requires Recent(st.crashes + [st.clock + uptime], st.clock + uptime) >= CRASH_LIMIT
    ensures CRASH_LIMIT <= |st.crashes| + 1 <= CRASH_LIMIT + 1 - first
  {
    hide Pause, Paused, Recent;
    var now := st.clock + uptime;
    var crashes := st.crashes + [now];
    AtLeast(crashes, now, CRASH_LIMIT);
    var i := |crashes| - CRASH_LIMIT;
    var p := before[i];
    assert crashes[i] == st.crashes[i];
    PausedGrows(p + 4, m);
    FourPauses(p);
  }

  /** A run can trip the breaker only at its fifth or sixth crash. */
  lemma TripsAtFifthOrSixth(start: int, events: seq<Event>)
    ensures var o := Supervise(Started(start), events); o.Tripped? ==> |o.st.crashes| in {5, 6}
  {
    TripsEarly(Started(start), 0, [], 0, events);
  }

  /** Once two failed forks have come before the first crash, nothing trips it any more. */
  lemma TwoForkFailuresDisarm(start: int, d: nat, e: nat, events: seq<Event>)
    ensures !Supervise(Started(start), [ForkFailed(d), ForkFailed(e)] + events).Tripped?
  {
    var all := [ForkFailed(d), ForkFailed(e)] + events;
    var st := State(start + d + 2 + e + 4, 8, []);
    assert all[1..] == [ForkFailed(e)] + events && all[1..][1..] == events;
    assert Supervise(Started(start), all) == Supervise(State(start + d + 2, 4, []), all[1..]);
    assert Supervise(State(start + d + 2, 4, []), all[1..]) == Supervise(st, events);
    PauseValue(2);
    TripsEarly(st, 2, [], 2, events);
  }

  // ----- Exactly when crashes alone trip it

  function Crashes(uptimes: seq<nat>): (events: seq<Event>)
    ensures |events| == |uptimes|
    ensures forall i :: 0 <= i < |uptimes| ==> events[i] == Crash(uptimes[i])
  {
    if uptimes == [] then [] else [Crash(uptimes[0])] + Crashes(uptimes[1..])
  }

  lemma CrashRound(st: State, uptimes: seq<nat>)
    requires uptimes != []
    ensures var o := Next(st, Crash(uptimes[0]));
            Supervise(st, Crashes(uptimes)) == if o.Going? then Supervise(o.st, Crashes(uptimes[1..])) else o
  {
    hide Next;
    assert Crashes(uptimes)[1..] == Crashes(uptimes[1..]);
  }

  lemma PushHistory(times: seq<int>, before: int, now: int, later: int)
    requires History(times, before) && before <= now <= later
    ensures History(times + [now], now) && History(times + [now], later)
  {
  }

  lemma EarlyCrash(st: State, uptimes: seq<nat>, now: int, crashes: seq<int>, next: State)
    requires History(st.crashes, st.clock) && uptimes != [] && |st.crashes| < CRASH_LIMIT - 1
    requires now == st.clock + uptimes[0] && crashes == st.crashes + [now]
    requires next == State(now + st.backoff, Doubled(st.backoff), crashes)
    ensures History(crashes, next.clock) && Supervise(st, Crashes(uptimes)) == Supervise(next, Crashes(uptimes[1..]))
  {
    hide Supervise, Crashes, Recent, History;
    CrashRound(st, uptimes);
    PushHistory(st.crashes, st.clock, now, next.clock);
    AtLeast(crashes, now, CRASH_LIMIT);
  }

  lemma LateCrash(st: State, uptimes: seq<nat>, now: int, crashes: seq<int>, next: State)
    requires History(st.crashes, st.clock) && uptimes != [] && |st.crashes| >= CRASH_LIMIT - 1
    requires now == st.clock + uptimes[0] && crashes == st.crashes + [now]
    requires next == State(now + st.backoff, Doubled(st.backoff), crashes)
    ensures History(crashes, next.clock)
    ensures if now - crashes[|crashes| - CRASH_LIMIT] <= CRASH_WINDOW then Supervise(st, Crashes(uptimes)).Tripped?
            else Supervise(st, Crashes(uptimes)) == Supervise(next, Crashes(uptimes[1..]))
  {
    hide Supervise, Crashes, Recent, History;
    CrashRound(st, uptimes);
    PushHistory(st.crashes, st.clock, now, next.clock);
    AtLeast(crashes, now, CRASH_LIMIT);
  }

  lemma {:induction false} CrashesGrow(st: State, events: seq<Event>)
    ensures var o := Supervise(st, events); o.Tripped? ==> |o.st.crashes| > |st.crashes|
    decreases |events|
  {
    hide Recent;
    if events != [] && Next(st, events[0]).Going? { CrashesGrow(Next(st, events[0]).st, events[1..]); }
  }

  lemma TwoCrashes(start: int, us: seq<nat>, t1: int, t2: int)
    requires |us| >= 2 && t1 == start + us[0] && t2 == t1 + 2 + us[1]
    ensures History([t1, t2], t2 + 4)
    ensures Supervise(Started(start), Crashes(us)) == Supervise(State(t2 + 4, 8, [t1, t2]), Crashes(us[2..]))
  {
    hide Recent, Supervise, Crashes, History;
    HistoryEmpty(start);
    var s1 := State(t1 + 2, 4, [t1]);
    EarlyCrash(Started(start), us, t1, [t1], s1);
    EarlyCrash(s1, us[1..], t2, [t1, t2], State(t2 + 4, 8, [t1, t2]));
    assert us[1..][1..] == us[2..];
  }

  lemma TwoMoreCrashes(t1: int, t2: int, t3: int, t4: int, us: seq<nat>)
    requires |us| >= 2 && History([t1, t2], t2 + 4) && t3 == t2 + 4 + us[0] && t4 == t3 + 8 + us[1]
    ensures History([t1, t2, t3, t4], t4 + 16)
    ensures Supervise(State(t2 + 4, 8, [t1, t2]), Crashes(us))
            == Supervise(State(t4 + 16, 32, [t1, t2, t3, t4]), Crashes(us[2..]))
  {
    hide Recent, Supervise, Crashes, History;
    var s3 := State(t3 + 8, 16, [t1, t2, t3]);
    EarlyCrash(State(t2 + 4, 8, [t1, t2]), us, t3, [t1, t2, t3], s3);
    EarlyCrash(s3, us[1..], t4, [t1, t2, t3, t4], State(t4 + 16, 32, [t1, t2, t3, t4]));
    assert us[1..][1..] == us[2..];
  }

  /** Too few crashes never trip the breaker. */
  lemma {:induction false} AtMostAsMany(st: State, events: seq<Event>)
    ensures |Supervise(st, events).st.crashes| <= |st.crashes| + |events|
    decreases |events|
  {
    hide Recent;
    if events != [] && Next(st, events[0]).Going? { AtMostAsMany(Next(st, events[0]).st, events[1..]); }
  }

  /** A program that only crashes is stopped exactly when its second to fifth lives last 30
      seconds together, or its third to sixth last none: otherwise it is restarted for ever. */
  lemma TripsExactly(start: int, us: seq<nat>)
    ensures Supervise(Started(start), Crashes(us)).Tripped?
            <==> || (|us| >= 5 && us[1] + us[2] + us[3] + us[4] <= 30)
                 || (|us| >= 6 && us[2] == us[3] == us[4] == us[5] == 0)
  {
    hide Recent, Supervise, Crashes, History;
    TripsAtFifthOrSixth(start, Crashes(us));
    AtMostAsMany(Started(start), Crashes(us));
    if |us| >= 5 {
      var t1 := start + us[0];
      var t2 := t1 + 2 + us[1];
      var t3 := t2 + 4 + us[2];
      var t4 := t3 + 8 + us[3];
      TwoCrashes(start, us, t1, t2);
      TwoMoreCrashes(t1, t2, t3, t4, us[2..]);
      assert us[2..][2..] == us[4..];
      FifthAndSixth(t1, t2, t3, t4, t4 + 16 + us[4], us[4..], Supervise(Started(start), Crashes(us)));
    }
  }

  lemma NoCrashes(st: State, us: seq<nat>)
    requires us == []
    ensures Supervise(st, Crashes(us)) == Going(st)
  {
  }

  /** A sixth crash has to trip the breaker, or none will. */
  lemma SixthCrash(st: State, us: seq<nat>, t2: int, t6: int)
    requires us != [] && |st.crashes| == CRASH_LIMIT && st.crashes[1] == t2 && History(st.crashes, st.clock)
    requires t6 == st.clock + us[0]
    requires var o := Supervise(st, Crashes(us)); o.Tripped? ==> |o.st.crashes| <= 6
    ensures Supervise(st, Crashes(us)).Tripped? <==> t6 - t2 <= CRASH_WINDOW
  {
    hide Recent, Supervise, Crashes, History;
    var six := st.crashes + [t6];
    var last := State(t6 + st.backoff, Doubled(st.backoff), six);
    LateCrash(st, us, t6, six, last);
    CrashesGrow(last, Crashes(us[1..]));
  }

  lemma FifthAndSixth(t1: int, t2: int, t3: int, t4: int, t5: int, us: seq<nat>, o: Outcome)
    requires us != [] && t5 == t4 + 16 + us[0] && History([t1, t2, t3, t4], t4 + 16)
    requires o == Supervise(State(t4 + 16, 32, [t1, t2, t3, t4]), Crashes(us))
    requires o.Tripped? ==> |o.st.crashes| <= 6
    ensures o.Tripped? <==> t5 - t1 <= 60 || (|us| > 1 && t5 + 32 + us[1] - t2 <= 60)
  {
    var st := State(t5 + 32, 32, [t1, t2, t3, t4, t5]);
    hide Recent, Supervise, Crashes, History;
    FifthCrash(t1, t2, t3, t4, t5, us, st);
    if t5 - t1 > 60 { AfterFifth(st, us[1..], t2, o); }
  }

  lemma AfterFifth(st: State, us: seq<nat>, t2: int, o: Outcome)
    requires |st.crashes| == CRASH_LIMIT && st.crashes[1] == t2 && History(st.crashes, st.clock)
    requires o == Supervise(st, Crashes(us)) && (o.Tripped? ==> |o.st.crashes| <= 6)
    ensures o.Tripped? <==> |us| > 0 && st.clock + us[0] - t2 <= 60
  {
    hide Recent, Supervise, Crashes, History;
    if us == [] {
      NoCrashes(st, us);
    } else {
      SixthCrash(st, us, t2, st.clock + us[0]);
    }
  }

  lemma FifthCrash(t1: int, t2: int, t3: int, t4: int, t5: int, us: seq<nat>, next: State)
    requires us != [] && History([t1, t2, t3, t4], t4 + 16)
    requires t5 == t4 + 16 + us[0] && next == State(t5 + 32, 32, [t1, t2, t3, t4, t5])
    ensures History(next.crashes, next.clock)
    ensures if t5 - t1 <= 60 then Supervise(State(t4 + 16, 32, [t1, t2, t3, t4]), Crashes(us)).Tripped?
            else Supervise(State(t4 + 16, 32, [t1, t2, t3, t4]), Crashes(us)) == Supervise(next, Crashes(us[1..]))
  {
    hide Recent, Supervise, Crashes, History;
    LateCrash(State(t4 + 16, 32, [t1, t2, t3, t4]), us, t5, [t1, t2, t3, t4, t5], next);
  }
}
