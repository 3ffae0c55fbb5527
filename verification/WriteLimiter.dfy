/**
 The per-token write limiter: at most 60 writes in any 60 seconds, kept as a trimmed list of
 times per key, and the proof that it answers as the full log of accepted writes would.
 */
module WriteLimiter {
  import opened Bytes

  const WINDOW := 60
  const MAX_PER_WINDOW := 60
  const ENTRY_TTL := 600

  datatype WriteEntry = WriteEntry(timestamps: seq<int>, lastSeen: int)

  type Entries = map<string, WriteEntry>

  /** What is left of a list of times once the leading ones up to `cutoff` are gone. */
  function Trimmed(ts: seq<int>, cutoff: int): seq<int> {
    if ts == [] || ts[0] > cutoff then ts else Trimmed(ts[1..], cutoff)
  }

  function Recent(entries: Entries, key: string, now: int): seq<int> {
    if key in entries then Trimmed(entries[key].timestamps, now - WINDOW) else []
  }

  predicate Accepted(entries: Entries, key: string, now: int) {
    |Recent(entries, key, now)| < MAX_PER_WINDOW
  }

  function Checked(entries: Entries, key: string, now: int): Entries {
    var kept := Recent(entries, key, now);
    entries[key := WriteEntry(if |kept| < MAX_PER_WINDOW then kept + [now] else kept, now)]
  }

  function Collected(entries: Entries, now: int): Entries {
    map k | k in entries && now - entries[k].lastSeen <= ENTRY_TTL :: entries[k]
  }

  class WriteCounter {
    var entries: Entries

    constructor ()
      ensures entries == map[]
    {
      entries := map[];
    }

    method CheckAndIncr(key: string, now: int) returns (ok: bool)
      modifies this
      ensures ok == Accepted(old(entries), key, now)
      ensures entries == Checked(old(entries), key, now)
    {
      if key !in entries { entries := entries[key := WriteEntry([], now)]; }
      entries := entries[key := entries[key].(lastSeen := now)];

      var cutoff := now - WINDOW;
      var ts := entries[key].timestamps;
      assert ts[0..] == ts;
      var keepFrom: nat := 0;
      while keepFrom < |ts|
        invariant keepFrom <= |ts|
        invariant Trimmed(ts, cutoff) == Trimmed(ts[keepFrom..], cutoff)
      {
        if ts[keepFrom] > cutoff { break; }
        assert ts[keepFrom..][1..] == ts[keepFrom + 1..];
        keepFrom := keepFrom + 1;
      }
      assert Trimmed(ts, cutoff) == ts[keepFrom..];
      if keepFrom > 0 {
        entries := entries[key := entries[key].(timestamps := ts[keepFrom..])];
      }

      if |entries[key].timestamps| >= MAX_PER_WINDOW { return false; }
      entries := entries[key := entries[key].(timestamps := entries[key].timestamps + [now])];
      return true;
    }

    method Gc(now: int)
      modifies this
      ensures entries == Collected(old(entries), now)
    {
      var todo := entries.Keys;
      while todo != {}
        invariant todo <= old(entries).Keys
        invariant forall k :: k in entries <==>
                                (k in old(entries) && (k in todo || now - old(entries)[k].lastSeen <= ENTRY_TTL))
        invariant forall k :: k in entries ==> entries[k] == old(entries)[k]
      {
        var k :| k in todo;
        todo := todo - {k};
        if now - entries[k].lastSeen > ENTRY_TTL { entries := entries - {k}; }
      }
    }
  }

  /** A collection takes away the entries idle for more than ten minutes, and no others. */
  lemma IdleGo(entries: Entries, now: int, key: string)
    ensures key in Collected(entries, now) <==> key in entries && now - entries[key].lastSeen <= 600
    ensures key in Collected(entries, now) ==> Collected(entries, now)[key] == entries[key]
  {
  }

  // ----- The log

  /** The times of all writes accepted so far, by key. */
  type Log = map<string, seq<int>>

  function LogOf(log: Log, key: string): seq<int> { if key in log then log[key] else [] }

  /** How many of the times lie in `(lo, hi]`. */
  function CountIn(ts: seq<int>, lo: int, hi: int): (n: nat)
    ensures n <= |ts|
  {
    if ts == [] then 0
    else CountIn(ts[..|ts| - 1], lo, hi) + if lo < ts[|ts| - 1] <= hi then 1 else 0
  }

  /** How many lie in the window of 60 seconds that ends at `t`. */
  function InWindow(ts: seq<int>, t: int): nat { CountIn(ts, t - 60, t) }

  predicate Sorted(ts: seq<int>) {
    forall i, j :: 0 <= i < j < |ts| ==> ts[i] <= ts[j]
  }

  /** Any 61 accepted writes in a row span a whole window. */
  predicate Spaced(ts: seq<int>) {
    forall i :: 60 <= i < |ts| ==> ts[i - 60] <= ts[i] - 60
  }

  lemma {:induction false} CountTail(ts: seq<int>, lo: int, hi: int, k: nat)
    requires k <= |ts| && forall i :: 0 <= i < k ==> ts[i] <= lo
    ensures CountIn(ts, lo, hi) <= |ts| - k
    ensures (forall i :: k <= i < |ts| ==> lo < ts[i] <= hi) ==> CountIn(ts, lo, hi) == |ts| - k
  {
    if ts != [] {
      CountTail(ts[..|ts| - 1], lo, hi, if k < |ts| then k else k - 1);
    }
  }

  /** No window of 60 seconds, wherever it is placed, holds more than 60 accepted writes. */
  lemma {:induction false} WindowBound(ts: seq<int>, t: int)
    requires Sorted(ts) && Spaced(ts)
    ensures InWindow(ts, t) <= 60
  {
    if |ts| > MAX_PER_WINDOW {
      var last := ts[|ts| - 1];
      if last > t {
        WindowBound(ts[..|ts| - 1], t);
      } else {
        assert ts[|ts| - 1 - MAX_PER_WINDOW] <= last - WINDOW;
        CountTail(ts, t - WINDOW, t, |ts| - MAX_PER_WINDOW);
      }
    }
  }

  /** The list kept for a key is the end of its log, without only what no later window reaches. */
  predicate Follows(e: WriteEntry, log: seq<int>, now: int) {
    && e.lastSeen <= now
    && |e.timestamps| <= |log| && e.timestamps == log[|log| - |e.timestamps|..]
    && (forall i :: 0 <= i < |log| - |e.timestamps| ==> log[i] <= now - WINDOW)
    && (forall i :: 0 <= i < |log| ==> log[i] <= e.lastSeen)
  }

  /** A key without an entry has no accepted write in the window. */
  predicate KeyFollows(o: Option<WriteEntry>, log: seq<int>, now: int) {
    && Sorted(log) && Spaced(log) && (forall i :: 0 <= i < |log| ==> log[i] <= now)
    && match o
       case None => forall i :: 0 <= i < |log| ==> log[i] <= now - WINDOW
       case Some(e) => Follows(e, log, now)
  }

  function EntryOf(entries: Entries, key: string): Option<WriteEntry> {
    if key in entries then Some(entries[key]) else None
  }

  ghost predicate Refines(entries: Entries, log: Log, now: int) {
    forall k :: KeyFollows(EntryOf(entries, k), LogOf(log, k), now)
  }

  lemma {:induction false} TrimmedFacts(ts: seq<int>, cutoff: int)
    requires Sorted(ts)
    ensures var r := Trimmed(ts, cutoff);
            && |r| <= |ts| && r == ts[|ts| - |r|..]
            && (forall i :: 0 <= i < |ts| - |r| ==> ts[i] <= cutoff)
            && forall i :: |ts| - |r| <= i < |ts| ==> ts[i] > cutoff
  {
    if ts != [] && ts[0] <= cutoff {
      TrimmedFacts(ts[1..], cutoff);
      forall i | 0 < i < |ts| ensures ts[i] == ts[1..][i - 1] {}
    }
  }

  predicate IsWindow(r: seq<int>, log: seq<int>, now: int) {
    && |r| <= |log| && r == log[|log| - |r|..]
    && (forall i :: 0 <= i < |log| - |r| ==> log[i] <= now - WINDOW)
    && InWindow(log, now) == |r|
  }

  /** What is left after trimming is exactly the part of the log inside the window. */
  lemma TrimmedIsWindow(e: WriteEntry, log: seq<int>, now: int)
    requires KeyFollows(Some(e), log, now)
    ensures IsWindow(Trimmed(e.timestamps, now - WINDOW), log, now)
  {
    var ts := e.timestamps;
    var gone := |log| - |ts|;
    forall i | 0 <= i < |ts| ensures ts[i] == log[gone + i] {}
    TrimmedFacts(ts, now - WINDOW);
    var r := Trimmed(ts, now - WINDOW);
    WindowOfTail(ts, r, log, now);
  }

  lemma WindowOfTail(ts: seq<int>, r: seq<int>, log: seq<int>, now: int)
    requires |r| <= |ts| <= |log| && ts == log[|log| - |ts|..] && r == ts[|ts| - |r|..]
    requires forall i :: 0 <= i < |log| ==> log[i] <= now
    requires forall i :: 0 <= i < |log| - |ts| ==> log[i] <= now - WINDOW
    requires forall i :: 0 <= i < |ts| - |r| ==> ts[i] <= now - WINDOW
    requires forall i :: |ts| - |r| <= i < |ts| ==> ts[i] > now - WINDOW
    ensures IsWindow(r, log, now)
  {
    var gone := |log| - |ts|;
    assert r == log[|log| - |r|..];
    forall i | gone <= i < |log| ensures log[i] == ts[i - gone] {}
    CountTail(log, now - WINDOW, now, |log| - |r|);
  }

  lemma RecentIsWindow(entries: Entries, log: Log, key: string, now: int)
    requires Refines(entries, log, now)
    ensures IsWindow(Recent(entries, key, now), LogOf(log, key), now)
  {
    var l := LogOf(log, key);
    assert KeyFollows(EntryOf(entries, key), l, now);
    hide Refines;
    if key in entries {
      hide KeyFollows;
      TrimmedIsWindow(entries[key], l, now);
    } else {
      CountTail(l, now - WINDOW, now, |l|);
    }
  }

  /** A write is accepted exactly when fewer than 60 accepted ones lie in the last 60 seconds. */
  lemma AcceptsByLog(entries: Entries, log: Log, key: string, now: int)
    requires Refines(entries, log, now)
    ensures Accepted(entries, key, now) <==> InWindow(LogOf(log, key), now) < 60
  {
    RecentIsWindow(entries, log, key, now);
  }

  function Logged(log: Log, key: string, now: int): Log {
    if InWindow(LogOf(log, key), now) < 60 then log[key := LogOf(log, key) + [now]] else log
  }

  lemma CheckedRefines(entries: Entries, log: Log, key: string, now: int)
    requires Refines(entries, log, now)
    ensures Refines(Checked(entries, key, now), Logged(log, key, now), now)
  {
    RecentIsWindow(entries, log, key, now);
    var l := LogOf(log, key);
    assert KeyFollows(EntryOf(entries, key), l, now);
    var entries', log' := Checked(entries, key, now), Logged(log, key, now);
    var r := Recent(entries, key, now);
    assert LogOf(log', key) == if |r| < MAX_PER_WINDOW then l + [now] else l;
    KeyChecked(r, l, now);
    hide KeyFollows, IsWindow, InWindow, Recent;
    forall k ensures KeyFollows(EntryOf(entries', k), LogOf(log', k), now) {
      if k != key { assert KeyFollows(EntryOf(entries, k), LogOf(log, k), now); }
    }
  }

  lemma KeyChecked(r: seq<int>, l: seq<int>, now: int)
    requires IsWindow(r, l, now) && Sorted(l) && Spaced(l) && forall i :: 0 <= i < |l| ==> l[i] <= now
    ensures |r| < MAX_PER_WINDOW ==> KeyFollows(Some(WriteEntry(r + [now], now)), l + [now], now)
    ensures KeyFollows(Some(WriteEntry(r, now)), l, now)
  {
    hide InWindow;
    if |r| < MAX_PER_WINDOW {
      SpacedSnoc(l, now, |l| - |r|);
      assert r + [now] == (l + [now])[|l| - |r|..];
    }
  }

  lemma SpacedSnoc(l: seq<int>, now: int, k: nat)
    requires Sorted(l) && Spaced(l) && k <= |l| < k + MAX_PER_WINDOW
    requires forall i :: 0 <= i < |l| ==> l[i] <= now
    requires forall i :: 0 <= i < k ==> l[i] <= now - WINDOW
    ensures Sorted(l + [now]) && Spaced(l + [now])
  {
    var m := l + [now];
    forall i | MAX_PER_WINDOW <= i < |m| ensures m[i - MAX_PER_WINDOW] <= m[i] - WINDOW {
      assert m[i - MAX_PER_WINDOW] == l[i - MAX_PER_WINDOW];
      if i < |l| { assert m[i] == l[i]; }
    }
  }

  lemma CollectedRefines(entries: Entries, log: Log, now: int)
    requires Refines(entries, log, now)
    ensures Refines(Collected(entries, now), log, now)
  {
    forall k ensures KeyFollows(EntryOf(Collected(entries, now), k), LogOf(log, k), now) {
      assert KeyFollows(EntryOf(entries, k), LogOf(log, k), now);
    }
  }

  lemma LaterRefines(entries: Entries, log: Log, now: int, later: int)
    requires Refines(entries, log, now) && now <= later
    ensures Refines(entries, log, later)
  {
    forall k ensures KeyFollows(EntryOf(entries, k), LogOf(log, k), later) {
      assert KeyFollows(EntryOf(entries, k), LogOf(log, k), now);
    }
  }

  // ----- Whole runs

  datatype Event = Write(key: string, now: int) | Gc(now: int)

  predicate Timed(events: seq<Event>, from: int) {
    events == [] || (from <= events[0].now && Timed(events[1..], events[0].now))
  }

  /** The answers the limiter gives to the writes of a run. */
  function Answers(entries: Entries, events: seq<Event>): seq<bool>
    decreases |events|
  {
    if events == [] then []
    else match events[0]
      case Write(key, now) => [Accepted(entries, key, now)] + Answers(Checked(entries, key, now), events[1..])
      case Gc(now) => Answers(Collected(entries, now), events[1..])
  }

  /** The answers of a limiter that keeps every accepted write for ever and is never collected. */
  function LogAnswers(log: Log, events: seq<Event>): seq<bool>
    decreases |events|
  {
    if events == [] then []
    else match events[0]
      case Write(key, now) =>
        [InWindow(LogOf(log, key), now) < MAX_PER_WINDOW] + LogAnswers(Logged(log, key, now), events[1..])
      case Gc(_) => LogAnswers(log, events[1..])
  }

  /** The accepted writes at the end of a run. */
  function FinalLog(log: Log, events: seq<Event>): Log
    decreases |events|
  {
    if events == [] then log
    else FinalLog(if events[0].Write? then Logged(log, events[0].key, events[0].now) else log, events[1..])
  }

  function WritesOf(events: seq<Event>): seq<Event> {
    if events == [] then []
    else (if events[0].Write? then [events[0]] else []) + WritesOf(events[1..])
  }

  ghost predicate WindowsBounded(log: Log) {
    forall k, t :: InWindow(LogOf(log, k), t) <= MAX_PER_WINDOW
  }

  lemma RefinesBounded(entries: Entries, log: Log, now: int)
    requires Refines(entries, log, now)
    ensures WindowsBounded(log)
  {
    forall k, t ensures InWindow(LogOf(log, k), t) <= MAX_PER_WINDOW {
      assert KeyFollows(EntryOf(entries, k), LogOf(log, k), now);
      WindowBound(LogOf(log, k), t);
    }
  }

  /** Over any run the limiter answers as the full log does, and no 60 seconds ever hold more
      than 60 accepted writes of a key. */
  lemma {:induction false} RunFollowsLog(entries: Entries, log: Log, events: seq<Event>, from: int)
    requires Refines(entries, log, from) && Timed(events, from)
    ensures Answers(entries, events) == LogAnswers(log, events)
    ensures WindowsBounded(FinalLog(log, events))
    decreases |events|
  {
    hide Refines, Checked, Collected, Logged, Accepted, InWindow, WindowsBounded, LogOf;
    if events == [] {
      RefinesBounded(entries, log, from);
    } else {
      var now := events[0].now;
      LaterRefines(entries, log, from, now);
      match events[0]
      case Write(key, _) =>
        AcceptsByLog(entries, log, key, now);
        CheckedRefines(entries, log, key, now);
        RunFollowsLog(Checked(entries, key, now), Logged(log, key, now), events[1..], now);
      case Gc(_) =>
        CollectedRefines(entries, log, now);
        RunFollowsLog(Collected(entries, now), log, events[1..], now);
    }
  }

  lemma {:induction false} LogIgnoresGc(log: Log, events: seq<Event>)
    ensures LogAnswers(log, events) == LogAnswers(log, WritesOf(events))
    decreases |events|
  {
    hide Logged, InWindow;
    if events != [] {
      var rest := WritesOf(events[1..]);
      if events[0].Write? {
        LogIgnoresGc(Logged(log, events[0].key, events[0].now), events[1..]);
        assert WritesOf(events) == [events[0]] + rest;
        assert ([events[0]] + rest)[1..] == rest;
      } else {
        LogIgnoresGc(log, events[1..]);
        assert WritesOf(events) == rest;
      }
    }
  }

  lemma {:induction false} TimedWrites(events: seq<Event>, from: int)
    requires Timed(events, from)
    ensures Timed(WritesOf(events), from)
    decreases |events|
  {
    if events != [] {
      TimedWrites(events[1..], events[0].now);
      var rest := WritesOf(events[1..]);
      if events[0].Write? {
        assert WritesOf(events) == [events[0]] + rest;
        assert ([events[0]] + rest)[1..] == rest;
      } else {
        assert WritesOf(events) == rest;
      }
    }
  }

  /** Collecting never changes a later answer: a run answers the same with every collection taken out. */
  lemma CollectionIsInvisible(events: seq<Event>, from: int)
    requires Timed(events, from)
    ensures Answers(map[], events) == Answers(map[], WritesOf(events))
  {
    assert Refines(map[], map[], from);
    RunFollowsLog(map[], map[], events, from);
    TimedWrites(events, from);
    RunFollowsLog(map[], map[], WritesOf(events), from);
    LogIgnoresGc(map[], events);
  }
}
