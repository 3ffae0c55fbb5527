/**
 Whole runs of the rate limiter: a PIN lock outlives everything but its own reset, the list
 stays in last-seen order, and the buckets bound what is admitted.
 */
module RateLimiterRuns {
  import opened DistinctLists
  import opened RateLimiter

  datatype Op = CheckPin(ip: Ip) | FailPin(ip: Ip) | ResetPin(ip: Ip) | Unauth(ip: Ip) | Gc
  datatype Event = Event(op: Op, now: int)

  function After(l: Limiter, op: Op, now: int): Limiter
    requires Linked(l)
  {
    match op
    case CheckPin(ip) => PinChecked(l, ip, now).l
    case FailPin(ip) => PinFailed(l, ip, now).l
    case ResetPin(ip) => PinReset(l, ip)
    case Unauth(ip) => UnauthChecked(l, ip, now).l
    case Gc => Collected(l, now)
  }

  lemma AfterLinked(l: Limiter, op: Op, now: int)
    requires Linked(l)
    ensures Linked(After(l, op, now))
  {
    hide Linked, Opened, Collected;
    match op
    case CheckPin(ip) => OpenedLinked(l, ip, now);
    case FailPin(ip) => FailedLinked(l, ip, now);
    case ResetPin(ip) => if ip in l.entries { WithLinked(l, ip); }
    case Unauth(ip) => UnauthLinked(l, ip, now);
    case Gc => CollectedLinked(l, now);
  }

  lemma FailedLinked(l: Limiter, ip: Ip, now: int)
    requires Linked(l)
    ensures Linked(PinFailed(l, ip, now).l)
  {
    hide Linked, Opened;
    OpenedLinked(l, ip, now);
    var o := Opened(l, ip, now);
    if o.Some? { WithLinked(o.value, ip); }
  }

  lemma UnauthLinked(l: Limiter, ip: Ip, now: int)
    requires Linked(l)
    ensures Linked(UnauthChecked(l, ip, now).l)
  {
    hide Linked, Opened;
    OpenedLinked(l, ip, now);
    WithShared(l);
    var o := Opened(l, ip, now);
    if o.Some? { WithLinked(o.value, ip); }
  }

  /** The state a run of operations leaves. */
  function Run(l: Limiter, events: seq<Event>): (m: Limiter)
    requires Linked(l)
    ensures Linked(m)
    decreases |events|
  {
    if events == [] then l
    else
      AfterLinked(l, events[0].op, events[0].now);
      Run(After(l, events[0].op, events[0].now), events[1..])
  }

  // ----- A lock holds

  predicate LockedUntil(l: Limiter, ip: Ip, t: int) {
    ip in l.entries && l.entries[ip].pinLockTS >= t
  }

  /** Opening any address keeps a lock that is still running: it is never the victim. */
  lemma OpenKeepsLock(l: Limiter, other: Ip, now: int, ip: Ip, t: int)
    requires Linked(l) && LockedUntil(l, ip, t) && now < t
    ensures var o := Opened(l, other, now);
            o.Some? ==>
              && LockedUntil(o.value, ip, t)
              && (other == ip ==> o.value.entries[ip].pinLockTS == l.entries[ip].pinLockTS)
    ensures other == ip ==> Opened(l, other, now).Some?
  {
  }

  lemma StepKeepsLock(l: Limiter, op: Op, now: int, ip: Ip, t: int)
    requires Linked(l) && LockedUntil(l, ip, t)
    requires now < t <= now + PIN_LOCK && op != ResetPin(ip)
    ensures LockedUntil(After(l, op, now), ip, t)
  {
    hide Linked, Opened;
    match op
    case CheckPin(other) => OpenKeepsLock(l, other, now, ip, t);
    case FailPin(other) => OpenKeepsLock(l, other, now, ip, t);
    case ResetPin(other) =>
    case Unauth(other) => OpenKeepsLock(l, other, now, ip, t);
    case Gc =>
  }

  lemma {:induction false} RunKeepsLock(l: Limiter, events: seq<Event>, since: int, ip: Ip)
    requires Linked(l) && LockedUntil(l, ip, since + PIN_LOCK)
    requires forall e :: e in events ==> since <= e.now < since + PIN_LOCK && e.op != ResetPin(ip)
    ensures LockedUntil(Run(l, events), ip, since + PIN_LOCK)
    decreases |events|
  {
    hide Linked, After;
    if events != [] {
      assert events[0] in events;
      AfterLinked(l, events[0].op, events[0].now);
      StepKeepsLock(l, events[0].op, events[0].now, ip, since + PIN_LOCK);
      RunKeepsLock(After(l, events[0].op, events[0].now), events[1..], since, ip);
    }
  }

  /** The failure that locks an address at `since` shuts it out for the next ten minutes,
      whatever else happens in them short of a reset of that very address. */
  lemma LockHolds(l: Limiter, ip: Ip, since: int, events: seq<Event>, now: int)
    requires Linked(l) && PinFailed(l, ip, since).locked
    requires forall e :: e in events ==> since <= e.now < since + 600 && e.op != ResetPin(ip)
    requires since <= now < since + 600
    ensures Linked(PinFailed(l, ip, since).l)
    ensures var a := PinChecked(Run(PinFailed(l, ip, since).l, events), ip, now);
            !a.allowed && a.retryAfter >= since + 600 - now
  {
    hide Linked, Opened, Run;
    FailedLinked(l, ip, since);
    var m := PinFailed(l, ip, since).l;
    RunKeepsLock(m, events, since, ip);
    OpenKeepsLock(Run(m, events), ip, now, ip, since + PIN_LOCK);
  }

  lemma FailedEntry(l: Limiter, ip: Ip, now: int)
    requires Linked(l) && Opened(l, ip, now).Some?
    ensures ip in Opened(l, ip, now).value.entries
    ensures var a := PinFailed(l, ip, now);
            var e := Opened(l, ip, now).value.entries[ip];
            && ip in a.l.entries && a.l.entries[ip] == Failed(e, now)
            && a.locked == (a.l.entries[ip].pinAttempts >= PIN_ATTEMPTS_MAX)
            && a.remaining == if a.locked then 0 else PIN_ATTEMPTS_MAX - a.l.entries[ip].pinAttempts
  {
    OpenedLinked(l, ip, now);
    hide Linked, Opened;
  }

  predicate SameCount(e: Entry, f: Entry) { e.pinWindowStart == f.pinWindowStart && e.pinAttempts == f.pinAttempts }

  lemma OpenKeepsCount(l: Limiter, other: Ip, now: int, ip: Ip)
    requires Linked(l) && ip in l.entries
    ensures var o := Opened(l, other, now);
            o.Some? && ip in o.value.entries ==> SameCount(l.entries[ip], o.value.entries[ip])
    ensures other == ip ==> Opened(l, other, now).Some?
  {
    hide Without, IndexOf;
  }

  /** Whether an operation is a failure of `ip`. */
  function Fails(op: Op, ip: Ip): nat { if op == FailPin(ip) then 1 else 0 }

  /** While its entry lives and is not reset, the failures of an address within 60 seconds of the
      start of its window add up, and nothing else changes their number. */
  lemma CountStep(l: Limiter, op: Op, now: int, ip: Ip)
    requires Linked(l) && ip in l.entries && ip in After(l, op, now).entries && op != ResetPin(ip)
    requires now - l.entries[ip].pinWindowStart <= 60
    ensures var e := After(l, op, now).entries[ip];
            e.pinWindowStart == l.entries[ip].pinWindowStart && e.pinAttempts == l.entries[ip].pinAttempts + Fails(op, ip)
  {
    if op == FailPin(ip) {
      OpenKeepsCount(l, ip, now, ip);
      FailedEntry(l, ip, now);
      hide Linked, Opened, PinFailed;
    } else {
      OthersKeepCount(l, op, now, ip);
      hide After;
    }
  }

  lemma OthersKeepCount(l: Limiter, op: Op, now: int, ip: Ip)
    requires Linked(l) && ip in l.entries && ip in After(l, op, now).entries && op != ResetPin(ip) && op != FailPin(ip)
    ensures SameCount(l.entries[ip], After(l, op, now).entries[ip])
  {
    hide Linked, Opened;
    match op
    case CheckPin(other) => OpenKeepsCount(l, other, now, ip);
    case FailPin(other) => OpenKeepsCount(l, other, now, ip);
    case ResetPin(other) =>
    case Unauth(other) => OpenKeepsCount(l, other, now, ip);
    case Gc =>
  }

  /** How many of the events are failures of `ip`. */
  function FailuresOf(events: seq<Event>, ip: Ip): nat {
    if events == [] then 0 else Fails(events[0].op, ip) + FailuresOf(events[1..], ip)
  }

  lemma {:induction false} FailuresAddUp(l: Limiter, ip: Ip, events: seq<Event>)
    requires Linked(l) && Lives(l, ip, events)
    requires forall e :: e in events ==> e.now - l.entries[ip].pinWindowStart <= PIN_WINDOW && e.op != ResetPin(ip)
    ensures var m := Run(l, events);
            && ip in m.entries && m.entries[ip].pinWindowStart == l.entries[ip].pinWindowStart
            && m.entries[ip].pinAttempts == l.entries[ip].pinAttempts + FailuresOf(events, ip)
    decreases |events|
  {
    hide Linked, After, Fails;
    if events != [] {
      var e := events[0];
      assert e in events && forall x :: x in events[1..] ==> x in events;
      AfterLinked(l, e.op, e.now);
      LivesOn(l, ip, events);
      CountStep(l, e.op, e.now, ip);
      FailuresAddUp(After(l, e.op, e.now), ip, events[1..]);
    }
  }

  lemma LivesOn(l: Limiter, ip: Ip, events: seq<Event>)
    requires Linked(l) && Lives(l, ip, events) && events != []
    ensures Linked(After(l, events[0].op, events[0].now))
    ensures Lives(After(l, events[0].op, events[0].now), ip, events[1..])
    ensures ip in After(l, events[0].op, events[0].now).entries
  {
    hide Linked, After;
    AfterLinked(l, events[0].op, events[0].now);
  }

  /**
   Main result: an address, known or not, fails for the first time in a new window. Whatever other
   requests, checks and collections follow within its 60 seconds, as long as the entry is neither
   evicted nor reset, the failures count: from the fifth of the window on each locks, no earlier
   one does, and the number left is exact.
   */
  lemma FifthFailureLocks(l: Limiter, ip: Ip, first: int, events: seq<Event>, last: int)
    requires Linked(l) && Opened(l, ip, first).Some?
    requires first - (if ip in l.entries then l.entries[ip].pinWindowStart else 0) > 60
    requires Linked(PinFailed(l, ip, first).l) && Lives(PinFailed(l, ip, first).l, ip, events)
    requires forall e :: e in events ==> e.now <= first + 60 && e.op != ResetPin(ip)
    requires last <= first + 60
    ensures !PinFailed(l, ip, first).locked && PinFailed(l, ip, first).remaining == 4
    ensures var a := PinFailed(Run(PinFailed(l, ip, first).l, events), ip, last);
            var n := 2 + FailuresOf(events, ip);
            (a.locked <==> n >= 5) && a.remaining == if n >= 5 then 0 else 5 - n
  {
    WindowOf(l, ip, first);
    FailedEntry(l, ip, first);
    hide Linked, Opened, PinFailed, Run, Lives, After;
    var m := PinFailed(l, ip, first).l;
    FailuresAddUp(m, ip, events);
    KnownKeeps(Run(m, events), ip, last);
    FailedEntry(Run(m, events), ip, last);
  }

  lemma WindowOf(l: Limiter, ip: Ip, now: int)
    requires Linked(l) && Opened(l, ip, now).Some?
    ensures var m := Opened(l, ip, now).value;
            ip in m.entries && m.entries[ip].pinWindowStart == if ip in l.entries then l.entries[ip].pinWindowStart else 0
  {
    hide Without, IndexOf;
  }

  /** A reset concerns its own address alone: it is let in again, and from its next failure on a new
      window counts five, whatever came before. */
  lemma ResetStartsOver(l: Limiter, ip: Ip, first: int, events: seq<Event>, last: int)
    requires Linked(l) && ip in l.entries && first > 60
    requires Linked(After(PinReset(l, ip), FailPin(ip), first)) && Lives(PinFailed(PinReset(l, ip), ip, first).l, ip, events)
    requires forall e :: e in events ==> e.now <= first + 60 && e.op != ResetPin(ip)
    requires last <= first + 60
    ensures PinChecked(PinReset(l, ip), ip, first).allowed
    ensures !PinFailed(PinReset(l, ip), ip, first).locked && PinFailed(PinReset(l, ip), ip, first).remaining == 4
    ensures var a := PinFailed(Run(PinFailed(PinReset(l, ip), ip, first).l, events), ip, last);
            var n := 2 + FailuresOf(events, ip);
            (a.locked <==> n >= 5) && a.remaining == if n >= 5 then 0 else 5 - n
  {
    var m := PinReset(l, ip);
    ResetExactly(l, ip);
    hide Linked, Opened, Lives, PinReset, Run, FailuresOf;
    KnownKeeps(m, ip, first);
    FifthFailureLocks(m, ip, first, events, last);
    hide PinFailed;
  }

  /** Nothing else of the limiter changes, and an address without an entry gets none. */
  lemma ResetExactly(l: Limiter, ip: Ip)
    requires Linked(l)
    ensures Linked(PinReset(l, ip))
    ensures PinReset(l, ip).lru == l.lru && PinReset(l, ip).entries.Keys == l.entries.Keys
    ensures PinReset(l, ip).sharedTokens == l.sharedTokens && PinReset(l, ip).sharedRefill == l.sharedRefill
    ensures forall x :: x in l.entries && x != ip ==> PinReset(l, ip).entries[x] == l.entries[x]
    ensures ip in l.entries ==>
              var e, f := l.entries[ip], PinReset(l, ip).entries[ip];
              f == Entry(0, 0, 0, e.tokens, e.lastRefill, e.lastSeen)
  {
  }

  /** A collection keeps exactly the entries that are locked or were seen in the last 15 minutes, unchanged. */
  lemma FreshSurvivesGc(l: Limiter, ip: Ip, now: int)
    requires Linked(l)
    ensures Linked(Collected(l, now))
    ensures ip in Collected(l, now).entries <==> ip in l.entries && (l.entries[ip].pinLockTS > now || now - l.entries[ip].lastSeen <= 900)
    ensures ip in Collected(l, now).entries ==> Collected(l, now).entries[ip] == l.entries[ip]
    ensures Collected(l, now).sharedTokens == l.sharedTokens && Collected(l, now).sharedRefill == l.sharedRefill
  {
    CollectedLinked(l, now);
    hide Linked;
  }

  /** A forgotten address starts over: after an eviction its next failure is a first one. */
  lemma ForgottenStartsOver(l: Limiter, ip: Ip, now: int)
    requires Linked(l) && ip !in l.entries && Opened(l, ip, now).Some? && now > 60
    ensures !PinFailed(l, ip, now).locked && PinFailed(l, ip, now).remaining == 4
  {
    WindowOf(l, ip, now);
    FailedEntry(l, ip, now);
    hide Linked, Opened, PinFailed;
  }

  // ----- A run that forgets

  const TARGET: Ip := Ip("t")

  function Other(i: nat): Ip { Ip(seq(i, _ => 'x')) }

  lemma OthersDiffer(i: nat, j: nat)
    ensures Other(i) != TARGET && (i != j ==> Other(i) != Other(j))
  {
    assert |Other(i).text| == i && |Other(j).text| == j;
    assert i > 0 ==> Other(i).text[0] == 'x';
    assert |TARGET.text| == 1 && TARGET.text[0] == 't';
  }

  function Front(k: nat): (r: seq<Ip>)
    ensures |r| == k
    ensures forall i :: 0 <= i < k ==> r[i] == Other(k - 1 - i)
  {
    if k == 0 then [] else [Other(k - 1)] + Front(k - 1)
  }

  function Flood(k: nat, now: int): seq<Event> {
    if k == 0 then [] else Flood(k - 1, now) + [Event(CheckPin(Other(k - 1)), now)]
  }

  lemma {:induction false} RunConcat(l: Limiter, a: seq<Event>, b: seq<Event>)
    requires Linked(l)
    ensures Run(l, a + b) == Run(Run(l, a), b)
    decreases |a|
  {
    hide Linked, After;
    if a == [] {
      assert a + b == b;
    } else {
      AfterLinked(l, a[0].op, a[0].now);
      assert (a + b)[1..] == a[1..] + b;
      RunConcat(After(l, a[0].op, a[0].now), a[1..], b);
    }
  }

  lemma RunOne(l: Limiter, e: Event)
    requires Linked(l)
    ensures Run(l, [e]) == After(l, e.op, e.now)
  {
    hide Linked, After;
    AfterLinked(l, e.op, e.now);
    assert [e][1..] == [];
  }

  /** The target behind `k` other addresses, none of them locked. */
  predicate Behind(l: Limiter, k: nat, now: int) {
    && Linked(l) && l.lru == Front(k) + [TARGET]
    && forall ip :: ip in l.entries ==> l.entries[ip].pinLockTS <= now
  }

  lemma OneMoreOther(l: Limiter, k: nat, now: int)
    requires Behind(l, k, now) && k + 1 < MAX_ENTRIES && now >= 0
    ensures Behind(After(l, CheckPin(Other(k)), now), k + 1, now)
  {
    NewOther(l, k, now);
    AfterLinked(l, CheckPin(Other(k)), now);
    var m := Added(l, Other(k), now);
    assert m.lru == Front(k + 1) + [TARGET];
    hide Linked;
  }

  lemma NewOther(l: Limiter, k: nat, now: int)
    requires Behind(l, k, now) && k < MAX_ENTRIES
    ensures Other(k) !in l.entries
  {
    forall i | 0 <= i < |l.lru| ensures l.lru[i] != Other(k) { OthersDiffer(k, if i < k then k - 1 - i else 0); }
  }

  lemma {:induction false} FloodPushes(l: Limiter, k: nat, now: int)
    requires Behind(l, 0, now) && k < MAX_ENTRIES && now >= 0
    ensures Behind(Run(l, Flood(k, now)), k, now)
  {
    hide Behind, Linked, After;
    assert Linked(l) by { BehindLinked(l, 0, now); }
    if k > 0 {
      FloodPushes(l, k - 1, now);
      var m := Run(l, Flood(k - 1, now));
      var e := Event(CheckPin(Other(k - 1)), now);
      RunConcat(l, Flood(k - 1, now), [e]);
      RunOne(m, e);
      OneMoreOther(m, k - 1, now);
    }
  }

  lemma BehindLinked(l: Limiter, k: nat, now: int)
    requires Behind(l, k, now)
    ensures Linked(l)
  {
  }

  /** The 512th other address takes the target's place. */
  lemma LastOtherEvicts(l: Limiter, now: int)
    requires Behind(l, MAX_ENTRIES - 1, now) && now >= 0
    ensures var m := After(l, CheckPin(Other(MAX_ENTRIES - 1)), now);
            TARGET !in m.entries && Linked(m) && Opened(m, TARGET, now).Some?
  {
    var other := Other(MAX_ENTRIES - 1);
    NewOther(l, MAX_ENTRIES - 1, now);
    AfterLinked(l, CheckPin(other), now);
    OthersDiffer(MAX_ENTRIES - 1, 0);
    assert l.lru[MAX_ENTRIES - 1] == TARGET;
    assert Opened(l, other, now).Some? && Opened(l, other, now).value == Added(Dropped(l, TARGET), other, now);
    var m := After(l, CheckPin(other), now);
    assert m.lru[0] == other && m.entries[other].pinLockTS == 0;
    OpenUnknown(m, TARGET, now);
  }

  /** Only the target, after `n` failures. */
  predicate Alone(l: Limiter, n: nat, now: int) {
    && Linked(l) && l.lru == [TARGET] && l.entries.Keys == {TARGET}
    && l.entries[TARGET].pinAttempts == n && l.entries[TARGET].pinWindowStart == now && l.entries[TARGET].pinLockTS == 0
  }

  lemma AloneFails(l: Limiter, n: nat, now: int)
    requires Alone(l, n, now) && n < 4
    ensures Alone(After(l, FailPin(TARGET), now), n + 1, now)
  {
    AfterLinked(l, FailPin(TARGET), now);
    assert ToFront(l.lru, TARGET) == [TARGET];
  }

  lemma FirstFails(l: Limiter, now: int)
    requires l.entries == map[] && l.lru == [] && now > PIN_WINDOW
    ensures Linked(l) && Alone(After(l, FailPin(TARGET), now), 1, now)
  {
    AfterLinked(l, FailPin(TARGET), now);
  }

  function Failures(n: nat, now: int): seq<Event> {
    if n == 0 then [] else Failures(n - 1, now) + [Event(FailPin(TARGET), now)]
  }

  lemma {:induction false} FailuresOfTarget(l: Limiter, n: nat, now: int)
    requires l.entries == map[] && l.lru == [] && now > PIN_WINDOW && 1 <= n <= 4
    ensures Linked(l) && Alone(Run(l, Failures(n, now)), n, now)
  {
    FirstFails(l, now);
    hide After, Linked, Alone;
    var e := Event(FailPin(TARGET), now);
    RunConcat(l, Failures(n - 1, now), [e]);
    if n == 1 {
      RunOne(l, e);
    } else {
      FailuresOfTarget(l, n - 1, now);
      var m := Run(l, Failures(n - 1, now));
      AloneFails(m, n - 1, now);
      RunOne(m, e);
    }
  }

  /** The exception: within one second four failures, 512 other addresses and a fifth failure,
      which counts as a first one, because the others pushed the entry out. */
  lemma EvictionForgets(l: Limiter, now: int)
    requires l.entries == map[] && l.lru == [] && now > 60
    ensures Linked(l)
    ensures var m := Run(l, Failures(4, now) + Flood(512, now));
            !PinFailed(m, TARGET, now).locked && PinFailed(m, TARGET, now).remaining == 4
  {
    FailuresOfTarget(l, 4, now);
    hide After, Linked, PinFailed, Opened;
    var l4 := Run(l, Failures(4, now));
    AloneIsBehind(l4, now);
    FloodPushes(l4, MAX_ENTRIES - 1, now);
    var m := Run(l4, Flood(MAX_ENTRIES - 1, now));
    LastOtherEvicts(m, now);
    var e := Event(CheckPin(Other(MAX_ENTRIES - 1)), now);
    RunConcat(l4, Flood(MAX_ENTRIES - 1, now), [e]);
    RunOne(m, e);
    RunConcat(l, Failures(4, now), Flood(MAX_ENTRIES, now));
    ForgottenStartsOver(After(m, e.op, now), TARGET, now);
  }

  lemma AloneIsBehind(l: Limiter, now: int)
    requires Alone(l, 4, now) && now >= 0
    ensures Behind(l, 0, now) && Linked(l)
  {
  }

  /** A failure more than 60 seconds after its window began opens a new window and never locks. */
  lemma SlowFailureDoesNotLock(l: Limiter, ip: Ip, now: int)
    requires Linked(l) && ip in l.entries && now - l.entries[ip].pinWindowStart > 60
    ensures var a := PinFailed(l, ip, now);
            && !a.locked && ip in a.l.entries && a.l.entries[ip].pinWindowStart == now
            && a.l.entries[ip].pinLockTS == l.entries[ip].pinLockTS
  {
    KnownKeeps(l, ip, now);
    FailedEntry(l, ip, now);
    hide Linked, Opened, PinFailed;
  }

  lemma KnownKeeps(l: Limiter, ip: Ip, now: int)
    requires Linked(l) && ip in l.entries
    ensures Opened(l, ip, now).Some? && ip in Opened(l, ip, now).value.entries
    ensures Opened(l, ip, now).value.entries[ip] == l.entries[ip].(lastSeen := now)
  {
    hide Linked, ToFront;
  }

  /** An address is refused exactly while it is locked, or when it is unknown and every one
      of the 512 entries is locked. */
  lemma RefusedExactly(l: Limiter, ip: Ip, now: int)
    requires Linked(l) && now >= 0
    ensures !PinChecked(l, ip, now).allowed
            <==> if ip in l.entries then l.entries[ip].pinLockTS > now
                 else |l.lru| == 512 && forall k :: 0 <= k < |l.lru| ==> l.entries[l.lru[k]].pinLockTS > now
    ensures var a := PinChecked(l, ip, now);
            a.retryAfter == if a.allowed then 0 else if ip in l.entries then l.entries[ip].pinLockTS - now else 600
  {
    if ip in l.entries { OpenKnown(l, ip, now); } else { OpenUnknown(l, ip, now); }
    hide Linked, Opened;
  }

  lemma OpenKnown(l: Limiter, ip: Ip, now: int)
    requires Linked(l) && ip in l.entries
    ensures var o := Opened(l, ip, now);
            o.Some? && ip in o.value.entries && o.value.entries[ip].pinLockTS == l.entries[ip].pinLockTS
  {
    hide Linked, ToFront;
  }

  lemma OpenUnknown(l: Limiter, ip: Ip, now: int)
    requires Linked(l) && ip !in l.entries
    ensures var o := Opened(l, ip, now);
            && (o.Some? ==> ip in o.value.entries && o.value.entries[ip].pinLockTS == 0)
            && (o.None? <==> |l.lru| == MAX_ENTRIES && forall k :: 0 <= k < |l.lru| ==> l.entries[l.lru[k]].pinLockTS > now)
  {
    hide Without;
    if |l.lru| == MAX_ENTRIES {
      var i := LastUnlocked(l, |l.lru|, now);
      if i > 0 { assert l.entries[l.lru[i - 1]].pinLockTS <= now; }
    }
  }

  // ----- The list is in last-seen order

  predicate SeenOrder(entries: map<Ip, Entry>, lru: seq<Ip>) {
    forall i, j :: 0 <= i < j < |lru| && lru[i] in entries && lru[j] in entries
                   ==> entries[lru[i]].lastSeen >= entries[lru[j]].lastSeen
  }

  predicate Sane(e: Entry, now: int) {
    e.lastSeen <= now && e.lastRefill <= now && 0.0 <= e.tokens <= CAPACITY
  }

  /** What every run keeps under a clock that does not go back. */
  predicate Timely(l: Limiter, now: int) {
    && Linked(l)
    && (forall ip :: ip in l.entries ==> Sane(l.entries[ip], now))
    && 0.0 <= l.sharedTokens <= SHARED_CAPACITY && l.sharedRefill <= now
    && SeenOrder(l.entries, l.lru)
  }

  lemma WithoutIsSubsequence(lru: seq<Ip>, ip: Ip) returns (i: nat)
    ensures i <= |lru|
    ensures var w := Without(lru, ip);
            && (i == |lru| ==> w == lru)
            && (i < |lru| ==> |w| == |lru| - 1 && lru[i] == ip)
            && forall k :: 0 <= k < |w| ==> w[k] == lru[if k < i then k else k + 1]
  {
    i := IndexOf(lru, ip);
    if i == |lru| { assert lru[..i] == lru; }
  }

  lemma OrderWithout(entries: map<Ip, Entry>, lru: seq<Ip>, ip: Ip)
    requires SeenOrder(entries, lru)
    ensures SeenOrder(entries, Without(lru, ip))
  {
    hide Without;
    var i := WithoutIsSubsequence(lru, ip);
  }

  /** Putting the address just seen in front keeps the order. */
  lemma OrderFront(entries: map<Ip, Entry>, lru: seq<Ip>, ip: Ip, e: Entry)
    requires SeenOrder(entries, lru) && ip !in lru
    requires forall x :: x in entries ==> entries[x].lastSeen <= e.lastSeen
    ensures SeenOrder(entries[ip := e], [ip] + lru)
  {
    var f, s := entries[ip := e], [ip] + lru;
    forall i, j | 0 <= i < j < |s| && s[i] in f && s[j] in f
      ensures f[s[i]].lastSeen >= f[s[j]].lastSeen
    {
      assert s[j] == lru[j - 1] && s[j] != ip;
      if i > 0 { assert s[i] == lru[i - 1] && s[i] != ip; }
    }
  }

  lemma DroppedTimely(l: Limiter, ip: Ip, now: int)
    requires Timely(l, now) && ip in l.entries
    ensures Timely(Dropped(l, ip), now) && ip !in Dropped(l, ip).entries
  {
    hide Without, Linked, IndexOf;
    DroppedLinked(l, ip);
    OrderWithout(l.entries, l.lru, ip);
  }

  lemma AddedTimely(l: Limiter, ip: Ip, now: int)
    requires Timely(l, now) && ip !in l.entries && |l.lru| < MAX_ENTRIES
    ensures Timely(Added(l, ip, now), now)
  {
    AddedLinked(l, ip, now);
    OrderFront(l.entries, l.lru, ip, NewEntry(now));
  }

  lemma SeenTimely(l: Limiter, ip: Ip, now: int)
    requires Timely(l, now) && ip in l.entries
    ensures Timely(Opened(l, ip, now).value, now)
  {
    hide Without, IndexOf;
    OpenedLinked(l, ip, now);
    OrderWithout(l.entries, l.lru, ip);
    assert AllDifferent(l.lru);
    WithoutFacts(l.lru, ip);
    OrderFront(l.entries, Without(l.lru, ip), ip, l.entries[ip].(lastSeen := now));
  }

  lemma VictimTimely(l: Limiter, ip: Ip, now: int)
    requires Timely(l, now) && ip !in l.entries && |l.lru| == MAX_ENTRIES
    ensures var o := Opened(l, ip, now); o.Some? ==> Timely(o.value, now)
  {
    var i := LastUnlocked(l, |l.lru|, now);
    if i > 0 {
      hide Timely, Linked, Opened, Added, Dropped;
      DropThenAdd(l, l.lru[i - 1], ip, now);
    }
  }

  lemma DropThenAdd(l: Limiter, victim: Ip, ip: Ip, now: int)
    requires Timely(l, now) && victim in l.entries && ip !in l.entries && |l.lru| == MAX_ENTRIES
    ensures Timely(Added(Dropped(l, victim), ip, now), now)
  {
    DroppedLinked(l, victim);
    hide Timely, Linked;
    DroppedTimely(l, victim, now);
    AddedTimely(Dropped(l, victim), ip, now);
  }

  lemma OpenedTimely(l: Limiter, ip: Ip, now: int)
    requires Timely(l, now)
    ensures var o := Opened(l, ip, now); o.Some? ==> Timely(o.value, now) && ip in o.value.entries
  {
    assert Linked(l);
    OpenedLinked(l, ip, now);
    assert |l.lru| <= MAX_ENTRIES;
    hide Timely, Linked, Without, Added, Dropped, LastUnlocked;
    if ip in l.entries {
      SeenTimely(l, ip, now);
    } else if |l.lru| < MAX_ENTRIES {
      AddedTimely(l, ip, now);
    } else {
      VictimTimely(l, ip, now);
    }
  }

  lemma {:induction false} FreshOrdered(l: Limiter, lru: seq<Ip>, now: int)
    requires SeenOrder(l.entries, lru) && AllDifferent(lru)
    ensures SeenOrder(l.entries, Fresh(l, lru, now))
    decreases |lru|
  {
    if lru != [] {
      FreshOrdered(l, lru[1..], now);
      FreshFacts(l, lru[1..], now);
      var f := Fresh(l, lru[1..], now);
      forall j | 0 <= j < |f| ensures exists k :: 1 <= k < |lru| && lru[k] == f[j] {
        assert f[j] in lru[1..];
      }
    }
  }

  lemma CollectedTimely(l: Limiter, now: int)
    requires Timely(l, now)
    ensures Timely(Collected(l, now), now)
  {
    CollectedLinked(l, now);
    assert AllDifferent(l.lru);
    FreshOrdered(l, l.lru, now);
  }

  lemma WithTimely(l: Limiter, ip: Ip, e: Entry, now: int)
    requires Timely(l, now) && ip in l.entries && Sane(e, now) && e.lastSeen == l.entries[ip].lastSeen
    ensures Timely(With(l, ip, e), now)
  {
    WithLinked(l, ip);
  }

  lemma LaterTimely(l: Limiter, now: int, later: int)
    requires Timely(l, now) && now <= later
    ensures Timely(l, later)
  {
  }

  /** Every operation keeps the map and the list together, in last-seen order, at most 512
      long, and every bucket between empty and full. */
  lemma AfterTimely(l: Limiter, op: Op, now: int)
    requires Timely(l, now)
    ensures Timely(After(l, op, now), now)
  {
    assert Linked(l);
    match op
    case CheckPin(ip) => { hide Timely, Linked; OpenedTimely(l, ip, now); }
    case FailPin(ip) => FailedTimely(l, ip, now);
    case ResetPin(ip) =>
      if ip in l.entries {
        WithTimely(l, ip, l.entries[ip].(pinAttempts := 0, pinLockTS := 0, pinWindowStart := 0), now);
      }
    case Unauth(ip) => UnauthTimely(l, ip, now);
    case Gc => CollectedTimely(l, now);
  }

  lemma FailedTimely(l: Limiter, ip: Ip, now: int)
    requires Timely(l, now)
    ensures Timely(PinFailed(l, ip, now).l, now)
  {
    hide Linked, Opened, SeenOrder;
    OpenedTimely(l, ip, now);
    var o := Opened(l, ip, now);
    if o.Some? { WithTimely(o.value, ip, Failed(o.value.entries[ip], now), now); }
  }

  lemma UnauthTimely(l: Limiter, ip: Ip, now: int)
    requires Timely(l, now)
    ensures Timely(UnauthChecked(l, ip, now).l, now)
  {
    hide Linked, Opened, SeenOrder;
    OpenedTimely(l, ip, now);
    WithShared(l);
    var o := Opened(l, ip, now);
    if o.Some? {
      var e := o.value.entries[ip];
      var t := Filled(e.tokens, e.lastRefill, now, REFILL, CAPACITY);
      WithTimely(o.value, ip, e.(tokens := if t < 1.0 then t else t - 1.0, lastRefill := Later(e.lastRefill, now)), now);
    }
  }

  /** The victim of an eviction is the least recently seen of the unlocked entries. */
  lemma VictimIsLeastRecent(l: Limiter, ip: Ip, now: int)
    requires Timely(l, now) && ip !in l.entries && |l.lru| == 512 && Opened(l, ip, now).Some?
    ensures exists v :: v in l.entries && l.entries[v].pinLockTS <= now
                        && (forall x :: x in l.entries && l.entries[x].pinLockTS <= now
                                        ==> l.entries[v].lastSeen <= l.entries[x].lastSeen)
                        && Opened(l, ip, now).value.entries == (l.entries - {v})[ip := NewEntry(now)]
  {
    var i := LastUnlocked(l, |l.lru|, now);
    var v := l.lru[i - 1];
    assert Opened(l, ip, now).value.entries == (l.entries - {v})[ip := NewEntry(now)];
    hide Opened;
    forall x | x in l.entries && l.entries[x].pinLockTS <= now ensures l.entries[v].lastSeen <= l.entries[x].lastSeen {
      UnlockedIsBefore(l, i, x, now);
    }
    hide Timely;
  }

  lemma UnlockedIsBefore(l: Limiter, i: nat, x: Ip, now: int)
    requires Linked(l) && SeenOrder(l.entries, l.lru) && 0 < i <= |l.lru|
    requires forall k :: i <= k < |l.lru| ==> l.entries[l.lru[k]].pinLockTS > now
    requires x in l.entries && l.entries[x].pinLockTS <= now
    ensures l.entries[l.lru[i - 1]].lastSeen <= l.entries[x].lastSeen
  {
    assert x in l.lru;
    var k :| 0 <= k < |l.lru| && l.lru[k] == x;
    assert k <= i - 1;
  }

  // ----- What the buckets admit

  /** The clock of a run starts at `from`, never goes back and ends by `to`. */
  predicate Timed(events: seq<Event>, from: int, to: int) {
    if events == [] then from <= to
    else from <= events[0].now && Timed(events[1..], events[0].now, to)
  }

  lemma {:induction false} RunTimely(l: Limiter, events: seq<Event>, from: int, to: int)
    requires Timely(l, from) && Timed(events, from, to)
    ensures Timely(Run(l, events), to)
    decreases |events|
  {
    assert Linked(l);
    hide Timely, Linked, After;
    if events == [] {
      LaterTimely(l, from, to);
    } else {
      var e := events[0];
      LaterTimely(l, from, e.now);
      AfterTimely(l, e.op, e.now);
      AfterLinked(l, e.op, e.now);
      RunTimely(After(l, e.op, e.now), events[1..], e.now, to);
    }
  }

  predicate ByShared(l: Limiter, e: Event)
    requires Linked(l)
  {
    e.op.Unauth? && Opened(l, e.op.ip, e.now).None? && UnauthChecked(l, e.op.ip, e.now).allowed
  }

  /** How many requests of a run the shared bucket lets through. */
  function SharedAdmitted(l: Limiter, events: seq<Event>): nat
    requires Linked(l)
    decreases |events|
  {
    if events == [] then 0
    else
      AfterLinked(l, events[0].op, events[0].now);
      (if ByShared(l, events[0]) then 1 else 0) + SharedAdmitted(After(l, events[0].op, events[0].now), events[1..])
  }

  function SharedAt(l: Limiter, t: int): real {
    Filled(l.sharedTokens, l.sharedRefill, t, SHARED_REFILL, SHARED_CAPACITY)
  }

  /** A request let through by the shared bucket costs exactly one token; nothing else costs or adds any. */
  lemma SharedCost(l: Limiter, e: Event)
    requires Timely(l, e.now)
    ensures (if ByShared(l, e) then 1.0 else 0.0) + SharedAt(After(l, e.op, e.now), e.now) == SharedAt(l, e.now)
  {
    hide SeenOrder, Linked, Opened;
    if e.op.Gc? || e.op.ResetPin? {
      hide Filled;
    } else {
      OpenKeepsShared(l, e.op.ip, e.now);
    }
  }

  lemma OpenKeepsShared(l: Limiter, ip: Ip, now: int)
    requires Linked(l)
    ensures var o := Opened(l, ip, now);
            o.Some? ==> o.value.sharedTokens == l.sharedTokens && o.value.sharedRefill == l.sharedRefill
  {
  }

  function Least(x: real, y: real): real { if x < y then x else y }

  /** The shared bucket gains 50 tokens a second until it holds 50. */
  lemma SharedGrowth(l: Limiter, t: int, u: int)
    requires Timely(l, t) && t <= u
    ensures SharedAt(l, u) == Least(50.0, SharedAt(l, t) + 50.0 * (u - t) as real) && SharedAt(l, t) <= 50.0
  {
  }

  /** Over a stretch of `to - from` seconds the shared bucket admits at most 50 requests and
      50 more for every second. */
  lemma {:induction false} SharedBound(l: Limiter, events: seq<Event>, from: int, to: int)
    requires Timely(l, from) && Timed(events, from, to)
    ensures SharedAdmitted(l, events) as real <= SharedAt(l, from) + 50.0 * (to - from) as real
    ensures SharedAdmitted(l, events) as real <= 50.0 + 50.0 * (to - from) as real
    decreases |events|
  {
    assert Linked(l);
    hide Timely, Linked, After, ByShared, SharedAt;
    if events == [] {
      SharedGrowth(l, from, to);
    } else {
      var e := events[0];
      SharedGrowth(l, from, e.now);
      LaterTimely(l, from, e.now);
      SharedCost(l, e);
      AfterTimely(l, e.op, e.now);
      AfterLinked(l, e.op, e.now);
      SharedBound(After(l, e.op, e.now), events[1..], e.now, to);
    }
  }

  predicate ByEntry(l: Limiter, ip: Ip, e: Event)
    requires Linked(l)
  {
    e.op == Unauth(ip) && Opened(l, ip, e.now).Some? && UnauthChecked(l, ip, e.now).allowed
  }

  function EntryAdmitted(l: Limiter, ip: Ip, events: seq<Event>): nat
    requires Linked(l)
    decreases |events|
  {
    if events == [] then 0
    else
      AfterLinked(l, events[0].op, events[0].now);
      (if ByEntry(l, ip, events[0]) then 1 else 0) + EntryAdmitted(After(l, events[0].op, events[0].now), ip, events[1..])
  }

  /** The entry of `ip` is never evicted or collected during the run. */
  predicate Lives(l: Limiter, ip: Ip, events: seq<Event>)
    requires Linked(l)
    decreases |events|
  {
    && ip in l.entries
    && (events == []
        || (AfterLinked(l, events[0].op, events[0].now);
            Lives(After(l, events[0].op, events[0].now), ip, events[1..])))
  }

  function EntryAt(l: Limiter, ip: Ip, t: int): real
    requires ip in l.entries
  {
    Filled(l.entries[ip].tokens, l.entries[ip].lastRefill, t, REFILL, CAPACITY)
  }

  predicate SameBucket(e: Entry, f: Entry) { e.tokens == f.tokens && e.lastRefill == f.lastRefill }

  lemma OpenKeepsBucket(l: Limiter, other: Ip, now: int, ip: Ip)
    requires Linked(l) && ip in l.entries
    ensures var o := Opened(l, other, now);
            o.Some? && ip in o.value.entries ==> SameBucket(l.entries[ip], o.value.entries[ip])
    ensures other == ip ==> Opened(l, other, now).Some?
  {
  }

  /** Only a request of the address itself touches its bucket. */
  lemma OthersKeepBucket(l: Limiter, op: Op, now: int, ip: Ip)
    requires Linked(l) && ip in l.entries && ip in After(l, op, now).entries && op != Unauth(ip)
    ensures SameBucket(l.entries[ip], After(l, op, now).entries[ip])
  {
    hide Linked, Opened;
    match op
    case CheckPin(other) => OpenKeepsBucket(l, other, now, ip);
    case FailPin(other) => OpenKeepsBucket(l, other, now, ip);
    case ResetPin(other) =>
    case Unauth(other) => OpenKeepsBucket(l, other, now, ip);
    case Gc =>
  }

  lemma OwnCost(l: Limiter, ip: Ip, now: int)
    requires Timely(l, now) && ip in l.entries && ip in UnauthChecked(l, ip, now).l.entries
    ensures (if UnauthChecked(l, ip, now).allowed then 1.0 else 0.0)
              + EntryAt(UnauthChecked(l, ip, now).l, ip, now) == EntryAt(l, ip, now)
  {
    hide SeenOrder, Linked, Opened;
    OpenKeepsBucket(l, ip, now, ip);
  }

  /** A request is let through exactly when its bucket holds a token: its own, that of a new entry,
      or the shared one when there is no room for an entry. */
  lemma AdmittedExactly(l: Limiter, ip: Ip, now: int)
    requires Linked(l)
    ensures UnauthChecked(l, ip, now).allowed
            <==> if ip in l.entries then EntryAt(l, ip, now) >= 1.0 else Opened(l, ip, now).Some? || SharedAt(l, now) >= 1.0
    ensures var a := UnauthChecked(l, ip, now); a.retryAfter == if a.allowed then 0 else if ip in l.entries then 2 else 1
  {
    if ip in l.entries { OpenKeepsBucket(l, ip, now, ip); }
    OpenedLinked(l, ip, now);
    if ip !in l.entries { NewBucketIsFull(l, ip, now); }
    hide Linked, Opened;
  }

  lemma NewBucketIsFull(l: Limiter, ip: Ip, now: int)
    requires Linked(l) && ip !in l.entries
    ensures var o := Opened(l, ip, now);
            o.Some? ==> ip in o.value.entries && o.value.entries[ip] == Entry(0, 0, 0, 20.0, now, now)
  {
    hide Without;
  }

  /** Only requests of an address draw on its bucket, one token each. */
  lemma EntryCost(l: Limiter, ip: Ip, e: Event)
    requires Timely(l, e.now) && ip in l.entries && ip in After(l, e.op, e.now).entries
    ensures (if ByEntry(l, ip, e) then 1.0 else 0.0) + EntryAt(After(l, e.op, e.now), ip, e.now) == EntryAt(l, ip, e.now)
  {
    if e.op == Unauth(ip) {
      hide Timely, EntryAt, UnauthChecked;
      OwnCost(l, ip, e.now);
    } else {
      OthersKeepBucket(l, e.op, e.now, ip);
      hide Timely, After, Filled;
    }
  }

  /** A bucket of an address after `d` seconds without requests. */
  function Grown(tokens: real, d: int): real { Least(20.0, tokens + 20.0 * d as real) }

  /** The bucket of an address gains 20 tokens a second until it holds 20. */
  lemma EntryGrowth(l: Limiter, ip: Ip, t: int, u: int)
    requires Timely(l, t) && t <= u && ip in l.entries
    ensures EntryAt(l, ip, u) == Grown(EntryAt(l, ip, t), u - t) && 0.0 <= EntryAt(l, ip, t) <= 20.0
  {
  }

  /** While its entry lives, an address gets at most 20 requests through and 20 more for every second. */
  lemma {:induction false} EntryBound(l: Limiter, ip: Ip, events: seq<Event>, from: int, to: int)
    requires Timely(l, from) && Timed(events, from, to) && Lives(l, ip, events)
    ensures EntryAdmitted(l, ip, events) as real <= EntryAt(l, ip, from) + 20.0 * (to - from) as real
    ensures EntryAdmitted(l, ip, events) as real <= 20.0 + 20.0 * (to - from) as real
    decreases |events|
  {
    assert Linked(l);
    hide Timely, Linked, After, ByEntry, EntryAt;
    EntryGrowth(l, ip, from, if events == [] then to else events[0].now);
    if events != [] {
      var e := events[0];
      LaterTimely(l, from, e.now);
      EntryCost(l, ip, e);
      AfterTimely(l, e.op, e.now);
      AfterLinked(l, e.op, e.now);
      EntryBound(After(l, e.op, e.now), ip, events[1..], e.now, to);
    }
  }

  /** No requests of this address. */
  predicate Quiet(events: seq<Event>, ip: Ip) {
    events == [] || (events[0].op != Unauth(ip) && Quiet(events[1..], ip))
  }

  /** Without requests of its own a living bucket fills up, whatever else happens. */
  lemma {:induction false} PauseFills(l: Limiter, ip: Ip, events: seq<Event>, from: int, to: int)
    requires Timely(l, from) && Timed(events, from, to) && Lives(l, ip, events)
    requires Quiet(events, ip)
    ensures ip in Run(l, events).entries
    ensures EntryAt(Run(l, events), ip, to) == Grown(EntryAt(l, ip, from), to - from)
    decreases |events|
  {
    assert Linked(l);
    hide Timely, Linked, After, EntryAt, Run, Grown, Lives, Quiet;
    if events == [] {
      RunEmpty(l);
      KnownWhileLives(l, ip, events);
      EntryGrowth(l, ip, from, to);
    } else {
      hide Timed;
      var e := events[0];
      var m := After(l, e.op, e.now);
      PauseStep(l, ip, events, from, to);
      AfterLinked(l, e.op, e.now);
      LivesOn(l, ip, events);
      PauseFills(m, ip, events[1..], e.now, to);
      RunHead(l, events);
      TimedForward(events[1..], e.now, to);
      GrownTwice(EntryAt(l, ip, from), from, e.now, to);
    }
  }

  lemma {:induction false} TimedForward(events: seq<Event>, from: int, to: int)
    requires Timed(events, from, to)
    ensures from <= to
    decreases |events|
  {
    if events != [] { TimedForward(events[1..], events[0].now, to); }
  }

  lemma KnownWhileLives(l: Limiter, ip: Ip, events: seq<Event>)
    requires Linked(l) && Lives(l, ip, events)
    ensures ip in l.entries
  {
  }

  lemma PauseStep(l: Limiter, ip: Ip, events: seq<Event>, from: int, to: int)
    requires Timely(l, from) && Linked(l) && Lives(l, ip, events) && events != []
    requires Timed(events, from, to) && Quiet(events, ip)
    ensures from <= events[0].now && Timed(events[1..], events[0].now, to) && Quiet(events[1..], ip)
    ensures var e := events[0];
            var m := After(l, e.op, e.now);
            && ip in l.entries && ip in m.entries && Timely(m, e.now)
            && EntryAt(m, ip, e.now) == Grown(EntryAt(l, ip, from), e.now - from)
  {
    var e := events[0];
    LivesOn(l, ip, events);
    KnownWhileLives(l, ip, events);
    hide Timely, Linked, After, EntryAt, Grown, Lives;
    EntryGrowth(l, ip, from, e.now);
    LaterTimely(l, from, e.now);
    EntryCost(l, ip, e);
    AfterTimely(l, e.op, e.now);
  }

  lemma GrownTwice(x: real, from: int, mid: int, to: int)
    requires from <= mid <= to
    ensures Grown(Grown(x, mid - from), to - mid) == Grown(x, to - from)
  {
    var u, v := (mid - from) as real, (to - mid) as real;
    assert (to - from) as real == u + v && v >= 0.0;
  }

  /** An address that has not asked for a second, and whose entry lives, is let through. */
  lemma PauseAdmits(l: Limiter, ip: Ip, events: seq<Event>, from: int, to: int)
    requires Timely(l, from) && Timed(events, from, to) && Lives(l, ip, events) && to - from >= 1
    requires Quiet(events, ip)
    ensures UnauthChecked(Run(l, events), ip, to).allowed
  {
    PauseFills(l, ip, events, from, to);
    EntryGrowth(l, ip, from, from);
    hide Timely, Linked, EntryAt, Run, Lives;
    AdmittedExactly(Run(l, events), ip, to);
    assert (to - from) as real >= 1.0;
  }

  lemma RunEmpty(l: Limiter)
    requires Linked(l)
    ensures Run(l, []) == l
  {
  }

  lemma RunHead(l: Limiter, events: seq<Event>)
    requires Linked(l) && events != []
    ensures Linked(After(l, events[0].op, events[0].now))
    ensures Run(l, events) == Run(After(l, events[0].op, events[0].now), events[1..])
  {
    hide Linked, After;
    AfterLinked(l, events[0].op, events[0].now);
  }
}
