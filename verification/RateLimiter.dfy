/**
 The per-address rate limiter: a PIN lock and a token bucket per address, kept in a map
 and a list in last-seen order, at most 512 of them; a shared bucket when all are locked.
 Time is a parameter of every operation.
 */
module RateLimiter {
  import opened Bytes
  import opened DistinctLists

  const MAX_ENTRIES := 512
  const PIN_ATTEMPTS_MAX := 5
  const PIN_LOCK := 600
  const PIN_WINDOW := 60
  const CAPACITY := 20.0
  const REFILL := 20.0
  const ENTRY_TTL := 900
  const SHARED_CAPACITY := 50.0
  const SHARED_REFILL := 50.0

  /** An address, as the map's key. */
  datatype Ip = Ip(text: string)

  datatype Entry = Entry(pinAttempts: nat, pinWindowStart: int, pinLockTS: int, tokens: real, lastRefill: int, lastSeen: int)

  function NewEntry(now: int): Entry { Entry(0, 0, 0, CAPACITY, now, now) }

  /** The map, the list (most recently seen first) and the shared bucket. */
  datatype Limiter = Limiter(entries: map<Ip, Entry>, lru: seq<Ip>, sharedTokens: real, sharedRefill: int)

  // ----- The list

  function IndexOf(lru: seq<Ip>, ip: Ip): (i: nat)
    ensures i <= |lru|
    ensures i < |lru| ==> lru[i] == ip
    ensures ip !in lru[..i]
  {
    if lru == [] || lru[0] == ip then 0
    else
      var j := IndexOf(lru[1..], ip);
      assert lru[..j + 1] == [lru[0]] + lru[1..][..j];
      j + 1
  }

  function Without(lru: seq<Ip>, ip: Ip): seq<Ip> {
    var i := IndexOf(lru, ip);
    if i == |lru| then lru else lru[..i] + lru[i + 1..]
  }

  function ToFront(lru: seq<Ip>, ip: Ip): seq<Ip> { [ip] + Without(lru, ip) }

  /** How many of the list's tail the scan from the back passes before an unlocked entry. */
  function LastUnlocked(l: Limiter, n: nat, now: int): (i: nat)
    requires n <= |l.lru| && forall k :: 0 <= k < |l.lru| ==> l.lru[k] in l.entries
    ensures i <= n
    ensures i > 0 ==> l.entries[l.lru[i - 1]].pinLockTS <= now
    ensures forall k :: i <= k < n ==> l.entries[l.lru[k]].pinLockTS > now
  {
    if n == 0 || l.entries[l.lru[n - 1]].pinLockTS <= now then n else LastUnlocked(l, n - 1, now)
  }

  predicate Linked(l: Limiter) {
    && (forall k :: 0 <= k < |l.lru| ==> l.lru[k] in l.entries)
    && (forall ip :: ip in l.entries ==> ip in l.lru)
    && (forall i, j :: 0 <= i < j < |l.lru| ==> l.lru[i] != l.lru[j])
    && |l.lru| <= MAX_ENTRIES
  }

  function Dropped(l: Limiter, ip: Ip): Limiter {
    l.(entries := l.entries - {ip}, lru := Without(l.lru, ip))
  }

  function Added(l: Limiter, ip: Ip, now: int): Limiter {
    l.(entries := l.entries[ip := NewEntry(now)], lru := [ip] + l.lru)
  }

  /** getOrCreate: the entry of `ip` is there and in front, or all 512 entries are locked. */
  function Opened(l: Limiter, ip: Ip, now: int): Option<Limiter>
    requires Linked(l)
  {
    if ip in l.entries then
      Some(l.(entries := l.entries[ip := l.entries[ip].(lastSeen := now)], lru := ToFront(l.lru, ip)))
    else if |l.lru| < MAX_ENTRIES then Some(Added(l, ip, now))
    else
      var i := LastUnlocked(l, |l.lru|, now);
      if i == 0 then None else Some(Added(Dropped(l, l.lru[i - 1]), ip, now))
  }

  function With(l: Limiter, ip: Ip, e: Entry): Limiter { l.(entries := l.entries[ip := e]) }

  // ----- The operations on values

  datatype Answer = Answer(l: Limiter, allowed: bool, retryAfter: int)

  function PinChecked(l: Limiter, ip: Ip, now: int): Answer
    requires Linked(l)
  {
    match Opened(l, ip, now)
    case None => Answer(l, false, PIN_LOCK)
    case Some(m) =>
      if ip in m.entries && m.entries[ip].pinLockTS > now then Answer(m, false, m.entries[ip].pinLockTS - now)
      else Answer(m, true, 0)
  }

  /** One more failure in the current window; the fifth locks. */
  function Failed(e: Entry, now: int): Entry {
    var expired := now - e.pinWindowStart > PIN_WINDOW;
    var attempts := (if expired then 0 else e.pinAttempts) + 1;
    e.(pinWindowStart := if expired then now else e.pinWindowStart,
       pinAttempts := attempts,
       pinLockTS := if attempts >= PIN_ATTEMPTS_MAX then now + PIN_LOCK else e.pinLockTS)
  }

  datatype FailAnswer = FailAnswer(l: Limiter, locked: bool, remaining: int)

  function PinFailed(l: Limiter, ip: Ip, now: int): FailAnswer
    requires Linked(l)
  {
    match Opened(l, ip, now)
    case None => FailAnswer(l, false, 0)
    case Some(m) =>
      if ip !in m.entries then FailAnswer(l, false, 0)
      else
        var e := Failed(m.entries[ip], now);
        if e.pinAttempts >= PIN_ATTEMPTS_MAX then FailAnswer(With(m, ip, e), true, 0)
        else FailAnswer(With(m, ip, e), false, PIN_ATTEMPTS_MAX - e.pinAttempts)
  }

  function PinReset(l: Limiter, ip: Ip): Limiter {
    if ip in l.entries then With(l, ip, l.entries[ip].(pinAttempts := 0, pinLockTS := 0, pinWindowStart := 0)) else l
  }

  /** A bucket's tokens at `now`. */
  function Filled(tokens: real, last: int, now: int, rate: real, capacity: real): real {
    if now - last > 0 then
      var t := tokens + (now - last) as real * rate;
      if t > capacity then capacity else t
    else tokens
  }

  function Later(last: int, now: int): int { if now - last > 0 then now else last }

  function UnauthChecked(l: Limiter, ip: Ip, now: int): Answer
    requires Linked(l)
  {
    match Opened(l, ip, now)
    case None =>
      var t := Filled(l.sharedTokens, l.sharedRefill, now, SHARED_REFILL, SHARED_CAPACITY);
      var last := Later(l.sharedRefill, now);
      if t < 1.0 then Answer(l.(sharedTokens := t, sharedRefill := last), false, 1)
      else Answer(l.(sharedTokens := t - 1.0, sharedRefill := last), true, 0)
    case Some(m) =>
      if ip !in m.entries then Answer(l, false, 0)
      else
        var e := m.entries[ip];
        var t := Filled(e.tokens, e.lastRefill, now, REFILL, CAPACITY);
        var e' := e.(tokens := if t < 1.0 then t else t - 1.0, lastRefill := Later(e.lastRefill, now));
        if t < 1.0 then Answer(With(m, ip, e'), false, 2) else Answer(With(m, ip, e'), true, 0)
  }

  predicate Stale(e: Entry, now: int) { e.pinLockTS <= now && now - e.lastSeen > ENTRY_TTL }

  function Fresh(l: Limiter, lru: seq<Ip>, now: int): seq<Ip> {
    if lru == [] then []
    else if lru[0] in l.entries && Stale(l.entries[lru[0]], now) then Fresh(l, lru[1..], now)
    else [lru[0]] + Fresh(l, lru[1..], now)
  }

  /** gc: stale entries go, the order of the others stays. */
  function Collected(l: Limiter, now: int): Limiter {
    l.(entries := map ip | ip in l.entries && !Stale(l.entries[ip], now) :: l.entries[ip], lru := Fresh(l, l.lru, now))
  }

  /** The stale entries of a list. */
  function Victims(l: Limiter, lru: seq<Ip>, now: int): set<Ip> {
    if lru == [] then {}
    else if lru[0] in l.entries && Stale(l.entries[lru[0]], now) then Victims(l, lru[1..], now) + {lru[0]}
    else Victims(l, lru[1..], now)
  }

  lemma {:induction false} VictimsAreStale(l: Limiter, lru: seq<Ip>, now: int)
    ensures forall x :: x in Victims(l, lru, now) <==> x in lru && x in l.entries && Stale(l.entries[x], now)
  {
    if lru != [] {
      VictimsAreStale(l, lru[1..], now);
      assert lru == [lru[0]] + lru[1..];
    }
  }

  lemma VictimsGone(l: Limiter, now: int)
    requires Linked(l)
    ensures Collected(l, now) == l.(entries := l.entries - Victims(l, l.lru, now), lru := Fresh(l, l.lru, now))
  {
    VictimsAreStale(l, l.lru, now);
    assert l.entries - Victims(l, l.lru, now) == Collected(l, now).entries;
  }

  lemma InEntries(l: Limiter, ip: Ip)
    requires Linked(l) && ip in l.lru
    ensures ip in l.entries
  {
  }

  // ----- The list stays linked to the map

  lemma WithoutFacts(lru: seq<Ip>, ip: Ip)
    requires AllDifferent(lru)
    ensures AllDifferent(Without(lru, ip)) && ip !in Without(lru, ip)
    ensures forall x :: x in Without(lru, ip) <==> x in lru && x != ip
    ensures |Without(lru, ip)| == |lru| - (if ip in lru then 1 else 0)
  {
    var i := IndexOf(lru, ip);
    var w := Without(lru, ip);
    if i < |lru| {
      assert forall k :: 0 <= k < |w| ==> w[k] == lru[if k < i then k else k + 1];
      assert forall k :: 0 <= k < |lru| && k != i ==> lru[k] == w[if k < i then k else k - 1];
      assert forall x :: x in lru && x != ip ==> x in w;
    } else {
      assert lru[..i] == lru;
    }
  }

  lemma OpenedLinked(l: Limiter, ip: Ip, now: int)
    requires Linked(l)
    ensures var o := Opened(l, ip, now); o.Some? ==> Linked(o.value) && ip in o.value.entries
  {
    hide Without, Dropped;
    if ip in l.entries {
      FrontLinked(l, ip, now);
    } else if |l.lru| < MAX_ENTRIES {
      AddedLinked(l, ip, now);
    } else {
      var i := LastUnlocked(l, |l.lru|, now);
      if i > 0 { EvictedLinked(l, l.lru[i - 1], ip, now); }
    }
  }

  lemma EvictedLinked(l: Limiter, victim: Ip, ip: Ip, now: int)
    requires Linked(l) && victim in l.entries && ip !in l.entries
    ensures Linked(Added(Dropped(l, victim), ip, now)) && ip in Added(Dropped(l, victim), ip, now).entries
  {
    DroppedLinked(l, victim);
    assert |l.lru| <= MAX_ENTRIES;
    hide Linked, Without;
    AddedLinked(Dropped(l, victim), ip, now);
  }

  lemma FrontLinked(l: Limiter, ip: Ip, now: int)
    requires Linked(l) && ip in l.entries
    ensures Linked(l.(entries := l.entries[ip := l.entries[ip].(lastSeen := now)], lru := ToFront(l.lru, ip)))
  {
    assert AllDifferent(l.lru);
    WithoutFacts(l.lru, ip);
    hide Without;
    FrontOf(l, ip, l.entries[ip].(lastSeen := now), Without(l.lru, ip));
  }

  lemma FrontOf(l: Limiter, ip: Ip, e: Entry, w: seq<Ip>)
    requires Linked(l) && ip in l.entries && AllDifferent(w) && |w| < MAX_ENTRIES
    requires forall x :: x in w <==> x in l.lru && x != ip
    ensures Linked(l.(entries := l.entries[ip := e], lru := [ip] + w))
  {
    FrontDistinct(w, ip);
    var m := l.(entries := l.entries[ip := e], lru := [ip] + w);
    forall k | 0 <= k < |m.lru| ensures m.lru[k] in m.entries {
      assert k > 0 ==> m.lru[k] == w[k - 1] && w[k - 1] in w;
    }
    forall x | x in m.entries ensures x in m.lru {
      assert x != ip ==> x in w;
    }
  }

  lemma FrontDistinct(lru: seq<Ip>, ip: Ip)
    requires AllDifferent(lru) && ip !in lru
    ensures AllDifferent([ip] + lru)
  {
  }

  lemma DroppedLinked(l: Limiter, ip: Ip)
    requires Linked(l) && ip in l.entries
    ensures Linked(Dropped(l, ip)) && |Dropped(l, ip).lru| == |l.lru| - 1 && ip !in Dropped(l, ip).entries
  {
    assert AllDifferent(l.lru);
    WithoutFacts(l.lru, ip);
  }

  lemma WithLinked(l: Limiter, ip: Ip)
    requires Linked(l) && ip in l.entries
    ensures forall e :: Linked(With(l, ip, e))
  {
  }

  lemma WithShared(l: Limiter)
    requires Linked(l)
    ensures forall t, r :: Linked(l.(sharedTokens := t, sharedRefill := r))
  {
  }

  lemma AddedLinked(l: Limiter, ip: Ip, now: int)
    requires Linked(l) && ip !in l.entries && |l.lru| < MAX_ENTRIES
    ensures Linked(Added(l, ip, now))
  {
    assert AllDifferent(l.lru);
    FrontDistinct(l.lru, ip);
  }

  lemma {:induction false} FreshFacts(l: Limiter, lru: seq<Ip>, now: int)
    requires AllDifferent(lru)
    ensures var f := Fresh(l, lru, now);
            && AllDifferent(f) && |f| <= |lru|
            && forall x :: x in f <==> x in lru && !(x in l.entries && Stale(l.entries[x], now))
    decreases |lru|
  {
    if lru != [] {
      FreshFacts(l, lru[1..], now);
      var f := Fresh(l, lru[1..], now);
      assert lru == [lru[0]] + lru[1..];
      assert lru[0] !in lru[1..];
    }
  }

  lemma CollectedLinked(l: Limiter, now: int)
    requires Linked(l)
    ensures Linked(Collected(l, now))
  {
    assert AllDifferent(l.lru);
    FreshFacts(l, l.lru, now);
    assert forall k :: 0 <= k < |Fresh(l, l.lru, now)| ==> Fresh(l, l.lru, now)[k] in Fresh(l, l.lru, now);
  }

  // ----- The limiter

  class RateLimiter {
    var entries: map<Ip, Entry>
    var lru: seq<Ip>
    var sharedTokens: real
    var sharedRefill: int

    ghost function View(): Limiter
      reads this
    {
      Limiter(entries, lru, sharedTokens, sharedRefill)
    }

    ghost predicate Valid()
      reads this
    {
      Linked(View())
    }

    constructor (now: int)
      ensures Valid() && View() == Limiter(map[], [], SHARED_CAPACITY, now)
    {
      entries, lru, sharedTokens, sharedRefill := map[], [], SHARED_CAPACITY, now;
    }

    method GetOrCreate(ip: Ip, now: int) returns (ok: bool)
      requires Valid()
      modifies this`entries, this`lru
      ensures ok == Opened(old(View()), ip, now).Some?
      ensures View() == if ok then Opened(old(View()), ip, now).value else old(View())
      ensures Valid() && (ok ==> ip in entries)
    {
      OpenedLinked(View(), ip, now);
      assert |lru| <= MAX_ENTRIES;
      hide Without, ToFront, Linked;
      if ip in entries {
        lru := ToFront(lru, ip);
        entries := entries[ip := entries[ip].(lastSeen := now)];
        return true;
      }
      if |lru| >= MAX_ENTRIES {
        var evicted := EvictOldest(now);
        if !evicted { return false; }
      }
      lru := [ip] + lru;
      entries := entries[ip := NewEntry(now)];
      return true;
    }

    /** Scans from the back for an unlocked entry. */
    method EvictOldest(now: int) returns (ok: bool)
      requires Valid()
      modifies this`entries, this`lru
      ensures var i := LastUnlocked(old(View()), |old(lru)|, now);
              ok == (i > 0) && View() == if ok then Dropped(old(View()), old(lru)[i - 1]) else old(View())
    {
      var e: nat := |lru|;
      while e > 0
        invariant e <= |lru| && View() == old(View())
        invariant LastUnlocked(View(), |lru|, now) == LastUnlocked(View(), e, now)
      {
        var ip := lru[e - 1];
        if entries[ip].pinLockTS <= now {
          lru := Without(lru, ip);
          entries := entries - {ip};
          return true;
        }
        e := e - 1;
      }
      return false;
    }

    method CheckPinVerify(ip: Ip, now: int) returns (allowed: bool, retryAfter: int)
      requires Valid()
      modifies this`entries, this`lru
      ensures Valid() && Answer(View(), allowed, retryAfter) == PinChecked(old(View()), ip, now)
    {
      var ok := GetOrCreate(ip, now);
      if !ok { return false, PIN_LOCK; }
      if entries[ip].pinLockTS > now { return false, entries[ip].pinLockTS - now; }
      return true, 0;
    }

    method RegisterPinFail(ip: Ip, now: int) returns (locked: bool, remaining: int)
      requires Valid()
      modifies this`entries, this`lru
      ensures Valid() && FailAnswer(View(), locked, remaining) == PinFailed(old(View()), ip, now)
    {
      hide Linked, Opened;
      var ok := GetOrCreate(ip, now);
      if !ok { return false, 0; }
      ghost var mid := View();
      WithLinked(mid, ip);
      var e := entries[ip];
      if now - e.pinWindowStart > PIN_WINDOW { e := e.(pinWindowStart := now, pinAttempts := 0); }
      e := e.(pinAttempts := e.pinAttempts + 1);
      if e.pinAttempts >= PIN_ATTEMPTS_MAX {
        entries := entries[ip := e.(pinLockTS := now + PIN_LOCK)];
        assert View() == With(mid, ip, e.(pinLockTS := now + PIN_LOCK));
        return true, 0;
      }
      entries := entries[ip := e];
      assert View() == With(mid, ip, e);
      return false, PIN_ATTEMPTS_MAX - e.pinAttempts;
    }

    method ResetPin(ip: Ip)
      requires Valid()
      modifies this`entries
      ensures Valid() && View() == PinReset(old(View()), ip)
    {
      if ip in entries {
        entries := entries[ip := entries[ip].(pinAttempts := 0, pinLockTS := 0, pinWindowStart := 0)];
      }
    }

    method CheckUnauth(ip: Ip, now: int) returns (allowed: bool, retryAfter: int)
      requires Valid()
      modifies this
      ensures Valid() && Answer(View(), allowed, retryAfter) == UnauthChecked(old(View()), ip, now)
    {
      hide Linked, Opened;
      WithShared(View());
      var ok := GetOrCreate(ip, now);
      if !ok {
        var elapsed := (now - sharedRefill) as real;
        if elapsed > 0.0 {
          sharedTokens := sharedTokens + elapsed * SHARED_REFILL;
          if sharedTokens > SHARED_CAPACITY { sharedTokens := SHARED_CAPACITY; }
          sharedRefill := now;
        }
        if sharedTokens < 1.0 { return false, 1; }
        sharedTokens := sharedTokens - 1.0;
        return true, 0;
      }
      ghost var mid := View();
      WithLinked(mid, ip);
      var e := entries[ip];
      var elapsed := (now - e.lastRefill) as real;
      if elapsed > 0.0 {
        e := e.(tokens := e.tokens + elapsed * REFILL);
        if e.tokens > CAPACITY { e := e.(tokens := CAPACITY); }
        e := e.(lastRefill := now);
      }
      if e.tokens < 1.0 {
        entries := entries[ip := e];
        assert View() == With(mid, ip, e);
        return false, 2;
      }
      entries := entries[ip := e.(tokens := e.tokens - 1.0)];
      assert View() == With(mid, ip, e.(tokens := e.tokens - 1.0));
      return true, 0;
    }

    /** gc: collects the stale entries from the back, then removes them. */
    method Gc(now: int)
      requires Valid()
      modifies this`entries, this`lru
      ensures Valid() && View() == Collected(old(View()), now)
    {
      hide Without, Linked, Collected;
      CollectedLinked(View(), now);
      VictimsGone(View(), now);
      var kept: seq<Ip> := [];
      var victims: set<Ip> := {};
      var e := |lru|;
      assert lru[e..] == [];
      while e > 0
        invariant Valid() && View() == old(View())
        invariant e <= |lru| && kept == Fresh(View(), lru[e..], now)
        invariant victims == Victims(View(), lru[e..], now)
      {
        e := e - 1;
        var ip := lru[e];
        assert lru[e..] == [ip] + lru[e + 1..];
        InEntries(View(), ip);
        if Stale(entries[ip], now) {
          victims := victims + {ip};
        } else {
          kept := [ip] + kept;
        }
      }
      assert lru[0..] == lru;
      lru := kept;
      entries := entries - victims;
    }
  }
}
