/**
 What the hostname cache promises over its operations: a bounded map keyed by MAC
 without regard to case, that survives a restart.
 */
module HostnameCacheFacts {
  import opened Bytes
  import opened JsonEscape
  import opened CacheFile
  import opened CacheFileRoundTrip
  import opened HostnameCache

  /** No two active slots hold the same MAC. */
  ghost predicate Distinct(slots: seq<Entry>) {
    forall i, j :: 0 <= i < j < |slots| && slots[i].active && slots[j].active ==> Lower(slots[i].mac) != Lower(slots[j].mac)
  }

  /** Another active slot than `v` holds `mac`. */
  ghost predicate HeldElsewhere(slots: seq<Entry>, v: nat, mac: seq<byte>) {
    exists k :: 0 <= k < |slots| && k != v && slots[k].active && Lower(slots[k].mac) == Lower(mac)
  }

  lemma WriteKeepsDistinct(slots: seq<Entry>, v: nat, e: Entry)
    requires Distinct(slots) && v < |slots| && e.active
    ensures Distinct(slots[v := e]) <==> !HeldElsewhere(slots, v, e.mac)
  {
    var t := slots[v := e];
    if HeldElsewhere(slots, v, e.mac) {
      var k :| 0 <= k < |slots| && k != v && slots[k].active && Lower(slots[k].mac) == Lower(e.mac);
      assert t[k] == slots[k] && t[v] == e;
    }
  }

  /**
   An update keeps the active MACs distinct if and only if its MAC has at most 17 bytes
   or its first 17 bytes are not held by a slot that stays: a longer MAC is stored cut,
   but never found again.
   */
  lemma UpdateKeepsDistinct(slots: seq<Entry>, mac: seq<byte>, hostname: seq<byte>, src: seq<byte>, now: int)
    requires ValidSlots(slots) && Distinct(slots) && mac != [] && hostname != [] && src != []
    ensures Distinct(AfterUpdate(slots, mac, hostname, src, now).slots) <==>
              |mac| <= MAC_LEN || !HeldElsewhere(slots, NewSlot(slots), mac[..MAC_LEN])
  {
    var i := Matching(slots, mac, 0);
    if i < |slots| {
      var m := slots[i].mac;
      assert ValidEntry(slots[i]);
      assert |Lower(m)| == |Lower(mac)|;
      SlotStays(slots, i, Written(m, hostname, src, now));
      SlotStays(slots, i, slots[i].(updatedAt := now));
    } else {
      WriteKeepsDistinct(slots, NewSlot(slots), Written(mac, hostname, src, now));
      if |mac| <= MAC_LEN {
        NotHeld(slots, mac, NewSlot(slots));
      }
    }
  }

  lemma SlotStays(slots: seq<Entry>, i: nat, e: Entry)
    requires Distinct(slots) && i < |slots| && slots[i].active && e.active && e.mac == slots[i].mac
    ensures Distinct(slots[i := e])
  {
    WriteKeepsDistinct(slots, i, e);
  }

  lemma NotHeld(slots: seq<Entry>, mac: seq<byte>, v: nat)
    requires ValidSlots(slots) && Matching(slots, mac, 0) == |slots|
    ensures !HeldElsewhere(slots, v, mac)
  {
    forall k | 0 <= k < |slots| && slots[k].active ensures Lower(slots[k].mac) != Lower(mac) {
      assert ValidEntry(slots[k]) && !Holds(slots[k], mac);
    }
  }

  /** A MAC longer than 17 bytes is never found, whatever the table holds. */
  lemma LongMacUnknown(slots: seq<Entry>, mac: seq<byte>)
    requires ValidSlots(slots) && |mac| > MAC_LEN
    ensures Matching(slots, mac, 0) == |slots| && LookUp(slots, mac) == None
  {
    forall i | 0 <= i < |slots| ensures !Holds(slots[i], mac) {
      assert ValidEntry(slots[i]);
      assert |Lower(slots[i].mac)| == |slots[i].mac| && |Lower(mac)| == |mac|;
    }
  }

  /** So two updates of the same long MAC take two slots, as long as two are free, and neither is found. */
  lemma LongMacTwice(slots: seq<Entry>, mac: seq<byte>, hostname: seq<byte>, src: seq<byte>, t: int, u: int)
    requires ValidSlots(slots) && FreeSlot(slots, 0) < |slots| && FreeSlot(slots, FreeSlot(slots, 0) + 1) < |slots|
    requires |mac| > MAC_LEN && hostname != [] && src != [] && 0 !in mac && 0 !in hostname && 0 !in src
    ensures var once := AfterUpdate(slots, mac, hostname, src, t).slots;
            var twice := AfterUpdate(once, mac, hostname, src, u).slots;
            !Distinct(twice) && LookUp(once, mac) == None && LookUp(twice, mac) == None
  {
    hide ValidEntry;
    var i := FreeSlot(slots, 0);
    var once := slots[i := Written(mac, hostname, src, t)];
    LongMacUnknown(slots, mac);
    WrittenValid(slots, i, mac, hostname, src, t);
    LongMacUnknown(once, mac);
    var j := FreeSlot(once, 0);
    OtherFree(slots, once, i);
    var twice := once[j := Written(mac, hostname, src, u)];
    WrittenValid(once, j, mac, hostname, src, u);
    LongMacUnknown(twice, mac);
    assert twice[i].active && twice[j].active && twice[i].mac == twice[j].mac == mac[..MAC_LEN];
  }

  lemma OtherFree(slots: seq<Entry>, once: seq<Entry>, i: nat)
    requires i == FreeSlot(slots, 0) < |slots| && FreeSlot(slots, i + 1) < |slots|
    requires |once| == |slots| && once == slots[i := once[i]] && once[i].active
    ensures i < FreeSlot(once, 0) < |once|
  {
    var k := FreeSlot(slots, i + 1);
    assert !once[k].active;
  }

  // ----- Loading

  /** No two records have the same MAC. */
  ghost predicate MacsDiffer(rs: seq<Record>) {
    forall i, j :: 0 <= i < j < |rs| ==> Lower(Cut(rs[i].mac, MAC_LEN)) != Lower(Cut(rs[j].mac, MAC_LEN))
  }

  /** No slot behind the loaded ones holds a loaded MAC. */
  ghost predicate KeptDiffer(slots: seq<Entry>, rs: seq<Record>) {
    forall i, j :: 0 <= i < |rs| <= j < |slots| && slots[j].active ==> Lower(Cut(rs[i].mac, MAC_LEN)) != Lower(slots[j].mac)
  }

  /** A load keeps the active MACs distinct if and only if the records differ among themselves and
      from the slots behind them. */
  lemma LoadKeepsDistinct(slots: seq<Entry>, rs: seq<Record>)
    requires Distinct(slots) && |rs| <= |slots|
    ensures Distinct(Overlay(slots, rs)) <==> MacsDiffer(rs) && KeptDiffer(slots, rs)
  {
    var t := Overlay(slots, rs);
    assert forall i :: 0 <= i < |t| ==> t[i] == if i < |rs| then EntryOf(rs[i]) else slots[i];
    if Distinct(t) {
      forall i, j | 0 <= i < j < |rs| ensures Lower(Cut(rs[i].mac, MAC_LEN)) != Lower(Cut(rs[j].mac, MAC_LEN)) {
        assert Lower(t[i].mac) != Lower(t[j].mac);
      }
      forall i, j | 0 <= i < |rs| <= j < |slots| && slots[j].active
        ensures Lower(Cut(rs[i].mac, MAC_LEN)) != Lower(slots[j].mac)
      {
        assert Lower(t[i].mac) != Lower(t[j].mac);
      }
    }
  }

  // ----- Whole runs

  datatype CacheOp = Update(mac: seq<byte>, hostname: seq<byte>, src: seq<byte>, now: int) | Load(rs: seq<Record>)

  predicate NulFree(op: CacheOp) {
    match op
    case Update(mac, hostname, src, _) => 0 !in mac && 0 !in hostname && 0 !in src
    case Load(rs) => |rs| <= MAX_ENTRIES && forall i :: 0 <= i < |rs| ==> 0 !in rs[i].mac && 0 !in rs[i].hostname && 0 !in rs[i].src
  }

  function AfterOp(slots: seq<Entry>, op: CacheOp): seq<Entry>
    requires ValidSlots(slots) && NulFree(op)
  {
    match op
    case Update(mac, hostname, src, now) => AfterUpdate(slots, mac, hostname, src, now).slots
    case Load(rs) => Overlay(slots, rs)
  }

  /** The condition of each operation: a MAC that is not cut into one held already, or records that differ. */
  ghost predicate Harmless(slots: seq<Entry>, op: CacheOp)
    requires ValidSlots(slots)
  {
    match op
    case Update(mac, hostname, src, _) =>
      mac == [] || hostname == [] || src == [] || |mac| <= MAC_LEN || !HeldElsewhere(slots, NewSlot(slots), mac[..MAC_LEN])
    case Load(rs) => |rs| <= |slots| && MacsDiffer(rs) && KeptDiffer(slots, rs)
  }

  lemma OpValid(slots: seq<Entry>, op: CacheOp)
    requires ValidSlots(slots) && NulFree(op)
    ensures ValidSlots(AfterOp(slots, op))
  {
    hide ValidEntry;
    match op
    case Update(mac, hostname, src, now) =>
      var i := Matching(slots, mac, 0);
      if mac != [] && hostname != [] && src != [] {
        if i == |slots| {
          WrittenValid(slots, NewSlot(slots), mac, hostname, src, now);
        } else {
          ValidAt(slots, i);
          WrittenValid(slots, i, slots[i].mac, hostname, src, now);
          TimeOnly(slots, i, now);
        }
      }
    case Load(rs) =>
      var t := Overlay(slots, rs);
      forall i | 0 <= i < |t| ensures ValidEntry(t[i]) {
        if i < |rs| { EntryOfValid(rs[i]); }
      }
  }

  /** An operation keeps the active MACs distinct if and only if it is harmless. */
  lemma OpKeepsDistinct(slots: seq<Entry>, op: CacheOp)
    requires ValidSlots(slots) && NulFree(op) && Distinct(slots)
    ensures Distinct(AfterOp(slots, op)) <==> Harmless(slots, op)
  {
    match op
    case Update(mac, hostname, src, now) =>
      if mac != [] && hostname != [] && src != [] { UpdateKeepsDistinct(slots, mac, hostname, src, now); }
    case Load(rs) => LoadKeepsDistinct(slots, rs);
  }

  ghost predicate AllHarmless(slots: seq<Entry>, ops: seq<CacheOp>)
    requires ValidSlots(slots) && forall i :: 0 <= i < |ops| ==> NulFree(ops[i])
    decreases |ops|
  {
    ops == []
    || (OpValid(slots, ops[0]); Harmless(slots, ops[0]) && AllHarmless(AfterOp(slots, ops[0]), ops[1..]))
  }

  ghost predicate AlwaysDistinct(slots: seq<Entry>, ops: seq<CacheOp>)
    requires ValidSlots(slots) && forall i :: 0 <= i < |ops| ==> NulFree(ops[i])
    decreases |ops|
  {
    Distinct(slots)
    && (ops == [] || (OpValid(slots, ops[0]); AlwaysDistinct(AfterOp(slots, ops[0]), ops[1..])))
  }

  /** Main result: over any run of updates and loads the active MACs are distinct throughout if and
      only if every operation is harmless when it comes. */
  lemma {:induction false} RunKeepsDistinct(slots: seq<Entry>, ops: seq<CacheOp>)
    requires ValidSlots(slots) && Distinct(slots) && forall i :: 0 <= i < |ops| ==> NulFree(ops[i])
    ensures AlwaysDistinct(slots, ops) <==> AllHarmless(slots, ops)
    decreases |ops|
  {
    hide ValidSlots, Distinct, Harmless, AfterOp, NulFree;
    if ops != [] {
      OpValid(slots, ops[0]);
      OpKeepsDistinct(slots, ops[0]);
      var t := AfterOp(slots, ops[0]);
      if Distinct(t) { RunKeepsDistinct(t, ops[1..]); } else { NotDistinct(t, ops[1..]); }
    }
  }

  lemma NotDistinct(slots: seq<Entry>, ops: seq<CacheOp>)
    requires ValidSlots(slots) && !Distinct(slots) && forall i :: 0 <= i < |ops| ==> NulFree(ops[i])
    ensures !AlwaysDistinct(slots, ops)
  {
    hide ValidSlots, Distinct;
  }

  // ----- Lookup after update

  /** The only slot that can match is the one that does. */
  lemma MatchIs(slots: seq<Entry>, mac: seq<byte>, i: nat)
    requires Distinct(slots) && i < |slots| && Holds(slots[i], mac)
    ensures Matching(slots, mac, 0) == i
  {
    assert forall j :: 0 <= j < i && slots[j].active ==> Lower(slots[j].mac) != Lower(slots[i].mac);
  }

  lemma NoMatch(slots: seq<Entry>, mac: seq<byte>)
    requires forall k :: 0 <= k < |slots| ==> !Holds(slots[k], mac)
    ensures Matching(slots, mac, 0) == |slots|
  {
  }

  /** Replacing slot v by an entry that does not hold q: q's answer stays, unless slot v gave it. */
  lemma OtherAnswers(slots: seq<Entry>, v: nat, e: Entry, q: seq<byte>)
    requires Distinct(slots) && v < |slots| && !Holds(e, q)
    requires Distinct(slots[v := e])
    ensures LookUp(slots[v := e], q) == if Holds(slots[v], q) then None else LookUp(slots, q)
  {
    var t := slots[v := e];
    var i := Matching(slots, q, 0);
    if i < |slots| {
      if i == v {
        forall k | 0 <= k < |t| ensures !Holds(t[k], q) {
          if k != v && Holds(slots[k], q) {
            MatchIs(slots, q, k);
            assert false;
          }
        }
        NoMatch(t, q);
      } else {
        MatchIs(slots, q, i);
        if Holds(slots[v], q) {
          MatchIs(slots, q, v);
          assert false;
        }
        assert Holds(t[i], q);
        MatchIs(t, q, i);
      }
    } else {
      assert forall k :: 0 <= k < |slots| ==> !Holds(slots[k], q);
      NoMatch(t, q);
    }
  }

  /** The slot an update writes. */
  function Target(slots: seq<Entry>, mac: seq<byte>): (v: nat)
    requires slots != []
    ensures v < |slots|
  {
    if Matching(slots, mac, 0) < |slots| then Matching(slots, mac, 0) else NewSlot(slots)
  }

  /**
   Main result: after an update the MAC has the new name and source, and every other
   MAC keeps its answer except the one whose slot was taken, which is forgotten. The
   answer is that of a map keyed by the lower-cased MAC.
   */
  lemma LookupAfterUpdate(slots: seq<Entry>, mac: seq<byte>, hostname: seq<byte>, src: seq<byte>, now: int, q: seq<byte>)
    requires ValidSlots(slots) && Distinct(slots) && mac != [] && |mac| <= MAC_LEN && hostname != [] && src != []
    ensures var slots' := AfterUpdate(slots, mac, hostname, src, now).slots;
            LookUp(slots', q)
              == if Lower(q) == Lower(mac) then Some(Value(Cut(hostname, 63), Cut(src, 11)))
                 else if Holds(slots[Target(slots, mac)], q) then None
                 else LookUp(slots, q)
  {
    hide ValidEntry;
    var v := Target(slots, mac);
    var slots' := AfterUpdate(slots, mac, hostname, src, now).slots;
    UpdateKeepsDistinct(slots, mac, hostname, src, now);
    WrittenSlot(slots, mac, hostname, src, now);
    if Lower(q) == Lower(mac) {
      assert Holds(slots'[v], q);
      MatchIs(slots', q, v);
    } else {
      OtherAnswers(slots, v, slots'[v], q);
    }
  }

  /** So the name is found under its MAC in any case, whole up to 63 bytes, as its source is up to 11. */
  lemma NameAnswered(slots: seq<Entry>, mac: seq<byte>, hostname: seq<byte>, src: seq<byte>, now: int, q: seq<byte>)
    requires ValidSlots(slots) && Distinct(slots) && mac != [] && |mac| <= 17 && hostname != [] && src != []
    requires |q| == |mac| && forall i :: 0 <= i < |q| ==> SameLetter(q[i], mac[i])
    ensures var v := LookUp(AfterUpdate(slots, mac, hostname, src, now).slots, q);
            && v.Some? && v.value.hostname <= hostname && v.value.src <= src
            && |v.value.hostname| == (if |hostname| <= 63 then |hostname| else 63)
            && |v.value.src| == if |src| <= 11 then |src| else 11
  {
    LowerForgetsCase(q, mac);
    LookupAfterUpdate(slots, mac, hostname, src, now, q);
    hide LookUp, AfterUpdate, ValidSlots, Distinct;
  }

  /** An update is worth saving exactly when a lookup before it would not have given this name and
      source; so a name of over 63 bytes, which is kept cut, is always worth it. */
  lemma ChangedExactly(slots: seq<Entry>, mac: seq<byte>, hostname: seq<byte>, src: seq<byte>, now: int)
    requires ValidSlots(slots)
    ensures AfterUpdate(slots, mac, hostname, src, now).changed
            <==> mac != [] && hostname != [] && src != [] && LookUp(slots, mac) != Some(Value(hostname, src))
    ensures mac != [] && src != [] && |hostname| > 63 ==> AfterUpdate(slots, mac, hostname, src, now).changed
  {
    var i := Matching(slots, mac, 0);
    if i < |slots| { assert ValidEntry(slots[i]); }
  }

  lemma WrittenSlot(slots: seq<Entry>, mac: seq<byte>, hostname: seq<byte>, src: seq<byte>, now: int)
    requires ValidSlots(slots) && mac != [] && |mac| <= MAC_LEN && hostname != [] && src != []
    ensures var v := Target(slots, mac);
            var slots' := AfterUpdate(slots, mac, hostname, src, now).slots;
            && slots' == slots[v := slots'[v]]
            && slots'[v].active && slots'[v].updatedAt == now && |slots'[v].mac| <= MAC_LEN && Lower(slots'[v].mac) == Lower(mac)
            && slots'[v].hostname == Cut(hostname, HOST_ROOM) && slots'[v].src == Cut(src, SRC_ROOM)
  {
    var i := Matching(slots, mac, 0);
    if i < |slots| {
      assert ValidEntry(slots[i]);
    }
  }

  /** A MAC that is not held takes a free slot; without one, that of a least recent update. */
  lemma VictimIsOldest(slots: seq<Entry>, mac: seq<byte>)
    requires slots != [] && Matching(slots, mac, 0) == |slots|
    ensures var v := Target(slots, mac);
            if exists k :: 0 <= k < |slots| && !slots[k].active then !slots[v].active
            else forall k :: 0 <= k < |slots| ==> slots[v].updatedAt <= slots[k].updatedAt
  {
    if FreeSlot(slots, 0) == |slots| {
      assert slots[OldestSlot(slots, 1, 0)].updatedAt <= slots[0].updatedAt;
    }
  }

  // ----- Restart

  function LookRecords(rs: seq<Record>, mac: seq<byte>): Option<Value> {
    if rs == [] then None
    else if MacEq(rs[0].mac, mac) then Some(Value(rs[0].hostname, rs[0].src))
    else LookRecords(rs[1..], mac)
  }

  lemma {:induction false} LookActive(slots: seq<Entry>, mac: seq<byte>, i: nat)
    requires i <= |slots|
    ensures var j := Matching(slots, mac, i);
            LookRecords(ActiveFrom(slots, i), mac) == if j == |slots| then None else Some(Value(slots[j].hostname, slots[j].src))
    decreases |slots| - i
  {
    hide MacEq;
    if i < |slots| {
      LookActive(slots, mac, i + 1);
    }
  }

  const BLANK: seq<Entry> := seq(MAX_ENTRIES, i => EMPTY)

  lemma {:induction false} NoneActive(rs: seq<Record>, i: nat)
    requires |rs| <= i <= MAX_ENTRIES
    ensures ActiveFrom(Overlay(BLANK, rs), i) == []
    decreases MAX_ENTRIES - i
  {
    if i < MAX_ENTRIES {
      NoneActive(rs, i + 1);
    }
  }

  lemma {:induction false} OverlayActive(rs: seq<Record>, i: nat)
    requires i <= |rs| <= MAX_ENTRIES && ValidRecords(rs)
    ensures ActiveFrom(Overlay(BLANK, rs), i) == rs[i..]
    decreases |rs| - i
  {
    if i == |rs| {
      NoneActive(rs, i);
    } else {
      OverlayActive(rs, i + 1);
      assert rs[i] in rs;
      assert RecordOf(EntryOf(rs[i])) == rs[i];
      assert rs[i..] == [rs[i]] + rs[i + 1..];
    }
  }

  lemma {:induction false} ActiveCount(slots: seq<Entry>, i: nat)
    requires i <= |slots|
    ensures |ActiveFrom(slots, i)| <= |slots| - i
    decreases |slots| - i
  {
    if i < |slots| {
      ActiveCount(slots, i + 1);
    }
  }

  /**
   Main result: a table saved and loaded into an empty one answers every lookup as
   before, when its entries are printable: 17-byte MACs without quotes, quote-free
   sources, names whose escape fits 126 bytes, or 127 and does not end within a character.
   */
  lemma RestartKeepsAnswers(slots: seq<Entry>, q: seq<byte>)
    requires ValidSlots(slots) && ValidRecords(Active(slots))
    requires forall i :: 0 <= i < |Active(slots)| ==> FitsWhole(Active(slots)[i].hostname, ESC_SIZE)
    ensures Parse(FileText(Active(slots))) == Some(Active(slots))
    ensures LookUp(Overlay(BLANK, Active(slots)), q) == LookUp(slots, q)
  {
    hide ValidRecord, FitsWhole, Parse, FileText, MacEq;
    var rs := Active(slots);
    ActiveCount(slots, 0);
    RestoredExactly(rs);
    OverlayActive(rs, 0);
    assert rs[0..] == rs;
    LookActive(slots, q, 0);
    LookActive(Overlay(BLANK, rs), q, 0);
  }
}
