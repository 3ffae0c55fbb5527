/**
 The hostname cache of the device daemon: a table of 1024 slots keyed by MAC address
 without regard to case, with its file.
 */
module HostnameCache {
  import opened Bytes
  import opened JsonEscape
  import opened CacheFile

  /** A slot; mac, hostname and src are C strings within their fields. */
  datatype Entry = Entry(active: bool, mac: seq<byte>, hostname: seq<byte>, src: seq<byte>, updatedAt: int)

  const EMPTY := Entry(false, [], [], [], 0)

  /** strncpy into a field with room for `n` bytes and a NUL. */
  function Cut(s: seq<byte>, n: nat): seq<byte> {
    if |s| <= n then s else s[..n]
  }

  predicate Field(s: seq<byte>, n: nat) { |s| <= n && 0 !in s }

  predicate ValidEntry(e: Entry) {
    Field(e.mac, MAC_LEN) && Field(e.hostname, HOST_ROOM) && Field(e.src, SRC_ROOM)
  }

  predicate ValidSlots(slots: seq<Entry>) {
    |slots| == MAX_ENTRIES && forall i :: 0 <= i < |slots| ==> ValidEntry(slots[i])
  }

  /** mac_eq: equal up to case, and no longer than 17 bytes. */
  predicate MacEq(a: seq<byte>, b: seq<byte>) {
    |a| <= MAC_LEN && Lower(a) == Lower(b)
  }

  predicate Holds(e: Entry, mac: seq<byte>) { e.active && MacEq(e.mac, mac) }

  function Matching(slots: seq<Entry>, mac: seq<byte>, i: nat): (j: nat)
    requires i <= |slots|
    ensures i <= j <= |slots|
    ensures j < |slots| ==> Holds(slots[j], mac)
    ensures forall k :: i <= k < j ==> !Holds(slots[k], mac)
    decreases |slots| - i
  {
    if i == |slots| || Holds(slots[i], mac) then i else Matching(slots, mac, i + 1)
  }

  function FreeSlot(slots: seq<Entry>, i: nat): (j: nat)
    requires i <= |slots|
    ensures i <= j <= |slots|
    ensures j < |slots| ==> !slots[j].active
    ensures forall k :: i <= k < j ==> slots[k].active
    decreases |slots| - i
  {
    if i == |slots| || !slots[i].active then i else FreeSlot(slots, i + 1)
  }

  /** The first slot with the least time, among `best` and those from `i` on. */
  function OldestSlot(slots: seq<Entry>, i: nat, best: nat): (v: nat)
    requires best < i <= |slots|
    ensures v < |slots| && slots[v].updatedAt <= slots[best].updatedAt
    ensures forall k :: i <= k < |slots| ==> slots[v].updatedAt <= slots[k].updatedAt
    decreases |slots| - i
  {
    if i == |slots| then best
    else if slots[i].updatedAt < slots[best].updatedAt then OldestSlot(slots, i + 1, i)
    else OldestSlot(slots, i + 1, best)
  }

  /** Where a MAC that is not in the table goes. */
  function NewSlot(slots: seq<Entry>): (v: nat)
    requires slots != []
    ensures v < |slots|
  {
    if FreeSlot(slots, 0) < |slots| then FreeSlot(slots, 0) else OldestSlot(slots, 1, 0)
  }

  function Written(mac: seq<byte>, hostname: seq<byte>, src: seq<byte>, now: int): Entry {
    Entry(true, Cut(mac, MAC_LEN), Cut(hostname, HOST_ROOM), Cut(src, SRC_ROOM), now)
  }

  datatype UpdateResult = UpdateResult(slots: seq<Entry>, changed: bool)

  /** The table after an update, and whether the update is worth saving. */
  function AfterUpdate(slots: seq<Entry>, mac: seq<byte>, hostname: seq<byte>, src: seq<byte>, now: int): (r: UpdateResult)
    requires slots != []
    ensures |r.slots| == |slots|
  {
    if mac == [] || hostname == [] || src == [] then UpdateResult(slots, false)
    else
      var i := Matching(slots, mac, 0);
      if i == |slots| then UpdateResult(slots[NewSlot(slots) := Written(mac, hostname, src, now)], true)
      else if slots[i].hostname != hostname || slots[i].src != src then
        UpdateResult(slots[i := Written(slots[i].mac, hostname, src, now)], true)
      else UpdateResult(slots[i := slots[i].(updatedAt := now)], false)
  }

  datatype Value = Value(hostname: seq<byte>, src: seq<byte>)

  /** What the table says about a MAC. */
  function LookUp(slots: seq<Entry>, mac: seq<byte>): Option<Value> {
    var i := Matching(slots, mac, 0);
    if i == |slots| then None else Some(Value(slots[i].hostname, slots[i].src))
  }

  /** The table without its times: what a save is about. */
  function Content(slots: seq<Entry>): (r: seq<Entry>)
    ensures |r| == |slots|
  {
    seq(|slots|, i requires 0 <= i < |slots| => slots[i].(updatedAt := 0))
  }

  /** The active slots from `i` on, as file records. */
  function ActiveFrom(slots: seq<Entry>, i: nat): seq<Record>
    decreases |slots| - i
  {
    if i >= |slots| then []
    else if slots[i].active then [RecordOf(slots[i])] + ActiveFrom(slots, i + 1)
    else ActiveFrom(slots, i + 1)
  }

  function RecordOf(e: Entry): Record { Record(e.mac, e.hostname, e.src, e.updatedAt) }

  function Active(slots: seq<Entry>): seq<Record> { ActiveFrom(slots, 0) }

  function EntryOf(r: Record): Entry {
    Entry(true, Cut(r.mac, MAC_LEN), Cut(r.hostname, HOST_ROOM), Cut(r.src, SRC_ROOM), r.time)
  }

  /** Loaded records overwrite the slots from the first on. */
  function Overlay(slots: seq<Entry>, rs: seq<Record>): seq<Entry>
    requires |rs| <= |slots|
  {
    seq(|rs|, i requires 0 <= i < |rs| => EntryOf(rs[i])) + slots[|rs|..]
  }

  // ----- Steps of the methods below

  /** mac_eq, byte by byte. */
  method MacEqual(a: seq<byte>, b: seq<byte>) returns (same: bool)
    requires 0 !in a && 0 !in b
    ensures same == MacEq(a, b)
  {
    for i := 0 to MAC_LEN
      invariant i <= |a| && i <= |b| && forall k :: 0 <= k < i ==> LowerByte(a[k]) == LowerByte(b[k])
    {
      var ca := if i < |a| then LowerByte(a[i]) else 0;
      var cb := if i < |b| then LowerByte(b[i]) else 0;
      if i < |a| { assert a[i] in a; }
      if i < |b| { assert b[i] in b; }
      if ca != cb {
        assert |a| == |b| && i < |a| ==> Lower(a)[i] != Lower(b)[i];
        return false;
      }
      if ca == 0 {
        assert Lower(a) == Lower(b);
        return true;
      }
    }
    same := |a| == MAC_LEN && |b| == MAC_LEN;
    if same {
      assert Lower(a) == Lower(b);
    }
  }

  lemma CutField(s: seq<byte>, n: nat)
    requires 0 !in s
    ensures Field(Cut(s, n), n)
  {
  }

  /** Writing a slot keeps the table valid. */
  lemma WrittenValid(slots: seq<Entry>, v: nat, mac: seq<byte>, hostname: seq<byte>, src: seq<byte>, now: int)
    requires ValidSlots(slots) && v < |slots| && 0 !in mac && 0 !in hostname && 0 !in src
    ensures ValidSlots(slots[v := Written(mac, hostname, src, now)])
  {
    CutField(mac, MAC_LEN);
    CutField(hostname, HOST_ROOM);
    CutField(src, SRC_ROOM);
  }

  /** A new time changes nothing a save is about. */
  lemma TimeOnly(slots: seq<Entry>, v: nat, now: int)
    requires ValidSlots(slots) && v < |slots|
    ensures var slots' := slots[v := slots[v].(updatedAt := now)];
            ValidSlots(slots') && Content(slots') == Content(slots)
  {
    var slots' := slots[v := slots[v].(updatedAt := now)];
    assert ValidEntry(slots[v]);
    assert forall i :: 0 <= i < |slots| ==> Content(slots')[i] == Content(slots)[i];
  }

  /** The escaped name, printed through a buffer of 128 bytes. */
  method PrintEntry(e: Entry) returns (text: seq<byte>)
    requires ValidEntry(e)
    ensures text == EntryText(RecordOf(e))
  {
    hide Kept, EscAll, PrintInt;
    var esc := new byte[ESC_SIZE];
    EscapeInto(e.hostname, esc);
    var name := CStr(esc[..]);
    BufferText(esc[..], Escaped(e.hostname, ESC_SIZE), e.hostname);
    text := [QUOTE] + e.mac + HOST_MARK + name + [QUOTE] + SRC_MARK + e.src + [QUOTE] + TIME_MARK + PrintInt(e.updatedAt) + [CLOSE];
  }

  lemma BufferText(buf: seq<byte>, t: seq<byte>, source: seq<byte>)
    requires |t| < |buf| && buf[..|t| + 1] == t + [0] && 0 !in source && t == Escaped(source, |buf|)
    ensures CStr(buf) == t
  {
    hide EscAll, Kept;
    EscNulFree(source[..Kept(source, |buf|)]);
    assert buf == t + [0] + buf[|t| + 1..];
    StopsAtNul(t, buf[|t| + 1..]);
  }

  lemma StopsAtNul(t: seq<byte>, rest: seq<byte>)
    requires 0 !in t
    ensures CStr(t + [0] + rest) == t
  {
    CStrStops(t, rest);
    CStrNulFree(t);
  }

  lemma ActiveStep(slots: seq<Entry>, i: nat, first: bool)
    requires i < |slots| && slots[i].active
    ensures EntriesText(ActiveFrom(slots, i), first)
         == (if first then [] else [COMMA]) + EntryText(RecordOf(slots[i])) + EntriesText(ActiveFrom(slots, i + 1), false)
  {
    hide EntryText;
  }

  /** The unescaping loop. */
  method ReadName(text: seq<byte>, start: nat) returns (hn: seq<byte>, q: nat)
    requires start <= |text|
    ensures Unescape(text, start, []) == Unescaped(hn, q) && q <= |text|
  {
    hide PieceAt;
    hn, q := [], start;
    while q < |text| && text[q] != QUOTE && |hn| < HOST_ROOM
      invariant q <= |text| && Unescape(text, start, []) == Unescape(text, q, hn)
      decreases |text| - q
    {
      var p := PieceAt(text, q, |hn|);
      hn, q := hn + p.add, q + p.len;
    }
  }

  method ReadSrc(text: seq<byte>, start: nat) returns (src: seq<byte>, r: nat)
    requires start <= |text|
    ensures r == SrcEnd(text, start, start) && start <= r <= |text| && src == text[start..r]
  {
    src, r := [], start;
    while r < |text| && text[r] != QUOTE && |src| < SRC_ROOM
      invariant start <= r <= |text| && src == text[start..r] && SrcEnd(text, start, start) == SrcEnd(text, start, r)
    {
      src := src + [text[r]];
      r := r + 1;
    }
  }

  /** One turn of the load loop at a marker. */
  method ReadEntry(text: seq<byte>, p: nat) returns (found: bool, rec: Record, next: nat)
    requires MatchAt(text, p, HOST_MARK) && 0 !in text
    ensures AttemptAt(text, p) == if found then Found(rec, next) else Retry
    ensures found ==> p < next <= |text| && 0 !in rec.mac && 0 !in rec.src
  {
    hide Unescape, SrcEnd, ReadInt, Find;
    found, rec, next := false, Record([], [], [], 0), 0;
    if p < 18 || text[p - 18] != QUOTE { return; }
    var hn, q := ReadName(text, p + 8);
    if q >= |text| || text[q] != QUOTE { return; }
    var marker := Find(text, q, SRC_MARK);
    if marker == None { return; }
    var src, r := ReadSrc(text, marker.value + 6);
    if r >= |text| || text[r] != QUOTE { return; }
    var time := Find(text, r, TIME_MARK);
    var t := 0;
    if time.Some? { t := ReadInt(text, time.value + 5); }
    found, rec, next := true, Record(text[p - 17..p], hn, src, t), r + 1;
  }

  lemma NoneLeft(first: bool)
    ensures EntriesText([], first) == [CLOSE, 10]
  {
  }

  /** The loader stops storing after 1024 entries. */
  function Capped(rs: seq<Record>): (r: seq<Record>)
    ensures |r| <= MAX_ENTRIES
  {
    if |rs| > MAX_ENTRIES then rs[..MAX_ENTRIES] else rs
  }

  lemma OverlayNothing(slots: seq<Entry>)
    ensures Overlay(slots, []) == slots
  {
  }

  lemma ParseStep(text: seq<byte>, p: nat)
    ensures var m := Find(text, p, HOST_MARK);
            && (m == None ==> ParseFrom(text, p) == [])
            && (m.Some? ==>
                  && m.value < |text|
                  && var a := AttemptAt(text, m.value);
                     ParseFrom(text, p) == if a.Retry? then ParseFrom(text, m.value + 1) else Stored(a.rec) + ParseFrom(text, a.next))
  {
    hide AttemptAt, Find;
  }

  lemma ValidAt(slots: seq<Entry>, i: nat)
    requires ValidSlots(slots) && i < |slots|
    ensures ValidEntry(slots[i]) && 0 !in slots[i].mac && 0 !in slots[i].hostname
  {
  }

  lemma ValidWrite(slots: seq<Entry>, i: nat, e: Entry)
    requires ValidSlots(slots) && i < |slots| && ValidEntry(e)
    ensures ValidSlots(slots[i := e])
  {
  }

  lemma EntryOfValid(r: Record)
    requires 0 !in r.mac && 0 !in r.hostname && 0 !in r.src
    ensures ValidEntry(EntryOf(r))
  {
    CutField(r.mac, MAC_LEN);
    CutField(r.hostname, HOST_ROOM);
    CutField(r.src, SRC_ROOM);
  }

  lemma OverlaySnoc(before: seq<Entry>, rs: seq<Record>, r: Record)
    requires |rs| < |before|
    ensures Overlay(before, rs + [r]) == Overlay(before, rs)[|rs| := EntryOf(r)]
  {
    var a, b := Overlay(before, rs + [r]), Overlay(before, rs)[|rs| := EntryOf(r)];
    assert |a| == |b| && forall i :: 0 <= i < |a| ==> a[i] == b[i];
  }

  class HostnameCache {
    var slots: array<Entry>
    var dirty: bool
    var hasPath: bool
    var file: Option<seq<byte>>
    ghost var saved: seq<Entry>

    /** dirty = 0: nothing but times has changed since the last init, save or load. */
    ghost predicate Valid()
      reads this, slots
    {
      && ValidSlots(slots[..])
      && (!dirty ==> Content(slots[..]) == saved)
    }

    constructor (path: bool, onDisk: Option<seq<byte>>)
      ensures Valid() && fresh(slots) && !dirty && hasPath == path && file == onDisk
      ensures forall i :: 0 <= i < slots.Length ==> slots[i] == EMPTY
    {
      slots := new Entry[MAX_ENTRIES](i => EMPTY);
      dirty, hasPath, file := false, path, onDisk;
      new;
      saved := Content(slots[..]);
    }

    /** hnc_cache_lookup; the answers are cut to the caller's buffers. */
    method Lookup(mac: seq<byte>, hnLen: nat, srcLen: nat) returns (hit: bool, hn: seq<byte>, src: seq<byte>)
      requires Valid() && 0 !in mac
      ensures hnLen == 0 || srcLen == 0 ==> !hit
      ensures hnLen > 0 && srcLen > 0 ==> (hit <==> LookUp(slots[..], mac).Some?)
      ensures hit ==> var v := LookUp(slots[..], mac).value;
                      hn == Cut(v.hostname, hnLen - 1) && src == Cut(v.src, srcLen - 1)
    {
      hit, hn, src := false, [], [];
      if hnLen == 0 || srcLen == 0 { return; }
      var i := FindMac(mac);
      if i < slots.Length {
        hit, hn, src := true, Cut(slots[i].hostname, hnLen - 1), Cut(slots[i].src, srcLen - 1);
      }
    }

    method FindMac(mac: seq<byte>) returns (i: nat)
      requires Valid() && 0 !in mac
      ensures i == Matching(slots[..], mac, 0)
    {
      hide MacEq;
      i := 0;
      while i < slots.Length
        invariant i <= slots.Length && Matching(slots[..], mac, 0) == Matching(slots[..], mac, i)
      {
        if slots[i].active {
          ValidAt(slots[..], i);
          var same := MacEqual(slots[i].mac, mac);
          if same { return; }
        }
        i := i + 1;
      }
    }

    /** hnc_cache_update; answers whether the table has something new to save. */
    method Update(mac: seq<byte>, hostname: seq<byte>, src: seq<byte>, now: int) returns (changed: bool)
      requires Valid() && 0 !in mac && 0 !in hostname && 0 !in src
      modifies this`dirty, slots
      ensures Valid()
      ensures AfterUpdate(old(slots[..]), mac, hostname, src, now) == UpdateResult(slots[..], changed)
      ensures dirty == (old(dirty) || changed)
    {
      hide MacEq, Content, ValidEntry;
      if mac == [] || hostname == [] || src == [] { return false; }
      ghost var before := slots[..];
      var i := FindMac(mac);
      if i < slots.Length {
        if slots[i].hostname != hostname || slots[i].src != src {
          ValidAt(before, i);
          WrittenValid(before, i, slots[i].mac, hostname, src, now);
          slots[i] := Written(slots[i].mac, hostname, src, now);
          dirty := true;
          assert slots[..] == before[i := slots[i]];
          return true;
        }
        TimeOnly(before, i, now);
        slots[i] := slots[i].(updatedAt := now);
        assert slots[..] == before[i := slots[i]];
        return false;
      }
      var free := 0;
      while free < slots.Length && slots[free].active
        invariant free <= slots.Length && FreeSlot(slots[..], 0) == FreeSlot(slots[..], free)
      {
        free := free + 1;
      }
      var v := free;
      if free == slots.Length { v := FindOldest(); }
      WrittenValid(before, v, mac, hostname, src, now);
      slots[v] := Written(mac, hostname, src, now);
      dirty := true;
      assert slots[..] == before[v := slots[v]];
      return true;
    }

    method FindOldest() returns (v: nat)
      requires Valid()
      ensures v == OldestSlot(slots[..], 1, 0)
    {
      v := 0;
      for i := 1 to slots.Length
        invariant v < i && OldestSlot(slots[..], 1, 0) == OldestSlot(slots[..], i, v)
      {
        if slots[i].updatedAt < slots[v].updatedAt { v := i; }
      }
    }

    /** hnc_cache_save; `ioOk` stands for every file operation succeeding. */
    method Save(ioOk: bool) returns (rc: int)
      requires Valid()
      modifies this`dirty, this`file, this`saved
      ensures Valid()
      ensures rc == if hasPath && ioOk then 0 else -1
      ensures rc == 0 ==> file == Some(FileText(Active(slots[..]))) && !dirty
      ensures rc != 0 ==> file == old(file) && dirty == old(dirty)
    {
      hide Content, ValidEntry, MacEq, FileText;
      if !hasPath || !ioOk { return -1; }
      var text := PrintAll();
      file := Some(text);
      dirty := false;
      saved := Content(slots[..]);
      return 0;
    }

    method PrintAll() returns (text: seq<byte>)
      requires Valid()
      ensures text == FileText(Active(slots[..]))
    {
      hide Content, ValidEntry, MacEq, EntriesText, EntryText;
      text := [OPEN];
      var first := true;
      for i := 0 to slots.Length
        invariant FileText(Active(slots[..])) == text + EntriesText(ActiveFrom(slots[..], i), first)
      {
        if slots[i].active {
          ValidAt(slots[..], i);
          var printed := PrintEntry(slots[i]);
          ActiveStep(slots[..], i, first);
          text := text + ((if first then [] else [COMMA]) + printed);
          first := false;
        }
      }
      NoneLeft(first);
      text := text + [CLOSE, 10];
    }

    /** hnc_cache_load; the file's entries overwrite the first slots. */
    method Load() returns (loaded: nat)
      requires Valid()
      modifies this`dirty, this`saved, slots
      ensures Valid()
      ensures if hasPath && file.Some? && Parse(file.value).Some? then
                var rs := Parse(file.value).value;
                loaded == |rs| && slots[..] == Overlay(old(slots[..]), rs) && !dirty
              else
                loaded == 0 && slots[..] == old(slots[..]) && dirty == old(dirty)
    {
      hide MacEq, Content, ValidEntry, ParseFrom, Overlay;
      if !hasPath || file == None { return 0; }
      if |file.value| == 0 || |file.value| > MAX_FILE { return 0; }
      loaded := LoadText(CStr(file.value));
      dirty := false;
      saved := Content(slots[..]);
    }

    /** The loop over the markers. */
    method LoadText(text: seq<byte>) returns (loaded: nat)
      requires ValidSlots(slots[..]) && 0 !in text
      modifies slots
      ensures ValidSlots(slots[..]) && loaded == |Capped(ParseFrom(text, 0))|
      ensures slots[..] == Overlay(old(slots[..]), Capped(ParseFrom(text, 0)))
    {
      hide ValidEntry, ParseFrom, Overlay, Stored, AttemptAt;
      ghost var before := slots[..];
      loaded := 0;
      var p: nat := 0;
      ghost var done: seq<Record> := [];
      OverlayNothing(before);
      while true
        invariant ValidSlots(slots[..]) && p <= |text|
        invariant ParseFrom(text, 0) == done + ParseFrom(text, p)
        invariant loaded == |Capped(done)|
        invariant slots[..] == Overlay(before, Capped(done))
        decreases |text| - p
      {
        var m := Find(text, p, HOST_MARK);
        ParseStep(text, p);
        if m == None {
          assert done + [] == done;
          return;
        }
        var found, rec, next := ReadEntry(text, m.value);
        if !found {
          p := m.value + 1;
          continue;
        }
        assert done + (Stored(rec) + ParseFrom(text, next)) == (done + Stored(rec)) + ParseFrom(text, next);
        loaded := Store(rec, loaded, before, done);
        done := done + Stored(rec);
        p := next;
      }
    }

    /** Stores one record behind those already loaded, if there is room. */
    method Store(rec: Record, loaded: nat, ghost before: seq<Entry>, ghost done: seq<Record>) returns (n: nat)
      requires ValidSlots(slots[..]) && |before| == MAX_ENTRIES && 0 !in rec.mac && 0 !in rec.src
      requires loaded == |Capped(done)| && slots[..] == Overlay(before, Capped(done))
      modifies slots
      ensures ValidSlots(slots[..]) && n == |Capped(done + Stored(rec))|
      ensures slots[..] == Overlay(before, Capped(done + Stored(rec)))
    {
      hide ValidEntry, Overlay;
      n := loaded;
      if rec.hostname == [] || rec.src == [] {
        assert done + [] == done;
        return;
      }
      var r := rec.(hostname := CStr(rec.hostname));
      if loaded < MAX_ENTRIES {
        assert Capped(done + [r]) == Capped(done) + [r];
        EntryOfValid(r);
        ValidWrite(slots[..], loaded, EntryOf(r));
        OverlaySnoc(before, Capped(done), r);
        ghost var now := slots[..];
        slots[loaded] := EntryOf(r);
        assert slots[..] == now[loaded := EntryOf(r)];
        n := loaded + 1;
      } else {
        assert Capped(done + [r]) == Capped(done);
      }
    }
  }
}
