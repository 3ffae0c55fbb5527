/**
 The offload scheduler: the set of rate-limited devices, the primary upstream, and when
 the adapter is told to disable or restore offloading.
 */
module OffloadScheduler {
  import opened Bytes
  import opened OffloadAdapter
  import opened DistinctLists

  const MAX_LIMITED := 256
  const MAC_LEN := 17

  // ----- MAC addresses

  predicate IsHex(c: char) { '0' <= c <= '9' || 'a' <= c <= 'f' || 'A' <= c <= 'F' }

  function LowerHex(c: char): char {
    if 'A' <= c <= 'Z' then ((c as int) + 32) as char else c
  }

  predicate MacChar(c: char, i: nat) { if i % 3 == 2 then c == ':' else IsHex(c) }

  /** Seventeen characters of a MAC; a newline or a blank may follow. */
  predicate IsMac(s: string) {
    && |s| >= MAC_LEN
    && (forall i :: 0 <= i < MAC_LEN ==> MacChar(s[i], i))
    && (|s| > MAC_LEN ==> s[MAC_LEN] == '\n' || s[MAC_LEN] == ' ')
  }

  function Normal(s: string): string
    requires IsMac(s)
  {
    seq(MAC_LEN, i requires 0 <= i < MAC_LEN => LowerHex(s[i]))
  }

  /** Six bytes in hexadecimal, two digits each, with colons between them. */
  function MacText(b: seq<byte>, digits: string): string
    requires |b| == 6 && |digits| == 16
  {
    seq(MAC_LEN, i requires 0 <= i < 17 =>
      if i % 3 == 2 then ':' else digits[if i % 3 == 0 then b[i / 3] / 16 else b[i / 3] % 16])
  }

  /** An address in upper or lower case is accepted, alone or before a newline or a blank, and
      its lower-case form is kept. */
  lemma AddressAccepted(b: seq<byte>, digits: string, rest: string)
    requires |b| == 6 && (digits == "0123456789ABCDEF" || digits == "0123456789abcdef")
    ensures IsMac(MacText(b, digits) + rest) <==> rest == "" || rest[0] == '\n' || rest[0] == ' '
    ensures IsMac(MacText(b, digits) + rest) ==> Normal(MacText(b, digits) + rest) == MacText(b, "0123456789abcdef")
  {
    var s := MacText(b, digits) + rest;
    assert forall i :: 0 <= i < 17 ==> s[i] == MacText(b, digits)[i];
    assert |s| > 17 ==> s[17] == rest[0];
  }

  method NormalizeMac(s: string) returns (mac: Option<string>)
    ensures mac == if IsMac(s) then Some(Normal(s)) else None
  {
    var out := "";
    for i := 0 to MAC_LEN
      invariant |out| == i <= |s|
      invariant forall k :: 0 <= k < i ==> MacChar(s[k], k) && out[k] == LowerHex(s[k])
    {
      if i >= |s| { return None; }
      if i % 3 == 2 {
        if s[i] != ':' { return None; }
        out := out + [':'];
      } else {
        if !IsHex(s[i]) { return None; }
        out := out + [LowerHex(s[i])];
      }
    }
    if |s| > MAC_LEN && s[MAC_LEN] != '\n' && s[MAC_LEN] != ' ' { return None; }
    assert IsMac(s) && out == Normal(s);
    return Some(out);
  }

  // ----- States and steps

  /** The limited devices, the primary upstream, the kernel map and the adapter's list. */
  datatype State = State(limited: set<string>, primary: int, limits: Limits, listed: set<nat>)

  function Detected(primary: int, found: Option<nat>): int {
    if found.Some? then found.value else primary
  }

  /** trigger_adapter_disable: the primary upstream, or everything when there is none. */
  ghost predicate Disabled(s: State, t: State) {
    && t.limited == s.limited && t.primary == s.primary
    && (s.primary > 0 ==> t.limits == s.limits[s.primary := LIMIT_ZERO] && ListedAll(s.listed, {s.primary}, t.listed))
    && (s.primary <= 0 ==> t.limits == AllSet(s.limits, LIMIT_ZERO) && ListedAll(s.listed, s.limits.Keys, t.listed))
  }

  /** trigger_adapter_restore: always everything. */
  predicate Restored(s: State, t: State) {
    t == State(s.limited, s.primary, AllSet(s.limits, LIMIT_NONE), {})
  }

  function WithMac(limited: set<string>, mac: string, on: bool): set<string> {
    if !on then limited - {mac}
    else if |limited| < MAX_LIMITED then limited + {mac}
    else limited
  }

  /** A device became limited or stopped being so. */
  ghost predicate Notified(s: State, mac: string, on: bool, found: Option<nat>, t: State) {
    var limited := WithMac(s.limited, mac, on);
    if s.limited == {} && limited != {} then Disabled(s.(limited := limited, primary := Detected(s.primary, found)), t)
    else if s.limited != {} && limited == {} then Restored(s.(limited := limited), t)
    else t == s.(limited := limited)
  }

  /** The worker's periodic probe. */
  ghost predicate Probed(s: State, found: Option<nat>, t: State) {
    var now := Detected(s.primary, found);
    if s.limited != {} && now > 0 && s.primary >= 0 && now != s.primary then Disabled(s.(primary := now), t)
    else t == s.(primary := now)
  }

  ghost predicate GloballyDisabled(s: State, t: State) {
    t == s.(limits := AllSet(s.limits, LIMIT_ZERO), listed := t.listed) && ListedAll(s.listed, s.limits.Keys, t.listed)
  }

  // ----- The scheduler

  class Scheduler {
    const adapter: BpfAdapter
    const macs: array<string>
    var limitedCount: nat
    var primary: int

    ghost predicate Valid()
      reads this, macs, adapter, adapter.disabled
    {
      && macs.Length == MAX_LIMITED && limitedCount <= MAX_LIMITED && AllDifferent(macs[..limitedCount])
      && adapter.Valid()
    }

    ghost function View(): State
      reads this, macs, adapter, adapter.disabled
      requires Valid()
    {
      State(SetOf(macs[..limitedCount]), primary, adapter.limits, adapter.Listed())
    }

    constructor (a: BpfAdapter)
      requires a.Valid()
      ensures Valid() && adapter == a && fresh(macs) && View() == State({}, 0, a.limits, a.Listed())
    {
      adapter := a;
      macs := new string[MAX_LIMITED](i => "");
      limitedCount, primary := 0, 0;
    }

    method LimitedSetFind(mac: string) returns (i: int)
      requires Valid()
      ensures -1 <= i < limitedCount
      ensures i >= 0 ==> macs[i] == mac
      ensures i == -1 <==> mac !in SetOf(macs[..limitedCount])
    {
      i := 0;
      while i < limitedCount
        invariant 0 <= i <= limitedCount && mac !in macs[..i]
      {
        if macs[i] == mac {
          assert macs[..limitedCount][i] == mac;
          return;
        }
        assert macs[..i + 1] == macs[..i] + [macs[i]];
        i := i + 1;
      }
      i := -1;
    }

    method LimitedSetAdd(mac: string)
      requires Valid()
      modifies this`limitedCount, macs
      ensures Valid() && View() == old(View()).(limited := WithMac(old(View()).limited, mac, true))
      ensures limitedCount == |View().limited|
    {
      hide AllDifferent;
      ghost var before := macs[..limitedCount];
      SizeOfDistinct(before);
      var i := LimitedSetFind(mac);
      if i >= 0 {
        assert SetOf(before) + {mac} == SetOf(before);
        return;
      }
      if limitedCount >= MAX_LIMITED { return; }
      macs[limitedCount] := mac;
      limitedCount := limitedCount + 1;
      assert macs[..limitedCount] == before + [mac];
      SnocDistinct(before, mac);
      SizeOfDistinct(macs[..limitedCount]);
    }

    /** The last MAC fills the hole. */
    method LimitedSetRemove(mac: string)
      requires Valid()
      modifies this`limitedCount, macs
      ensures Valid() && View() == old(View()).(limited := WithMac(old(View()).limited, mac, false))
    {
      ghost var before := macs[..limitedCount];
      var i := LimitedSetFind(mac);
      if i < 0 {
        assert SetOf(before) - {mac} == SetOf(before);
        return;
      }
      limitedCount := limitedCount - 1;
      if i != limitedCount { macs[i] := macs[limitedCount]; }
      macs[limitedCount] := "";
      assert macs[..limitedCount] == if i == |before| - 1 then before[..|before| - 1] else before[..|before| - 1][i := before[|before| - 1]];
      FillHole(before, macs[..limitedCount], i);
    }

    /** The probe result, or the value kept when the probe fails. */
    method RefreshPrimary(found: Option<nat>)
      requires Valid()
      modifies this`primary
      ensures Valid() && View() == old(View()).(primary := Detected(old(primary), found))
    {
      if found.Some? { primary := found.value; }
    }

    method TriggerDisable()
      requires Valid()
      modifies adapter`limits, adapter`count, adapter`globallyDisabled, adapter.disabled
      ensures Valid() && Disabled(old(View()), View())
    {
      if primary <= 0 {
        var e := adapter.DisableGlobal();
        return;
      }
      var e := adapter.DisableUpstream(primary);
    }

    method TriggerRestore()
      requires Valid()
      modifies adapter`limits, adapter`count, adapter`globallyDisabled, adapter.disabled
      ensures Valid() && Restored(old(View()), View())
    {
      var e := adapter.RestoreGlobal();
    }

    method NotifyDeviceLimitChanged(text: string, isLimited: bool, found: Option<nat>)
      requires Valid() && macs as object != adapter.disabled as object
      modifies this`limitedCount, this`primary, macs, adapter`limits, adapter`count, adapter`globallyDisabled, adapter.disabled
      ensures Valid()
      ensures if IsMac(text) then Notified(old(View()), Normal(text), isLimited, found, View()) else View() == old(View())
    {
      var mac := NormalizeMac(text);
      if mac == None { return; }
      var oldCount := limitedCount;
      EmptySetOf(macs[..limitedCount]);
      if isLimited { LimitedSetAdd(mac.value); } else { LimitedSetRemove(mac.value); }
      var newCount := limitedCount;
      EmptySetOf(macs[..limitedCount]);
      if oldCount == 0 && newCount > 0 {
        RefreshPrimary(found);
        TriggerDisable();
      } else if oldCount > 0 && newCount == 0 {
        TriggerRestore();
      }
    }

    /** The locked part of one worker turn. */
    method WorkerProbe(found: Option<nat>)
      requires Valid()
      modifies this`primary, adapter`limits, adapter`count, adapter`globallyDisabled, adapter.disabled
      ensures Valid() && Probed(old(View()), found, View())
    {
      EmptySetOf(macs[..limitedCount]);
      var prev := primary;
      RefreshPrimary(found);
      var now := primary;
      var needRetrigger := prev == 0 && now > 0 && limitedCount > 0;
      if prev > 0 && now > 0 && prev != now && limitedCount > 0 { needRetrigger := true; }
      if needRetrigger { TriggerDisable(); }
    }

    method ForceDisableGlobal()
      requires Valid()
      modifies adapter`limits, adapter`count, adapter`globallyDisabled, adapter.disabled
      ensures Valid() && GloballyDisabled(old(View()), View())
    {
      var e := adapter.DisableGlobal();
    }

    /** First half of a forced restore, under the scheduler's lock. */
    method ForceRestoreClear()
      requires Valid()
      modifies this`limitedCount
      ensures Valid() && View() == old(View()).(limited := {})
    {
      limitedCount := 0;
      EmptySetOf(macs[..limitedCount]);
    }

    /** Second half, without it. */
    method ForceRestoreFinish()
      requires Valid()
      modifies adapter`limits, adapter`count, adapter`globallyDisabled, adapter.disabled
      ensures Valid() && Restored(old(View()), View())
    {
      var e := adapter.RestoreGlobal();
    }
  }
}
