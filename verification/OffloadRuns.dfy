/**
 Whole runs of the scheduler after its initialisation. The control thread runs
 notifications and forced operations one after another; the worker may probe between
 any two steps, also between the two halves of a forced restore.
 */
module OffloadRuns {
  import opened Bytes
  import opened OffloadAdapter
  import opened OffloadScheduler

  /** `restoring`: the control thread is between the halves of a forced restore. */
  datatype Sys = Sys(st: State, restoring: bool)

  datatype Action =
    | Notify(mac: string, on: bool, found: Option<nat>)
    | Probe(found: Option<nat>)
    | ForceDisable
    | ForceRestoreClear
    | ForceRestoreFinish

  /** A probe that succeeds finds an interface index above 0. */
  predicate Real(found: Option<nat>) { found.Some? ==> found.value > 0 }

  ghost predicate Next(s: Sys, a: Action, t: Sys) {
    match a
    case Notify(mac, on, found) => !s.restoring && Real(found) && Notified(s.st, mac, on, found, t.st) && !t.restoring
    case Probe(found) => Real(found) && Probed(s.st, found, t.st) && t.restoring == s.restoring
    case ForceDisable => !s.restoring && GloballyDisabled(s.st, t.st) && !t.restoring
    case ForceRestoreClear => !s.restoring && t == Sys(s.st.(limited := {}), true)
    case ForceRestoreFinish => s.restoring && Restored(s.st, t.st) && !t.restoring
  }

  /** While devices are limited and the upstream is known, its offload limit is 0. */
  predicate Throttled(st: State) {
    st.limited != {} && st.primary > 0 ==> st.primary in st.limits && st.limits[st.primary] == LIMIT_ZERO
  }

  /** Every interface the adapter lists is really held at 0. */
  predicate ListedTruly(st: State) {
    forall k :: k in st.listed ==> k in st.limits && st.limits[k] == LIMIT_ZERO
  }

  predicate Lifted(st: State) {
    st.listed == {} && forall k :: k in st.limits ==> st.limits[k] == LIMIT_NONE
  }

  ghost predicate Inv(s: Sys) {
    && Throttled(s.st) && ListedTruly(s.st) && s.st.primary >= 0
    && (s.restoring ==> s.st.limited == {})
  }

  lemma DisabledKeeps(s: State, t: State)
    requires Disabled(s, t) && ListedTruly(s)
    ensures Throttled(t) && ListedTruly(t)
  {
  }

  lemma StepKeeps(s: Sys, a: Action, t: Sys)
    requires Inv(s) && Next(s, a, t)
    ensures Inv(t)
  {
    hide ListedAll, AllSet, Disabled;
    match a
    case Notify(mac, on, found) => NotifyKeeps(s, mac, on, found, t);
    case Probe(found) => ProbeKeeps(s, found, t);
    case ForceDisable => GlobalKeeps(s, t);
    case ForceRestoreClear =>
    case ForceRestoreFinish => RestoredIsLifted(s.st, t.st);
  }

  lemma NotifyKeeps(s: Sys, mac: string, on: bool, found: Option<nat>, t: Sys)
    requires Inv(s) && Next(s, Notify(mac, on, found), t)
    ensures Inv(t)
  {
    hide ListedAll, AllSet;
    var limited := WithMac(s.st.limited, mac, on);
    if s.st.limited == {} && limited != {} {
      DisabledKeeps(s.st.(limited := limited, primary := Detected(s.st.primary, found)), t.st);
    } else if s.st.limited != {} && limited == {} {
      RestoredIsLifted(s.st.(limited := limited), t.st);
    }
  }

  lemma ProbeKeeps(s: Sys, found: Option<nat>, t: Sys)
    requires Inv(s) && Next(s, Probe(found), t)
    ensures Inv(t)
  {
    hide ListedAll, AllSet;
    var now := Detected(s.st.primary, found);
    if s.st.limited != {} && now > 0 && now != s.st.primary {
      DisabledKeeps(s.st.(primary := now), t.st);
    }
  }

  lemma GlobalKeeps(s: Sys, t: Sys)
    requires Inv(s) && Next(s, ForceDisable, t)
    ensures Inv(t)
  {
  }

  lemma RestoredIsLifted(s: State, t: State)
    requires Restored(s, t)
    ensures Lifted(t) && ListedTruly(t)
  {
  }

  /** Main result: a step that empties the set of limited devices leaves no limit and an empty list. */
  lemma EmptyingLifts(s: Sys, a: Action, t: Sys)
    requires Inv(s) && Next(s, a, t)
    ensures s.st.limited != {} && t.st.limited == {} && !t.restoring ==> Lifted(t.st)
    ensures s.restoring && !t.restoring ==> Lifted(t.st) && t.st.limited == {}
  {
    hide ListedAll, AllSet;
    if a.Notify? && s.st.limited != {} && WithMac(s.st.limited, a.mac, a.on) == {} {
      RestoredIsLifted(s.st.(limited := {}), t.st);
    }
    if a.ForceRestoreFinish? {
      RestoredIsLifted(s.st, t.st);
    }
  }

  ghost predicate Run(states: seq<Sys>, acts: seq<Action>) {
    |states| == |acts| + 1 && forall i :: 0 <= i < |acts| ==> Next(states[i], acts[i], states[i + 1])
  }

  /** What initialisation leaves: no device, or the rebuilt devices and one disable. */
  ghost predicate Initialised(s: Sys) {
    && !s.restoring && s.st.primary >= 0
    && exists before: State :: before.listed == {} && if before.limited == {} then s.st == before else Disabled(before, s.st)
  }

  /** Main result: in every run after initialisation the primary upstream of limited devices is held at 0. */
  lemma {:induction false} AlwaysThrottled(states: seq<Sys>, acts: seq<Action>, i: nat)
    requires Run(states, acts) && Initialised(states[0]) && i < |states|
    ensures Inv(states[i])
    decreases i
  {
    hide Next;
    if i == 0 {
      InitialisedInv(states[0]);
    } else {
      AlwaysThrottled(states, acts, i - 1);
      StepKeeps(states[i - 1], acts[i - 1], states[i]);
    }
  }

  lemma InitialisedInv(s: Sys)
    requires Initialised(s)
    ensures Inv(s)
  {
    var before: State :| before.listed == {} && if before.limited == {} then s.st == before else Disabled(before, s.st);
    if before.limited != {} {
      DisabledKeeps(before, s.st);
    }
  }

  // ----- Which devices are limited

  /** Every limit there is becomes `v`. */
  predicate Everywhere(limits: Limits, v: nat, now: Limits) {
    now.Keys == limits.Keys && forall k :: k in now ==> now[k] == v
  }

  /** The interface `k` is held at 0 and the other limits stay. */
  predicate HeldAtZero(limits: Limits, k: int, now: Limits) {
    && k >= 0 && now.Keys == limits.Keys + {k as nat} && now[k as nat] == 0
    && forall j :: j in limits && j != k ==> now[j] == limits[j]
  }

  /** Interfaces are added to the adapter's list of eight places until it is full. */
  predicate ListedToo(before: set<nat>, more: set<nat>, now: set<nat>) {
    before <= now <= before + more && (more <= now || |now| == 8)
  }

  /** Offloading stops: on the primary upstream, or everywhere when none is known. */
  predicate Stopped(limits: Limits, listed: set<nat>, t: State) {
    if t.primary > 0 then HeldAtZero(limits, t.primary, t.limits) && ListedToo(listed, {t.primary}, t.listed)
    else Everywhere(limits, 0, t.limits) && ListedToo(listed, limits.Keys, t.listed)
  }

  lemma DisabledStops(s: State, t: State)
    requires Disabled(s, t)
    ensures t.limited == s.limited && t.primary == s.primary && Stopped(s.limits, s.listed, t)
  {
  }

  /**
   A notification concerns its own device alone: "off" takes it out, "on" puts it in unless 256
   others are in. The first device looks for the primary upstream and stops offloading, the
   last one to go lifts every limit, and nothing else touches upstream or limits.
   */
  lemma NotifiedExactly(s: State, mac: string, on: bool, found: Option<nat>, t: State)
    requires Notified(s, mac, on, found, t)
    ensures forall m :: m != mac ==> (m in t.limited <==> m in s.limited)
    ensures mac in t.limited <==> on && (mac in s.limited || |s.limited| < 256)
    ensures t.primary == if s.limited == {} && t.limited != {} && found.Some? then found.value else s.primary
    ensures if s.limited == {} && t.limited != {} then Stopped(s.limits, s.listed, t)
            else if s.limited != {} && t.limited == {} then Everywhere(s.limits, 0xFFFF_FFFF_FFFF_FFFF, t.limits) && t.listed == {}
            else t.limits == s.limits && t.listed == s.listed
  {
    hide Disabled, Stopped;
    var limited := WithMac(s.limited, mac, on);
    if s.limited == {} && limited != {} {
      DisabledStops(s.(limited := limited, primary := Detected(s.primary, found)), t);
    }
  }

  /** A probe keeps the devices and stops offloading when it finds another upstream under them. */
  lemma ProbedExactly(s: State, found: Option<nat>, t: State)
    requires Probed(s, found, t) && Real(found) && s.primary >= 0
    ensures t.limited == s.limited
    ensures t.primary == if found.Some? then found.value else s.primary
    ensures if s.limited != {} && t.primary != s.primary then Stopped(s.limits, s.listed, t) else t.limits == s.limits && t.listed == s.listed
  {
    hide Disabled, Stopped;
    var now := Detected(s.primary, found);
    if s.limited != {} && now > 0 && now != s.primary {
      DisabledStops(s.(primary := now), t);
    }
  }

  /** The forced operations set every limit to 0, or to none, and only a restore forgets the devices. */
  lemma ForcedExactly(s: Sys, a: Action, t: Sys)
    requires Next(s, a, t) && !a.Notify? && !a.Probe?
    ensures t.st.primary == s.st.primary
    ensures t.st.limited == if a.ForceRestoreClear? then {} else s.st.limited
    ensures a.ForceDisable? ==> Everywhere(s.st.limits, 0, t.st.limits) && ListedToo(s.st.listed, s.st.limits.Keys, t.st.listed)
    ensures a.ForceRestoreClear? ==> t.st.limits == s.st.limits && t.st.listed == s.st.listed
    ensures a.ForceRestoreFinish? ==> Everywhere(s.st.limits, 0xFFFF_FFFF_FFFF_FFFF, t.st.limits) && t.st.listed == {}
  {
  }

  /** The last action before state i that says whether the device is limited. */
  function LastWord(acts: seq<Action>, i: nat, mac: string): (r: Option<nat>)
    requires i <= |acts|
    ensures match r
            case None => forall k :: 0 <= k < i ==> !Concerns(acts[k], mac)
            case Some(n) => n < i && Concerns(acts[n], mac) && forall k :: n < k < i ==> !Concerns(acts[k], mac)
  {
    if i == 0 then None
    else if Concerns(acts[i - 1], mac) then Some(i - 1)
    else LastWord(acts, i - 1, mac)
  }

  predicate Concerns(a: Action, mac: string) {
    a.ForceRestoreClear? || (a.Notify? && a.mac == mac)
  }

  /** An "on" for a device that is limited already or finds fewer than 256 limited ones. */
  predicate LimitsIt(s: State, a: Action, mac: string) {
    a.Notify? && a.on && (mac in s.limited || |s.limited| < 256)
  }

  lemma StepMembership(s: Sys, a: Action, t: Sys, mac: string)
    requires Inv(s) && Next(s, a, t)
    ensures mac in t.st.limited <==> if Concerns(a, mac) then LimitsIt(s.st, a, mac) else mac in s.st.limited
  {
    hide ListedAll, AllSet, Disabled, Stopped, Everywhere, Notified, Probed;
    match a
    case Notify(m, on, found) => NotifiedExactly(s.st, m, on, found, t.st);
    case Probe(found) => ProbedExactly(s.st, found, t.st);
    case ForceDisable => ForcedExactly(s, a, t);
    case ForceRestoreClear =>
    case ForceRestoreFinish => ForcedExactly(s, a, t);
  }

  /**
   Main result: in every state of every run a device is limited exactly when the last word about
   it was an "on" that had room; an "off" or a forced restore since then ends it.
   */
  lemma {:induction false} LimitedExactly(states: seq<Sys>, acts: seq<Action>, i: nat, mac: string)
    requires Run(states, acts) && Initialised(states[0]) && i < |states|
    ensures mac in states[i].st.limited
            <==> match LastWord(acts, i, mac)
                 case None => mac in states[0].st.limited
                 case Some(k) => LimitsIt(states[k].st, acts[k], mac)
    decreases i
  {
    hide Next, Inv, Initialised, LimitsIt;
    if i > 0 {
      AlwaysThrottled(states, acts, i - 1);
      StepMembership(states[i - 1], acts[i - 1], states[i], mac);
      LimitedExactly(states, acts, i - 1, mac);
    }
  }

  /** Main result: such a device keeps the limit of a known primary upstream at 0. */
  lemma LimitedIsThrottled(states: seq<Sys>, acts: seq<Action>, i: nat, k: nat, mac: string)
    requires Run(states, acts) && Initialised(states[0]) && k < i < |states|
    requires acts[k].Notify? && acts[k].mac == mac && acts[k].on && |states[k].st.limited| < 256
    requires forall j :: k < j < i ==> !acts[j].ForceRestoreClear? && !(acts[j].Notify? && acts[j].mac == mac && !acts[j].on)
    ensures mac in states[i].st.limited
    ensures states[i].st.primary > 0 ==> states[i].st.primary in states[i].st.limits && states[i].st.limits[states[i].st.primary] == 0
    decreases i
  {
    hide Next, Initialised;
    AlwaysThrottled(states, acts, i);
    AlwaysThrottled(states, acts, i - 1);
    StepMembership(states[i - 1], acts[i - 1], states[i], mac);
    if i - 1 > k {
      LimitedIsThrottled(states, acts, i - 1, k, mac);
    }
  }
}
