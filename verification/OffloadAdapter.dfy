/**
 The BPF offload adapter: limits written to the kernel's limit map, and the list of
 upstreams it reports as disabled. System calls succeed; nobody else writes the map.
 */
module OffloadAdapter {
  import opened DistinctLists

  const LIMIT_NONE := 0xFFFF_FFFF_FFFF_FFFF
  const LIMIT_ZERO := 0
  const MAX_DISABLED := 8

  datatype OffloadErr = OFFLOAD_OK | OFFLOAD_EINVAL

  type Limits = map<nat, nat>

  function AllSet(limits: Limits, v: nat): Limits {
    map k | k in limits :: v
  }

  /** Listing a set of interfaces in at most eight places: all of them, or the list is full. */
  ghost predicate ListedAll(listed: set<nat>, more: set<nat>, listed': set<nat>) {
    && listed <= listed' <= listed + more
    && (listed' == listed + more || |listed'| == MAX_DISABLED)
  }

  class BpfAdapter {
    var limits: Limits
    var disabled: array<nat>
    var count: nat
    var globallyDisabled: bool

    ghost predicate Valid()
      reads this, disabled
    {
      && disabled.Length == MAX_DISABLED && count <= MAX_DISABLED
      && AllDifferent(disabled[..count])
    }

    ghost function Listed(): set<nat>
      reads this, disabled
      requires Valid()
    {
      SetOf(disabled[..count])
    }

    constructor (kernel: Limits)
      ensures Valid() && fresh(disabled) && limits == kernel && Listed() == {} && !globallyDisabled
    {
      limits := kernel;
      disabled := new nat[MAX_DISABLED];
      count, globallyDisabled := 0, false;
    }

    /** bpf_map_update_elem; with BPF_EXIST it fails on a missing key. */
    method UpdateElem(key: nat, val: nat, mustExist: bool) returns (ok: bool)
      modifies this`limits
      ensures ok == (mustExist ==> key in old(limits))
      ensures limits == if ok then old(limits)[key := val] else old(limits)
    {
      ok := mustExist ==> key in limits;
      if ok { limits := limits[key := val]; }
    }

    method DisabledSetContains(ifindex: nat) returns (found: bool)
      requires Valid()
      ensures found == (ifindex in Listed())
    {
      for i := 0 to count
        invariant ifindex !in disabled[..i]
      {
        if disabled[i] == ifindex {
          assert disabled[..count][i] == ifindex;
          return true;
        }
        assert disabled[..i + 1] == disabled[..i] + [disabled[i]];
      }
      return false;
    }

    /** Drops the index when the list is full. */
    method DisabledSetAdd(ifindex: nat)
      requires Valid()
      modifies this`count, disabled
      ensures Valid()
      ensures Listed() == if |old(Listed())| < MAX_DISABLED then old(Listed()) + {ifindex} else old(Listed())
      ensures |old(Listed())| <= MAX_DISABLED
    {
      ghost var before := disabled[..count];
      SizeOfDistinct(before);
      var found := DisabledSetContains(ifindex);
      if found { return; }
      if count >= MAX_DISABLED { return; }
      disabled[count] := ifindex;
      count := count + 1;
      assert disabled[..count] == before + [ifindex];
      SnocDistinct(before, ifindex);
    }

    /** The last index fills the hole. */
    method DisabledSetRemove(ifindex: nat)
      requires Valid()
      modifies this`count, disabled
      ensures Valid() && Listed() == old(Listed()) - {ifindex}
    {
      ghost var before := disabled[..count];
      for i := 0 to count
        invariant count == old(count) && disabled[..count] == before
        invariant ifindex !in before[..i]
      {
        if disabled[i] == ifindex {
          assert before[i] == ifindex;
          count := count - 1;
          disabled[i] := disabled[count];
          FillHole(before, disabled[..count], i);
          return;
        }
        assert before[..i + 1] == before[..i] + [before[i]];
      }
      assert before[..count] == before;
    }

    method DisableUpstream(ifindex: nat) returns (e: OffloadErr)
      requires Valid()
      modifies this`limits, this`count, disabled
      ensures Valid()
      ensures ifindex <= 0 ==> e == OFFLOAD_EINVAL && limits == old(limits) && Listed() == old(Listed())
      ensures ifindex > 0 ==> e == OFFLOAD_OK && limits == old(limits)[ifindex := LIMIT_ZERO]
                              && ListedAll(old(Listed()), {ifindex}, Listed())
    {
      if ifindex <= 0 { return OFFLOAD_EINVAL; }
      var ok := UpdateElem(ifindex, LIMIT_ZERO, true);
      if !ok {
        ok := UpdateElem(ifindex, LIMIT_ZERO, false);
      }
      DisabledSetAdd(ifindex);
      e := OFFLOAD_OK;
    }

    method RestoreUpstream(ifindex: nat) returns (e: OffloadErr)
      requires Valid()
      modifies this`limits, this`count, disabled
      ensures Valid()
      ensures ifindex <= 0 ==> e == OFFLOAD_EINVAL && limits == old(limits) && Listed() == old(Listed())
      ensures ifindex > 0 ==> e == OFFLOAD_OK && Listed() == old(Listed()) - {ifindex}
                              && limits == if ifindex in old(limits) then old(limits)[ifindex := LIMIT_NONE] else old(limits)
    {
      if ifindex <= 0 { return OFFLOAD_EINVAL; }
      var ok := UpdateElem(ifindex, LIMIT_NONE, true);
      DisabledSetRemove(ifindex);
      e := OFFLOAD_OK;
    }

    /** Walks the kernel map, writing 0 to every entry. */
    method DisableGlobal() returns (e: OffloadErr)
      requires Valid()
      modifies this`limits, this`count, this`globallyDisabled, disabled
      ensures Valid() && e == OFFLOAD_OK
      ensures limits == AllSet(old(limits), LIMIT_ZERO)
      ensures ListedAll(old(Listed()), old(limits).Keys, Listed())
      ensures globallyDisabled == (old(globallyDisabled) || old(limits) != map[])
    {
      hide Walked, ListedAll, AllSet, SetOf, AllDifferent;
      var todo := limits.Keys;
      WalkedNothing(limits);
      ListedNothing(Listed(), todo);
      while todo != {}
        invariant Valid() && Walked(old(limits), todo, limits, LIMIT_ZERO)
        invariant ListedAll(old(Listed()), old(limits).Keys - todo, Listed())
        invariant globallyDisabled == old(globallyDisabled)
        decreases todo
      {
        var key :| key in todo;
        WalkedMore(old(limits), todo, limits, LIMIT_ZERO, key);
        var ok := UpdateElem(key, LIMIT_ZERO, true);
        ghost var was := Listed();
        DisabledSetAdd(key);
        ListedMore(old(Listed()), old(limits).Keys, todo, was, key, Listed());
        todo := todo - {key};
      }
      WalkedAll(old(limits), limits, LIMIT_ZERO);
      assert old(limits).Keys - {} == old(limits).Keys;
      if limits != map[] { globallyDisabled := true; }
      e := OFFLOAD_OK;
    }

    /** Walks the kernel map, lifting every limit, and clears the list. */
    method RestoreGlobal() returns (e: OffloadErr)
      requires Valid()
      modifies this`limits, this`count, this`globallyDisabled, disabled
      ensures Valid() && e == OFFLOAD_OK
      ensures limits == AllSet(old(limits), LIMIT_NONE) && Listed() == {} && !globallyDisabled
    {
      hide Walked, AllSet;
      var todo := limits.Keys;
      WalkedNothing(limits);
      while todo != {}
        invariant Valid() && Walked(old(limits), todo, limits, LIMIT_NONE)
        decreases todo
      {
        var key :| key in todo;
        WalkedMore(old(limits), todo, limits, LIMIT_NONE, key);
        var ok := UpdateElem(key, LIMIT_NONE, true);
        DisabledSetRemove(key);
        todo := todo - {key};
      }
      WalkedAll(old(limits), limits, LIMIT_NONE);
      globallyDisabled := false;
      count := 0;
      EmptySetOf(disabled[..count]);
      e := OFFLOAD_OK;
    }
  }

  /** A walk over the kernel map has written `v` to all keys but those left to do. */
  ghost predicate Walked(before: Limits, todo: set<nat>, now: Limits, v: nat) {
    && todo <= before.Keys && now.Keys == before.Keys
    && forall k :: k in now ==> now[k] == if k in todo then before[k] else v
  }

  lemma WalkedNothing(before: Limits)
    ensures forall v :: Walked(before, before.Keys, before, v)
  {
  }

  lemma WalkedMore(before: Limits, todo: set<nat>, now: Limits, v: nat, key: nat)
    requires Walked(before, todo, now, v) && key in todo
    ensures key in now && Walked(before, todo - {key}, now[key := v], v)
  {
  }

  lemma WalkedAll(before: Limits, now: Limits, v: nat)
    requires Walked(before, {}, now, v)
    ensures now == AllSet(before, v) && (now == map[] <==> before == map[])
  {
  }

  lemma ListedNothing(listed: set<nat>, keys: set<nat>)
    ensures ListedAll(listed, keys - keys, listed)
  {
  }

  lemma ListedMore(listed: set<nat>, keys: set<nat>, todo: set<nat>, was: set<nat>, key: nat, now: set<nat>)
    requires ListedAll(listed, keys - todo, was) && key in todo && todo <= keys
    requires now == if |was| < MAX_DISABLED then was + {key} else was
    requires |was| <= MAX_DISABLED
    ensures ListedAll(listed, keys - (todo - {key}), now)
  {
    assert keys - (todo - {key}) == (keys - todo) + {key};
  }
}
