/**
 Whole runs of the token protocol: a revocation in the file is never undone; and a
 request that synced after it never accepts the record, provided the file existed when
 the store was opened.
 */
module TokenRuns {
  import opened Bytes
  import opened TokenStore
  import opened TokenProtocol
  import opened CookieAuth

  /** A freshly opened store; requests `ids` have not begun. */
  function Init(file: Option<TokenFile>, ids: set<nat>): Sys {
    Sys(if file.Some? then Installed(Store(map[], {}, 0), file.value) else Store(map[], {}, 0),
        file,
        map r | r in ids :: Idle,
        if file.Some? then map id | id in Revoked(file.value.tokens) :: file.value.mtime else map[])
  }

  ghost predicate Reaches(s: Sys, acts: seq<Action>, t: Sys)
    decreases |acts|
  {
    if acts == [] then s == t else Enabled(s, acts[0]) && Reaches(Step(s, acts[0]), acts[1..], t)
  }

  lemma InitInv(file: TokenFile, ids: set<nat>)
    requires file.mtime > 0
    ensures Inv(Init(Some(file), ids))
  {
  }

  lemma {:induction false} RunKeeps(s: Sys, acts: seq<Action>, t: Sys)
    requires Inv(s) && Reaches(s, acts, t)
    ensures Inv(t)
    decreases |acts|
  {
    hide Inv, Step, Enabled;
    if acts != [] {
      StepKeeps(s, acts[0]);
      RunKeeps(Step(s, acts[0]), acts[1..], t);
    }
  }

  // ----- The file, whether it existed at the start or not

  /** Memory has every id of the file, and revoked whatever the file has revoked. */
  ghost predicate Agrees(mem: Tokens, disk: Tokens) {
    forall id :: id in disk ==> id in mem && (disk[id].revoked ==> mem[id].revoked)
  }

  /** What a request holds after its read: no newer than the file, and the file itself at the same mtime. */
  ghost predicate ReadSo(p: Phase, file: Option<TokenFile>) {
    p.Loaded? ==> file.Some? && p.f.mtime <= file.value.mtime && (p.f.mtime == file.value.mtime ==> p.f.tokens == file.value.tokens)
  }

  /** What every run keeps. */
  ghost predicate RunInv(s: Sys) {
    && (forall r :: r in s.reqs ==> ReadSo(s.reqs[r], s.file))
    && match s.file
       case None => s.store.lastRead == 0
       case Some(f) =>
         f.mtime > 0 && s.store.lastRead <= f.mtime && (s.store.lastRead == f.mtime ==> Agrees(s.store.tokens, f.tokens))
  }

  /** A save merges an unseen file, and otherwise writes what already agrees with it. */
  lemma SaveKeepsFile(s: Sys, store: Store, at: int)
    requires RunInv(s) && Later(s, at) && store.lastRead == s.store.lastRead
    ensures RunInv(SaveStep(s, store, at))
  {
    var t := SaveStep(s, store, at);
    assert t.store.tokens == t.file.value.tokens;
    forall r | r in t.reqs ensures ReadSo(t.reqs[r], t.file) { assert ReadSo(s.reqs[r], s.file); }
  }

  /** No save un-revokes a record that stays in the file. */
  lemma SaveKeepsRevocation(s: Sys, store: Store, at: int, id: string)
    requires RunInv(s) && s.file.Some? && id in Revoked(s.file.value.tokens) && store.lastRead == s.store.lastRead
    requires store.lastRead == s.file.value.mtime && id in store.tokens ==> store.tokens[id].revoked
    ensures id in SavedFile(store, s.file, at).tokens ==> id in Revoked(SavedFile(store, s.file, at).tokens)
  {
  }

  lemma RequestKeepsFile(s: Sys, a: Action)
    requires RunInv(s) && Enabled(s, a) && (a.Stat? || a.Compare? || a.Read? || a.Install?)
    ensures RunInv(Step(s, a))
  {
    var t := Step(s, a);
    assert ReadSo(s.reqs[a.r], s.file);
    forall r | r in t.reqs ensures ReadSo(t.reqs[r], t.file) {
      if r != a.r { assert ReadSo(s.reqs[r], s.file); }
    }
  }

  lemma RevokeKeepsFile(s: Sys, ids: set<string>, at: int)
    requires RunInv(s) && Enabled(s, Revoke(ids, at))
    ensures RunInv(Step(s, Revoke(ids, at)))
  {
    var t := Step(s, Revoke(ids, at));
    forall r | r in t.reqs ensures ReadSo(t.reqs[r], t.file) { assert ReadSo(s.reqs[r], s.file); }
  }

  lemma DeleteKeepsFile(s: Sys, ids: set<string>, at: int)
    requires RunInv(s) && Enabled(s, Delete(ids, at))
    ensures RunInv(Step(s, Delete(ids, at)))
  {
    var t := Step(s, Delete(ids, at));
    forall r | r in t.reqs ensures ReadSo(t.reqs[r], t.file) { assert ReadSo(s.reqs[r], s.file); }
  }

  lemma ReissuedKeepsFile(s: Sys, id: string)
    requires RunInv(s)
    ensures RunInv(Reissued(s, id)) && Reissued(s, id).file == s.file && Reissued(s, id).store == s.store
  {
  }

  /** Every step of every interleaving keeps it. */
  lemma StepKeepsFile(s: Sys, a: Action)
    requires RunInv(s) && Enabled(s, a)
    ensures RunInv(Step(s, a))
  {
    hide SaveStep, ReadSo, Agrees;
    match a
    case PutIfAbsent(id, t, at) =>
      if id !in s.store.tokens {
        ReissuedKeepsFile(s, id);
        SaveKeepsFile(Reissued(s, id), PutMem(s.store, id, t), at);
      }
    case Logout(id, t, at) => SaveKeepsFile(s, PutMem(s.store, id, t), at);
    case UpdateLastSeen(id, now) => TouchKeepsFile(s, id, now);
    case Flush(at) => SaveKeepsFile(s, s.store, at);
    case Prune(now, at) => SaveKeepsFile(s, Pruned(s.store, now), at);
    case Revoke(ids, at) => RevokeKeepsFile(s, ids, at);
    case Delete(ids, at) => DeleteKeepsFile(s, ids, at);
    case _ => RequestKeepsFile(s, a);
  }

  lemma TouchKeepsFile(s: Sys, id: string, now: int)
    requires RunInv(s)
    ensures RunInv(Step(s, UpdateLastSeen(id, now)))
  {
  }

  /** No step un-revokes a record that stays in the file. */
  lemma StepKeepsRevocation(s: Sys, a: Action, id: string)
    requires RunInv(s) && Enabled(s, a)
    requires s.file.Some? && id in Revoked(s.file.value.tokens)
    ensures var t := Step(s, a); t.file.Some? && (id in t.file.value.tokens ==> id in Revoked(t.file.value.tokens))
  {
    hide Merged, ReadSo;
    match a
    case PutIfAbsent(x, t, at) =>
      if x !in s.store.tokens {
        ReissuedKeepsFile(s, x);
        SaveKeepsRevocation(Reissued(s, x), PutMem(s.store, x, t), at, id);
      }
    case Logout(x, t, at) => SaveKeepsRevocation(s, PutMem(s.store, x, t), at, id);
    case Flush(at) => SaveKeepsRevocation(s, s.store, at, id);
    case Prune(now, at) => SaveKeepsRevocation(s, Pruned(s.store, now), at, id);
    case _ =>
  }

  lemma {:induction false} RunKeepsFile(s: Sys, acts: seq<Action>, t: Sys)
    requires RunInv(s) && Reaches(s, acts, t)
    ensures RunInv(t)
    decreases |acts|
  {
    hide RunInv, Step, Enabled;
    if acts != [] {
      StepKeepsFile(s, acts[0]);
      RunKeepsFile(Step(s, acts[0]), acts[1..], t);
    }
  }

  /** The id is in the file after each of the steps. */
  ghost predicate StaysInFile(s: Sys, acts: seq<Action>, id: string)
    decreases |acts|
  {
    && s.file.Some? && id in s.file.value.tokens
    && (acts != [] && Enabled(s, acts[0]) ==> StaysInFile(Step(s, acts[0]), acts[1..], id))
  }

  /**
   Main result: in every run, of a store opened on a file or without one, a record once revoked
   in the file stays revoked as long as it exists.
   */
  lemma RevokedStaysRevoked(file: Option<TokenFile>, ids: set<nat>, before: seq<Action>, s: Sys,
                            acts: seq<Action>, t: Sys, id: string)
    requires file.Some? ==> file.value.mtime > 0
    requires Reaches(Init(file, ids), before, s) && Reaches(s, acts, t)
    requires StaysInFile(s, acts, id) && id in Revoked(s.file.value.tokens)
    ensures t.file.Some? && id in Revoked(t.file.value.tokens)
  {
    hide RunInv, Reaches, StaysInFile, Revoked;
    InitKeepsFile(file, ids);
    RunKeepsFile(Init(file, ids), before, s);
    RevocationLasts(s, acts, t, id);
  }

  lemma InitKeepsFile(file: Option<TokenFile>, ids: set<nat>)
    requires file.Some? ==> file.value.mtime > 0
    ensures RunInv(Init(file, ids))
  {
  }

  lemma {:induction false} RevocationLasts(s: Sys, acts: seq<Action>, t: Sys, id: string)
    requires RunInv(s) && Reaches(s, acts, t) && StaysInFile(s, acts, id)
    requires id in Revoked(s.file.value.tokens)
    ensures t.file.Some? && id in Revoked(t.file.value.tokens)
    decreases |acts|
  {
    hide RunInv, Step, Enabled, Revoked;
    if acts != [] {
      var a := acts[0];
      StepKeepsFile(s, a);
      StepKeepsRevocation(s, a, id);
      RevocationLasts(Step(s, a), acts[1..], t, id);
    }
  }

  // ----- Verification

  /** In a safe state no cookie of a watched record is accepted. */
  lemma SafeRefuses(s: Sys, r: nat, cookie: string, now: int, bcryptOk: (string, string) -> bool)
    requires Safe(s) && r in s.reqs && s.reqs[r].Synced?
    ensures var v := Verified(s.store, cookie, now, bcryptOk);
            v.Some? ==> !StillWatched(s, s.reqs[r].watch, v.value.id)
  {
    var v := Verified(s.store, cookie, now, bcryptOk);
    if v.Some? {
      assert !Rejects(s.store, v.value.id);
    }
  }

  /**
   Main result: in every run of a store opened on its file, whatever cookie a request that has
   synced presents, at any time and whatever secrets match, the record accepted is none that was
   revoked in the file when the request began.
   */
  lemma WatchedIsRefused(file: TokenFile, ids: set<nat>, acts: seq<Action>, s: Sys,
                         r: nat, cookie: string, now: int, bcryptOk: (string, string) -> bool)
    requires file.mtime > 0 && Reaches(Init(Some(file), ids), acts, s)
    requires r in s.reqs && s.reqs[r].Synced?
    ensures var v := Verified(s.store, cookie, now, bcryptOk);
            v.Some? ==> !StillWatched(s, s.reqs[r].watch, v.value.id)
  {
    hide Inv, Safe, Reaches, Verified;
    InitInv(file, ids);
    RunKeeps(Init(Some(file), ids), acts, s);
    InvIsSafe(s);
    SafeRefuses(s, r, cookie, now, bcryptOk);
  }

  ghost predicate AllRunsSafe(file: Option<TokenFile>) {
    forall ids: set<nat>, acts: seq<Action>, t: Sys :: Reaches(Init(file, ids), acts, t) ==> Safe(t)
  }

  lemma PresentFileIsSafe(file: TokenFile)
    requires file.mtime > 0
    ensures AllRunsSafe(Some(file))
  {
    forall ids: set<nat>, acts: seq<Action>, t: Sys | Reaches(Init(Some(file), ids), acts, t) ensures Safe(t) {
      InitInv(file, ids);
      RunKeeps(Init(Some(file), ids), acts, t);
      InvIsSafe(t);
    }
  }

  // ----- Without a file at the start

  const X: string := "x"
  const LIVE := Token("", 1, 1, "", "", false)
  const DEAD := Token("", 1, 1, "", "", true)
  const SINCE: map<string, int> := map[X := 3]

  /** A state of the run below: the store, the file and requests 1, 2 and 3. */
  function State(store: Store, file: Option<TokenFile>, p1: Phase, p2: Phase, p3: Phase, since: map<string, int>): Sys {
    Sys(store, file, map[1 := p1, 2 := p2, 3 := p3], since)
  }

  function LiveFile(at: int): TokenFile { TokenFile(at, map[X := LIVE]) }

  function DeadFile(at: int): TokenFile { TokenFile(at, map[X := DEAD]) }

  const NONE: Store := Store(map[], {}, 0)
  const ISSUED: Store := Store(map[X := LIVE], {}, 1)
  const STALE: Phase := Loaded(LiveFile(2), map[])

  /**
   The run. Request 1 finds no file; x is issued; the file is rewritten unchanged;
   request 2 reads it; x is revoked; request 3 syncs; request 1 empties the map; request
   2 installs the contents it read before the revocation.
   */
  function Snapshot(i: nat): Sys
    requires i <= 13
  {
    if i == 0 then State(NONE, None, Idle, Idle, Idle, map[])
    else if i == 1 then State(NONE, None, StatedMissing, Idle, Idle, map[])
    else if i == 2 then State(ISSUED, Some(LiveFile(1)), StatedMissing, Idle, Idle, map[])
    else if i == 3 then State(ISSUED, Some(LiveFile(2)), StatedMissing, Idle, Idle, map[])
    else if i == 4 then State(ISSUED, Some(LiveFile(2)), StatedMissing, Stated(2, map[]), Idle, map[])
    else if i == 5 then State(ISSUED, Some(LiveFile(2)), StatedMissing, NeedReload(map[]), Idle, map[])
    else if i == 6 then State(ISSUED, Some(LiveFile(2)), StatedMissing, STALE, Idle, map[])
    else if i == 7 then State(ISSUED, Some(DeadFile(3)), StatedMissing, STALE, Idle, SINCE)
    else if i == 8 then State(ISSUED, Some(DeadFile(3)), StatedMissing, STALE, Stated(3, SINCE), SINCE)
    else if i == 9 then State(ISSUED, Some(DeadFile(3)), StatedMissing, STALE, NeedReload(SINCE), SINCE)
    else if i == 10 then State(ISSUED, Some(DeadFile(3)), StatedMissing, STALE, Loaded(DeadFile(3), SINCE), SINCE)
    else if i == 11 then State(Store(map[X := DEAD], {}, 3), Some(DeadFile(3)), StatedMissing, STALE, Synced(SINCE), SINCE)
    else if i == 12 then State(NONE, Some(DeadFile(3)), Synced(map[]), STALE, Synced(SINCE), SINCE)
    else State(Store(map[X := LIVE], {}, 2), Some(DeadFile(3)), Synced(map[]), Synced(map[]), Synced(SINCE), SINCE)
  }

  function Move(i: nat): Action
    requires i < 13
  {
    if i == 0 then Stat(1)
    else if i == 1 then PutIfAbsent(X, LIVE, 1)
    else if i == 2 then Revoke({}, 2)
    else if i == 3 then Stat(2)
    else if i == 4 then Compare(2)
    else if i == 5 then Read(2)
    else if i == 6 then Revoke({X}, 3)
    else if i == 7 then Stat(3)
    else if i == 8 then Compare(3)
    else if i == 9 then Read(3)
    else if i == 10 then Install(3)
    else if i == 11 then Install(1)
    else Install(2)
  }

  lemma RequestMoves(i: nat)
    requires i in {0, 3, 4, 5, 7, 8, 9}
    ensures Enabled(Snapshot(i), Move(i)) && Step(Snapshot(i), Move(i)) == Snapshot(i + 1)
  {
  }

  lemma InstallMoves(i: nat)
    requires i in {10, 11, 12}
    ensures Enabled(Snapshot(i), Move(i)) && Step(Snapshot(i), Move(i)) == Snapshot(i + 1)
  {
  }

  lemma PutMove()
    ensures Enabled(Snapshot(1), Move(1)) && Step(Snapshot(1), Move(1)) == Snapshot(2)
  {
    var t := Step(Snapshot(1), Move(1));
    assert t.store == Snapshot(2).store && t.file == Snapshot(2).file && t.since == Snapshot(2).since;
  }

  lemma TouchMove()
    ensures Enabled(Snapshot(2), Move(2)) && Step(Snapshot(2), Move(2)) == Snapshot(3)
  {
    var t := Step(Snapshot(2), Move(2));
    assert t.file.value.tokens == LiveFile(2).tokens && t.since == map[];
  }

  lemma RevokeMove()
    ensures Enabled(Snapshot(6), Move(6)) && Step(Snapshot(6), Move(6)) == Snapshot(7)
  {
    var t := Step(Snapshot(6), Move(6));
    assert t.file.value.tokens == DeadFile(3).tokens;
    assert Revoked(t.file.value.tokens) == {X};
    assert t.since == SINCE;
  }

  lemma EveryMove(i: nat)
    requires i < 13
    ensures Enabled(Snapshot(i), Move(i)) && Step(Snapshot(i), Move(i)) == Snapshot(i + 1)
  {
    hide Enabled, Step, Snapshot, Move;
    if i == 1 { PutMove(); }
    else if i == 2 { TouchMove(); }
    else if i == 6 { RevokeMove(); }
    else if i >= 10 { InstallMoves(i); }
    else { RequestMoves(i); }
  }

  /** From every snapshot of the run its end is reached. */
  lemma {:induction false} MovesReach(i: nat) returns (acts: seq<Action>)
    requires i <= 13
    ensures Reaches(Snapshot(i), acts, Snapshot(13))
    decreases 13 - i
  {
    hide Enabled, Step, Snapshot, Move;
    acts := [];
    if i < 13 {
      EveryMove(i);
      var rest := MovesReach(i + 1);
      acts := [Move(i)] + rest;
      assert acts[1..] == rest;
    }
  }

  lemma EndIsUnsafe()
    ensures !Safe(Snapshot(13))
  {
    var t := Snapshot(13);
    assert StillWatched(t, t.reqs[3].watch, X) && !Rejects(t.store, X);
  }

  /**
   Main result: every run is safe if and only if the file existed when the store was
   opened. Without it, a request that still believes the file is missing can empty the
   map late and let contents read before a revocation come back.
   */
  lemma SafeIffFilePresent(file: Option<TokenFile>)
    requires file.Some? ==> file.value.mtime > 0
    ensures AllRunsSafe(file) <==> file.Some?
  {
    if file.Some? {
      PresentFileIsSafe(file.value);
    } else {
      var acts := MovesReach(0);
      EndIsUnsafe();
      assert Init(file, {1, 2, 3}) == Snapshot(0);
      assert Reaches(Init(file, {1, 2, 3}), acts, Snapshot(13));
    }
  }
}
