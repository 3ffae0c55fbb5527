/**
 All interleavings of requests, saves and external revocations on the token store.

 A request reads the file without the lock and installs what it read under the lock
 later; every save is one step with a later mtime; the external writer revokes and deletes.
 */
module TokenProtocol {
  import opened Bytes
  import opened TokenStore

  /**
   Where a request stands in SyncIfChanged. `watch` holds, for the ids that were revoked
   in the file when the request began, since which mtime they are.
   */
  datatype Phase =
    | Idle
    | Stated(mtime: int, watch: map<string, int>)
    | StatedMissing
    | NeedReload(watch: map<string, int>)
    | Loaded(f: TokenFile, watch: map<string, int>)
    | LoadedMissing(watch: map<string, int>)
    | Synced(watch: map<string, int>)

  /** `since`: the mtime from which on the file has the id revoked (history only). */
  datatype Sys = Sys(store: Store, file: Option<TokenFile>, reqs: map<nat, Phase>, since: map<string, int>)

  datatype Action =
    | Stat(r: nat)
    | Compare(r: nat)
    | Read(r: nat)
    | Install(r: nat)
    | PutIfAbsent(id: string, t: Token, at: int)
    | Logout(id: string, t: Token, at: int)
    | UpdateLastSeen(id: string, now: int)
    | Flush(at: int)
    | Prune(now: int, at: int)
    | Revoke(ids: set<string>, at: int)
    | Delete(ids: set<string>, at: int)

  function Revoked(tokens: Tokens): set<string> {
    set id | id in tokens && tokens[id].revoked
  }

  function Watch(s: Sys): map<string, int> { s.since }

  /** `at` is later than every mtime so far. */
  predicate Later(s: Sys, at: int) {
    at > 0 && (s.file.Some? ==> at > s.file.value.mtime)
  }

  function ExternalRevoke(tokens: Tokens, ids: set<string>): Tokens {
    map id | id in tokens :: if id in ids then tokens[id].(revoked := true) else tokens[id]
  }

  /** A new file: ids newly revoked in it are revoked since its mtime. */
  function NewFile(s: Sys, store: Store, f: TokenFile): Sys {
    s.(store := store, file := Some(f),
       since := map id | id in s.since.Keys + Revoked(f.tokens) :: if id in s.since then s.since[id] else f.mtime)
  }

  function SaveStep(s: Sys, store: Store, at: int): Sys {
    NewFile(s, Saved(store, s.file, at), SavedFile(store, s.file, at))
  }

  /** A new record under an id that neither side has is no longer the revoked one. */
  function Reissued(s: Sys, id: string): Sys {
    if s.file.Some? && id in s.file.value.tokens then s else s.(since := s.since - {id})
  }

  predicate Enabled(s: Sys, a: Action) {
    match a
    case Stat(r) => r in s.reqs && s.reqs[r].Idle?
    case Compare(r) => r in s.reqs && s.reqs[r].Stated?
    case Read(r) => r in s.reqs && s.reqs[r].NeedReload?
    case Install(r) => r in s.reqs && (s.reqs[r].Loaded? || s.reqs[r].LoadedMissing? || s.reqs[r].StatedMissing?)
    case PutIfAbsent(id, t, at) => !t.revoked && Later(s, at)
    case Logout(id, t, at) => t.revoked && Later(s, at)
    case UpdateLastSeen(id, now) => true
    case Flush(at) => Later(s, at)
    case Prune(now, at) => Later(s, at)
    case Revoke(ids, at) => s.file.Some? && Later(s, at)
    case Delete(ids, at) => s.file.Some? && Later(s, at)
  }

  function Step(s: Sys, a: Action): Sys
    requires Enabled(s, a)
  {
    match a
    case Stat(r) =>
      s.(reqs := s.reqs[r := if s.file.Some? then Stated(s.file.value.mtime, Watch(s)) else StatedMissing])
    case Compare(r) =>
      var p := s.reqs[r];
      s.(reqs := s.reqs[r := if p.mtime != s.store.lastRead then NeedReload(p.watch) else Synced(p.watch)])
    case Read(r) =>
      var w := s.reqs[r].watch;
      s.(reqs := s.reqs[r := if s.file.Some? then Loaded(s.file.value, w) else LoadedMissing(w)])
    case Install(r) =>
      var p := s.reqs[r];
      s.(store := if p.Loaded? then Installed(s.store, p.f) else Cleared(s.store),
         reqs := s.reqs[r := Synced(if p.StatedMissing? then map[] else p.watch)])
    case PutIfAbsent(id, t, at) =>
      if id in s.store.tokens then s else SaveStep(Reissued(s, id), PutMem(s.store, id, t), at)
    case Logout(id, t, at) => SaveStep(s, PutMem(s.store, id, t), at)
    case UpdateLastSeen(id, now) => s.(store := Touched(s.store, id, now))
    case Flush(at) => SaveStep(s, s.store, at)
    case Prune(now, at) =>
      var pruned := Pruned(s.store, now);
      if pruned == s.store then s else SaveStep(s, pruned, at)
    case Revoke(ids, at) => NewFile(s, s.store, TokenFile(at, ExternalRevoke(s.file.value.tokens, ids)))
    case Delete(ids, at) => NewFile(s.(since := s.since - ids), s.store, TokenFile(at, s.file.value.tokens - ids))
  }

  // ----- Safety of one state

  /** The id is still the record the request saw revoked. */
  predicate StillWatched(s: Sys, watch: map<string, int>, id: string) {
    id in watch && id in s.since && s.since[id] == watch[id]
  }

  /** What VerifyCookie would find for `id` is no token, or a revoked one. */
  predicate Rejects(store: Store, id: string) {
    id in store.tokens ==> store.tokens[id].revoked
  }

  /** No request that synced after a revocation can be made to accept the revoked record. */
  ghost predicate Safe(s: Sys) {
    forall r, id :: r in s.reqs && s.reqs[r].Synced? && StillWatched(s, s.reqs[r].watch, id) ==> Rejects(s.store, id)
  }

  // ----- The invariant, as long as the file is there

  /** What was read or installed at mtime `m` carries every revocation up to `m`. */
  ghost predicate CarriesUpTo(tokens: Tokens, m: int, since: map<string, int>) {
    forall id :: id in since && since[id] <= m && id in tokens ==> tokens[id].revoked
  }

  ghost predicate WatchUpTo(watch: map<string, int>, m: int) {
    forall id :: id in watch ==> watch[id] <= m
  }

  ghost predicate PhaseInv(p: Phase, f: TokenFile, lastRead: int, since: map<string, int>) {
    match p
    case Idle => true
    case Stated(m, w) => m <= f.mtime && WatchUpTo(w, m)
    case StatedMissing => false
    case NeedReload(w) => WatchUpTo(w, f.mtime)
    case Loaded(g, w) =>
      g.mtime <= f.mtime && (g.mtime == f.mtime ==> g.tokens == f.tokens) && WatchUpTo(w, g.mtime)
      && CarriesUpTo(g.tokens, g.mtime, since)
    case LoadedMissing(w) => false
    case Synced(w) => WatchUpTo(w, lastRead)
  }

  ghost predicate FileInv(s: Sys) {
    && s.file.Some?
    && var f := s.file.value;
       && s.store.lastRead <= f.mtime
       && Revoked(f.tokens) <= s.since.Keys
       && WatchUpTo(s.since, f.mtime)
       && CarriesUpTo(f.tokens, f.mtime, s.since)
  }

  ghost predicate StoreInv(s: Sys)
    requires s.file.Some?
  {
    && CarriesUpTo(s.store.tokens, s.store.lastRead, s.since)
    && (s.store.lastRead == s.file.value.mtime ==> s.file.value.tokens.Keys <= s.store.tokens.Keys)
    && (forall id :: id in s.since && id !in s.file.value.tokens ==> s.since[id] <= s.store.lastRead)
  }

  ghost predicate Inv(s: Sys) {
    && FileInv(s)
    && StoreInv(s)
    && forall r :: r in s.reqs ==> PhaseInv(s.reqs[r], s.file.value, s.store.lastRead, s.since)
  }

  lemma InvIsSafe(s: Sys)
    requires Inv(s)
    ensures Safe(s)
  {
    forall r, id | r in s.reqs && s.reqs[r].Synced? && StillWatched(s, s.reqs[r].watch, id)
      ensures Rejects(s.store, id)
    {
      assert PhaseInv(s.reqs[r], s.file.value, s.store.lastRead, s.since);
    }
  }

  // ----- Every step keeps it

  /** Ages only: a later file, a later read, the same or later revocations. */
  lemma PhaseStays(p: Phase, f: TokenFile, lastRead: int, since: map<string, int>, f': TokenFile, lastRead': int, since': map<string, int>)
    requires PhaseInv(p, f, lastRead, since)
    requires f'.mtime > f.mtime || f' == f
    requires lastRead' >= lastRead
    requires forall id :: id in since' ==> (id in since && since'[id] == since[id]) || since'[id] > f.mtime
    ensures PhaseInv(p, f', lastRead', since')
  {
  }

  /** A save, from a store that obeys the invariant but for tokens just put or pruned. */
  lemma SaveKeeps(s: Sys, store: Store, at: int)
    requires FileInv(s) && Later(s, at) && store.lastRead == s.store.lastRead
    requires forall r :: r in s.reqs ==> PhaseInv(s.reqs[r], s.file.value, s.store.lastRead, s.since)
    requires forall id :: id in s.since && id !in s.file.value.tokens ==> s.since[id] <= store.lastRead
    requires CarriesUpTo(store.tokens, store.lastRead, s.since)
    ensures Inv(SaveStep(s, store, at))
  {
    var f := s.file.value;
    var m := Merged(store, s.file);
    var t := SaveStep(s, store, at);
    MergedRevocations(s, store);
    forall r | r in t.reqs ensures PhaseInv(t.reqs[r], t.file.value, t.store.lastRead, t.since) {
      PhaseStays(t.reqs[r], f, s.store.lastRead, s.since, t.file.value, at, t.since);
    }
  }

  /** The tokens written by a save have every known revocation. */
  lemma MergedRevocations(s: Sys, store: Store)
    requires FileInv(s) && store.lastRead == s.store.lastRead
    requires forall id :: id in s.since && id !in s.file.value.tokens ==> s.since[id] <= store.lastRead
    requires CarriesUpTo(store.tokens, store.lastRead, s.since)
    ensures forall id :: id in s.since && id in Merged(store, s.file) ==> Merged(store, s.file)[id].revoked
  {
    var f := s.file.value;
    var m := Merged(store, s.file);
    forall id | id in s.since && id in m ensures m[id].revoked {
      assert s.since[id] <= f.mtime;
      if id in f.tokens {
        assert f.tokens[id].revoked;
      } else {
        assert s.since[id] <= store.lastRead;
      }
    }
  }

  lemma ReissuedKeeps(s: Sys, id: string)
    requires Inv(s)
    ensures FileInv(Reissued(s, id))
    ensures StoreInv(Reissued(s, id))
    ensures forall r :: r in s.reqs ==> PhaseInv(s.reqs[r], s.file.value, s.store.lastRead, Reissued(s, id).since)
  {
    var t := Reissued(s, id);
    forall r | r in s.reqs ensures PhaseInv(s.reqs[r], s.file.value, s.store.lastRead, t.since) {
      PhaseStays(s.reqs[r], s.file.value, s.store.lastRead, s.since, s.file.value, s.store.lastRead, t.since);
    }
  }

  lemma PutKeeps(s: Sys, id: string, t: Token, at: int)
    requires Inv(s) && Later(s, at) && id !in s.store.tokens
    ensures Inv(SaveStep(Reissued(s, id), PutMem(s.store, id, t), at))
  {
    ReissuedKeeps(s, id);
    var u := Reissued(s, id);
    var store := PutMem(s.store, id, t);
    if id in u.since {
      assert id in s.file.value.tokens;
      assert s.store.lastRead != s.file.value.mtime;
      PutUnseen(u, store, id, t, at);
    } else {
      SaveKeeps(u, store, at);
    }
  }

  /** The id is in the file, revoked or not, and the file is news: the merge decides. */
  lemma PutUnseen(s: Sys, store: Store, id: string, t: Token, at: int)
    requires FileInv(s) && StoreInv(s) && Later(s, at) && store == PutMem(s.store, id, t)
    requires forall r :: r in s.reqs ==> PhaseInv(s.reqs[r], s.file.value, s.store.lastRead, s.since)
    requires id in s.file.value.tokens && s.store.lastRead < s.file.value.mtime && id !in s.store.tokens
    ensures Inv(SaveStep(s, store, at))
  {
    var f := s.file.value;
    var m := Merged(store, s.file);
    var u := SaveStep(s, store, at);
    forall x | x in s.since && x in m ensures m[x].revoked {
      assert s.since[x] <= f.mtime;
      if x in f.tokens {
        assert f.tokens[x].revoked;
      } else {
        assert s.since[x] <= s.store.lastRead;
        assert x in s.store.tokens && s.store.tokens[x].revoked;
      }
    }
    forall r | r in u.reqs ensures PhaseInv(u.reqs[r], u.file.value, u.store.lastRead, u.since) {
      PhaseStays(u.reqs[r], f, s.store.lastRead, s.since, u.file.value, at, u.since);
    }
  }

  lemma RevokeKeeps(s: Sys, ids: set<string>, at: int)
    requires Inv(s) && Later(s, at)
    ensures Inv(Step(s, Revoke(ids, at)))
  {
    var f := s.file.value;
    var t := Step(s, Revoke(ids, at));
    assert t.file.value.tokens.Keys == f.tokens.Keys;
    forall r | r in t.reqs ensures PhaseInv(t.reqs[r], t.file.value, t.store.lastRead, t.since) {
      PhaseStays(t.reqs[r], f, s.store.lastRead, s.since, t.file.value, s.store.lastRead, t.since);
    }
  }

  /** A deleted record is none that a request could still have seen revoked. */
  lemma DeleteKeeps(s: Sys, ids: set<string>, at: int)
    requires Inv(s) && Later(s, at)
    ensures Inv(Step(s, Delete(ids, at)))
  {
    var f := s.file.value;
    var t := Step(s, Delete(ids, at));
    forall r | r in t.reqs ensures PhaseInv(t.reqs[r], t.file.value, t.store.lastRead, t.since) {
      PhaseStays(t.reqs[r], f, s.store.lastRead, s.since, t.file.value, s.store.lastRead, t.since);
    }
  }

  lemma RequestKeeps(s: Sys, a: Action)
    requires Inv(s) && Enabled(s, a) && (a.Stat? || a.Compare? || a.Read? || a.Install?)
    ensures Inv(Step(s, a))
  {
    var t := Step(s, a);
    var p := s.reqs[a.r];
    assert PhaseInv(p, s.file.value, s.store.lastRead, s.since);
    forall r | r in t.reqs && r != a.r ensures PhaseInv(t.reqs[r], t.file.value, t.store.lastRead, t.since) {
      assert t.reqs[r] == s.reqs[r];
      PhaseStays(s.reqs[r], s.file.value, s.store.lastRead, s.since, t.file.value, t.store.lastRead, t.since);
    }
    assert PhaseInv(t.reqs[a.r], t.file.value, t.store.lastRead, t.since);
  }

  /** Every step keeps the invariant. */
  lemma StepKeeps(s: Sys, a: Action)
    requires Inv(s) && Enabled(s, a)
    ensures Inv(Step(s, a))
  {
    hide SaveStep, NewFile, PhaseInv;
    match a
    case PutIfAbsent(id, t, at) => if id !in s.store.tokens { PutKeeps(s, id, t, at); }
    case Logout(id, t, at) => LogoutKeeps(s, id, t, at);
    case UpdateLastSeen(id, now) =>
    case Flush(at) => SaveKeeps(s, s.store, at);
    case Prune(now, at) => if Pruned(s.store, now) != s.store { SaveKeeps(s, Pruned(s.store, now), at); }
    case Revoke(ids, at) => RevokeKeeps(s, ids, at);
    case Delete(ids, at) => DeleteKeeps(s, ids, at);
    case Stat(r) => RequestKeeps(s, a);
    case Compare(r) => RequestKeeps(s, a);
    case Read(r) => RequestKeeps(s, a);
    case Install(r) => RequestKeeps(s, a);
  }

  lemma LogoutKeeps(s: Sys, id: string, t: Token, at: int)
    requires Inv(s) && Later(s, at) && t.revoked
    ensures Inv(SaveStep(s, PutMem(s.store, id, t), at))
  {
    SaveKeeps(s, PutMem(s.store, id, t), at);
  }
}
