/**
 What becomes of a record that the external writer deletes from the file.
 */
module TokenDeletions {
  import opened Bytes
  import opened TokenStore
  import opened TokenFacts
  import opened TokenProtocol
  import opened TokenRuns

  /** The action writes the record of `id` in memory. */
  predicate Touches(a: Action, id: string) {
    match a
    case PutIfAbsent(x, _, _) => x == id
    case Logout(x, _, _) => x == id
    case UpdateLastSeen(x, _) => x == id
    case _ => false
  }

  /** Not in the file, not changed here, and in nothing read from the file since mtime `m`. */
  ghost predicate GoneSince(s: Sys, id: string, m: int) {
    && s.file.Some? && s.file.value.mtime >= m && id !in s.file.value.tokens && id !in s.store.dirty
    && (s.store.lastRead >= m ==> id !in s.store.tokens)
    && forall r :: r in s.reqs ==> LacksSince(s.reqs[r], id, m)
  }

  predicate LacksSince(p: Phase, id: string, m: int) {
    p.Loaded? && p.f.mtime >= m ==> id !in p.f.tokens
  }

  lemma SaveKeepsGone(s: Sys, store: Store, at: int, id: string, m: int)
    requires RunInv(s) && GoneSince(s, id, m) && Later(s, at)
    requires store.lastRead == s.store.lastRead && id !in store.dirty && (store.lastRead >= m ==> id !in store.tokens)
    ensures GoneSince(SaveStep(s, store, at), id, m)
  {
    var f := s.file.value;
    if store.lastRead < f.mtime {
      DeletedComesBackExactly(store, f, at, id);
    } else {
      SavedExactly(store, s.file, at);
    }
  }

  lemma RequestKeepsGone(s: Sys, a: Action, id: string, m: int)
    requires GoneSince(s, id, m) && m > 0 && Enabled(s, a) && (a.Stat? || a.Compare? || a.Read? || a.Install?)
    ensures GoneSince(Step(s, a), id, m)
  {
    var t := Step(s, a);
    assert LacksSince(s.reqs[a.r], id, m);
    forall r | r in t.reqs ensures LacksSince(t.reqs[r], id, m) {
      if r != a.r { assert LacksSince(s.reqs[r], id, m); }
    }
  }

  lemma ReissuedGone(s: Sys, x: string, id: string, m: int)
    requires RunInv(s) && GoneSince(s, id, m)
    ensures RunInv(Reissued(s, x)) && GoneSince(Reissued(s, x), id, m) && Reissued(s, x).store == s.store && Reissued(s, x).file == s.file
  {
  }

  lemma StepKeepsGone(s: Sys, a: Action, id: string, m: int)
    requires RunInv(s) && GoneSince(s, id, m) && m > 0 && Enabled(s, a) && !Touches(a, id)
    ensures GoneSince(Step(s, a), id, m)
  {
    hide SaveStep, RunInv, LacksSince;
    match a
    case PutIfAbsent(x, t, at) =>
      if x !in s.store.tokens {
        ReissuedGone(s, x, id, m);
        SaveKeepsGone(Reissued(s, x), PutMem(s.store, x, t), at, id, m);
      }
    case Logout(x, t, at) => SaveKeepsGone(s, PutMem(s.store, x, t), at, id, m);
    case UpdateLastSeen(x, now) =>
    case Flush(at) => SaveKeepsGone(s, s.store, at, id, m);
    case Prune(now, at) => if Pruned(s.store, now) != s.store { SaveKeepsGone(s, Pruned(s.store, now), at, id, m); }
    case Revoke(ids, at) =>
    case Delete(ids, at) =>
    case _ => RequestKeepsGone(s, a, id, m);
  }

  lemma {:induction false} RunKeepsGone(s: Sys, acts: seq<Action>, t: Sys, id: string, m: int)
    requires RunInv(s) && GoneSince(s, id, m) && m > 0 && Reaches(s, acts, t)
    requires forall i :: 0 <= i < |acts| ==> !Touches(acts[i], id)
    ensures GoneSince(t, id, m)
    decreases |acts|
  {
    hide RunInv, GoneSince, Step, Enabled, Touches;
    if acts != [] {
      StepKeepsFile(s, acts[0]);
      StepKeepsGone(s, acts[0], id, m);
      RunKeepsGone(Step(s, acts[0]), acts[1..], t, id, m);
    }
  }

  /**
   Main result: in every run, of a store opened on a file or without one, a record deleted from the
   file that is not changed in memory, then or later, is never in the file again.
   */
  lemma DeletedStaysDeleted(file: Option<TokenFile>, ids: set<nat>, before: seq<Action>, s: Sys,
                            deleted: set<string>, at: int, acts: seq<Action>, t: Sys, id: string)
    requires file.Some? ==> file.value.mtime > 0
    requires Reaches(Init(file, ids), before, s) && Enabled(s, Delete(deleted, at))
    requires Reaches(Step(s, Delete(deleted, at)), acts, t)
    requires id in deleted && id !in s.store.dirty && forall i :: 0 <= i < |acts| ==> !Touches(acts[i], id)
    ensures t.file.Some? && id !in t.file.value.tokens
  {
    InitKeepsFile(file, ids);
    RunKeepsFile(Init(file, ids), before, s);
    StepKeepsFile(s, Delete(deleted, at));
    FreshDelete(s, deleted, at, id);
    hide RunInv, Reaches, Step, Enabled, Touches;
    RunKeepsGone(Step(s, Delete(deleted, at)), acts, t, id, at);
  }

  lemma FreshDelete(s: Sys, deleted: set<string>, at: int, id: string)
    requires RunInv(s) && Enabled(s, Delete(deleted, at)) && id in deleted && id !in s.store.dirty
    ensures GoneSince(Step(s, Delete(deleted, at)), id, at)
  {
    var t := Step(s, Delete(deleted, at));
    forall r | r in t.reqs ensures LacksSince(t.reqs[r], id, at) { assert ReadSo(s.reqs[r], s.file); }
  }

  /** The exception: a record used since the last save is written back by the next one. */
  lemma UsedRecordComesBack(s: Sys, id: string, now: int, at: int, next: int)
    requires RunInv(s) && s.file.Some? && id in s.store.tokens && Later(s, at) && next > at
    ensures var touched := Step(s, UpdateLastSeen(id, now));
            var deleted := Step(touched, Delete({id}, at));
            var saved := Step(deleted, Flush(next));
            && Enabled(touched, Delete({id}, at)) && id !in deleted.file.value.tokens
            && Enabled(deleted, Flush(next)) && id in saved.file.value.tokens
            && saved.file.value.tokens[id].revoked == s.store.tokens[id].revoked
  {
    var touched := Step(s, UpdateLastSeen(id, now));
    var deleted := Step(touched, Delete({id}, at));
    DeletedComesBackExactly(deleted.store, deleted.file.value, next, id);
  }
}
