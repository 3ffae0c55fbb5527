/**
 What saving, putting, touching and pruning mean for the records themselves, in memory and in the file.
 */
module TokenFacts {
  import opened Bytes
  import opened TokenStore

  /** A save that sees an unseen file: which ids remain, and with what. */
  predicate MergedSo(mem: Tokens, dirty: set<string>, disk: Tokens, r: Tokens) {
    && r.Keys == disk.Keys + (mem.Keys * dirty)
    && (forall id :: id in mem && id in disk ==> r[id] == mem[id].(revoked := mem[id].revoked || disk[id].revoked))
    && (forall id :: id in disk && id !in mem ==> r[id] == disk[id])
    && (forall id :: id in mem && id in dirty && id !in disk ==> r[id] == mem[id])
  }

  /**
   Main result: after a save that sees an unseen file both memory and the file hold exactly the
   file's ids and the changed ones of memory: memory's fields where both have the id, with the
   revocation of either, and otherwise the record of the side that has it. When the file has been
   seen, or is not there, they hold what memory held.
   */
  lemma SavedExactly(s: Store, file: Option<TokenFile>, at: int)
    ensures SavedFile(s, file, at).mtime == at && Saved(s, file, at).lastRead == at && Saved(s, file, at).dirty == {}
    ensures SavedFile(s, file, at).tokens == Saved(s, file, at).tokens
    ensures file.Some? && file.value.mtime > s.lastRead ==>
              MergedSo(s.tokens, s.dirty, file.value.tokens, SavedFile(s, file, at).tokens)
    ensures file.None? || file.value.mtime <= s.lastRead ==> SavedFile(s, file, at).tokens == s.tokens
  {
    if file.Some? && file.value.mtime > s.lastRead {
      var r, mem, disk := SavedFile(s, file, at).tokens, s.tokens, file.value.tokens;
      assert r.Keys == disk.Keys + (mem.Keys * s.dirty);
    }
  }

  /** An id that the unseen file no longer has is written back exactly when it was changed here. */
  lemma DeletedComesBackExactly(s: Store, file: TokenFile, at: int, id: string)
    requires file.mtime > s.lastRead && id !in file.tokens
    ensures id in SavedFile(s, Some(file), at).tokens <==> id in s.tokens && id in s.dirty
    ensures id in SavedFile(s, Some(file), at).tokens ==> SavedFile(s, Some(file), at).tokens[id] == s.tokens[id]
  {
    SavedExactly(s, Some(file), at);
  }

  /** A token put is found afterwards, in memory and in the file, revoked at most more than it was;
      and no other id of memory is touched before the save. */
  lemma PutIsFound(s: Store, file: Option<TokenFile>, at: int, id: string, t: Token)
    ensures var p := PutMem(s, id, t);
            && p.tokens.Keys == s.tokens.Keys + {id} && p.tokens[id] == t && p.dirty == s.dirty + {id} && p.lastRead == s.lastRead
            && forall x :: x in s.tokens && x != id ==> p.tokens[x] == s.tokens[x]
    ensures var r := SavedFile(PutMem(s, id, t), file, at).tokens;
            && id in r
            && r[id] == t.(revoked := t.revoked || (file.Some? && file.value.mtime > s.lastRead && id in file.value.tokens
                                                    && file.value.tokens[id].revoked))
  {
    SavedExactly(PutMem(s, id, t), file, at);
  }

  /** A request only stamps its own record. */
  lemma TouchedExactly(s: Store, id: string, now: int)
    ensures var t := Touched(s, id, now);
            && t.tokens.Keys == s.tokens.Keys && t.lastRead == s.lastRead
            && (forall x :: x in s.tokens ==> t.tokens[x] == if x == id then s.tokens[x].(lastSeen := now) else s.tokens[x])
            && t.dirty == if id in s.tokens then s.dirty + {id} else s.dirty
  {
  }

  /** A prune keeps, unchanged, exactly the records never seen, or seen within 90 days and, when
      revoked, within 30. */
  lemma PrunedExactly(s: Store, now: int)
    ensures var p := Pruned(s, now);
            && p.dirty == s.dirty && p.lastRead == s.lastRead
            && (forall id :: id in p.tokens ==> id in s.tokens && p.tokens[id] == s.tokens[id])
            && forall id :: id in s.tokens ==>
                 var t := s.tokens[id];
                 id in p.tokens <==> t.lastSeen <= 0 || (now - t.lastSeen <= 7776000 && (t.revoked ==> now - t.lastSeen <= 2592000))
  {
  }

  /** A newer file replaces memory and its changes; one that is no newer changes nothing. */
  lemma InstalledExactly(s: Store, f: TokenFile)
    ensures f.mtime > s.lastRead ==> Installed(s, f).tokens == f.tokens && Installed(s, f).dirty == {} && Installed(s, f).lastRead == f.mtime
    ensures f.mtime <= s.lastRead ==> Installed(s, f) == s
  {
  }
}
