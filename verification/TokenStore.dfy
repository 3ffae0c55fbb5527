/**
 The token store of the remote HTTP daemon: a map in memory and a file that another
 process also writes, merged on every save.
 */
module TokenStore {
  import opened Bytes

  datatype Token = Token(hash: string, created: int, lastSeen: int, text: string, ipHint: string, revoked: bool)

  type Tokens = map<string, Token>

  /** tokens.json: its modification time and its contents. */
  datatype TokenFile = TokenFile(mtime: int, tokens: Tokens)

  /** The store's own state: the map, the ids changed here, the mtime last seen. */
  datatype Store = Store(tokens: Tokens, dirty: set<string>, lastRead: int)

  const HARD_EXPIRE := 60 * 86400
  const HARD_EXPIRE_PRUNE := 90 * 86400
  const REVOKED_EXPIRE := 30 * 86400

  // ----- The operations on values

  /** A token in memory, with the revocation the file may know of. */
  function WithRevocation(t: Token, id: string, disk: Tokens): Token {
    if id in disk && disk[id].revoked then t.(revoked := true) else t
  }

  /**
   The merge of a save that sees a file newer than the last one read: the file's ids,
   and of those only in memory the ones changed here; memory's fields, revocation of either.
   */
  function Merge(mem: Tokens, disk: Tokens, dirty: set<string>): Tokens {
    map id | id in disk.Keys + (mem.Keys * dirty) :: if id in mem then WithRevocation(mem[id], id, disk) else disk[id]
  }

  function Merged(s: Store, file: Option<TokenFile>): Tokens {
    if file.Some? && file.value.mtime > s.lastRead then Merge(s.tokens, file.value.tokens, s.dirty) else s.tokens
  }

  /** The store and the file after a save that stamps the file with `mtime`. */
  function Saved(s: Store, file: Option<TokenFile>, mtime: int): Store {
    Store(Merged(s, file), {}, mtime)
  }

  function SavedFile(s: Store, file: Option<TokenFile>, mtime: int): TokenFile {
    TokenFile(mtime, Merged(s, file))
  }

  function PutMem(s: Store, id: string, t: Token): Store {
    Store(s.tokens[id := t], s.dirty + {id}, s.lastRead)
  }

  function Touched(s: Store, id: string, now: int): Store {
    if id in s.tokens then Store(s.tokens[id := s.tokens[id].(lastSeen := now)], s.dirty + {id}, s.lastRead) else s
  }

  predicate Expired(t: Token, now: int) {
    t.lastSeen > 0 && (now - t.lastSeen > HARD_EXPIRE_PRUNE || (t.revoked && now - t.lastSeen > REVOKED_EXPIRE))
  }

  function Pruned(s: Store, now: int): Store {
    s.(tokens := map id | id in s.tokens && !Expired(s.tokens[id], now) :: s.tokens[id])
  }

  /** Installing what `reload` read, unless something as new has been seen meanwhile. */
  function Installed(s: Store, f: TokenFile): Store {
    if s.lastRead >= f.mtime then s else Store(f.tokens, {}, f.mtime)
  }

  /** The file was not there: the map is emptied. */
  function Cleared(s: Store): Store { Store(map[], s.dirty, 0) }

  // ----- The store and its file

  class TokenFs {
    var file: Option<TokenFile>

    constructor (f: Option<TokenFile>)
      ensures file == f
    {
      file := f;
    }

    /** Write and rename; the new mtime is later than the old one. */
    method Replace(tokens: Tokens)
      modifies this
      ensures file.Some? && file.value.tokens == tokens
      ensures file.value.mtime > 0 && (old(file).Some? ==> file.value.mtime > old(file).value.mtime)
    {
      var least := if file.Some? && file.value.mtime > 0 then file.value.mtime else 0;
      var mtime: int :| mtime > least;
      file := Some(TokenFile(mtime, tokens));
    }
  }

  class TokensStore {
    const fs: TokenFs
    var tokens: Tokens
    var dirty: set<string>
    var lastRead: int

    ghost function View(): Store
      reads this
    {
      Store(tokens, dirty, lastRead)
    }

    constructor (disk: TokenFs)
      ensures fs == disk
      ensures View() == if disk.file.Some? then Installed(Store(map[], {}, 0), disk.file.value) else Store(map[], {}, 0)
    {
      fs := disk;
      tokens, dirty, lastRead := map[], {}, 0;
      new;
      Reload();
    }

    /** reload, undisturbed: read the file, then install it under the lock. */
    method Reload()
      modifies this
      ensures View() == if fs.file.Some? then Installed(old(View()), fs.file.value) else Cleared(old(View()))
    {
      if fs.file == None {
        tokens := map[];
        lastRead := 0;
        return;
      }
      var f := fs.file.value;
      if lastRead >= f.mtime { return; }
      tokens := f.tokens;
      lastRead := f.mtime;
      dirty := {};
    }

    /** SyncIfChanged, undisturbed. */
    method SyncIfChanged()
      modifies this
      ensures View() == if fs.file == None then Cleared(old(View()))
                        else if fs.file.value.mtime == old(lastRead) then old(View())
                        else Installed(old(View()), fs.file.value)
    {
      if fs.file == None {
        tokens := map[];
        lastRead := 0;
        return;
      }
      if fs.file.value.mtime != lastRead { Reload(); }
    }

    /** saveAtomicLocked; every file operation succeeds. */
    method SaveAtomicLocked()
      modifies this, fs
      ensures fs.file.Some? && fs.file.value.mtime > 0
      ensures old(fs.file).Some? ==> fs.file.value.mtime > old(fs.file).value.mtime
      ensures View() == Saved(old(View()), old(fs.file), fs.file.value.mtime)
      ensures fs.file.value == SavedFile(old(View()), old(fs.file), fs.file.value.mtime)
    {
      if fs.file.Some? && fs.file.value.mtime > lastRead {
        MergeForward(fs.file.value.tokens);
        DropDeleted(fs.file.value.tokens);
        assert tokens == Merge(old(tokens), old(fs.file).value.tokens, dirty);
      }
      fs.Replace(tokens);
      lastRead := fs.file.value.mtime;
      dirty := {};
    }

    /** The loop over the file's tokens. */
    method MergeForward(disk: Tokens)
      modifies this`tokens
      ensures tokens.Keys == old(tokens).Keys + disk.Keys
      ensures forall id :: id in old(tokens) ==> tokens[id] == WithRevocation(old(tokens)[id], id, disk)
      ensures forall id :: id in disk && id !in old(tokens) ==> tokens[id] == disk[id]
    {
      var todo := disk.Keys;
      while todo != {}
        invariant todo <= disk.Keys
        invariant tokens.Keys == old(tokens).Keys + (disk.Keys - todo)
        invariant forall id :: id in old(tokens) ==>
                    tokens[id] == if id in todo then old(tokens)[id] else WithRevocation(old(tokens)[id], id, disk)
        invariant forall id :: id in disk.Keys - todo && id !in old(tokens) ==> tokens[id] == disk[id]
        decreases todo
      {
        var tid :| tid in todo;
        todo := todo - {tid};
        var dt := disk[tid];
        if tid !in tokens {
          tokens := tokens[tid := dt];
          continue;
        }
        if dt.revoked && !tokens[tid].revoked {
          tokens := tokens[tid := tokens[tid].(revoked := true)];
        }
      }
    }

    /** The reverse merge: what the file no longer has goes, unless it was changed here. */
    method DropDeleted(disk: Tokens)
      modifies this`tokens
      ensures tokens.Keys == old(tokens).Keys * (disk.Keys + dirty)
      ensures forall id :: id in tokens ==> tokens[id] == old(tokens)[id]
    {
      var toDelete: set<string> := {};
      var todo := tokens.Keys;
      while todo != {}
        invariant todo <= tokens.Keys && tokens == old(tokens)
        invariant toDelete == set id | id in tokens.Keys - todo && id !in disk && id !in dirty
        decreases todo
      {
        var tid :| tid in todo;
        todo := todo - {tid};
        if tid !in disk && tid !in dirty { toDelete := toDelete + {tid}; }
      }
      tokens := tokens - toDelete;
    }

    /** PutIfAbsent; false is an id collision. */
    method PutIfAbsent(id: string, t: Token) returns (ok: bool)
      modifies this, fs
      ensures ok == (id !in old(tokens))
      ensures !ok ==> View() == old(View()) && fs.file == old(fs.file)
      ensures ok ==>
                && fs.file.Some? && (old(fs.file).Some? ==> fs.file.value.mtime > old(fs.file).value.mtime)
                && View() == Saved(PutMem(old(View()), id, t), old(fs.file), fs.file.value.mtime)
                && fs.file.value == SavedFile(PutMem(old(View()), id, t), old(fs.file), fs.file.value.mtime)
    {
      if id in tokens { return false; }
      Put(id, t);
      return true;
    }

    method Put(id: string, t: Token)
      modifies this, fs
      ensures fs.file.Some? && (old(fs.file).Some? ==> fs.file.value.mtime > old(fs.file).value.mtime)
      ensures View() == Saved(PutMem(old(View()), id, t), old(fs.file), fs.file.value.mtime)
      ensures fs.file.value == SavedFile(PutMem(old(View()), id, t), old(fs.file), fs.file.value.mtime)
    {
      tokens := tokens[id := t];
      dirty := dirty + {id};
      SaveAtomicLocked();
    }

    method UpdateLastSeen(id: string, now: int)
      modifies this
      ensures View() == Touched(old(View()), id, now)
    {
      if id in tokens {
        tokens := tokens[id := tokens[id].(lastSeen := now)];
        dirty := dirty + {id};
      }
    }

    method Flush()
      modifies this, fs
      ensures fs.file.Some? && (old(fs.file).Some? ==> fs.file.value.mtime > old(fs.file).value.mtime)
      ensures View() == Saved(old(View()), old(fs.file), fs.file.value.mtime)
      ensures fs.file.value == SavedFile(old(View()), old(fs.file), fs.file.value.mtime)
    {
      SaveAtomicLocked();
    }

    /** Prune; saves only when something is removed. */
    method Prune(now: int) returns (removed: nat)
      modifies this, fs
      ensures removed == |old(tokens)| - |Pruned(old(View()), now).tokens|
      ensures removed == 0 ==> View() == old(View()) && fs.file == old(fs.file)
      ensures removed > 0 ==>
                && fs.file.Some? && (old(fs.file).Some? ==> fs.file.value.mtime > old(fs.file).value.mtime)
                && View() == Saved(Pruned(old(View()), now), old(fs.file), fs.file.value.mtime)
                && fs.file.value == SavedFile(Pruned(old(View()), now), old(fs.file), fs.file.value.mtime)
    {
      var toDelete: set<string> := {};
      var todo := tokens.Keys;
      while todo != {}
        invariant todo <= tokens.Keys && View() == old(View()) && fs.file == old(fs.file)
        invariant toDelete == set id | id in tokens.Keys - todo && Expired(tokens[id], now)
        decreases todo
      {
        var id :| id in todo;
        todo := todo - {id};
        if Expired(tokens[id], now) { toDelete := toDelete + {id}; }
      }
      ghost var kept := Pruned(View(), now).tokens;
      assert tokens - toDelete == kept;
      PrunedSize(tokens, toDelete, kept);
      removed := |toDelete|;
      if removed == 0 { return; }
      tokens := tokens - toDelete;
      SaveAtomicLocked();
    }
  }

  lemma PrunedSize(tokens: Tokens, gone: set<string>, kept: Tokens)
    requires gone <= tokens.Keys && kept == tokens - gone
    ensures |tokens| == |kept| + |gone|
  {
    assert kept.Keys == tokens.Keys - gone;
    assert |kept| == |kept.Keys| && |tokens| == |tokens.Keys|;
  }
}
