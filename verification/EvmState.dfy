/**
 `EvmState` of crates/state/src/state.rs: the loops that persist accounts in hash-map order, the
 genesis constructor, and the window of recent block hashes.
 */
module EvmState {
  import opened Primitives
  import opened Finite
  import opened Overlay
  import opened WorldState
  import opened BlockHashes

  lemma DoneOneMore<K, V>(m: map<K, V>, todo: set<K>, k: K)
    requires k in m && k in todo
    ensures (m - todo)[k := m[k]] == m - (todo - {k})
    ensures k !in m - todo
  {
  }

  lemma DoneEnds<K, V>(m: map<K, V>)
    ensures m - m.Keys == map[] && m - {} == m
  {
  }

  // ----- Persisting one account -----

  /** Insert the touched slots of one account, in any order. */
  method InsertSlots(storage: map<Bytes, Word>, a: Address, slots: map<U256, U256>,
                     ghost base: map<Bytes, Word>, ghost batch: map<(Address, U256), Word>)
    returns (r: map<Bytes, Word>)
    requires Injective(StorageKey) && storage == Written(base, batch, StorageKey)
    ensures r == Written(base, batch + Row(a, MapValues(slots, ToWord)), StorageKey)
  {
    r := storage;
    var todo := slots.Keys;
    DoneEnds(slots);
    MapValuesEmpty<U256, U256, Word>(ToWord);
    RowEmpty(batch, a);
    while todo != {}
      invariant todo <= slots.Keys
      invariant r == Written(base, batch + Row(a, MapValues(slots - todo, ToWord)), StorageKey)
      decreases todo
    {
      var s :| s in todo;
      var v := ToWord(slots[s]);
      ghost var row := MapValues(slots - todo, ToWord);
      DoneOneMore(slots, todo, s);
      MapValuesOneMore(slots - todo, ToWord, s, slots[s]);
      RowOneMore(batch, a, row, s, v);
      WrittenOneMore(base, batch + Row(a, row), StorageKey, (a, s), v);
      r := r[StorageKey((a, s)) := v];
      todo := todo - {s};
    }
  }

  /** The contracts written so far are a batch that holds the code of exactly the accounts done. */
  ghost predicate CodeOf(done: Cache, batch: map<Hash, Bytes>) {
    && (forall h :: h in batch ==> exists a :: Carries(done, a, h) && batch[h] == done[a].info.code.value)
    && (forall a, h :: Carries(done, a, h) ==> h in batch)
  }

  lemma CodeOneMore(done: Cache, batch: map<Hash, Bytes>, a: Address, acc: CachedAccount)
    requires CodeOf(done, batch) && a !in done
    ensures CodeOf(done[a := acc],
                   if HasCode(acc.info) then batch[acc.info.codeHash := acc.info.code.value] else batch)
  {
    var done' := done[a := acc];
    var batch' := if HasCode(acc.info) then batch[acc.info.codeHash := acc.info.code.value] else batch;
    forall h | h in batch'
      ensures exists x :: Carries(done', x, h) && batch'[h] == done'[x].info.code.value
    {
      if HasCode(acc.info) && h == acc.info.codeHash {
        assert Carries(done', a, h);
      } else {
        var x :| Carries(done, x, h) && batch[h] == done[x].info.code.value;
        assert Carries(done', x, h);
      }
    }
    forall x, h | Carries(done', x, h)
      ensures h in batch'
    {
      assert x != a ==> Carries(done, x, h);
    }
  }

  lemma CodeIsBatch(cache: Cache, batch: map<Hash, Bytes>)
    requires CodeOf(cache, batch) && CodeConsistent(cache)
    ensures batch == CodeBatch(cache)
  {
    var code := CodeBatch(cache);
    forall h | h in batch
      ensures h in code && code[h] == batch[h]
    {
      var a :| Carries(cache, a, h) && batch[h] == cache[a].info.code.value;
    }
    SameMap(batch, code);
  }

  // ----- Persisting a cache -----

  /** What has been written once the accounts in `done` are. */
  ghost predicate Progress(db: Store, trie: Trie, done: Cache, db': Store, trie': Trie) {
    && db'.accounts == FlushAccounts(db, done)
    && db'.storage == FlushStorage(db, done)
    && trie' == FlushTrie(trie, done)
  }

  lemma AccountsOneMore(db: Store, done: Cache, a: Address, acc: CachedAccount)
    ensures FlushAccounts(db, done[a := acc]) == FlushAccounts(db, done)[AddressBytes(a) := FromInfo(acc.info)]
  {
    WordKeysInjective();
    MapValuesOneMore(done, StoredOf, a, acc);
    WrittenOneMore(db.accounts, AccountBatch(done), AddressBytes, a, StoredOf(acc));
  }

  lemma LeavesOneMore(trie: Trie, done: Cache, a: Address, acc: CachedAccount)
    ensures FlushTrie(trie, done[a := acc]) == FlushTrie(trie, done)[AddressBytes(a) := EncodeLeaf(acc.info)]
  {
    WordKeysInjective();
    MapValuesOneMore(done, LeafOfCached, a, acc);
    WrittenOneMore(trie, LeafBatch(done), AddressBytes, a, LeafOfCached(acc));
  }

  lemma SlotsOneMore(done: Cache, a: Address, acc: CachedAccount)
    requires a !in done
    ensures SlotBatch(done[a := acc]) == SlotBatch(done) + Row(a, MapValues(acc.storage, ToWord))
  {
    MapValuesOneMore(done, SlotRow, a, acc);
    FlatOneMore(MapValues(done, SlotRow), a, SlotRow(acc));
  }

  /** Nothing done, nothing written. */
  lemma ProgressStarts(db: Store, trie: Trie)
    ensures Progress(db, trie, map[], db, trie)
    ensures CodeOf(map[], map[])
  {
    WordKeysInjective();
    WrittenNothing<Address, StoredAccount>(db.accounts, AddressBytes);
    WrittenNothing<(Address, U256), Word>(db.storage, StorageKey);
    WrittenNothing<Address, Bytes>(trie, AddressBytes);
    MapValuesEmpty<Address, CachedAccount, StoredAccount>(StoredOf);
    MapValuesEmpty<Address, CachedAccount, Bytes>(LeafOfCached);
    assert SlotBatch(map[]) == map[];
  }

  /** One turn of the flush loop: the account, its code, its slots, its leaf. */
  method PersistOne(a: Address, acc: CachedAccount, db: Store, trie: Trie,
                    ghost db0: Store, ghost trie0: Trie, ghost done: Cache, ghost code: map<Hash, Bytes>)
    returns (db': Store, trie': Trie, ghost code': map<Hash, Bytes>)
    requires Injective(WordBytes) && a !in done
    requires Progress(db0, trie0, done, db, trie)
    requires CodeOf(done, code) && db.contracts == Written(db0.contracts, code, WordBytes)
    ensures Progress(db0, trie0, done[a := acc], db', trie')
    ensures CodeOf(done[a := acc], code') && db'.contracts == Written(db0.contracts, code', WordBytes)
  {
    WordKeysInjective();
    AccountsOneMore(db0, done, a, acc);
    LeavesOneMore(trie0, done, a, acc);
    SlotsOneMore(done, a, acc);
    CodeOneMore(done, code, a, acc);
    var accounts := db.accounts[AddressBytes(a) := FromInfo(acc.info)];
    var contracts := db.contracts;
    code' := code;
    if acc.info.code.Some? && acc.info.code.value != [] {
      WrittenOneMore(db0.contracts, code, WordBytes, acc.info.codeHash, acc.info.code.value);
      contracts := contracts[WordBytes(acc.info.codeHash) := acc.info.code.value];
      code' := code[acc.info.codeHash := acc.info.code.value];
    }
    var storage := InsertSlots(db.storage, a, acc.storage, db0.storage, SlotBatch(done));
    db' := Store(accounts, contracts, storage);
    trie' := trie[AddressBytes(a) := EncodeLeaf(acc.info)];
  }

  /** Write every account of the cache, in whatever order the hash map yields them. */
  method PersistAll(cache: Cache, db: Store, trie: Trie) returns (db': Store, trie': Trie)
    ensures IsFlushed(World(cache, db, trie), World(cache, db', trie'))
  {
    db', trie' := db, trie;
    var todo := cache.Keys;
    ghost var code: map<Hash, Bytes> := map[];
    WordKeysInjective();
    ProgressStarts(db, trie);
    DoneEnds(cache);
    WrittenNothing<Hash, Bytes>(db.contracts, WordBytes);
    while todo != {}
      invariant todo <= cache.Keys
      invariant Progress(db, trie, cache - todo, db', trie')
      invariant CodeOf(cache - todo, code) && db'.contracts == Written(db.contracts, code, WordBytes)
      decreases todo
    {
      var a :| a in todo;
      DoneOneMore(cache, todo, a);
      db', trie', code := PersistOne(a, cache[a], db', trie', db, trie, cache - todo, code);
      todo := todo - {a};
    }
    if CodeConsistent(cache) {
      CodeIsBatch(cache, code);
    }
  }

  method BuildGenesis(allocs: map<Address, GenesisAlloc>) returns (w: World)
    ensures IsGenesis(allocs, w) && TrieMirrors(w) && ReadsAsAllocated(allocs, w)
  {
    var db, trie := PersistAll(GenesisCache(allocs), EMPTY_STORE, map[]);
    w := World(map[], db, trie);
    GenesisMirrors(allocs, w);
    GenesisReads(allocs, w);
  }

  method Flush(cache: Cache, db: Store, trie: Trie) returns (db': Store, trie': Trie)
    requires TrieMirrors(World(cache, db, trie))
    ensures IsFlushed(World(cache, db, trie), World(cache, db', trie'))
    ensures TrieMirrors(World(cache, db', trie'))
  {
    db', trie' := PersistAll(cache, db, trie);
    FlushKeepsMirror(World(cache, db, trie), World(cache, db', trie'));
  }

  class EvmState {
    var cache: Cache
    var db: Store
    var trie: Trie
    /** Every block hash ever recorded, and the recent ones kept in memory. */
    var recorded: map<U64, Hash>
    var recent: map<U64, Hash>

    ghost function View(): World
      reads this
    {
      World(cache, db, trie)
    }

    ghost predicate Valid()
      reads this
    {
      TrieMirrors(View()) && IsWindow(recorded, recent)
    }

    constructor FromGenesis(allocs: map<Address, GenesisAlloc>)
      ensures Valid() && IsGenesis(allocs, View())
      ensures ReadsAsAllocated(allocs, View())
      ensures recorded == map[] && recent == map[]
    {
      var w := BuildGenesis(allocs);
      cache, db, trie := w.cache, w.db, w.trie;
      var none: map<U64, Hash> := map[];
      recorded, recent := none, none;
      EmptyWindow(none);
    }

    /** `flush_cache_to_vsdb`. */
    method FlushCacheToVsdb()
      requires Valid()
      modifies this
      ensures Valid() && IsFlushed(old(View()), View())
      ensures recorded == old(recorded) && recent == old(recent)
    {
      db, trie := Flush(cache, db, trie);
    }

    /** `record_block_hash`. */
    method RecordBlockHash(number: U64, hash: Hash)
      requires Valid()
      modifies this`recorded, this`recent
      ensures Valid()
      ensures recorded == old(recorded)[number := hash]
      ensures recent == Trim(old(recent)[number := hash]) && |recent| == Min(256, |recorded|)
    {
      RecordKeepsWindow(recorded, recent, number, hash);
      recent := recent[number := hash];
      recorded := recorded[number := hash];
      if |recent| > WINDOW {
        var oldest := MinKey(recent);
        recent := recent - {oldest};
      }
    }
  }
}
