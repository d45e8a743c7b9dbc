/**
 The world state of crates/state/src/state.rs: a cache over a byte-keyed store, a trie that
 mirrors the stored accounts, and what flushing the cache means.
 */
module WorldState {
  import opened Primitives
  import opened Finite
  import opened Overlay

  const KECCAK_EMPTY: Hash := 0xc5d2460186f7233c927e7db2dcc703c0e500b653ca82273b7bfad8045d85a470

  datatype AccountInfo = AccountInfo(balance: U256, nonce: U64, codeHash: Hash, code: Option<Bytes>)

  /** An account in the execution cache, with the storage slots that were touched. */
  datatype CachedAccount = CachedAccount(info: AccountInfo, storage: map<U256, U256>)

  type Cache = map<Address, CachedAccount>

  datatype StoredAccount = StoredAccount(balanceBe: Word, nonce: U64, codeHash: Word)

  datatype Store = Store(
    accounts: map<Bytes, StoredAccount>,
    contracts: map<Bytes, Bytes>,
    storage: map<Bytes, Word>)

  type Trie = map<Bytes, Bytes>

  datatype World = World(cache: Cache, db: Store, trie: Trie)

  const EMPTY_STORE := Store(map[], map[], map[])

  // ----- Encodings -----

  function FromInfo(info: AccountInfo): StoredAccount {
    StoredAccount(ToWord(info.balance), info.nonce, ToWord(info.codeHash))
  }

  function ToInfo(s: StoredAccount): AccountInfo {
    AccountInfo(WordFrom(s.balanceBe), s.nonce, WordFrom(s.codeHash), None)
  }

  /** Address and slot, 20 + 32 bytes. */
  function StorageKey(at: (Address, U256)): (k: Bytes)
    ensures |k| == 52
  {
    AddressBytes(at.0) + WordBytes(at.1)
  }

  /** The trie leaf: nonce, balance and code hash, 8 + 32 + 32 bytes. */
  function EncodeLeaf(info: AccountInfo): (leaf: Bytes)
    ensures |leaf| == 72
  {
    U64Bytes(info.nonce) + WordBytes(info.balance) + WordBytes(info.codeHash)
  }

  lemma StoredRoundTrip(info: AccountInfo)
    ensures ToInfo(FromInfo(info)) == info.(code := None)
  {
    WordRoundTrip(info.balance);
    WordRoundTrip(info.codeHash);
  }

  lemma WordKeysInjective()
    ensures Injective(WordBytes) && Injective(AddressBytes) && Injective(StorageKey)
  {
    forall x: U256, y: U256 | WordBytes(x) == WordBytes(y)
      ensures x == y
    {
      WordRoundTrip(x);
      WordRoundTrip(y);
    }
    forall x: Address, y: Address | AddressBytes(x) == AddressBytes(y)
      ensures x == y
    {
      AddressRoundTrip(x);
      AddressRoundTrip(y);
    }
    forall x: (Address, U256), y: (Address, U256) | StorageKey(x) == StorageKey(y)
      ensures x == y
    {
      StorageKeyInjective(x, y);
    }
  }

  /** The 52-byte storage key tells apart every address and every slot. */
  lemma StorageKeyInjective(x: (Address, U256), y: (Address, U256))
    requires StorageKey(x) == StorageKey(y)
    ensures x == y
  {
    assert AddressBytes(x.0) == StorageKey(x)[..20];
    assert AddressBytes(y.0) == StorageKey(y)[..20];
    assert WordBytes(x.1) == StorageKey(x)[20..];
    assert WordBytes(y.1) == StorageKey(y)[20..];
    AddressRoundTrip(x.0);
    AddressRoundTrip(y.0);
    WordRoundTrip(x.1);
    WordRoundTrip(y.1);
  }

  /** The leaf of a stored account. */
  function LeafOf(s: StoredAccount): (leaf: Bytes)
    ensures |leaf| == 72
  {
    U64Bytes(s.nonce) + s.balanceBe + s.codeHash
  }

  lemma LeafIsOfStored(info: AccountInfo)
    ensures EncodeLeaf(info) == LeafOf(FromInfo(info))
  {
  }

  /** Different stored accounts have different leaves, so the trie determines the accounts. */
  lemma LeafInjective(s: StoredAccount, t: StoredAccount)
    requires LeafOf(s) == LeafOf(t)
    ensures s == t
  {
    assert U64Bytes(s.nonce) == LeafOf(s)[..8];
    assert U64Bytes(t.nonce) == LeafOf(t)[..8];
    assert s.balanceBe == LeafOf(s)[8..40];
    assert t.balanceBe == LeafOf(t)[8..40];
    assert s.codeHash == LeafOf(s)[40..];
    assert t.codeHash == LeafOf(t)[40..];
    U64RoundTrip(s.nonce);
    U64RoundTrip(t.nonce);
  }

  // ----- Reads -----

  function StoredBalance(db: Store, a: Address): U256 {
    if AddressBytes(a) in db.accounts then WordFrom(db.accounts[AddressBytes(a)].balanceBe) else 0
  }

  function StoredNonce(db: Store, a: Address): U64 {
    if AddressBytes(a) in db.accounts then db.accounts[AddressBytes(a)].nonce else 0
  }

  function StoredSlot(db: Store, a: Address, slot: U256): U256 {
    var k := StorageKey((a, slot));
    if k in db.storage then WordFrom(db.storage[k]) else 0
  }

  /** Cache first, then the store. */
  function GetBalance(w: World, a: Address): U256 {
    if a in w.cache then w.cache[a].info.balance else StoredBalance(w.db, a)
  }

  function GetNonce(w: World, a: Address): U64 {
    if a in w.cache then w.cache[a].info.nonce else StoredNonce(w.db, a)
  }

  function GetStorage(w: World, a: Address, slot: U256): U256 {
    if a in w.cache && slot in w.cache[a].storage then w.cache[a].storage[slot]
    else StoredSlot(w.db, a, slot)
  }

  // ----- What a flush writes -----

  function StoredOf(acc: CachedAccount): StoredAccount {
    FromInfo(acc.info)
  }

  function LeafOfCached(acc: CachedAccount): Bytes {
    EncodeLeaf(acc.info)
  }

  ghost function SlotRow(acc: CachedAccount): map<U256, Word> {
    MapValues(acc.storage, ToWord)
  }

  ghost function AccountBatch(cache: Cache): map<Address, StoredAccount> {
    MapValues(cache, StoredOf)
  }

  ghost function LeafBatch(cache: Cache): map<Address, Bytes> {
    MapValues(cache, LeafOfCached)
  }

  ghost function SlotBatch(cache: Cache): map<(Address, U256), Word> {
    Flat(MapValues(cache, SlotRow))
  }

  predicate HasCode(info: AccountInfo) {
    info.code.Some? && info.code.value != []
  }

  /** A code hash determines its bytes, among the accounts of the cache. */
  ghost predicate CodeConsistent(cache: Cache) {
    forall a, b :: a in cache && b in cache && HasCode(cache[a].info) && HasCode(cache[b].info)
                   && cache[a].info.codeHash == cache[b].info.codeHash
                   ==> cache[a].info.code == cache[b].info.code
  }

  predicate Carries(cache: Cache, a: Address, h: Hash) {
    a in cache && HasCode(cache[a].info) && cache[a].info.codeHash == h
  }

  /** The code some account of the cache carries under hash `h`. */
  ghost function CodeUnder(cache: Cache, h: Hash): Bytes
    requires exists a :: Carries(cache, a, h)
  {
    var a :| Carries(cache, a, h);
    cache[a].info.code.value
  }

  ghost function CodeHashes(cache: Cache): (hs: set<Hash>)
    ensures forall h :: h in hs <==> exists a :: Carries(cache, a, h)
  {
    var hs := set a | a in cache && HasCode(cache[a].info) :: cache[a].info.codeHash;
    assert forall a :: a in cache && HasCode(cache[a].info) ==> Carries(cache, a, cache[a].info.codeHash);
    hs
  }

  ghost function CodeBatch(cache: Cache): map<Hash, Bytes> {
    map h | h in CodeHashes(cache) :: CodeUnder(cache, h)
  }

  ghost function FlushAccounts(db: Store, cache: Cache): map<Bytes, StoredAccount> {
    WordKeysInjective();
    Written(db.accounts, AccountBatch(cache), AddressBytes)
  }

  ghost function FlushStorage(db: Store, cache: Cache): map<Bytes, Word> {
    WordKeysInjective();
    Written(db.storage, SlotBatch(cache), StorageKey)
  }

  ghost function FlushContracts(contracts: map<Bytes, Bytes>, cache: Cache): map<Bytes, Bytes> {
    WordKeysInjective();
    Written(contracts, CodeBatch(cache), WordBytes)
  }

  ghost function FlushTrie(trie: Trie, cache: Cache): Trie {
    WordKeysInjective();
    Written(trie, LeafBatch(cache), AddressBytes)
  }

  /** `w'` is `w` after a flush: accounts, storage and trie are functions of `w` alone. */
  ghost predicate IsFlushed(w: World, w': World) {
    && w'.cache == w.cache
    && forall part :: Of(part) ==> PartFlushed(part, w, w')
  }

  /** What a flush writes. Contracts too are a function of `w`, when a code hash determines its bytes. */
  datatype Part = Accounts | Slots | Contracts | Leaves

  /** Marks the parts at which the quantifier of IsFlushed is unfolded. */
  predicate Of(part: Part) {
    true
  }

  ghost predicate PartFlushed(part: Part, w: World, w': World) {
    match part
    case Accounts => w'.db.accounts == FlushAccounts(w.db, w.cache)
    case Slots => w'.db.storage == FlushStorage(w.db, w.cache)
    case Contracts => CodeConsistent(w.cache) ==> w'.db.contracts == FlushContracts(w.db.contracts, w.cache)
    case Leaves => w'.trie == FlushTrie(w.trie, w.cache)
  }

  lemma PartOf(part: Part, w: World, w': World)
    requires IsFlushed(w, w')
    ensures PartFlushed(part, w, w')
  {
    assert Of(part);
  }

  // ----- Cache coherence -----

  lemma FlushedAccount(w: World, w': World, a: Address)
    requires IsFlushed(w, w')
    ensures if a in w.cache
            then AddressBytes(a) in w'.db.accounts && w'.db.accounts[AddressBytes(a)] == FromInfo(w.cache[a].info)
            else StoredBalance(w'.db, a) == StoredBalance(w.db, a) && StoredNonce(w'.db, a) == StoredNonce(w.db, a)
  {
    FlushedAccounts(w, w');
    WordKeysInjective();
    WrittenAt(w.db.accounts, AccountBatch(w.cache), AddressBytes, a);
  }

  lemma SlotBatchAt(cache: Cache, a: Address, slot: U256)
    ensures (a, slot) in SlotBatch(cache) <==> a in cache && slot in cache[a].storage
    ensures (a, slot) in SlotBatch(cache) ==> SlotBatch(cache)[(a, slot)] == ToWord(cache[a].storage[slot])
  {
    FlatAt(MapValues(cache, SlotRow), a, slot);
  }

  lemma FlushedSlot(w: World, w': World, a: Address, slot: U256)
    requires IsFlushed(w, w')
    ensures if a in w.cache && slot in w.cache[a].storage
            then StoredSlot(w'.db, a, slot) == w.cache[a].storage[slot]
            else StoredSlot(w'.db, a, slot) == StoredSlot(w.db, a, slot)
  {
    FlushedSlots(w, w');
    FlushStorageAt(w.db, w.cache, (a, slot));
    SlotBatchAt(w.cache, a, slot);
    if a in w.cache && slot in w.cache[a].storage {
      WordRoundTrip(w.cache[a].storage[slot]);
    }
  }

  lemma FlushStorageAt(db: Store, cache: Cache, at: (Address, U256))
    ensures var k, storage := StorageKey(at), FlushStorage(db, cache);
            if at in SlotBatch(cache) then k in storage && storage[k] == SlotBatch(cache)[at]
            else (k in storage <==> k in db.storage) && (k in storage ==> storage[k] == db.storage[k])
  {
    WordKeysInjective();
    WrittenAt(db.storage, SlotBatch(cache), StorageKey, at);
  }

  /** Reads give the same answers before and after a flush, and afterwards the store alone gives them too. */
  lemma ReadsSurviveFlush(w: World, w': World, a: Address, slot: U256)
    requires IsFlushed(w, w')
    ensures GetBalance(w', a) == GetBalance(w, a) == StoredBalance(w'.db, a)
    ensures GetNonce(w', a) == GetNonce(w, a) == StoredNonce(w'.db, a)
    ensures GetStorage(w', a, slot) == GetStorage(w, a, slot) == StoredSlot(w'.db, a, slot)
  {
    FlushedAccount(w, w', a);
    FlushedSlot(w, w', a, slot);
    if a in w.cache {
      StoredRoundTrip(w.cache[a].info);
    }
  }

  lemma FlushedAccounts(w: World, w': World)
    requires IsFlushed(w, w')
    ensures w'.db.accounts == FlushAccounts(w.db, w.cache)
  {
    PartOf(Accounts, w, w');
  }

  lemma AccountsAgain(w: World, w': World, w'': World)
    requires IsFlushed(w, w') && IsFlushed(w', w'')
    ensures w''.db.accounts == w'.db.accounts
  {
    WordKeysInjective();
    FlushedAccounts(w, w');
    FlushedAccounts(w', w'');
    WriteTwice(w.db.accounts, AccountBatch(w.cache), AddressBytes);
  }

  lemma FlushedSlots(w: World, w': World)
    requires IsFlushed(w, w')
    ensures w'.db.storage == FlushStorage(w.db, w.cache)
  {
    PartOf(Slots, w, w');
  }

  lemma SlotsAgain(w: World, w': World, w'': World)
    requires IsFlushed(w, w') && IsFlushed(w', w'')
    ensures w''.db.storage == w'.db.storage
  {
    WordKeysInjective();
    FlushedSlots(w, w');
    FlushedSlots(w', w'');
    WriteTwice(w.db.storage, SlotBatch(w.cache), StorageKey);
  }

  /** A flush writes the code of every cached account that has any under its code hash. */
  lemma FlushedCode(w: World, w': World, a: Address)
    requires IsFlushed(w, w') && CodeConsistent(w.cache)
    requires a in w.cache && w.cache[a].info.code.Some? && w.cache[a].info.code.value != []
    ensures WordBytes(w.cache[a].info.codeHash) in w'.db.contracts
    ensures w'.db.contracts[WordBytes(w.cache[a].info.codeHash)] == w.cache[a].info.code.value
  {
    FlushedContracts(w, w');
    BatchedCode(w.db.contracts, w.cache, a);
  }

  lemma BatchedCode(contracts: map<Bytes, Bytes>, cache: Cache, a: Address)
    requires CodeConsistent(cache) && a in cache && HasCode(cache[a].info)
    ensures WordBytes(cache[a].info.codeHash) in FlushContracts(contracts, cache)
    ensures FlushContracts(contracts, cache)[WordBytes(cache[a].info.codeHash)] == cache[a].info.code.value
  {
    var h := cache[a].info.codeHash;
    assert Carries(cache, a, h);
    WordKeysInjective();
    WrittenAt(contracts, CodeBatch(cache), WordBytes, h);
  }

  /** The key of a slot: the address in the first 20 bytes, the slot in the other 32. */
  lemma StorageKeyLayout(a: Address, slot: U256)
    ensures StorageKey((a, slot))[..20] == AddressBytes(a) && StorageKey((a, slot))[20..] == WordBytes(slot)
  {
  }

  lemma ContractsTwice(contracts: map<Bytes, Bytes>, cache: Cache)
    ensures FlushContracts(FlushContracts(contracts, cache), cache) == FlushContracts(contracts, cache)
  {
    WordKeysInjective();
    WriteTwice(contracts, CodeBatch(cache), WordBytes);
  }

  lemma FlushedContracts(w: World, w': World)
    requires IsFlushed(w, w') && CodeConsistent(w.cache)
    ensures w'.db.contracts == FlushContracts(w.db.contracts, w.cache)
  {
    PartOf(Contracts, w, w');
  }

  lemma ContractsAgain(w: World, w': World, w'': World)
    requires IsFlushed(w, w') && IsFlushed(w', w'') && CodeConsistent(w.cache)
    ensures w''.db.contracts == w'.db.contracts
  {
    FlushedContracts(w, w');
    FlushedContracts(w', w'');
    ContractsTwice(w.db.contracts, w.cache);
  }

  lemma FlushedLeaves(w: World, w': World)
    requires IsFlushed(w, w')
    ensures w'.trie == FlushTrie(w.trie, w.cache)
  {
    PartOf(Leaves, w, w');
  }

  lemma LeavesAgain(w: World, w': World, w'': World)
    requires IsFlushed(w, w') && IsFlushed(w', w'')
    ensures w''.trie == w'.trie
  {
    WordKeysInjective();
    FlushedLeaves(w, w');
    FlushedLeaves(w', w'');
    WriteTwice(w.trie, LeafBatch(w.cache), AddressBytes);
  }

  /** A second flush changes nothing. */
  lemma FlushIsIdempotent(w: World, w': World, w'': World)
    requires IsFlushed(w, w') && IsFlushed(w', w'')
    ensures w''.db.accounts == w'.db.accounts && w''.db.storage == w'.db.storage && w''.trie == w'.trie
    ensures CodeConsistent(w.cache) ==> w'' == w'
  {
    AccountsAgain(w, w', w'');
    SlotsAgain(w, w', w'');
    LeavesAgain(w, w', w'');
    if CodeConsistent(w.cache) {
      ContractsAgain(w, w', w'');
    }
  }

  lemma WriteTwice<K(!new), V>(base: map<Bytes, V>, batch: map<K, V>, key: K -> Bytes)
    requires Injective(key)
    ensures Written(Written(base, batch, key), batch, key) == Written(base, batch, key)
  {
    var once := Written(base, batch, key);
    forall k | k in batch
      ensures key(k) in once && once[key(k)] == batch[k]
    {
      WrittenAt(base, batch, key, k);
    }
    WrittenAgain(once, batch, key);
  }

  // ----- The trie mirrors the stored accounts -----

  /** Marks the keys at which the quantifier of TrieMirrors is unfolded. */
  predicate Key(k: Bytes) {
    true
  }

  /** The trie has exactly the stored accounts as keys, each leaf encoding its account. */
  ghost predicate TrieMirrors(w: World) {
    forall k :: Key(k) ==> (k in w.trie <==> k in w.db.accounts) && (k in w.trie ==> w.trie[k] == LeafOf(w.db.accounts[k]))
  }

  lemma MirrorWritten(accounts: map<Bytes, StoredAccount>, trie: Trie, cache: Cache, k: Bytes)
    requires Injective(AddressBytes)
    requires k in trie <==> k in accounts
    requires k in trie ==> trie[k] == LeafOf(accounts[k])
    ensures var accounts', trie' := Written(accounts, AccountBatch(cache), AddressBytes), Written(trie, LeafBatch(cache), AddressBytes);
            (k in trie' <==> k in accounts') && (k in trie' ==> trie'[k] == LeafOf(accounts'[k]))
  {
    if a: Address :| a in cache && AddressBytes(a) == k {
      WrittenAt(accounts, AccountBatch(cache), AddressBytes, a);
      WrittenAt(trie, LeafBatch(cache), AddressBytes, a);
      LeafIsOfStored(cache[a].info);
    }
  }

  lemma FlushKeepsMirror(w: World, w': World)
    requires TrieMirrors(w) && IsFlushed(w, w')
    ensures TrieMirrors(w')
  {
    FlushedAccounts(w, w');
    FlushedLeaves(w, w');
    WordKeysInjective();
    forall k: Bytes
      ensures k in w'.trie <==> k in w'.db.accounts
      ensures k in w'.trie ==> w'.trie[k] == LeafOf(w'.db.accounts[k])
    {
      assert Key(k);
      MirrorWritten(w.db.accounts, w.trie, w.cache, k);
    }
  }

  /** The store already has cached account `a`, with the same balance, nonce and code hash. */
  predicate IsStored(w: World, a: Address)
    requires a in w.cache
  {
    AddressBytes(a) in w.db.accounts && w.db.accounts[AddressBytes(a)] == FromInfo(w.cache[a].info)
  }

  lemma CachedLeaf(w: World, a: Address)
    requires TrieMirrors(w) && a in w.cache
    ensures IsStored(w, a)
            <==> AddressBytes(a) in w.trie && w.trie[AddressBytes(a)] == EncodeLeaf(w.cache[a].info)
  {
    var k := AddressBytes(a);
    assert Key(k);
    LeafIsOfStored(w.cache[a].info);
    if k in w.trie && w.trie[k] == EncodeLeaf(w.cache[a].info) {
      LeafInjective(w.db.accounts[k], FromInfo(w.cache[a].info));
    }
  }

  lemma FlushTrieAt(trie: Trie, cache: Cache, a: Address)
    requires a in cache
    ensures AddressBytes(a) in FlushTrie(trie, cache)
    ensures FlushTrie(trie, cache)[AddressBytes(a)] == EncodeLeaf(cache[a].info)
  {
    WordKeysInjective();
    WrittenAt(trie, LeafBatch(cache), AddressBytes, a);
  }

  lemma FlushedLeaf(w: World, w': World, a: Address)
    requires IsFlushed(w, w') && a in w.cache
    ensures AddressBytes(a) in w'.trie && w'.trie[AddressBytes(a)] == EncodeLeaf(w.cache[a].info)
  {
    FlushedLeaves(w, w');
    FlushTrieAt(w.trie, w.cache, a);
  }

  /** A flush leaves the trie, and so the state root, as it was exactly when every cached account is stored as cached. */
  lemma TrieUnchangedExactlyWhen(w: World, w': World)
    requires TrieMirrors(w) && IsFlushed(w, w')
    ensures w'.trie == w.trie <==> forall a :: a in w.cache ==> IsStored(w, a)
  {
    forall a | a in w.cache
      ensures IsStored(w, a) <==> AddressBytes(a) in w.trie && w.trie[AddressBytes(a)] == EncodeLeaf(w.cache[a].info)
      ensures w'.trie == w.trie ==> IsStored(w, a)
    {
      CachedLeaf(w, a);
      FlushedLeaf(w, w', a);
    }
    if forall a :: a in w.cache ==> IsStored(w, a) {
      FlushedLeaves(w, w');
      KnownLeaves(w.trie, w.cache);
    }
  }

  /** So flushing stored accounts that were only read leaves the trie as it was. */
  lemma ReadOnlyFlushKeepsTrie(w: World, w': World)
    requires TrieMirrors(w) && IsFlushed(w, w')
    requires forall a :: a in w.cache ==>
               AddressBytes(a) in w.db.accounts && ToInfo(w.db.accounts[AddressBytes(a)]) == w.cache[a].info.(code := None)
    ensures w'.trie == w.trie
  {
    forall a | a in w.cache
      ensures IsStored(w, a)
    {
      StoredRoundTrip(w.cache[a].info);
      StoredEqual(w.db.accounts[AddressBytes(a)], FromInfo(w.cache[a].info));
    }
    TrieUnchangedExactlyWhen(w, w');
  }

  const ABSENT := AccountInfo(0, 0, KECCAK_EMPTY, None)

  /**
   Reading an account that does not exist caches it as empty; the flush then stores it and adds
   its leaf, so the state root changes although every read gives what it gave before.
   */
  lemma AbsentReadAddsLeaf(w: World, w': World, a: Address)
    requires TrieMirrors(w) && IsFlushed(w, w')
    requires AddressBytes(a) !in w.db.accounts && a in w.cache && w.cache[a].info == ABSENT
    ensures AddressBytes(a) !in w.trie
    ensures AddressBytes(a) in w'.trie && w'.trie[AddressBytes(a)] == EncodeLeaf(ABSENT)
    ensures GetBalance(w', a) == StoredBalance(w.db, a) == 0 && GetNonce(w', a) == StoredNonce(w.db, a) == 0
  {
    assert Key(AddressBytes(a));
    FlushedLeaf(w, w', a);
    ReadsSurviveFlush(w, w', a, 0);
  }

  lemma KnownLeaves(trie: Trie, cache: Cache)
    requires forall a :: a in cache ==> AddressBytes(a) in trie && trie[AddressBytes(a)] == EncodeLeaf(cache[a].info)
    ensures FlushTrie(trie, cache) == trie
  {
    WordKeysInjective();
    WrittenAgain(trie, LeafBatch(cache), AddressBytes);
  }

  lemma StoredEqual(s: StoredAccount, t: StoredAccount)
    requires ToInfo(s) == ToInfo(t)
    ensures s == t
  {
    FromBeInjective(s.balanceBe, t.balanceBe);
    FromBeInjective(s.codeHash, t.codeHash);
  }

  lemma {:induction false} FromBeInjective(s: Bytes, t: Bytes)
    requires |s| == |t| && FromBe(s) == FromBe(t)
    ensures s == t
    decreases |s|
  {
    if s != [] {
      var n := |s| - 1;
      FromBeInjective(s[..n], t[..n]);
      assert s == s[..n] + [s[n]] && t == t[..n] + [t[n]];
    }
  }

  // ----- From genesis on -----

  datatype GenesisAlloc = GenesisAlloc(balance: U256, nonce: U64, code: Bytes, storage: map<U256, U256>)

  /** The account a genesis allocation stands for. Its code hash keeps its default. */
  function GenesisInfo(alloc: GenesisAlloc): AccountInfo {
    AccountInfo(alloc.balance, alloc.nonce, KECCAK_EMPTY, if alloc.code == [] then None else Some(alloc.code))
  }

  function GenesisCache(allocs: map<Address, GenesisAlloc>): Cache {
    map a | a in allocs :: CachedAccount(GenesisInfo(allocs[a]), allocs[a].storage)
  }

  /** The state `from_genesis` builds: the allocations written into an empty store, nothing cached. */
  ghost predicate IsGenesis(allocs: map<Address, GenesisAlloc>, w: World) {
    && w.cache == map[]
    && IsFlushed(World(GenesisCache(allocs), EMPTY_STORE, map[]), w.(cache := GenesisCache(allocs)))
  }

  /**
   What a genesis account reads as: its allocated balance, nonce and slots, and 0 for what is not
   allocated; accounts are stored for the allocated addresses alone, each with its own leaf.
   */
  ghost predicate ReadsAsAllocated(allocs: map<Address, GenesisAlloc>, w: World) {
    && (forall a :: GetBalance(w, a) == if a in allocs then allocs[a].balance else 0)
    && (forall a :: GetNonce(w, a) == if a in allocs then allocs[a].nonce else 0)
    && (forall a, slot :: GetStorage(w, a, slot)
                          == if a in allocs && slot in allocs[a].storage then allocs[a].storage[slot] else 0)
    && (forall k :: k in w.db.accounts <==> exists a :: a in allocs && AddressBytes(a) == k)
    && (forall k :: k in w.trie <==> exists a :: a in allocs && AddressBytes(a) == k)
    && (forall a :: a in allocs ==>
          && AddressBytes(a) in w.trie
          && w.trie[AddressBytes(a)] == U64Bytes(allocs[a].nonce) + WordBytes(allocs[a].balance) + WordBytes(KECCAK_EMPTY))
  }

  lemma GenesisAccount(allocs: map<Address, GenesisAlloc>, w: World, a: Address)
    requires IsGenesis(allocs, w)
    ensures GetBalance(w, a) == if a in allocs then allocs[a].balance else 0
    ensures GetNonce(w, a) == if a in allocs then allocs[a].nonce else 0
  {
    var cache := GenesisCache(allocs);
    FlushedAccount(World(cache, EMPTY_STORE, map[]), w.(cache := cache), a);
    if a in allocs {
      StoredRoundTrip(cache[a].info);
    }
  }

  lemma GenesisSlot(allocs: map<Address, GenesisAlloc>, w: World, a: Address, slot: U256)
    requires IsGenesis(allocs, w)
    ensures GetStorage(w, a, slot) == if a in allocs && slot in allocs[a].storage then allocs[a].storage[slot] else 0
  {
    var cache := GenesisCache(allocs);
    FlushedSlot(World(cache, EMPTY_STORE, map[]), w.(cache := cache), a, slot);
  }

  lemma GenesisLeaf(allocs: map<Address, GenesisAlloc>, w: World, a: Address)
    requires IsGenesis(allocs, w) && a in allocs
    ensures AddressBytes(a) in w.trie
    ensures w.trie[AddressBytes(a)] == U64Bytes(allocs[a].nonce) + WordBytes(allocs[a].balance) + WordBytes(KECCAK_EMPTY)
  {
    var cache := GenesisCache(allocs);
    FlushedLeaf(World(cache, EMPTY_STORE, map[]), w.(cache := cache), a);
  }

  /** A flush into empty maps leaves exactly the keys of what was cached. */
  lemma WrittenKeys<K(!new), V>(batch: map<K, V>, key: K -> Bytes, k: Bytes)
    requires Injective(key)
    ensures k in Written(map[], batch, key) <==> exists a :: a in batch && key(a) == k
  {
  }

  lemma GenesisKeys(allocs: map<Address, GenesisAlloc>, w: World, k: Bytes)
    requires IsGenesis(allocs, w)
    ensures k in w.db.accounts <==> exists a :: a in allocs && AddressBytes(a) == k
  {
    var cache := GenesisCache(allocs);
    FlushedAccounts(World(cache, EMPTY_STORE, map[]), w.(cache := cache));
    WordKeysInjective();
    WrittenKeys(AccountBatch(cache), AddressBytes, k);
    SameAccounts(allocs, k);
  }

  lemma SameAccounts(allocs: map<Address, GenesisAlloc>, k: Bytes)
    ensures (exists a :: a in AccountBatch(GenesisCache(allocs)) && AddressBytes(a) == k)
            <==> exists a :: a in allocs && AddressBytes(a) == k
  {
    assert AccountBatch(GenesisCache(allocs)).Keys == allocs.Keys;
  }

  /**
   Genesis code is stored under the empty code hash, whatever it is; so it is kept when all
   allocations with code have the same.
   */
  lemma GenesisCode(allocs: map<Address, GenesisAlloc>, w: World, a: Address)
    requires IsGenesis(allocs, w) && a in allocs && allocs[a].code != []
    requires forall b :: b in allocs && allocs[b].code != [] ==> allocs[b].code == allocs[a].code
    ensures WordBytes(KECCAK_EMPTY) in w.db.contracts && w.db.contracts[WordBytes(KECCAK_EMPTY)] == allocs[a].code
  {
    var cache := GenesisCache(allocs);
    SameGenesisCode(allocs, a);
    FlushedCode(World(cache, EMPTY_STORE, map[]), w.(cache := cache), a);
  }

  lemma SameGenesisCode(allocs: map<Address, GenesisAlloc>, a: Address)
    requires a in allocs && allocs[a].code != []
    requires forall b :: b in allocs && allocs[b].code != [] ==> allocs[b].code == allocs[a].code
    ensures CodeConsistent(GenesisCache(allocs))
  {
  }

  lemma GenesisReads(allocs: map<Address, GenesisAlloc>, w: World)
    requires IsGenesis(allocs, w)
    ensures ReadsAsAllocated(allocs, w)
  {
    forall a: Address
      ensures GetBalance(w, a) == if a in allocs then allocs[a].balance else 0
      ensures GetNonce(w, a) == if a in allocs then allocs[a].nonce else 0
      ensures a in allocs ==>
                && AddressBytes(a) in w.trie
                && w.trie[AddressBytes(a)] == U64Bytes(allocs[a].nonce) + WordBytes(allocs[a].balance) + WordBytes(KECCAK_EMPTY)
    {
      GenesisAccount(allocs, w, a);
      if a in allocs {
        GenesisLeaf(allocs, w, a);
      }
    }
    forall a: Address, slot: U256
      ensures GetStorage(w, a, slot) == if a in allocs && slot in allocs[a].storage then allocs[a].storage[slot] else 0
    {
      GenesisSlot(allocs, w, a, slot);
    }
    forall k: Bytes
      ensures k in w.db.accounts <==> exists a :: a in allocs && AddressBytes(a) == k
      ensures k in w.trie <==> exists a :: a in allocs && AddressBytes(a) == k
    {
      GenesisKeys(allocs, w, k);
      GenesisMirrors(allocs, w);
      assert Key(k);
    }
  }

  /** Execution touches the cache only, in any way it likes. */
  predicate IsExecuted(w: World, w': World) {
    w'.db == w.db && w'.trie == w.trie
  }

  /** Executions and flushes in any order and number. */
  ghost predicate IsWorldRun(ws: seq<World>) {
    && ws != []
    && forall i :: 0 <= i < |ws| - 1 && At(i) ==> IsExecuted(ws[i], ws[i + 1]) || IsFlushed(ws[i], ws[i + 1])
  }

  lemma RunStepKeepsMirror(ws: seq<World>, i: nat, j: nat)
    requires IsWorldRun(ws) && j == i + 1 < |ws| && TrieMirrors(ws[i])
    ensures TrieMirrors(ws[j])
  {
    assert At(i);
    if !IsExecuted(ws[i], ws[j]) {
      FlushKeepsMirror(ws[i], ws[j]);
    }
  }

  lemma GenesisMirrors(allocs: map<Address, GenesisAlloc>, w: World)
    requires IsGenesis(allocs, w)
    ensures TrieMirrors(w)
  {
    var start := World(GenesisCache(allocs), EMPTY_STORE, map[]);
    FlushKeepsMirror(start, w.(cache := GenesisCache(allocs)));
  }

  lemma {:induction false} RunKeepsMirror(ws: seq<World>, i: nat)
    requires IsWorldRun(ws) && i < |ws| && TrieMirrors(ws[0])
    ensures TrieMirrors(ws[i])
    decreases i
  {
    if i > 0 {
      RunKeepsMirror(ws, i - 1);
      RunStepKeepsMirror(ws, i - 1, i);
    }
  }

  /**
   From genesis on, through any number of executed and flushed blocks, the trie has exactly the
   stored accounts as keys, each leaf encoding its account.
   */
  lemma MirrorOnEveryRun(allocs: map<Address, GenesisAlloc>, ws: seq<World>, i: nat)
    requires IsWorldRun(ws) && IsGenesis(allocs, ws[0]) && i < |ws|
    ensures TrieMirrors(ws[i])
  {
    GenesisMirrors(allocs, ws[0]);
    RunKeepsMirror(ws, i);
  }

  /** So two states with equal tries hold equal accounts. */
  lemma EqualTriesEqualAccounts(w: World, v: World)
    requires TrieMirrors(w) && TrieMirrors(v) && w.trie == v.trie
    ensures w.db.accounts == v.db.accounts
  {
    forall k | k in w.db.accounts
      ensures w.db.accounts[k] == v.db.accounts[k]
    {
      assert k in w.trie;
      LeafInjective(w.db.accounts[k], v.db.accounts[k]);
    }
  }
}
