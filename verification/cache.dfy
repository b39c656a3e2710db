/** The content-addressed result cache (crates/cache_builder/src/cache.rs).
    The LMDB database is a map from keys to stored values; whether a
    transaction or the serialisation succeeds is an input of each operation.
    BLAKE3 is the `blake3` parameter. */
module AbiCache {
  import opened Wrappers
  import opened Bytes
  import Text

  type Key = seq<byte>

  /** The four counters of `CacheStats`. */
  datatype CacheStats = CacheStats(hits: nat, misses: nat, writes: nat, errors: nat)

  /** A cache instance: the database contents and its counters. */
  datatype Cache<V> = Cache(store: map<Key, V>, stats: CacheStats)

  /** A freshly opened cache over an existing database. */
  function Open<V>(store: map<Key, V>): (c: Cache<V>)
    ensures c.store == store
    ensures c.stats.hits == 0 && c.stats.misses == 0 && c.stats.writes == 0 && c.stats.errors == 0
  {
    Cache(store, CacheStats(0, 0, 0, 0))
  }

  const UnresolvedSuffix: string := "_unresolved"
  const ResolvedSuffix: string := "_resolved"

  /** The ASCII bytes of a string all of whose characters are below 128. */
  function AsciiBytes(s: string): (b: seq<byte>)
    requires forall i :: 0 <= i < |s| ==> (s[i] as int) < 128
    ensures |b| == |s|
    ensures forall i :: 0 <= i < |s| ==> b[i] == s[i] as int
  {
    seq(|s|, i requires 0 <= i < |s| => s[i] as int)
  }

  /** The mode tag appended to every key. */
  function Suffix(skipResolving: bool): (b: seq<byte>)
    ensures |b| == (if skipResolving then 11 else 9)
  {
    if skipResolving then AsciiBytes(UnresolvedSuffix) else AsciiBytes(ResolvedSuffix)
  }

  /** `generate_cache_key`: the 32-byte BLAKE3 digest of the bytecode without
      one leading "0x", followed by the mode suffix. */
  function CacheKey(blake3: StringHasher, bytecode: string, skipResolving: bool): (k: Key)
    ensures |k| == (if skipResolving then 43 else 41)
    ensures k[..32] == blake3(Text.StripOne0x(bytecode))
    ensures k[32..] == Suffix(skipResolving)
  {
    blake3(Text.StripOne0x(bytecode)) + Suffix(skipResolving)
  }

  /** A bytecode with and without one "0x" prefix shares its key, provided
      the unprefixed text does not itself start with "0x". */
  lemma KeyIgnoresOnePrefix(blake3: StringHasher, s: string, skipResolving: bool)
    requires !Text.StartsWith(s, "0x")
    ensures CacheKey(blake3, "0x" + s, skipResolving) == CacheKey(blake3, s, skipResolving)
  {
    assert Text.StartsWith("0x" + s, "0x");
    assert ("0x" + s)[2..] == s;
  }

  /** The two modes never share a key, whatever the hash: the keys differ in length. */
  lemma ModesNeverCollide(blake3: StringHasher, a: string, b: string)
    ensures CacheKey(blake3, a, true) != CacheKey(blake3, b, false)
  {
    assert |CacheKey(blake3, a, true)| == 43;
    assert |CacheKey(blake3, b, false)| == 41;
  }

  /** Within one mode, two bytecodes share a key exactly when their digests agree. */
  lemma SameModeKeysAgreeIffDigestsAgree(blake3: StringHasher, a: string, b: string, skipResolving: bool)
    ensures CacheKey(blake3, a, skipResolving) == CacheKey(blake3, b, skipResolving)
        <==> blake3(Text.StripOne0x(a)) == blake3(Text.StripOne0x(b))
  {
    var ka := CacheKey(blake3, a, skipResolving);
    var kb := CacheKey(blake3, b, skipResolving);
    if ka == kb {
      assert ka[..32] == kb[..32];
    }
  }

  /** How a read-only lookup went: the read transaction could not be opened,
      `get` failed, or `get` ran. */
  datatype ReadOutcome = ReadOk | ReadTxnFailed | GetFailed

  /** The answer of `exists` and the cache after it. */
  datatype Lookup<V> = Lookup(found: bool, cache: Cache<V>)

  /** `AbiCache::exists`. */
  function Exists<V>(c: Cache<V>, blake3: StringHasher, bytecode: string, skipResolving: bool, read: ReadOutcome): (r: Lookup<V>)
    ensures r.cache.store == c.store
    ensures r.cache.stats.writes == c.stats.writes
    ensures r.found <==> read == ReadOk && CacheKey(blake3, bytecode, skipResolving) in c.store
    ensures read == ReadTxnFailed ==> !r.found && r.cache.stats == c.stats.(errors := c.stats.errors + 1)
    ensures read != ReadTxnFailed && r.found ==> r.cache.stats == c.stats.(hits := c.stats.hits + 1)
    ensures read != ReadTxnFailed && !r.found ==> r.cache.stats == c.stats.(misses := c.stats.misses + 1)
    ensures r.cache.stats.hits + r.cache.stats.misses + r.cache.stats.errors
         == c.stats.hits + c.stats.misses + c.stats.errors + 1
  {
    match read
    case ReadTxnFailed =>
      Lookup(false, c.(stats := c.stats.(errors := c.stats.errors + 1)))
    case GetFailed =>
      Lookup(false, c.(stats := c.stats.(misses := c.stats.misses + 1)))
    case ReadOk =>
      if CacheKey(blake3, bytecode, skipResolving) in c.store then
        Lookup(true, c.(stats := c.stats.(hits := c.stats.hits + 1)))
      else
        Lookup(false, c.(stats := c.stats.(misses := c.stats.misses + 1)))
  }

  /** The errors `put`, `put_batch` and `clear` surface. */
  datatype CacheError = SerializeError | StorageError

  /** How a single write went, step by step: serialisation, opening the write
      transaction, `txn.put`, `txn.commit`. */
  datatype WriteOutcome = Committed | SerializeFailed | WriteTxnFailed | PutFailed | CommitFailed

  /** The outcome of a write and the cache after it. */
  datatype Written<V> = Written(outcome: Outcome<CacheError>, cache: Cache<V>)

  /** `AbiCache::put`. */
  function Put<V>(c: Cache<V>, blake3: StringHasher, bytecode: string, skipResolving: bool, value: V, w: WriteOutcome): (r: Written<V>)
    ensures r.outcome.Pass? <==> w == Committed
    ensures w == Committed ==>
      && r.cache.store == c.store[CacheKey(blake3, bytecode, skipResolving) := value]
      && r.cache.stats == c.stats.(writes := c.stats.writes + 1)
    ensures w != Committed ==> r.cache == c
    ensures w == SerializeFailed ==> r.outcome == Fail(SerializeError)
    ensures w != Committed && w != SerializeFailed ==> r.outcome == Fail(StorageError)
  {
    match w
    case Committed =>
      var key := CacheKey(blake3, bytecode, skipResolving);
      Written(Pass, Cache(c.store[key := value], c.stats.(writes := c.stats.writes + 1)))
    case SerializeFailed => Written(Fail(SerializeError), c)
    case _ => Written(Fail(StorageError), c)
  }

  /** After a committed put, `exists` (with a working read) finds the entry. */
  lemma PutThenExists<V>(c: Cache<V>, blake3: StringHasher, bytecode: string, skipResolving: bool, value: V)
    ensures var after := Put(c, blake3, bytecode, skipResolving, value, Committed).cache;
      && Exists(after, blake3, bytecode, skipResolving, ReadOk).found
      && after.store[CacheKey(blake3, bytecode, skipResolving)] == value
  {
  }

  /** Two committed puts under the same bytecode and mode: the second value wins. */
  lemma LastWriteWins<V>(c: Cache<V>, blake3: StringHasher, bytecode: string, skipResolving: bool, v1: V, v2: V)
    ensures var c1 := Put(c, blake3, bytecode, skipResolving, v1, Committed).cache;
      var c2 := Put(c1, blake3, bytecode, skipResolving, v2, Committed).cache;
      && c2.store == c.store[CacheKey(blake3, bytecode, skipResolving) := v2]
      && c2.stats.writes == c.stats.writes + 2
  {
  }

  /** One item of `put_batch`. */
  datatype BatchItem<V> = BatchItem(bytecode: string, skipResolving: bool, value: V)

  /** Which step of which item stopped the batch. */
  datatype ItemStep = ItemSerializeFailed | ItemPutFailed

  /** How a batch went: the write transaction could not be opened, item `at`
      failed to serialise or to be put, the commit failed, or it committed. */
  datatype BatchOutcome = BatchTxnFailed | ItemFailed(at: nat, step: ItemStep) | BatchCommitFailed | BatchCommitted

  /** The store as the open transaction sees it after putting `items` in order. */
  function Stage<V>(store: map<Key, V>, blake3: StringHasher, items: seq<BatchItem<V>>): map<Key, V>
    decreases |items|
  {
    if |items| == 0 then store
    else
      var it := items[0];
      Stage(store[CacheKey(blake3, it.bytecode, it.skipResolving) := it.value], blake3, items[1..])
  }

  /** `AbiCache::put_batch`: one transaction for all items; `writes` rises once
      per item put, even when a later step aborts the transaction, but the
      store changes only when the whole batch commits. */
  function PutBatch<V>(c: Cache<V>, blake3: StringHasher, items: seq<BatchItem<V>>, o: BatchOutcome): (r: Written<V>)
    requires o.ItemFailed? ==> o.at < |items|
    ensures r.outcome.Pass? <==> o == BatchCommitted
    ensures o != BatchCommitted ==> r.cache.store == c.store
    ensures o == BatchCommitted ==> r.cache.store == Stage(c.store, blake3, items)
    ensures o == BatchCommitted || o == BatchCommitFailed ==> r.cache.stats.writes == c.stats.writes + |items|
    ensures o.ItemFailed? ==> r.cache.stats.writes == c.stats.writes + o.at
    ensures o == BatchTxnFailed ==> r.cache == c
    ensures r.cache.stats.hits == c.stats.hits && r.cache.stats.misses == c.stats.misses
    ensures r.cache.stats.errors == c.stats.errors
  {
    match o
    case BatchTxnFailed => Written(Fail(StorageError), c)
    case ItemFailed(at, step) =>
      var err := if step == ItemSerializeFailed then SerializeError else StorageError;
      Written(Fail(err), c.(stats := c.stats.(writes := c.stats.writes + at)))
    case BatchCommitFailed =>
      Written(Fail(StorageError), c.(stats := c.stats.(writes := c.stats.writes + |items|)))
    case BatchCommitted =>
      Written(Pass, Cache(Stage(c.store, blake3, items), c.stats.(writes := c.stats.writes + |items|)))
  }

  /** Committed single puts of `items`, one after the other. */
  function PutEach<V>(c: Cache<V>, blake3: StringHasher, items: seq<BatchItem<V>>): Cache<V>
    decreases |items|
  {
    if |items| == 0 then c
    else
      var it := items[0];
      PutEach(Put(c, blake3, it.bytecode, it.skipResolving, it.value, Committed).cache, blake3, items[1..])
  }

  /** A committed batch leaves the cache exactly as committed single puts of
      its items, in order, would. */
  lemma {:induction false} PutBatchIsSequentialPuts<V>(c: Cache<V>, blake3: StringHasher, items: seq<BatchItem<V>>)
    ensures PutBatch(c, blake3, items, BatchCommitted).cache == PutEach(c, blake3, items)
    decreases |items|
  {
    if |items| > 0 {
      var it := items[0];
      var c1 := Put(c, blake3, it.bytecode, it.skipResolving, it.value, Committed).cache;
      PutBatchIsSequentialPuts(c1, blake3, items[1..]);
    }
  }

  /** How `clear` went. */
  datatype ClearOutcome = Cleared | ClearFailed

  /** `AbiCache::clear`: on success the store is empty and every counter is
      zero; on failure nothing changes. */
  function Clear<V>(c: Cache<V>, o: ClearOutcome): (r: Written<V>)
    ensures r.outcome.Pass? <==> o == Cleared
    ensures o == Cleared ==>
      && r.cache.store == map[]
      && r.cache.stats.hits == 0 && r.cache.stats.misses == 0
      && r.cache.stats.writes == 0 && r.cache.stats.errors == 0
    ensures o == ClearFailed ==> r.cache == c
  {
    match o
    case Cleared => Written(Pass, Cache(map[], CacheStats(0, 0, 0, 0)))
    case ClearFailed => Written(Fail(StorageError), c)
  }

  /** After a successful clear no bytecode is found, and the lookup counts one miss. */
  lemma ClearThenNothingExists<V>(c: Cache<V>, blake3: StringHasher, bytecode: string, skipResolving: bool)
    ensures var l := Exists(Clear(c, Cleared).cache, blake3, bytecode, skipResolving, ReadOk);
      !l.found && l.cache.stats == CacheStats(0, 1, 0, 0)
  {
  }

  /** The platforms `get_default_cache_dir` distinguishes. */
  datatype Platform = MacOS | Linux | Windows | OtherPlatform

  /** A directory: a literal path, or `PathBuf::from(base).join(child)`. */
  datatype CacheDir = Exactly(path: string) | Joined(base: string, child: string)

  /** `env::var(name).unwrap_or_else(|_| fallback)`. */
  function VarOr(env: map<string, string>, name: string, fallback: string): string {
    if name in env then env[name] else fallback
  }

  /** `get_default_cache_dir`: `HEIMDALL_CACHE_DIR` wins on every platform;
      otherwise the platform's cache location. */
  function DefaultCacheDir(env: map<string, string>, p: Platform): (d: CacheDir)
    ensures "HEIMDALL_CACHE_DIR" in env ==> d == Exactly(env["HEIMDALL_CACHE_DIR"])
    ensures "HEIMDALL_CACHE_DIR" !in env && p == MacOS ==>
      d == Joined(if "HOME" in env then env["HOME"] else "/tmp", "Library/Caches/heimdall")
    ensures "HEIMDALL_CACHE_DIR" !in env && p == Linux ==>
      d == (if "XDG_CACHE_HOME" in env then Joined(env["XDG_CACHE_HOME"], "heimdall")
            else if "HOME" in env then Joined(env["HOME"], ".cache/heimdall")
            else Joined("/tmp", ".cache/heimdall"))
    ensures "HEIMDALL_CACHE_DIR" !in env && p == Windows ==>
      d == (if "LOCALAPPDATA" in env then Joined(env["LOCALAPPDATA"], "heimdall\\cache")
            else if "TEMP" in env then Joined(env["TEMP"], "heimdall\\cache")
            else Joined("C:\\Temp", "heimdall\\cache"))
    ensures "HEIMDALL_CACHE_DIR" !in env && p == OtherPlatform ==> d == Exactly("/tmp/heimdall_cache")
  {
    if "HEIMDALL_CACHE_DIR" in env then Exactly(env["HEIMDALL_CACHE_DIR"])
    else
      match p
      case MacOS => Joined(VarOr(env, "HOME", "/tmp"), "Library/Caches/heimdall")
      case Linux =>
        if "XDG_CACHE_HOME" in env then Joined(env["XDG_CACHE_HOME"], "heimdall")
        else Joined(VarOr(env, "HOME", "/tmp"), ".cache/heimdall")
      case Windows =>
        if "LOCALAPPDATA" in env then Joined(env["LOCALAPPDATA"], "heimdall\\cache")
        else Joined(VarOr(env, "TEMP", "C:\\Temp"), "heimdall\\cache")
      case OtherPlatform => Exactly("/tmp/heimdall_cache")
  }

  /** `AbiCache::new`: an explicit directory wins over the default one. */
  function CacheDirectory(directory: Option<string>, env: map<string, string>, p: Platform): (d: CacheDir)
    ensures directory.Some? ==> d == Exactly(directory.value)
    ensures directory.None? && "HEIMDALL_CACHE_DIR" in env ==> d == Exactly(env["HEIMDALL_CACHE_DIR"])
    ensures directory.None? ==> d == DefaultCacheDir(env, p)
  {
    match directory
    case Some(dir) => Exactly(dir)
    case None => DefaultCacheDir(env, p)
  }

  /** The environment override yields the same directory on every platform. */
  lemma OverrideIsPlatformIndependent(env: map<string, string>, p: Platform, q: Platform)
    requires "HEIMDALL_CACHE_DIR" in env
    ensures DefaultCacheDir(env, p) == DefaultCacheDir(env, q)
  {
  }
}
