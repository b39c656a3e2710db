/** The streaming pipeline (crates/cache_builder/src/stream_processor.rs):
    input-file discovery, the reader thread's deduplication loop written as
    a sequential fold over the per-file read results, and the per-item
    mapping from a processing result to a statistics record.
    The cache's answer to `exists` at each check is an oracle indexed by the
    number of contracts examined before it, since workers write the cache
    while the reader runs. */
module StreamProcessor {
  import opened Wrappers
  import Text
  import PathOrder
  import opened ParquetReader
  import Processor
  import RunStats

  // ------------------------------------------------------- file discovery

  /** What `read_dir` on the input directory gives: a missing directory, a
      directory that cannot be listed, or its entries, each a path or an
      I/O error. */
  datatype Listing =
    | Missing
    | Unlistable(message: string)
    | Listed(entries: seq<Result<string, string>>)

  const ParquetSuffix: string := ".parquet"

  /** `path.extension() == Some("parquet")` for a path `read_dir` yields (the
      directory, a separator, a file name): the file name ends with
      ".parquet" after a non-empty stem, so a file named ".parquet" has no
      extension. */
  predicate HasParquetExtension(name: string) {
    && |name| > |ParquetSuffix|
    && name[|name| - |ParquetSuffix|..] == ParquetSuffix
    && name[|name| - |ParquetSuffix| - 1] != '/'
  }

  /** A hidden file named ".parquet" is not picked up; "a.parquet" and
      "d/..parquet" are. */
  lemma ParquetExtensionExamples()
    ensures !HasParquetExtension("d/.parquet")
    ensures HasParquetExtension("d/a.parquet") && HasParquetExtension("d/..parquet")
    ensures ParquetEntries(Readable(["d/.parquet", "d/a.parquet"])) == Success(["d/a.parquet"])
  {
    assert "d/a.parquet"[3..] == ParquetSuffix;
    assert "d/..parquet"[3..] == ParquetSuffix;
    var e := Readable(["d/.parquet", "d/a.parquet"]);
    var t: seq<Result<string, string>> := [Success("d/a.parquet")];
    assert e == [Success("d/.parquet")] + t;
    assert e[1..] == t && t[1..] == [];
    assert HasParquetExtension("d/a.parquet");
    assert !HasParquetExtension("d/.parquet");
    assert ParquetEntries(t[1..]) == Success([]);
    assert t[0] == Success("d/a.parquet");
    assert ParquetEntries(t) == Success(["d/a.parquet"] + []);
    assert e[0] == Success("d/.parquet");
    assert ParquetEntries(e) == ParquetEntries(e[1..]);
    assert ["d/a.parquet"] + [] == ["d/a.parquet"];
  }

  /** The paths of the listed entries with the parquet extension, in listing
      order; the first unreadable entry is an error. */
  function ParquetEntries(entries: seq<Result<string, string>>): (r: Result<seq<string>, string>)
    ensures r.Success? <==> forall i :: 0 <= i < |entries| ==> entries[i].Success?
    ensures r.Success? ==> forall k :: 0 <= k < |r.value| ==> HasParquetExtension(r.value[k])
    ensures r.Success? ==> forall i :: 0 <= i < |entries| && HasParquetExtension(entries[i].value) ==>
      entries[i].value in r.value
    ensures r.Success? ==> forall k :: 0 <= k < |r.value| ==>
      exists i :: 0 <= i < |entries| && entries[i] == Success(r.value[k])
    decreases |entries|
  {
    if |entries| == 0 then Success([])
    else
      assert forall i :: 1 <= i < |entries| ==> entries[i] == entries[1..][i - 1];
      match entries[0]
      case Failure(e) => Failure(e)
      case Success(path) =>
        match ParquetEntries(entries[1..])
        case Failure(e) => Failure(e)
        case Success(rest) =>
          Success(if HasParquetExtension(path) then [path] + rest else rest)
  }

  /** `find_parquet_files`: an error for a missing or unreadable directory,
      otherwise the parquet paths, sorted. */
  function FindParquetFiles(dir: string, listing: Listing): (r: Result<seq<string>, string>)
    ensures listing.Missing? ==> r == Failure("Directory does not exist: \"" + dir + "\"")
    ensures listing.Unlistable? ==> r == Failure(listing.message)
    ensures r.Success? ==> listing.Listed? && ParquetEntries(listing.entries).Success?
    ensures r.Success? ==> PathOrder.Sorted(r.value)
    ensures r.Success? ==> multiset(r.value) == multiset(ParquetEntries(listing.entries).value)
  {
    match listing
    case Missing => Failure("Directory does not exist: \"" + dir + "\"")
    case Unlistable(message) => Failure(message)
    case Listed(entries) =>
      match ParquetEntries(entries)
      case Failure(e) => Failure(e)
      case Success(paths) => Success(PathOrder.Sort(paths))
  }

  /** A listing whose entries all read without error. */
  function Readable(paths: seq<string>): (entries: seq<Result<string, string>>)
    ensures |entries| == |paths| && forall i :: 0 <= i < |paths| ==> entries[i] == Success(paths[i])
  {
    seq(|paths|, i requires 0 <= i < |paths| => Success(paths[i]))
  }

  /** The files found do not depend on the order `read_dir` lists them in. */
  lemma DiscoveryIgnoresListingOrder(dir: string, a: seq<string>, b: seq<string>)
    requires multiset(a) == multiset(b)
    ensures FindParquetFiles(dir, Listed(Readable(a)))
         == FindParquetFiles(dir, Listed(Readable(b)))
  {
    var ea := Readable(a);
    var eb := Readable(b);
    var pa := ParquetEntries(ea).value;
    var pb := ParquetEntries(eb).value;
    ParquetEntriesKeepsCounts(a);
    ParquetEntriesKeepsCounts(b);
    assert multiset(pa) == multiset(pb) by {
      forall x ensures multiset(pa)[x] == multiset(pb)[x] {
        assert multiset(a)[x] == multiset(b)[x];
      }
    }
    PathOrder.SortIgnoresInputOrder(pa, pb);
  }

  /** Each parquet path is kept as often as it is listed, every other path never. */
  lemma {:induction false} ParquetEntriesKeepsCounts(a: seq<string>)
    ensures
      var r := ParquetEntries(Readable(a));
      r.Success? && forall x :: multiset(r.value)[x] == (if HasParquetExtension(x) then multiset(a)[x] else 0)
    decreases |a|
  {
    var e := Readable(a);
    if |a| > 0 {
      ParquetEntriesKeepsCounts(a[1..]);
      assert e[1..] == Readable(a[1..]);
      assert a == [a[0]] + a[1..];
      assert multiset(a) == multiset{a[0]} + multiset(a[1..]);
    }
  }

  // ----------------------------------------------------------- reader loop

  /** What `read_contracts` gave for one file. */
  datatype FileRead = ReadFailed(message: string) | ReadOk(contracts: seq<Contract>)

  /** The answer of `cache.exists(code, skip_resolving)` for the contract
      examined after `n` others. */
  type CacheOracle = (nat, string) -> bool

  /** Why a contract was dropped, or that it was sent to the workers. */
  datatype Verdict = SeenBefore | AlreadyCached | Sent

  datatype Examined = Examined(contract: Contract, verdict: Verdict)

  /** The reader thread's state. `trace` records every contract examined with
      its verdict and `clears` counts the clears of `seen`; both exist only to
      state properties. */
  datatype Reader = Reader(
    seen: set<string>,
    unique: nat,
    duplicate: nat,
    totalContracts: nat,
    processedFiles: nat,
    trace: seq<Examined>,
    clears: nat)

  const Initial: Reader := Reader({}, 0, 0, 0, 0, [], 0)

  const ClearEveryFiles: nat := 1000
  const ClearAboveEntries: nat := 1_000_000

  /** The verdict on the contract examined after `n` others: `seen` is asked
      first, and the cache only for a code new to `seen`. */
  function Classify(seen: set<string>, n: nat, c: Contract, cacheHas: CacheOracle): (v: Verdict)
    ensures v == SeenBefore <==> c.code in seen
    ensures v == AlreadyCached <==> c.code !in seen && cacheHas(n, c.code)
    ensures v == Sent <==> c.code !in seen && !cacheHas(n, c.code)
  {
    if c.code in seen then SeenBefore else if cacheHas(n, c.code) then AlreadyCached else Sent
  }

  /** The dedup step for one contract. A new code enters `seen` before the
      cache is asked, so it stays there even when the cache drops it. */
  function Examine(r: Reader, c: Contract, cacheHas: CacheOracle): (r': Reader)
    ensures r'.trace == r.trace + [Examined(c, Classify(r.seen, |r.trace|, c, cacheHas))]
    ensures r'.seen == r.seen + {c.code}
    ensures r'.unique + r'.duplicate == r.unique + r.duplicate + 1
    ensures r'.unique == r.unique + 1 <==> Classify(r.seen, |r.trace|, c, cacheHas) == Sent
    ensures r'.totalContracts == r.totalContracts && r'.processedFiles == r.processedFiles
    ensures r'.clears == r.clears
  {
    if c.code in r.seen then
      r.(duplicate := r.duplicate + 1, trace := r.trace + [Examined(c, SeenBefore)])
    else if cacheHas(|r.trace|, c.code) then
      r.(seen := r.seen + {c.code}, duplicate := r.duplicate + 1,
         trace := r.trace + [Examined(c, AlreadyCached)])
    else
      r.(seen := r.seen + {c.code}, unique := r.unique + 1,
         trace := r.trace + [Examined(c, Sent)])
  }

  /** The inner loop over one file's contracts. */
  function ExamineAll(r: Reader, cs: seq<Contract>, cacheHas: CacheOracle): Reader
    decreases |cs|
  {
    if |cs| == 0 then r else ExamineAll(Examine(r, cs[0], cacheHas), cs[1..], cacheHas)
  }

  /** The periodic clear, checked after every file. */
  function MaybeClear(r: Reader): (r': Reader)
    ensures r'.clears == r.clears + 1 <==>
      r.processedFiles % ClearEveryFiles == 0 && |r.seen| > ClearAboveEntries
    ensures r'.clears == r.clears + 1 ==> r'.seen == {}
    ensures r'.clears != r.clears + 1 ==> r' == r
    ensures r' == r.(seen := r'.seen, clears := r'.clears)
  {
    if r.processedFiles % ClearEveryFiles == 0 && |r.seen| > ClearAboveEntries then
      r.(seen := {}, clears := r.clears + 1)
    else r
  }

  /** One file: its contracts (if it could be read), the file counter, then
      the periodic clear. A failed read still counts as a processed file. */
  function AfterFile(r: Reader, f: FileRead, cacheHas: CacheOracle): Reader {
    match f
    case ReadFailed(_) => MaybeClear(r.(processedFiles := r.processedFiles + 1))
    case ReadOk(cs) =>
      var r1 := r.(totalContracts := r.totalContracts + |cs|);
      var r2 := ExamineAll(r1, cs, cacheHas);
      MaybeClear(r2.(processedFiles := r2.processedFiles + 1))
  }

  /** The reader over the files from `r` on. The source walks the files in
      chunks of 1000, which visits them in the same order. */
  function ReadFiles(r: Reader, files: seq<FileRead>, cacheHas: CacheOracle): Reader
    decreases |files|
  {
    if |files| == 0 then r else ReadFiles(AfterFile(r, files[0], cacheHas), files[1..], cacheHas)
  }

  /** The reader thread: the fold from the initial state. */
  function RunReader(files: seq<FileRead>, cacheHas: CacheOracle): Reader {
    ReadFiles(Initial, files, cacheHas)
  }

  /** The contracts of the successfully read files, file by file, row by row. */
  function AllContracts(files: seq<FileRead>): seq<Contract>
    decreases |files|
  {
    if |files| == 0 then [] else FileContracts(files[0]) + AllContracts(files[1..])
  }

  /** The contracts a file contributes: none when it could not be read. */
  function FileContracts(f: FileRead): seq<Contract> {
    match f
    case ReadOk(cs) => cs
    case ReadFailed(_) => []
  }

  function Contracts(trace: seq<Examined>): (cs: seq<Contract>)
    ensures |cs| == |trace| && forall k :: 0 <= k < |trace| ==> cs[k] == trace[k].contract
  {
    seq(|trace|, k requires 0 <= k < |trace| => trace[k].contract)
  }


  /** The positions of the contracts sent to the workers. */
  function SentPositions(trace: seq<Examined>): (p: seq<nat>)
    ensures forall k :: 0 <= k < |p| ==> p[k] < |trace| && trace[p[k]].verdict == Sent
    ensures forall k, l :: 0 <= k < l < |p| ==> p[k] < p[l]
    decreases |trace|
  {
    if |trace| == 0 then []
    else
      var before := SentPositions(trace[..|trace| - 1]);
      if trace[|trace| - 1].verdict == Sent then before + [|trace| - 1] else before
  }

  /** Every contract with the verdict `Sent` has its position listed. */
  lemma {:induction false} SentPositionsComplete(trace: seq<Examined>, i: nat)
    requires i < |trace| && trace[i].verdict == Sent
    ensures i in SentPositions(trace)
    decreases |trace|
  {
    if i < |trace| - 1 {
      SentPositionsComplete(trace[..|trace| - 1], i);
    }
  }

  /** The codes examined so far. */
  function Codes(trace: seq<Examined>): set<string>
    decreases |trace|
  {
    if |trace| == 0 then {} else Codes(trace[..|trace| - 1]) + {trace[|trace| - 1].contract.code}
  }

  lemma CodesAppend(trace: seq<Examined>, e: Examined)
    ensures Codes(trace + [e]) == Codes(trace) + {e.contract.code}
  {
    assert (trace + [e])[..|trace|] == trace;
  }

  /** A code among `Codes` was examined at some position. */
  lemma {:induction false} InCodes(trace: seq<Examined>, x: string) returns (j: nat)
    requires x in Codes(trace)
    ensures j < |trace| && trace[j].contract.code == x
    decreases |trace|
  {
    if trace[|trace| - 1].contract.code == x {
      j := |trace| - 1;
    } else {
      j := InCodes(trace[..|trace| - 1], x);
    }
  }

  /** Every examined code is among `Codes`. */
  lemma {:induction false} CodesContains(trace: seq<Examined>, j: nat)
    requires j < |trace|
    ensures trace[j].contract.code in Codes(trace)
    decreases |trace|
  {
    if j < |trace| - 1 {
      CodesContains(trace[..|trace| - 1], j);
      assert trace[..|trace| - 1][j] == trace[j];
    }
  }

  /** Some contract examined before position `k` had the same code. */
  ghost predicate EarlierCode(trace: seq<Examined>, k: nat)
    requires k < |trace|
  {
    trace[k].contract.code in Codes(trace[..k])
  }

  /** The contracts sent to the workers, in the order they were sent. */
  function SentOf(trace: seq<Examined>): seq<Contract> {
    var p := SentPositions(trace);
    seq(|p|, k requires 0 <= k < |p| => trace[p[k]].contract)
  }

  lemma {:induction false} SentPositionsAppend(trace: seq<Examined>, e: Examined)
    ensures SentPositions(trace + [e]) == SentPositions(trace) + (if e.verdict == Sent then [|trace|] else [])
  {
    assert (trace + [e])[..|trace|] == trace;
  }

  // The loop invariant, in parts over the trace and `seen`.

  /** The cache verdicts agree with the oracle at their position. */
  ghost predicate CacheVerdictsHonest(trace: seq<Examined>, cacheHas: CacheOracle) {
    forall k :: 0 <= k < |trace| ==>
      (trace[k].verdict == AlreadyCached ==> cacheHas(k, trace[k].contract.code)) &&
      (trace[k].verdict == Sent ==> !cacheHas(k, trace[k].contract.code))
  }

  /** A contract dropped as seen had its code examined before. */
  ghost predicate SeenVerdictsHonest(trace: seq<Examined>) {
    forall k :: 0 <= k < |trace| && trace[k].verdict == SeenBefore ==> EarlierCode(trace, k)
  }

  /** `seen` holds only codes already examined. */
  ghost predicate SeenFromTrace(trace: seq<Examined>, seen: set<string>) {
    seen <= Codes(trace)
  }

  /** Before any clear: every examined code is in `seen`, and only a repeated
      code is dropped as seen. */
  ghost predicate ExactWhileUncleared(trace: seq<Examined>, seen: set<string>) {
    && Codes(trace) <= seen
    && (forall k :: 0 <= k < |trace| && trace[k].verdict != SeenBefore ==> !EarlierCode(trace, k))
  }

  /** What the reader loop maintains. */
  ghost predicate Inv(r: Reader, cacheHas: CacheOracle) {
    && r.unique + r.duplicate == |r.trace|
    && r.unique == |SentPositions(r.trace)|
    && CacheVerdictsHonest(r.trace, cacheHas)
    && SeenVerdictsHonest(r.trace)
    && SeenFromTrace(r.trace, r.seen)
    && (r.clears == 0 ==> ExactWhileUncleared(r.trace, r.seen))
  }

  /** The reader starts in a state that satisfies the invariant. */
  lemma InitialInv(cacheHas: CacheOracle)
    ensures Inv(Initial, cacheHas)
  {
  }

  lemma ExamineKeepsCacheVerdicts(r: Reader, c: Contract, cacheHas: CacheOracle)
    requires CacheVerdictsHonest(r.trace, cacheHas)
    ensures CacheVerdictsHonest(Examine(r, c, cacheHas).trace, cacheHas)
  {
    var t := Examine(r, c, cacheHas).trace;
    assert forall k :: 0 <= k < |r.trace| ==> t[k] == r.trace[k];
  }

  lemma ExamineKeepsSeenVerdicts(r: Reader, c: Contract, cacheHas: CacheOracle)
    requires SeenVerdictsHonest(r.trace) && SeenFromTrace(r.trace, r.seen)
    ensures SeenVerdictsHonest(Examine(r, c, cacheHas).trace)
  {
    var t := Examine(r, c, cacheHas).trace;
    var n := |r.trace|;
    assert t[..n] == r.trace;
    forall k | 0 <= k < n
      ensures t[k] == r.trace[k] && t[..k] == r.trace[..k]
    {
    }
  }

  lemma ExamineKeepsSeenFromTrace(r: Reader, c: Contract, cacheHas: CacheOracle)
    requires SeenFromTrace(r.trace, r.seen)
    ensures SeenFromTrace(Examine(r, c, cacheHas).trace, Examine(r, c, cacheHas).seen)
  {
    CodesAppend(r.trace, Examined(c, Classify(r.seen, |r.trace|, c, cacheHas)));
  }

  lemma ExamineKeepsExact(r: Reader, c: Contract, cacheHas: CacheOracle)
    requires ExactWhileUncleared(r.trace, r.seen)
    ensures ExactWhileUncleared(Examine(r, c, cacheHas).trace, Examine(r, c, cacheHas).seen)
  {
    var t := Examine(r, c, cacheHas).trace;
    var n := |r.trace|;
    CodesAppend(r.trace, t[n]);
    assert t[..n] == r.trace;
    forall k | 0 <= k < n
      ensures t[k] == r.trace[k] && t[..k] == r.trace[..k]
    {
    }
  }

  lemma ExamineKeepsInv(r: Reader, c: Contract, cacheHas: CacheOracle)
    requires Inv(r, cacheHas)
    ensures Inv(Examine(r, c, cacheHas), cacheHas)
  {
    var r' := Examine(r, c, cacheHas);
    SentPositionsAppend(r.trace, Examined(c, Classify(r.seen, |r.trace|, c, cacheHas)));
    ExamineKeepsCacheVerdicts(r, c, cacheHas);
    ExamineKeepsSeenVerdicts(r, c, cacheHas);
    ExamineKeepsSeenFromTrace(r, c, cacheHas);
    if r.clears == 0 {
      ExamineKeepsExact(r, c, cacheHas);
    }
  }

  /** Field updates that `Inv` does not read keep it. */
  lemma InvIgnoresCounters(r: Reader, cacheHas: CacheOracle, total: nat, files: nat)
    requires Inv(r, cacheHas)
    ensures Inv(r.(totalContracts := total, processedFiles := files), cacheHas)
  {
  }

  lemma {:induction false} ExamineAllKeepsInv(r: Reader, cs: seq<Contract>, cacheHas: CacheOracle)
    requires Inv(r, cacheHas)
    ensures Inv(ExamineAll(r, cs, cacheHas), cacheHas)
    decreases |cs|
  {
    if |cs| > 0 {
      ExamineKeepsInv(r, cs[0], cacheHas);
      ExamineAllKeepsInv(Examine(r, cs[0], cacheHas), cs[1..], cacheHas);
    }
  }

  /** The inner loop examines the file's contracts in row order. */
  lemma {:induction false} ExamineAllAppendsContracts(r: Reader, cs: seq<Contract>, cacheHas: CacheOracle)
    ensures Contracts(ExamineAll(r, cs, cacheHas).trace) == Contracts(r.trace) + cs
    decreases |cs|
  {
    if |cs| > 0 {
      var r1 := Examine(r, cs[0], cacheHas);
      assert Contracts(r1.trace) == Contracts(r.trace) + [cs[0]];
      ExamineAllAppendsContracts(r1, cs[1..], cacheHas);
      assert cs == [cs[0]] + cs[1..];
    }
  }

  /** The inner loop leaves the file and contract counters and the clears alone. */
  lemma {:induction false} ExamineAllKeepsCounters(r: Reader, cs: seq<Contract>, cacheHas: CacheOracle)
    ensures ExamineAll(r, cs, cacheHas).totalContracts == r.totalContracts
    ensures ExamineAll(r, cs, cacheHas).processedFiles == r.processedFiles
    ensures ExamineAll(r, cs, cacheHas).clears == r.clears
    decreases |cs|
  {
    if |cs| > 0 {
      ExamineAllKeepsCounters(Examine(r, cs[0], cacheHas), cs[1..], cacheHas);
    }
  }

  /** `MaybeClear` keeps the invariant: a cleared `seen` is trivially drawn
      from the trace, and the exactness part is no longer claimed. */
  lemma MaybeClearKeepsInv(r: Reader, cacheHas: CacheOracle)
    requires Inv(r, cacheHas)
    ensures Inv(MaybeClear(r), cacheHas)
  {
  }

  lemma AfterFileKeepsInv(r: Reader, f: FileRead, cacheHas: CacheOracle)
    requires Inv(r, cacheHas)
    ensures Inv(AfterFile(r, f, cacheHas), cacheHas)
  {
    match f
    case ReadFailed(_) =>
      var r1 := r.(processedFiles := r.processedFiles + 1);
      InvIgnoresCounters(r, cacheHas, r.totalContracts, r.processedFiles + 1);
      MaybeClearKeepsInv(r1, cacheHas);
    case ReadOk(cs) =>
      var r1 := r.(totalContracts := r.totalContracts + |cs|);
      InvIgnoresCounters(r, cacheHas, r.totalContracts + |cs|, r.processedFiles);
      ExamineAllKeepsInv(r1, cs, cacheHas);
      var r2 := ExamineAll(r1, cs, cacheHas);
      InvIgnoresCounters(r2, cacheHas, r2.totalContracts, r2.processedFiles + 1);
      MaybeClearKeepsInv(r2.(processedFiles := r2.processedFiles + 1), cacheHas);
  }

  /** What one file adds to the counters and to the examined contracts. */
  lemma AfterFileCounts(r: Reader, f: FileRead, cacheHas: CacheOracle)
    ensures AfterFile(r, f, cacheHas).processedFiles == r.processedFiles + 1
    ensures AfterFile(r, f, cacheHas).totalContracts == r.totalContracts + |FileContracts(f)|
    ensures Contracts(AfterFile(r, f, cacheHas).trace) == Contracts(r.trace) + FileContracts(f)
  {
    match f
    case ReadFailed(_) =>
    case ReadOk(cs) =>
      var r1 := r.(totalContracts := r.totalContracts + |cs|);
      ExamineAllAppendsContracts(r1, cs, cacheHas);
      ExamineAllKeepsCounters(r1, cs, cacheHas);
  }

  /** The reader loop keeps its invariant over any number of files. */
  lemma {:induction false} ReadFilesKeepsInv(r: Reader, files: seq<FileRead>, cacheHas: CacheOracle)
    requires Inv(r, cacheHas)
    ensures Inv(ReadFiles(r, files, cacheHas), cacheHas)
    decreases |files|
  {
    if |files| > 0 {
      AfterFileKeepsInv(r, files[0], cacheHas);
      ReadFilesKeepsInv(AfterFile(r, files[0], cacheHas), files[1..], cacheHas);
    }
  }

  /** Over any number of files: every file is counted, and the readable
      files' contracts are examined in file-then-row order. */
  lemma {:induction false} ReadFilesCounts(r: Reader, files: seq<FileRead>, cacheHas: CacheOracle)
    ensures ReadFiles(r, files, cacheHas).processedFiles == r.processedFiles + |files|
    ensures ReadFiles(r, files, cacheHas).totalContracts == r.totalContracts + |AllContracts(files)|
    ensures Contracts(ReadFiles(r, files, cacheHas).trace) == Contracts(r.trace) + AllContracts(files)
    decreases |files|
  {
    if |files| > 0 {
      var r1 := AfterFile(r, files[0], cacheHas);
      AfterFileCounts(r, files[0], cacheHas);
      ReadFilesCounts(r1, files[1..], cacheHas);
      assert AllContracts(files) == FileContracts(files[0]) + AllContracts(files[1..]);
      assert Contracts(r.trace) + FileContracts(files[0]) + AllContracts(files[1..])
          == Contracts(r.trace) + AllContracts(files);
    }
  }

  /** The reader's final state satisfies the loop invariant. */
  lemma RunReaderInv(files: seq<FileRead>, cacheHas: CacheOracle)
    ensures Inv(RunReader(files, cacheHas), cacheHas)
  {
    InitialInv(cacheHas);
    ReadFilesKeepsInv(Initial, files, cacheHas);
  }

  /** The reader's final counters and the contracts it examined. */
  lemma RunReaderCounts(files: seq<FileRead>, cacheHas: CacheOracle)
    ensures RunReader(files, cacheHas).processedFiles == |files|
    ensures RunReader(files, cacheHas).totalContracts == |AllContracts(files)|
    ensures Contracts(RunReader(files, cacheHas).trace) == AllContracts(files)
  {
    ReadFilesCounts(Initial, files, cacheHas);
    assert Contracts(Initial.trace) + AllContracts(files) == AllContracts(files);
  }

  /** The invariant's counting consequences for a reader that examined `all`. */
  lemma InvCounts(r: Reader, cacheHas: CacheOracle, all: seq<Contract>)
    requires Inv(r, cacheHas) && Contracts(r.trace) == all && r.totalContracts == |all|
    ensures r.unique + r.duplicate == r.totalContracts
    ensures r.unique == |SentOf(r.trace)|
  {
  }

  /** The unique counter counts exactly the contracts sent. */
  lemma UniqueAreSent(r: Reader, cacheHas: CacheOracle)
    requires Inv(r, cacheHas)
    ensures r.unique == |SentOf(r.trace)|
  {
  }

  /** Every contract read is counted once as unique or duplicate; every file
      counts, readable or not; the contracts examined are those of the
      readable files in file-then-row order; and the unique ones are those sent. */
  lemma ReaderCounts(files: seq<FileRead>, cacheHas: CacheOracle)
    ensures var r := RunReader(files, cacheHas);
      && r.unique + r.duplicate == r.totalContracts == |AllContracts(files)|
      && r.processedFiles == |files|
      && Contracts(r.trace) == AllContracts(files)
      && r.unique == |SentOf(r.trace)|
  {
    RunReaderInv(files, cacheHas);
    RunReaderCounts(files, cacheHas);
    InvCounts(RunReader(files, cacheHas), cacheHas, AllContracts(files));
  }

  /** No contract the cache reported at its check is sent. */
  lemma SentWereUncached(files: seq<FileRead>, cacheHas: CacheOracle, k: nat)
    requires k < |RunReader(files, cacheHas).trace|
    requires RunReader(files, cacheHas).trace[k].verdict == Sent
    ensures !cacheHas(k, RunReader(files, cacheHas).trace[k].contract.code)
  {
    RunReaderInv(files, cacheHas);
  }

  /** A contract is dropped as seen only when an earlier contract had its code. */
  lemma SeenDropsAreRepeats(files: seq<FileRead>, cacheHas: CacheOracle, k: nat)
    requires k < |RunReader(files, cacheHas).trace|
    requires RunReader(files, cacheHas).trace[k].verdict == SeenBefore
    ensures EarlierCode(RunReader(files, cacheHas).trace, k)
  {
    RunReaderInv(files, cacheHas);
  }

  /** Without a clear, a contract is dropped as seen exactly when an earlier
      contract had its code, and the sent contracts have distinct codes. */
  lemma NoClearMeansExactDedup(files: seq<FileRead>, cacheHas: CacheOracle)
    requires RunReader(files, cacheHas).clears == 0
    ensures var t := RunReader(files, cacheHas).trace;
      forall k :: 0 <= k < |t| ==> (t[k].verdict == SeenBefore <==> EarlierCode(t, k))
    ensures var s := SentOf(RunReader(files, cacheHas).trace);
      forall a, b :: 0 <= a < b < |s| ==> s[a].code != s[b].code
  {
    RunReaderInv(files, cacheHas);
    ExactDedup(RunReader(files, cacheHas), cacheHas);
  }

  /** The invariant's consequences for a reader that never cleared `seen`. */
  lemma ExactDedup(r: Reader, cacheHas: CacheOracle)
    requires Inv(r, cacheHas) && r.clears == 0
    ensures forall k :: 0 <= k < |r.trace| ==> (r.trace[k].verdict == SeenBefore <==> EarlierCode(r.trace, k))
    ensures forall a, b :: 0 <= a < b < |SentOf(r.trace)| ==> SentOf(r.trace)[a].code != SentOf(r.trace)[b].code
  {
    DistinctSentCodes(r.trace);
  }

  /** When only first occurrences are sent, the sent codes are distinct. */
  lemma DistinctSentCodes(t: seq<Examined>)
    requires forall k :: 0 <= k < |t| && t[k].verdict != SeenBefore ==> !EarlierCode(t, k)
    ensures forall a, b :: 0 <= a < b < |SentOf(t)| ==> SentOf(t)[a].code != SentOf(t)[b].code
  {
    var p := SentPositions(t);
    forall a, b | 0 <= a < b < |p|
      ensures SentOf(t)[a].code != SentOf(t)[b].code
    {
      assert !EarlierCode(t, p[b]);
      CodesContains(t[..p[b]], p[a]);
      assert t[..p[b]][p[a]] == t[p[a]];
    }
  }

  /** `seen` is cleared only after a multiple of 1000 files, so a run of
      fewer than 1000 files never clears it. */
  lemma {:induction false} FewFilesNeverClear(r: Reader, files: seq<FileRead>, cacheHas: CacheOracle)
    requires r.clears == 0 && r.processedFiles + |files| < ClearEveryFiles
    ensures ReadFiles(r, files, cacheHas).clears == 0
    decreases |files|
  {
    if |files| > 0 {
      var r1 := AfterFile(r, files[0], cacheHas);
      assert (r.processedFiles + 1) % ClearEveryFiles == r.processedFiles + 1;
      if files[0].ReadOk? {
        var cs := files[0].contracts;
        ExamineAllKeepsCounters(r.(totalContracts := r.totalContracts + |cs|), cs, cacheHas);
      }
      FewFilesNeverClear(r1, files[1..], cacheHas);
    }
  }

  // ------------------------------------------------------- worker side

  /** The per-item mapping to `record_result`: a timeout is an error text
      containing "timed out"; an `Err` counts as an uncached failure with no
      duration. */
  function RecordOf(r: Result<Processor.ProcessResult, string>): (rec: RunStats.Record)
    ensures r.Failure? ==> rec == RunStats.Record(false, false, false, 0)
    ensures r.Success? ==>
      && rec.cached == r.value.cached && rec.success == r.value.success
      && rec.durationMicros == r.value.durationMicros
      && (rec.isTimeout <==> r.value.error.Some? && Text.Contains(r.value.error.value, "timed out"))
  {
    match r
    case Failure(_) => RunStats.Record(false, false, false, 0)
    case Success(p) =>
      RunStats.Record(p.cached, p.success,
        match p.error case Some(e) => Text.Contains(e, "timed out") case None => false,
        p.durationMicros)
  }

  /** The statistics after recording each worker result once, in order. */
  function Drain(s: RunStats.Stats, results: seq<Result<Processor.ProcessResult, string>>): RunStats.Stats {
    RunStats.Replay(s, seq(|results|, i requires 0 <= i < |results| => RecordOf(results[i])))
  }

  /** Each received contract is recorded exactly once, and the counters stay
      consistent. */
  lemma DrainCountsEachResult(s: RunStats.Stats, results: seq<Result<Processor.ProcessResult, string>>)
    ensures Drain(s, results).processed == s.processed + |results|
    ensures RunStats.Consistent(s) ==> RunStats.Consistent(Drain(s, results))
  {
    var records := seq(|results|, i requires 0 <= i < |results| => RecordOf(results[i]));
    RunStats.ReplayCountsEachRecord(s, records);
    if RunStats.Consistent(s) {
      RunStats.ReplayKeepsConsistent(s, records);
    }
  }

  /** A decompile failure the processor classifies as a timeout is counted as
      a timeout by the per-item mapping. */
  lemma DecompileTimeoutIsCounted(r: Processor.ProcessResult, msg: string)
    requires !r.cached && !r.success && r.error == Some(msg)
    ensures RecordOf(Success(r)).isTimeout <==> Processor.IsTimeoutText(msg)
  {
    Processor.TimeoutTestIsContainsTimedOut(msg);
  }

  // ------------------------------------------------------------- the run

  /** How `process_all_parquets` ends. */
  datatype RunEnd =
    | DiscoveryFailed(message: string)
    | NoFiles
    | Completed(reader: Reader, stats: RunStats.Stats)

  /** `f` applied to each element, in order: the files read from each path,
      the workers' result for each sent contract. */
  function MapEach<A, B>(xs: seq<A>, f: A -> B): (ys: seq<B>)
    ensures |ys| == |xs| && forall i :: 0 <= i < |xs| ==> ys[i] == f(xs[i])
  {
    seq(|xs|, i requires 0 <= i < |xs| => f(xs[i]))
  }

  /** `process_all_parquets`, with file reading, the cache oracle and the
      workers as parameters; the workers' results are recorded in send order. */
  function ProcessAll(
    dir: string, listing: Listing, readFile: string -> FileRead, cacheHas: CacheOracle,
    work: Contract -> Result<Processor.ProcessResult, string>, s: RunStats.Stats): (e: RunEnd)
    ensures FindParquetFiles(dir, listing).Failure? <==> e.DiscoveryFailed?
    ensures e.NoFiles? <==> FindParquetFiles(dir, listing) == Success([])
    ensures e.Completed? ==>
      e.reader == RunReader(MapEach(FindParquetFiles(dir, listing).value, readFile), cacheHas)
    ensures e.Completed? ==> e.stats.processed == s.processed + e.reader.unique
    ensures e.Completed? && RunStats.Consistent(s) ==> RunStats.Consistent(e.stats)
  {
    match FindParquetFiles(dir, listing)
    case Failure(msg) => DiscoveryFailed(msg)
    case Success(paths) =>
      if |paths| == 0 then NoFiles
      else
        var reader := RunReader(MapEach(paths, readFile), cacheHas);
        var results := MapEach(SentOf(reader.trace), work);
        RunReaderInv(MapEach(paths, readFile), cacheHas);
        UniqueAreSent(reader, cacheHas);
        DrainCountsEachResult(s, results);
        Completed(reader, Drain(s, results))
  }
}
