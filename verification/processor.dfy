/** Per-contract processing (crates/cache_builder/src/processor.rs): the
    cache check, the decompile result, its conversion to a cached ABI, the
    storage-layout phase under its deadline, and the write-through.
    The decompiler, the storage extractor, the clock and the channel are
    replaced by their observable outcomes, passed in as parameters, and
    `ABANDONED_THREADS` is an explicit counter threaded through the calls. */
module Processor {
  import opened Wrappers
  import opened Bytes
  import Text
  import Hex
  import Alloy
  import opened AbiTypes
  import opened AbiCache

  /** The settings of a `ContractProcessor`. */
  datatype Config = Config(timeoutSecs: nat, skipResolving: bool, extractStorage: bool)

  /** `ProcessResult`; the duration is the elapsed time in microseconds. */
  datatype ProcessResult = ProcessResult(
    address: string,
    cached: bool,
    success: bool,
    error: Option<string>,
    durationMicros: nat)

  // ---------------------------------------------------------------- storage

  const U32: nat := 0x1_0000_0000

  /** A slot of the extracted layout: `index` is the already parsed u64 index,
      `solidityType` is `typ.to_solidity_type()`, `offset` a usize. */
  datatype LayoutSlot = LayoutSlot(index: nat, offset: nat, solidityType: string)

  /** What a panic carried: a `String`, a `&str`, or anything else. */
  datatype PanicPayload = StringPanic(text: string) | StrPanic(text: string) | OpaquePanic

  /** What the analysis thread ended with. */
  datatype Analysis =
    | LayoutFound(slots: seq<LayoutSlot>)
    | AnalysisFailed(debugText: string)
    | Panicked(payload: PanicPayload)

  /** When the thread's message reached the caller: before the deadline,
      during the 100 ms grace period after it, or not at all. */
  datatype Arrival = BeforeDeadline | WithinGrace | NeverArrived

  /** The whole observable behaviour of the storage thread. */
  datatype StorageRun = StorageRun(analysis: Analysis, arrival: Arrival)

  /** `StorageSlot::from`: the offset is cast to u32, keeping its low 32 bits. */
  function ConvertSlot(s: LayoutSlot): (r: StorageSlot)
    ensures r.index == s.index && r.typ == s.solidityType
    ensures r.offset < U32 && r.offset == s.offset % U32
    ensures s.offset < U32 ==> r.offset == s.offset
  {
    StorageSlot(s.index, s.offset % U32, s.solidityType)
  }

  /** The slots the thread reports: every slot whose type is not "unknown",
      converted, in order. */
  function KnownSlots(slots: seq<LayoutSlot>): (r: seq<StorageSlot>)
    ensures |r| <= |slots|
    ensures forall i :: 0 <= i < |r| ==> r[i].typ != "unknown"
    ensures forall j :: 0 <= j < |slots| && slots[j].solidityType != "unknown" ==> ConvertSlot(slots[j]) in r
    ensures forall i :: 0 <= i < |r| ==> exists j :: 0 <= j < |slots| && r[i] == ConvertSlot(slots[j])
    ensures |slots| == 1 ==> r == (if slots[0].solidityType == "unknown" then [] else [ConvertSlot(slots[0])])
    decreases |slots|
  {
    if |slots| == 0 then []
    else
      var rest := KnownSlots(slots[1..]);
      assert forall j :: 1 <= j < |slots| ==> slots[j] == slots[1..][j - 1];
      if slots[0].solidityType == "unknown" then rest else [ConvertSlot(slots[0])] + rest
  }

  /** The filter distributes over concatenation: together with the one-slot
      case this fixes the result, so order and repeated slots are kept. */
  lemma {:induction false} KnownSlotsAppend(a: seq<LayoutSlot>, b: seq<LayoutSlot>)
    ensures KnownSlots(a + b) == KnownSlots(a) + KnownSlots(b)
    decreases |a|
  {
    if |a| == 0 {
      assert a + b == b;
    } else {
      assert (a + b)[1..] == a[1..] + b;
      KnownSlotsAppend(a[1..], b);
    }
  }

  function StorageTimedOutText(timeoutSecs: nat): string {
    "Storage extraction timed out after " + Text.NatToString(timeoutSecs) + " seconds"
  }

  /** The message the analysis thread sends. */
  function ThreadMessage(a: Analysis, timeoutSecs: nat): (m: Result<seq<StorageSlot>, string>)
    ensures m.Success? <==> a.LayoutFound?
    ensures a.LayoutFound? ==> m.value == KnownSlots(a.slots)
    ensures a.AnalysisFailed? && Text.Contains(a.debugText, "StoppedByWatchdog") ==>
      m.error == StorageTimedOutText(timeoutSecs)
    ensures a.AnalysisFailed? && !Text.Contains(a.debugText, "StoppedByWatchdog") ==>
      m.error == "Storage extraction failed: " + a.debugText
    ensures a.Panicked? ==> m.error == "Storage extraction panicked: " + PanicText(a.payload)
  {
    match a
    case LayoutFound(slots) => Success(KnownSlots(slots))
    case AnalysisFailed(debugText) =>
      if Text.Contains(debugText, "StoppedByWatchdog") then Failure(StorageTimedOutText(timeoutSecs))
      else Failure("Storage extraction failed: " + debugText)
    case Panicked(payload) => Failure("Storage extraction panicked: " + PanicText(payload))
  }

  /** The text of a caught panic: a `String` or `&str` payload as it is, a
      fixed wording for any other payload. */
  function PanicText(payload: PanicPayload): (t: string)
    ensures !payload.OpaquePanic? ==> t == payload.text
    ensures payload.OpaquePanic? ==> t == "Unknown panic during storage extraction"
  {
    match payload
    case StringPanic(t) => t
    case StrPanic(t) => t
    case OpaquePanic => "Unknown panic during storage extraction"
  }

  /** The storage phase's contribution to the ABI, and whether it abandoned a thread. */
  datatype StorageExtraction = StorageExtraction(slots: seq<StorageSlot>, error: Option<string>, abandonedThread: bool)

  /** `extract_storage_with_timeout`: the pre-checks on the bytecode, then the
      deadline / grace / abandon decision over the thread's message. */
  function ExtractStorage(code: string, timeoutSecs: nat, run: StorageRun): (r: StorageExtraction)
    ensures r.error.None? ==> run.arrival != NeverArrived && run.analysis.LayoutFound?
    ensures forall i :: 0 <= i < |r.slots| ==> r.slots[i].typ != "unknown"
    ensures r.abandonedThread ==> r.slots == [] && r.error == Some(StorageTimedOutText(timeoutSecs))
    ensures Hex.Decode(Text.StripOne0x(code)).Failure? ==>
      && r.slots == [] && !r.abandonedThread
      && r.error == Some("Failed to decode bytecode: " + Hex.ErrorText(Hex.Decode(Text.StripOne0x(code)).error))
    ensures Hex.Decode(Text.StripOne0x(code)) == Success([]) ==>
      r == StorageExtraction([], Some("Empty bytecode after decoding"), false)
    ensures (match Hex.Decode(Text.StripOne0x(code))
             case Success(bytes) => |bytes| > 0
             case Failure(_) => false) ==>
      match run.arrival
      case NeverArrived => r.abandonedThread
      case _ =>
        && !r.abandonedThread
        && match ThreadMessage(run.analysis, timeoutSecs)
           case Success(slots) => r.slots == slots && r.error.None?
           case Failure(e) => r.slots == [] && r.error == Some(e)
  {
    match Hex.Decode(Text.StripOne0x(code))
    case Failure(e) => StorageExtraction([], Some("Failed to decode bytecode: " + Hex.ErrorText(e)), false)
    case Success(bytes) =>
      if |bytes| == 0 then StorageExtraction([], Some("Empty bytecode after decoding"), false)
      else
        match run.arrival
        case NeverArrived => StorageExtraction([], Some(StorageTimedOutText(timeoutSecs)), true)
        case _ =>
          match ThreadMessage(run.analysis, timeoutSecs)
          case Success(slots) => StorageExtraction(slots, None, false)
          case Failure(e) => StorageExtraction([], Some(e), false)
  }

  /** A message that arrives before the deadline and one that arrives in the
      grace period are treated alike. */
  lemma GraceIsLikeDeadline(code: string, timeoutSecs: nat, a: Analysis)
    ensures ExtractStorage(code, timeoutSecs, StorageRun(a, WithinGrace))
         == ExtractStorage(code, timeoutSecs, StorageRun(a, BeforeDeadline))
  {
  }

  // -------------------------------------------------------------- decompile

  /** What the decompile call ended with: a JSON ABI, or an error whose
      `{:?}` text is given (deadline expiry included). */
  datatype DecompileOutcome = Decompiled(abi: Alloy.JsonAbi) | DecompileFailed(debugText: string)

  /** The test `process_contract` applies to a decompile error. */
  predicate IsTimeoutText(msg: string) {
    Text.Contains(msg, "timed out") || Text.Contains(msg, "Execution timed out")
  }

  /** The second disjunct of the timeout test adds nothing. */
  lemma TimeoutTestIsContainsTimedOut(msg: string)
    ensures IsTimeoutText(msg) <==> Text.Contains(msg, "timed out")
  {
    if Text.Contains(msg, "Execution timed out") {
      assert "Execution timed out" == "Execution " + "timed out";
      Text.ContainsTail(msg, "Execution ", "timed out");
    }
  }

  function DecompileTimedOutText(timeoutSecs: nat): string {
    "Decompilation timed out after " + Text.NatToString(timeoutSecs) + " seconds"
  }

  /** The placeholder ABI cached for a failed decompile: empty except for
      `decompile_error`, where a timeout is reported in a fixed wording. */
  function FailureAbi(debugText: string, timeoutSecs: nat): (a: Abi)
    ensures a == NewAbi().(decompileError := a.decompileError)
    ensures IsTimeoutText(debugText) ==> a.decompileError == Some(DecompileTimedOutText(timeoutSecs))
    ensures !IsTimeoutText(debugText) ==> a.decompileError == Some(debugText)
  {
    if IsTimeoutText(debugText) then NewAbi().(decompileError := Some(DecompileTimedOutText(timeoutSecs)))
    else NewAbi().(decompileError := Some(debugText))
  }

  function ConvertEvent(e: Alloy.Event): (r: AbiEvent)
    ensures r.name == e.name && r.anonymous == e.anonymous && r.inputs == ConvertEventParams(e.inputs)
  {
    AbiEvent(e.name, ConvertEventParams(e.inputs), e.anonymous)
  }

  function ConvertError(e: Alloy.ErrorDef): (r: AbiError)
    ensures r.name == e.name && r.inputs == ConvertParams(e.inputs)
  {
    AbiError(e.name, ConvertParams(e.inputs))
  }

  /** The constructor entry of `decompile_with_timeout`. */
  function ConstructorEntry(c: Alloy.Constructor): (f: AbiFunction)
    ensures f.name == "constructor" && f.selector == ZeroSelector && !f.constant
    ensures f.payable <==> c.stateMutability == Alloy.Payable
    ensures f.stateMutability == MutabilityName(c.stateMutability)
    ensures f.inputs == ConvertParams(c.inputs) && f.inputTypes == TypesOf(f.inputs)
    ensures f.outputs == [] && f.outputTypes == []
    ensures f.signature == SignatureText("constructor", f.inputTypes)
  {
    var inputs := ConvertParams(c.inputs);
    AbiFunction("constructor", inputs, [], TypesOf(inputs), [], MutabilityName(c.stateMutability),
      false, c.stateMutability == Alloy.Payable, ZeroSelector, SignatureText("constructor", TypesOf(inputs)))
  }

  /** The fallback entry of `decompile_with_timeout`. */
  function FallbackEntry(fb: Alloy.Fallback): (f: AbiFunction)
    ensures f.name == "fallback" && f.selector == ZeroSelector && !f.constant
    ensures f.payable <==> fb.stateMutability == Alloy.Payable
    ensures f.stateMutability == MutabilityName(fb.stateMutability)
    ensures f.inputs == [] && f.outputs == [] && f.signature == "fallback()"
    ensures f.inputTypes == [] && f.outputTypes == []
  {
    AbiFunction("fallback", [], [], [], [], MutabilityName(fb.stateMutability),
      false, fb.stateMutability == Alloy.Payable, ZeroSelector, "fallback()")
  }

  /** The receive entry of `decompile_with_timeout`: always payable. */
  function ReceiveEntry(): (f: AbiFunction)
    ensures f.name == "receive" && f.selector == ZeroSelector && !f.constant
    ensures f.payable && f.stateMutability == "payable"
    ensures f.inputs == [] && f.outputs == [] && f.signature == "receive()"
    ensures f.inputTypes == [] && f.outputTypes == []
  {
    AbiFunction("receive", [], [], [], [], "payable", false, true, ZeroSelector, "receive()")
  }

  function ConvertFunctions(fs: seq<Alloy.Function>): (r: seq<AbiFunction>)
    ensures |r| == |fs| && forall i :: 0 <= i < |fs| ==> r[i] == ConvertFunction(fs[i])
  {
    seq(|fs|, i requires 0 <= i < |fs| => ConvertFunction(fs[i]))
  }

  function ConvertEvents(es: seq<Alloy.Event>): (r: seq<AbiEvent>)
    ensures |r| == |es| && forall i :: 0 <= i < |es| ==> r[i] == ConvertEvent(es[i])
  {
    seq(|es|, i requires 0 <= i < |es| => ConvertEvent(es[i]))
  }

  function ConvertErrors(es: seq<Alloy.ErrorDef>): (r: seq<AbiError>)
    ensures |r| == |es| && forall i :: 0 <= i < |es| ==> r[i] == ConvertError(es[i])
  {
    seq(|es|, i requires 0 <= i < |es| => ConvertError(es[i]))
  }

  /** A converted ABI and whether its storage phase abandoned a thread. */
  datatype Assembled = Assembled(abi: Abi, abandonedThread: bool)

  /** The result assembly of `decompile_with_timeout` after a successful
      decompile: converted entries, indices built from the converted
      functions, and the storage phase when it is enabled. */
  function AssembleAbi(j: Alloy.JsonAbi, code: string, cfg: Config, run: StorageRun): (r: Assembled)
    ensures r.abi.functions == ConvertFunctions(j.functions)
    ensures r.abi.events == ConvertEvents(j.events) && r.abi.errors == ConvertErrors(j.errors)
    ensures r.abi.ctor == (if j.ctor.Some? then Some(ConstructorEntry(j.ctor.value)) else None)
    ensures r.abi.fallback == (if j.fallback.Some? then Some(FallbackEntry(j.fallback.value)) else None)
    ensures r.abi.receive == (if j.hasReceive then Some(ReceiveEntry()) else None)
    ensures r.abi.decompileError.None?
    ensures RebuildIndices(r.abi) == r.abi
    ensures !cfg.extractStorage ==> r.abi.storageLayout == [] && r.abi.storageError.None? && !r.abandonedThread
    ensures cfg.extractStorage ==>
      var x := ExtractStorage(code, cfg.timeoutSecs, run);
      r.abi.storageLayout == x.slots && r.abi.storageError == x.error && r.abandonedThread == x.abandonedThread
  {
    var functions := ConvertFunctions(j.functions);
    var events := ConvertEvents(j.events);
    var errors := ConvertErrors(j.errors);
    var ctor := match j.ctor case Some(c) => Some(ConstructorEntry(c)) case None => None;
    var fallback := match j.fallback case Some(f) => Some(FallbackEntry(f)) case None => None;
    var receive := if j.hasReceive then Some(ReceiveEntry()) else None;
    var storage := if cfg.extractStorage then ExtractStorage(code, cfg.timeoutSecs, run)
                   else StorageExtraction([], None, false);
    Assembled(
      Abi(functions, events, errors, ctor, fallback, receive, storage.slots, None, storage.error,
          SelectorIndex(functions), NameIndex(functions)),
      storage.abandonedThread)
  }

  // ------------------------------------------------------ process_contract

  /** Everything outside the processor that decides how one contract goes. */
  datatype ItemEnv = ItemEnv(
    read: ReadOutcome,
    decompile: DecompileOutcome,
    storage: StorageRun,
    write: WriteOutcome,
    elapsedMicros: nat)

  /** The returned value, the cache afterwards, the abandoned-thread counter
      afterwards, and the ABI handed to `put` (none on a cache hit). */
  datatype Processed = Processed(
    result: Result<ProcessResult, string>,
    cache: Cache<Abi>,
    abandoned: nat,
    stored: Option<Abi>)

  /** `process_contract`. */
  function ProcessContract(
    c: Cache<Abi>, blake3: StringHasher, cfg: Config, abandoned: nat,
    address: string, code: string, env: ItemEnv): (p: Processed)
    ensures p.result.Success?
    ensures p.result.value.address == address && p.result.value.durationMicros == env.elapsedMicros
    ensures p.abandoned == abandoned || p.abandoned == abandoned + 1
    ensures
      var look := Exists(c, blake3, code, cfg.skipResolving, env.read);
      if look.found then
        && p.result.value.cached && p.result.value.success && p.result.value.error.None?
        && p.stored.None? && p.cache == look.cache && p.abandoned == abandoned
      else
        && !p.result.value.cached
        && (p.result.value.success <==> env.decompile.Decompiled?)
        && (env.decompile.DecompileFailed? ==>
              && p.result.value.error == Some(env.decompile.debugText)
              && p.stored == Some(FailureAbi(env.decompile.debugText, cfg.timeoutSecs))
              && p.abandoned == abandoned)
        && (env.decompile.Decompiled? ==>
              var a := AssembleAbi(env.decompile.abi, code, cfg, env.storage);
              && p.result.value.error.None?
              && p.stored == Some(a.abi)
              && p.abandoned == (if a.abandonedThread then abandoned + 1 else abandoned))
        && p.stored.Some?
        && p.cache == Put(look.cache, blake3, code, cfg.skipResolving, p.stored.value, env.write).cache
  {
    var look := Exists(c, blake3, code, cfg.skipResolving, env.read);
    if look.found then
      Processed(Success(ProcessResult(address, true, true, None, env.elapsedMicros)), look.cache, abandoned, None)
    else
      var outcome :=
        match env.decompile
        case Decompiled(j) =>
          var a := AssembleAbi(j, code, cfg, env.storage);
          (a.abi, None, if a.abandonedThread then abandoned + 1 else abandoned)
        case DecompileFailed(msg) =>
          (FailureAbi(msg, cfg.timeoutSecs), Some(msg), abandoned);
      var (abi, error, abandoned') := outcome;
      var written := Put(look.cache, blake3, code, cfg.skipResolving, abi, env.write);
      Processed(
        Success(ProcessResult(address, false, error.None?, error, env.elapsedMicros)),
        written.cache, abandoned', Some(abi))
  }

  /** A failed cache write changes nothing the caller sees in the result. */
  lemma WriteFailureIsOnlyLogged(
    c: Cache<Abi>, blake3: StringHasher, cfg: Config, abandoned: nat,
    address: string, code: string, env: ItemEnv, w: WriteOutcome)
    ensures ProcessContract(c, blake3, cfg, abandoned, address, code, env.(write := w)).result
         == ProcessContract(c, blake3, cfg, abandoned, address, code, env).result
  {
  }

  /** On a miss with a committed write, the contract is cached afterwards,
      whatever the decompiler did: a failure is memoised too. */
  lemma MissIsMemoised(
    c: Cache<Abi>, blake3: StringHasher, cfg: Config, abandoned: nat,
    address: string, code: string, env: ItemEnv)
    requires env.write == Committed
    ensures Exists(ProcessContract(c, blake3, cfg, abandoned, address, code, env).cache,
                   blake3, code, cfg.skipResolving, ReadOk).found
  {
  }

  /** A cache hit does no analysis: its result and cache do not depend on the
      decompile, storage or write outcomes. */
  lemma HitIgnoresAnalysis(
    c: Cache<Abi>, blake3: StringHasher, cfg: Config, abandoned: nat,
    address: string, code: string, env: ItemEnv, other: ItemEnv)
    requires Exists(c, blake3, code, cfg.skipResolving, env.read).found
    requires other.read == env.read && other.elapsedMicros == env.elapsedMicros
    ensures ProcessContract(c, blake3, cfg, abandoned, address, code, other)
         == ProcessContract(c, blake3, cfg, abandoned, address, code, env)
  {
  }

  /** The storage phase never decides success: a decompiled contract is a
      success whatever its storage thread did. */
  lemma StorageFailureKeepsSuccess(
    c: Cache<Abi>, blake3: StringHasher, cfg: Config, abandoned: nat,
    address: string, code: string, env: ItemEnv, run: StorageRun)
    ensures ProcessContract(c, blake3, cfg, abandoned, address, code, env.(storage := run)).result
         == ProcessContract(c, blake3, cfg, abandoned, address, code, env).result
  {
  }

  /** A thread is abandoned only for an uncached, decompiled contract whose
      storage phase is enabled and whose thread never answered. */
  lemma AbandonOnlyOnSilentStorageThread(
    c: Cache<Abi>, blake3: StringHasher, cfg: Config, abandoned: nat,
    address: string, code: string, env: ItemEnv)
    ensures ProcessContract(c, blake3, cfg, abandoned, address, code, env).abandoned == abandoned + 1 ==>
      && !Exists(c, blake3, code, cfg.skipResolving, env.read).found
      && env.decompile.Decompiled? && cfg.extractStorage && env.storage.arrival == NeverArrived
  {
  }
}
