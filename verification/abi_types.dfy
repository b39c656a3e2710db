/** The cache builder's data model (crates/cache_builder/src/types.rs): the
    ABI record stored in the cache, the derived selector and name indices, and
    the conversion from a decompiled alloy function. */
module AbiTypes {
  import opened Wrappers
  import opened Bytes
  import Text
  import Hex
  import Alloy
  import Indexing

  datatype AbiParam = AbiParam(name: string, typ: string, internalType: Option<string>)

  datatype AbiFunction = AbiFunction(
    name: string,
    inputs: seq<AbiParam>,
    outputs: seq<AbiParam>,
    inputTypes: seq<string>,
    outputTypes: seq<string>,
    stateMutability: string,
    constant: bool,
    payable: bool,
    selector: Selector,
    signature: string)

  datatype AbiEventParam = AbiEventParam(name: string, typ: string, indexed: bool, internalType: Option<string>)

  datatype AbiEvent = AbiEvent(name: string, inputs: seq<AbiEventParam>, anonymous: bool)

  datatype AbiError = AbiError(name: string, inputs: seq<AbiParam>)

  /** `index` is a u64 and `offset` a u32. */
  datatype StorageSlot = StorageSlot(index: nat, offset: nat, typ: string)

  /** `ABI` (`ctor` is its `constructor` field). */
  datatype Abi = Abi(
    functions: seq<AbiFunction>,
    events: seq<AbiEvent>,
    errors: seq<AbiError>,
    ctor: Option<AbiFunction>,
    fallback: Option<AbiFunction>,
    receive: Option<AbiFunction>,
    storageLayout: seq<StorageSlot>,
    decompileError: Option<string>,
    storageError: Option<string>,
    bySelector: map<Selector, nat>,
    byName: map<string, nat>)

  /** `ABI::new()`. */
  function NewAbi(): (a: Abi)
    ensures a.functions == [] && a.events == [] && a.errors == []
    ensures a.ctor.None? && a.fallback.None? && a.receive.None?
    ensures a.storageLayout == [] && a.decompileError.None? && a.storageError.None?
    ensures a.bySelector == map[] && a.byName == map[]
  {
    Abi([], [], [], None, None, None, [], None, None, map[], map[])
  }

  /** The key each function contributes to `by_selector`. */
  function SelectorKeys(fs: seq<AbiFunction>): seq<Option<Selector>> {
    seq(|fs|, i requires 0 <= i < |fs| => Some(fs[i].selector))
  }

  /** The key each function contributes to `by_name`: none for the empty name. */
  function NameKeys(fs: seq<AbiFunction>): seq<Option<string>> {
    seq(|fs|, i requires 0 <= i < |fs| => if fs[i].name == "" then None else Some(fs[i].name))
  }

  /** `by_selector` as built from a function list. */
  function SelectorIndex(fs: seq<AbiFunction>): (m: map<Selector, nat>)
    ensures forall s :: s in m <==> exists i :: 0 <= i < |fs| && fs[i].selector == s
    ensures forall s :: s in m ==>
      && m[s] < |fs|
      && fs[m[s]].selector == s
      && forall j :: m[s] < j < |fs| ==> fs[j].selector != s
  {
    var keys := SelectorKeys(fs);
    var m := Indexing.IndexBy(keys);
    assert forall i :: 0 <= i < |fs| ==> keys[i] == Some(fs[i].selector);
    m
  }

  /** `by_name` as built from a function list. */
  function NameIndex(fs: seq<AbiFunction>): (m: map<string, nat>)
    ensures forall n :: n in m <==> n != "" && exists i :: 0 <= i < |fs| && fs[i].name == n
    ensures forall n :: n in m ==>
      && m[n] < |fs|
      && fs[m[n]].name == n
      && forall j :: m[n] < j < |fs| ==> fs[j].name != n
    ensures "" !in m
  {
    var keys := NameKeys(fs);
    var m := Indexing.IndexBy(keys);
    assert forall i :: 0 <= i < |fs| ==> keys[i] == (if fs[i].name == "" then None else Some(fs[i].name));
    m
  }

  /** `ABI::rebuild_indices`: both maps are recomputed from `functions`, every
      selector maps to the last position carrying it, every non-empty name to
      the last position carrying it, and no other field changes. */
  function RebuildIndices(a: Abi): (r: Abi)
    ensures r == a.(bySelector := r.bySelector, byName := r.byName)
    ensures forall s :: s in r.bySelector <==> exists i :: 0 <= i < |a.functions| && a.functions[i].selector == s
    ensures forall s :: s in r.bySelector ==>
      && r.bySelector[s] < |a.functions|
      && a.functions[r.bySelector[s]].selector == s
      && forall j :: r.bySelector[s] < j < |a.functions| ==> a.functions[j].selector != s
    ensures forall n :: n in r.byName <==> n != "" && exists i :: 0 <= i < |a.functions| && a.functions[i].name == n
    ensures forall n :: n in r.byName ==>
      && r.byName[n] < |a.functions|
      && a.functions[r.byName[n]].name == n
      && forall j :: r.byName[n] < j < |a.functions| ==> a.functions[j].name != n
    ensures "" !in r.byName
  {
    a.(bySelector := SelectorIndex(a.functions), byName := NameIndex(a.functions))
  }

  /** Indices that agree with the function list, as every ABI the system
      builds has them. */
  ghost predicate IndicesConsistent(a: Abi) {
    a.bySelector == SelectorIndex(a.functions) && a.byName == NameIndex(a.functions)
  }

  /** Rebuilding twice is rebuilding once, and a rebuilt ABI is consistent. */
  lemma RebuildIndicesIdempotent(a: Abi)
    ensures IndicesConsistent(RebuildIndices(a))
    ensures RebuildIndices(RebuildIndices(a)) == RebuildIndices(a)
  {
  }

  /** The maps are a function of the function list alone. */
  lemma IndicesDetermined(a: Abi, b: Abi)
    requires IndicesConsistent(a) && IndicesConsistent(b) && a.functions == b.functions
    ensures a.bySelector == b.bySelector && a.byName == b.byName
  {
  }

  /** `state_mutability_to_string`. */
  function MutabilityName(m: Alloy.StateMutability): string {
    match m
    case Pure => "pure"
    case View => "view"
    case NonPayable => "nonpayable"
    case Payable => "payable"
  }

  /** Distinct mutabilities have distinct names. */
  lemma MutabilityNameInjective(a: Alloy.StateMutability, b: Alloy.StateMutability)
    ensures MutabilityName(a) == MutabilityName(b) <==> a == b
  {
  }

  /** The text `convert_param` stores for an internal type. */
  function InternalTypeText(t: Alloy.InternalType): (text: string)
    ensures t.AddressPayable? ==> text == "address payable"
    ensures t.ContractType? ==> text == "contract"
    ensures t.EnumType? ==> text == "enum"
    ensures t.StructType? ==> text == "struct"
    ensures t.Other? ==> text == t.ty
  {
    match t
    case AddressPayable(_) => "address payable"
    case ContractType(_) => "contract"
    case EnumType(_) => "enum"
    case StructType(_) => "struct"
    case Other(_, ty) => ty
  }

  function MapInternalType(t: Option<Alloy.InternalType>): (r: Option<string>)
    ensures r.Some? <==> t.Some?
    ensures r.Some? ==> r.value == InternalTypeText(t.value)
  {
    match t
    case None => None
    case Some(it) => Some(InternalTypeText(it))
  }

  /** `convert_param`. */
  function ConvertParam(p: Alloy.Param): (r: AbiParam)
    ensures r.name == p.name && r.typ == p.ty
    ensures r.internalType == MapInternalType(p.internalType)
  {
    AbiParam(p.name, p.ty, MapInternalType(p.internalType))
  }

  /** `convert_event_param`. */
  function ConvertEventParam(p: Alloy.EventParam): (r: AbiEventParam)
    ensures r.name == p.name && r.typ == p.ty && r.indexed == p.indexed
    ensures r.internalType == MapInternalType(p.internalType)
  {
    AbiEventParam(p.name, p.ty, p.indexed, MapInternalType(p.internalType))
  }

  /** Internal types of the same kind (and, for `Other`, the same type
      name) that alloy displays differently are stored alike: the struct,
      enum or contract name is lost, and an `Other` keeps only its type name. */
  lemma ConvertParamKeepsOnlyKind(p: Alloy.Param, q: Alloy.Param)
    requires p.name == q.name && p.ty == q.ty && p.internalType.Some? && q.internalType.Some?
    requires p.internalType.value.AddressPayable? == q.internalType.value.AddressPayable?
    requires p.internalType.value.ContractType? == q.internalType.value.ContractType?
    requires p.internalType.value.EnumType? == q.internalType.value.EnumType?
    requires p.internalType.value.StructType? == q.internalType.value.StructType?
    requires p.internalType.value.Other? ==> q.internalType.value.Other? && p.internalType.value.ty == q.internalType.value.ty
    ensures ConvertParam(p) == ConvertParam(q)
    ensures !p.internalType.value.Other? ==>
      ConvertParam(p).internalType.value in {"address payable", "contract", "enum", "struct"}
    ensures p.internalType.value.Other? ==> ConvertParam(p).internalType == Some(p.internalType.value.ty)
  {
  }

  /** Distinct kinds other than `Other` get distinct texts, so the kind can be
      read back from the stored text. */
  lemma KindTextsDistinct(a: Alloy.InternalType, b: Alloy.InternalType)
    requires !a.Other? && !b.Other?
    ensures InternalTypeText(a) == InternalTypeText(b) <==>
      (a.AddressPayable? == b.AddressPayable? && a.ContractType? == b.ContractType? && a.EnumType? == b.EnumType?)
  {
  }

  function ConvertParams(ps: seq<Alloy.Param>): (r: seq<AbiParam>)
    ensures |r| == |ps| && forall i :: 0 <= i < |ps| ==> r[i] == ConvertParam(ps[i])
  {
    seq(|ps|, i requires 0 <= i < |ps| => ConvertParam(ps[i]))
  }

  function ConvertEventParams(ps: seq<Alloy.EventParam>): (r: seq<AbiEventParam>)
    ensures |r| == |ps| && forall i :: 0 <= i < |ps| ==> r[i] == ConvertEventParam(ps[i])
  {
    seq(|ps|, i requires 0 <= i < |ps| => ConvertEventParam(ps[i]))
  }

  /** The `type_` of every parameter, in order. */
  function TypesOf(ps: seq<AbiParam>): (ts: seq<string>)
    ensures |ts| == |ps| && forall i :: 0 <= i < |ps| ==> ts[i] == ps[i].typ
  {
    seq(|ps|, i requires 0 <= i < |ps| => ps[i].typ)
  }

  /** `name(t1,t2,...)`. */
  function SignatureText(name: string, types: seq<string>): string {
    name + "(" + Text.Join(types, ",") + ")"
  }

  const UnresolvedPrefix: string := "Unresolved_"

  /** The selector `convert_function` assigns: a name `Unresolved_<hex>` whose
      whole suffix decodes to exactly four bytes carries its own selector;
      every other name gets the one alloy computed. */
  function ResolveSelector(name: string, computed: Selector): (s: Selector)
    ensures Text.StartsWith(name, UnresolvedPrefix) && |name| == 19 && Hex.AllHex(name[11..]) ==>
      s == Hex.Decode(name[11..]).value
    ensures !(Text.StartsWith(name, UnresolvedPrefix) && |name| == 19 && Hex.AllHex(name[11..])) ==>
      s == computed
  {
    if Text.StartsWith(name, UnresolvedPrefix) then
      match Hex.Decode(name[11..])
      case Success(bytes) => if |bytes| == 4 then bytes else computed
      case Failure(_) => computed
    else computed
  }

  /** `types::convert_function`. */
  function ConvertFunction(f: Alloy.Function): (r: AbiFunction)
    ensures r.name == f.name
    ensures r.inputs == ConvertParams(f.inputs) && r.outputs == ConvertParams(f.outputs)
    ensures |r.inputTypes| == |f.inputs| && forall i :: 0 <= i < |f.inputs| ==> r.inputTypes[i] == f.inputs[i].ty
    ensures |r.outputTypes| == |f.outputs| && forall i :: 0 <= i < |f.outputs| ==> r.outputTypes[i] == f.outputs[i].ty
    ensures r.inputTypes == TypesOf(r.inputs) && r.outputTypes == TypesOf(r.outputs)
    ensures r.signature == SignatureText(f.name, r.inputTypes)
    ensures r.stateMutability == MutabilityName(f.stateMutability)
    ensures r.constant <==> f.stateMutability == Alloy.Pure || f.stateMutability == Alloy.View
    ensures r.payable <==> f.stateMutability == Alloy.Payable
    ensures !(r.constant && r.payable)
    ensures r.selector == ResolveSelector(f.name, f.selector)
  {
    var inputs := ConvertParams(f.inputs);
    var outputs := ConvertParams(f.outputs);
    var inputTypes := TypesOf(inputs);
    AbiFunction(
      f.name,
      inputs,
      outputs,
      inputTypes,
      TypesOf(outputs),
      MutabilityName(f.stateMutability),
      f.stateMutability == Alloy.Pure || f.stateMutability == Alloy.View,
      f.stateMutability == Alloy.Payable,
      ResolveSelector(f.name, f.selector),
      SignatureText(f.name, inputTypes))
  }
}
