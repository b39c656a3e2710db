/** The Python binding (crates/python/src/lib.rs): building an ABI from a
    JSON document, looking functions up by name or selector, and turning a
    decompiler result into the binding's own ABI record.

    The binding has its own function and ABI records. Unlike the cache
    builder's, its function record has no `input_types`/`output_types` and
    its ABI has no `decompile_error`/`storage_error`. Parameter, event, error
    and storage-slot records have the same shape in both crates and are
    shared with `AbiTypes`. */
module PyBinding {
  import opened Wrappers
  import opened Bytes
  import Text
  import Hex
  import Alloy
  import Indexing
  import RunStats
  import opened AbiTypes

  // ---------------------------------------------------------------------
  // JSON documents (serde_json's `Value`)
  // ---------------------------------------------------------------------

  /** A parsed JSON value. An object keeps its members in document order;
      a number keeps its literal text, which the binding never reads. */
  datatype Json =
    | JNull
    | JBool(b: bool)
    | JNumber(literal: string)
    | JString(s: string)
    | JArray(items: seq<Json>)
    | JObject(members: seq<(string, Json)>)

  /** The position of the last member named `key`: a repeated key in a JSON
      document leaves the last value in the parsed map. */
  function LastMember(members: seq<(string, Json)>, key: string): (r: Option<nat>)
    ensures r.Some? ==>
      && r.value < |members|
      && members[r.value].0 == key
      && forall j :: r.value < j < |members| ==> members[j].0 != key
    ensures r.None? ==> forall j :: 0 <= j < |members| ==> members[j].0 != key
    decreases |members|
  {
    if |members| == 0 then None
    else if members[|members| - 1].0 == key then Some(|members| - 1)
    else LastMember(members[..|members| - 1], key)
  }

  /** A key present at position `i` and nowhere after it is found there. */
  lemma LastMemberAt(members: seq<(string, Json)>, key: string, i: nat)
    requires i < |members| && members[i].0 == key
    requires forall j :: i < j < |members| ==> members[j].0 != key
    ensures LastMember(members, key) == Some(i)
  {
  }

  /** `value.get(key)`: only objects have members. */
  function Get(j: Json, key: string): Option<Json> {
    match j
    case JObject(members) =>
      (match LastMember(members, key)
       case Some(i) => Some(members[i].1)
       case None => None)
    case _ => None
  }

  /** `value.get(key).and_then(|v| v.as_str())`. */
  function GetStr(j: Json, key: string): Option<string> {
    match Get(j, key)
    case Some(JString(s)) => Some(s)
    case _ => None
  }

  /** `value.get(key).and_then(|v| v.as_bool())`. */
  function GetBool(j: Json, key: string): Option<bool> {
    match Get(j, key)
    case Some(JBool(b)) => Some(b)
    case _ => None
  }

  /** `value.get(key).and_then(|v| v.as_array())`. */
  function GetArray(j: Json, key: string): Option<seq<Json>> {
    match Get(j, key)
    case Some(JArray(items)) => Some(items)
    case _ => None
  }

  // ---------------------------------------------------------------------
  // Parameter types
  // ---------------------------------------------------------------------

  /** The `type` text of a component, "" when missing or not a string. */
  function TypeText(c: Json): string {
    GetStr(c, "type").GetOr("")
  }

  const TuplePrefix: string := "tuple"

  /** `collapse_if_tuple`: a `tuple...` type with a non-empty `components`
      array is written out as its collapsed components between parentheses,
      followed by whatever came after "tuple" (the array dimensions). */
  function CollapseIfTuple(c: Json): string
    decreases c
  {
    var typ := TypeText(c);
    if !Text.StartsWith(typ, TuplePrefix) then typ
    else
      match c
      case JObject(members) =>
        (match LastMember(members, "components")
         case Some(i) =>
           (match members[i].1
            case JArray(items) =>
              if |items| == 0 then typ
              else
                var parts := seq(|items|, k requires 0 <= k < |items| => CollapseIfTuple(items[k]));
                "(" + Text.Join(parts, ",") + ")" + typ[5..]
            case _ => typ)
         case None => typ)
      case _ => typ
  }

  /** The collapsed type is the `type` text itself unless that starts with
      "tuple" and a non-empty `components` array is present; then it is a
      parenthesised list ending in the text after "tuple". */
  lemma CollapseIfTupleCases(c: Json)
    ensures !Text.StartsWith(TypeText(c), TuplePrefix) ==> CollapseIfTuple(c) == TypeText(c)
    ensures GetArray(c, "components").None? ==> CollapseIfTuple(c) == TypeText(c)
    ensures GetArray(c, "components") == Some([]) ==> CollapseIfTuple(c) == TypeText(c)
    ensures (Text.StartsWith(TypeText(c), TuplePrefix) && GetArray(c, "components").Some?
      && |GetArray(c, "components").value| > 0) ==>
      var r := CollapseIfTuple(c);
      var dims := TypeText(c)[5..];
      && |r| >= 2 + |dims|
      && r[0] == '('
      && r[|r| - |dims| - 1] == ')'
      && r[|r| - |dims|..] == dims
  {
    var typ := TypeText(c);
    var r := CollapseIfTuple(c);
    if Text.StartsWith(typ, TuplePrefix) && GetArray(c, "components").Some? && |GetArray(c, "components").value| > 0 {
      var items := GetArray(c, "components").value;
      var parts := seq(|items|, k requires 0 <= k < |items| => CollapseIfTuple(items[k]));
      var inner := "(" + Text.Join(parts, ",") + ")";
      assert r == inner + typ[5..];
      assert r[|r| - |typ[5..]|..] == typ[5..];
    }
  }

  /** A parameter type as a tree: an elementary type, or a tuple of
      component types followed by array dimensions such as "[]" or "[2]". */
  datatype TypeTree = Elementary(name: string) | Tuple(components: seq<TypeTree>, dims: string)

  /** The canonical text of a type: a tuple is its components' texts,
      comma separated, in parentheses, then its dimensions (section "Function
      Selector" of the Solidity Contract ABI Specification). */
  function Canonical(t: TypeTree): string
    decreases t
  {
    match t
    case Elementary(name) => name
    case Tuple(cs, dims) =>
      "(" + Text.Join(seq(|cs|, k requires 0 <= k < |cs| => Canonical(cs[k])), ",") + ")" + dims
  }

  /** A tree an ABI JSON file can describe unambiguously: elementary names
      do not start with "tuple" and every tuple has components. */
  predicate Describable(t: TypeTree)
    decreases t
  {
    match t
    case Elementary(name) => !Text.StartsWith(name, TuplePrefix)
    case Tuple(cs, _) => |cs| > 0 && forall k :: 0 <= k < |cs| ==> Describable(cs[k])
  }

  /** The JSON component an ABI file uses for a type. */
  function ComponentJson(t: TypeTree): Json
    decreases t
  {
    match t
    case Elementary(name) => JObject([("type", JString(name))])
    case Tuple(cs, dims) =>
      JObject([("type", JString(TuplePrefix + dims)),
               ("components", JArray(seq(|cs|, k requires 0 <= k < |cs| => ComponentJson(cs[k]))))])
  }

  /** Collapsing the JSON of a type gives back its canonical text. */
  lemma {:induction false} CollapseGivesCanonical(t: TypeTree)
    requires Describable(t)
    ensures CollapseIfTuple(ComponentJson(t)) == Canonical(t)
    decreases t
  {
    match t
    case Elementary(name) =>
    case Tuple(cs, dims) =>
      var j := ComponentJson(t);
      var items := seq(|cs|, k requires 0 <= k < |cs| => ComponentJson(cs[k]));
      LastMemberAt(j.members, "type", 0);
      LastMemberAt(j.members, "components", 1);
      assert TypeText(j) == TuplePrefix + dims;
      assert Text.StartsWith(TypeText(j), TuplePrefix);
      assert GetArray(j, "components") == Some(items);
      forall k | 0 <= k < |cs|
        ensures CollapseIfTuple(items[k]) == Canonical(cs[k])
      {
        CollapseGivesCanonical(cs[k]);
      }
      assert seq(|items|, k requires 0 <= k < |items| => CollapseIfTuple(items[k]))
          == seq(|cs|, k requires 0 <= k < |cs| => Canonical(cs[k]));
      assert (TuplePrefix + dims)[5..] == dims;
  }

  /** The part of a component `collapse_if_tuple` reads: its "type" member
      and its "components" member, the array's items stripped in turn. A
      component of a real ABI file also has "name" and "internalType". */
  function Strip(c: Json): Json
    decreases c, 1
  {
    JObject(StripType(c) + StripComponents(c))
  }

  /** The "type" member of a stripped component. */
  function StripType(c: Json): (m: seq<(string, Json)>)
    ensures Get(c, "type").None? ==> m == []
    ensures Get(c, "type").Some? ==> m == [("type", Get(c, "type").value)]
  {
    match Get(c, "type") case Some(v) => [("type", v)] case None => []
  }

  /** The "components" member of a stripped component. */
  function StripComponents(c: Json): (m: seq<(string, Json)>)
    ensures |m| <= 1 && (|m| == 1 ==> m[0].0 == "components")
    ensures |m| == 1 <==> Get(c, "components").Some?
    decreases c, 0
  {
    match c
    case JObject(members) =>
      (match LastMember(members, "components")
       case Some(i) =>
         (match members[i].1
          case JArray(items) =>
            [("components", JArray(seq(|items|, k requires 0 <= k < |items| => Strip(items[k]))))]
          case v => [("components", v)])
       case None => [])
    case _ => []
  }

  /** In a member list made of at most one "type" member followed by at most
      one "components" member, "type" is found at the front or not at all. */
  lemma LastTypeMember(typ: seq<(string, Json)>, comps: seq<(string, Json)>)
    requires |typ| <= 1 && (|typ| == 1 ==> typ[0].0 == "type")
    requires |comps| <= 1 && (|comps| == 1 ==> comps[0].0 == "components")
    ensures LastMember(typ + comps, "type") == (if |typ| == 1 then Some(0) else None)
  {
    var m := typ + comps;
    if |typ| == 1 {
      LastMemberAt(m, "type", 0);
    } else {
      assert m == comps;
    }
  }

  /** Stripping keeps what `Get` finds under "type". */
  lemma StripKeepsType(c: Json)
    ensures Get(Strip(c), "type") == Get(c, "type")
  {
    var typ, comps := StripType(c), StripComponents(c);
    LastTypeMember(typ, comps);
    assert Strip(c).members == typ + comps;
  }

  /** Stripping keeps what `Get` finds under "components", the items of an
      array stripped in turn. */
  lemma StripKeepsComponents(c: Json)
    ensures Get(c, "components").None? ==> Get(Strip(c), "components").None?
    ensures Get(c, "components").Some? && !Get(c, "components").value.JArray? ==>
      Get(Strip(c), "components") == Get(c, "components")
    ensures Get(c, "components").Some? && Get(c, "components").value.JArray? ==>
      var items := Get(c, "components").value.items;
      Get(Strip(c), "components") == Some(JArray(seq(|items|, k requires 0 <= k < |items| => Strip(items[k]))))
  {
    var m := Strip(c).members;
    assert m == StripType(c) + StripComponents(c);
    if Get(c, "components").Some? {
      LastMemberAt(m, "components", |m| - 1);
      assert m[|m| - 1] == StripComponents(c)[0];
    } else {
      assert forall j :: 0 <= j < |m| ==> m[j].0 != "components";
    }
  }

  /** `collapse_if_tuple` reads nothing but "type" and "components", at every
      level: the other members of a component never change the result. */
  lemma {:induction false} CollapseReadsOnlyTypeAndComponents(c: Json)
    ensures CollapseIfTuple(Strip(c)) == CollapseIfTuple(c)
    decreases c
  {
    StripKeepsType(c);
    StripKeepsComponents(c);
    var typ := TypeText(c);
    assert TypeText(Strip(c)) == typ;
    if Text.StartsWith(typ, TuplePrefix) && c.JObject? && Get(c, "components").Some?
      && Get(c, "components").value.JArray? {
      var i := LastMember(c.members, "components").value;
      var items := c.members[i].1.items;
      forall k | 0 <= k < |items|
        ensures CollapseIfTuple(Strip(items[k])) == CollapseIfTuple(items[k])
      {
        CollapseReadsOnlyTypeAndComponents(items[k]);
      }
      var stripped := seq(|items|, k requires 0 <= k < |items| => Strip(items[k]));
      assert seq(|stripped|, k requires 0 <= k < |stripped| => CollapseIfTuple(stripped[k]))
          == seq(|items|, k requires 0 <= k < |items| => CollapseIfTuple(items[k]));
    }
  }

  /** A real component whose "type"/"components" skeleton is the JSON of a
      describable type collapses to that type's canonical text. */
  lemma CollapseRealComponent(c: Json, t: TypeTree)
    requires Describable(t) && Strip(c) == ComponentJson(t)
    ensures CollapseIfTuple(c) == Canonical(t)
  {
    CollapseReadsOnlyTypeAndComponents(c);
    CollapseGivesCanonical(t);
  }

  /** `parse_param`. */
  function ParseParam(p: Json): (r: AbiParam)
    ensures r.name == GetStr(p, "name").GetOr("")
    ensures r.typ == CollapseIfTuple(p)
    ensures r.internalType == GetStr(p, "internalType")
  {
    AbiParam(GetStr(p, "name").GetOr(""), CollapseIfTuple(p), GetStr(p, "internalType"))
  }

  /** `parse_event_param`: like `parse_param`, with `indexed` defaulting to false. */
  function ParseEventParam(p: Json): (r: AbiEventParam)
    ensures r.name == GetStr(p, "name").GetOr("")
    ensures r.typ == CollapseIfTuple(p)
    ensures r.indexed <==> GetBool(p, "indexed") == Some(true)
    ensures r.internalType == GetStr(p, "internalType")
  {
    AbiEventParam(GetStr(p, "name").GetOr(""), CollapseIfTuple(p), GetBool(p, "indexed").GetOr(false),
      GetStr(p, "internalType"))
  }

  /** The JSON an ABI file uses for a parameter of elementary type. */
  function ParamJson(p: AbiParam): Json {
    var internal := match p.internalType
      case Some(t) => [("internalType", JString(t))]
      case None => [];
    JObject([("name", JString(p.name)), ("type", JString(p.typ))] + internal)
  }

  /** Parsing the JSON of a parameter of elementary type gives it back. */
  lemma ParseParamRoundTrip(p: AbiParam)
    requires !Text.StartsWith(p.typ, TuplePrefix)
    ensures ParseParam(ParamJson(p)) == p
  {
    var j := ParamJson(p);
    assert "type"[0] != "name"[0];
    LastMemberAt(j.members, "name", 0);
    LastMemberAt(j.members, "type", 1);
    assert GetStr(j, "name") == Some(p.name);
    assert GetStr(j, "type") == Some(p.typ);
    if p.internalType.Some? {
      LastMemberAt(j.members, "internalType", 2);
    }
    assert GetStr(j, "internalType") == p.internalType;
  }

  /** The parameter list under `key`, empty when the key is missing or not an array. */
  function ParamsAt(entry: Json, key: string): (r: seq<AbiParam>)
    ensures GetArray(entry, key).None? ==> r == []
    ensures GetArray(entry, key).Some? ==>
      |r| == |GetArray(entry, key).value|
      && forall k :: 0 <= k < |r| ==> r[k] == ParseParam(GetArray(entry, key).value[k])
  {
    match GetArray(entry, key)
    case Some(items) => seq(|items|, k requires 0 <= k < |items| => ParseParam(items[k]))
    case None => []
  }

  function EventParamsAt(entry: Json, key: string): (r: seq<AbiEventParam>)
    ensures GetArray(entry, key).None? ==> r == []
    ensures GetArray(entry, key).Some? ==>
      |r| == |GetArray(entry, key).value|
      && forall k :: 0 <= k < |r| ==> r[k] == ParseEventParam(GetArray(entry, key).value[k])
  {
    match GetArray(entry, key)
    case Some(items) => seq(|items|, k requires 0 <= k < |items| => ParseEventParam(items[k]))
    case None => []
  }

  // ---------------------------------------------------------------------
  // The binding's records and the ABI entries
  // ---------------------------------------------------------------------

  /** The binding's `ABIFunction`. */
  datatype PyFunction = PyFunction(
    name: string,
    inputs: seq<AbiParam>,
    outputs: seq<AbiParam>,
    stateMutability: string,
    constant: bool,
    payable: bool,
    selector: Selector,
    signature: string)

  /** The binding's `ABI` (`ctor` is its `constructor` field). */
  datatype PyAbi = PyAbi(
    functions: seq<PyFunction>,
    events: seq<AbiEvent>,
    errors: seq<AbiError>,
    ctor: Option<PyFunction>,
    fallback: Option<PyFunction>,
    receive: Option<PyFunction>,
    storageLayout: seq<StorageSlot>,
    bySelector: map<Selector, nat>,
    byName: map<string, nat>)

  /** The binding's `ABI::new()`. */
  function EmptyAbi(): (a: PyAbi)
    ensures a.functions == [] && a.events == [] && a.errors == [] && a.storageLayout == []
    ensures a.ctor.None? && a.fallback.None? && a.receive.None?
    ensures a.bySelector == map[] && a.byName == map[]
  {
    PyAbi([], [], [], None, None, None, [], map[], map[])
  }

  const DefaultMutability: string := "nonpayable"

  /** `compute_selector`: the first four bytes of the Keccak-256 hash of
      `name(type1,type2,...)`. */
  function ComputeSelector(keccak: StringHasher, name: string, types: seq<string>): (s: Selector)
    ensures forall i :: 0 <= i < 4 ==> s[i] == keccak(SignatureText(name, types))[i]
  {
    SelectorOf(keccak(SignatureText(name, types)))
  }

  /** `parse_function_entry`: nothing for a missing or empty name. */
  function ParseFunctionEntry(keccak: StringHasher, entry: Json): (r: Option<PyFunction>)
    ensures r.None? <==> GetStr(entry, "name").GetOr("") == ""
    ensures r.Some? ==>
      var f := r.value;
      && f.name == GetStr(entry, "name").value
      && f.inputs == ParamsAt(entry, "inputs")
      && f.outputs == ParamsAt(entry, "outputs")
      && f.stateMutability == GetStr(entry, "stateMutability").GetOr(DefaultMutability)
      && (f.constant <==> f.stateMutability == "view" || f.stateMutability == "pure")
      && (f.payable <==> f.stateMutability == "payable")
      && !(f.constant && f.payable)
      && f.signature == SignatureText(f.name, TypesOf(f.inputs))
      && f.selector == SelectorOf(keccak(f.signature))
  {
    var name := GetStr(entry, "name").GetOr("");
    if name == "" then None
    else
      var inputs := ParamsAt(entry, "inputs");
      var inputTypes := TypesOf(inputs);
      var mutability := GetStr(entry, "stateMutability").GetOr(DefaultMutability);
      Some(PyFunction(
        name,
        inputs,
        ParamsAt(entry, "outputs"),
        mutability,
        mutability == "view" || mutability == "pure",
        mutability == "payable",
        ComputeSelector(keccak, name, inputTypes),
        SignatureText(name, inputTypes)))
  }

  /** `parse_event_entry`: nothing for a missing or empty name. */
  function ParseEventEntry(entry: Json): (r: Option<AbiEvent>)
    ensures r.None? <==> GetStr(entry, "name").GetOr("") == ""
    ensures r.Some? ==>
      && r.value.name == GetStr(entry, "name").value
      && r.value.inputs == EventParamsAt(entry, "inputs")
      && (r.value.anonymous <==> GetBool(entry, "anonymous") == Some(true))
  {
    var name := GetStr(entry, "name").GetOr("");
    if name == "" then None
    else Some(AbiEvent(name, EventParamsAt(entry, "inputs"), GetBool(entry, "anonymous").GetOr(false)))
  }

  /** `parse_error_entry`: nothing for a missing or empty name. */
  function ParseErrorEntry(entry: Json): (r: Option<AbiError>)
    ensures r.None? <==> GetStr(entry, "name").GetOr("") == ""
    ensures r.Some? ==> r.value.name == GetStr(entry, "name").value && r.value.inputs == ParamsAt(entry, "inputs")
  {
    var name := GetStr(entry, "name").GetOr("");
    if name == "" then None
    else Some(AbiError(name, ParamsAt(entry, "inputs")))
  }

  /** `parse_constructor_entry`: always an entry, named "constructor", with
      the zero selector, no outputs, and never constant. */
  function ParseConstructorEntry(entry: Json): (r: Option<PyFunction>)
    ensures r.Some?
    ensures r.value.name == "constructor" && r.value.selector == ZeroSelector
    ensures !r.value.constant && r.value.outputs == []
    ensures r.value.inputs == ParamsAt(entry, "inputs")
    ensures r.value.stateMutability == GetStr(entry, "stateMutability").GetOr(DefaultMutability)
    ensures r.value.payable <==> r.value.stateMutability == "payable"
    ensures r.value.signature == SignatureText("constructor", TypesOf(r.value.inputs))
  {
    var inputs := ParamsAt(entry, "inputs");
    var mutability := GetStr(entry, "stateMutability").GetOr(DefaultMutability);
    Some(PyFunction("constructor", inputs, [], mutability, false, mutability == "payable", ZeroSelector,
      SignatureText("constructor", TypesOf(inputs))))
  }

  /** `parse_fallback_entry`: always an entry without parameters. */
  function ParseFallbackEntry(entry: Json): (r: Option<PyFunction>)
    ensures r.Some?
    ensures r.value.name == "fallback" && r.value.selector == ZeroSelector && r.value.signature == "fallback()"
    ensures !r.value.constant && r.value.inputs == [] && r.value.outputs == []
    ensures r.value.stateMutability == GetStr(entry, "stateMutability").GetOr(DefaultMutability)
    ensures r.value.payable <==> r.value.stateMutability == "payable"
  {
    var mutability := GetStr(entry, "stateMutability").GetOr(DefaultMutability);
    Some(PyFunction("fallback", [], [], mutability, false, mutability == "payable", ZeroSelector, "fallback()"))
  }

  /** The receive function both the JSON loader and the decompiler path produce. */
  const ReceiveFunction: PyFunction :=
    PyFunction("receive", [], [], "payable", false, true, ZeroSelector, "receive()")

  /** `parse_receive_entry`: the entry's content is ignored; receive is always payable. */
  function ParseReceiveEntry(entry: Json): (r: Option<PyFunction>)
    ensures r == Some(ReceiveFunction)
    ensures r.value.payable && !r.value.constant && r.value.stateMutability == "payable"
  {
    Some(ReceiveFunction)
  }

  // ---------------------------------------------------------------------
  // `ABI::from_json`
  // ---------------------------------------------------------------------

  /** The entry's `type`, "" when missing. */
  function EntryType(entry: Json): string {
    GetStr(entry, "type").GetOr("")
  }

  /** The entry types the loader acts on. */
  predicate KnownType(t: string) {
    t == "function" || t == "event" || t == "error" || t == "constructor" || t == "fallback" || t == "receive"
  }

  /** An entry after the loader's `match` on its type has run the matching
      `parse_*_entry` function; an entry of any other type is skipped. */
  datatype ParsedEntry =
    | FunctionItem(fn: Option<PyFunction>)
    | EventItem(event: Option<AbiEvent>)
    | ErrorItem(error: Option<AbiError>)
    | ConstructorItem(ctor: Option<PyFunction>)
    | FallbackItem(fallback: Option<PyFunction>)
    | ReceiveItem(receive: Option<PyFunction>)
    | Skipped

  function ParseEntry(keccak: StringHasher, entry: Json): (p: ParsedEntry)
    ensures p.Skipped? <==> !KnownType(EntryType(entry))
    ensures EntryType(entry) == "function" ==> p == FunctionItem(ParseFunctionEntry(keccak, entry))
    ensures EntryType(entry) == "event" ==> p == EventItem(ParseEventEntry(entry))
    ensures EntryType(entry) == "error" ==> p == ErrorItem(ParseErrorEntry(entry))
    ensures EntryType(entry) == "constructor" ==> p == ConstructorItem(ParseConstructorEntry(entry))
    ensures EntryType(entry) == "fallback" ==> p == FallbackItem(ParseFallbackEntry(entry))
    ensures EntryType(entry) == "receive" ==> p == ReceiveItem(ParseReceiveEntry(entry))
  {
    var t := EntryType(entry);
    if t == "function" then FunctionItem(ParseFunctionEntry(keccak, entry))
    else if t == "event" then EventItem(ParseEventEntry(entry))
    else if t == "error" then ErrorItem(ParseErrorEntry(entry))
    else if t == "constructor" then ConstructorItem(ParseConstructorEntry(entry))
    else if t == "fallback" then FallbackItem(ParseFallbackEntry(entry))
    else if t == "receive" then ReceiveItem(ParseReceiveEntry(entry))
    else Skipped
  }

  function ParseEntries(keccak: StringHasher, entries: seq<Json>): (ps: seq<ParsedEntry>)
    ensures |ps| == |entries| && forall i :: 0 <= i < |entries| ==> ps[i] == ParseEntry(keccak, entries[i])
  {
    seq(|entries|, i requires 0 <= i < |entries| => ParseEntry(keccak, entries[i]))
  }

  /** Appending a function at position `|functions|` and indexing it there. */
  function AddFunction(abi: PyAbi, f: PyFunction): (r: PyAbi)
    ensures r.functions == abi.functions + [f]
    ensures r == abi.(functions := r.functions, bySelector := r.bySelector, byName := r.byName)
  {
    var idx := |abi.functions|;
    abi.(
      bySelector := abi.bySelector[f.selector := idx],
      byName := if f.name != "" then abi.byName[f.name := idx] else abi.byName,
      functions := abi.functions + [f])
  }

  /** One iteration of the loader's loop, once the entry is parsed. */
  function Step(abi: PyAbi, p: ParsedEntry): PyAbi {
    match p
    case FunctionItem(f) => if f.Some? then AddFunction(abi, f.value) else abi
    case EventItem(e) => if e.Some? then abi.(events := abi.events + [e.value]) else abi
    case ErrorItem(e) => if e.Some? then abi.(errors := abi.errors + [e.value]) else abi
    case ConstructorItem(c) => abi.(ctor := c)
    case FallbackItem(f) => abi.(fallback := f)
    case ReceiveItem(r) => abi.(receive := r)
    case Skipped => abi
  }

  /** The ABI after the loop has processed the parsed entries, in order. */
  function Replay(ps: seq<ParsedEntry>): PyAbi
    decreases |ps|
  {
    if |ps| == 0 then EmptyAbi()
    else Step(Replay(ps[..|ps| - 1]), ps[|ps| - 1])
  }

  /** The ABI the loop builds from the entries of a document. */
  function Load(keccak: StringHasher, entries: seq<Json>): PyAbi {
    Replay(ParseEntries(keccak, entries))
  }

  /** Where the JSON text came from, and whether it parsed. Reading the file
      and parsing the text are outside the model. */
  datatype Document = Unreadable(reason: string) | Malformed(reason: string) | Parsed(doc: Json)

  /** The Python exception a call raises. */
  datatype ErrorKind = IOError | ValueError | RuntimeError | TimeoutError
  datatype PyError = PyError(kind: ErrorKind, message: string)

  const MissingAbiFieldText: string := "Expected 'abi' field with array"
  const WrongShapeText: string := "JSON must be an array or object with 'abi' field"

  /** The ABI entries of a document: its `abi` array when it is an object,
      the document itself when it is an array. */
  function AbiEntries(doc: Json): (r: Result<seq<Json>, PyError>)
    ensures doc.JArray? ==> r == Success(doc.items)
    ensures doc.JObject? ==> (r.Success? <==> GetArray(doc, "abi").Some?)
    ensures doc.JObject? && r.Success? ==> r.value == GetArray(doc, "abi").value
    ensures doc.JObject? && r.Failure? ==> r.error == PyError(ValueError, MissingAbiFieldText)
    ensures !doc.JObject? && !doc.JArray? ==> r == Failure(PyError(ValueError, WrongShapeText))
  {
    match doc
    case JObject(_) =>
      (match GetArray(doc, "abi")
       case Some(items) => Success(items)
       case None => Failure(PyError(ValueError, MissingAbiFieldText)))
    case JArray(items) => Success(items)
    case _ => Failure(PyError(ValueError, WrongShapeText))
  }

  /** `ABI::from_json`. */
  function FromJson(keccak: StringHasher, path: string, document: Document): (r: Result<PyAbi, PyError>)
    ensures document.Unreadable? ==>
      r == Failure(PyError(IOError, "Failed to read file " + path + ": " + document.reason))
    ensures document.Malformed? ==> r == Failure(PyError(ValueError, "Invalid JSON: " + document.reason))
    ensures document.Parsed? ==>
      (r.Success? <==> AbiEntries(document.doc).Success?)
      && (r.Success? ==> r.value == Load(keccak, AbiEntries(document.doc).value))
      && (r.Failure? ==> r.error.kind == ValueError)
  {
    match document
    case Unreadable(reason) => Failure(PyError(IOError, "Failed to read file " + path + ": " + reason))
    case Malformed(reason) => Failure(PyError(ValueError, "Invalid JSON: " + reason))
    case Parsed(doc) =>
      match AbiEntries(doc)
      case Success(entries) => Success(Load(keccak, entries))
      case Failure(e) => Failure(e)
  }

  /** The selector key each function contributes. */
  function PySelectorKeys(fs: seq<PyFunction>): (ks: seq<Option<Selector>>)
    ensures |ks| == |fs| && forall i :: 0 <= i < |fs| ==> ks[i] == Some(fs[i].selector)
  {
    seq(|fs|, i requires 0 <= i < |fs| => Some(fs[i].selector))
  }

  /** The name key each function contributes: none for the empty name. */
  function PyNameKeys(fs: seq<PyFunction>): (ks: seq<Option<string>>)
    ensures |ks| == |fs| && forall i :: 0 <= i < |fs| ==> ks[i] == (if fs[i].name == "" then None else Some(fs[i].name))
  {
    seq(|fs|, i requires 0 <= i < |fs| => if fs[i].name == "" then None else Some(fs[i].name))
  }

  /** Both maps index the function list: a selector or non-empty name maps to
      the last position carrying it. */
  ghost predicate IndicesMatch(abi: PyAbi) {
    && abi.bySelector == Indexing.IndexBy(PySelectorKeys(abi.functions))
    && abi.byName == Indexing.IndexBy(PyNameKeys(abi.functions))
  }

  /** Every index points into the function list, so `functions[idx]` cannot panic. */
  predicate IndicesInRange(abi: PyAbi) {
    && (forall s :: s in abi.bySelector ==> abi.bySelector[s] < |abi.functions|)
    && (forall n :: n in abi.byName ==> abi.byName[n] < |abi.functions|)
  }

  lemma MatchingIndicesInRange(abi: PyAbi)
    requires IndicesMatch(abi)
    ensures IndicesInRange(abi)
  {
  }

  /** Adding a function keeps the maps equal to the index of the longer list. */
  lemma AddFunctionKeepsIndices(abi: PyAbi, f: PyFunction)
    requires IndicesMatch(abi)
    ensures IndicesMatch(AddFunction(abi, f))
  {
    var fs := abi.functions;
    var fs' := fs + [f];
    assert PySelectorKeys(fs') == PySelectorKeys(fs) + [Some(f.selector)];
    assert PyNameKeys(fs') == PyNameKeys(fs) + [if f.name == "" then None else Some(f.name)];
    Indexing.IndexByAppend(PySelectorKeys(fs), Some(f.selector));
    Indexing.IndexByAppend(PyNameKeys(fs), if f.name == "" then None else Some(f.name));
  }

  /** A step keeps the maps equal to the index of the function list. */
  lemma StepKeepsIndices(abi: PyAbi, p: ParsedEntry)
    requires IndicesMatch(abi)
    ensures IndicesMatch(Step(abi, p))
  {
    if p.FunctionItem? && p.fn.Some? {
      AddFunctionKeepsIndices(abi, p.fn.value);
    }
  }

  /** The loop's maps index its function list, whatever the entries. */
  lemma {:induction false} ReplayIndicesMatch(ps: seq<ParsedEntry>)
    ensures IndicesMatch(Replay(ps))
    decreases |ps|
  {
    if |ps| == 0 {
      assert PySelectorKeys([]) == [];
      assert PyNameKeys([]) == [];
    } else {
      ReplayIndicesMatch(ps[..|ps| - 1]);
      StepKeepsIndices(Replay(ps[..|ps| - 1]), ps[|ps| - 1]);
    }
  }

  /** `from_json` builds an ABI whose maps index its function list. */
  lemma LoadIndicesMatch(keccak: StringHasher, entries: seq<Json>)
    ensures IndicesMatch(Load(keccak, entries))
    ensures IndicesInRange(Load(keccak, entries))
  {
    ReplayIndicesMatch(ParseEntries(keccak, entries));
    MatchingIndicesInRange(Load(keccak, entries));
  }

  /** What one parsed entry adds to each list: a named function, event or error. */
  function FunctionOf(p: ParsedEntry): seq<PyFunction> {
    if p.FunctionItem? && p.fn.Some? then [p.fn.value] else []
  }

  function EventOf(p: ParsedEntry): seq<AbiEvent> {
    if p.EventItem? && p.event.Some? then [p.event.value] else []
  }

  function ErrorOf(p: ParsedEntry): seq<AbiError> {
    if p.ErrorItem? && p.error.Some? then [p.error.value] else []
  }

  /** The named functions, events and errors among the parsed entries, in order. */
  function KeptFunctions(ps: seq<ParsedEntry>): seq<PyFunction>
    decreases |ps|
  {
    if |ps| == 0 then [] else KeptFunctions(ps[..|ps| - 1]) + FunctionOf(ps[|ps| - 1])
  }

  function KeptEvents(ps: seq<ParsedEntry>): seq<AbiEvent>
    decreases |ps|
  {
    if |ps| == 0 then [] else KeptEvents(ps[..|ps| - 1]) + EventOf(ps[|ps| - 1])
  }

  function KeptErrors(ps: seq<ParsedEntry>): seq<AbiError>
    decreases |ps|
  {
    if |ps| == 0 then [] else KeptErrors(ps[..|ps| - 1]) + ErrorOf(ps[|ps| - 1])
  }

  /** One step appends what the entry adds to each list and keeps the storage layout. */
  lemma StepAppends(abi: PyAbi, p: ParsedEntry)
    ensures Step(abi, p).functions == abi.functions + FunctionOf(p)
    ensures Step(abi, p).events == abi.events + EventOf(p)
    ensures Step(abi, p).errors == abi.errors + ErrorOf(p)
    ensures Step(abi, p).storageLayout == abi.storageLayout
  {
  }

  /** The loop keeps exactly the named function, event and error entries, in
      order, and never fills the storage layout. */
  lemma {:induction false} ReplayKeepsNamedEntries(ps: seq<ParsedEntry>)
    ensures Replay(ps).functions == KeptFunctions(ps)
    ensures Replay(ps).events == KeptEvents(ps)
    ensures Replay(ps).errors == KeptErrors(ps)
    ensures Replay(ps).storageLayout == []
    decreases |ps|
  {
    if |ps| > 0 {
      ReplayKeepsNamedEntries(ps[..|ps| - 1]);
      StepAppends(Replay(ps[..|ps| - 1]), ps[|ps| - 1]);
    }
  }

  /** A kept entry cannot be lost by later entries: every named function of
      the document ends up in the function list. */
  lemma {:induction false} KeptFunctionsContains(ps: seq<ParsedEntry>, i: nat)
    requires i < |ps| && ps[i].FunctionItem? && ps[i].fn.Some?
    ensures ps[i].fn.value in KeptFunctions(ps)
    decreases |ps|
  {
    if i < |ps| - 1 {
      KeptFunctionsContains(ps[..|ps| - 1], i);
    }
  }

  /** The position of the last parsed entry satisfying `kind`, if any. */
  function LastWhere(ps: seq<ParsedEntry>, kind: ParsedEntry -> bool): (r: Option<nat>)
    ensures r.Some? ==>
      && r.value < |ps|
      && kind(ps[r.value])
      && forall j :: r.value < j < |ps| ==> !kind(ps[j])
    ensures r.None? ==> forall j :: 0 <= j < |ps| ==> !kind(ps[j])
    decreases |ps|
  {
    if |ps| == 0 then None
    else if kind(ps[|ps| - 1]) then Some(|ps| - 1)
    else LastWhere(ps[..|ps| - 1], kind)
  }

  predicate IsConstructor(p: ParsedEntry) { p.ConstructorItem? }
  predicate IsFallback(p: ParsedEntry) { p.FallbackItem? }
  predicate IsReceive(p: ParsedEntry) { p.ReceiveItem? }

  /** One step replaces the special entry of its own kind and no other. */
  lemma StepReplacesSpecial(abi: PyAbi, p: ParsedEntry)
    ensures Step(abi, p).ctor == if p.ConstructorItem? then p.ctor else abi.ctor
    ensures Step(abi, p).fallback == if p.FallbackItem? then p.fallback else abi.fallback
    ensures Step(abi, p).receive == if p.ReceiveItem? then p.receive else abi.receive
  {
  }

  /** The last constructor, fallback and receive entries win; without one the
      field stays empty. */
  lemma {:induction false} LastSpecialEntryWins(ps: seq<ParsedEntry>)
    ensures Replay(ps).ctor ==
      match LastWhere(ps, IsConstructor)
      case Some(i) => ps[i].ctor
      case None => None
    ensures Replay(ps).fallback ==
      match LastWhere(ps, IsFallback)
      case Some(i) => ps[i].fallback
      case None => None
    ensures Replay(ps).receive ==
      match LastWhere(ps, IsReceive)
      case Some(i) => ps[i].receive
      case None => None
    decreases |ps|
  {
    if |ps| > 0 {
      var front := ps[..|ps| - 1];
      LastSpecialEntryWins(front);
      StepReplacesSpecial(Replay(front), ps[|ps| - 1]);
      assert forall j :: 0 <= j < |front| ==> front[j] == ps[j];
    }
  }

  /** A skipped entry can be dropped anywhere without changing the result. */
  lemma {:induction false} SkippedEntryIgnored(before: seq<ParsedEntry>, after: seq<ParsedEntry>)
    ensures Replay(before + [Skipped] + after) == Replay(before + after)
    decreases |after|
  {
    var all := before + [Skipped] + after;
    var rest := before + after;
    if |after| == 0 {
      assert all[..|all| - 1] == before;
      assert rest == before;
    } else {
      var front := after[..|after| - 1];
      SkippedEntryIgnored(before, front);
      assert all[..|all| - 1] == before + [Skipped] + front;
      assert rest[..|rest| - 1] == before + front;
    }
  }

  /** Parsing distributes over concatenation. */
  lemma ParseEntriesAppend(keccak: StringHasher, a: seq<Json>, b: seq<Json>)
    ensures ParseEntries(keccak, a + b) == ParseEntries(keccak, a) + ParseEntries(keccak, b)
  {
    var l := ParseEntries(keccak, a + b);
    var r := ParseEntries(keccak, a) + ParseEntries(keccak, b);
    forall i | 0 <= i < |a + b| ensures l[i] == r[i] {
      if i < |a| {
        assert (a + b)[i] == a[i];
      } else {
        assert (a + b)[i] == b[i - |a|];
      }
    }
  }

  /** An entry whose type the loader does not know can be dropped anywhere
      in a document without changing the ABI it loads to. */
  lemma UnknownEntryIgnored(keccak: StringHasher, before: seq<Json>, e: Json, after: seq<Json>)
    requires !KnownType(EntryType(e))
    ensures Load(keccak, before + [e] + after) == Load(keccak, before + after)
  {
    var pb := ParseEntries(keccak, before);
    var pa := ParseEntries(keccak, after);
    ParseEntriesAppend(keccak, before + [e], after);
    ParseEntriesAppend(keccak, before, [e]);
    ParseEntriesAppend(keccak, before, after);
    assert ParseEntries(keccak, [e]) == [Skipped];
    SkippedEntryIgnored(pb, pa);
  }

  /** Parsing a function entry as `from_json` does: its function is kept
      exactly when its name is present and non-empty. */
  lemma FunctionEntryKeptIffNamed(keccak: StringHasher, entry: Json)
    requires EntryType(entry) == "function"
    ensures KeptFunctions([ParseEntry(keccak, entry)]) == (if GetStr(entry, "name").GetOr("") == "" then [] else [ParseFunctionEntry(keccak, entry).value])
  {
    assert [ParseEntry(keccak, entry)][1..] == [];
  }

  // ---------------------------------------------------------------------
  // `ABI::get_function`
  // ---------------------------------------------------------------------

  /** The Python object passed as key: a `str`, something that converts to
      a list of bytes (`bytes`, a list of small integers), or anything else. */
  datatype LookupKey = TextKey(text: string) | ByteKey(bytes: seq<byte>) | OtherKey

  /** Looks the first four bytes up in `by_selector`; shorter keys find nothing. */
  function LookupSelector(abi: PyAbi, b: seq<byte>): (r: Option<PyFunction>)
    requires IndicesInRange(abi)
    ensures r.Some? <==> |b| >= 4 && b[..4] in abi.bySelector
    ensures r.Some? ==> r.value == abi.functions[abi.bySelector[b[..4]]]
  {
    if |b| < 4 then None
    else
      var s: Selector := b[..4];
      if s in abi.bySelector then Some(abi.functions[abi.bySelector[s]]) else None
  }

  /** `ABI::get_function`: a "0x" text is hex-decoded and looked up as a
      selector, any other text as a name, and a byte key as a selector. */
  function GetFunction(abi: PyAbi, key: LookupKey): (r: Option<PyFunction>)
    requires IndicesInRange(abi)
    ensures key.OtherKey? ==> r.None?
    ensures key.ByteKey? ==> r == LookupSelector(abi, key.bytes)
    ensures key.TextKey? && Text.StartsWith(key.text, "0x") ==>
      r == (if Hex.Decode(key.text[2..]).Success? then LookupSelector(abi, Hex.Decode(key.text[2..]).value) else None)
    ensures key.TextKey? && !Text.StartsWith(key.text, "0x") ==>
      (r.Some? <==> key.text in abi.byName)
      && (r.Some? ==> r.value == abi.functions[abi.byName[key.text]])
  {
    match key
    case TextKey(s) =>
      if Text.StartsWith(s, "0x") then
        match Hex.Decode(s[2..])
        case Success(b) => LookupSelector(abi, b)
        case Failure(_) => None
      else if s in abi.byName then Some(abi.functions[abi.byName[s]])
      else None
    case ByteKey(b) => LookupSelector(abi, b)
    case OtherKey => None
  }

  /** A name finds the last function with that name, and finds nothing when
      no function has it; the empty name never finds anything. */
  lemma GetByNameFindsLast(abi: PyAbi, name: string)
    requires IndicesMatch(abi) && !Text.StartsWith(name, "0x")
    ensures IndicesInRange(abi)
    ensures GetFunction(abi, TextKey(name)).Some? <==>
      name != "" && exists i :: 0 <= i < |abi.functions| && abi.functions[i].name == name
    ensures GetFunction(abi, TextKey(name)).Some? ==>
      exists i :: 0 <= i < |abi.functions|
        && GetFunction(abi, TextKey(name)).value == abi.functions[i]
        && abi.functions[i].name == name
        && forall j :: i < j < |abi.functions| ==> abi.functions[j].name != name
  {
    MatchingIndicesInRange(abi);
    var keys := PyNameKeys(abi.functions);
    if name != "" && exists i :: 0 <= i < |abi.functions| && abi.functions[i].name == name {
      var i :| 0 <= i < |abi.functions| && abi.functions[i].name == name;
      assert keys[i] == Some(name);
      var p := abi.byName[name];
      assert Indexing.IsLastPosition(keys, name, p);
      forall j | p < j < |abi.functions| ensures abi.functions[j].name != name {
        assert keys[j] != Some(name);
      }
    }
  }

  /** A byte key of at least four bytes finds the last function whose
      selector is its first four bytes, and nothing when there is none. */
  lemma GetBySelectorFindsLast(abi: PyAbi, b: seq<byte>)
    requires IndicesMatch(abi) && |b| >= 4
    ensures IndicesInRange(abi)
    ensures GetFunction(abi, ByteKey(b)).Some? <==>
      exists i :: 0 <= i < |abi.functions| && abi.functions[i].selector == b[..4]
    ensures GetFunction(abi, ByteKey(b)).Some? ==>
      exists i :: 0 <= i < |abi.functions|
        && GetFunction(abi, ByteKey(b)).value == abi.functions[i]
        && abi.functions[i].selector == b[..4]
        && forall j :: i < j < |abi.functions| ==> abi.functions[j].selector != b[..4]
  {
    MatchingIndicesInRange(abi);
    var keys := PySelectorKeys(abi.functions);
    var s: Selector := b[..4];
    if exists i :: 0 <= i < |abi.functions| && abi.functions[i].selector == s {
      var i :| 0 <= i < |abi.functions| && abi.functions[i].selector == s;
      assert keys[i] == Some(s);
      var p := abi.bySelector[s];
      assert Indexing.IsLastPosition(keys, s, p);
      forall j | p < j < |abi.functions| ensures abi.functions[j].selector != s {
        assert keys[j] != Some(s);
      }
    }
  }

  /** Writing a selector as "0x" followed by its hex digits finds the same
      function as passing its bytes. */
  lemma HexTextAndBytesAgree(abi: PyAbi, b: seq<byte>)
    requires IndicesInRange(abi)
    ensures GetFunction(abi, TextKey("0x" + Hex.Encode(b))) == GetFunction(abi, ByteKey(b))
  {
    var s := "0x" + Hex.Encode(b);
    assert Text.StartsWith(s, "0x");
    assert s[2..] == Hex.Encode(b);
    Hex.DecodeEncode(b);
  }

  // ---------------------------------------------------------------------
  // The decompiler path: `convert_function` and `decompile_code`
  // ---------------------------------------------------------------------

  /** The selector the binding's `convert_function` assigns: for a name
      `Unresolved_<suffix>`, only the first eight (or fewer) characters of the
      suffix are decoded, and they are used when they give four bytes. */
  function BindingSelector(name: string, computed: Selector): (s: Selector)
    ensures Text.StartsWith(name, UnresolvedPrefix) && |name| >= 19 && Hex.AllHex(name[11..19]) ==>
      s == Hex.Decode(name[11..19]).value
    ensures !(Text.StartsWith(name, UnresolvedPrefix) && |name| >= 19 && Hex.AllHex(name[11..19])) ==>
      s == computed
  {
    if Text.StartsWith(name, UnresolvedPrefix) then
      var suffix := name[11..];
      var head := suffix[..if |suffix| < 8 then |suffix| else 8];
      assert |name| >= 19 ==> head == name[11..19];
      match Hex.Decode(head)
      case Success(bytes) => if |bytes| == 4 then bytes else computed
      case Failure(_) => computed
    else computed
  }

  /** With a suffix of exactly eight characters, the binding and the cache
      builder assign the same selector. */
  lemma SelectorRulesAgreeOnEightCharacters(name: string, computed: Selector)
    requires |name| == 19
    ensures BindingSelector(name, computed) == ResolveSelector(name, computed)
  {
    assert name[11..19] == name[11..];
  }

  /** With a longer suffix whose first eight characters are hex digits, the
      binding decodes those eight while the cache builder, which needs the
      whole suffix to be four bytes, keeps the computed selector. */
  lemma SelectorRulesDifferOnLongerSuffix(suffix: string, computed: Selector)
    requires |suffix| > 8 && Hex.AllHex(suffix[..8])
    requires Hex.Decode(suffix[..8]).value != computed
    ensures BindingSelector(UnresolvedPrefix + suffix, computed) != ResolveSelector(UnresolvedPrefix + suffix, computed)
  {
    var name := UnresolvedPrefix + suffix;
    assert name[11..19] == suffix[..8];
    assert name[11..] == suffix;
  }

  /** A concrete name on which the two rules differ: "Unresolved_0000000000"
      gets the zero selector from the binding and keeps any other computed
      selector in the cache builder. */
  lemma SelectorRulesDifferExample()
    ensures BindingSelector("Unresolved_0000000000", [1, 2, 3, 4]) == [0, 0, 0, 0]
    ensures ResolveSelector("Unresolved_0000000000", [1, 2, 3, 4]) == [1, 2, 3, 4]
  {
    var name := "Unresolved_0000000000";
    assert Text.StartsWith(name, UnresolvedPrefix);
    var head := name[11..19];
    assert head == "00000000";
    assert Hex.AllHex(head);
    var b := Hex.Decode(head).value;
    assert |b| == 4;
    forall k | 0 <= k < 4 ensures b[k] == 0 {
      assert head[2 * k] == '0' && head[2 * k + 1] == '0';
    }
    assert b == [0, 0, 0, 0];
    assert |name[11..]| == 10;
  }

  /** The binding's `convert_param`: unlike the cache builder's, it keeps an
      internal type as alloy displays it (`to_string`). */
  function ConvertParamShown(p: Alloy.Param): (r: AbiParam)
    ensures r.name == p.name && r.typ == p.ty
    ensures r.internalType.Some? <==> p.internalType.Some?
    ensures r.internalType.Some? ==> r.internalType.value == p.internalType.value.display
  {
    AbiParam(p.name, p.ty, if p.internalType.Some? then Some(p.internalType.value.display) else None)
  }

  /** The binding's `convert_event_param`. */
  function ConvertEventParamShown(p: Alloy.EventParam): (r: AbiEventParam)
    ensures r.name == p.name && r.typ == p.ty && r.indexed == p.indexed
    ensures r.internalType.Some? <==> p.internalType.Some?
    ensures r.internalType.Some? ==> r.internalType.value == p.internalType.value.display
  {
    AbiEventParam(p.name, p.ty, p.indexed, if p.internalType.Some? then Some(p.internalType.value.display) else None)
  }

  function ConvertParamsShown(ps: seq<Alloy.Param>): (r: seq<AbiParam>)
    ensures |r| == |ps| && forall i :: 0 <= i < |ps| ==> r[i] == ConvertParamShown(ps[i])
  {
    seq(|ps|, i requires 0 <= i < |ps| => ConvertParamShown(ps[i]))
  }

  function ConvertEventParamsShown(ps: seq<Alloy.EventParam>): (r: seq<AbiEventParam>)
    ensures |r| == |ps| && forall i :: 0 <= i < |ps| ==> r[i] == ConvertEventParamShown(ps[i])
  {
    seq(|ps|, i requires 0 <= i < |ps| => ConvertEventParamShown(ps[i]))
  }

  /** The two crates' parameter conversions agree except on internal types:
      the same names and types in the same order, and an internal type on
      the same parameters. */
  lemma ParamConversionsAgree(ps: seq<Alloy.Param>)
    ensures |ConvertParamsShown(ps)| == |ConvertParams(ps)|
    ensures TypesOf(ConvertParamsShown(ps)) == TypesOf(ConvertParams(ps))
    ensures forall i :: 0 <= i < |ps| ==>
      && ConvertParamsShown(ps)[i].name == ConvertParams(ps)[i].name
      && (ConvertParamsShown(ps)[i].internalType.Some? <==> ConvertParams(ps)[i].internalType.Some?)
  {
  }

  /** The binding's `convert_function`. Its signature is alloy's. */
  function ConvertToPyFunction(f: Alloy.Function): (r: PyFunction)
    ensures r.name == f.name && r.signature == f.signature
    ensures r.inputs == ConvertParamsShown(f.inputs) && r.outputs == ConvertParamsShown(f.outputs)
    ensures r.stateMutability == MutabilityName(f.stateMutability)
    ensures r.constant <==> f.stateMutability == Alloy.Pure || f.stateMutability == Alloy.View
    ensures r.payable <==> f.stateMutability == Alloy.Payable
    ensures r.selector == BindingSelector(f.name, f.selector)
  {
    PyFunction(
      f.name,
      ConvertParamsShown(f.inputs),
      ConvertParamsShown(f.outputs),
      MutabilityName(f.stateMutability),
      f.stateMutability == Alloy.Pure || f.stateMutability == Alloy.View,
      f.stateMutability == Alloy.Payable,
      BindingSelector(f.name, f.selector),
      f.signature)
  }

  /** Both crates convert a decompiled function to the same name, parameter
      types, mutability and flags; the selectors agree unless the name is
      `Unresolved_` with a suffix longer than eight characters. */
  lemma ConversionsAgree(f: Alloy.Function)
    ensures ConvertToPyFunction(f).name == ConvertFunction(f).name
    ensures TypesOf(ConvertToPyFunction(f).inputs) == ConvertFunction(f).inputTypes
    ensures TypesOf(ConvertToPyFunction(f).outputs) == ConvertFunction(f).outputTypes
    ensures ConvertToPyFunction(f).stateMutability == ConvertFunction(f).stateMutability
    ensures ConvertToPyFunction(f).constant == ConvertFunction(f).constant
    ensures ConvertToPyFunction(f).payable == ConvertFunction(f).payable
    ensures |f.name| <= 19 ==> ConvertToPyFunction(f).selector == ConvertFunction(f).selector
  {
    if |f.name| == 19 {
      SelectorRulesAgreeOnEightCharacters(f.name, f.selector);
    }
  }

  /** What the decompiler thread reported: its runtime could not start, the
      decompiler failed, or it returned an ABI. */
  datatype ThreadReport = RuntimeUnavailable(reason: string) | DecompileError(reason: string) | Decompiled(abi: Alloy.JsonAbi)

  /** Whether a report reached the caller before the timeout. */
  datatype Delivery = Delivered(report: ThreadReport) | NotInTime

  const DefaultTimeoutSecs: nat := 25

  /** `timeout_secs.unwrap_or(25).saturating_mul(1000)` in u64; the argument
      itself is a u64, so larger Python integers never reach the call. */
  function TimeoutMillis(timeoutSecs: Option<nat>): (ms: nat)
    requires timeoutSecs.Some? ==> timeoutSecs.value < RunStats.U64
    ensures ms < RunStats.U64
    ensures timeoutSecs.None? ==> ms == DefaultTimeoutSecs * 1000
    ensures timeoutSecs.Some? && timeoutSecs.value * 1000 < RunStats.U64 ==> ms == timeoutSecs.value * 1000
    ensures timeoutSecs.Some? && timeoutSecs.value * 1000 >= RunStats.U64 ==> ms == RunStats.U64 - 1
  {
    var secs := timeoutSecs.GetOr(DefaultTimeoutSecs);
    if secs * 1000 < RunStats.U64 then secs * 1000 else RunStats.U64 - 1
  }

  /** The timeout message reports the requested seconds, except for requests
      so large that the milliseconds saturate. */
  lemma TimeoutSecondsReported(timeoutSecs: Option<nat>)
    requires timeoutSecs.Some? ==> timeoutSecs.value < RunStats.U64
    ensures timeoutSecs.None? ==> TimeoutMillis(timeoutSecs) / 1000 == 25
    ensures timeoutSecs.Some? && timeoutSecs.value * 1000 < RunStats.U64 ==>
      TimeoutMillis(timeoutSecs) / 1000 == timeoutSecs.value
    ensures timeoutSecs.Some? && timeoutSecs.value * 1000 >= RunStats.U64 ==>
      TimeoutMillis(timeoutSecs) / 1000 == 18446744073709551 < timeoutSecs.value
  {
  }

  /** The constructor of a decompiled ABI. */
  function DecompiledConstructor(c: Alloy.Constructor): (f: PyFunction)
    ensures f.name == "constructor" && f.selector == ZeroSelector && !f.constant && f.outputs == []
    ensures f.inputs == ConvertParamsShown(c.inputs)
    ensures f.stateMutability == MutabilityName(c.stateMutability)
    ensures f.payable <==> c.stateMutability == Alloy.Payable
    ensures f.signature == SignatureText("constructor", TypesOf(f.inputs))
  {
    var inputs := ConvertParamsShown(c.inputs);
    PyFunction("constructor", inputs, [], MutabilityName(c.stateMutability), false,
      c.stateMutability == Alloy.Payable, ZeroSelector, SignatureText("constructor", TypesOf(inputs)))
  }

  /** The fallback of a decompiled ABI. */
  function DecompiledFallback(fb: Alloy.Fallback): (f: PyFunction)
    ensures f.name == "fallback" && f.selector == ZeroSelector && f.signature == "fallback()"
    ensures !f.constant && f.inputs == [] && f.outputs == []
    ensures f.stateMutability == MutabilityName(fb.stateMutability)
    ensures f.payable <==> fb.stateMutability == Alloy.Payable
  {
    PyFunction("fallback", [], [], MutabilityName(fb.stateMutability), false,
      fb.stateMutability == Alloy.Payable, ZeroSelector, "fallback()")
  }

  /** The events of a decompiled ABI, in order, with the shown parameter conversion. */
  function DecompiledEvents(es: seq<Alloy.Event>): (r: seq<AbiEvent>)
    ensures |r| == |es|
    ensures forall i :: 0 <= i < |es| ==>
      r[i] == AbiEvent(es[i].name, ConvertEventParamsShown(es[i].inputs), es[i].anonymous)
  {
    seq(|es|, i requires 0 <= i < |es| => AbiEvent(es[i].name, ConvertEventParamsShown(es[i].inputs), es[i].anonymous))
  }

  /** The errors of a decompiled ABI, in order. */
  function DecompiledErrors(es: seq<Alloy.ErrorDef>): (r: seq<AbiError>)
    ensures |r| == |es|
    ensures forall i :: 0 <= i < |es| ==> r[i] == AbiError(es[i].name, ConvertParamsShown(es[i].inputs))
  {
    seq(|es|, i requires 0 <= i < |es| => AbiError(es[i].name, ConvertParamsShown(es[i].inputs)))
  }

  /** The functions of a decompiled ABI, in order. */
  function DecompiledFunctions(fs: seq<Alloy.Function>): (r: seq<PyFunction>)
    ensures |r| == |fs|
    ensures forall i :: 0 <= i < |fs| ==> r[i] == ConvertToPyFunction(fs[i])
  {
    seq(|fs|, i requires 0 <= i < |fs| => ConvertToPyFunction(fs[i]))
  }

  /** The index build at the end of `decompile_code`: each function is
      inserted at its position, a later selector or name overwriting an
      earlier one. */
  method IndexFunctions(fs: seq<PyFunction>) returns (bySelector: map<Selector, nat>, byName: map<string, nat>)
    ensures bySelector == Indexing.IndexBy(PySelectorKeys(fs))
    ensures byName == Indexing.IndexBy(PyNameKeys(fs))
  {
    bySelector := map[];
    byName := map[];
    var idx := 0;
    while idx < |fs|
      invariant 0 <= idx <= |fs|
      invariant bySelector == Indexing.IndexBy(PySelectorKeys(fs[..idx]))
      invariant byName == Indexing.IndexBy(PyNameKeys(fs[..idx]))
    {
      var f := fs[idx];
      IndexOneMore(fs, idx);
      bySelector := bySelector[f.selector := idx];
      if f.name != "" {
        byName := byName[f.name := idx];
      }
      idx := idx + 1;
    }
    assert fs[..|fs|] == fs;
  }

  /** Indexing one more function of the list updates both maps at its position. */
  lemma IndexOneMore(fs: seq<PyFunction>, idx: nat)
    requires idx < |fs|
    ensures Indexing.IndexBy(PySelectorKeys(fs[..idx + 1])) == Indexing.IndexBy(PySelectorKeys(fs[..idx]))[fs[idx].selector := idx]
    ensures Indexing.IndexBy(PyNameKeys(fs[..idx + 1])) ==
      if fs[idx].name == "" then Indexing.IndexBy(PyNameKeys(fs[..idx]))
      else Indexing.IndexBy(PyNameKeys(fs[..idx]))[fs[idx].name := idx]
  {
    var f := fs[idx];
    assert fs[..idx + 1] == fs[..idx] + [f];
    assert PySelectorKeys(fs[..idx + 1]) == PySelectorKeys(fs[..idx]) + [Some(f.selector)];
    assert PyNameKeys(fs[..idx + 1]) == PyNameKeys(fs[..idx]) + [if f.name == "" then None else Some(f.name)];
    Indexing.IndexByAppend(PySelectorKeys(fs[..idx]), Some(f.selector));
    Indexing.IndexByAppend(PyNameKeys(fs[..idx]), if f.name == "" then None else Some(f.name));
  }

  /** `decompile_code`, from the moment the decompiler arguments are built. */
  method DecompileCode(argsBuilt: Outcome<string>, delivery: Delivery, timeoutSecs: Option<nat>)
    returns (r: Result<PyAbi, PyError>)
    requires timeoutSecs.Some? ==> timeoutSecs.value < RunStats.U64
    ensures argsBuilt.Fail? ==> r == Failure(PyError(RuntimeError, "Failed to build args: " + argsBuilt.error))
    ensures argsBuilt.Pass? && delivery.NotInTime? ==>
      r == Failure(PyError(TimeoutError,
        "Decompilation timed out after " + Text.NatToString(TimeoutMillis(timeoutSecs) / 1000) + " seconds"))
    ensures argsBuilt.Pass? && delivery.Delivered? && delivery.report.RuntimeUnavailable? ==>
      r == Failure(PyError(RuntimeError, "Failed to create runtime: " + delivery.report.reason))
    ensures argsBuilt.Pass? && delivery.Delivered? && delivery.report.DecompileError? ==>
      r == Failure(PyError(RuntimeError, "Decompilation failed: " + delivery.report.reason))
    ensures r.Success? <==> argsBuilt.Pass? && delivery.Delivered? && delivery.report.Decompiled?
    ensures r.Success? ==>
      var j := delivery.report.abi;
      && r.value.functions == DecompiledFunctions(j.functions)
      && r.value.events == DecompiledEvents(j.events)
      && r.value.errors == DecompiledErrors(j.errors)
      && r.value.ctor == (if j.ctor.Some? then Some(DecompiledConstructor(j.ctor.value)) else None)
      && r.value.fallback == (if j.fallback.Some? then Some(DecompiledFallback(j.fallback.value)) else None)
      && r.value.receive == (if j.hasReceive then Some(ReceiveFunction) else None)
      && r.value.storageLayout == []
      && IndicesMatch(r.value)
      && IndicesInRange(r.value)
  {
    if argsBuilt.Fail? {
      return Failure(PyError(RuntimeError, "Failed to build args: " + argsBuilt.error));
    }
    match delivery {
      case NotInTime =>
        var seconds := TimeoutMillis(timeoutSecs) / 1000;
        return Failure(PyError(TimeoutError, "Decompilation timed out after " + Text.NatToString(seconds) + " seconds"));
      case Delivered(RuntimeUnavailable(reason)) =>
        return Failure(PyError(RuntimeError, "Failed to create runtime: " + reason));
      case Delivered(DecompileError(reason)) =>
        return Failure(PyError(RuntimeError, "Decompilation failed: " + reason));
      case Delivered(Decompiled(j)) =>
        var functions := DecompiledFunctions(j.functions);
        var events := DecompiledEvents(j.events);
        var errors := DecompiledErrors(j.errors);
        var ctor := match j.ctor
          case Some(c) => Some(DecompiledConstructor(c))
          case None => None;
        var fallback := match j.fallback
          case Some(fb) => Some(DecompiledFallback(fb))
          case None => None;
        var receive := if j.hasReceive then Some(ReceiveFunction) else None;
        var bySelector, byName := IndexFunctions(functions);
        var abi := PyAbi(functions, events, errors, ctor, fallback, receive, [], bySelector, byName);
        MatchingIndicesInRange(abi);
        return Success(abi);
    }
  }
}
