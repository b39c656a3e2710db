/** The decompiler's output as the system consumes it: the `alloy_json_abi`
    records it returns. Only the fields the system reads are kept. What alloy
    computes itself (a function's selector and signature, an internal type's
    display text) is carried as a field of the record rather than modelled. */
module Alloy {
  import opened Wrappers
  import opened Bytes

  datatype StateMutability = Pure | View | NonPayable | Payable

  /** alloy's `InternalType`; `display` is its `Display` text and `ty` the
      type name of the `Other` variant. */
  datatype InternalType =
    | AddressPayable(display: string)
    | ContractType(display: string)
    | EnumType(display: string)
    | StructType(display: string)
    | Other(display: string, ty: string)

  datatype Param = Param(name: string, ty: string, internalType: Option<InternalType>)

  datatype EventParam = EventParam(name: string, ty: string, indexed: bool, internalType: Option<InternalType>)

  /** `selector` is `Function::selector()` and `signature` is `Function::signature()`. */
  datatype Function = Function(
    name: string,
    inputs: seq<Param>,
    outputs: seq<Param>,
    stateMutability: StateMutability,
    selector: Selector,
    signature: string)

  datatype Event = Event(name: string, inputs: seq<EventParam>, anonymous: bool)

  datatype ErrorDef = ErrorDef(name: string, inputs: seq<Param>)

  datatype Constructor = Constructor(inputs: seq<Param>, stateMutability: StateMutability)

  datatype Fallback = Fallback(stateMutability: StateMutability)

  /** `JsonAbi` (`ctor` is its `constructor` field); the content of a receive entry is never read, only its presence. */
  datatype JsonAbi = JsonAbi(
    functions: seq<Function>,
    events: seq<Event>,
    errors: seq<ErrorDef>,
    ctor: Option<Constructor>,
    fallback: Option<Fallback>,
    hasReceive: bool)
}
