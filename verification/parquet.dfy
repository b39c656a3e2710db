/** Row normalisation of the Parquet reader
    (crates/cache_builder/src/parquet_reader.rs, `extract_contracts_from_batch`):
    the dispatch on column kind, hex rendering of binary columns, and the
    zip / skip / `0x`-prefix loop. Reading files and batches is not modelled. */
module ParquetReader {
  import opened Wrappers
  import opened Bytes
  import Text
  import Hex

  /** One contract row: address and bytecode, both `0x`-prefixed hex text. */
  datatype Contract = Contract(address: string, code: string)

  /** An Arrow column, by the array kinds the reader distinguishes.
      `Other` stands for every other data type, with its `{:?}` name. */
  datatype Column =
    | Utf8(texts: seq<string>)
    | Binary(blobs: seq<seq<byte>>)
    | LargeBinary(blobs: seq<seq<byte>>)
    | FixedSizeBinary(width: nat, blobs: seq<seq<byte>>)
    | Other(typeName: string)

  /** The `{:?}` text of a column's data type. */
  function TypeName(c: Column): string {
    match c
    case Utf8(_) => "Utf8"
    case Binary(_) => "Binary"
    case LargeBinary(_) => "LargeBinary"
    case FixedSizeBinary(w, _) => "FixedSizeBinary(" + Text.NatToString(w) + ")"
    case Other(name) => name
  }

  /** A record batch: its columns with their field names, in schema order. */
  datatype Batch = Batch(columns: seq<(string, Column)>)

  /** `column_by_name`: the first column with that name. */
  function ColumnByName(b: Batch, name: string): (r: Option<Column>)
    ensures r.Some? <==> exists i :: 0 <= i < |b.columns| && b.columns[i].0 == name
    ensures r.Some? ==>
      exists i :: 0 <= i < |b.columns| && b.columns[i] == (name, r.value)
        && forall k :: 0 <= k < i ==> b.columns[k].0 != name
    decreases |b.columns|
  {
    if |b.columns| == 0 then None
    else if b.columns[0].0 == name then Some(b.columns[0].1)
    else
      var r := ColumnByName(Batch(b.columns[1..]), name);
      assert forall i :: 1 <= i < |b.columns| ==> b.columns[i] == b.columns[1..][i - 1];
      FirstColumnShifts(b, name, r);
      r
  }

  /** A first match in the tail, past a non-matching head, is a first match of the whole batch. */
  lemma FirstColumnShifts(b: Batch, name: string, r: Option<Column>)
    requires |b.columns| > 0 && b.columns[0].0 != name
    requires r.Some? ==>
      exists i :: 0 <= i < |b.columns[1..]| && b.columns[1..][i] == (name, r.value)
        && forall k :: 0 <= k < i ==> b.columns[1..][k].0 != name
    ensures r.Some? ==>
      exists i :: 0 <= i < |b.columns| && b.columns[i] == (name, r.value)
        && forall k :: 0 <= k < i ==> b.columns[k].0 != name
  {
    if r.Some? {
      var i :| 0 <= i < |b.columns[1..]| && b.columns[1..][i] == (name, r.value)
        && forall k :: 0 <= k < i ==> b.columns[1..][k].0 != name;
      assert b.columns[i + 1] == (name, r.value);
      forall k | 0 <= k < i + 1
        ensures b.columns[k].0 != name
      {
        if k > 0 {
          assert b.columns[k] == b.columns[1..][k - 1];
        }
      }
    }
  }

  /** Every blob rendered by `hex::encode`. */
  function EncodeAll(blobs: seq<seq<byte>>): (r: seq<string>)
    ensures |r| == |blobs| && forall i :: 0 <= i < |blobs| ==> r[i] == Hex.Encode(blobs[i])
  {
    seq(|blobs|, i requires 0 <= i < |blobs| => Hex.Encode(blobs[i]))
  }

  /** The address column as text: text columns as they are, any binary kind
      (fixed-size included) hex-encoded, anything else unsupported. */
  function AddressTexts(c: Column): (r: Option<seq<string>>)
    ensures r.None? <==> c.Other?
    ensures c.Utf8? ==> r == Some(c.texts)
    ensures !c.Utf8? && !c.Other? ==> r == Some(EncodeAll(c.blobs))
  {
    match c
    case Utf8(texts) => Some(texts)
    case Binary(blobs) => Some(EncodeAll(blobs))
    case LargeBinary(blobs) => Some(EncodeAll(blobs))
    case FixedSizeBinary(_, blobs) => Some(EncodeAll(blobs))
    case Other(_) => None
  }

  /** The code column as text: like addresses, except that fixed-size binary
      is not accepted. */
  function CodeTexts(c: Column): (r: Option<seq<string>>)
    ensures r.None? <==> c.Other? || c.FixedSizeBinary?
    ensures c.Utf8? ==> r == Some(c.texts)
    ensures c.Binary? || c.LargeBinary? ==> r == Some(EncodeAll(c.blobs))
  {
    match c
    case Utf8(texts) => Some(texts)
    case Binary(blobs) => Some(EncodeAll(blobs))
    case LargeBinary(blobs) => Some(EncodeAll(blobs))
    case _ => None
  }

  /** A code the reader skips. */
  predicate IsEmptyCode(code: string) {
    code == "" || code == "0x"
  }

  /** Prefix `0x` unless already present. */
  function With0x(s: string): (r: string)
    ensures Text.StartsWith(r, "0x")
    ensures Text.StartsWith(s, "0x") ==> r == s
    ensures !Text.StartsWith(s, "0x") ==> r == "0x" + s
  {
    if Text.StartsWith(s, "0x") then s else "0x" + s
  }

  /** The combine loop over the first `n` zipped rows, written as the
      source's loop: each row is skipped or normalised and appended. */
  function Combine(addresses: seq<string>, codes: seq<string>, n: nat): (r: seq<Contract>)
    requires n <= |addresses| && n <= |codes|
    ensures |r| <= n
    ensures forall k :: 0 <= k < |r| ==>
      Text.StartsWith(r[k].address, "0x") && Text.StartsWith(r[k].code, "0x")
    decreases n
  {
    if n == 0 then []
    else
      var before := Combine(addresses, codes, n - 1);
      if IsEmptyCode(codes[n - 1]) then before
      else before + [Contract(With0x(addresses[n - 1]), With0x(codes[n - 1]))]
  }

  /** The row positions among the first `n` that survive the skip. */
  function KeptRows(codes: seq<string>, n: nat): (idx: seq<nat>)
    requires n <= |codes|
    ensures forall k :: 0 <= k < |idx| ==> idx[k] < n
    decreases n
  {
    if n == 0 then []
    else if IsEmptyCode(codes[n - 1]) then KeptRows(codes, n - 1)
    else KeptRows(codes, n - 1) + [n - 1]
  }

  /** The kept positions are increasing, and a position is kept exactly
      when its code is not empty. */
  lemma {:induction false} KeptRowsSpec(codes: seq<string>, n: nat)
    requires n <= |codes|
    ensures forall k :: 0 <= k < |KeptRows(codes, n)| ==> !IsEmptyCode(codes[KeptRows(codes, n)[k]])
    ensures forall k, l :: 0 <= k < l < |KeptRows(codes, n)| ==> KeptRows(codes, n)[k] < KeptRows(codes, n)[l]
    ensures forall i :: 0 <= i < n ==> (i in KeptRows(codes, n) <==> !IsEmptyCode(codes[i]))
    decreases n
  {
    if n > 0 {
      KeptRowsSpec(codes, n - 1);
    }
  }

  /** The combined rows are exactly the kept positions, in order, each
      normalised: an order-preserving subsequence of the zipped columns. */
  lemma {:induction false} CombineIsKeptRows(addresses: seq<string>, codes: seq<string>, n: nat)
    requires n <= |addresses| && n <= |codes|
    ensures |Combine(addresses, codes, n)| == |KeptRows(codes, n)|
    ensures forall k :: 0 <= k < |KeptRows(codes, n)| ==>
      var i := KeptRows(codes, n)[k];
      Combine(addresses, codes, n)[k] == Contract(With0x(addresses[i]), With0x(codes[i]))
    decreases n
  {
    if n > 0 {
      CombineIsKeptRows(addresses, codes, n - 1);
    }
  }

  /** The number of rows combined: the shorter column's length, as `zip` stops there. */
  function Min(a: nat, b: nat): nat {
    if a <= b then a else b
  }

  /** `extract_contracts_from_batch`. */
  function ExtractContracts(b: Batch): (r: Result<seq<Contract>, string>)
    ensures ColumnByName(b, "contract_address").None? ==> r == Failure("Missing contract_address column")
    ensures ColumnByName(b, "contract_address").Some? && ColumnByName(b, "code").None? ==>
      r == Failure("Missing code column")
    ensures r.Success? <==>
      && ColumnByName(b, "contract_address").Some? && ColumnByName(b, "code").Some?
      && AddressTexts(ColumnByName(b, "contract_address").value).Some?
      && CodeTexts(ColumnByName(b, "code").value).Some?
    ensures r.Success? ==>
      var addresses := AddressTexts(ColumnByName(b, "contract_address").value).value;
      var codes := CodeTexts(ColumnByName(b, "code").value).value;
      var kept := KeptRows(codes, Min(|addresses|, |codes|));
      && |r.value| == |kept|
      && forall k :: 0 <= k < |kept| ==>
           r.value[k] == Contract(With0x(addresses[kept[k]]), With0x(codes[kept[k]]))
    ensures r.Success? ==> forall k :: 0 <= k < |r.value| ==>
      Text.StartsWith(r.value[k].address, "0x") && Text.StartsWith(r.value[k].code, "0x")
    ensures r.Success? ==> forall k :: 0 <= k < |r.value| ==> !IsEmptyCode(r.value[k].code)
  {
    match ColumnByName(b, "contract_address")
    case None => Failure("Missing contract_address column")
    case Some(addressColumn) =>
      match ColumnByName(b, "code")
      case None => Failure("Missing code column")
      case Some(codeColumn) =>
        match AddressTexts(addressColumn)
        case None => Failure("Unsupported address column type: " + TypeName(addressColumn))
        case Some(addresses) =>
          match CodeTexts(codeColumn)
          case None => Failure("Unsupported code column type: " + TypeName(codeColumn))
          case Some(codes) =>
            var n := Min(|addresses|, |codes|);
            var rows := Combine(addresses, codes, n);
            CombineIsKeptRows(addresses, codes, n);
            KeptRowsSpec(codes, n);
            Success(rows)
  }

  /** The column-kind errors, with the address column checked first. */
  lemma UnsupportedKindsAreErrors(b: Batch)
    requires ColumnByName(b, "contract_address").Some? && ColumnByName(b, "code").Some?
    ensures ColumnByName(b, "contract_address").value.Other? ==>
      ExtractContracts(b) == Failure("Unsupported address column type: "
                                     + ColumnByName(b, "contract_address").value.typeName)
    ensures (!ColumnByName(b, "contract_address").value.Other?
             && (ColumnByName(b, "code").value.Other? || ColumnByName(b, "code").value.FixedSizeBinary?)) ==>
      ExtractContracts(b) == Failure("Unsupported code column type: " + TypeName(ColumnByName(b, "code").value))
  {
  }

  /** A row with an empty binary code renders as "" and is dropped. */
  lemma EmptyBinaryCodeDropped(addresses: seq<string>, blobs: seq<seq<byte>>, n: nat, i: nat)
    requires n <= |addresses| && n <= |blobs| && i < n && blobs[i] == []
    ensures i !in KeptRows(EncodeAll(blobs), n)
  {
    KeptRowsSpec(EncodeAll(blobs), n);
    assert Hex.Encode(blobs[i]) == "";
  }

  /** A binary code survives as `0x` + lowercase hex, and stripping that
      `0x` and hex-decoding gives the original bytes back. */
  lemma BinaryCodeRoundTrip(blob: seq<byte>)
    requires blob != []
    ensures !IsEmptyCode(Hex.Encode(blob))
    ensures With0x(Hex.Encode(blob)) == "0x" + Hex.Encode(blob)
    ensures Hex.Decode(Text.StripOne0x(With0x(Hex.Encode(blob)))) == Success(blob)
  {
    var s := Hex.Encode(blob);
    Hex.EncodeHasNo0x(blob);
    assert Text.StripPrefixOnce("0x" + s, "0x") == s by {
      assert ("0x" + s)[..2] == "0x";
    }
    Hex.DecodeEncode(blob);
  }
}
