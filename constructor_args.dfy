/** Turning a loaded contract plus the user's constructor inputs into the
    init code handed to the deterministic-deployment factory: the ABI entry
    types, the per-parameter conversion of the typed text (array splitting,
    byte-string hex conversion), the readiness gate and the input hint. */
module ConstructorArgs {
  import opened Wrappers
  import opened JsStrings
  import opened JsObject

  /** One declared parameter of an ABI entry. */
  datatype AbiParameter = AbiParameter(internalType: string, name: string, abiType: string)

  /** One entry of a contract's ABI; `kind` is its `type` tag ("constructor",
      "function", "event", ...). An absent `inputs` list is the empty one. */
  datatype AbiEntry = AbiEntry(kind: string, name: string, inputs: seq<AbiParameter>)

  /** The parts of a compiled-contract artifact the deployer reads: the ABI and
      `data.bytecode.object`, the object code as hex text without `0x`. */
  datatype CompiledContract = CompiledContract(abi: seq<AbiEntry>, bytecode: string)

  /** What the form records for one constructor parameter. */
  datatype InputField = InputField(abiType: string, value: string)

  /** The form's state: parameter name to its typed input, in key order. */
  type Inputs = Object<InputField>

  /** An argument as handed to the ABI encoder: one string, or a list of them. */
  datatype Params = Single(text: string) | Many(items: seq<string>)

  datatype EncodedArg = EncodedArg(abiType: string, params: Params)

  /** `web3.utils.asciiToHex`, a library function this model leaves uninterpreted. */
  type AsciiToHex = string -> string

  /** `web3.eth.abi.encodeParameters(types, values)`: the contract ABI encoding
      as `0x`-prefixed hex text, or None when the library throws (a value it
      cannot coerce to its type). Left uninterpreted. */
  type AbiEncoder = (seq<string>, seq<Params>) -> Option<string>

  // ---------------------------------------------------------------------------
  // The input hint

  const ArrayHint: string := "- Arguments separated with comma"

  /** The hint shown next to a parameter: the array hint exactly for types
      mentioning `[]`, nothing otherwise. */
  function GetHint(internalType: string): (h: string)
    ensures h != "" <==> Includes(internalType, "[]")
    ensures h == "" || h == ArrayHint
  {
    if Includes(internalType, "[]") then ArrayHint else ""
  }

  // ---------------------------------------------------------------------------
  // Array arguments

  function TrimEach(parts: seq<string>): (r: seq<string>)
    ensures |r| == |parts|
    ensures forall i :: 0 <= i < |r| ==> r[i] == Trim(parts[i])
  {
    seq(|parts|, i requires 0 <= i < |parts| => Trim(parts[i]))
  }

  /** `str.split(',').map(s => s.trim())`: one trimmed, comma-free piece per
      comma-separated field, so always one more piece than there are commas. */
  function Arrayify(s: string): (r: seq<string>)
    ensures |r| == Count(s, ',') + 1
    ensures forall i :: 0 <= i < |r| ==> IsTrimmed(r[i]) && ',' !in r[i]
  {
    var parts := Split(s, ',');
    var r := TrimEach(parts);
    assert forall i :: 0 <= i < |r| ==> ',' !in r[i] by {
      forall i | 0 <= i < |r| ensures ',' !in r[i] {
        TrimKeepsAbsent(parts[i], ',');
      }
    }
    r
  }

  /** An empty text is one empty element, not an empty list. */
  lemma ArrayifyEmpty()
    ensures Arrayify("") == [""]
  {
    assert Trim("") == "";
  }

  /** Each piece of the result is the trimmed text between consecutive commas. */
  lemma ArrayifyPieces(s: string)
    ensures forall i :: 0 <= i < |Arrayify(s)| ==> Arrayify(s)[i] == Trim(Split(s, ',')[i])
  {
  }

  /** Writing trimmed, comma-free items separated by commas, with any white
      space around each, reads back as those items. */
  lemma ArrayifyJoin(items: seq<string>, pads: seq<(string, string)>)
    requires |items| >= 1 && |pads| == |items|
    requires forall i :: 0 <= i < |items| ==> IsTrimmed(items[i]) && ',' !in items[i]
    requires forall i :: 0 <= i < |pads| ==> AllWhite(pads[i].0) && AllWhite(pads[i].1)
    ensures Arrayify(Join(Padded(items, pads), ',')) == items
  {
    var fields := Padded(items, pads);
    assert forall i :: 0 <= i < |fields| ==> ',' !in fields[i] by {
      forall i | 0 <= i < |fields| ensures ',' !in fields[i] {
        assert ',' !in pads[i].0 && ',' !in pads[i].1 by {
          WhiteHasNoComma(pads[i].0);
          WhiteHasNoComma(pads[i].1);
        }
      }
    }
    SplitJoin(fields, ',');
    forall i | 0 <= i < |items| ensures Trim(fields[i]) == items[i] {
      TrimStrips(pads[i].0, items[i], pads[i].1);
    }
  }

  /** Helper for `ArrayifyJoin`: the fields a user might type, each item
      wrapped in its own white-space padding. */
  function Padded(items: seq<string>, pads: seq<(string, string)>): (r: seq<string>)
    requires |pads| == |items|
    ensures |r| == |items| && forall i :: 0 <= i < |r| ==> r[i] == pads[i].0 + items[i] + pads[i].1
  {
    seq(|items|, i requires 0 <= i < |items| => pads[i].0 + items[i] + pads[i].1)
  }

  lemma WhiteHasNoComma(s: string)
    requires AllWhite(s)
    ensures ',' !in s
  {
  }

  // ---------------------------------------------------------------------------
  // Per-parameter conversion

  /** `encodeBytes`: hex-convert every element of a list, or the single value. */
  function EncodeBytes(params: Params, toHex: AsciiToHex): (r: Params)
    ensures r.Many? <==> params.Many?
    ensures params.Many? ==> |r.items| == |params.items| &&
                             forall i :: 0 <= i < |r.items| ==> r.items[i] == toHex(params.items[i])
    ensures params.Single? ==> r.text == toHex(params.text)
  {
    match params
    case Many(items) => Many(seq(|items|, i requires 0 <= i < |items| => toHex(items[i])))
    case Single(text) => Single(toHex(text))
  }

  /** The argument built from one form entry: the type is kept; the text is
      split into a list when the type mentions `[]`; each resulting string is
      hex-converted when the type mentions `bytes`, and left as typed
      otherwise. */
  function EncodeParam(f: InputField, toHex: AsciiToHex): (a: EncodedArg)
    ensures a.abiType == f.abiType
    ensures a.params.Many? <==> Includes(f.abiType, "[]")
    ensures a.params.Many? ==>
      |a.params.items| == Count(f.value, ',') + 1 &&
      forall i :: 0 <= i < |a.params.items| ==>
        a.params.items[i] == (if Includes(f.abiType, "bytes") then toHex(Arrayify(f.value)[i]) else Arrayify(f.value)[i])
    ensures a.params.Single? ==>
      a.params.text == (if Includes(f.abiType, "bytes") then toHex(f.value) else f.value)
  {
    var isArray := IndexOf(f.abiType, "[]") != -1;
    var params := if isArray then Many(Arrayify(f.value)) else Single(f.value);
    if IndexOf(f.abiType, "bytes") != -1 then EncodedArg(f.abiType, EncodeBytes(params, toHex))
    else EncodedArg(f.abiType, params)
  }

  /** A type mentioning neither `[]` nor `bytes` passes the text through as typed. */
  lemma PlainPassesThrough(f: InputField, toHex: AsciiToHex)
    requires !Includes(f.abiType, "[]") && !Includes(f.abiType, "bytes")
    ensures EncodeParam(f, toHex) == EncodedArg(f.abiType, Single(f.value))
  {
  }

  /** The arguments in `Object.keys` order of the form state, one per entry. */
  function EncodeAll(m: Inputs, toHex: AsciiToHex): (args: seq<EncodedArg>)
    ensures |args| == |m|
    ensures forall i :: 0 <= i < |m| ==> args[i] == EncodeParam(m[i].1, toHex)
  {
    if m == [] then [] else [EncodeParam(m[0].1, toHex)] + EncodeAll(m[1..], toHex)
  }

  function Types(args: seq<EncodedArg>): seq<string> {
    seq(|args|, i requires 0 <= i < |args| => args[i].abiType)
  }

  function Values(args: seq<EncodedArg>): seq<Params> {
    seq(|args|, i requires 0 <= i < |args| => args[i].params)
  }

  /** The type list and the value list handed to the encoder are index-aligned
      with the form state's keys, in the order those keys were first edited. */
  lemma TypesValuesAligned(m: Inputs, toHex: AsciiToHex)
    ensures var args := EncodeAll(m, toHex);
      |Types(args)| == |Values(args)| == |Keys(m)| == |m| &&
      forall i :: 0 <= i < |m| ==>
        Keys(m)[i] == m[i].0 &&
        Types(args)[i] == m[i].1.abiType &&
        Values(args)[i] == EncodeParam(m[i].1, toHex).params
  {
  }

  /** The arguments follow the order in which fields were first edited, not the
      order the constructor declares them in: the first edit of a field puts
      its argument after all the others, wherever it is declared. */
  lemma FirstEditGoesLast(m: Inputs, param: AbiParameter, value: string, toHex: AsciiToHex)
    requires param.name !in Keys(m)
    ensures var f := InputField(param.abiType, value);
      EncodeAll(Put(m, param.name, f), toHex) == EncodeAll(m, toHex) + [EncodeParam(f, toHex)]
  {
    var f := InputField(param.abiType, value);
    AppendNew(m, param.name, f);
    EncodeAllAppend(m, param.name, f, toHex);
  }

  lemma AppendNew(m: Inputs, k: string, f: InputField)
    requires k !in Keys(m)
    ensures Put(m, k, f) == m + [(k, f)]
  {
  }

  lemma EncodeAllAppend(m: Inputs, k: string, f: InputField, toHex: AsciiToHex)
    ensures EncodeAll(m + [(k, f)], toHex) == EncodeAll(m, toHex) + [EncodeParam(f, toHex)]
  {
    var m' := m + [(k, f)];
    assert forall i :: 0 <= i < |m| ==> m'[i] == m[i];
  }

  // ---------------------------------------------------------------------------
  // The deployment payload

  /** `s.substring(2)`. */
  function Substring2(s: string): (r: string)
    ensures |s| >= 2 ==> s == s[..2] + r
    ensures |s| < 2 ==> r == ""
  {
    if |s| >= 2 then s[2..] else ""
  }

  /** The init code sent to the factory: `0x`, the contract's object code, then
      the encoding of the form's arguments with its own `0x` dropped. None when
      the encoder throws. */
  function InitCode(c: CompiledContract, m: Inputs, toHex: AsciiToHex, encode: AbiEncoder): (r: Option<string>)
    ensures var args := EncodeAll(m, toHex);
      r.None? <==> encode(Types(args), Values(args)).None?
    ensures r.Some? ==>
      |r.value| >= 2 + |c.bytecode| && r.value[..2] == "0x" && r.value[2..2 + |c.bytecode|] == c.bytecode
  {
    var args := EncodeAll(m, toHex);
    match encode(Types(args), Values(args))
    case None => None
    case Some(encoded) => Some("0x" + c.bytecode + Substring2(encoded))
  }

  /** When the encoder answers `0x` followed by hex `h`, the init code is the
      object code followed by `h`. */
  lemma InitCodeAppendsArguments(c: CompiledContract, m: Inputs, toHex: AsciiToHex, encode: AbiEncoder, h: string)
    requires var args := EncodeAll(m, toHex); encode(Types(args), Values(args)) == Some("0x" + h)
    ensures InitCode(c, m, toHex, encode) == Some("0x" + c.bytecode + h)
  {
    assert ("0x" + h)[2..] == h;
  }

  /** With no form entries the encoder is asked for an empty argument list, and
      when it answers the empty encoding the init code is the object code
      alone. */
  lemma InitCodeWithoutArguments(c: CompiledContract, toHex: AsciiToHex, encode: AbiEncoder)
    requires encode([], []) == Some("0x")
    ensures InitCode(c, [], toHex, encode) == Some("0x" + c.bytecode)
  {
    assert EncodeAll([], toHex) == [];
    assert Types([]) == [] && Values([]) == [];
    assert "0x" + c.bytecode + "" == "0x" + c.bytecode;
  }

  // ---------------------------------------------------------------------------
  // Finding the constructor

  /** `abi.find(e => e.type === 'constructor')`. */
  function FindConstructor(abi: seq<AbiEntry>): (r: Option<AbiEntry>)
    ensures r.None? <==> forall i :: 0 <= i < |abi| ==> abi[i].kind != "constructor"
    ensures r.Some? ==> exists i :: 0 <= i < |abi| && abi[i] == r.value && r.value.kind == "constructor" &&
                                   forall j :: 0 <= j < i ==> abi[j].kind != "constructor"
  {
    if abi == [] then None
    else if abi[0].kind == "constructor" then Some(abi[0])
    else
      var r := FindConstructor(abi[1..]);
      assert forall i :: 1 <= i < |abi| ==> abi[i] == abi[1..][i - 1];
      r
  }

  // ---------------------------------------------------------------------------
  // The readiness gate

  /** `canDeploy()`: with a loaded constructor, the form must hold at least one
      entry, exactly as many entries as the constructor declares, and no empty
      value; the salt is not looked at. Without one, only a non-empty salt is
      needed. */
  function CanDeploy(ctor: Option<AbiEntry>, m: Inputs, salt: string): (r: bool)
    ensures ctor.None? ==> (r <==> salt != "")
    ensures ctor.Some? && r ==> 0 < |m| == |ctor.value.inputs|
  {
    match ctor
    case Some(c) =>
      var filled := seq(|m|, i requires 0 <= i < |m| => m[i].1.value != "");
      if |filled| == 0 || |filled| != |c.inputs| then false
      else forall i :: 0 <= i < |filled| ==> filled[i]
    case None => salt != ""
  }

  lemma CanDeployHolds(c: AbiEntry, m: Inputs, salt: string)
    ensures CanDeploy(Some(c), m, salt) <==>
      0 < |m| == |c.inputs| && forall j :: 0 <= j < |m| ==> m[j].1.value != ""
  {
    var filled := seq(|m|, i requires 0 <= i < |m| => m[i].1.value != "");
    assert forall j :: 0 <= j < |m| ==> (filled[j] <==> m[j].1.value != "");
  }

  /** With a loaded constructor the salt does not matter, even an empty one. */
  lemma CanDeployIgnoresSalt(c: AbiEntry, m: Inputs, salt1: string, salt2: string)
    ensures CanDeploy(Some(c), m, salt1) == CanDeploy(Some(c), m, salt2)
  {
  }

  predicate DistinctNames(ps: seq<AbiParameter>) {
    forall i, j :: 0 <= i < j < |ps| ==> ps[i].name != ps[j].name
  }

  function Names(ps: seq<AbiParameter>): set<string> {
    set i | 0 <= i < |ps| :: ps[i].name
  }

  function KeySet(m: Inputs): set<string> {
    set i | 0 <= i < |m| :: m[i].0
  }

  /** Property `name` is present with a non-empty value. */
  predicate Filled(m: Inputs, name: string) {
    Lookup(m, name).Some? && Lookup(m, name).value.value != ""
  }

  /** When every key of the form is a declared name and the names are distinct,
      the gate opens exactly when every declared parameter has a non-empty
      value (and there is at least one). */
  lemma CanDeployIffComplete(c: AbiEntry, m: Inputs, salt: string)
    requires UniqueKeys(m) && DistinctNames(c.inputs)
    requires KeySet(m) <= Names(c.inputs)
    ensures CanDeploy(Some(c), m, salt) <==>
      |c.inputs| > 0 && forall i :: 0 <= i < |c.inputs| ==> Filled(m, c.inputs[i].name)
  {
    CanDeployHolds(c, m, salt);
    KeySetSize(m);
    NamesSize(c.inputs);
    if CanDeploy(Some(c), m, salt) {
      GateMeansComplete(c.inputs, m);
    }
    if |c.inputs| > 0 && forall i :: 0 <= i < |c.inputs| ==> Filled(m, c.inputs[i].name) {
      CompleteMeansGate(c.inputs, m);
    }
  }

  lemma GateMeansComplete(ps: seq<AbiParameter>, m: Inputs)
    requires UniqueKeys(m) && KeySet(m) <= Names(ps)
    requires |KeySet(m)| == |m| == |ps| == |Names(ps)|
    requires forall j :: 0 <= j < |m| ==> m[j].1.value != ""
    ensures forall i :: 0 <= i < |ps| ==> Filled(m, ps[i].name)
  {
    SubsetSameSize(KeySet(m), Names(ps));
    forall i | 0 <= i < |ps| ensures Filled(m, ps[i].name) {
      assert ps[i].name in KeySet(m);
      var j :| 0 <= j < |m| && m[j].0 == ps[i].name;
      FilledAt(m, j);
    }
  }

  lemma CompleteMeansGate(ps: seq<AbiParameter>, m: Inputs)
    requires UniqueKeys(m) && KeySet(m) <= Names(ps)
    requires |KeySet(m)| == |m| && |ps| == |Names(ps)|
    requires forall i :: 0 <= i < |ps| ==> Filled(m, ps[i].name)
    ensures |m| == |ps|
    ensures forall j :: 0 <= j < |m| ==> m[j].1.value != ""
  {
    forall n | n in Names(ps) ensures n in KeySet(m) {
      var i :| 0 <= i < |ps| && ps[i].name == n;
      FilledIsKey(m, n);
    }
    assert KeySet(m) == Names(ps);
    forall j | 0 <= j < |m| ensures m[j].1.value != "" {
      assert m[j].0 in Names(ps);
      var i :| 0 <= i < |ps| && ps[i].name == m[j].0;
      FilledAt(m, j);
    }
  }

  lemma FilledIsKey(m: Inputs, n: string)
    requires Filled(m, n)
    ensures n in KeySet(m)
  {
    var j :| 0 <= j < |m| && Keys(m)[j] == n;
    assert m[j].0 == n;
  }

  /** Two parameters under one name (unnamed parameters all have the empty
      name) share one form entry, so the gate never opens. */
  lemma SharedNameNeverReady(c: AbiEntry, m: Inputs, salt: string, i: nat, j: nat)
    requires UniqueKeys(m)
    requires KeySet(m) <= Names(c.inputs)
    requires i < j < |c.inputs| && c.inputs[i].name == c.inputs[j].name
    ensures !CanDeploy(Some(c), m, salt)
  {
    KeySetSize(m);
    SubsetSize(KeySet(m), Names(c.inputs));
    NamesSmaller(c.inputs, i, j);
  }

  /** Entries left over from another contract can open the gate although none
      of the loaded constructor's parameters has a value. */
  lemma StaleInputsCanOpenGate()
    ensures var c := AbiEntry("constructor", "", [AbiParameter("uint256", "amount", "uint256")]);
      var stale := [("owner", InputField("address", "0x01"))];
      CanDeploy(Some(c), stale, "") && !Filled(stale, "amount")
  {
  }

  lemma FilledAt(m: Inputs, j: nat)
    requires UniqueKeys(m) && j < |m|
    ensures Filled(m, m[j].0) <==> m[j].1.value != ""
  {
    KeyIndexAt(m, m[j].0, j);
  }

  lemma KeySetSize(m: Inputs)
    requires UniqueKeys(m)
    ensures |KeySet(m)| == |m|
  {
    if m != [] {
      KeySetSize(m[1..]);
      assert KeySet(m) == {m[0].0} + KeySet(m[1..]);
      assert m[0].0 !in KeySet(m[1..]);
    }
  }

  lemma NamesSize(ps: seq<AbiParameter>)
    requires DistinctNames(ps)
    ensures |Names(ps)| == |ps|
  {
    if ps != [] {
      NamesSize(ps[1..]);
      assert Names(ps) == {ps[0].name} + Names(ps[1..]);
      assert ps[0].name !in Names(ps[1..]);
    }
  }

  /** A repeated name makes the name set smaller than the parameter list. */
  lemma NamesSmaller(ps: seq<AbiParameter>, i: nat, j: nat)
    requires i < j < |ps| && ps[i].name == ps[j].name
    ensures |Names(ps)| < |ps|
  {
    if i == 0 {
      NamesAtMost(ps[1..]);
      assert Names(ps) == Names(ps[1..]) by {
        assert ps[0].name == ps[1..][j - 1].name;
      }
    } else {
      NamesSmaller(ps[1..], i - 1, j - 1);
      assert Names(ps) == {ps[0].name} + Names(ps[1..]);
    }
  }

  lemma NamesAtMost(ps: seq<AbiParameter>)
    ensures |Names(ps)| <= |ps|
  {
    if ps != [] {
      NamesAtMost(ps[1..]);
      assert Names(ps) == {ps[0].name} + Names(ps[1..]);
    }
  }

  lemma SubsetSize<T>(a: set<T>, b: set<T>)
    requires a <= b
    ensures |a| <= |b|
  {
    if a != {} {
      var x :| x in a;
      SubsetSize(a - {x}, b - {x});
    }
  }

  lemma SubsetSameSize<T>(a: set<T>, b: set<T>)
    requires a <= b && |a| == |b|
    ensures a == b
  {
    if a != b {
      assert exists y :: y in b && y !in a;
      var x :| x in b && x !in a;
      SubsetSize(a, b - {x});
    }
  }
}
