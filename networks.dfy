/** The static table of networks the deployer offers, and the lookup by
    decimal chain id that guards a change of the selected network. */
module Networks {
  import opened Wrappers
  import opened JsNumbers

  /** One selectable network: its chain id as the wallet wants it (hex text),
      the same id as a number, and a display name. */
  datatype Network = Network(chainId: string, chainDecimal: nat, name: string)

  const Table: seq<Network> := [
    Network("0x1", 1, "Ethereum Main Network (Mainnet)"),
    Network("0x3", 3, "Ropsten Test Network"),
    Network("0x4", 4, "Rinkeby Test Network"),
    Network("0x5", 5, "Goerli Test Network"),
    Network("0x2a", 42, "Kovan Test Network")
  ]

  /** `nets.find(n => n.chainDecimal === id)`: the first network whose decimal
      id equals `id`; NaN equals nothing. */
  function FindIn(nets: seq<Network>, id: Number): (r: Option<Network>)
    ensures r.None? <==> forall i :: 0 <= i < |nets| ==> id != Num(nets[i].chainDecimal)
    ensures r.Some? ==> exists i :: 0 <= i < |nets| && nets[i] == r.value && id == Num(r.value.chainDecimal) &&
                                   forall j :: 0 <= j < i ==> id != Num(nets[j].chainDecimal)
  {
    if nets == [] then None
    else if id == Num(nets[0].chainDecimal) then Some(nets[0])
    else
      var r := FindIn(nets[1..], id);
      assert forall i :: 1 <= i < |nets| ==> nets[i] == nets[1..][i - 1];
      r
  }

  function Find(id: Number): (r: Option<Network>)
    ensures r.Some? ==> r.value in Table && id == Num(r.value.chainDecimal)
    ensures r.None? <==> forall i :: 0 <= i < |Table| ==> id != Num(Table[i].chainDecimal)
  {
    FindIn(Table, id)
  }

  /** Every chain id in the table is `"0x"` followed by the lower-case hex
      digits of its decimal id, so both columns name the same chain. */
  lemma ChainIdsAreHex(i: nat)
    requires i < |Table|
    ensures Table[i].chainId == "0x" + ToRadix(Table[i].chainDecimal, 16)
  {
    if i == 4 {
      TwoA();
    } else {
      SingleHexDigit(Table[i].chainDecimal);
    }
  }

  lemma TwoA()
    ensures ToRadix(42, 16) == "2a"
  {
  }

  lemma SingleHexDigit(d: nat)
    requires 0 < d < 10
    ensures ToRadix(d, 16) == [DigitChars[d]]
  {
  }

  /** Each table entry is found under the number `parseInt` reads from either
      of its ids, the decimal one and the hex one. */
  lemma FindByEitherId(i: nat)
    requires i < |Table|
    ensures Find(ParseInt(ToRadix(Table[i].chainDecimal, 10))) == Some(Table[i])
    ensures Find(ParseInt(Table[i].chainId)) == Some(Table[i])
  {
    var d := Table[i].chainDecimal;
    ParseDecimal(d);
    ParseHex(d);
    ChainIdsAreHex(i);
    assert Table[i].chainId == "0x" + ToRadix(d, 16);
    FindDecimal(i);
  }

  /** Each entry is found under its own decimal id. */
  lemma FindDecimal(i: nat)
    requires i < |Table|
    ensures Find(Num(Table[i].chainDecimal)) == Some(Table[i])
  {
    DecimalsDistinct();
  }

  lemma DecimalsDistinct()
    ensures forall i, j :: 0 <= i < j < |Table| ==> Table[i].chainDecimal != Table[j].chainDecimal
  {
  }

  /** A NaN id is never in the table. */
  lemma FindNaN()
    ensures Find(NaN) == None
  {
  }
}
