/** The deployer component's state and the handlers that change it. Each
    React state hook becomes a field; each handler becomes a method whose
    contract gives the whole new state. Wallet and factory answers, which
    arrive asynchronously, are parameters of the method that handles them. */
module Deployer {
  import opened Wrappers
  import opened JsNumbers
  import opened JsObject
  import opened ConstructorArgs
  import Networks

  /** The deterministic-deployment factory every deployment goes through. */
  const FactoryAddress: string := "0x56434E34E7771aa9680d09220Fe5d4D5c305323a"

  /** The wallet error code for a request the user turned down. */
  const UserRejected: int := 4001

  /** One successful deployment: the address the factory reported, and when. */
  datatype DeploymentRecord = DeploymentRecord(address: string, deployedDate: int)

  /** An error raised by the wallet: its `code`, when it has one, and its message. */
  datatype WalletError = WalletError(code: Option<int>, message: string)

  /** The requests made to the factory contract. */
  datatype FactoryCall =
    | DeployTx(to: string, initCode: string, salt: string, from: Option<string>)
    | GetAddressCall(to: string, initCode: string, salt: string)

  /** How the `deploy` transaction ended. */
  datatype SubmitOutcome = Mined | SubmitFailed(err: WalletError)

  /** How the `getAddress` call ended. */
  datatype ResolveOutcome = Resolved(address: string) | ResolveFailed(err: WalletError)

  /** `accounts[0]`, `undefined` for an empty account list. */
  function Sender(accounts: seq<string>): Option<string> {
    if accounts == [] then None else Some(accounts[0])
  }

  /** `Math.floor(Math.random() * 16).toString(16)` per digit, joined. */
  function HexDigits(nibbles: seq<nat>): (r: string)
    requires forall i :: 0 <= i < |nibbles| ==> nibbles[i] < 16
    ensures |r| == |nibbles|
    ensures forall i :: 0 <= i < |r| ==> r[i] == ToRadix(nibbles[i], 16)[0]
  {
    seq(|nibbles|, i requires 0 <= i < |nibbles| => ToRadix(nibbles[i], 16)[0])
  }

  class Session {
    var constructorInput: Option<AbiEntry>
    var contract: Option<CompiledContract>
    var customInput: Inputs
    var salt: string
    var loading: bool
    var selectedNetwork: Number
    /** Past deployments, most recent first; `null` until the first one. */
    var history: Option<seq<DeploymentRecord>>
    var error: string

    ghost predicate Valid()
      reads this
    {
      UniqueKeys(customInput) &&
      (constructorInput.Some? ==>
         contract.Some? && constructorInput.value.kind == "constructor" && |constructorInput.value.inputs| > 0) &&
      (history.Some? ==> history.value != [])
    }

    /** The state `resetState` leaves behind, the network selection re-read
        from the provider's `networkVersion`. */
    ghost predicate IsReset(networkVersion: string)
      reads this
    {
      constructorInput == None && contract == None && customInput == [] &&
      salt == "" && !loading && selectedNetwork == ParseInt(networkVersion)
    }

    /** The initial values of the state hooks. */
    constructor ()
      ensures Valid()
      ensures constructorInput == None && contract == None && customInput == [] && salt == ""
      ensures !loading && selectedNetwork == Num(0) && history == None && error == ""
    {
      constructorInput := None;
      contract := None;
      customInput := [];
      salt := "";
      loading := false;
      selectedNetwork := Num(0);
      history := None;
      error := "";
    }

    /** The condition under which the network list and the deploy button are
        shown: a contract is loaded and `canDeploy()` holds. */
    predicate DeployEnabled()
      reads this
    {
      contract.Some? && CanDeploy(constructorInput, customInput, salt)
    }

    /** `handleParsing`: the error is cleared, then the current file is read and
        parsed (`loaded`, None when reading or parsing throws). A constructor
        with parameters replaces the loaded constructor; any other artifact
        leaves the old one, and the form entries, in place. */
    method HandleParsing(loaded: Option<CompiledContract>)
      requires Valid()
      modifies this
      ensures Valid()
      ensures error == ""
      ensures loaded.None? ==> contract == old(contract) && constructorInput == old(constructorInput)
      ensures loaded.Some? ==> contract == loaded
      ensures loaded.Some? ==>
        constructorInput ==
          match FindConstructor(loaded.value.abi)
          case Some(c) => if |c.inputs| > 0 then Some(c) else old(constructorInput)
          case None => old(constructorInput)
      ensures customInput == old(customInput) && salt == old(salt) && loading == old(loading)
      ensures selectedNetwork == old(selectedNetwork) && history == old(history)
    {
      error := "";
      if loaded.Some? {
        var found := FindConstructor(loaded.value.abi);
        if found.Some? && |found.value.inputs| > 0 {
          constructorInput := found;
        }
        contract := loaded;
      }
    }

    /** `onNetworkChange`: the selection moves to the parsed id only when the
        table lists it, so a listed selection stays listed. */
    method OnNetworkChange(networkDecimalId: string)
      requires Valid()
      modifies this`selectedNetwork
      ensures Valid()
      ensures var parsed := ParseInt(networkDecimalId);
        selectedNetwork == if Networks.Find(parsed).Some? then parsed else old(selectedNetwork)
      ensures Networks.Find(old(selectedNetwork)).Some? ==> Networks.Find(selectedNetwork).Some?
    {
      var parsed := ParseInt(networkDecimalId);
      var networkToChange := Networks.Find(parsed);
      if networkToChange.Some? {
        selectedNetwork := parsed;
      }
    }

    /** `handleCustomInput(param)` on an edit of that parameter's field: the
        entry under the parameter's name becomes its type and the new text;
        every other entry, and the order of the keys, is kept. */
    method HandleCustomInput(param: AbiParameter, value: string)
      requires Valid()
      modifies this`customInput
      ensures Valid()
      ensures customInput == Put(old(customInput), param.name, InputField(param.abiType, value))
      ensures Lookup(customInput, param.name) == Some(InputField(param.abiType, value))
      ensures forall k :: k != param.name ==> Lookup(customInput, k) == Lookup(old(customInput), k)
      ensures param.name in Keys(old(customInput)) ==> Keys(customInput) == Keys(old(customInput))
    {
      customInput := Put(customInput, param.name, InputField(param.abiType, value));
    }

    /** The salt field's `onChange`. */
    method EnterSalt(value: string)
      requires Valid()
      modifies this`salt
      ensures Valid() && salt == value
    {
      salt := value;
    }

    /** `generateRandomSalt`: `0x` and fourteen random hex digits, given here
        as the numbers 0..15 the random source drew. */
    method GenerateRandomSalt(nibbles: seq<nat>)
      requires Valid()
      requires |nibbles| == 14 && forall i :: 0 <= i < |nibbles| ==> nibbles[i] < 16
      modifies this`salt
      ensures Valid()
      ensures salt == "0x" + HexDigits(nibbles)
      ensures |salt| == 16 && forall i :: 2 <= i < |salt| ==> IsDigit(salt[i], 16)
    {
      salt := "0x" + HexDigits(nibbles);
    }

    /** `resetState`: the loaded contract, its constructor, the form and the
        salt are cleared, loading stops and the selection is re-read from the
        provider without a check against the table; the error and the history
        are kept. */
    method ResetState(networkVersion: string)
      requires Valid()
      modifies this
      ensures Valid()
      ensures IsReset(networkVersion)
      ensures error == old(error) && history == old(history)
    {
      constructorInput := None;
      contract := None;
      customInput := [];
      salt := "";
      loading := false;
      selectedNetwork := ParseInt(networkVersion);
    }

    /** The `catch` shared by the deploy flow and the network switch: the
        wallet's message becomes the error only for a user rejection, then the
        state is reset; the history is kept. */
    method FailAndReset(err: WalletError, networkVersion: string)
      requires Valid()
      modifies this
      ensures Valid()
      ensures IsReset(networkVersion) && history == old(history)
      ensures error == if err.code == Some(UserRejected) then err.message else old(error)
    {
      if err.code == Some(UserRejected) {
        error := err.message;
      }
      ResetState(networkVersion);
    }

    /** The synchronous start of `handleVariableParsing`: the arguments are
        encoded, appended to the object code, loading starts and the `deploy`
        transaction is sent with the salt in force. When the encoder throws,
        nothing changes and nothing is sent. */
    method StartDeploy(toHex: AsciiToHex, encode: AbiEncoder, accounts: seq<string>)
      returns (sent: Option<FactoryCall>)
      requires Valid() && contract.Some?
      modifies this`loading
      ensures Valid()
      ensures var code := InitCode(contract.value, customInput, toHex, encode);
        sent == if code.None? then None else Some(DeployTx(FactoryAddress, code.value, salt, Sender(accounts)))
      ensures loading == (sent.Some? || old(loading))
    {
      var code := InitCode(contract.value, customInput, toHex, encode);
      if code.None? {
        sent := None;
      } else {
        loading := true;
        sent := Some(DeployTx(FactoryAddress, code.value, salt, Sender(accounts)));
      }
    }

    /** The settling of the `deploy` transaction. Once mined, the address is
        asked for with the very init code and salt that were deployed, and the
        state is left alone. On failure the state is reset, the history is
        kept, and the error shows the wallet's message only for a user
        rejection. */
    method OnDeploySettled(sent: FactoryCall, outcome: SubmitOutcome, networkVersion: string)
      returns (next: Option<FactoryCall>)
      requires Valid() && sent.DeployTx?
      modifies this
      ensures Valid()
      ensures outcome.Mined? ==>
        next == Some(GetAddressCall(sent.to, sent.initCode, sent.salt)) && unchanged(this)
      ensures outcome.SubmitFailed? ==>
        next == None && IsReset(networkVersion) && history == old(history) &&
        error == if outcome.err.code == Some(UserRejected) then outcome.err.message else old(error)
    {
      match outcome
      case Mined =>
        next := Some(GetAddressCall(sent.to, sent.initCode, sent.salt));
      case SubmitFailed(err) =>
        next := None;
        FailAndReset(err, networkVersion);
    }

    /** The resolution of `getAddress`: the state is reset and a record of the
        address, dated `now`, goes in front of the history. */
    method OnAddressResolved(address: string, now: int, networkVersion: string)
      requires Valid()
      modifies this
      ensures Valid()
      ensures IsReset(networkVersion) && error == old(error)
      ensures history ==
        Some([DeploymentRecord(address, now)] + if old(history).Some? then old(history).value else [])
    {
      ResetState(networkVersion);
      var newAddress := DeploymentRecord(address, now);
      assert [newAddress] + [] == [newAddress];
      history := if history.Some? then Some([newAddress] + history.value) else Some([newAddress]);
    }

    /** `handleVariableParsing` from the click to the end of its promise chain,
        with the answers of the wallet and the factory as parameters. The same
        init code and salt go to `deploy` and to `getAddress`. A failed
        `getAddress` is not handled: the state stays as the click left it, still
        loading. */
    method HandleVariableParsing(toHex: AsciiToHex, encode: AbiEncoder, accounts: seq<string>,
                                 submit: SubmitOutcome, resolve: ResolveOutcome,
                                 now: int, networkVersion: string)
      returns (calls: seq<FactoryCall>)
      requires Valid() && contract.Some?
      modifies this
      ensures Valid()
      ensures var code := InitCode(old(contract).value, old(customInput), toHex, encode);
        (code.None? ==> calls == [] && unchanged(this)) &&
        (code.Some? ==>
           1 <= |calls| <= 2 &&
           calls[0] == DeployTx(FactoryAddress, code.value, old(salt), Sender(accounts)))
      ensures |calls| == 2 <==> |calls| > 0 && submit.Mined?
      ensures |calls| == 2 ==>
        calls[1] == GetAddressCall(FactoryAddress, calls[0].initCode, calls[0].salt)
      ensures |calls| == 1 ==>
        IsReset(networkVersion) && history == old(history) &&
        error == if submit.err.code == Some(UserRejected) then submit.err.message else old(error)
      ensures |calls| == 2 && resolve.Resolved? ==>
        IsReset(networkVersion) && error == old(error) &&
        history == Some([DeploymentRecord(resolve.address, now)] + if old(history).Some? then old(history).value else [])
      ensures |calls| == 2 && resolve.ResolveFailed? ==>
        loading && constructorInput == old(constructorInput) && contract == old(contract) &&
        customInput == old(customInput) && salt == old(salt) &&
        selectedNetwork == old(selectedNetwork) && history == old(history) && error == old(error)
    {
      var sent := StartDeploy(toHex, encode, accounts);
      if sent.None? {
        calls := [];
        return;
      }
      calls := [sent.value];
      var next := OnDeploySettled(sent.value, submit, networkVersion);
      if next.Some? {
        calls := calls + [next.value];
        if resolve.Resolved? {
          OnAddressResolved(resolve.address, now, networkVersion);
        }
      }
    }

    /** `handleNetworkChange`: the selection is set to the parsed id without a
        check against the table, and a switch to the listed chain id (absent for
        an unlisted id) is requested. If the wallet refuses, the state is reset,
        with the error message shown for a user rejection. */
    method HandleNetworkChange(value: string, switchError: Option<WalletError>, networkVersion: string)
      returns (requested: Option<string>)
      requires Valid()
      modifies this
      ensures Valid()
      ensures var net := Networks.Find(ParseInt(value));
        requested == if net.Some? then Some(net.value.chainId) else None
      ensures switchError.None? ==>
        selectedNetwork == ParseInt(value) &&
        constructorInput == old(constructorInput) && contract == old(contract) &&
        customInput == old(customInput) && salt == old(salt) && loading == old(loading) &&
        history == old(history) && error == old(error)
      ensures switchError.Some? ==>
        IsReset(networkVersion) && history == old(history) &&
        error == if switchError.value.code == Some(UserRejected) then switchError.value.message else old(error)
    {
      var parsed := ParseInt(value);
      selectedNetwork := parsed;
      var net := Networks.Find(parsed);
      requested := if net.Some? then Some(net.value.chainId) else None;
      if switchError.Some? {
        FailAndReset(switchError.value, networkVersion);
      }
    }
  }
}
