# Deterministic contract deployer — Dafny model

The system is a Remix IDE plugin (one React component, `src/App.tsx`) that
deploys a compiled contract through a CREATE2 factory at
`0x56434E34E7771aa9680d09220Fe5d4D5c305323a`. The user loads a compiled
artifact, types the constructor arguments, enters or generates a salt,
picks a network and presses deploy. The component then:

1. encodes the arguments;
2. sends `deploy(initCode, salt)` to the factory;
3. asks the factory for `getAddress(initCode, salt)`;
4. records the address in a session history.

This project models that logic in Dafny and proves properties of it.

- `wrappers.dfy` (`Wrappers`): `Option`, standing for `null`/`undefined`.
- `js_strings.dfy` (`JsStrings`): the JavaScript string built-ins the
  component relies on. These are `indexOf`/`includes`, `split` on one
  character, and `trim` with ECMAScript's white-space set.
- `js_numbers.dfy` (`JsNumbers`): `parseInt` without a radix and
  `toString(radix)` for radix 10 and 16.
- `js_object.dfy` (`JsObject`): a string-keyed object as a list of
  properties in `Object.keys` order, with the spread update
  `{...m, [k]: v}`.
- `networks.dfy` (`Networks`): the five-entry network table and
  `networks.find`.
- `constructor_args.dfy` (`ConstructorArgs`): the pure helpers.
  - `getHint`, `arrayify`, `encodeBytes`.
  - The per-parameter conversion inside `handleVariableParsing`.
  - The init code `"0x" + bytecode + encoded.substring(2)`.
  - `abi.find` for the constructor.
  - The `canDeploy` readiness gate.
- `session.dfy` (`Deployer`): class `Session`. Its fields are the
  component's state hooks. Its methods are the handlers that update them.
  Answers of the wallet and the factory (a mined or failed transaction, a
  resolved address) are method parameters.

`web3.utils.asciiToHex` and `web3.eth.abi.encodeParameters` are library
functions. They enter as function-typed parameters (`AsciiToHex`,
`AbiEncoder`), so nothing is assumed about them. The encoder may throw, so
it returns `Option<string>`. The deploy date (`new Date()`), the provider's
`networkVersion`, the account list and the random digits of a generated
salt are parameters too.

Sharp edges of the code, which the model keeps as written:

- Readiness with a constructor does not require a salt. An empty salt is
  accepted by the readiness gate (`CanDeployIgnoresSalt`).
- Arguments are encoded in the order the form fields were first edited,
  not in declaration order (`FirstEditGoesLast`, `TypesValuesAligned`).
- A failing `getAddress` is not caught. The session is neither reset nor
  given an error, and `loading` stays true (`HandleVariableParsing`).
- Loading a new artifact keeps the previous constructor when the new one
  has no constructor with parameters. It never clears the form entries
  (`HandleParsing`). Left-over entries can open the readiness gate
  (`StaleInputsCanOpenGate`).
- Parameters that share a name share one form entry. Unnamed parameters
  all have the empty name. Such a constructor can never become ready
  as long as the form holds only declared names (`SharedNameNeverReady`);
  stale entries from an earlier artifact can still open the gate.
- The init code always starts with `0x`. With no form entries, the
  encoder is still called, with two empty lists (`InitCodeWithoutArguments`).

## Model

| member | source | states |
|---|---|---|
| `JsStrings.IndexOfFrom` | src/App.tsx:214 | the first occurrence of the pattern at or after a start index, or -1 exactly when there is none |
| `JsStrings.IndexOf` | src/App.tsx:217 | `indexOf` returns the least index where the pattern occurs; it returns -1 iff the pattern occurs nowhere |
| `JsStrings.Includes` | src/App.tsx:66 | `includes` holds iff the pattern occurs at some index |
| `JsStrings.Split` | src/App.tsx:72 | `split(',')` yields one more piece than there are commas, and no piece contains a comma |
| `JsStrings.JoinSplit` | src/App.tsx:72 | joining the pieces of `split` with the separator restores the input |
| `JsStrings.SplitJoin` | src/App.tsx:72 | splitting a join of separator-free pieces restores the pieces |
| `JsStrings.TrimStart` | src/App.tsx:72 | the result is a suffix of the input; what was removed is all white space; the result does not start with white space |
| `JsStrings.TrimEnd` | src/App.tsx:72 | the result is a prefix of the input; what was removed is all white space; the result does not end with white space |
| `JsStrings.Trim` | src/App.tsx:72 | `trim` returns a string no longer than its input with no white space at either end |
| `JsStrings.TrimIsPaddedFactor` | src/App.tsx:72 | what `trim` returns occurs in the input with only white space before and after it |
| `JsStrings.TrimStrips` | src/App.tsx:72 | trimming white space, then a trimmed core, then white space gives back exactly the core |
| `JsStrings.TrimIdempotent` | src/App.tsx:72 | trimming twice is trimming once |
| `JsStrings.TrimStartSkips` | src/App.tsx:128 | leading white space does not change what `trimStart` leaves |
| `JsNumbers.ToRadix` | src/App.tsx:92 | `toString(radix)` writes at least one digit of the radix, with no leading zero, and their value is the number |
| `JsNumbers.ParseInt` | src/App.tsx:128 | `parseInt` without a radix: skip white space, take a sign, pick radix 16 after `0x`, read the longest digit run, NaN when it is empty; its properties are stated by `ParseDigits`, `ParseNoDigit`, `ParseSkipsWhite` and `ParseNegative` |
| `JsNumbers.ParseUnsigned` | src/App.tsx:128 | the part of `parseInt` after the sign: radix detection and the digit run; see `ParseDigits` and `ParseHexDigits` |
| `JsNumbers.DigitPrefix` | src/App.tsx:128 | `parseInt` reads the longest prefix of digits: it is all digits and the next character, if any, is not one |
| `JsNumbers.ParseDigits` | src/App.tsx:128 | a non-empty run of decimal digits parses to its decimal value |
| `JsNumbers.ParseHexDigits` | src/App.tsx:128 | `0x` followed by a non-empty run of hex digits parses to its hex value |
| `JsNumbers.ParseDecimal` | src/App.tsx:128 | `parseInt` reads back the decimal text of any natural number |
| `JsNumbers.ParseHex` | src/App.tsx:128 | a general fact about `parseInt` (the component itself only parses decimal ids): it reads back `0x` followed by the hex text of any natural number |
| `JsNumbers.ParseSkipsWhite` | src/App.tsx:128 | white space in front of the text does not change what `parseInt` reads |
| `JsNumbers.ParseNegative` | src/App.tsx:128 | a minus sign before the decimal text of `n` is read as `-n` |
| `JsNumbers.ParseNoDigit` | src/App.tsx:128 | text that does not start with a digit, a sign or white space parses to NaN |
| `JsObject.Keys` | src/App.tsx:212 | `Object.keys(m)`: the property names, one per entry, in first-assignment order; `Put` states how an update changes it |
| `JsObject.KeyIndex` | src/App.tsx:213 | the position of the first property with a given key, or -1 iff the key is absent |
| `JsObject.Lookup` | src/App.tsx:213 | `m[k]` is undefined iff `k` is not a key; otherwise it is the value stored under `k` |
| `JsObject.Put` | src/App.tsx:193-199 | the spread update binds the key to the value and leaves every other key's value unchanged. A present key keeps the key list as it was; a new key is appended. Unique keys stay unique |
| `Networks.FindIn` | src/App.tsx:129 | `find` returns the first network whose decimal id equals the number, or none iff no entry matches |
| `Networks.Find` | src/App.tsx:129 | a network found in the table carries the id that was looked up |
| `Networks.ChainIdsAreHex` | src/App.tsx:14-40 | every table `chainId` is `0x` followed by the lower-case hex of its `chainDecimal` |
| `Networks.FindDecimal` | src/App.tsx:129 | each table entry is found under its own decimal id |
| `Networks.FindByEitherId` | src/App.tsx:127-133 | each entry is found under the number parsed from its decimal text, as the provider's `networkVersion` is; as a general fact, parsing its hex `chainId` finds it too |
| `Networks.DecimalsDistinct` | src/App.tsx:14-40 | no two table entries share a decimal id, so the lookup is unambiguous |
| `Networks.FindNaN` | src/App.tsx:128-132 | an unparsable id (NaN) matches no entry |
| `ConstructorArgs.GetHint` | src/App.tsx:65-70 | the hint is non-empty iff the type contains `[]`, and then it is the comma-separation hint |
| `ConstructorArgs.TrimEach` | src/App.tsx:72 | `.map(s => s.trim())` builds a new list of the same length whose element i is the i-th piece trimmed |
| `ConstructorArgs.Arrayify` | src/App.tsx:72 | `arrayify` gives comma count + 1 elements, each trimmed and comma-free |
| `ConstructorArgs.ArrayifyEmpty` | src/App.tsx:72 | the empty text becomes one empty element, not an empty list |
| `ConstructorArgs.ArrayifyPieces` | src/App.tsx:72 | element i is the trimmed i-th comma-separated field |
| `ConstructorArgs.ArrayifyJoin` | src/App.tsx:72 | trimmed comma-free items written comma-separated, padded with any white space, read back as those items |
| `ConstructorArgs.EncodeBytes` | src/App.tsx:75-80 | a list is hex-converted element-wise, keeping its length; a single value is converted once |
| `ConstructorArgs.EncodeParam` | src/App.tsx:212-228 | the type is kept. The value is a list iff the type contains `[]`; then it has one element per comma-separated field. Each string is hex-converted iff the type contains `bytes`, and is otherwise the typed text |
| `ConstructorArgs.PlainPassesThrough` | src/App.tsx:224-227 | a type with neither `[]` nor `bytes` passes the typed text through unchanged |
| `ConstructorArgs.EncodeAll` | src/App.tsx:212 | one encoded argument per form entry, in key order |
| `ConstructorArgs.Types` | src/App.tsx:234 | the `types` list handed to the encoder; its alignment with the form is stated by `TypesValuesAligned` |
| `ConstructorArgs.Values` | src/App.tsx:235 | the `values` list handed to the encoder; its alignment with the form is stated by `TypesValuesAligned` |
| `ConstructorArgs.TypesValuesAligned` | src/App.tsx:234-235 | `types` and `values` have the length of `Object.keys` and are index-aligned with the form's keys in insertion order |
| `ConstructorArgs.FirstEditGoesLast` | src/App.tsx:192-200 | the first edit of a field appends its encoded argument after all the others, whatever its declared position |
| `ConstructorArgs.Substring2` | src/App.tsx:237 | `substring(2)` drops the first two characters, and gives the empty string for shorter text |
| `ConstructorArgs.InitCode` | src/App.tsx:237-250 | none exactly when the encoder throws; otherwise the init code starts with `0x` followed by the object code |
| `ConstructorArgs.InitCodeAppendsArguments` | src/App.tsx:237-241 | when the encoder answers `0x` + h, the init code is `0x` + bytecode + h |
| `ConstructorArgs.InitCodeWithoutArguments` | src/App.tsx:237-241 | with no form entries and the empty encoding, the init code is `0x` + bytecode |
| `ConstructorArgs.FindConstructor` | src/App.tsx:116 | the first ABI entry tagged `constructor`, or none iff no entry has that tag |
| `ConstructorArgs.CanDeploy` | src/App.tsx:287-302 | without a constructor the gate is the salt being non-empty; with one, an open gate means the form has as many entries as declared inputs, and at least one |
| `ConstructorArgs.CanDeployHolds` | src/App.tsx:291-298 | with a constructor, the gate opens iff the form has at least one entry, exactly as many entries as declared inputs, and no empty value |
| `ConstructorArgs.CanDeployIgnoresSalt` | src/App.tsx:291-299 | with a constructor the salt, even an empty one, does not affect the gate |
| `ConstructorArgs.CanDeployIffComplete` | src/App.tsx:287-302 | suppose every form key is a declared name and the names are distinct. Then the gate opens iff there is a declared parameter and every declared parameter has a non-empty value |
| `ConstructorArgs.SharedNameNeverReady` | src/App.tsx:292-296 | two declared parameters with one name leave the gate closed for any form whose keys are declared names |
| `ConstructorArgs.StaleInputsCanOpenGate` | src/App.tsx:291-298 | entries under names the constructor does not declare can open the gate while its own parameter is empty |
| `Deployer.HexDigits` | src/App.tsx:92 | one lower-case hex digit per random number 0..15 |
| `Deployer.Sender` | src/App.tsx:251 | the `from` account is `accounts[0]`, absent for an empty account list; `StartDeploy` states how it reaches the transaction |
| `Deployer.Session.constructor` | src/App.tsx:97-109 | the initial state: nothing loaded, empty form and salt, not loading, network 0, no history, no error |
| `Deployer.Session.HandleParsing` | src/App.tsx:111-125 | clears the error. A parsed artifact becomes the contract. Its first constructor replaces the loaded one only if it has inputs. Form, salt, history and network are kept |
| `Deployer.Session.OnNetworkChange` | src/App.tsx:127-133 | the selection changes to the parsed id only if the table lists it, so a listed selection stays listed |
| `Deployer.Session.HandleCustomInput` | src/App.tsx:192-200 | writes `{type, value}` under the parameter's name. Every other entry is unchanged, and re-editing keeps the key list |
| `Deployer.Session.EnterSalt` | src/App.tsx:342 | the salt becomes the typed text |
| `Deployer.Session.GenerateRandomSalt` | src/App.tsx:282-285 | the salt becomes `0x` plus the fourteen drawn numbers written as hex digits |
| `Deployer.Session.DeployEnabled` | src/App.tsx:348 | the deploy button is enabled iff a contract is loaded and `canDeploy` holds; `CanDeployHolds` states when that is |
| `Deployer.Session.ResetState` | src/App.tsx:202-209 | clears the constructor, the contract, the form and the salt, and stops loading. The network is re-read from the provider without a table check. Error and history are kept |
| `Deployer.Session.FailAndReset` | src/App.tsx:273-279 | the shared `catch`: the error becomes the wallet's message only for code 4001, then the state is reset and history is kept |
| `Deployer.Session.StartDeploy` | src/App.tsx:211-251 | if the encoder throws, nothing is sent and nothing changes. Otherwise loading starts and `deploy` is sent to the factory with the init code, the current salt and the first account |
| `Deployer.Session.OnDeploySettled` | src/App.tsx:250-279 | once mined, `getAddress` is requested with the same init code and salt and the state is untouched. On failure the state is reset and history is kept. The error is set to the message only for code 4001 |
| `Deployer.Session.OnAddressResolved` | src/App.tsx:259-271 | resets the state. The history becomes `[record] + old history`, or the singleton when there was none. The error is kept |
| `Deployer.Session.HandleVariableParsing` | src/App.tsx:211-280 | the whole deploy flow. `deploy` and `getAddress` get the identical init code and salt. A submit failure resets without touching history. A resolution resets and prepends the record. A failed `getAddress` leaves the state loading and otherwise untouched |
| `Deployer.Session.HandleNetworkChange` | src/App.tsx:304-316 | the selection is set without a table check, and the listed chain id (if any) is requested. A refused switch resets the state, with the message shown for code 4001 |

## Left out

- Remix plugin I/O: file lookup and reading, terminal logging and the file
  events. `canParse` depends only on these, so it is not a field. Only the
  state effects of these calls are modelled; `HandleParsing` receives the
  parsed artifact, or None when reading or parsing throws.
- MetaMask provider setup: account requests, the `accountsChanged` and
  `networkChanged` listeners and their cleanup. The account list and the
  provider's `networkVersion` are parameters.
- The internals of `asciiToHex`, `encodeParameters` and `json.parse`. The
  first two are uninterpreted function parameters. For the third, the model
  receives the already-parsed artifact.
- The factory contract and its CREATE2 address derivation. The model
  records which calls are made and with what arguments. The returned
  address is a parameter, and no determinism is claimed for it.
- `Math.random`: the drawn digits 0..15 are a parameter of
  `GenerateRandomSalt`.
- JSX rendering, except the gate at line 348, which is the predicate
  `Session.DeployEnabled`.
- Re-entrant deploy clicks. Only one deployment flow at a time is
  modelled, and the component has no guard to model.
- A synchronous throw from `send`. The library encodes the call data,
  including the `bytes32` salt, when `send` is called, so a salt it cannot
  encode (the empty one, or non-hex text) would throw before the promise
  chain exists. `setLoading(true)` has already run by then and no `catch`
  resets it. The model has no such outcome: `HandleVariableParsing` knows
  only a mined transaction or a rejected promise.
- An artifact without `data.bytecode`. `CompiledContract` always carries
  object code, so the throw at the concatenation (line 241), which comes
  before `setLoading` and changes nothing, is not distinguished. Its effect
  is the same as the encoder throwing, which is modelled.
- `JsNumbers.ParseInt`: only the integer result is modelled. Huge inputs
  lose precision in JavaScript numbers, and `-0` is modelled as 0.
- `JsObject`: `Object.keys` lists integer-like keys first in numeric order.
  The model keeps insertion order for all keys. ABI parameter names are
  identifiers and never integer-like.
- `JsStrings`: a Dafny `string` is a sequence of Unicode scalar values, not
  of UTF-16 code units, so lengths differ for characters outside the Basic
  Multilingual Plane and lone surrogates cannot be written. The modelled
  results do not depend on this: `indexOf` is only compared with -1, `split`
  is on `','`, and every white-space character `trim` strips is in the Basic
  Multilingual Plane.
