# Contract discovery and contract explorer, modelled in Dafny

The scaffolding tool's generated web package holds the two pieces of logic
modelled here.

- **Contract discovery**, in `wagmi.config.ts`.
  - `findContractNames` lists the contract sources and keeps the `.sol` entries.
  - It scans each one with the global regular expression
    `contract\s+([a-zA-Z0-9_]+)\s+(?:is\s+[^{]+)?\s*\{` and records every
    `(fileName, contractName)` it finds.
  - `generateIncludePaths` turns each pair into `fileName/contractName.json`.
    It keeps the paths whose compiled artifact exists, in discovery order.
- **The contract explorer page**, in `explorer/page.tsx`.
  - It collects the ABI exports of the generated bindings by the key suffix `Abi`.
  - It lists the function items of the selected contract as read or write
    functions.
  - It keeps the argument fields in a map keyed `fn_index` and coerces them into
    call arguments (`prepareArgs`).
  - It records the outcome of a write transaction when it settles.
  - It renders results (`formatOutput`) and validates the address field
    (`isValidAddress`).

Layout:

- `wrappers.dfy`: `Option`.
- `text.dfy`: character classes and the JavaScript string operations used:
  `includes`, `startsWith`, `endsWith`, `replace` with a string pattern,
  `toLowerCase` and `join`.
- `decimal.dfy`: decimal numerals of naturals and integers, with their parser.
- `seqs.dfy`: concatenation of a sequence of sequences, and `find` by name.
- `contract_pattern.dfy`: the regular expression as a position-indexed matcher.
  - `MatchAt` computes the match at one position.
  - `Derives` is the pattern read as a language.
  - `MatchAtSound` and `MatchAtComplete` prove that the two agree.
  - `NextMatch` and `ScanFrom` model the repeated `exec` calls with `lastIndex`.
- `wagmi_config.dfy`: `findContractNames` and `generateIncludePaths` as methods
  with loops. Each is proved equal to a functional definition, and properties
  are proved about that definition.
- `abi.dfy`: ABI items, export collection and function parsing.
- `format_output.dfy`: result values and `formatOutput`.
- `address.dfy`: `isValidAddress`.
- `explorer.dfy`: the page state and its updates: input changes, argument
  preparation, the selection effect and the write-settlement effect.

The regular expression has at most one match at a given start position. A
matched text holds no `{` before its final `{`, and the captured name must be
followed by whitespace. The name is therefore the whole run of word characters,
and the match ends just past the first `{`. Backtracking order never decides
anything, so `MatchAt` computes that single match directly.

Two quirks of the pattern are kept:

- The pattern requires at least one whitespace character after the name, so
  `contract Foo{` is not found.
- There is no word boundary before `contract`, so `abstract contract Base {`
  is found, and so is `mycontract X {`.

## Model

| member | source | states |
|---|---|---|
| ContractPattern.MatchAtSound | templates/frontend/NEXT-FOUNDRY/my-eth-project/packages/web/wagmi.config.ts:29 | Whatever the matcher finds at `p` is a match of the pattern: `contract`, `\s+`, a word run captured as group 1, `\s+`, an optional `is\s+[^{]+`, `\s*`, `{`. The captured group and the match end are read off that split. |
| ContractPattern.MatchAtComplete | templates/frontend/NEXT-FOUNDRY/my-eth-project/packages/web/wagmi.config.ts:29 | Every way the pattern can match at `p` gives the match the matcher finds there, with the same group 1 and end. |
| ContractPattern.MatchAtExactly | templates/frontend/NEXT-FOUNDRY/my-eth-project/packages/web/wagmi.config.ts:29 | The pattern matches at `p` if and only if the matcher `MatchAt` finds a match there. |
| ContractPattern.MatchAtWellFormed | templates/frontend/NEXT-FOUNDRY/my-eth-project/packages/web/wagmi.config.ts:29-33 | A match found at `p` holds `contract` at `p`, then at least one whitespace, then a non-empty name of letters, digits and `_`, then whitespace. It ends just past the first `{` after `p`. |
| ContractPattern.NextMatch | templates/frontend/NEXT-FOUNDRY/my-eth-project/packages/web/wagmi.config.ts:32 | One `exec` from `lastIndex` returns the first position at or after it where the pattern matches. It returns null only when no later position matches. |
| ContractPattern.ScanFrom | templates/frontend/NEXT-FOUNDRY/my-eth-project/packages/web/wagmi.config.ts:32-38 | The repeated `exec` calls report only real matches, in textual order and without overlap. |
| ContractPattern.MatchesSound | templates/frontend/NEXT-FOUNDRY/my-eth-project/packages/web/wagmi.config.ts:29-33 | Every match reported for a text is the pattern's match at its start and is well formed. Consecutive matches do not overlap. |
| ContractPattern.ScanFromCovers | templates/frontend/NEXT-FOUNDRY/my-eth-project/packages/web/wagmi.config.ts:32-38 | No match is skipped: every position where the pattern matches is the start of a reported match or lies inside one. |
| ContractPattern.MatchesComplete | templates/frontend/NEXT-FOUNDRY/my-eth-project/packages/web/wagmi.config.ts:32-38 | The same statement for a whole text scanned from `lastIndex` 0. |
| ContractPattern.NoAttemptNoMatches | templates/frontend/NEXT-FOUNDRY/my-eth-project/packages/web/wagmi.config.ts:32 | A text where the pattern matches nowhere yields no matches. |
| ContractPattern.PlainDeclaration | templates/frontend/NEXT-FOUNDRY/my-eth-project/packages/web/wagmi.config.ts:29 | `contract N {` is matched with `N` as group 1 and the match ending just past the brace. |
| ContractPattern.InheritingDeclaration | templates/frontend/NEXT-FOUNDRY/my-eth-project/packages/web/wagmi.config.ts:29 | `contract N is B {` is matched with `N` as group 1, and the match ends just past the brace after `B`. |
| ContractPattern.NoSpaceBeforeBrace | templates/frontend/NEXT-FOUNDRY/my-eth-project/packages/web/wagmi.config.ts:29 | `contract Foo{` yields no match, because whitespace is required after the name. |
| ContractPattern.AbstractContract | templates/frontend/NEXT-FOUNDRY/my-eth-project/packages/web/wagmi.config.ts:29 | `abstract contract Base {` yields exactly `Base`, because no word boundary is required before `contract`. |
| ContractPattern.TwoDeclarationsExample | templates/frontend/NEXT-FOUNDRY/my-eth-project/packages/web/wagmi.config.ts:29-37 | `contract Foo {} contract Bar is Foo {}` yields exactly `Foo` then `Bar`. The base name `Foo` in the `is` clause is not reported. |
| WagmiConfig.SolidityFiles | templates/frontend/NEXT-FOUNDRY/my-eth-project/packages/web/wagmi.config.ts:21 | An entry is scanned if and only if it is in the listing and its name ends in `.sol`. |
| WagmiConfig.SolidityFilesAppend | templates/frontend/NEXT-FOUNDRY/my-eth-project/packages/web/wagmi.config.ts:21-23 | The `.sol` filter distributes over concatenation, so the scanned entries keep their listing order. |
| WagmiConfig.InfosOfNames | templates/frontend/NEXT-FOUNDRY/my-eth-project/packages/web/wagmi.config.ts:33-37 | The `i`-th recorded pair carries the file's name and group 1 of the `i`-th match. |
| WagmiConfig.ContractsInAppend | templates/frontend/NEXT-FOUNDRY/my-eth-project/packages/web/wagmi.config.ts:23-38 | Per-file results are concatenated in listing order. |
| WagmiConfig.FoundContractsSound | templates/frontend/NEXT-FOUNDRY/my-eth-project/packages/web/wagmi.config.ts:21-35 | Every found pair names a `.sol` entry of the listing, and its contract name is one that entry's text declares. The name is non-empty and uses only letters, digits and `_`. |
| WagmiConfig.FoundContractsComplete | templates/frontend/NEXT-FOUNDRY/my-eth-project/packages/web/wagmi.config.ts:21-37 | Every name declared in the text of a `.sol` entry of the listing is found, paired with that entry's name. |
| WagmiConfig.ScanTable | templates/frontend/NEXT-FOUNDRY/my-eth-project/packages/web/wagmi.config.ts:32-38 | The `while (exec)` loop over one file records one pair per match of the scan from `lastIndex` 0, in order. |
| WagmiConfig.ScanFile | templates/frontend/NEXT-FOUNDRY/my-eth-project/packages/web/wagmi.config.ts:25-38 | Scanning one file with a fresh pattern yields that file's declarations. |
| WagmiConfig.FindContractNames | templates/frontend/NEXT-FOUNDRY/my-eth-project/packages/web/wagmi.config.ts:17-42 | The loop over the `.sol` entries returns the declarations of every `.sol` file in listing order. It returns nothing when there is no `.sol` entry. |
| WagmiConfig.ExistingIncludePathsFilter | templates/frontend/NEXT-FOUNDRY/my-eth-project/packages/web/wagmi.config.ts:45-60 | The include list is never longer than the contract list. A path is in it if and only if its artifact exists and it is `fileName/contractName.json` for some found contract. |
| WagmiConfig.ExistingIncludePathsAppend | templates/frontend/NEXT-FOUNDRY/my-eth-project/packages/web/wagmi.config.ts:49-58 | Filtering distributes over concatenation, so the include list keeps the contracts' relative order. |
| WagmiConfig.KeepExisting | templates/frontend/NEXT-FOUNDRY/my-eth-project/packages/web/wagmi.config.ts:49-58 | The loop builds `folderName/contractName.json` for each contract and keeps exactly the paths whose artifact exists, in order. |
| WagmiConfig.GenerateIncludePaths | templates/frontend/NEXT-FOUNDRY/my-eth-project/packages/web/wagmi.config.ts:45-60 | The result is the order-preserving existence filter of the found contracts' paths. It is no longer than the contract list, holds only existing artifacts, and is empty without `.sol` entries. |
| WagmiConfig.IncludePathsExample | templates/frontend/NEXT-FOUNDRY/my-eth-project/packages/web/wagmi.config.ts:29-56 | Take `X.sol` declaring `Foo` and `Bar is Foo`, plus a non-`.sol` file that mentions a contract, with only `X.sol/Foo.json` existing. Then `Foo` and `Bar` are found and the include list is exactly `["X.sol/Foo.json"]`. |
| Abi.ToFunction | templates/frontend/NEXT-FOUNDRY/my-eth-project/packages/web/src/app/explorer/page.tsx:75-81 | A function item is listed under its name. It is `read` exactly when its state mutability is `view` or `pure`, and `write` when the mutability is missing. Missing inputs or outputs become empty lists. |
| Abi.ParseFunctionsAppend | templates/frontend/NEXT-FOUNDRY/my-eth-project/packages/web/src/app/explorer/page.tsx:74-83 | `ParseFunctions` goes item by item, so ABI order is kept. |
| Abi.ParseFunctionsMembers | templates/frontend/NEXT-FOUNDRY/my-eth-project/packages/web/src/app/explorer/page.tsx:74-83 | `ParseFunctions` lists an entry if and only if some item of type `function` produces it. |
| Abi.NoFunctionItems | templates/frontend/NEXT-FOUNDRY/my-eth-project/packages/web/src/app/explorer/page.tsx:74-83 | An ABI without function items gives an empty function list. |
| Abi.ExtractContractsAppend | templates/frontend/NEXT-FOUNDRY/my-eth-project/packages/web/src/app/explorer/page.tsx:49-57 | `ExtractContracts` collects export by export, in key order. |
| Abi.ExtractContractsMembers | templates/frontend/NEXT-FOUNDRY/my-eth-project/packages/web/src/app/explorer/page.tsx:49-57 | `ExtractContracts` collects an entry if and only if some export key ends in `Abi`. The entry carries that export's ABI, and its name is the key with its first `Abi` removed. |
| Abi.CounterAbiName | templates/frontend/NEXT-FOUNDRY/my-eth-project/packages/web/src/app/explorer/page.tsx:50-51 | `counterAbi` is collected as the contract `counter`. |
| Abi.LeadingAbiRemoved | templates/frontend/NEXT-FOUNDRY/my-eth-project/packages/web/src/app/explorer/page.tsx:51 | `AbiFooAbi` is collected as `FooAbi`: the first `Abi` is removed, not the suffix. |
| Text.ReplaceFirst | templates/frontend/NEXT-FOUNDRY/my-eth-project/packages/web/src/app/explorer/page.tsx:51 | `replace` with a string pattern replaces only the first occurrence, and leaves the string unchanged when there is none. |
| Address.ValidAddressMatches | templates/frontend/NEXT-FOUNDRY/my-eth-project/packages/web/src/app/explorer/page.tsx:241 | The position-wise condition (length 42, `0x`, 40 hex digits) holds if and only if the string is in the language `0x` followed by 40 hex digits. |
| Address.IsValidAddress | templates/frontend/NEXT-FOUNDRY/my-eth-project/packages/web/src/app/explorer/page.tsx:240-242 | The check accepts an address if and only if it has length 42, starts with lower-case `0x` and has hex digits of either case in the remaining 40 places. |
| Address.UpperPrefixRejected | templates/frontend/NEXT-FOUNDRY/my-eth-project/packages/web/src/app/explorer/page.tsx:241 | A `0X` prefix is always rejected. |
| Address.LowerCaseStaysValid | templates/frontend/NEXT-FOUNDRY/my-eth-project/packages/web/src/app/explorer/page.tsx:241 | No checksum is checked: lower-casing a valid address keeps it valid. |
| Address.NoPadding | templates/frontend/NEXT-FOUNDRY/my-eth-project/packages/web/src/app/explorer/page.tsx:241 | A leading space or a trailing newline makes a valid address invalid, because the pattern is anchored at both ends. |
| Output.BigIntRoundTrip | templates/frontend/NEXT-FOUNDRY/my-eth-project/packages/web/src/app/explorer/page.tsx:228 | `FormatOutput` renders a bigint as a decimal numeral with an optional minus sign, which parses back to the same integer. |
| Output.BigIntInjective | templates/frontend/NEXT-FOUNDRY/my-eth-project/packages/web/src/app/explorer/page.tsx:228 | Distinct bigints are rendered differently. |
| Output.EmptyArray | templates/frontend/NEXT-FOUNDRY/my-eth-project/packages/web/src/app/explorer/page.tsx:230-231 | The empty array is rendered `[]`. |
| Output.NestedExample | templates/frontend/NEXT-FOUNDRY/my-eth-project/packages/web/src/app/explorer/page.tsx:219-232 | `FormatOutput` renders `[-5n, true, [], null]` as `[-5, true, [], null]`: elements are joined by a comma and one space, and nested arrays are rendered recursively. |
| Output.RenderingIsAmbiguous | templates/frontend/NEXT-FOUNDRY/my-eth-project/packages/web/src/app/explorer/page.tsx:220-236 | The string `null` looks the same as null, and the string `42` looks the same as the bigint 42. |
| Output.JoinBalanced | templates/frontend/NEXT-FOUNDRY/my-eth-project/packages/web/src/app/explorer/page.tsx:231 | Joining bracket-balanced parts with a bracket-balanced separator gives a balanced string. |
| Output.StringFreeBalanced | templates/frontend/NEXT-FOUNDRY/my-eth-project/packages/web/src/app/explorer/page.tsx:219-232 | For a value holding no string, the rendering has as many `[` as `]`: each array contributes one of each and nothing else contributes brackets. |
| Explorer.InitialContractsFindable | templates/frontend/NEXT-FOUNDRY/my-eth-project/packages/web/src/app/explorer/page.tsx:45-70 | Right after mounting (`InitialState`), a name can be selected if and only if some export key ends in `Abi` and becomes that name once its first `Abi` is removed. The selected entry then carries the ABI of such an export. |
| Explorer.InputKeyInjective | templates/frontend/NEXT-FOUNDRY/my-eth-project/packages/web/src/app/explorer/page.tsx:143 | The key `fn_index` determines both the function name and the index: distinct (function name, index) pairs get distinct keys. Overloads share a name, and so share their keys; see `Explorer.OverloadUsesFirst`. |
| Explorer.OverloadUsesFirst | templates/frontend/NEXT-FOUNDRY/my-eth-project/packages/web/src/app/explorer/page.tsx:92-97 | When two listed functions share a name (Solidity overloads), the arguments prepared for either one are those of the first function listed under that name: one per input of that function, read from the keys `name_index` that both functions' fields write. |
| Explorer.HandleInputChange | templates/frontend/NEXT-FOUNDRY/my-eth-project/packages/web/src/app/explorer/page.tsx:140-145 | Typing sets the key `fn_index` to the value and adds no other key. Every other entry keeps its value. |
| Seqs.FindFirst | templates/frontend/NEXT-FOUNDRY/my-eth-project/packages/web/src/app/explorer/page.tsx:93 | `find` by name, used for both the function and the contract lookup, returns the first element with the name. It returns nothing if and only if no element has it. |
| Explorer.PrepareArgs | templates/frontend/NEXT-FOUNDRY/my-eth-project/packages/web/src/app/explorer/page.tsx:92-107 | An unknown name gives `[]`. Otherwise there is one argument per input of the first function with that name, each coerced from field `name_i`, with a missing field read as empty. |
| Explorer.CoerceInteger | templates/frontend/NEXT-FOUNDRY/my-eth-project/packages/web/src/app/explorer/page.tsx:100-102 | For a type containing `int` and a value not starting with `0x`, `Coerce` gives the value as a string, or `0` when the value is empty. It is never empty. |
| Explorer.CoerceBoolean | templates/frontend/NEXT-FOUNDRY/my-eth-project/packages/web/src/app/explorer/page.tsx:103-105 | `Coerce` gives a boolean argument only for type `bool`. It is true exactly when the value spells `true` in any letter case. |
| Explorer.CoerceKeepsText | templates/frontend/NEXT-FOUNDRY/my-eth-project/packages/web/src/app/explorer/page.tsx:97-106 | Every string argument is the field value itself, except the `0` an empty integer field becomes. |
| Explorer.HexIntegerPassedThrough | templates/frontend/NEXT-FOUNDRY/my-eth-project/packages/web/src/app/explorer/page.tsx:100-106 | For any type containing `int`, a value starting with `0x` is passed on unchanged as a string. |
| Explorer.AddressPassedThrough | templates/frontend/NEXT-FOUNDRY/my-eth-project/packages/web/src/app/explorer/page.tsx:103-106 | An `address` field is passed on unchanged as a string, whatever it holds. |
| Explorer.PrepareArgsSeesInput | templates/frontend/NEXT-FOUNDRY/my-eth-project/packages/web/src/app/explorer/page.tsx:92-107 | After typing into field `index` of `fn`, the call to `fn` sees the coerced new value at `index` and the old arguments elsewhere. Every other function's arguments are unchanged. |
| Explorer.SelectionEffect | templates/frontend/NEXT-FOUNDRY/my-eth-project/packages/web/src/app/explorer/page.tsx:63-89 | An empty selection clears only the function list. An unknown contract changes nothing. A known contract lists its parsed functions and clears the inputs and results. The contract list, the selection and the executing slot never change. |
| Explorer.SelectionListsFunctionItems | templates/frontend/NEXT-FOUNDRY/my-eth-project/packages/web/src/app/explorer/page.tsx:69-85 | After selecting a known contract, the listed functions are exactly the function items of the first contract with that name. |
| Explorer.SelectionEffectIdempotent | templates/frontend/NEXT-FOUNDRY/my-eth-project/packages/web/src/app/explorer/page.tsx:63-89 | Running the selection effect again without a change of selection changes nothing. |
| Explorer.WriteSettled | templates/frontend/NEXT-FOUNDRY/my-eth-project/packages/web/src/app/explorer/page.tsx:120-137 | Suppose the write succeeded or failed while a named function was executing. Then the slot is cleared, that function's result is set to the outcome message, and every other result and field is kept. In every other case nothing changes. |
| Explorer.SettledMessageShape | templates/frontend/NEXT-FOUNDRY/my-eth-project/packages/web/src/app/explorer/page.tsx:125-134 | An error reads `Error: ` followed by its message, or `Error: Unknown error` without one. A success reads `Transaction submitted successfully`. The message starts with `Error: ` if and only if there was an error. |
| Explorer.ErrorWins | templates/frontend/NEXT-FOUNDRY/my-eth-project/packages/web/src/app/explorer/page.tsx:125-135 | When a success flag and an error are both present, the outcome is the error's. |
| Explorer.WriteSettledIdempotent | templates/frontend/NEXT-FOUNDRY/my-eth-project/packages/web/src/app/explorer/page.tsx:120-137 | When the effect re-runs after its own update, it does nothing, because the executing slot is already empty. |
| Explorer.EmptyNameNeverSettles | templates/frontend/NEXT-FOUNDRY/my-eth-project/packages/web/src/app/explorer/page.tsx:121 | A write executing under the empty name is never settled, because the empty string is falsy. |

## Left out

- Filesystem access (`readdirSync`, `readFileSync`, `existsSync`) is replaced by inputs:
  - a listing of (entry name, content) pairs in directory order;
  - a set of existing artifact paths relative to the output directory.
- The exceptions the filesystem calls throw are not modelled. `readdirSync` throws when the source directory is missing, and `readFileSync` throws when an entry named `*.sol` is a directory. Either aborts the whole configuration, and a listing of (name, content) pairs cannot express it.
- `path.resolve` and `path.join` normalisation is not modelled; paths are joined with a plain `/`.
- `\s` is modelled as ASCII whitespace only: space, tab, line feed, vertical tab, form feed and carriage return. ECMAScript's `\s` also covers Unicode spaces and line terminators.
- `toLowerCase` is modelled on ASCII letters only.
- The enumeration order of the generated module's exports (`for ... in`) is taken as the order of an input sequence of exports.
- The ethers provider and contract call, `writeContract`, `executeReadFunction`, `executeWriteFunction`, the `isReadLoading` map, the chain lookup, React hooks and rendering are not modelled. Their outcomes enter the model as inputs:
  - the result of a read call, stored in `results` and rendered by `formatOutput`, is a `Value`;
  - the `Error: ...` strings the two execute functions store in `results` are `Str` values of the results map;
  - the function name `executeWriteFunction` puts in the executing slot is the `executing` field of the state;
  - the success flag and the error of the write are parameters of `WriteSettled`.
- The page state keeps only the fields the modelled steps read or write. The address field and the selected tab are left out.
- `formatOutput` is modelled for null (and `undefined`, which renders the same), bigint, string, boolean and arrays. Several branches depend on the JavaScript runtime rather than on the page's logic, so they are left out:
  - `JSON.stringify` of plain objects;
  - `String(number)` for floating-point numbers;
  - the ethers v5 `_isBigNumber` branch.
- Every export whose key ends in `Abi` is taken to hold an ABI array (`Export.abi` is a sequence of items). The source collects whatever value sits under such a key. If that value cannot be iterated, the selection effect's `for ... of` loop over it throws, for example for a generated non-array export whose name ends in `Abi`. That error path is not modelled.
- Overloaded functions are modelled as the page behaves, not as a user might expect. The fields of both overloads are rendered under the same keys, and both buttons call `prepareArgs` with the shared name, which reads the first overload's inputs (`Explorer.OverloadUsesFirst`). Overload resolution by argument count is not modelled, because the page does not do it.
- ABI parameters keep their `name` and `type`. `internalType` is never consulted and is dropped.
- Explorer.SettledMessage: an error whose message is missing is represented by an empty message. Both render as `Unknown error` in the source as well.
- Text.ReplaceFirst: the replacement is assumed free of `$` patterns. The only replacement used is the empty string.
- The scaffolding command itself (prompts, directory checks and recursive copies) and the static chain configuration of the agent package are not part of this model.
