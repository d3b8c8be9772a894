/** The state of the contract explorer page and the pure steps that change it:
    typing into an argument field, selecting a contract, the arguments built for
    a call, and the settlement of a write transaction. React state updates are
    modelled as functions from the old state to the new one. */
module Explorer {
  import opened Wrappers
  import opened Text
  import opened Decimal
  import opened Abi
  import opened Output
  import opened Seqs

  /** The page state the modelled steps read or write. `executing` is the
      function whose write is in flight (`null` is `None`). */
  datatype State = State(
    contracts: seq<ContractEntry>,
    selected: string,
    functions: seq<ContractFunction>,
    inputs: map<string, string>,
    results: map<string, Value>,
    executing: Option<string>)

  /** One argument handed to the contract call: the string ethers converts, or a
      boolean. */
  datatype Arg = StrArg(s: string) | BoolArg(b: bool)

  /** The page right after the exports were collected. */
  function InitialState(exports: seq<Export>): (st: State)
    ensures st.contracts == ExtractContracts(exports)
    ensures st.selected == "" && st.functions == [] && st.executing == None
    ensures st.inputs == map[] && st.results == map[]
  {
    State(ExtractContracts(exports), "", [], map[], map[], None)
  }

  /** Right after mounting, a contract name can be selected exactly when some
      export key ends in `Abi` and loses its first `Abi` to become that name;
      the selection then carries the ABI of such an export. */
  lemma InitialContractsFindable(exports: seq<Export>, name: string)
    ensures FindContract(InitialState(exports).contracts, name).Some? <==>
              exists i :: 0 <= i < |exports| && IsAbiKey(exports[i].key) && ContractNameOf(exports[i].key) == name
    ensures FindContract(InitialState(exports).contracts, name).Some? ==>
              exists i :: 0 <= i < |exports| && IsAbiKey(exports[i].key) && ContractNameOf(exports[i].key) == name
                && FindContract(InitialState(exports).contracts, name).value.abi == exports[i].abi
  {
    var cs := ExtractContracts(exports);
    var r := FindContract(cs, name);
    if r.Some? {
      var j :| 0 <= j < |cs| && cs[j] == r.value && r.value.name == name;
      var i := ExtractContractsSound(exports, cs[j]);
    }
    if i :| 0 <= i < |exports| && IsAbiKey(exports[i].key) && ContractNameOf(exports[i].key) == name {
      ExtractContractsComplete(exports, i);
      var j :| 0 <= j < |cs| && cs[j] == EntryOf(exports[i]);
      assert cs[j].name == name;
    }
  }

  // ---------------------------------------------------------------------------
  // Argument fields

  /** The input-map key of argument `index` of function `fn`: `${fn}_${index}`. */
  function InputKey(fn: string, index: nat): string {
    fn + "_" + NatToDecimal(index)
  }

  /** At or after the function name, the only `_` of a key is the separator. */
  lemma SeparatorIsLastUnderscore(fn: string, index: nat, p: nat)
    requires |fn| <= p < |InputKey(fn, index)|
    ensures InputKey(fn, index)[p] == '_' <==> p == |fn|
  {
    if p > |fn| {
      assert InputKey(fn, index)[p] == NatToDecimal(index)[p - |fn| - 1];
    }
  }

  /** Different (function, index) pairs never share a field: the numeral after
      the last `_` holds no `_`, so the key determines both parts. */
  lemma InputKeyInjective(f1: string, i1: nat, f2: string, i2: nat)
    requires InputKey(f1, i1) == InputKey(f2, i2)
    ensures f1 == f2 && i1 == i2
  {
    var key := InputKey(f1, i1);
    if |f1| <= |f2| {
      SeparatorIsLastUnderscore(f1, i1, |f2|);
    } else {
      SeparatorIsLastUnderscore(f2, i2, |f1|);
    }
    assert f1 == key[..|f1|] == f2;
    assert NatToDecimal(i1) == key[|f1| + 1..] == NatToDecimal(i2);
    NatToDecimalInjective(i1, i2);
  }

  /** `handleInputChange(fn, index, value)`. */
  function HandleInputChange(inputs: map<string, string>, fn: string, index: nat, value: string): (r: map<string, string>)
    ensures InputKey(fn, index) in r && r[InputKey(fn, index)] == value
    ensures r.Keys == inputs.Keys + {InputKey(fn, index)}
    ensures forall k :: k in inputs && k != InputKey(fn, index) ==> r[k] == inputs[k]
  {
    inputs[InputKey(fn, index) := value]
  }

  /** `inputValues[key] || ''`: a missing field reads as empty. */
  function InputValue(inputs: map<string, string>, key: string): string {
    if key in inputs then inputs[key] else ""
  }

  // ---------------------------------------------------------------------------
  // Argument preparation

  /** `functions.find(f => f.name === name)`. */
  function FindFunction(functions: seq<ContractFunction>, name: string): Option<ContractFunction> {
    FindFirst(functions, (f: ContractFunction) => f.name, name)
  }

  /** The conversion applied to one field value, by the input's ABI type. */
  function Coerce(paramType: string, value: string): Arg {
    if Contains(paramType, "int") && !StartsWith(value, "0x") then
      StrArg(if value == "" then "0" else value)
    else if paramType == "bool" then
      BoolArg(ToLowerAscii(value) == "true")
    else
      StrArg(value)
  }

  /** `prepareArgs(name)`. */
  function PrepareArgs(functions: seq<ContractFunction>, inputs: map<string, string>, name: string): (args: seq<Arg>)
    ensures FindFunction(functions, name).None? ==> args == []
    ensures FindFunction(functions, name).Some? ==>
              var f := FindFunction(functions, name).value;
              && |args| == |f.inputs|
              && forall i :: 0 <= i < |args| ==>
                   args[i] == Coerce(f.inputs[i].paramType, InputValue(inputs, InputKey(name, i)))
  {
    match FindFunction(functions, name)
    case None => []
    case Some(f) =>
      seq(|f.inputs|, i requires 0 <= i < |f.inputs| =>
        Coerce(f.inputs[i].paramType, InputValue(inputs, InputKey(name, i))))
  }

  /** Overloads share their fields: the fields of every function are keyed by
      name and index only, so two functions with the same name write the same
      keys, and the arguments prepared for either are those of the first
      function listed under that name, read from those shared keys. */
  lemma OverloadUsesFirst(functions: seq<ContractFunction>, inputs: map<string, string>, i: nat, j: nat)
    requires i < j < |functions| && functions[i].name == functions[j].name
    requires forall k :: 0 <= k < i ==> functions[k].name != functions[i].name
    ensures var args := PrepareArgs(functions, inputs, functions[j].name);
            && |args| == |functions[i].inputs|
            && forall k :: 0 <= k < |args| ==>
                 args[k] == Coerce(functions[i].inputs[k].paramType, InputValue(inputs, InputKey(functions[i].name, k)))
  {
    var r := FindFunction(functions, functions[j].name);
    var i' :| 0 <= i' < |functions| && functions[i'] == r.value && r.value.name == functions[j].name
              && forall k :: 0 <= k < i' ==> functions[k].name != functions[j].name;
    assert i' == i;
  }

  /** An integer-typed field never yields an empty argument: an empty field
      becomes `0`, anything else is passed through unchanged. */
  lemma CoerceInteger(paramType: string, value: string)
    requires Contains(paramType, "int") && !StartsWith(value, "0x")
    ensures Coerce(paramType, value).StrArg?
    ensures Coerce(paramType, value).s != ""
    ensures value == "" ==> Coerce(paramType, value).s == "0"
    ensures value != "" ==> Coerce(paramType, value).s == value
  {
  }

  /** `int` does not occur at a position holding another letter than `i`. */
  lemma NoIntAt(s: string, k: nat)
    requires k + 3 <= |s| && s[k] != 'i'
    ensures !OccursAt(s, "int", k)
  {
    assert s[k..k + 3][0] == s[k];
  }

  lemma BoolHasNoInt()
    ensures !Contains("bool", "int")
  {
    var b := "bool";
    assert b[0] == 'b' && b[1] == 'o';
    NoIntAt(b, 0);
    NoIntAt(b, 1);
  }

  lemma AddressHasNoInt()
    ensures !Contains("address", "int")
  {
    var a := "address";
    assert a[0] == 'a' && a[1] == 'd' && a[2] == 'd' && a[3] == 'r' && a[4] == 'e';
    NoIntAt(a, 0);
    NoIntAt(a, 1);
    NoIntAt(a, 2);
    NoIntAt(a, 3);
    NoIntAt(a, 4);
  }

  /** A boolean argument is produced only for the type `bool`, and it is `true`
      exactly for the field values that spell `true` in any letter case. */
  lemma CoerceBoolean(paramType: string, value: string)
    ensures Coerce(paramType, value).BoolArg? ==> paramType == "bool"
    ensures Coerce("bool", value) == BoolArg(
              |value| == 4 && forall i :: 0 <= i < 4 ==> LowerChar(value[i]) == "true"[i])
  {
    BoolHasNoInt();
    if ToLowerAscii(value) == "true" {
      assert |value| == 4;
    }
  }

  /** Every string argument is the field value itself, except the `0` an empty
      integer field becomes. */
  lemma CoerceKeepsText(paramType: string, value: string)
    ensures Coerce(paramType, value).StrArg? ==>
              Coerce(paramType, value).s == value
              || (value == "" && Coerce(paramType, value).s == "0" && Contains(paramType, "int"))
  {
  }

  /** A hex literal for any integer type is passed on as typed. */
  lemma HexIntegerPassedThrough(paramType: string, value: string)
    requires Contains(paramType, "int") && StartsWith(value, "0x")
    ensures Coerce(paramType, value) == StrArg(value)
  {
    BoolHasNoInt();
  }

  /** An address field is never altered, whatever it holds. */
  lemma AddressPassedThrough(value: string)
    ensures Coerce("address", value) == StrArg(value)
  {
    AddressHasNoInt();
  }

  /** After typing `value` into field `index` of `fn`, the call to `fn` sees that
      value at position `index`, every other argument of `fn` is as before, and
      the arguments of every other function are unchanged. */
  lemma PrepareArgsSeesInput(functions: seq<ContractFunction>, inputs: map<string, string>, fn: string, index: nat, value: string)
    ensures var f := FindFunction(functions, fn);
            f.Some? && index < |f.value.inputs| ==>
              PrepareArgs(functions, HandleInputChange(inputs, fn, index, value), fn)[index]
                == Coerce(f.value.inputs[index].paramType, value)
    ensures forall j :: 0 <= j < |PrepareArgs(functions, inputs, fn)| && j != index ==>
              PrepareArgs(functions, HandleInputChange(inputs, fn, index, value), fn)[j]
                == PrepareArgs(functions, inputs, fn)[j]
    ensures forall other :: other != fn ==>
              PrepareArgs(functions, HandleInputChange(inputs, fn, index, value), other)
                == PrepareArgs(functions, inputs, other)
  {
    var after := HandleInputChange(inputs, fn, index, value);
    var key := InputKey(fn, index);
    forall j | 0 <= j < |PrepareArgs(functions, inputs, fn)| && j != index
      ensures InputValue(after, InputKey(fn, j)) == InputValue(inputs, InputKey(fn, j))
    {
      if InputKey(fn, j) == key {
        InputKeyInjective(fn, j, fn, index);
      }
    }
    forall other, j: nat | other != fn
      ensures InputValue(after, InputKey(other, j)) == InputValue(inputs, InputKey(other, j))
    {
      if InputKey(other, j) == key {
        InputKeyInjective(other, j, fn, index);
      }
    }
  }

  // ---------------------------------------------------------------------------
  // Selecting a contract

  /** `contracts.find(c => c.name === name)`. */
  function FindContract(contracts: seq<ContractEntry>, name: string): Option<ContractEntry> {
    FindFirst(contracts, (c: ContractEntry) => c.name, name)
  }

  /** The effect run when the selection or the contract list changes. */
  function SelectionEffect(st: State): (r: State)
    ensures r.contracts == st.contracts && r.selected == st.selected && r.executing == st.executing
    ensures st.selected == "" ==> r == st.(functions := [])
    ensures st.selected != "" && FindContract(st.contracts, st.selected).None? ==> r == st
    ensures st.selected != "" && FindContract(st.contracts, st.selected).Some? ==>
              && r.functions == ParseFunctions(FindContract(st.contracts, st.selected).value.abi)
              && r.inputs == map[] && r.results == map[]
  {
    if st.selected == "" then st.(functions := [])
    else
      match FindContract(st.contracts, st.selected)
      case None => st
      case Some(c) => st.(functions := ParseFunctions(c.abi), inputs := map[], results := map[])
  }

  /** After a contract is selected, the listed functions are exactly the
      function items of the first contract with that name. */
  lemma SelectionListsFunctionItems(st: State, c: ContractEntry)
    requires st.selected != "" && FindContract(st.contracts, st.selected) == Some(c)
    ensures c in st.contracts && c.name == st.selected
    ensures forall f :: f in SelectionEffect(st).functions <==>
              exists i :: 0 <= i < |c.abi| && IsFunctionItem(c.abi[i]) && f == ToFunction(c.abi[i])
  {
    ParseFunctionsMembers(c.abi);
  }

  /** Re-running the effect without a change of selection changes nothing more. */
  lemma SelectionEffectIdempotent(st: State)
    ensures SelectionEffect(SelectionEffect(st)) == SelectionEffect(st)
  {
  }

  // ---------------------------------------------------------------------------
  // Settling a write

  /** The effect's guard: the write succeeded or failed while some function,
      named by a non-empty string, was executing. */
  predicate Settles(st: State, isSuccess: bool, writeError: Option<string>) {
    (isSuccess || writeError.Some?) && st.executing.Some? && st.executing.value != ""
  }

  /** The text recorded for a settled write. An error's missing or empty message
      is represented by `""`. */
  function SettledMessage(writeError: Option<string>): string {
    match writeError
    case Some(message) => "Error: " + (if message == "" then "Unknown error" else message)
    case None => "Transaction submitted successfully"
  }

  /** The effect that clears the executing slot once the write settles. */
  function WriteSettled(st: State, isSuccess: bool, writeError: Option<string>): (r: State)
    ensures !Settles(st, isSuccess, writeError) ==> r == st
    ensures Settles(st, isSuccess, writeError) ==>
              && r.executing == None
              && r.results.Keys == st.results.Keys + {st.executing.value}
              && r.results[st.executing.value] == Str(SettledMessage(writeError))
              && (forall k :: k in st.results && k != st.executing.value ==> r.results[k] == st.results[k])
              && r.contracts == st.contracts && r.selected == st.selected
              && r.functions == st.functions && r.inputs == st.inputs
  {
    if Settles(st, isSuccess, writeError) then
      st.(executing := None, results := st.results[st.executing.value := Str(SettledMessage(writeError))])
    else st
  }

  /** An error outcome reads `Error: ` and the message, or `Unknown error`
      without one; a success reads the fixed confirmation. */
  lemma SettledMessageShape(writeError: Option<string>)
    ensures writeError.Some? && writeError.value != "" ==> SettledMessage(writeError) == "Error: " + writeError.value
    ensures writeError == Some("") ==> SettledMessage(writeError) == "Error: Unknown error"
    ensures writeError.None? ==> SettledMessage(writeError) == "Transaction submitted successfully"
    ensures writeError.Some? <==> StartsWith(SettledMessage(writeError), "Error: ")
  {
    match writeError
    case None =>
      var m := "Transaction submitted successfully";
      assert m[0] == 'T';
      assert m[..7][0] == m[0];
    case Some(message) =>
      var m := "Error: " + (if message == "" then "Unknown error" else message);
      assert m[..7] == "Error: ";
  }

  /** An error wins over a success flag raised at the same time. */
  lemma ErrorWins(st: State, message: string)
    ensures WriteSettled(st, true, Some(message)) == WriteSettled(st, false, Some(message))
  {
  }

  /** The effect re-runs after its own update and then does nothing: the
      executing slot is already empty. */
  lemma WriteSettledIdempotent(st: State, isSuccess: bool, writeError: Option<string>)
    ensures WriteSettled(WriteSettled(st, isSuccess, writeError), isSuccess, writeError)
         == WriteSettled(st, isSuccess, writeError)
  {
  }

  /** A write started under the empty function name is never settled: the
      empty string is falsy, so its slot is not cleared and no result is
      recorded. */
  lemma EmptyNameNeverSettles(st: State, isSuccess: bool, writeError: Option<string>)
    requires st.executing == Some("")
    ensures WriteSettled(st, isSuccess, writeError) == st
  {
  }
}
