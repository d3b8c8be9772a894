/** The explorer's view of the generated bindings: the ABI exports it collects by
    key suffix, and the function entries it lists for the selected contract. */
module Abi {
  import opened Wrappers
  import opened Text

  /** One ABI parameter; `internalType` is never consulted and is left out. */
  datatype Param = Param(name: string, paramType: string)

  /** One ABI entry as JSON: `type`, `name`, and the optional `stateMutability`,
      `inputs` and `outputs` members. */
  datatype AbiItem = AbiItem(
    itemType: string,
    name: string,
    stateMutability: Option<string>,
    inputs: Option<seq<Param>>,
    outputs: Option<seq<Param>>)

  /** The tab a function is listed under. */
  datatype Access = Read | Write

  datatype ContractFunction = ContractFunction(name: string, access: Access, inputs: seq<Param>, outputs: seq<Param>)

  /** An export of the generated module: its key and, for the `...Abi` exports
      the explorer uses, the ABI array. */
  datatype Export = Export(key: string, abi: seq<AbiItem>)

  datatype ContractEntry = ContractEntry(name: string, abi: seq<AbiItem>)

  predicate IsFunctionItem(item: AbiItem) {
    item.itemType == "function"
  }

  /** `['view', 'pure'].includes(item.stateMutability)`. */
  predicate IsReadOnly(mutability: Option<string>) {
    mutability == Some("view") || mutability == Some("pure")
  }

  /** The entry pushed for one function item. */
  function ToFunction(item: AbiItem): (f: ContractFunction)
    ensures f.name == item.name
    ensures f.access == Read <==> IsReadOnly(item.stateMutability)
    ensures item.stateMutability.None? ==> f.access == Write
    ensures item.inputs.Some? ==> f.inputs == item.inputs.value
    ensures item.inputs.None? ==> f.inputs == []
    ensures item.outputs.Some? ==> f.outputs == item.outputs.value
    ensures item.outputs.None? ==> f.outputs == []
  {
    ContractFunction(
      item.name,
      if IsReadOnly(item.stateMutability) then Read else Write,
      item.inputs.GetOr([]),
      item.outputs.GetOr([]))
  }

  /** The `for (const item of contract.abi)` loop of the selection effect. */
  function ParseFunctions(abi: seq<AbiItem>): (fs: seq<ContractFunction>)
    ensures |fs| <= |abi|
  {
    if |abi| == 0 then []
    else
      var rest := ParseFunctions(abi[..|abi| - 1]);
      var item := abi[|abi| - 1];
      if IsFunctionItem(item) then rest + [ToFunction(item)] else rest
  }

  /** Parsing is item by item: the result for `a + b` is the result for `a`
      followed by the result for `b`, so ABI order is kept. */
  lemma {:induction false} ParseFunctionsAppend(a: seq<AbiItem>, b: seq<AbiItem>)
    ensures ParseFunctions(a + b) == ParseFunctions(a) + ParseFunctions(b)
    decreases |b|
  {
    if |b| == 0 {
      assert a + b == a;
    } else {
      var b' := b[..|b| - 1];
      assert (a + b)[..|a + b| - 1] == a + b';
      assert (a + b)[|a + b| - 1] == b[|b| - 1];
      ParseFunctionsAppend(a, b');
    }
  }

  /** Exactly the function items are listed: an entry is parsed iff some function
      item of the ABI produces it. */
  lemma {:induction false} ParseFunctionsMembers(abi: seq<AbiItem>)
    ensures forall f :: f in ParseFunctions(abi) <==>
              exists i :: 0 <= i < |abi| && IsFunctionItem(abi[i]) && f == ToFunction(abi[i])
    decreases |abi|
  {
    if |abi| > 0 {
      var init := abi[..|abi| - 1];
      ParseFunctionsMembers(init);
      forall f | f in ParseFunctions(abi)
        ensures exists i :: 0 <= i < |abi| && IsFunctionItem(abi[i]) && f == ToFunction(abi[i])
      {
        if f in ParseFunctions(init) {
          var i :| 0 <= i < |init| && IsFunctionItem(init[i]) && f == ToFunction(init[i]);
          assert abi[i] == init[i];
        }
      }
      forall f | exists i :: 0 <= i < |abi| && IsFunctionItem(abi[i]) && f == ToFunction(abi[i])
        ensures f in ParseFunctions(abi)
      {
        var i :| 0 <= i < |abi| && IsFunctionItem(abi[i]) && f == ToFunction(abi[i]);
        if i < |abi| - 1 {
          assert init[i] == abi[i];
        }
      }
    }
  }

  /** An ABI without function items (only events, errors, a constructor, ...)
      gives an empty function list. */
  lemma {:induction false} NoFunctionItems(abi: seq<AbiItem>)
    requires forall i :: 0 <= i < |abi| ==> !IsFunctionItem(abi[i])
    ensures ParseFunctions(abi) == []
    decreases |abi|
  {
    if |abi| > 0 {
      NoFunctionItems(abi[..|abi| - 1]);
    }
  }

  /** `key.endsWith('Abi')`. */
  predicate IsAbiKey(key: string) {
    EndsWith(key, "Abi")
  }

  /** `key.replace('Abi', '')`: the first occurrence of `Abi` is removed, which is
      not always the suffix. */
  function ContractNameOf(key: string): string {
    ReplaceFirst(key, "Abi", "")
  }

  /** The entry pushed for an `...Abi` export. */
  function EntryOf(e: Export): ContractEntry {
    ContractEntry(ContractNameOf(e.key), e.abi)
  }

  /** The `for (const key in generatedContracts)` loop, over the exports in
      enumeration order. */
  function ExtractContracts(exports: seq<Export>): (cs: seq<ContractEntry>)
    ensures |cs| <= |exports|
  {
    if |exports| == 0 then []
    else
      var rest := ExtractContracts(exports[..|exports| - 1]);
      var e := exports[|exports| - 1];
      if IsAbiKey(e.key) then rest + [EntryOf(e)] else rest
  }

  /** Collection is export by export, in enumeration order. */
  lemma {:induction false} ExtractContractsAppend(a: seq<Export>, b: seq<Export>)
    ensures ExtractContracts(a + b) == ExtractContracts(a) + ExtractContracts(b)
    decreases |b|
  {
    if |b| == 0 {
      assert a + b == a;
    } else {
      var b' := b[..|b| - 1];
      assert (a + b)[..|a + b| - 1] == a + b';
      assert (a + b)[|a + b| - 1] == b[|b| - 1];
      ExtractContractsAppend(a, b');
    }
  }

  /** Every listed entry comes from an export whose key ends in `Abi`. */
  lemma {:induction false} ExtractContractsSound(exports: seq<Export>, c: ContractEntry) returns (i: nat)
    requires c in ExtractContracts(exports)
    ensures i < |exports| && IsAbiKey(exports[i].key) && c == EntryOf(exports[i])
    decreases |exports|
  {
    var init := exports[..|exports| - 1];
    if c in ExtractContracts(init) {
      i := ExtractContractsSound(init, c);
      assert exports[i] == init[i];
    } else {
      i := |exports| - 1;
    }
  }

  /** Every export whose key ends in `Abi` is listed. */
  lemma {:induction false} ExtractContractsComplete(exports: seq<Export>, i: nat)
    requires i < |exports| && IsAbiKey(exports[i].key)
    ensures EntryOf(exports[i]) in ExtractContracts(exports)
    decreases |exports|
  {
    var init := exports[..|exports| - 1];
    if i < |exports| - 1 {
      assert init[i] == exports[i];
      ExtractContractsComplete(init, i);
    }
  }

  /** A contract entry is listed iff some export's key ends in `Abi`, the entry
      carries that export's ABI, and its name is the key with its first `Abi`
      removed. */
  lemma ExtractContractsMembers(exports: seq<Export>)
    ensures forall c :: c in ExtractContracts(exports) <==>
              exists i :: 0 <= i < |exports| && IsAbiKey(exports[i].key) && c == EntryOf(exports[i])
  {
    forall c | c in ExtractContracts(exports)
      ensures exists i :: 0 <= i < |exports| && IsAbiKey(exports[i].key) && c == EntryOf(exports[i])
    {
      var i := ExtractContractsSound(exports, c);
    }
    forall i | 0 <= i < |exports| && IsAbiKey(exports[i].key)
      ensures EntryOf(exports[i]) in ExtractContracts(exports)
    {
      ExtractContractsComplete(exports, i);
    }
  }

  /** The usual generated key: `counterAbi` lists the contract `counter`. */
  lemma CounterAbiName()
    ensures IsAbiKey("counterAbi")
    ensures ContractNameOf("counterAbi") == "counter"
  {
    var key := "counterAbi";
    assert OccursAt(key, "Abi", 7);
    forall k | 0 <= k < 7
      ensures !OccursAt(key, "Abi", k)
    {
      assert key[k] != 'A';
    }
  }

  /** A key that also starts with `Abi` loses its leading `Abi`, not its suffix. */
  lemma LeadingAbiRemoved()
    ensures IsAbiKey("AbiFooAbi")
    ensures ContractNameOf("AbiFooAbi") == "FooAbi"
  {
    var key := "AbiFooAbi";
    assert OccursAt(key, "Abi", 0);
    assert key[3..] == "FooAbi";
  }
}
