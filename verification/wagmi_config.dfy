/** The build-configuration helpers of the generated web package:
    `findContractNames` scans every `.sol` file of the contract sources for
    contract declarations, and `generateIncludePaths` keeps those whose compiled
    artifact exists. The directory listing, the file contents and the set of
    existing artifacts are inputs; paths are joined with a plain `/`. */
module WagmiConfig {
  import opened Wrappers
  import opened Text
  import opened ContractPattern
  import opened Seqs

  /** The source directory as read: (entry name, file content) in listing order. */
  type Listing = seq<(string, string)>

  datatype ContractInfo = ContractInfo(fileName: string, contractName: string)

  predicate IsSolidityFile(name: string) {
    EndsWith(name, ".sol")
  }

  /** `readdirSync(srcDir).filter(file => file.endsWith('.sol'))`, with contents. */
  function SolidityFiles(listing: Listing): (files: Listing)
    ensures |files| <= |listing|
    ensures forall f :: f in files <==> f in listing && IsSolidityFile(f.0)
  {
    if |listing| == 0 then []
    else
      var rest := SolidityFiles(listing[..|listing| - 1]);
      var last := listing[|listing| - 1];
      assert listing == listing[..|listing| - 1] + [last];
      if IsSolidityFile(last.0) then rest + [last] else rest
  }

  /** Filtering distributes over concatenation, so the `.sol` entries keep their
      listing order. */
  lemma {:induction false} SolidityFilesAppend(a: Listing, b: Listing)
    ensures SolidityFiles(a + b) == SolidityFiles(a) + SolidityFiles(b)
    decreases |b|
  {
    if |b| == 0 {
      assert a + b == a;
    } else {
      var b' := b[..|b| - 1];
      assert (a + b)[..|a + b| - 1] == a + b';
      assert (a + b)[|a + b| - 1] == b[|b| - 1];
      SolidityFilesAppend(a, b');
    }
  }

  /** One `ContractInfo` per match, in the order of `ms`. */
  function InfosOf(fileName: string, ms: seq<Match>): (cs: seq<ContractInfo>)
    ensures |cs| == |ms|
  {
    if |ms| == 0 then [] else [ContractInfo(fileName, ms[0].name)] + InfosOf(fileName, ms[1..])
  }

  /** Entry `i` records the file name and the name captured by match `i`. */
  lemma {:induction false} InfosOfNames(fileName: string, ms: seq<Match>)
    ensures forall i :: 0 <= i < |ms| ==> InfosOf(fileName, ms)[i] == ContractInfo(fileName, ms[i].name)
    decreases |ms|
  {
    if |ms| > 0 {
      InfosOfNames(fileName, ms[1..]);
    }
  }

  lemma InfosOfCons(fileName: string, m: Match, ms: seq<Match>)
    ensures InfosOf(fileName, [m] + ms) == [ContractInfo(fileName, m.name)] + InfosOf(fileName, ms)
  {
    assert ([m] + ms)[1..] == ms;
  }

  /** The declarations found in one file. */
  function ContractsInFile(file: (string, string)): seq<ContractInfo> {
    InfosOf(file.0, Matches(file.1))
  }

  /** The declarations of every file, file by file. */
  function PerFile(files: Listing): (r: seq<seq<ContractInfo>>)
    ensures |r| == |files|
    ensures forall i :: 0 <= i < |files| ==> r[i] == ContractsInFile(files[i])
  {
    seq(|files|, i requires 0 <= i < |files| => ContractsInFile(files[i]))
  }

  /** The declarations of every file, concatenated in listing order. */
  function ContractsIn(files: Listing): seq<ContractInfo> {
    Concat(PerFile(files))
  }

  /** What `findContractNames()` returns for the listing. */
  function FoundContracts(listing: Listing): seq<ContractInfo> {
    ContractsIn(SolidityFiles(listing))
  }

  /** Per-file results are concatenated in listing order. */
  lemma ContractsInAppend(a: Listing, b: Listing)
    ensures ContractsIn(a + b) == ContractsIn(a) + ContractsIn(b)
  {
    assert PerFile(a + b) == PerFile(a) + PerFile(b);
    ConcatAppend(PerFile(a), PerFile(b));
  }

  /** Every extracted contract comes from a `.sol` entry of the listing: its file
      name is that entry's name and its contract name is one that entry's text
      declares; the name is non-empty and made of word characters. */
  lemma {:induction false} FoundContractsSound(listing: Listing)
    ensures forall c :: c in FoundContracts(listing) ==>
              && IsSolidityFile(c.fileName)
              && (exists f :: f in listing && f.0 == c.fileName && c.contractName in ContractNames(f.1))
              && |c.contractName| > 0
              && (forall j :: 0 <= j < |c.contractName| ==> IsWordChar(c.contractName[j]))
  {
    var files := SolidityFiles(listing);
    forall c | c in ContractsIn(files)
      ensures && IsSolidityFile(c.fileName)
              && (exists f :: f in listing && f.0 == c.fileName && c.contractName in ContractNames(f.1))
              && |c.contractName| > 0
              && (forall j :: 0 <= j < |c.contractName| ==> IsWordChar(c.contractName[j]))
    {
      var k := ConcatMember(PerFile(files), c);
      var f := files[k];
      var ms := Matches(f.1);
      InfosOfNames(f.0, ms);
      var i :| 0 <= i < |ms| && c == ContractInfo(f.0, ms[i].name);
      MatchesSound(f.1);
      assert ContractNames(f.1)[i] == c.contractName;
      assert forall j :: 0 <= j < |c.contractName| ==> IsWordChar(c.contractName[j]) by {
        forall j | 0 <= j < |c.contractName| ensures IsWordChar(c.contractName[j]) {
          assert InClass(Word, ms[i].name[j]);
        }
      }
    }
  }

  /** A name a file's text declares is among that file's declarations. */
  lemma DeclaredInFile(f: (string, string), name: string)
    requires name in ContractNames(f.1)
    ensures ContractInfo(f.0, name) in ContractsInFile(f)
  {
    var ms := Matches(f.1);
    var i :| 0 <= i < |ContractNames(f.1)| && ContractNames(f.1)[i] == name;
    assert ms[i].name == name;
    InfosOfNames(f.0, ms);
    assert ContractsInFile(f)[i] == ContractInfo(f.0, name);
  }

  /** Every declaration in a `.sol` entry of the listing is found, under that
      entry's name. */
  lemma FoundContractsComplete(listing: Listing, f: (string, string), name: string)
    requires f in listing && IsSolidityFile(f.0) && name in ContractNames(f.1)
    ensures ContractInfo(f.0, name) in FoundContracts(listing)
  {
    var files := SolidityFiles(listing);
    var k :| 0 <= k < |files| && files[k] == f;
    DeclaredInFile(f, name);
    ContractsInStep(files, k);
    assert files[..k + 1] + files[k + 1..] == files;
    ContractsInAppend(files[..k + 1], files[k + 1..]);
  }

  /** Consuming one match: the scan from `from` is that match followed by the
      scan from where it ends, which is further on. */
  lemma ScanStep(file: string, found: seq<Option<Match>>, from: nat)
    requires IsAttemptTable(found) && from < |found| && NextMatch(found, from).Some?
    ensures from < NextMatch(found, from).value.end < |found|
    ensures InfosOf(file, ScanFrom(found, from))
         == [ContractInfo(file, NextMatch(found, from).value.name)] + InfosOf(file, ScanFrom(found, NextMatch(found, from).value.end))
  {
    var m := NextMatch(found, from).value;
    InfosOfCons(file, m, ScanFrom(found, m.end));
  }

  /** The failing `exec` ends the scan. */
  lemma ScanDone(file: string, found: seq<Option<Match>>, from: nat)
    requires IsAttemptTable(found) && from < |found| && NextMatch(found, from).None?
    ensures InfosOf(file, ScanFrom(found, from)) == []
  {
  }

  /** The `while ((match = contractPattern.exec(content)) !== null)` loop over
      one file's attempt table, from `lastIndex == 0`. */
  method ScanTable(file: string, found: seq<Option<Match>>) returns (contracts: seq<ContractInfo>)
    requires IsAttemptTable(found)
    ensures contracts == InfosOf(file, ScanFrom(found, 0))
  {
    contracts := [];
    var lastIndex := 0;
    var m := NextMatch(found, lastIndex);
    while m.Some?
      invariant lastIndex < |found|
      invariant m == NextMatch(found, lastIndex)
      invariant contracts + InfosOf(file, ScanFrom(found, lastIndex)) == InfosOf(file, ScanFrom(found, 0))
      decreases |found| - lastIndex
    {
      ScanStep(file, found, lastIndex);
      contracts := contracts + [ContractInfo(file, m.value.name)];
      lastIndex := m.value.end;
      m := NextMatch(found, lastIndex);
    }
    ScanDone(file, found, lastIndex);
  }

  /** One file: a fresh global pattern (`lastIndex` starts at 0) scanned to its
      last match. */
  method ScanFile(file: string, content: string) returns (contracts: seq<ContractInfo>)
    ensures contracts == ContractsInFile((file, content))
  {
    var found := Attempts(content);
    contracts := ScanTable(file, found);
  }

  lemma ContractsInSingle(file: (string, string))
    ensures ContractsIn([file]) == ContractsInFile(file)
  {
    assert PerFile([file]) == [] + [ContractsInFile(file)];
  }

  /** Scanning one more file appends that file's declarations. */
  lemma ContractsInStep(files: Listing, i: nat)
    requires i < |files|
    ensures ContractsIn(files[..i + 1]) == ContractsIn(files[..i]) + ContractsInFile(files[i])
  {
    assert files[..i + 1] == files[..i] + [files[i]];
    ContractsInAppend(files[..i], [files[i]]);
    ContractsInSingle(files[i]);
  }

  /** A listing without `.sol` entries declares nothing. */
  lemma NoSolidityFiles(listing: Listing)
    requires forall k :: 0 <= k < |listing| ==> !IsSolidityFile(listing[k].0)
    ensures FoundContracts(listing) == []
  {
  }

  /** `findContractNames()`: the `.sol` entries in listing order, each scanned by
      `ScanFile`, the results appended in turn. */
  method FindContractNames(listing: Listing) returns (contractNames: seq<ContractInfo>)
    ensures contractNames == FoundContracts(listing)
    ensures (forall k :: 0 <= k < |listing| ==> !IsSolidityFile(listing[k].0)) ==> contractNames == []
  {
    contractNames := [];
    var srcFiles := SolidityFiles(listing);
    for i := 0 to |srcFiles|
      invariant contractNames == ContractsIn(srcFiles[..i])
    {
      var fileContracts := ScanFile(srcFiles[i].0, srcFiles[i].1);
      ContractsInStep(srcFiles, i);
      contractNames := contractNames + fileContracts;
    }
    assert srcFiles[..|srcFiles|] == srcFiles;
    if forall k :: 0 <= k < |listing| ==> !IsSolidityFile(listing[k].0) {
      NoSolidityFiles(listing);
    }
  }

  /** The artifact path `generateIncludePaths` checks and emits for a contract. */
  function IncludePath(c: ContractInfo): string {
    c.fileName + "/" + c.contractName + ".json"
  }

  /** The contracts' include paths whose artifact exists, in contract order. */
  function ExistingIncludePaths(contracts: seq<ContractInfo>, artifacts: set<string>): seq<string> {
    if |contracts| == 0 then []
    else
      var rest := ExistingIncludePaths(contracts[..|contracts| - 1], artifacts);
      var path := IncludePath(contracts[|contracts| - 1]);
      if path in artifacts then rest + [path] else rest
  }

  /** The include list is a filter: never longer than the contract list, and a
      path is in it exactly when it is some contract's path and its artifact
      exists. */
  lemma {:induction false} ExistingIncludePathsFilter(contracts: seq<ContractInfo>, artifacts: set<string>)
    ensures |ExistingIncludePaths(contracts, artifacts)| <= |contracts|
    ensures forall p :: p in ExistingIncludePaths(contracts, artifacts) <==>
              p in artifacts && exists c :: c in contracts && IncludePath(c) == p
    decreases |contracts|
  {
    if |contracts| > 0 {
      var init := contracts[..|contracts| - 1];
      ExistingIncludePathsFilter(init, artifacts);
      assert contracts == init + [contracts[|contracts| - 1]];
    }
  }

  /** Filtering distributes over concatenation, so relative order is kept. */
  lemma {:induction false} ExistingIncludePathsAppend(a: seq<ContractInfo>, b: seq<ContractInfo>, artifacts: set<string>)
    ensures ExistingIncludePaths(a + b, artifacts) == ExistingIncludePaths(a, artifacts) + ExistingIncludePaths(b, artifacts)
    decreases |b|
  {
    if |b| == 0 {
      assert a + b == a;
    } else {
      var b' := b[..|b| - 1];
      assert (a + b)[..|a + b| - 1] == a + b';
      assert (a + b)[|a + b| - 1] == b[|b| - 1];
      ExistingIncludePathsAppend(a, b', artifacts);
    }
  }

  /** The loop of `generateIncludePaths()`: for each contract, in order, the
      path `fileName/contractName.json` when that artifact exists. */
  method KeepExisting(contracts: seq<ContractInfo>, artifacts: set<string>) returns (includePaths: seq<string>)
    ensures includePaths == ExistingIncludePaths(contracts, artifacts)
  {
    includePaths := [];
    for i := 0 to |contracts|
      invariant includePaths == ExistingIncludePaths(contracts[..i], artifacts)
    {
      var folderName := contracts[i].fileName;
      var contractJsonName := contracts[i].contractName + ".json";
      assert contracts[..i + 1][..i] == contracts[..i];
      assert folderName + "/" + contractJsonName == IncludePath(contracts[i]);
      if folderName + "/" + contractJsonName in artifacts {
        includePaths := includePaths + [folderName + "/" + contractJsonName];
      }
    }
    assert contracts[..|contracts|] == contracts;
  }

  /** `generateIncludePaths()`: the include paths of the found contracts whose
      artifact exists, in discovery order. */
  method GenerateIncludePaths(listing: Listing, artifacts: set<string>) returns (includePaths: seq<string>)
    ensures includePaths == ExistingIncludePaths(FoundContracts(listing), artifacts)
    ensures |includePaths| <= |FoundContracts(listing)|
    ensures forall p :: p in includePaths ==> p in artifacts
    ensures (forall k :: 0 <= k < |listing| ==> !IsSolidityFile(listing[k].0)) ==> includePaths == []
  {
    var contracts := FindContractNames(listing);
    includePaths := KeepExisting(contracts, artifacts);
    ExistingIncludePathsFilter(contracts, artifacts);
  }

  lemma ExampleListing()
    ensures SolidityFiles([("X.sol", TwoDeclarations), ("notes.md", "contract Nope {")])
         == [("X.sol", TwoDeclarations)]
  {
    var listing := [("X.sol", TwoDeclarations), ("notes.md", "contract Nope {")];
    assert !IsSolidityFile("notes.md");
    assert IsSolidityFile("X.sol");
    assert listing[..1] == [listing[0]];
    assert listing[..1][..0] == [];
  }

  lemma ExampleContracts()
    ensures ContractsIn([("X.sol", TwoDeclarations)]) == [ContractInfo("X.sol", "Foo"), ContractInfo("X.sol", "Bar")]
  {
    var file := ("X.sol", TwoDeclarations);
    var cs := [ContractInfo("X.sol", "Foo"), ContractInfo("X.sol", "Bar")];
    TwoDeclarationsExample();
    InfosOfNames(file.0, Matches(file.1));
    assert ContractsInFile(file) == cs;
    assert PerFile([file]) == [cs];
    assert PerFile([file])[..0] == [];
  }

  lemma ExampleFilter()
    ensures ExistingIncludePaths([ContractInfo("X.sol", "Foo"), ContractInfo("X.sol", "Bar")], {"X.sol/Foo.json"})
         == ["X.sol/Foo.json"]
  {
    var cs := [ContractInfo("X.sol", "Foo"), ContractInfo("X.sol", "Bar")];
    assert cs[..1] == [cs[0]];
    assert cs[..1][..0] == [];
    assert IncludePath(cs[0]) == "X.sol/Foo.json";
    assert IncludePath(cs[1]) == "X.sol/Bar.json";
  }

  /** `X.sol` declares `Foo` and `Bar is Foo`, a non-Solidity file also mentions
      a contract, and only `Foo`'s artifact exists: both `X.sol` declarations are
      found, in order, and only `X.sol/Foo.json` is included. */
  lemma IncludePathsExample()
    ensures FoundContracts([("X.sol", TwoDeclarations), ("notes.md", "contract Nope {")])
         == [ContractInfo("X.sol", "Foo"), ContractInfo("X.sol", "Bar")]
    ensures ExistingIncludePaths(FoundContracts([("X.sol", TwoDeclarations), ("notes.md", "contract Nope {")]), {"X.sol/Foo.json"})
         == ["X.sol/Foo.json"]
  {
    ExampleListing();
    ExampleContracts();
    ExampleFilter();
  }
}
