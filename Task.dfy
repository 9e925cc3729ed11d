/** The `AddStrongName` MSBuild task: configuration checks, redirection of
    reference assemblies to their implementation copies, the per-assembly
    decision to skip, reuse or sign (`ProcessAssembly`), and the path
    bookkeeping of the batch (`Execute`). Files are a map from path to bytes;
    Cecil's reader and writer and the crypto are given as functions. */
module Task {
  import opened Wrappers
  import opened Bytes
  import opened Paths
  import opened StrongNameKey
  import opened Metadata
  import opened Resolver

  /** The disk as `AddStrongName` sees it: the bytes of every existing file,
      keyed by the exact path string (two spellings of one Windows path are
      two keys). */
  class FileSystem {
    var files: map<string, seq<byte>>

    constructor (files: map<string, seq<byte>>)
      ensures this.files == files
    {
      this.files := files;
    }
  }

  /** Cecil's reader and writer. `read` is `None` when loading throws;
      `write` serialises an image, embeds the signature made with the key
      blob, and is `None` when writing to that path throws. */
  datatype ImageFormat = ImageFormat(
    read: seq<byte> -> Option<AssemblyImage>,
    write: (string, AssemblyImage, seq<byte>) -> Option<seq<byte>>)

  /** The exceptions that leave `ProcessAssembly`, and with it `Execute`. */
  datatype Fault =
    | OutputUnreadable(path: string)   // the existing signed copy failed to load (rethrown)
    | InputUnreadable(path: string)    // the assembly to sign failed to load
    | KeyUnreadable                    // the key file does not hold a key
    | FriendDeclarationWithoutArgument(path: string)

  /** Where the signed copy of `item` goes: its file name in the signed folder. */
  function OutputPath(folder: string, item: string): string {
    Combine(folder, FileName(item))
  }

  // ---------------------------------------------------------------------------
  // One assembly

  /** The outcome of one `ProcessAssembly` call and the files afterwards. */
  datatype Step = Step(result: Result<string, Fault>, files: map<string, seq<byte>>)

  /** The files after writing `output`: the written bytes, or no file at all
      when the write threw (the partial file is deleted). */
  function AfterWrite(files: map<string, seq<byte>>, output: string, written: Option<seq<byte>>)
    : (after: map<string, seq<byte>>)
    ensures after - {output} == files - {output}
    ensures written.None? ==> output !in after
    ensures written.Some? ==> output in after && after[output] == written.value
  {
    if written.None? then files - {output} else files[output := written.value]
  }

  /** Lines 239-287: derive the key and token, patch the image, write it.
      The answer is the output path even when the write fails. */
  function SignAndWrite(
    files: map<string, seq<byte>>, item: string, output: string, image: AssemblyImage,
    keyBlob: seq<byte>, format: ImageFormat, crypto: Crypto): (s: Step)
    ensures s.files - {output} == files - {output}
    ensures s.result.Ok? ==> s.result.value == output
    ensures s.result.Err? ==> s.files == files
  {
    match crypto.capiPublicKeyBlob(keyBlob)
    case None => Step(Err(KeyUnreadable), files)
    case Some(csp) =>
      var publicKey := PublicKeyBlob(csp);
      match Signed(image, publicKey, GetKeyTokenFromKey(publicKey, crypto.sha1))
      case None => Step(Err(FriendDeclarationWithoutArgument(item)), files)
      case Some(signed) => Step(Ok(output), AfterWrite(files, output, format.write(output, signed, keyBlob)))
  }

  /** The input `ProcessAssembly` loads: the forced path when there is one. */
  function SourcePath(item: string, forcedPath: Option<string>): string {
    if forcedPath.Some? then forcedPath.value else item
  }

  /** What `ProcessAssembly` does, in code order, with `output` the path of
      the signed copy: probe the existing signed copy for its Mvid (a probe
      that throws is rethrown), pass a missing input through, load the input
      (from the forced path when there is one), pass an already signed input
      through, reuse a signed copy with the same non-empty Mvid, otherwise
      sign and write. Only the output file can change, and it changes only
      when the answer is the output path. */
  function ProcessAt(
    files: map<string, seq<byte>>, item: string, output: string, keyBlob: seq<byte>,
    forcedPath: Option<string>, format: ImageFormat, crypto: Crypto): (s: Step)
    ensures s.result.Ok? ==> s.result.value == item || s.result.value == output
    ensures s.files - {output} == files - {output}
    ensures s.files != files ==> s.result == Ok(output)
  {
    if output in files && format.read(files[output]).None? then Step(Err(OutputUnreadable(output)), files)
    else
      var existingMvid := if output in files then format.read(files[output]).value.mvid else EmptyGuid;
      if item !in files then Step(Ok(item), files)
      else
        var source := SourcePath(item, forcedPath);
        if source !in files || format.read(files[source]).None? then Step(Err(InputUnreadable(source)), files)
        else
          var image := format.read(files[source]).value;
          if image.HasPublicKey() then Step(Ok(item), files)
          else if existingMvid != EmptyGuid && image.mvid == existingMvid then Step(Ok(output), files)
          else SignAndWrite(files, item, output, image, keyBlob, format, crypto)
  }

  /** `ProcessAssembly` with its output path `Combine(folder, FileName(item))`. */
  function ProcessResult(
    files: map<string, seq<byte>>, item: string, folder: string, keyBlob: seq<byte>,
    forcedPath: Option<string>, format: ImageFormat, crypto: Crypto): (s: Step)
    ensures s.result.Ok? ==> s.result.value == item || s.result.value == OutputPath(folder, item)
    ensures s.files - {OutputPath(folder, item)} == files - {OutputPath(folder, item)}
    ensures s.files != files ==> s.result == Ok(OutputPath(folder, item))
  {
    ProcessAt(files, item, OutputPath(folder, item), keyBlob, forcedPath, format, crypto)
  }

  /** Probing `output` does not throw: there is no file there, or it loads. */
  predicate ProbeSucceeds(files: map<string, seq<byte>>, output: string, format: ImageFormat) {
    output in files ==> format.read(files[output]).Some?
  }

  /** An existing signed copy that fails to load is not treated as missing:
      the exception is rethrown and nothing is written. */
  lemma ProbeFailureAborts(
    files: map<string, seq<byte>>, item: string, output: string, keyBlob: seq<byte>,
    forcedPath: Option<string>, format: ImageFormat, crypto: Crypto)
    requires !ProbeSucceeds(files, output, format)
    ensures ProcessAt(files, item, output, keyBlob, forcedPath, format, crypto)
         == Step(Err(OutputUnreadable(output)), files)
  {
  }

  /** A missing input is answered with itself, whatever the forced path, and
      nothing is written. */
  lemma MissingInputPassesThrough(
    files: map<string, seq<byte>>, item: string, output: string, keyBlob: seq<byte>,
    forcedPath: Option<string>, format: ImageFormat, crypto: Crypto)
    requires ProbeSucceeds(files, output, format)
    requires item !in files
    ensures ProcessAt(files, item, output, keyBlob, forcedPath, format, crypto) == Step(Ok(item), files)
  {
  }

  /** An input that already has a public key is answered with itself and
      nothing is written, even when a signed copy with its Mvid exists. */
  lemma SignedInputPassesThrough(
    files: map<string, seq<byte>>, item: string, output: string, keyBlob: seq<byte>,
    forcedPath: Option<string>, format: ImageFormat, crypto: Crypto)
    requires ProbeSucceeds(files, output, format)
    requires item in files
    requires var source := SourcePath(item, forcedPath);
      source in files && format.read(files[source]).Some? && format.read(files[source]).value.HasPublicKey()
    ensures ProcessAt(files, item, output, keyBlob, forcedPath, format, crypto) == Step(Ok(item), files)
  {
  }

  /** An unsigned input whose Mvid is that of the existing signed copy, and
      not empty, is answered with the signed copy's path and nothing is
      written. */
  lemma MatchingMvidReusesOutput(
    files: map<string, seq<byte>>, item: string, output: string, keyBlob: seq<byte>,
    forcedPath: Option<string>, format: ImageFormat, crypto: Crypto)
    requires item in files
    requires output in files && format.read(files[output]).Some? && format.read(files[output]).value.mvid != EmptyGuid
    requires var source := SourcePath(item, forcedPath);
      && source in files && format.read(files[source]).Some?
      && !format.read(files[source]).value.HasPublicKey()
      && format.read(files[source]).value.mvid == format.read(files[output]).value.mvid
    ensures ProcessAt(files, item, output, keyBlob, forcedPath, format, crypto)
         == Step(Ok(output), files)
  {
    var existingMvid := format.read(files[output]).value.mvid;
    var image := format.read(files[SourcePath(item, forcedPath)]).value;
    assert existingMvid != EmptyGuid && image.mvid == existingMvid && !image.HasPublicKey();
  }

  /** An existing input whose source (the forced path, or the input itself)
      is missing or does not load makes the load throw; nothing is written. */
  lemma InputUnreadableAborts(
    files: map<string, seq<byte>>, item: string, output: string, keyBlob: seq<byte>,
    forcedPath: Option<string>, format: ImageFormat, crypto: Crypto)
    requires ProbeSucceeds(files, output, format)
    requires item in files
    requires var source := SourcePath(item, forcedPath);
      source !in files || format.read(files[source]).None?
    ensures ProcessAt(files, item, output, keyBlob, forcedPath, format, crypto)
         == Step(Err(InputUnreadable(SourcePath(item, forcedPath))), files)
  {
  }

  /** Otherwise the input is signed. A key the CryptoAPI cannot convert
      throws only now, when some input needs signing, and nothing is written.
      With a convertible key the output file holds what the writer made of
      the signed image, or is gone when the write threw, and either way the
      answer is the output path. */
  lemma SigningWritesSignedImage(
    files: map<string, seq<byte>>, item: string, output: string, keyBlob: seq<byte>,
    forcedPath: Option<string>, format: ImageFormat, crypto: Crypto)
    requires ProbeSucceeds(files, output, format)
    requires item in files
    requires var source := SourcePath(item, forcedPath);
      source in files && format.read(files[source]).Some? && !format.read(files[source]).value.HasPublicKey()
    requires output in files ==>
        format.read(files[output]).value.mvid == EmptyGuid ||
        format.read(files[output]).value.mvid != format.read(files[SourcePath(item, forcedPath)]).value.mvid
    ensures crypto.capiPublicKeyBlob(keyBlob).None? ==>
      ProcessAt(files, item, output, keyBlob, forcedPath, format, crypto) == Step(Err(KeyUnreadable), files)
    ensures crypto.capiPublicKeyBlob(keyBlob).Some? ==>
      var image := format.read(files[SourcePath(item, forcedPath)]).value;
      var publicKey := PublicKeyBlob(crypto.capiPublicKeyBlob(keyBlob).value);
      var signed := Signed(image, publicKey, GetKeyTokenFromKey(publicKey, crypto.sha1));
      var s := ProcessAt(files, item, output, keyBlob, forcedPath, format, crypto);
      && (signed.None? ==> s == Step(Err(FriendDeclarationWithoutArgument(item)), files))
      && (signed.Some? ==>
            && s.result == Ok(output)
            && s.files == AfterWrite(files, output, format.write(output, signed.value, keyBlob)))
  {
    var image := format.read(files[SourcePath(item, forcedPath)]).value;
    assert ProcessAt(files, item, output, keyBlob, forcedPath, format, crypto)
        == SignAndWrite(files, item, output, image, keyBlob, format, crypto);
  }

  /** The writer keeps the Mvid: what a successful write produces loads back
      with the Mvid of the image written. */
  ghost predicate KeepsMvid(format: ImageFormat) {
    forall path, image, keyBlob :: format.write(path, image, keyBlob).Some? ==>
      (format.read(format.write(path, image, keyBlob).value).Some? &&
       format.read(format.write(path, image, keyBlob).value).value.mvid == image.mvid)
  }

  /** A signed copy that was written loads back with the input's Mvid. */
  lemma WrittenOutputKeepsMvid(
    files: map<string, seq<byte>>, item: string, output: string, image: AssemblyImage,
    keyBlob: seq<byte>, format: ImageFormat, crypto: Crypto)
    requires KeepsMvid(format)
    requires var s := SignAndWrite(files, item, output, image, keyBlob, format, crypto);
      s.result.Ok? && output in s.files
    ensures var s := SignAndWrite(files, item, output, image, keyBlob, format, crypto);
      format.read(s.files[output]).Some? && format.read(s.files[output]).value.mvid == image.mvid
  {
    var csp := crypto.capiPublicKeyBlob(keyBlob).value;
    var publicKey := PublicKeyBlob(csp);
    var token := GetKeyTokenFromKey(publicKey, crypto.sha1);
    var signed := Signed(image, publicKey, token).value;
    var written := format.write(output, signed, keyBlob);
    SignedIdentity(image, publicKey, token);
    assert written.Some?;
  }

  /** After a first run that answered with the output path and left a file
      there, the input, its source and an output with the input's Mvid are
      all in place. */
  lemma FirstRunLeavesOutput(
    files: map<string, seq<byte>>, item: string, output: string, keyBlob: seq<byte>,
    forcedPath: Option<string>, format: ImageFormat, crypto: Crypto)
    requires KeepsMvid(format)
    requires output != item && output != SourcePath(item, forcedPath)
    requires var source := SourcePath(item, forcedPath);
      source in files && format.read(files[source]).Some?
    requires var s := ProcessAt(files, item, output, keyBlob, forcedPath, format, crypto);
      s.result == Ok(output) && output in s.files
    ensures var s := ProcessAt(files, item, output, keyBlob, forcedPath, format, crypto);
      var source := SourcePath(item, forcedPath);
      var image := format.read(files[source]).value;
      && item in s.files && source in s.files && s.files[source] == files[source]
      && !image.HasPublicKey()
      && format.read(s.files[output]).Some? && format.read(s.files[output]).value.mvid == image.mvid
  {
    var source := SourcePath(item, forcedPath);
    var s := ProcessAt(files, item, output, keyBlob, forcedPath, format, crypto);
    var image := format.read(files[source]).value;
    assert item in files && !image.HasPublicKey();
    var cacheHit := output in files && format.read(files[output]).value.mvid != EmptyGuid
                    && image.mvid == format.read(files[output]).value.mvid;
    if !cacheHit {
      assert s == SignAndWrite(files, item, output, image, keyBlob, format, crypto);
      WrittenOutputKeepsMvid(files, item, output, image, keyBlob, format, crypto);
    }
  }

  /** Build incrementality: once an input has been signed into its output,
      processing it again reuses that output and writes nothing, provided the
      writer keeps the Mvid, the Mvid is not empty and the output is neither
      the input nor the path it was loaded from. */
  lemma RerunReusesOutput(
    files: map<string, seq<byte>>, item: string, output: string, keyBlob: seq<byte>,
    forcedPath: Option<string>, format: ImageFormat, crypto: Crypto)
    requires KeepsMvid(format)
    requires output != item && output != SourcePath(item, forcedPath)
    requires var source := SourcePath(item, forcedPath);
      source in files && format.read(files[source]).Some? && format.read(files[source]).value.mvid != EmptyGuid
    requires var s := ProcessAt(files, item, output, keyBlob, forcedPath, format, crypto);
      s.result == Ok(output) && output in s.files
    ensures var s := ProcessAt(files, item, output, keyBlob, forcedPath, format, crypto);
      ProcessAt(s.files, item, output, keyBlob, forcedPath, format, crypto) == Step(Ok(output), s.files)
  {
    var s := ProcessAt(files, item, output, keyBlob, forcedPath, format, crypto);
    FirstRunLeavesOutput(files, item, output, keyBlob, forcedPath, format, crypto);
    MatchingMvidReusesOutput(s.files, item, output, keyBlob, forcedPath, format, crypto);
  }

  // ---------------------------------------------------------------------------
  // Reference assemblies and their implementation copies

  /** A path inside a `ref` folder names a reference-only assembly. */
  predicate IsRefPath(path: string) {
    Contains(path, "/ref/") || Contains(path, "\\ref\\")
  }

  /** `candidate` ends with a separator and `fileName`, ignoring case. */
  predicate MatchesFileName(candidate: string, fileName: string) {
    EndsWithIgnoreCase(candidate, "/" + fileName) || EndsWithIgnoreCase(candidate, "\\" + fileName)
  }

  predicate NoMatchBefore(candidates: seq<string>, fileName: string, k: int)
    requires 0 <= k <= |candidates|
  {
    forall j :: 0 <= j < k ==> !MatchesFileName(candidates[j], fileName)
  }

  /** `FirstOrDefault` over the copy-local paths: the first that matches. */
  function FirstMatch(candidates: seq<string>, fileName: string): (r: Option<string>)
    ensures r.None? <==> NoMatchBefore(candidates, fileName, |candidates|)
    ensures r.Some? ==> exists i :: 0 <= i < |candidates| && candidates[i] == r.value &&
                                    MatchesFileName(r.value, fileName) && NoMatchBefore(candidates, fileName, i)
  {
    if candidates == [] then None
    else if MatchesFileName(candidates[0], fileName) then
      assert NoMatchBefore(candidates, fileName, 0);
      Some(candidates[0])
    else
      var r := FirstMatch(candidates[1..], fileName);
      assert forall j :: 0 < j < |candidates| ==> candidates[j] == candidates[1..][j - 1];
      if r.Some? then
        var i :| 0 <= i < |candidates| - 1 && candidates[1..][i] == r.value &&
                 MatchesFileName(r.value, fileName) && NoMatchBefore(candidates[1..], fileName, i);
        assert NoMatchBefore(candidates, fileName, i + 1);
        r
      else r
  }

  /** A copy-local path that matches a file name has that file name,
      ignoring case. */
  lemma MatchNamesTheFile(candidate: string, fileName: string)
    requires NoSeparator(fileName)
    requires MatchesFileName(candidate, fileName)
    ensures FoldCase(FileName(candidate)) == FoldCase(fileName)
  {
    if EndsWithIgnoreCase(candidate, "/" + fileName) {
      EndsWithFileName(candidate, '/', fileName);
    } else {
      EndsWithFileName(candidate, '\\', fileName);
    }
  }

  /** Names that fold alike find the same copy-local path. */
  lemma {:induction false} FirstMatchSameFold(candidates: seq<string>, a: string, b: string)
    requires FoldCase(a) == FoldCase(b)
    ensures FirstMatch(candidates, a) == FirstMatch(candidates, b)
  {
    if candidates != [] {
      EndsWithSameFold(candidates[0], '/', a, b);
      EndsWithSameFold(candidates[0], '\\', a, b);
      assert MatchesFileName(candidates[0], a) <==> MatchesFileName(candidates[0], b);
      FirstMatchSameFold(candidates[1..], a, b);
    }
  }

  /** `resolverPaths.Where(IsRefPath)`: the reference-only paths, in order. */
  function RefOnly(paths: seq<string>): (refs: seq<string>)
    ensures |refs| <= |paths|
  {
    if paths == [] then []
    else (if IsRefPath(paths[0]) then [paths[0]] else []) + RefOnly(paths[1..])
  }

  /** A path is among the reference-only paths exactly when it is in the
      list and names a reference-only assembly. */
  lemma RefOnlyMember(paths: seq<string>, p: string)
    ensures p in RefOnly(paths) <==> p in paths && IsRefPath(p)
  {
    RefOnlyCounts(paths);
    assert p in RefOnly(paths) <==> multiset(RefOnly(paths))[p] > 0;
    assert p in paths <==> multiset(paths)[p] > 0;
  }

  /** `RefOnly` keeps every reference-only path as often as it occurs, and
      nothing else. */
  lemma {:induction false} RefOnlyCounts(paths: seq<string>)
    ensures forall p :: multiset(RefOnly(paths))[p] == if IsRefPath(p) then multiset(paths)[p] else 0
    ensures multiset(RefOnly(paths)) <= multiset(paths)
  {
    if paths != [] {
      var kept := if IsRefPath(paths[0]) then [paths[0]] else [];
      RefOnlyCounts(paths[1..]);
      assert paths == [paths[0]] + paths[1..];
      assert multiset(RefOnly(paths)) == multiset(kept) + multiset(RefOnly(paths[1..]));
    }
  }

  /** `RefOnly` is a filter: it keeps the order of the list, and a path is
      kept exactly when it names a reference-only assembly. */
  lemma {:induction false} RefOnlyIsFilter(a: seq<string>, b: seq<string>, p: string)
    ensures RefOnly(a + b) == RefOnly(a) + RefOnly(b)
    ensures RefOnly([p]) == if IsRefPath(p) then [p] else []
  {
    if a != [] {
      RefOnlyIsFilter(a[1..], b, p);
      RefOnlyFilterStep(a, b);
    } else {
      assert a + b == b;
      assert RefOnly(a) == [];
    }
    assert [p][1..] == [];
  }

  /** One element more in front of a concatenation. */
  lemma {:induction false} RefOnlyFilterStep(a: seq<string>, b: seq<string>)
    requires a != []
    requires RefOnly(a[1..] + b) == RefOnly(a[1..]) + RefOnly(b)
    ensures RefOnly(a + b) == RefOnly(a) + RefOnly(b)
  {
    var kept := if IsRefPath(a[0]) then [a[0]] else [];
    var rest, others := RefOnly(a[1..]), RefOnly(b);
    assert (a + b)[0] == a[0] && (a + b)[1..] == a[1..] + b;
    assert RefOnly(a + b) == kept + (rest + others);
    assert RefOnly(a) == kept + rest;
    AppendAssociates(kept, rest, others);
  }

  /** `List.IndexOf`: the first position of `x`, or -1. */
  function IndexOf(s: seq<string>, x: string): (i: int)
    ensures -1 <= i < |s|
    ensures i == -1 <==> x !in s
    ensures 0 <= i ==> s[i] == x && forall j :: 0 <= j < i ==> s[j] != x
  {
    if s == [] then -1
    else if s[0] == x then 0
    else
      var k := IndexOf(s[1..], x);
      if k == -1 then -1 else k + 1
  }

  /** The implementation copy a reference-only path is redirected to, if any. */
  function Redirection(copyLocalPaths: seq<string>): string -> Option<string> {
    r => FirstMatch(copyLocalPaths, FileName(r))
  }

  /** A redirection target is redirected to itself. */
  ghost predicate Settles(redirect: string -> Option<string>) {
    forall r :: redirect(r).Some? ==> redirect(redirect(r).value) == redirect(r)
  }

  /** A path `redirect` moves elsewhere. */
  ghost predicate Moves(redirect: string -> Option<string>, r: string) {
    redirect(r).Some? && redirect(r).value != r
  }

  /** The implementation copy found for a reference-only path has, ignoring
      case, the same file name, so it is found again for itself. */
  lemma RedirectionSettles(copyLocalPaths: seq<string>)
    ensures Settles(Redirection(copyLocalPaths))
  {
    var redirect := Redirection(copyLocalPaths);
    forall r | redirect(r).Some? ensures redirect(redirect(r).value) == redirect(r) {
      var target := redirect(r).value;
      assert FirstMatch(copyLocalPaths, FileName(r)) == Some(target);
      MatchNamesTheFile(target, FileName(r));
      FirstMatchSameFold(copyLocalPaths, FileName(target), FileName(r));
    }
  }

  /** The redirection table: every reference-only input that `redirect` maps
      to an implementation copy, mapped to that copy. */
  function RedirectionTable(assemblyPaths: seq<string>, redirect: string -> Option<string>): map<string, string> {
    map r | r in assemblyPaths && IsRefPath(r) && redirect(r).Some? :: redirect(r).value
  }

  /** The table `forcedRefPaths`: empty without copy-local files, otherwise
      each reference-only input with a copy-local path of its file name,
      mapped to the first such path. */
  function ForcedRefPaths(assemblyPaths: seq<string>, copyLocalFiles: Option<seq<string>>): map<string, string> {
    if copyLocalFiles.None? then map[]
    else RedirectionTable(assemblyPaths, Redirection(copyLocalFiles.value))
  }

  /** A reference-only input is redirected exactly when some copy-local path
      ends in a separator and its file name (ignoring case), and then to the
      first such path. */
  lemma ForcedRefPathsSpec(assemblyPaths: seq<string>, copyLocalPaths: seq<string>, r: string)
    ensures var table := ForcedRefPaths(assemblyPaths, Some(copyLocalPaths));
      r in table <==>
        r in assemblyPaths && IsRefPath(r) && !NoMatchBefore(copyLocalPaths, FileName(r), |copyLocalPaths|)
    ensures var table := ForcedRefPaths(assemblyPaths, Some(copyLocalPaths));
      r in table ==>
        exists i :: 0 <= i < |copyLocalPaths| && copyLocalPaths[i] == table[r] &&
                    MatchesFileName(table[r], FileName(r)) && NoMatchBefore(copyLocalPaths, FileName(r), i)
  {
    var redirect := Redirection(copyLocalPaths);
    var table := ForcedRefPaths(assemblyPaths, Some(copyLocalPaths));
    assert table == RedirectionTable(assemblyPaths, redirect);
    var m := FirstMatch(copyLocalPaths, FileName(r));
    assert redirect(r) == m;
    assert r in table <==> r in assemblyPaths && IsRefPath(r) && m.Some?;
    if r in table {
      assert table[r] == m.value;
    }
  }

  /** Without copy-local files nothing is redirected. */
  lemma NoCopyLocalNoRedirection(assemblyPaths: seq<string>)
    ensures ForcedRefPaths(assemblyPaths, None) == map[]
  {
  }

  /** The reference-only paths still to process are all in the search list. */
  lemma PendingInList(refs: seq<string>, k: nat, s: seq<string>)
    requires k < |refs| && multiset(refs[k..]) <= multiset(s)
    ensures refs[k] in s
  {
    assert refs[k] in multiset(refs[k..]);
  }

  lemma SkipKeepsPending(refs: seq<string>, k: nat, s: seq<string>)
    requires k < |refs| && multiset(refs[k..]) <= multiset(s)
    ensures multiset(refs[k + 1..]) <= multiset(s)
  {
    assert refs[k..] == [refs[k]] + refs[k + 1..];
  }

  /** Overwriting the entry of the next pending path keeps the later pending
      paths in the search list. */
  lemma ReplaceKeepsPending(refs: seq<string>, k: nat, s: seq<string>, at: nat, x: string)
    requires k < |refs| && multiset(refs[k..]) <= multiset(s)
    requires at < |s| && s[at] == refs[k]
    ensures multiset(refs[k + 1..]) <= multiset(s[at := x])
  {
    assert refs[k..] == [refs[k]] + refs[k + 1..];
    assert s == s[..at] + [s[at]] + s[at + 1..];
    assert s[at := x] == s[..at] + [x] + s[at + 1..];
    assert multiset(s[at := x]) == multiset(s) - multiset{s[at]} + multiset{x};
  }

  /** The redirections recorded after the first `k` reference-only paths. */
  predicate RecordsRedirections(refOnlyAsms: seq<string>, redirect: string -> Option<string>,
                                forcedRefPaths: map<string, string>, k: nat)
    requires k <= |refOnlyAsms|
  {
    && (forall r :: r in forcedRefPaths ==> r in refOnlyAsms && redirect(r) == Some(forcedRefPaths[r]))
    && (forall t :: 0 <= t < k && redirect(refOnlyAsms[t]).Some? ==> refOnlyAsms[t] in forcedRefPaths)
  }

  /** Entries of the search list differ from the inputs only at reference-only
      inputs with a recorded redirection, and then hold its target. */
  predicate ChangedOnlyAtRefPaths(assemblyPaths: seq<string>, resolverPaths: seq<string>,
                                  forcedRefPaths: map<string, string>)
    requires |resolverPaths| == |assemblyPaths|
  {
    forall j :: 0 <= j < |assemblyPaths| && resolverPaths[j] != assemblyPaths[j] ==>
      IsRefPath(assemblyPaths[j]) && assemblyPaths[j] in forcedRefPaths &&
      resolverPaths[j] == forcedRefPaths[assemblyPaths[j]]
  }

  /** Every reference-only path that is moved elsewhere is still in the
      search list exactly as often as it is still to be processed. */
  ghost predicate PendingCounts(refOnlyAsms: seq<string>, redirect: string -> Option<string>, k: nat,
                                resolverPaths: seq<string>)
    requires k <= |refOnlyAsms|
  {
    forall x :: IsRefPath(x) && Moves(redirect, x) ==> multiset(resolverPaths)[x] == multiset(refOnlyAsms[k..])[x]
  }

  lemma CountStep(refOnlyAsms: seq<string>, redirect: string -> Option<string>, k: nat,
                  s: seq<string>, at: nat, target: string)
    requires Settles(redirect)
    requires k < |refOnlyAsms| && PendingCounts(refOnlyAsms, redirect, k, s)
    requires redirect(refOnlyAsms[k]) == Some(target)
    requires at < |s| && s[at] == refOnlyAsms[k]
    ensures PendingCounts(refOnlyAsms, redirect, k + 1, s[at := target])
  {
    var x0 := refOnlyAsms[k];
    assert refOnlyAsms[k..] == [x0] + refOnlyAsms[k + 1..];
    assert s == s[..at] + [x0] + s[at + 1..];
    assert s[at := target] == s[..at] + [target] + s[at + 1..];
    assert !Moves(redirect, target);
    forall x | IsRefPath(x) && Moves(redirect, x)
      ensures multiset(s[at := target])[x] == multiset(refOnlyAsms[k + 1..])[x]
    {
      assert x != target;
    }
  }

  lemma CountSkip(refOnlyAsms: seq<string>, redirect: string -> Option<string>, k: nat, s: seq<string>)
    requires k < |refOnlyAsms| && PendingCounts(refOnlyAsms, redirect, k, s)
    requires redirect(refOnlyAsms[k]).None?
    ensures PendingCounts(refOnlyAsms, redirect, k + 1, s)
  {
    assert refOnlyAsms[k..] == [refOnlyAsms[k]] + refOnlyAsms[k + 1..];
  }

  lemma RecordStep(refOnlyAsms: seq<string>, redirect: string -> Option<string>,
                   forcedRefPaths: map<string, string>, k: nat, target: string)
    requires k < |refOnlyAsms|
    requires RecordsRedirections(refOnlyAsms, redirect, forcedRefPaths, k)
    requires redirect(refOnlyAsms[k]) == Some(target)
    ensures RecordsRedirections(refOnlyAsms, redirect, forcedRefPaths[refOnlyAsms[k] := target], k + 1)
  {
  }

  lemma RecordSkip(refOnlyAsms: seq<string>, redirect: string -> Option<string>,
                   forcedRefPaths: map<string, string>, k: nat)
    requires k < |refOnlyAsms|
    requires RecordsRedirections(refOnlyAsms, redirect, forcedRefPaths, k)
    requires redirect(refOnlyAsms[k]).None?
    ensures RecordsRedirections(refOnlyAsms, redirect, forcedRefPaths, k + 1)
  {
  }

  lemma ChangeStep(assemblyPaths: seq<string>, resolverPaths: seq<string>, forcedRefPaths: map<string, string>,
                   redirect: string -> Option<string>, at: nat, refAsm: string, target: string)
    requires |resolverPaths| == |assemblyPaths|
    requires ChangedOnlyAtRefPaths(assemblyPaths, resolverPaths, forcedRefPaths)
    requires Settles(redirect)
    requires forall r :: r in forcedRefPaths ==> redirect(r) == Some(forcedRefPaths[r])
    requires at < |resolverPaths| && resolverPaths[at] == refAsm && IsRefPath(refAsm)
    requires redirect(refAsm) == Some(target)
    ensures ChangedOnlyAtRefPaths(assemblyPaths, resolverPaths[at := target], forcedRefPaths[refAsm := target])
  {
    var after := forcedRefPaths[refAsm := target];
    var changed := resolverPaths[at := target];
    forall j | 0 <= j < |assemblyPaths| && changed[j] != assemblyPaths[j]
      ensures IsRefPath(assemblyPaths[j]) && assemblyPaths[j] in after && changed[j] == after[assemblyPaths[j]]
    {
      var a := assemblyPaths[j];
      if j == at && resolverPaths[at] != a {
        // `a` was redirected to `refAsm` before, so `refAsm` is a target and stays put
        assert redirect(a) == Some(refAsm);
        assert target == refAsm;
      } else if j != at && a == refAsm {
        assert redirect(refAsm) == Some(forcedRefPaths[refAsm]);
      }
    }
  }

  lemma RecordsAllRedirections(assemblyPaths: seq<string>, redirect: string -> Option<string>,
                               forcedRefPaths: map<string, string>)
    requires RecordsRedirections(RefOnly(assemblyPaths), redirect, forcedRefPaths, |RefOnly(assemblyPaths)|)
    ensures forcedRefPaths == RedirectionTable(assemblyPaths, redirect)
  {
    var refOnlyAsms := RefOnly(assemblyPaths);
    var expected := RedirectionTable(assemblyPaths, redirect);
    forall r | r in expected ensures r in forcedRefPaths {
      RefOnlyMember(assemblyPaths, r);
      assert r in refOnlyAsms;
      var t :| 0 <= t < |refOnlyAsms| && refOnlyAsms[t] == r;
    }
    forall r | r in forcedRefPaths ensures r in expected {
      RefOnlyMember(assemblyPaths, r);
    }
  }

  lemma NoReferenceOnlyPaths(assemblyPaths: seq<string>, redirect: string -> Option<string>)
    requires RefOnly(assemblyPaths) == []
    ensures RedirectionTable(assemblyPaths, redirect) == map[]
  {
    RefOnlyCounts(assemblyPaths);
    assert RedirectionTable(assemblyPaths, redirect).Keys == {};
  }

  /** What the redirection loop keeps true after the first `k` reference-only
      paths: the paths still to process are in the search list, which has its
      original length and differs from the inputs only as recorded. */
  ghost predicate RedirectionLoop(assemblyPaths: seq<string>, refOnlyAsms: seq<string>, redirect: string -> Option<string>,
                            k: nat, resolverPaths: seq<string>, forcedRefPaths: map<string, string>)
  {
    && k <= |refOnlyAsms|
    && |resolverPaths| == |assemblyPaths|
    && multiset(refOnlyAsms[k..]) <= multiset(resolverPaths)
    && PendingCounts(refOnlyAsms, redirect, k, resolverPaths)
    && ChangedOnlyAtRefPaths(assemblyPaths, resolverPaths, forcedRefPaths)
    && RecordsRedirections(refOnlyAsms, redirect, forcedRefPaths, k)
  }

  /** Before the first iteration, the search list is the input list. */
  lemma RedirectionLoopStarts(assemblyPaths: seq<string>, redirect: string -> Option<string>)
    ensures RedirectionLoop(assemblyPaths, RefOnly(assemblyPaths), redirect, 0, assemblyPaths, map[])
  {
    var refOnlyAsms := RefOnly(assemblyPaths);
    RefOnlyCounts(assemblyPaths);
    assert refOnlyAsms[0..] == refOnlyAsms;
  }

  /** After the last reference-only path, every input with a recorded
      redirection holds its target in the search list. */
  lemma AllRedirected(assemblyPaths: seq<string>, refOnlyAsms: seq<string>, redirect: string -> Option<string>,
                      resolverPaths: seq<string>, forcedRefPaths: map<string, string>)
    requires RedirectionLoop(assemblyPaths, refOnlyAsms, redirect, |refOnlyAsms|, resolverPaths, forcedRefPaths)
    requires forall r :: r in forcedRefPaths ==> IsRefPath(r)
    ensures forall j :: 0 <= j < |assemblyPaths| && assemblyPaths[j] in forcedRefPaths ==>
      resolverPaths[j] == forcedRefPaths[assemblyPaths[j]]
  {
    forall j | 0 <= j < |assemblyPaths| && assemblyPaths[j] in forcedRefPaths
      ensures resolverPaths[j] == forcedRefPaths[assemblyPaths[j]]
    {
      var a := assemblyPaths[j];
      if resolverPaths[j] == a {
        // no pending copy of a path that moves is left, and `a` is still there
        assert refOnlyAsms[|refOnlyAsms|..] == [];
        assert multiset(resolverPaths)[a] > 0;
        assert !Moves(redirect, a);
      }
    }
  }

  /** One iteration of the redirection loop (lines 123-131). */
  method RedirectOne(assemblyPaths: seq<string>, copyLocalPaths: seq<string>, k: nat,
                     resolverPaths: seq<string>, forcedRefPaths: map<string, string>)
    returns (resolverPaths': seq<string>, forcedRefPaths': map<string, string>)
    requires k < |RefOnly(assemblyPaths)|
    requires RedirectionLoop(assemblyPaths, RefOnly(assemblyPaths), Redirection(copyLocalPaths), k, resolverPaths, forcedRefPaths)
    ensures RedirectionLoop(assemblyPaths, RefOnly(assemblyPaths), Redirection(copyLocalPaths), k + 1, resolverPaths', forcedRefPaths')
  {
    RedirectionSettles(copyLocalPaths);
    var refOnlyAsms := RefOnly(assemblyPaths);
    var refAsm := refOnlyAsms[k];
    RefOnlyMember(assemblyPaths, refAsm);
    var fName := FileName(refAsm);
    var matchingCopyLocal := FirstMatch(copyLocalPaths, fName);
    assert matchingCopyLocal == Redirection(copyLocalPaths)(refAsm);
    if matchingCopyLocal.Some? {
      PendingInList(refOnlyAsms, k, resolverPaths);
      var at := IndexOf(resolverPaths, refAsm);
      var target := matchingCopyLocal.value;
      ReplaceKeepsPending(refOnlyAsms, k, resolverPaths, at, target);
      CountStep(refOnlyAsms, Redirection(copyLocalPaths), k, resolverPaths, at, target);
      ChangeStep(assemblyPaths, resolverPaths, forcedRefPaths, Redirection(copyLocalPaths), at, refAsm, target);
      RecordStep(refOnlyAsms, Redirection(copyLocalPaths), forcedRefPaths, k, target);
      resolverPaths' := resolverPaths[at := target];
      forcedRefPaths' := forcedRefPaths[refAsm := target];
    } else {
      SkipKeepsPending(refOnlyAsms, k, resolverPaths);
      CountSkip(refOnlyAsms, Redirection(copyLocalPaths), k, resolverPaths);
      RecordSkip(refOnlyAsms, Redirection(copyLocalPaths), forcedRefPaths, k);
      resolverPaths', forcedRefPaths' := resolverPaths, forcedRefPaths;
    }
  }

  /** Lines 120-136: replace each reference-only path in the resolver's search
      list by its implementation copy, and record the redirection. The list
      keeps its length; every entry whose input has a recorded redirection
      holds its target, and every other entry is unchanged; the position to
      overwrite always exists. */
  method RedirectReferenceAssemblies(assemblyPaths: seq<string>, copyLocalFiles: Option<seq<string>>)
    returns (resolverPaths: seq<string>, forcedRefPaths: map<string, string>)
    ensures |resolverPaths| == |assemblyPaths|
    ensures ChangedOnlyAtRefPaths(assemblyPaths, resolverPaths, forcedRefPaths)
    ensures forall j :: 0 <= j < |assemblyPaths| && assemblyPaths[j] in forcedRefPaths ==>
      resolverPaths[j] == forcedRefPaths[assemblyPaths[j]]
    ensures forcedRefPaths == ForcedRefPaths(assemblyPaths, copyLocalFiles)
  {
    resolverPaths := assemblyPaths;
    forcedRefPaths := map[];
    var refOnlyAsms := RefOnly(assemblyPaths);
    if |refOnlyAsms| > 0 && copyLocalFiles.Some? {
      var copyLocalPaths := copyLocalFiles.value;
      RedirectionLoopStarts(assemblyPaths, Redirection(copyLocalPaths));
      for k := 0 to |refOnlyAsms|
        invariant RedirectionLoop(assemblyPaths, refOnlyAsms, Redirection(copyLocalPaths), k, resolverPaths, forcedRefPaths)
      {
        resolverPaths, forcedRefPaths := RedirectOne(assemblyPaths, copyLocalPaths, k, resolverPaths, forcedRefPaths);
      }
      RecordsAllRedirections(assemblyPaths, Redirection(copyLocalPaths), forcedRefPaths);
      AllRedirected(assemblyPaths, refOnlyAsms, Redirection(copyLocalPaths), resolverPaths, forcedRefPaths);
    } else if copyLocalFiles.Some? {
      NoReferenceOnlyPaths(assemblyPaths, Redirection(copyLocalFiles.value));
    }
  }

  // ---------------------------------------------------------------------------
  // The batch

  /** The redirection recorded for `item`, if any (`TryGetValue`). */
  function ForcedPathOf(forcedRefPaths: map<string, string>, item: string): Option<string> {
    if item in forcedRefPaths then Some(forcedRefPaths[item]) else None
  }

  /** The path an input is loaded from instead of itself: there is one
      exactly when the input is a reference-only input with a copy-local
      path of its file name, and it is the first such copy-local path. */
  lemma ForcedPathIsImplementationCopy(assemblyPaths: seq<string>, copyLocalFiles: Option<seq<string>>, item: string)
    ensures var forced := ForcedPathOf(ForcedRefPaths(assemblyPaths, copyLocalFiles), item);
      forced.Some? <==>
        copyLocalFiles.Some? && item in assemblyPaths && IsRefPath(item) &&
        !NoMatchBefore(copyLocalFiles.value, FileName(item), |copyLocalFiles.value|)
    ensures var forced := ForcedPathOf(ForcedRefPaths(assemblyPaths, copyLocalFiles), item);
      forced.Some? ==>
        exists i :: 0 <= i < |copyLocalFiles.value| && copyLocalFiles.value[i] == forced.value &&
                    MatchesFileName(forced.value, FileName(item)) && NoMatchBefore(copyLocalFiles.value, FileName(item), i)
  {
    if copyLocalFiles.Some? {
      ForcedRefPathsSpec(assemblyPaths, copyLocalFiles.value, item);
    }
  }

  /** The state of the batch loop: the answers so far, the table of inputs
      whose answer differs from the input, the files, and the exception that
      stopped the loop, if any. */
  datatype Batch = Batch(
    signed: seq<string>,
    updated: map<string, string>,
    files: map<string, seq<byte>>,
    fault: Option<Fault>)

  /** What the batch loop keeps true: every answer is its input or the
      input's output path, and `updatedReferencePaths` holds exactly the
      inputs that some answer moved, each mapped to one of its answers. */
  predicate BatchInvariant(items: seq<string>, folder: string, b: Batch) {
    && |b.signed| <= |items|
    && (forall i :: 0 <= i < |b.signed| ==> b.signed[i] == items[i] || b.signed[i] == OutputPath(folder, items[i]))
    && (forall i :: 0 <= i < |b.signed| && b.signed[i] != items[i] ==> items[i] in b.updated)
    && (forall k :: k in b.updated ==> b.updated[k] != k && AnsweredAs(items, b.signed, k, b.updated[k]))
  }

  /** Some input `k` got the answer `answer`. */
  predicate AnsweredAs(items: seq<string>, signed: seq<string>, k: string, answer: string) {
    exists i :: 0 <= i < |signed| && i < |items| && items[i] == k && signed[i] == answer
  }

  lemma BatchInvariantExtends(items: seq<string>, folder: string, b: Batch)
    requires items != []
    requires BatchInvariant(items[..|items| - 1], folder, b)
    ensures BatchInvariant(items, folder, b)
  {
    var prefix := items[..|items| - 1];
    forall k | k in b.updated ensures AnsweredAs(items, b.signed, k, b.updated[k]) {
      var i :| 0 <= i < |b.signed| && i < |prefix| && prefix[i] == k && b.signed[i] == b.updated[k];
      assert items[i] == k;
    }
  }

  lemma {:induction false} BatchInvariantStep(items: seq<string>, folder: string, before: Batch, path: string,
                                               files: map<string, seq<byte>>)
    requires items != []
    requires BatchInvariant(items[..|items| - 1], folder, before)
    requires |before.signed| == |items| - 1
    requires path == items[|items| - 1] || path == OutputPath(folder, items[|items| - 1])
    ensures
      var item := items[|items| - 1];
      BatchInvariant(items, folder,
        Batch(before.signed + [path], if path != item then before.updated[item := path] else before.updated, files, None))
  {
    var item := items[|items| - 1];
    var n := |items| - 1;
    var updated := if path != item then before.updated[item := path] else before.updated;
    var after := Batch(before.signed + [path], updated, files, None);
    BatchInvariantExtends(items, folder, before);
    forall i | 0 <= i < |after.signed|
      ensures after.signed[i] == items[i] || after.signed[i] == OutputPath(folder, items[i])
      ensures after.signed[i] != items[i] ==> items[i] in updated
    {
      if i < n {
        assert after.signed[i] == before.signed[i];
      }
    }
    forall k | k in updated ensures updated[k] != k && AnsweredAs(items, after.signed, k, updated[k]) {
      if path != item && k == item {
        assert items[n] == k && after.signed[n] == updated[k];
      } else {
        var i :| 0 <= i < |before.signed| && i < |items| && items[i] == k && before.signed[i] == before.updated[k];
        assert after.signed[i] == updated[k];
      }
    }
    assert |after.signed| <= |items|;
    assert BatchInvariant(items, folder, after);
  }

  /** Lines 146-157 on the inputs `items`, in order, stopping at the first
      exception. */
  function RunBatch(
    files: map<string, seq<byte>>, items: seq<string>, folder: string, keyBlob: seq<byte>,
    forcedRefPaths: map<string, string>, format: ImageFormat, crypto: Crypto): (b: Batch)
    ensures b.fault.None? ==> |b.signed| == |items|
    ensures BatchInvariant(items, folder, b)
    decreases |items|
  {
    if items == [] then Batch([], map[], files, None)
    else
      var before := RunBatch(files, items[..|items| - 1], folder, keyBlob, forcedRefPaths, format, crypto);
      if before.fault.Some? then
        BatchInvariantExtends(items, folder, before);
        before
      else
        var item := items[|items| - 1];
        var step := ProcessResult(before.files, item, folder, keyBlob, ForcedPathOf(forcedRefPaths, item), format, crypto);
        match step.result
        case Err(e) =>
          BatchInvariantExtends(items, folder, before);
          before.(files := step.files, fault := Some(e))
        case Ok(path) =>
          BatchInvariantStep(items, folder, before, path, step.files);
          Batch(before.signed + [path],
                if path != item then before.updated[item := path] else before.updated,
                step.files, None)
  }

  /** The batch over one more input, in terms of the batch before it. */
  lemma RunBatchNext(
    files: map<string, seq<byte>>, items: seq<string>, i: nat, folder: string, keyBlob: seq<byte>,
    forcedRefPaths: map<string, string>, format: ImageFormat, crypto: Crypto)
    requires i < |items|
    requires RunBatch(files, items[..i], folder, keyBlob, forcedRefPaths, format, crypto).fault.None?
    ensures
      var before := RunBatch(files, items[..i], folder, keyBlob, forcedRefPaths, format, crypto);
      var step := ProcessResult(before.files, items[i], folder, keyBlob, ForcedPathOf(forcedRefPaths, items[i]), format, crypto);
      var after := RunBatch(files, items[..i + 1], folder, keyBlob, forcedRefPaths, format, crypto);
      && (step.result.Err? ==> after == before.(files := step.files, fault := Some(step.result.error)))
      && (step.result.Ok? ==>
            after == Batch(before.signed + [step.result.value],
                           if step.result.value != items[i] then before.updated[items[i] := step.result.value]
                           else before.updated,
                           step.files, None))
  {
    var prefix := items[..i + 1];
    assert prefix[..|prefix| - 1] == items[..i];
    assert prefix[|prefix| - 1] == items[i];
  }

  /** `p` is the output path of none of the inputs. */
  predicate NotAnOutput(items: seq<string>, folder: string, p: string) {
    forall i :: 0 <= i < |items| ==> p != OutputPath(folder, items[i])
  }

  /** The batch writes and deletes output paths only: any other path keeps
      its contents, or stays absent. */
  lemma {:induction false} BatchWritesOnlyOutputs(
    files: map<string, seq<byte>>, items: seq<string>, folder: string, keyBlob: seq<byte>,
    forcedRefPaths: map<string, string>, format: ImageFormat, crypto: Crypto, p: string)
    requires NotAnOutput(items, folder, p)
    ensures var b := RunBatch(files, items, folder, keyBlob, forcedRefPaths, format, crypto);
      (p in b.files <==> p in files) && (p in files ==> b.files[p] == files[p])
    decreases |items|
  {
    if items != [] {
      var prefix := items[..|items| - 1];
      var item := items[|items| - 1];
      assert NotAnOutput(prefix, folder, p) by {
        forall i | 0 <= i < |prefix| ensures p != OutputPath(folder, prefix[i]) {
          assert prefix[i] == items[i];
        }
      }
      BatchWritesOnlyOutputs(files, prefix, folder, keyBlob, forcedRefPaths, format, crypto, p);
      var before := RunBatch(files, prefix, folder, keyBlob, forcedRefPaths, format, crypto);
      var n := |items| - 1;
      assert items[..n + 1] == items;
      if before.fault.Some? {
        BatchStopsAtFault(files, items, n, folder, keyBlob, forcedRefPaths, format, crypto);
      } else {
        RunBatchNext(files, items, n, folder, keyBlob, forcedRefPaths, format, crypto);
        var output := OutputPath(folder, item);
        var step := ProcessResult(before.files, item, folder, keyBlob, ForcedPathOf(forcedRefPaths, item), format, crypto);
        assert p != output;
        OnlyOneKeyChanged(before.files, step.files, output, p);
      }
    }
  }

  lemma OnlyOneKeyChanged(before: map<string, seq<byte>>, after: map<string, seq<byte>>, changed: string, p: string)
    requires after - {changed} == before - {changed}
    requires p != changed
    ensures (p in after <==> p in before) && (p in before ==> after[p] == before[p])
  {
    assert p in after <==> p in after - {changed};
    assert p in before <==> p in before - {changed};
  }

  /** An input `k` that some answer moved away from `k`. */
  predicate Moved(items: seq<string>, signed: seq<string>, k: string) {
    exists i :: 0 <= i < |signed| && i < |items| && items[i] == k && signed[i] != k
  }

  /** Lines 95-116, before anything is read or written. */
  datatype Configuration = NothingToSign | FolderNotSpecified | KeyFileNotSpecified | KeyFileNotFound | Ready

  /** An empty input list succeeds at once; a missing folder or key file is
      an error; otherwise signing goes ahead. */
  function CheckConfiguration(assemblies: seq<string>, folder: string, keyFile: string,
                              files: map<string, seq<byte>>): (c: Configuration)
    ensures c == NothingToSign <==> assemblies == []
    ensures c == Ready <==> assemblies != [] && folder != "" && keyFile != "" && keyFile in files
  {
    if assemblies == [] then NothingToSign
    else if folder == "" then FolderNotSpecified
    else if keyFile == "" then KeyFileNotSpecified
    else if keyFile !in files then KeyFileNotFound
    else Ready
  }

  /** The copy-local list `before` with every entry that is a key of
      `updated` replaced by its value, and every other entry kept. */
  function Remapped(before: seq<string>, updated: map<string, string>): seq<string> {
    seq(|before|, i requires 0 <= i < |before| => if before[i] in updated then updated[before[i]] else before[i])
  }

  /** Lines 160-176: each copy-local path that was an input with a new answer
      is replaced by that answer; every other entry passes through. */
  method RemapCopyLocalFiles(copyLocalFiles: seq<string>, updatedReferencePaths: map<string, string>)
    returns (newCopyLocalFiles: seq<string>)
    ensures newCopyLocalFiles == Remapped(copyLocalFiles, updatedReferencePaths)
  {
    var remapped := new string[|copyLocalFiles|];
    for i := 0 to |copyLocalFiles|
      invariant forall j :: 0 <= j < i && copyLocalFiles[j] in updatedReferencePaths ==>
        remapped[j] == updatedReferencePaths[copyLocalFiles[j]]
      invariant forall j :: 0 <= j < i && copyLocalFiles[j] !in updatedReferencePaths ==>
        remapped[j] == copyLocalFiles[j]
    {
      if copyLocalFiles[i] in updatedReferencePaths {
        remapped[i] := updatedReferencePaths[copyLocalFiles[i]];
      } else {
        remapped[i] := copyLocalFiles[i];
      }
    }
    newCopyLocalFiles := remapped[..];
  }

  /** What `Execute` leaves behind: its answer, the files, and the two output
      properties. */
  datatype Outcome = Outcome(
    result: Result<bool, Fault>,
    files: map<string, seq<byte>>,
    signedAssembliesToReference: Option<seq<string>>,
    newCopyLocalFiles: Option<seq<string>>)

  /** The whole task as a function of its inputs and the files: a rejected
      configuration changes nothing; otherwise the batch runs with the
      redirection table and, unless an input threw, the answers are published
      and the copy-local list is remapped. */
  function ExecuteOutcome(
    assemblies: seq<string>, folder: string, copyLocalFiles: Option<seq<string>>, keyFile: string,
    files: map<string, seq<byte>>, format: ImageFormat, crypto: Crypto,
    signedBefore: Option<seq<string>>, newCopyLocalBefore: Option<seq<string>>): Outcome
  {
    if CheckConfiguration(assemblies, folder, keyFile, files) != Ready then
      Outcome(Ok(assemblies == []), files, signedBefore, newCopyLocalBefore)
    else
      BatchOutcome(RunBatch(files, assemblies, folder, files[keyFile], ForcedRefPaths(assemblies, copyLocalFiles), format, crypto),
                   copyLocalFiles, signedBefore, newCopyLocalBefore)
  }

  /** Lines 159-176 after the batch `b`: on an exception the outputs keep
      their old values; otherwise the answers are published and the
      copy-local list, when given, is remapped. */
  function BatchOutcome(b: Batch, copyLocalFiles: Option<seq<string>>,
                        signedBefore: Option<seq<string>>, newCopyLocalBefore: Option<seq<string>>): Outcome {
    if b.fault.Some? then Outcome(Err(b.fault.value), b.files, signedBefore, newCopyLocalBefore)
    else
      Outcome(Ok(true), b.files, Some(b.signed),
              if copyLocalFiles.Some? then Some(Remapped(copyLocalFiles.value, b.updated)) else newCopyLocalBefore)
  }

  // ---------------------------------------------------------------------------
  // The AddStrongName object

  class AddStrongName {
    const assemblies: seq<string>
    const signedAssemblyFolder: string
    const copyLocalFiles: Option<seq<string>>
    const keyFile: string
    var signedAssembliesToReference: Option<seq<string>>
    var newCopyLocalFiles: Option<seq<string>>

    const fs: FileSystem
    const format: ImageFormat
    const crypto: Crypto
    const baseResolve: (AssemblyReference, ReaderParameters) -> BaseResolution

    constructor (
      assemblies: seq<string>, signedAssemblyFolder: string, copyLocalFiles: Option<seq<string>>,
      keyFile: string, fs: FileSystem, format: ImageFormat, crypto: Crypto,
      baseResolve: (AssemblyReference, ReaderParameters) -> BaseResolution)
      ensures this.assemblies == assemblies && this.signedAssemblyFolder == signedAssemblyFolder
      ensures this.copyLocalFiles == copyLocalFiles && this.keyFile == keyFile
      ensures this.fs == fs && this.format == format && this.crypto == crypto
      ensures this.baseResolve == baseResolve
      ensures signedAssembliesToReference.None? && newCopyLocalFiles.None?
    {
      this.assemblies := assemblies;
      this.signedAssemblyFolder := signedAssemblyFolder;
      this.copyLocalFiles := copyLocalFiles;
      this.keyFile := keyFile;
      this.fs := fs;
      this.format := format;
      this.crypto := crypto;
      this.baseResolve := baseResolve;
      signedAssembliesToReference := None;
      newCopyLocalFiles := None;
    }

    /** Lines 181-289 on the loaded object: the decisions, the in-place
        patching, and the write or the delete. */
    method ProcessAssembly(item: string, keyBytes: seq<byte>, forcedPath: Option<string>)
      returns (r: Result<string, Fault>)
      modifies fs
      ensures Step(r, fs.files) ==
        ProcessResult(old(fs.files), item, signedAssemblyFolder, keyBytes, forcedPath, format, crypto)
    {
      var assemblyOutputPath := Combine(signedAssemblyFolder, FileName(item));
      ghost var files := fs.files;
      assert ProcessResult(files, item, signedAssemblyFolder, keyBytes, forcedPath, format, crypto)
          == ProcessAt(files, item, assemblyOutputPath, keyBytes, forcedPath, format, crypto);
      var existingAssemblyMvid := EmptyGuid;
      if assemblyOutputPath in fs.files {
        var existing := format.read(fs.files[assemblyOutputPath]);
        if existing.None? {
          ProbeFailureAborts(files, item, assemblyOutputPath, keyBytes, forcedPath, format, crypto);
          return Err(OutputUnreadable(assemblyOutputPath));
        }
        existingAssemblyMvid := existing.value.mvid;
      }
      if item !in fs.files {
        MissingInputPassesThrough(files, item, assemblyOutputPath, keyBytes, forcedPath, format, crypto);
        return Ok(item);
      }
      var source := SourcePath(item, forcedPath);
      if source !in fs.files || format.read(fs.files[source]).None? {
        return Err(InputUnreadable(source));
      }
      var image := format.read(fs.files[source]).value;
      var assembly := new AssemblyDefinition.Read(image);
      if assembly.Image().HasPublicKey() {
        SignedInputPassesThrough(files, item, assemblyOutputPath, keyBytes, forcedPath, format, crypto);
        return Ok(item);
      }
      if existingAssemblyMvid != EmptyGuid && assembly.mvid == existingAssemblyMvid {
        MatchingMvidReusesOutput(files, item, assemblyOutputPath, keyBytes, forcedPath, format, crypto);
        return Ok(assemblyOutputPath);
      }
      assert ProcessAt(files, item, assemblyOutputPath, keyBytes, forcedPath, format, crypto)
          == SignAndWrite(files, item, assemblyOutputPath, image, keyBytes, format, crypto);
      r := SignAndWriteAssembly(assembly, item, assemblyOutputPath, keyBytes);
    }

    /** Lines 239-287 on the loaded object: derive the key and token, patch
        the object in place, then write it or delete the output. */
    method SignAndWriteAssembly(assembly: AssemblyDefinition, item: string, assemblyOutputPath: string,
                                keyBytes: seq<byte>)
      returns (r: Result<string, Fault>)
      modifies fs, assembly
      ensures Step(r, fs.files) ==
        SignAndWrite(old(fs.files), item, assemblyOutputPath, old(assembly.Image()), keyBytes, format, crypto)
    {
      var publicKey := GetPublicKey(keyBytes, crypto);
      if publicKey.None? {
        return Err(KeyUnreadable);
      }
      var token := GetKeyTokenFromKey(publicKey.value, crypto.sha1);
      ghost var unsigned := assembly.Image();
      assembly.SetStrongNameIdentity(publicKey.value);
      assembly.PatchReferences(token);
      var fullPublicKey := Hex(publicKey.value);
      var ok := assembly.PatchInternalsVisibleTo(fullPublicKey);
      if !ok {
        return Err(FriendDeclarationWithoutArgument(item));
      }
      assert Signed(unsigned, publicKey.value, token) == Some(assembly.Image());
      var written := format.write(assemblyOutputPath, assembly.Image(), keyBytes);
      if written.None? {
        fs.files := fs.files - {assemblyOutputPath};
      } else {
        fs.files := fs.files[assemblyOutputPath := written.value];
      }
      r := Ok(assemblyOutputPath);
    }

    /** Lines 146-157: process every input in order through `ProcessAssembly`,
        collecting the answers and the moved inputs, until an exception. */
    method ProcessAll(keyBytes: seq<byte>, forcedRefPaths: map<string, string>)
      returns (fault: Option<Fault>, signed: seq<string>, updatedReferencePaths: map<string, string>)
      modifies fs
      ensures var b := RunBatch(old(fs.files), assemblies, signedAssemblyFolder, keyBytes, forcedRefPaths, format, crypto);
        && fs.files == b.files
        && fault == b.fault
        && (fault.None? ==> signed == b.signed && updatedReferencePaths == b.updated)
    {
      ghost var initial := fs.files;
      signed := [];
      updatedReferencePaths := map[];
      for i := 0 to |assemblies|
        invariant RunBatch(initial, assemblies[..i], signedAssemblyFolder, keyBytes, forcedRefPaths, format, crypto)
               == Batch(signed, updatedReferencePaths, fs.files, None)
      {
        var item := assemblies[i];
        RunBatchNext(initial, assemblies, i, signedAssemblyFolder, keyBytes, forcedRefPaths, format, crypto);
        var result := ProcessAssembly(item, keyBytes, ForcedPathOf(forcedRefPaths, item));
        if result.Err? {
          BatchStopsAtFault(initial, assemblies, i + 1, signedAssemblyFolder, keyBytes, forcedRefPaths, format, crypto);
          return Some(result.error), signed, updatedReferencePaths;
        }
        signed := signed + [result.value];
        if result.value != item {
          updatedReferencePaths := updatedReferencePaths[item := result.value];
        }
      }
      assert assemblies[..|assemblies|] == assemblies;
      fault := None;
    }

    /** `Execute`: check the configuration, redirect reference assemblies,
        process every input in order, then publish the answers and remap the
        copy-local list. */
    method Execute() returns (r: Result<bool, Fault>)
      modifies this, fs
      ensures Outcome(r, fs.files, signedAssembliesToReference, newCopyLocalFiles) ==
        ExecuteOutcome(assemblies, signedAssemblyFolder, copyLocalFiles, keyFile, old(fs.files), format, crypto,
                       old(signedAssembliesToReference), old(newCopyLocalFiles))
    {
      var configuration := CheckConfiguration(assemblies, signedAssemblyFolder, keyFile, fs.files);
      if configuration != Ready {
        ExecuteOutcomeWhenNotReady(assemblies, signedAssemblyFolder, copyLocalFiles, keyFile, fs.files, format, crypto,
                                   signedAssembliesToReference, newCopyLocalFiles);
        return Ok(configuration == NothingToSign);
      }
      ExecuteOutcomeWhenReady(assemblies, signedAssemblyFolder, copyLocalFiles, keyFile, fs.files, format, crypto,
                              signedAssembliesToReference, newCopyLocalFiles);
      var resolverPaths, forcedRefPaths := RedirectReferenceAssemblies(assemblies, copyLocalFiles);
      var keyBytes := fs.files[keyFile];
      // The resolver is handed to Cecil, which alone asks it for assemblies.
      var snapshot := fs.files;
      var readAt := (p: string) => if p in snapshot then format.read(snapshot[p]) else None;
      var resolver := new StrongNamerAssemblyResolver(resolverPaths, baseResolve, p => p in snapshot, readAt);

      var fault, signed, updatedReferencePaths := ProcessAll(keyBytes, forcedRefPaths);
      if fault.Some? {
        return Err(fault.value);
      }
      signedAssembliesToReference := Some(signed);
      if copyLocalFiles.Some? {
        var remapped := RemapCopyLocalFiles(copyLocalFiles.value, updatedReferencePaths);
        newCopyLocalFiles := Some(remapped);
      }
      r := Ok(true);
    }
  }

  /** A stopped batch ignores the next input. */
  lemma RunBatchStopped(
    files: map<string, seq<byte>>, items: seq<string>, i: nat, folder: string, keyBlob: seq<byte>,
    forcedRefPaths: map<string, string>, format: ImageFormat, crypto: Crypto)
    requires i < |items|
    requires RunBatch(files, items[..i], folder, keyBlob, forcedRefPaths, format, crypto).fault.Some?
    ensures RunBatch(files, items[..i + 1], folder, keyBlob, forcedRefPaths, format, crypto)
         == RunBatch(files, items[..i], folder, keyBlob, forcedRefPaths, format, crypto)
  {
    assert items[..i + 1][..i] == items[..i];
  }

  /** Once the batch has stopped on an exception, later inputs change nothing. */
  lemma {:induction false} BatchStopsAtFault(
    files: map<string, seq<byte>>, items: seq<string>, n: nat, folder: string, keyBlob: seq<byte>,
    forcedRefPaths: map<string, string>, format: ImageFormat, crypto: Crypto)
    requires n <= |items|
    requires RunBatch(files, items[..n], folder, keyBlob, forcedRefPaths, format, crypto).fault.Some?
    ensures RunBatch(files, items, folder, keyBlob, forcedRefPaths, format, crypto)
         == RunBatch(files, items[..n], folder, keyBlob, forcedRefPaths, format, crypto)
    decreases |items| - n
  {
    if n < |items| {
      RunBatchStopped(files, items, n, folder, keyBlob, forcedRefPaths, format, crypto);
      BatchStopsAtFault(files, items, n + 1, folder, keyBlob, forcedRefPaths, format, crypto);
    } else {
      assert items[..n] == items;
    }
  }

  /** A successful run publishes one answer per input, in order, each the
      input or its output path; a copy-local entry changes exactly when it is
      an input that some answer moved, and then into one of its answers. */
  lemma {:induction false} ExecutePublishesAnswers(
    assemblies: seq<string>, folder: string, copyLocalFiles: Option<seq<string>>, keyFile: string,
    files: map<string, seq<byte>>, format: ImageFormat, crypto: Crypto,
    signedBefore: Option<seq<string>>, newCopyLocalBefore: Option<seq<string>>)
    requires assemblies != []
    requires ExecuteOutcome(assemblies, folder, copyLocalFiles, keyFile, files, format, crypto,
                            signedBefore, newCopyLocalBefore).result == Ok(true)
    ensures var o := ExecuteOutcome(assemblies, folder, copyLocalFiles, keyFile, files, format, crypto,
                                    signedBefore, newCopyLocalBefore);
      && o.signedAssembliesToReference.Some?
      && |o.signedAssembliesToReference.value| == |assemblies|
      && (forall i :: 0 <= i < |assemblies| ==>
            o.signedAssembliesToReference.value[i] == assemblies[i] ||
            o.signedAssembliesToReference.value[i] == OutputPath(folder, assemblies[i]))
    ensures var o := ExecuteOutcome(assemblies, folder, copyLocalFiles, keyFile, files, format, crypto,
                                    signedBefore, newCopyLocalBefore);
      copyLocalFiles.Some? ==>
        && o.newCopyLocalFiles.Some?
        && |o.newCopyLocalFiles.value| == |copyLocalFiles.value|
        && (forall i :: 0 <= i < |copyLocalFiles.value| ==>
              (o.newCopyLocalFiles.value[i] != copyLocalFiles.value[i] <==>
                 Moved(assemblies, o.signedAssembliesToReference.value, copyLocalFiles.value[i])))
        && (forall i :: 0 <= i < |copyLocalFiles.value| && o.newCopyLocalFiles.value[i] != copyLocalFiles.value[i] ==>
              AnsweredAs(assemblies, o.signedAssembliesToReference.value, copyLocalFiles.value[i],
                         o.newCopyLocalFiles.value[i]))
  {
    assert CheckConfiguration(assemblies, folder, keyFile, files) == Ready;
    ExecuteOutcomeWhenReady(assemblies, folder, copyLocalFiles, keyFile, files, format, crypto,
                            signedBefore, newCopyLocalBefore);
    var b := RunBatch(files, assemblies, folder, files[keyFile], ForcedRefPaths(assemblies, copyLocalFiles), format, crypto);
    assert b.fault.None? && BatchInvariant(assemblies, folder, b);
    if copyLocalFiles.Some? {
      RemapFollowsAnswers(assemblies, folder, b, copyLocalFiles.value);
    }
  }

  /** The copy-local remap by the batch's table of moved inputs. */
  lemma RemapFollowsAnswers(items: seq<string>, folder: string, b: Batch, copyLocal: seq<string>)
    requires BatchInvariant(items, folder, b)
    ensures var after := Remapped(copyLocal, b.updated);
      && |after| == |copyLocal|
      && (forall i :: 0 <= i < |copyLocal| ==> (after[i] != copyLocal[i] <==> Moved(items, b.signed, copyLocal[i])))
      && (forall i :: 0 <= i < |copyLocal| && after[i] != copyLocal[i] ==>
            AnsweredAs(items, b.signed, copyLocal[i], after[i]))
  {
    var after := Remapped(copyLocal, b.updated);
    forall i | 0 <= i < |copyLocal|
      ensures (after[i] != copyLocal[i] <==> Moved(items, b.signed, copyLocal[i]))
      ensures after[i] != copyLocal[i] ==> AnsweredAs(items, b.signed, copyLocal[i], after[i])
    {
      if copyLocal[i] in b.updated {
        var j :| 0 <= j < |b.signed| && j < |items| && items[j] == copyLocal[i] && b.signed[j] == b.updated[copyLocal[i]];
        assert b.signed[j] != copyLocal[i];
      } else {
        forall j | 0 <= j < |b.signed| && j < |items| && items[j] == copyLocal[i]
          ensures b.signed[j] == copyLocal[i]
        {
        }
      }
    }
  }

  /** Whatever happens, `Execute` writes and deletes output paths only. */
  lemma ExecuteWritesOnlyOutputs(
    assemblies: seq<string>, folder: string, copyLocalFiles: Option<seq<string>>, keyFile: string,
    files: map<string, seq<byte>>, format: ImageFormat, crypto: Crypto,
    signedBefore: Option<seq<string>>, newCopyLocalBefore: Option<seq<string>>, p: string)
    requires NotAnOutput(assemblies, folder, p)
    ensures var o := ExecuteOutcome(assemblies, folder, copyLocalFiles, keyFile, files, format, crypto,
                                    signedBefore, newCopyLocalBefore);
      (p in o.files <==> p in files) && (p in files ==> o.files[p] == files[p])
  {
    if CheckConfiguration(assemblies, folder, keyFile, files) == Ready {
      ExecuteOutcomeWhenReady(assemblies, folder, copyLocalFiles, keyFile, files, format, crypto,
                              signedBefore, newCopyLocalBefore);
      var forced := ForcedRefPaths(assemblies, copyLocalFiles);
      var b := RunBatch(files, assemblies, folder, files[keyFile], forced, format, crypto);
      BatchWritesOnlyOutputs(files, assemblies, folder, files[keyFile], forced, format, crypto, p);
      assert BatchOutcome(b, copyLocalFiles, signedBefore, newCopyLocalBefore).files == b.files;
    } else {
      ExecuteOutcomeWhenNotReady(assemblies, folder, copyLocalFiles, keyFile, files, format, crypto,
                                 signedBefore, newCopyLocalBefore);
    }
  }

  /** Once the configuration is ready, the outcome is that of the batch. */
  lemma ExecuteOutcomeWhenReady(
    assemblies: seq<string>, folder: string, copyLocalFiles: Option<seq<string>>, keyFile: string,
    files: map<string, seq<byte>>, format: ImageFormat, crypto: Crypto,
    signedBefore: Option<seq<string>>, newCopyLocalBefore: Option<seq<string>>)
    requires CheckConfiguration(assemblies, folder, keyFile, files) == Ready
    ensures ExecuteOutcome(assemblies, folder, copyLocalFiles, keyFile, files, format, crypto,
                           signedBefore, newCopyLocalBefore) ==
      BatchOutcome(RunBatch(files, assemblies, folder, files[keyFile], ForcedRefPaths(assemblies, copyLocalFiles), format, crypto),
                   copyLocalFiles, signedBefore, newCopyLocalBefore)
  {
  }

  /** A configuration that is not ready changes nothing, and the answer is
      success exactly when there was nothing to sign. */
  lemma ExecuteOutcomeWhenNotReady(
    assemblies: seq<string>, folder: string, copyLocalFiles: Option<seq<string>>, keyFile: string,
    files: map<string, seq<byte>>, format: ImageFormat, crypto: Crypto,
    signedBefore: Option<seq<string>>, newCopyLocalBefore: Option<seq<string>>)
    requires CheckConfiguration(assemblies, folder, keyFile, files) != Ready
    ensures ExecuteOutcome(assemblies, folder, copyLocalFiles, keyFile, files, format, crypto,
                           signedBefore, newCopyLocalBefore) ==
      Outcome(Ok(assemblies == []), files, signedBefore, newCopyLocalBefore)
  {
  }
}
