# StrongNamer in Dafny

StrongNamer is an MSBuild task, `AddStrongName`. It gives a strong name to every unsigned
assembly a project references and writes the signed copy into a separate folder. Strong-naming
an assembly means four things:

- derive the public-key blob and its 8-byte token from a key file;
- set the assembly's identity: public key, SHA-1 hash algorithm, attribute flags;
- give the token to every reference that has none;
- append `", PublicKey=<hex>"` to every `InternalsVisibleTo` declaration.

It then answers the build with the path to reference for each input: the signed copy, or the
input itself when the input is missing or already signed. It remaps the copy-local list the
same way. It reuses a signed copy whose Mvid (module version id) matches the input's Mvid, so
an unchanged input is not written again. Reference-only assemblies (paths in a `ref` folder)
are redirected to the matching implementation copy from the copy-local list. Its assembly
resolver, `StrongNamerAssemblyResolver`, first asks Cecil's base resolver. If that finds
nothing, it looks the simple name up among the input assemblies. It loads them on the first
such fallback; once loaded, they are never reloaded, and a load that throws is tried again on
the next fallback.

The model has seven modules:

- `Wrappers`: `Option` and `Result`.
- `Bytes`: bytes, `Enumerable.Reverse`, the little-endian length stores, and the hex text of
  `BitConverter.ToString(...).Replace("-", "")`.
- `Paths`: Windows `Path.GetFileName` and `Path.Combine`, ordinal `Contains`, and `EndsWith`
  ignoring case.
- `StrongNameKey`:
  - `GetPublicKey`, a method filling a byte array, proved against `PublicKeyBlob`;
  - `GetKeyTokenFromKey`.
- `Metadata`:
  - an assembly's metadata as a value (`AssemblyImage`) and as the loaded object Cecil
    patches in place (the `AssemblyDefinition` class);
  - the three patching steps, as methods proved against functions.
- `Resolver`: the resolver class, whose one mutable field is the list loaded on the first fallback, proved
  against the function `Resolution`.
- `Task`: the `AddStrongName` class.
  - Its file system is a `FileSystem` object holding a map from path to bytes.
  - `ProcessAssembly`, `ProcessAll` and `Execute` are methods that change the files and the
    output properties. Each is proved equal to a function of the old state: `ProcessResult`,
    `RunBatch`, `ExecuteOutcome`. Lemmas then prove what those functions promise.

Three things are given as function values:

- Cecil's reader and writer (`ImageFormat`);
- SHA-1 and the CryptoAPI key conversion (`Crypto`);
- the base resolver.

Five behaviours of the code are kept as written:

- A signed copy that exists but cannot be loaded is rethrown (`AddStrongName.cs:205-209`). It
  is not treated as a cache miss.
- The friend-declaration rewrite has no guard against an existing key clause, so running it
  twice appends the key twice.
- A failed write deletes the output file and still answers with the output path
  (`AddStrongName.cs:278-287`). It does not answer with the original path.
- Line 248 masks the attribute flags with `&=`; it does not set a flag. Cecil's
  `HasPublicKey` is the public-key bit of those flags, so `AssemblyImage.HasPublicKey` is that
  bit. After signing, the public-key bit is the only flag left.
- A key file that exists but that the CryptoAPI cannot convert is not rejected up front. It
  throws only when some input actually needs signing (`AddStrongName.cs:239`), so a run in
  which every input is missing, already signed or reused succeeds with that key.

## Model

| member | source | states |
|---|---|---|
| Bytes.Reverse | src/StrongNamer/AddStrongName.cs:299 | the result has the input's length and holds its elements last first |
| Bytes.DecodeLe32OfLe32 | src/StrongNamer/AddStrongName.cs:329-332 | reading back the four stored length bytes gives the length modulo 2^32, so every length below 2^32 survives |
| Bytes.Hex | src/StrongNamer/AddStrongName.cs:256 | two characters per byte, upper-case, high nibble first, bytes in their own order, no separators |
| Bytes.UnHexOfHex | src/StrongNamer/AddStrongName.cs:256 | the hex text loses nothing: decoding it gives back the key bytes |
| Paths.FileName | src/StrongNamer/AddStrongName.cs:126 | the file name is a suffix of the path with no separator and no `:`, and a separator or `:` precedes it unless it is the whole path |
| Paths.CombineCases | src/StrongNamer/AddStrongName.cs:189 | an empty name gives the folder; an empty folder or a rooted name gives the name; otherwise folder and name, joined by a backslash unless the folder ends with a separator or `:` |
| Paths.CombineKeepsFileName | src/StrongNamer/AddStrongName.cs:189 | a file name combined into any folder is again the file name of the result, so each output path keeps its input's file name |
| Paths.ContainsIffOccurs | src/StrongNamer/AddStrongName.cs:120 | ordinal `Contains` holds exactly when the needle occurs at some position of the string |
| StrongNameKey.PublicKeyBlob | src/StrongNamer/AddStrongName.cs:314-334 | for a CryptoAPI blob of n bytes: 12 + n bytes; bytes 0-7 are 00 24 00 00 04 80 00 00; the three header words decode to 0x2400, 0x8004 and n mod 2^32; the CryptoAPI blob follows unchanged |
| StrongNameKey.BlobHeaderBytes | src/StrongNamer/AddStrongName.cs:319-332 | the header is bytes 0, 36, 0, 0, 4, 128, 0, 0, then the length's four bytes, least significant first |
| StrongNameKey.GetPublicKey | src/StrongNamer/AddStrongName.cs:314-334 | the array filled by copy and stores equals `PublicKeyBlob` of the converted key; a key file that is not a key fails |
| StrongNameKey.GetKeyTokenFromKey | src/StrongNamer/AddStrongName.cs:291-300 | the token has 8 bytes and byte i is byte 19 - i of the SHA-1 digest |
| StrongNameKey.TokenIsReversedLowBytes | src/StrongNamer/AddStrongName.cs:291-300 | the token is the last eight digest bytes reversed: the low 8 bytes of ECMA-335 Partition II, section 6.3 |
| Metadata.SignedAttributes | src/StrongNamer/AddStrongName.cs:247-248 | after `HasPublicKey = true` and the `&=` mask, the public-key bit is set and no other flag is |
| Metadata.SignedAttributesForgetFlags | src/StrongNamer/AddStrongName.cs:247-248 | the flags after signing are the public-key bit alone, whatever they were before; a retargetable assembly loses `Retargetable` |
| Metadata.PatchedReferencesSpec | src/StrongNamer/AddStrongName.cs:250-254 | same count, order and names; a reference with a null or empty token gets the token; any other reference is unchanged |
| Metadata.PatchedAttributesSpec | src/StrongNamer/AddStrongName.cs:256-266 | the rewrite fails exactly when a friend declaration has no argument; otherwise every `InternalsVisibleTo` first argument s becomes s + ", PublicKey=" + hex, its other arguments stay, and every other attribute is unchanged |
| Metadata.PatchedAttributesNotIdempotent | src/StrongNamer/AddStrongName.cs:258-266 | with one friend declaration, rewriting the rewritten attributes again changes them: the key is appended twice |
| Metadata.SignedIdentity | src/StrongNamer/AddStrongName.cs:245-266 | a signed image has a public key, that key, SHA-1, the public-key bit as its only flag, patched references and friend declarations, and the same name and Mvid |
| Metadata.SignedFailsOnlyOnFriendDeclarations | src/StrongNamer/AddStrongName.cs:258-266 | patching fails exactly when some friend declaration has no argument |
| Metadata.AssemblyDefinition.Read | src/StrongNamer/AddStrongName.cs:218-221 | the loaded object holds the image read from the file |
| Metadata.AssemblyDefinition.SetStrongNameIdentity | src/StrongNamer/AddStrongName.cs:245-248 | the object gets the key, SHA-1 and the masked flags, and `HasPublicKey` holds; nothing else changes |
| Metadata.AssemblyDefinition.PatchReferences | src/StrongNamer/AddStrongName.cs:250-254 | the loop leaves exactly `PatchedReferences` of the old references and changes nothing else |
| Metadata.AssemblyDefinition.PatchInternalsVisibleTo | src/StrongNamer/AddStrongName.cs:256-266 | it succeeds exactly when `PatchedAttributes` does, and then leaves exactly its attributes; nothing else changes |
| Resolver.ExistingPathsCounts | src/StrongNamer/StrongNamerAssemblyResolver.cs:35-36 | the existing paths, each as often as in the path list, and no others |
| Resolver.ExistingPathsIsFilter | src/StrongNamer/StrongNamerAssemblyResolver.cs:35-36 | the filter keeps order: the existing paths of a concatenation are those of each part, in turn, and a single path is kept exactly when it exists |
| Resolver.ReadAll | src/StrongNamer/StrongNamerAssemblyResolver.cs:35-38 | every path read in order, or the first path that cannot be read |
| Resolver.SingleOrDefault | src/StrongNamer/StrongNamerAssemblyResolver.cs:41 | none when no simple name is equal (ordinal); the unique assembly with that name; an error exactly when two or more match |
| Resolver.Resolution | src/StrongNamer/StrongNamerAssemblyResolver.cs:20-44 | a base-resolver hit is the answer and leaves the list untouched; any base-resolver exception other than `AssemblyResolutionException` leaves `Resolve` and loads nothing; a loaded list is never reloaded or changed; the first fallback loads the existing paths in order, and a load that throws leaves the list unloaded; the fallback answer is `SingleOrDefault` on the list |
| Resolver.ResolutionExceptionIsNotFound | src/StrongNamer/StrongNamerAssemblyResolver.cs:23-29 | an `AssemblyResolutionException` from the base resolver gives the same answer and state as a null result |
| Resolver.StrongNamerAssemblyResolver.constructor | src/StrongNamer/StrongNamerAssemblyResolver.cs:13-16 | keeps the paths in order; the list is not loaded yet |
| Resolver.StrongNamerAssemblyResolver.ResolveWith | src/StrongNamer/StrongNamerAssemblyResolver.cs:20-44 | answer and new cached list are `Resolution` of the old list and the base resolver's outcome, other exceptions included |
| Resolver.StrongNamerAssemblyResolver.Resolve | src/StrongNamer/StrongNamerAssemblyResolver.cs:46-49 | the same as resolving with `new ReaderParameters()` |
| Task.AfterWrite | src/StrongNamer/AddStrongName.cs:269-282 | only the output path changes: it holds the written bytes, or no file when the write threw |
| Task.SignAndWrite | src/StrongNamer/AddStrongName.cs:239-287 | only the output file may change; a success answers with the output path; an error writes nothing |
| Task.ProcessAt | src/StrongNamer/AddStrongName.cs:181-289 | the answer is the input or the output path; only the output file may change, and only when the answer is the output path |
| Task.ProcessResult | src/StrongNamer/AddStrongName.cs:183-189 | the same, with the output path `Combine(folder, FileName(item))` |
| Task.ProbeFailureAborts | src/StrongNamer/AddStrongName.cs:196-209 | an existing output that fails to load is an error and nothing is written |
| Task.MissingInputPassesThrough | src/StrongNamer/AddStrongName.cs:212-216 | a missing input is answered with itself and nothing is written |
| Task.SignedInputPassesThrough | src/StrongNamer/AddStrongName.cs:218-227 | an input that already has a public key is answered with itself and nothing is written |
| Task.MatchingMvidReusesOutput | src/StrongNamer/AddStrongName.cs:229-236 | an unsigned input whose Mvid is the existing output's non-empty Mvid is answered with the output path and nothing is written |
| Task.InputUnreadableAborts | src/StrongNamer/AddStrongName.cs:218-221 | an existing input whose source (the forced copy-local path or the input itself) is missing or does not load is an error naming that source, and nothing is written |
| Task.SigningWritesSignedImage | src/StrongNamer/AddStrongName.cs:239-287 | otherwise the input is signed: a key the CryptoAPI cannot convert is an error and nothing is written; a friend declaration without argument is an error; else the answer is the output path and the output holds the writer's bytes for the signed image, or is deleted when writing threw |
| Task.WrittenOutputKeepsMvid | src/StrongNamer/AddStrongName.cs:269-276 | a written signed copy loads back with the input's Mvid, given a writer that keeps Mvids |
| Task.FirstRunLeavesOutput | src/StrongNamer/AddStrongName.cs:189-287 | after a run that wrote the output, the input and its source are unchanged, the input is unsigned, and the output has the input's Mvid |
| Task.RerunReusesOutput | src/StrongNamer/AddStrongName.cs:191-236 | processing the same input again reuses the output and writes nothing |
| Task.FirstMatch | src/StrongNamer/AddStrongName.cs:127 | none exactly when no copy-local path ends with a separator and the file name (ignoring case); otherwise the first one that does |
| Task.MatchNamesTheFile | src/StrongNamer/AddStrongName.cs:127 | a copy-local path that ends with a separator and the file name, ignoring case, has that file name, ignoring case |
| Task.FirstMatchSameFold | src/StrongNamer/AddStrongName.cs:127 | names that differ only in ASCII case find the same copy-local path |
| Task.RedirectionSettles | src/StrongNamer/AddStrongName.cs:126-127 | the copy-local path found for a reference-only path is found again for itself |
| Task.RefOnlyCounts | src/StrongNamer/AddStrongName.cs:120 | every path containing `/ref/` or `\ref\`, as often as in the list, and no other path |
| Task.RefOnlyIsFilter | src/StrongNamer/AddStrongName.cs:120 | the filter keeps order: the reference-only paths of a concatenation are those of each part, in turn, and a single path is kept exactly when it is reference-only |
| Task.IndexOf | src/StrongNamer/AddStrongName.cs:129 | the first position of the path, or -1 exactly when it is absent |
| Task.ForcedPathIsImplementationCopy | src/StrongNamer/AddStrongName.cs:148-149 | an input is loaded from another path exactly when it is a reference-only input with a copy-local path of its file name, and then from the first such path |
| Task.ForcedRefPathsSpec | src/StrongNamer/AddStrongName.cs:120-136 | a path is redirected exactly when it is a reference-only input with a matching copy-local path, and then to the first match |
| Task.NoCopyLocalNoRedirection | src/StrongNamer/AddStrongName.cs:122-124 | without copy-local files nothing is redirected |
| Task.RecordsAllRedirections | src/StrongNamer/AddStrongName.cs:125-133 | after the loop, the recorded table is exactly the redirection table |
| Task.RedirectOne | src/StrongNamer/AddStrongName.cs:126-131 | one loop step keeps the loop invariant: redirections recorded so far; pending paths still in the list, and each path that moves exactly as often as it is pending; an entry differs from its input only at a reference-only input with a recorded redirection, and then holds its target |
| Task.RedirectReferenceAssemblies | src/StrongNamer/AddStrongName.cs:117-136 | the search list keeps its length; each entry whose input has a redirection holds that input's target, and every other entry is its input; `forcedRefPaths` is the redirection table |
| Task.BatchInvariantStep | src/StrongNamer/AddStrongName.cs:149-156 | each answer is the input or its output path; the moved-input table maps exactly the moved inputs to one of their answers |
| Task.RunBatch | src/StrongNamer/AddStrongName.cs:146-157 | without an exception there is one answer per input, and the batch invariant holds |
| Task.RunBatchNext | src/StrongNamer/AddStrongName.cs:146-157 | the batch over one more input is the previous batch followed by one `ProcessAssembly` step |
| Task.BatchStopsAtFault | src/StrongNamer/AddStrongName.cs:146-151 | once an exception stopped the batch, later inputs change nothing |
| Task.BatchWritesOnlyOutputs | src/StrongNamer/AddStrongName.cs:146-157 | a path that is no input's output path keeps its contents, or stays absent |
| Task.CheckConfiguration | src/StrongNamer/AddStrongName.cs:95-116 | nothing to sign exactly for an empty input list; signing goes ahead exactly when the folder and key file are named and the key file exists |
| Task.RemapCopyLocalFiles | src/StrongNamer/AddStrongName.cs:160-176 | the array loop leaves `Remapped`: same length, an entry found in the moved-input table becomes its answer, and every other entry is kept |
| Task.RemapFollowsAnswers | src/StrongNamer/AddStrongName.cs:152-175 | a copy-local entry changes exactly when some answer moved it, and then into one of its answers |
| Task.ExecuteOutcomeWhenNotReady | src/StrongNamer/AddStrongName.cs:95-116 | a failed check changes nothing, and it succeeds exactly when there was nothing to sign |
| Task.ExecutePublishesAnswers | src/StrongNamer/AddStrongName.cs:140-178 | success publishes one answer per input, each the input or its output path; each copy-local entry changes exactly when it was moved, and then into one of its answers |
| Task.ExecuteWritesOnlyOutputs | src/StrongNamer/AddStrongName.cs:93-179 | whatever happens, a path that is no input's output path keeps its contents, or stays absent |
| Task.AddStrongName.constructor | src/StrongNamer/AddStrongName.cs:76-91 | keeps the parameters; both outputs start unset |
| Task.AddStrongName.ProcessAssembly | src/StrongNamer/AddStrongName.cs:181-289 | answer and new files are `ProcessResult` of the old files |
| Task.AddStrongName.SignAndWriteAssembly | src/StrongNamer/AddStrongName.cs:239-287 | patching the loaded object in place and writing it gives `SignAndWrite` of its old image |
| Task.AddStrongName.ProcessAll | src/StrongNamer/AddStrongName.cs:140-158 | the loop's files, exception, answers and moved-input table are those of `RunBatch` |
| Task.AddStrongName.Execute | src/StrongNamer/AddStrongName.cs:93-179 | answer, files and both outputs are `ExecuteOutcome` of the old state |

## Left out

- `CleanStrongName` and `VerifyCopiedStrongName` (`AddStrongName.cs:18-70`) only delete and copy files in a folder; they are not part of this model.
- Cecil's reading, writing and signature embedding are function values. The bytes of an assembly file are not modelled.
- SHA-1 and the CryptoAPI conversion are function values. The digest is only known to be 20 bytes long.
- Logging, `TaskItem` metadata copying, `Path.GetFullPath` of the folder (line 183) and `Directory.CreateDirectory` (line 186) are left out. The folder is used as given.
- The resolver's `Dispose` is left out: it only releases resources.
- `Execute` builds the resolver but never calls it. Cecil calls it while loading, and Cecil is not part of this model. The resolver reads a snapshot of the files taken when it is built.
- `Paths.EndsWithIgnoreCase`: folds ASCII letters only, in place of `CurrentCultureIgnoreCase`, because culture rules are not modelled.
- `Paths.FileName` and `Paths.Combine` follow the .NET Framework: `GetFileName` cuts at every `:`, where .NET Core cuts only at a drive's `:`. Characters that are invalid in paths, which make both methods throw, are not modelled. Nor is `FileInfo`'s rejection of a `:` after the drive.
- `Task.AfterWrite`: deleting the output after a failed write always succeeds here. In the source, `File.Delete` (line 281) can itself throw, for example on the locked file that made the write fail, and that exception leaves `Execute`. Likewise `File.ReadAllBytes` of the key file (line 138) cannot fail here once `File.Exists` held. File operations other than Cecil's never throw in this model.
- `Task.FileSystem`: paths are compared as exact strings, so the model loses Windows path aliasing. On Windows one file has many spellings: names that differ only in case are one name, `/` and `\` are the same separator, and `.` and `..` segments name the same folder. For example, with the input `x\Lib.dll` and the folder `X`, the source finds the output `X\Lib.dll` to be the input itself and reuses it, while the model signs and writes a second file. `Task.BatchWritesOnlyOutputs` and `Task.ExecuteWritesOnlyOutputs` are therefore about path strings: on Windows, writing one output path can overwrite a file that another spelling names.
- A null entry in `Assemblies` or `CopyLocalFiles` is not modelled: items are plain path strings.
- `Task.ExecuteOutcome`: on an exception, both outputs keep their old values. The source leaves a partly filled `SignedAssembliesToReference` array (line 140), but MSBuild does not read the outputs of a failed task.
- `Task.RerunReusesOutput`: assumes a writer that keeps the Mvid, and an input with a non-empty Mvid. Without these assumptions, reuse is not promised.
- The sample projects `TestConsoleApp` and `TestLibrary` are not part of this model.
