/** `StrongNamerAssemblyResolver`: an assembly resolver that first asks the
    base resolver (local folders and the GAC) and, failing that, looks the
    simple name up among the build's own input assemblies. It loads them on
    the first fallback; once loaded they are never reloaded, and a load that
    throws is tried again on the next fallback. The base resolver, `File.Exists`
    and `AssemblyDefinition.ReadAssembly` are given as functions. */
module Resolver {
  import opened Wrappers
  import opened Paths
  import opened Metadata

  datatype ReadingMode = Immediate | Deferred

  /** The reader parameters a resolution is asked with. */
  datatype ReaderParameters = ReaderParameters(readingMode: ReadingMode, readSymbols: bool)

  /** `new ReaderParameters()`: deferred reading, no symbols. */
  const DefaultReaderParameters: ReaderParameters := ReaderParameters(Deferred, false)

  /** What `BaseAssemblyResolver.Resolve` did: found an assembly, returned
      null, threw `AssemblyResolutionException`, or threw any other exception
      (a file in a search folder that fails to load, say). */
  datatype BaseResolution =
    | Resolved(assembly: AssemblyImage)
    | ReturnedNull
    | ResolutionException
    | OtherException
  {
    /** The outcomes after which `Resolve` falls back to the local list. */
    predicate FallsBack() {
      ReturnedNull? || ResolutionException?
    }
  }

  /** The exceptions `Resolve` lets through. */
  datatype ResolveFault =
    | BaseResolverFailed                 // the base resolver threw something else than AssemblyResolutionException
    | CandidateUnreadable(path: string)  // ReadAssembly threw while the local list was built
    | AmbiguousName(name: string)        // SingleOrDefault met a second match

  /** `paths.Where(File.Exists)`: the existing paths, each as often as it occurs. */
  function ExistingPaths(paths: seq<string>, fileExists: string -> bool): (existing: seq<string>)
    ensures |existing| <= |paths|
  {
    if paths == [] then []
    else (if fileExists(paths[0]) then [paths[0]] else []) + ExistingPaths(paths[1..], fileExists)
  }

  /** `ExistingPaths` keeps every existing path as often as it occurs, and
      nothing else. */
  lemma {:induction false} ExistingPathsCounts(paths: seq<string>, fileExists: string -> bool)
    ensures forall p :: multiset(ExistingPaths(paths, fileExists))[p] == if fileExists(p) then multiset(paths)[p] else 0
  {
    if paths != [] {
      ExistingPathsCounts(paths[1..], fileExists);
      assert paths == [paths[0]] + paths[1..];
    }
  }

  /** `ExistingPaths` is a filter: it keeps the order of the list, and a path
      is kept exactly when it exists. */
  lemma {:induction false} ExistingPathsIsFilter(a: seq<string>, b: seq<string>, p: string, fileExists: string -> bool)
    ensures ExistingPaths(a + b, fileExists) == ExistingPaths(a, fileExists) + ExistingPaths(b, fileExists)
    ensures ExistingPaths([p], fileExists) == if fileExists(p) then [p] else []
  {
    if a != [] {
      ExistingPathsIsFilter(a[1..], b, p, fileExists);
      ExistingPathsFilterStep(a, b, fileExists);
    } else {
      assert a + b == b;
      assert ExistingPaths(a, fileExists) == [];
    }
    assert [p][1..] == [];
  }

  /** One element more in front of a concatenation. */
  lemma {:induction false} ExistingPathsFilterStep(a: seq<string>, b: seq<string>, fileExists: string -> bool)
    requires a != []
    requires ExistingPaths(a[1..] + b, fileExists) == ExistingPaths(a[1..], fileExists) + ExistingPaths(b, fileExists)
    ensures ExistingPaths(a + b, fileExists) == ExistingPaths(a, fileExists) + ExistingPaths(b, fileExists)
  {
    var kept := if fileExists(a[0]) then [a[0]] else [];
    var rest, others := ExistingPaths(a[1..], fileExists), ExistingPaths(b, fileExists);
    assert (a + b)[0] == a[0] && (a + b)[1..] == a[1..] + b;
    assert ExistingPaths(a + b, fileExists) == kept + (rest + others);
    assert ExistingPaths(a, fileExists) == kept + rest;
    AppendAssociates(kept, rest, others);
  }

  /** `paths[k]` is `p`, it cannot be read, and every path before it can. */
  predicate UnreadableAt(paths: seq<string>, readAssembly: string -> Option<AssemblyImage>, p: string, k: int) {
    && 0 <= k < |paths|
    && paths[k] == p
    && readAssembly(p).None?
    && forall j :: 0 <= j < k ==> readAssembly(paths[j]).Some?
  }

  predicate FirstUnreadable(paths: seq<string>, readAssembly: string -> Option<AssemblyImage>, p: string) {
    exists k :: 0 <= k < |paths| && UnreadableAt(paths, readAssembly, p, k)
  }

  /** `assemblies[i]` is the one and only assembly with simple name `name`. */
  predicate OnlyMatchAt(assemblies: seq<AssemblyImage>, name: string, i: int) {
    && 0 <= i < |assemblies|
    && assemblies[i].name == name
    && forall j :: 0 <= j < |assemblies| && j != i ==> assemblies[j].name != name
  }

  /** `.Select(AssemblyDefinition.ReadAssembly).ToList()`: the assemblies in
      path order, or the first path whose read throws. */
  function ReadAll(paths: seq<string>, readAssembly: string -> Option<AssemblyImage>): (r: Result<seq<AssemblyImage>, string>)
    ensures r.Ok? ==> |r.value| == |paths|
    ensures r.Ok? ==> forall i :: 0 <= i < |paths| ==> readAssembly(paths[i]) == Some(r.value[i])
    ensures r.Err? ==> FirstUnreadable(paths, readAssembly, r.error)
  {
    if paths == [] then Ok([])
    else match readAssembly(paths[0])
      case None =>
        assert UnreadableAt(paths, readAssembly, paths[0], 0);
        Err(paths[0])
      case Some(first) =>
        match ReadAll(paths[1..], readAssembly)
        case Err(p) =>
          var k :| 0 <= k < |paths| - 1 && UnreadableAt(paths[1..], readAssembly, p, k);
          assert UnreadableAt(paths, readAssembly, p, k + 1) by {
            forall j | 0 < j < k + 1 ensures readAssembly(paths[j]).Some? {
              assert paths[j] == paths[1..][j - 1];
            }
          }
          Err(p)
        case Ok(rest) => Ok([first] + rest)
  }

  /** No assembly has simple name `name`. */
  predicate NoMatch(assemblies: seq<AssemblyImage>, name: string) {
    forall i :: 0 <= i < |assemblies| ==> assemblies[i].name != name
  }

  /** At least two assemblies have simple name `name`. */
  predicate TwoMatches(assemblies: seq<AssemblyImage>, name: string) {
    exists i, j :: 0 <= i < j < |assemblies| && assemblies[i].name == name && assemblies[j].name == name
  }

  /** How the three predicates above split into the first assembly and the rest. */
  lemma MatchesOfCons(assemblies: seq<AssemblyImage>, name: string)
    requires assemblies != []
    ensures NoMatch(assemblies, name) <==> assemblies[0].name != name && NoMatch(assemblies[1..], name)
    ensures TwoMatches(assemblies, name) <==>
      (assemblies[0].name == name && !NoMatch(assemblies[1..], name)) || TwoMatches(assemblies[1..], name)
    ensures OnlyMatchAt(assemblies, name, 0) <==> assemblies[0].name == name && NoMatch(assemblies[1..], name)
    ensures forall i :: 0 <= i < |assemblies| - 1 && assemblies[0].name != name && OnlyMatchAt(assemblies[1..], name, i) ==>
      OnlyMatchAt(assemblies, name, i + 1)
  {
    var rest := assemblies[1..];
    assert forall i :: 0 < i < |assemblies| ==> assemblies[i] == rest[i - 1];
    if TwoMatches(assemblies, name) && !(assemblies[0].name == name && !NoMatch(rest, name)) {
      var i, j :| 0 <= i < j < |assemblies| && assemblies[i].name == name && assemblies[j].name == name;
      assert rest[i - 1].name == name && rest[j - 1].name == name;
    }
    if TwoMatches(rest, name) {
      var i, j :| 0 <= i < j < |rest| && rest[i].name == name && rest[j].name == name;
      assert assemblies[i + 1].name == name && assemblies[j + 1].name == name;
    }
    if assemblies[0].name == name && !NoMatch(rest, name) {
      var j :| 0 <= j < |rest| && rest[j].name == name;
      assert assemblies[j + 1].name == name;
    }
  }

  /** `assemblies.SingleOrDefault(a => a.Name.Name.Equals(name))`: the one
      assembly with that simple name (ordinal, case-sensitive), null when there
      is none, an exception when there are two or more. */
  function SingleOrDefault(assemblies: seq<AssemblyImage>, name: string): (r: Result<Option<AssemblyImage>, ResolveFault>)
    ensures r == Ok(None) <==> NoMatch(assemblies, name)
    ensures r.Err? <==> TwoMatches(assemblies, name)
    ensures r.Err? ==> r.error == AmbiguousName(name)
    ensures r.Ok? && r.value.Some? ==>
      exists i :: 0 <= i < |assemblies| && OnlyMatchAt(assemblies, name, i) && assemblies[i] == r.value.value
  {
    if assemblies == [] then Ok(None)
    else
      var rest := SingleOrDefault(assemblies[1..], name);
      MatchesOfCons(assemblies, name);
      if assemblies[0].name != name then
        assert rest.Ok? && rest.value.Some? ==>
          exists i :: 0 <= i < |assemblies| && OnlyMatchAt(assemblies, name, i) && assemblies[i] == rest.value.value by {
          if rest.Ok? && rest.value.Some? {
            var i :| 0 <= i < |assemblies| - 1 && OnlyMatchAt(assemblies[1..], name, i) && assemblies[1..][i] == rest.value.value;
            assert OnlyMatchAt(assemblies, name, i + 1);
          }
        }
        rest
      else if rest == Ok(None) then
        assert OnlyMatchAt(assemblies, name, 0);
        Ok(Some(assemblies[0]))
      else
        Err(AmbiguousName(name))
  }

  /** One call of `Resolve` from the state of the cached list: its result and
      the cached list afterwards. */
  function Resolution(
    cached: Option<seq<AssemblyImage>>,
    assemblyPaths: seq<string>,
    baseResult: BaseResolution,
    fileExists: string -> bool,
    readAssembly: string -> Option<AssemblyImage>,
    name: string): (out: (Result<Option<AssemblyImage>, ResolveFault>, Option<seq<AssemblyImage>>))
    // the base resolver wins whenever it finds something; the list is then neither read nor loaded
    ensures baseResult.Resolved? ==> out == (Ok(Some(baseResult.assembly)), cached)
    // any exception but AssemblyResolutionException leaves Resolve, and the list is not loaded
    ensures baseResult.OtherException? ==> out == (Err(BaseResolverFailed), cached)
    // once loaded, the list is never loaded again nor changed
    ensures cached.Some? ==> out.1 == cached
    // on the first fallback the list is loaded from the existing paths, in order
    ensures baseResult.FallsBack() && cached.None? ==>
      match ReadAll(ExistingPaths(assemblyPaths, fileExists), readAssembly)
      case Err(p) => out == (Err(CandidateUnreadable(p)), None)
      case Ok(loaded) => out.1 == Some(loaded)
    // the fallback answer is the single local assembly with that name
    ensures baseResult.FallsBack() && out.1.Some? ==> out.0 == SingleOrDefault(out.1.value, name)
  {
    if baseResult.Resolved? then (Ok(Some(baseResult.assembly)), cached)
    else if baseResult.OtherException? then (Err(BaseResolverFailed), cached)
    else
      var loaded :=
        if cached.Some? then Ok(cached.value)
        else ReadAll(ExistingPaths(assemblyPaths, fileExists), readAssembly);
      match loaded
      case Err(p) => (Err(CandidateUnreadable(p)), cached)
      case Ok(list) => (SingleOrDefault(list, name), Some(list))
  }

  /** An `AssemblyResolutionException` from the base resolver is swallowed: the
      call goes on exactly as if the base resolver had returned null. */
  lemma ResolutionExceptionIsNotFound(
    cached: Option<seq<AssemblyImage>>, assemblyPaths: seq<string>,
    fileExists: string -> bool, readAssembly: string -> Option<AssemblyImage>, name: string)
    ensures Resolution(cached, assemblyPaths, ResolutionException, fileExists, readAssembly, name)
         == Resolution(cached, assemblyPaths, ReturnedNull, fileExists, readAssembly, name)
  {
  }

  class StrongNamerAssemblyResolver {
    const assemblyPaths: seq<string>
    /** `_assemblies`: null until the first fallback. */
    var assemblies: Option<seq<AssemblyImage>>
    const baseResolve: (AssemblyReference, ReaderParameters) -> BaseResolution
    const fileExists: string -> bool
    const readAssembly: string -> Option<AssemblyImage>

    constructor (
      assemblyPaths: seq<string>,
      baseResolve: (AssemblyReference, ReaderParameters) -> BaseResolution,
      fileExists: string -> bool,
      readAssembly: string -> Option<AssemblyImage>)
      ensures this.assemblyPaths == assemblyPaths && assemblies == None
      ensures this.baseResolve == baseResolve && this.fileExists == fileExists
      ensures this.readAssembly == readAssembly
    {
      this.assemblyPaths := assemblyPaths;
      this.baseResolve := baseResolve;
      this.fileExists := fileExists;
      this.readAssembly := readAssembly;
      assemblies := None;
    }

    /** `Resolve(AssemblyNameReference, ReaderParameters)`. */
    method ResolveWith(name: AssemblyReference, parameters: ReaderParameters)
      returns (r: Result<Option<AssemblyImage>, ResolveFault>)
      modifies this
      ensures (r, assemblies) == Resolution(old(assemblies), assemblyPaths, baseResolve(name, parameters),
                                            fileExists, readAssembly, name.name)
    {
      var matched: Option<AssemblyImage> := None;
      match baseResolve(name, parameters) {
        case Resolved(a) => matched := Some(a);
        case ReturnedNull =>
        case ResolutionException =>
        case OtherException => return Err(BaseResolverFailed);
      }
      if matched.None? {
        if assemblies.None? {
          var loaded := ReadAll(ExistingPaths(assemblyPaths, fileExists), readAssembly);
          if loaded.Err? {
            return Err(CandidateUnreadable(loaded.error));
          }
          assemblies := Some(loaded.value);
        }
        r := SingleOrDefault(assemblies.value, name.name);
        return;
      }
      r := Ok(matched);
    }

    /** `Resolve(AssemblyNameReference)`: the same as resolving with
        `new ReaderParameters()`. */
    method Resolve(name: AssemblyReference) returns (r: Result<Option<AssemblyImage>, ResolveFault>)
      modifies this
      ensures (r, assemblies) == Resolution(old(assemblies), assemblyPaths, baseResolve(name, DefaultReaderParameters),
                                            fileExists, readAssembly, name.name)
    {
      r := ResolveWith(name, DefaultReaderParameters);
    }
  }
}
