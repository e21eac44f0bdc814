/**
 * Alias resolution (src/index.ts line 11-72): the `.ts`/`.tsx` guard of the
 * resolver plugin, `attemptResolve` (exact key, then the first matching
 * alias) and `attemptResolveArray` (the ordered probing of an alias's
 * targets on the file system).
 */
module Resolver {
  import opened Wrappers
  import opened Strings
  import opened Patterns
  import opened Host
  import opened TsPaths

  /** Every alias of the table is one the source's regular expression reads as literal text around at most one `*`. */
  predicate PlainAliases(table: Table)
  {
    forall i :: 0 <= i < |table| ==> PlainPattern(table[i].0)
  }

  /**
   * `from in pathsMap` followed by `pathsMap.get(from)` (line 27), taken as
   * one lookup of the entry stored under `key`: absent exactly when no entry
   * has that key.
   */
  function Lookup(table: Table, key: string): (r: Option<PathValue>)
    decreases |table|
    ensures r.None? <==> forall i :: 0 <= i < |table| ==> table[i].0 != key
  {
    if table == [] then None
    else if table[0].0 == key then Some(table[0].1)
    else Lookup(table[1..], key)
  }

  /** With unique keys, the lookup finds the entry stored under the key. */
  lemma {:induction false} LookupEntry(table: Table, i: nat)
    requires UniqueKeys(table) && i < |table|
    ensures Lookup(table, table[i].0) == Some(table[i].1)
    decreases i
  {
    if i > 0 {
      assert table[0].0 != table[i].0;
      assert UniqueKeys(table[1..]) by {
        forall a, b | 0 <= a < b < |table[1..]| ensures table[1..][a].0 != table[1..][b].0 {
          assert table[1..][a] == table[a + 1] && table[1..][b] == table[b + 1];
        }
      }
      LookupEntry(table[1..], i - 1);
    }
  }

  // ---------------------------------------------------------------------
  // attemptResolveArray (line 47-72)

  /** `from.replace(trimStar(alias), trimStar(option))`: the specifier with the alias part swapped for the target (line 49). */
  function Unaliased(from: string, alias: string, option: string, ops: PathOps): string
  {
    ReplaceFirst(from, ops.trimStar(alias), ops.trimStar(option))
  }

  /**
   * Line 50-59: the absolute path itself when it exists, otherwise what
   * extension inference finds in its directory, `findFileInDirectory` first
   * and `findFileInDirectoryUnknownExt` when that gives a falsy answer.
   */
  function Located(absolutePath: string, ops: PathOps, fs: FileSystem): Option<string>
  {
    if absolutePath in fs.existing then Some(absolutePath)
    else
      var basename, dirPath := ops.basename(absolutePath), ops.dirname(absolutePath);
      match Truthy(fs.findFileInDirectory(dirPath, Some(basename)))
      case Some(found) => Some(found)
      case None => fs.findFileInDirectoryUnknownExt(dirPath, basename)
  }

  /** Line 61-68: an existing file is taken as it is, an existing directory is replaced by its index file, anything else fails. */
  function Settled(located: Option<string>, fs: FileSystem): Option<string>
  {
    if ExistsSync(fs, located) then
      if located.value in fs.directories then Truthy(fs.findFileInDirectory(located.value, None))
      else located
    else None
  }

  /** One iteration of the loop at line 48-70: the path reported for `option`, relative to the project root, or `None` to move on. */
  function TryOption(from: string, alias: string, option: string, ops: PathOps, fs: FileSystem): Option<string>
  {
    match Settled(Located(ops.resolve(Unaliased(from, alias, option, ops)), ops, fs), fs)
    case Some(p) => Some(ops.relative(p))
    case None => None
  }

  /** The options tried in order; the first that yields a file decides. */
  function ProbeOptions(from: string, alias: string, options: seq<string>, ops: PathOps, fs: FileSystem): Option<string>
    decreases |options|
  {
    if options == [] then None
    else match TryOption(from, alias, options[0], ops, fs)
      case Some(p) => Some(p)
      case None => ProbeOptions(from, alias, options[1..], ops, fs)
  }

  /** `attemptResolveArray(from, alias, realPaths)`. */
  method AttemptResolveArray(from: string, alias: string, realPaths: seq<string>, ops: PathOps, fs: FileSystem)
    returns (result: Option<string>)
    ensures result == ProbeOptions(from, alias, realPaths, ops, fs)
  {
    for k := 0 to |realPaths|
      invariant ProbeOptions(from, alias, realPaths, ops, fs) == ProbeOptions(from, alias, realPaths[k..], ops, fs)
    {
      var option := realPaths[k];
      assert realPaths[k..][1..] == realPaths[k + 1..];
      var unaliasedFrom := ReplaceFirst(from, ops.trimStar(alias), ops.trimStar(option));
      var absolutePath := Some(ops.resolve(unaliasedFrom));

      var fileExists := ExistsSync(fs, absolutePath);
      if !fileExists {
        // not found as written: infer the extension
        var basename := ops.basename(absolutePath.value);
        var dirPath := ops.dirname(absolutePath.value);
        absolutePath := Truthy(fs.findFileInDirectory(dirPath, Some(basename)));
        if absolutePath.None? {
          absolutePath := fs.findFileInDirectoryUnknownExt(dirPath, basename);
        }
      }

      fileExists := ExistsSync(fs, absolutePath);
      if fileExists {
        if absolutePath.value in fs.directories {
          absolutePath := Truthy(fs.findFileInDirectory(absolutePath.value, None));
          if absolutePath.None? {
            continue; // a directory without an index file: next option
          }
        }
        return Some(ops.relative(absolutePath.value));
      }
    }
    return None;
  }

  /** `path` passed `existsSync` and is no directory, or is the index file `findFileInDirectory` found in an existing directory. */
  predicate Provides(fs: FileSystem, path: string)
  {
    || (path in fs.existing && path !in fs.directories)
    || exists dir :: dir in fs.existing && dir in fs.directories && Truthy(fs.findFileInDirectory(dir, None)) == Some(path)
  }

  /** Every answer is `relative('.', p)` of a `p` that passed `existsSync` and is no directory, or is the index file found in an existing directory. */
  lemma TryOptionVerified(from: string, alias: string, option: string, ops: PathOps, fs: FileSystem)
    ensures TryOption(from, alias, option, ops, fs).Some? ==>
      exists p :: TryOption(from, alias, option, ops, fs).value == ops.relative(p) && Provides(fs, p)
  {
    var located := Located(ops.resolve(Unaliased(from, alias, option, ops)), ops, fs);
    var settled := Settled(located, fs);
    if settled.Some? {
      assert TryOption(from, alias, option, ops, fs).value == ops.relative(settled.value);
      if located.value in fs.directories {
        assert Truthy(fs.findFileInDirectory(located.value, None)) == Some(settled.value);
      }
      assert Provides(fs, settled.value);
    }
  }

  /**
   * Extension inference runs only when the substituted path is missing, and
   * `findFileInDirectoryUnknownExt` is asked only when `findFileInDirectory`
   * found nothing: a file system that differs only in finders not consulted
   * gives the same path.
   */
  lemma InferenceOrder(absolutePath: string, ops: PathOps, fs: FileSystem, other: FileSystem)
    requires other.existing == fs.existing
    ensures absolutePath in fs.existing ==> Located(absolutePath, ops, other) == Located(absolutePath, ops, fs) == Some(absolutePath)
    ensures other.findFileInDirectory == fs.findFileInDirectory
         && Truthy(fs.findFileInDirectory(ops.dirname(absolutePath), Some(ops.basename(absolutePath)))).Some?
         ==> Located(absolutePath, ops, other) == Located(absolutePath, ops, fs)
  {
  }

  /** Probing fails exactly when every option fails. */
  lemma {:induction false} ProbeExhausted(from: string, alias: string, options: seq<string>, ops: PathOps, fs: FileSystem)
    ensures ProbeOptions(from, alias, options, ops, fs).None?
        <==> forall i :: 0 <= i < |options| ==> TryOption(from, alias, options[i], ops, fs).None?
    decreases |options|
  {
    if options != [] {
      ProbeExhausted(from, alias, options[1..], ops, fs);
      assert forall i :: 1 <= i < |options| ==> options[1..][i - 1] == options[i];
    }
  }

  /** The first option that yields a file wins: every option before it, missing or a directory without index, is passed over. */
  lemma {:induction false} ProbeFirstWins(from: string, alias: string, options: seq<string>, i: nat, ops: PathOps, fs: FileSystem)
    requires i < |options| && TryOption(from, alias, options[i], ops, fs).Some?
    requires forall j :: 0 <= j < i ==> TryOption(from, alias, options[j], ops, fs).None?
    ensures ProbeOptions(from, alias, options, ops, fs) == TryOption(from, alias, options[i], ops, fs)
    decreases i
  {
    if i > 0 {
      assert TryOption(from, alias, options[0], ops, fs).None?;
      assert forall j :: 0 <= j < i - 1 ==> options[1..][j] == options[j + 1];
      ProbeFirstWins(from, alias, options[1..], i - 1, ops, fs);
    }
  }

  /** Whatever probing returns came from one of the options, and is `relative('.', p)` of a `p` satisfying `Provides`. */
  lemma {:induction false} ProbeVerified(from: string, alias: string, options: seq<string>, ops: PathOps, fs: FileSystem)
    ensures ProbeOptions(from, alias, options, ops, fs).Some? ==>
      && (exists i :: 0 <= i < |options| && ProbeOptions(from, alias, options, ops, fs) == TryOption(from, alias, options[i], ops, fs))
      && (exists p :: ProbeOptions(from, alias, options, ops, fs).value == ops.relative(p) && Provides(fs, p))
    decreases |options|
  {
    if options != [] {
      TryOptionVerified(from, alias, options[0], ops, fs);
      if TryOption(from, alias, options[0], ops, fs).None? {
        ProbeVerified(from, alias, options[1..], ops, fs);
        if ProbeOptions(from, alias, options, ops, fs).Some? {
          var i :| 0 <= i < |options[1..]| && ProbeOptions(from, alias, options[1..], ops, fs) == TryOption(from, alias, options[1..][i], ops, fs);
          assert options[1..][i] == options[i + 1];
        }
      }
    }
  }

  // ---------------------------------------------------------------------
  // attemptResolve (line 26-43)

  /** Line 32-37: a string target is returned as it is, an array goes to probing. */
  function Decide(from: string, alias: string, value: PathValue, ops: PathOps, fs: FileSystem): Option<PathValue>
  {
    match value
    case One(v) => Some(One(v))
    case Many(realPaths) =>
      match ProbeOptions(from, alias, realPaths, ops, fs)
      case Some(p) => Some(One(p))
      case None => None
  }

  /** The scan of line 29-42 over the aliases in key order. */
  function Scan(from: string, table: Table, ops: PathOps, fs: FileSystem): Option<PathValue>
    requires PlainAliases(table)
    decreases |table|
  {
    if table == [] then None
    else if AliasMatches(table[0].0, from) then Decide(from, table[0].0, table[0].1, ops, fs)
    else Scan(from, table[1..], ops, fs)
  }

  /** What `attemptResolve(from, pathsMap)` returns, `None` for `null`. */
  function ResolveAlias(from: string, table: Table, ops: PathOps, fs: FileSystem): Option<PathValue>
    requires PlainAliases(table)
  {
    match Lookup(table, from)
    case Some(v) => Some(v)
    case None => Scan(from, table, ops, fs)
  }

  /** `attemptResolve(from, pathsMap)`. */
  method AttemptResolve(from: string, pathsMap: Table, ops: PathOps, fs: FileSystem) returns (result: Option<PathValue>)
    requires PlainAliases(pathsMap)
    ensures result == ResolveAlias(from, pathsMap, ops, fs)
  {
    var entry := Lookup(pathsMap, from);
    if entry.Some? {
      return entry;
    }
    for k := 0 to |pathsMap|
      invariant PlainAliases(pathsMap[k..])
      invariant ResolveAlias(from, pathsMap, ops, fs) == Scan(from, pathsMap[k..], ops, fs)
    {
      assert pathsMap[k..][1..] == pathsMap[k + 1..];
      var (alias, value) := pathsMap[k];
      if AliasMatches(alias, from) {
        match value
        case One(v) =>
          return Some(One(v));
        case Many(realPaths) =>
          var p := AttemptResolveArray(from, alias, realPaths, ops, fs);
          return if p.Some? then Some(One(p.value)) else None;
      }
    }
    return None;
  }

  /** `i` is the first alias of the table that matches `from`. */
  predicate FirstMatch(table: Table, from: string, i: nat)
    requires PlainAliases(table)
  {
    && i < |table|
    && AliasMatches(table[i].0, from)
    && forall j :: 0 <= j < i ==> !AliasMatches(table[j].0, from)
  }

  /** A specifier that is itself a key gets that key's entry, before any wildcard scan and whatever the file system holds. */
  lemma ExactKeyWins(from: string, table: Table, i: nat, ops: PathOps, fs: FileSystem)
    requires UniqueKeys(table) && PlainAliases(table)
    requires i < |table| && table[i].0 == from
    ensures ResolveAlias(from, table, ops, fs) == Some(table[i].1)
  {
    LookupEntry(table, i);
  }

  lemma {:induction false} ScanFirstMatch(from: string, table: Table, i: nat, ops: PathOps, fs: FileSystem)
    requires PlainAliases(table) && FirstMatch(table, from, i)
    ensures Scan(from, table, ops, fs) == Decide(from, table[i].0, table[i].1, ops, fs)
    decreases i
  {
    if i > 0 {
      assert !AliasMatches(table[0].0, from);
      assert forall j :: 0 <= j < |table| - 1 ==> table[1..][j] == table[j + 1];
      ScanFirstMatch(from, table[1..], i - 1, ops, fs);
    }
  }

  /**
   * When `from` is no key, the first matching alias alone decides: a string
   * target comes back verbatim, and an array target gives what probing gives,
   * `null` included, without trying later aliases.
   */
  lemma FirstMatchDecides(from: string, table: Table, i: nat, ops: PathOps, fs: FileSystem)
    requires PlainAliases(table)
    requires forall j :: 0 <= j < |table| ==> table[j].0 != from
    requires FirstMatch(table, from, i)
    ensures table[i].1.One? ==> ResolveAlias(from, table, ops, fs) == Some(table[i].1)
    ensures table[i].1.Many? ==>
              ResolveAlias(from, table, ops, fs) ==
              (match ProbeOptions(from, table[i].0, table[i].1.paths, ops, fs)
               case Some(p) => Some(One(p))
               case None => None)
    ensures ResolveAlias(from, table, ops, fs) == ResolveAlias(from, table[..i + 1], ops, fs)
  {
    ScanFirstMatch(from, table, i, ops, fs);
    var head := table[..i + 1];
    assert forall j :: 0 <= j < |head| ==> head[j] == table[j];
    assert FirstMatch(head, from, i);
    ScanFirstMatch(from, head, i, ops, fs);
  }

  lemma {:induction false} ScanNoMatch(from: string, table: Table, ops: PathOps, fs: FileSystem)
    requires PlainAliases(table)
    ensures Scan(from, table, ops, fs).None? <==>
      || (forall j :: 0 <= j < |table| ==> !AliasMatches(table[j].0, from))
      || (exists i: nat :: FirstMatch(table, from, i) && Decide(from, table[i].0, table[i].1, ops, fs).None?)
    decreases |table|
  {
    if table != [] {
      var tail := table[1..];
      assert forall j :: 0 <= j < |tail| ==> tail[j] == table[j + 1];
      ScanNoMatch(from, tail, ops, fs);
      if AliasMatches(table[0].0, from) {
        assert FirstMatch(table, from, 0);
        forall i: nat | FirstMatch(table, from, i) ensures i == 0 { }
      } else {
        forall i: nat | FirstMatch(tail, from, i) ensures FirstMatch(table, from, i + 1) { }
        forall i: nat | FirstMatch(table, from, i) ensures i > 0 && FirstMatch(tail, from, i - 1) { }
      }
    }
  }

  /**
   * `attemptResolve` returns `null` (and never throws) exactly when `from` is
   * no key and either no alias matches it, or the first that matches has an
   * array of targets none of which yields a file.
   */
  lemma NullOutcome(from: string, table: Table, ops: PathOps, fs: FileSystem)
    requires PlainAliases(table)
    ensures ResolveAlias(from, table, ops, fs).None? <==>
      && (forall j :: 0 <= j < |table| ==> table[j].0 != from)
      && (|| (forall j :: 0 <= j < |table| ==> !AliasMatches(table[j].0, from))
          || (exists i: nat :: FirstMatch(table, from, i) && table[i].1.Many?
                          && ProbeOptions(from, table[i].0, table[i].1.paths, ops, fs).None?))
  {
    ScanNoMatch(from, table, ops, fs);
    forall i: nat | FirstMatch(table, from, i)
      ensures Decide(from, table[i].0, table[i].1, ops, fs).None?
          <==> table[i].1.Many? && ProbeOptions(from, table[i].0, table[i].1.paths, ops, fs).None?
    {
    }
  }

  /**
   * With the usual `trimStar` (the alias up to its `*`), the alias part of a
   * matching specifier is swapped for the target's, so what the `*` captured
   * and the rest of the specifier follow the target.
   */
  lemma SubstitutedCapture(from: string, alias: string, option: string, ops: PathOps)
    requires PlainPattern(alias) && AliasMatches(alias, from)
    requires ops.trimStar(alias) == StarPrefix(alias)
    ensures Unaliased(from, alias, option, ops) == ops.trimStar(option) + from[|StarPrefix(alias)|..]
  {
    var prefix := StarPrefix(alias);
    assert |prefix| <= |from| && from[..|prefix|] == prefix;
    ReplaceLeadingOccurrence(from, prefix, ops.trimStar(option));
  }

  // ---------------------------------------------------------------------
  // resolve (line 11-24)

  /** `resolveFrom?.match(/\.tsx?$/g)` is truthy (line 15); `None` is an absent `resolveFrom`. */
  predicate IsTypescript(resolveFrom: Option<string>)
  {
    resolveFrom.Some? && (EndsWith(resolveFrom.value, ".ts") || EndsWith(resolveFrom.value, ".tsx"))
  }

  /**
   * A character-by-character matcher for `\.tsx?$` started at index `i` of
   * `s`: a literal `.`, `t`, `s`, then an optional `x`, then the end of input.
   */
  predicate TsPatternAt(s: string, i: nat)
  {
    && i < |s| && s[i] == '.'
    && i + 1 < |s| && s[i + 1] == 't'
    && i + 2 < |s| && s[i + 2] == 's'
    && (i + 3 == |s| || (i + 3 < |s| && s[i + 3] == 'x' && i + 4 == |s|))
  }

  /** The guard holds exactly when the unanchored pattern `\.tsx?$` matches from some index of the importer's path. */
  lemma TypescriptGuard(s: string)
    ensures IsTypescript(Some(s)) <==> exists i: nat :: TsPatternAt(s, i)
  {
    if EndsWith(s, ".ts") {
      assert s[|s| - 3..] == ".ts";
      assert s[|s| - 3] == '.' && s[|s| - 2] == 't' && s[|s| - 1] == 's';
      assert TsPatternAt(s, |s| - 3);
    } else if EndsWith(s, ".tsx") {
      assert s[|s| - 4..] == ".tsx";
      assert s[|s| - 4] == '.' && s[|s| - 3] == 't' && s[|s| - 2] == 's' && s[|s| - 1] == 'x';
      assert TsPatternAt(s, |s| - 4);
    }
    if exists i: nat :: TsPatternAt(s, i) {
      var i: nat :| TsPatternAt(s, i);
      if i + 3 == |s| {
        assert s[|s| - 3..] == [s[i], s[i + 1], s[i + 2]] == ".ts";
        assert EndsWith(s, ".ts");
      } else {
        assert s[|s| - 4..] == [s[i], s[i + 1], s[i + 2], s[i + 3]] == ".tsx";
        assert EndsWith(s, ".tsx");
      }
    }
  }

  /** What `resolve` yields: `null` for an importer that is no TypeScript file, otherwise `{ filePath }`. */
  datatype Resolution = NoOpinion | Resolved(filePath: Option<PathValue>)

  /** The tsconfig entries are those of a JavaScript object, and its aliases are plain patterns. */
  predicate ValidConfig(config: Config)
  {
    config.paths.Some? ==>
      && UniqueKeys(config.paths.value)
      && forall i :: 0 <= i < |config.paths.value| ==> PlainPattern(config.paths.value[i].0)
  }

  lemma BuiltAliasesPlain(config: Config, sep: string)
    requires ValidConfig(config) && TsPathsTable(config, sep).Success?
    ensures PlainAliases(TsPathsTable(config, sep).value)
    ensures UniqueKeys(TsPathsTable(config, sep).value)
  {
  }

  /** The outcome of `resolve`, with the alias table built from `config`; a `Failure` is the error `loadTsPaths` throws. */
  function ResolverOutcome(resolveFrom: Option<string>, specifier: string, config: Config, ops: PathOps, fs: FileSystem)
    : Result<Resolution, BuildError>
    requires ValidConfig(config)
  {
    if !IsTypescript(resolveFrom) then Success(NoOpinion)
    else
      match TsPathsTable(config, ops.sep)
      case Failure(e) => Failure(e)
      case Success(table) =>
        BuiltAliasesPlain(config, ops.sep);
        Success(Resolved(ResolveAlias(specifier, table, ops, fs)))
  }

  /** `resolve({ filePath: specifier, dependency: { resolveFrom } })` (line 12-23). */
  method Resolve(resolveFrom: Option<string>, specifier: string, config: Config, ops: PathOps, fs: FileSystem)
    returns (result: Result<Resolution, BuildError>)
    requires ValidConfig(config)
    ensures result == ResolverOutcome(resolveFrom, specifier, config, ops, fs)
  {
    var isTypescript := IsTypescript(resolveFrom);
    if !isTypescript {
      return Success(NoOpinion);
    }
    var pathsMap := LoadTsPaths(config, ops.sep);
    if pathsMap.Failure? {
      return Failure(pathsMap.error);
    }
    BuiltAliasesPlain(config, ops.sep);
    var filePath := AttemptResolve(specifier, pathsMap.value, ops, fs);
    return Success(Resolved(filePath));
  }

  /**
   * `resolve` answers `null` exactly for an importer that is no `.ts`/`.tsx`
   * file, whatever the configuration; for a TypeScript importer it fails only
   * on a `paths` value that is neither a string nor an array.
   */
  lemma ResolveOutcomes(resolveFrom: Option<string>, specifier: string, config: Config, ops: PathOps, fs: FileSystem)
    requires ValidConfig(config)
    ensures ResolverOutcome(resolveFrom, specifier, config, ops, fs) == Success(NoOpinion) <==> !IsTypescript(resolveFrom)
    ensures ResolverOutcome(resolveFrom, specifier, config, ops, fs).Failure? <==>
      && IsTypescript(resolveFrom)
      && config.paths.Some?
      && exists i :: 0 <= i < |config.paths.value| && config.paths.value[i].1.RawOther?
  {
  }
}
