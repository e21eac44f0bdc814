# parcel-resolver-tspaths: alias resolution, modelled in Dafny

The Parcel resolver plugin `parcel-resolver-tspaths` resolves import
specifiers that use tsconfig path aliases (`@app/*` mapped to
`["app/*", "shared/*"]`, say) to a file in the project. This model covers its core in
`src/index.ts`:

- the **alias table builder**, the loop of `loadTsPaths`. It prefixes every
  `compilerOptions.paths` target with the top-level `baseUrl` (default
  `"src"`) and `path.sep`, and throws for a value that is neither a string nor
  an array (module `TsPaths`, file `tspaths.dfy`);
- the **alias matcher**, `attemptResolve`. It returns the entry when the
  specifier is itself a key. Otherwise it scans the aliases in key order and
  tests each as the anchored regular expression `^alias$`, with the alias's
  first `*` read as `.*` (modules `Patterns` and `Resolver`);
- the **candidate prober**, `attemptResolveArray`. It tries the targets in
  order. For each one it substitutes the target into the specifier, resolves
  the path, infers a missing extension, and replaces a directory by its index
  file (module `Resolver`);
- the **guard** of `resolve`: nothing is resolved unless the importing file
  ends in `.ts` or `.tsx`.

Each loop of the source, and `resolve`, is a method (`LoadTsPaths`, `AttemptResolve`,
`AttemptResolveArray`, `Resolve`). Each method is proved equal to a
specification function (`TsPathsTable`, `ResolveAlias`, `ProbeOptions`,
`ResolverOutcome`), and the lemmas state the properties of those functions.
The helpers of `./utils`, including the `path` and `fs` it exports, are not part of this model.
They are arbitrary functions and sets handed in as `Host.PathOps` and
`Host.FileSystem`, so every lemma holds whatever they compute, except where a lemma states a
hypothesis about one of them (`SubstitutedCapture` on `trimStar`). The source's
string-pattern `replace` (line 30 and 49) and its `/\.tsx?$/` test (line 15)
rest on helpers of the model's own, written out in `strings.dfy`: `IndexOf`
finds the occurrence `replace` swaps, and `EndsWith` states the guard. `Option`/`Result` (`wrappers.dfy`) stand for
`null` and for a thrown error.

Matching is stated twice. `Patterns.AliasMatches` splits the alias at its
first `*`. `Patterns.Full` is an independent matcher for the regular
expression the source builds (`alias.replace('*', '.*')`, anchored).
`Patterns.RegexAgreement` proves the two agree on every alias that holds at
most one `*` and no other regular-expression operator (`PlainPattern`). As in
JavaScript, `.` does not match a line terminator, so a wildcard never
captures one.

The model follows the code in these details, where a reader might expect otherwise:

- Both "not an alias" and "alias matched, but no candidate exists" return
  `null`. The code does not keep them apart (`Resolver.NullOutcome`).
- An exact key returns its table entry as it is. A string target found by the
  scan is also returned as it is, without substitution or probing.
- An empty array of targets is accepted. Probing it yields `null`.
- The substitution at line 49 swaps only `trimStar(alias)` for
  `trimStar(option)`. When `trimStar` cuts at the `*`, the option's text after
  its `*` is dropped and the alias's suffix is kept
  (`Resolver.SubstitutedCapture`). For example, alias `@x/*.js` with option
  `lib/*.ts` turns `@x/foo.js` into `lib/foo.js`, not `lib/foo.ts`.
- Targets are tried in array order. Aliases are scanned in the order the
  table lists its keys.

In the source, the exact-key test writes entries and reads them in
mismatched ways. `loadTsPaths` stores entries as properties of a `Map` object
(`tsPathsMap[key] = …`, line 95 and 99). `attemptResolve` tests them with
`in` and reads them with `Map.prototype.get` (line 27), and `get` does not see
properties. The model reads line 27 as one table lookup (`Resolver.Lookup`).
Read literally, the source would return `undefined` for a specifier that is
itself a key.

## Model

| member | source | states |
|---|---|---|
| `Strings.ReplaceFirst` | src/index.ts:49 | `from.replace(pattern, replacement)` replaces only the first occurrence of the pattern, and leaves the string unchanged when the pattern does not occur |
| `Patterns.LiteralAliasMatches` | src/index.ts:30-31 | an alias without `*` matches exactly the specifier equal to it; a specifier that merely contains the alias does not match |
| `Patterns.WildcardAliasMatches` | src/index.ts:30-31 | the alias `prefix*suffix` matches a specifier iff it is `prefix + x + suffix`, for some `x` (possibly empty) without line terminators |
| `Patterns.RegexAgreement` | src/index.ts:30-31 | the anchored regular expression built by swapping the first `*` of a plain alias for `.*` matches exactly the specifiers `AliasMatches` accepts |
| `TsPaths.BuildTable` | src/index.ts:92-103 | building fails iff some `paths` value is neither a string nor an array; on success the table has the same keys in the same order, a string becomes `baseUrl + sep + v`, and an array is mapped element by element, keeping its length and order |
| `TsPaths.LoadTsPaths` | src/index.ts:86-106 | the loop that fills the map returns exactly the table `TsPathsTable` describes, or the `Bad path type` error |
| `TsPaths.BuildRoundTrip` | src/index.ts:92-100 | stripping `baseUrl + sep` from a built table gives back the configured entries: keys, order, shapes and every target string |
| `TsPaths.ConfigDefaults` | src/index.ts:86-88 | a missing `paths` gives the empty table; without a top-level `baseUrl` every target starts with `"src"` and the separator |
| `Resolver.Lookup` | src/index.ts:27 | the lookup of the specifier among the keys fails iff no entry has it as its key |
| `Resolver.AttemptResolveArray` | src/index.ts:47-72 | the probing loop, with its reassigned path, falsy tests and `continue`, returns exactly `ProbeOptions` of the options |
| `Resolver.TryOptionVerified` | src/index.ts:61-68 | every path one option yields is `relative('.', p)` for a `p` that passed `existsSync` and is no directory, or is the index file found in an existing directory |
| `Resolver.InferenceOrder` | src/index.ts:52-59 | an existing substituted path is kept without consulting the finders; when `findFileInDirectory` finds the file, `findFileInDirectoryUnknownExt` plays no part |
| `Resolver.ProbeExhausted` | src/index.ts:48-71 | probing returns `null` iff every option fails, whether it is missing or a directory without an index file |
| `Resolver.ProbeFirstWins` | src/index.ts:48-70 | the first option that yields a file decides the result; the failing options before it are passed over |
| `Resolver.ProbeVerified` | src/index.ts:48-71 | a non-null probing result is the result of one of the options, and is `relative('.', p)` for a `p` that passed `existsSync` and is no directory, or is the index file found in an existing directory |
| `Resolver.AttemptResolve` | src/index.ts:26-43 | the exact-key test followed by the scan loop returns exactly `ResolveAlias` |
| `Resolver.ExactKeyWins` | src/index.ts:27 | a specifier that is a key gets that key's entry, even when a wildcard alias would also match, and whatever the file system holds |
| `Resolver.FirstMatchDecides` | src/index.ts:29-39 | when the specifier is not a key, the first matching alias alone decides: a string target comes back verbatim; an array target gives the probing result, `null` included; later aliases make no difference |
| `Resolver.NullOutcome` | src/index.ts:26-43 | `attemptResolve` returns `null` iff the specifier is not a key and either no alias matches, or the first match has an array of targets none of which yields a file |
| `Resolver.SubstitutedCapture` | src/index.ts:49 | when `trimStar` gives the alias text before its `*`, the substitution puts the target's trimmed text in front of what follows the alias prefix in the specifier |
| `Resolver.TypescriptGuard` | src/index.ts:15 | the guard holds iff a character-by-character matcher for `\.tsx?$` succeeds from some index of the importer's path |
| `Resolver.Resolve` | src/index.ts:12-23 | `resolve` returns exactly `ResolverOutcome`: the guard, then loading the alias table, then `attemptResolve` |
| `Resolver.ResolveOutcomes` | src/index.ts:15-16 | for a loaded config object, `resolve` gives `null` iff the importer is not a `.ts`/`.tsx` file, whatever that config holds; for a TypeScript importer it fails only on a `paths` value that is neither a string nor an array |

Every specification function depends only on its inputs. So resolving the
same specifier twice against the same table and the same file system gives
the same result.

## Left out

- The Parcel `Resolver` wrapper, `async`/`await`, and tsconfig discovery and
  parsing (`load`, `loadConfig`, line 74-84). These are host I/O. The model
  takes the parsed `baseUrl` and `compilerOptions.paths` as a `TsPaths.Config`.
- Logger calls (line 18 and 77). They only observe.
- `Resolver.Resolve`, `Resolver.ResolveOutcomes`: assume `loadConfig` returns a
  result whose `config` is neither `null` nor `undefined` (`TsPaths.Config`
  has no such case). When no tsconfig.json is found, `result.config` at line
  84 throws. When `config` is `null` or `undefined`, `config['baseUrl']` at
  line 86 throws, because it lacks the `?.` that line 88 uses. Either way
  every TypeScript importer fails. A `config` that is a plain value (a number,
  string or boolean) reads as having neither key, which is `Config(None, None)`,
  the empty table.
- `checkWebpackSpecificImportSyntax(dependency)` (line 13): its code is not
  part of this model, and the call is dropped. `Resolver.Resolve` and
  `Resolver.ResolveOutcomes` assume it returns without throwing; if it throws,
  `resolve` fails before the guard, whatever the importer.
- `trimStar`, `findFileInDirectory`, `findFileInDirectoryUnknownExt`, `fs` and
  `path` from `./utils`. Their code is not part of this model. They are
  uninterpreted parameters (`Host`), with `undefined`/`null` as `None` and the
  empty string treated as falsy where the code tests truthiness.
- Real path normalisation in `path.resolve`/`path.relative`, and platform
  separators beyond `path.sep` as a parameter.
- `Patterns.AliasMatches`: modelled only for aliases with at most one `*` and
  no other regular-expression operator (`PlainPattern`, required by
  `AttemptResolve`, `ResolveAlias` and `Resolve`). Other aliases make the
  source build a different regular expression, and the model does not cover
  them. The regular expression's `g` flag has no effect on whether `match`
  succeeds.
- `Strings.ReplaceFirst`: `$` patterns in the replacement string
  (`$&`, `$1`, …) are not expanded.
- `TsPaths.LoadTsPaths`: requires the `paths` keys to be distinct, as the
  entries of a JavaScript object always are, so writing an entry appends it.
- JavaScript `Map`-versus-object property semantics: prototype members such
  as `get` or `size` counting as keys for `in`, and the property/`get`
  mismatch described above. Also left out: `Object.keys` listing
  integer-like keys first, array elements that are not strings, a `baseUrl`
  that is not a string, and a `paths` value that is not an object.
- Concurrency: `resolve` is `async` and awaits `load` (line 12 and 19), so
  calls can interleave. Each call builds its own `tsPathsMap` (line 89) and
  shares no mutable state with the others. The model treats each call as one
  pure function of its inputs, and does not model the interleaving.
- `TsPaths.LoadTsPaths`: every throw is modelled as `BadPathType`. For a JSON
  `null` value, `value.constructor` at line 93 throws a `TypeError` before the
  `Bad path type` error of line 102 is reached. The model gives both the same
  error value.
