/**
 * The alias table built from `compilerOptions.paths` of tsconfig.json
 * (`loadTsPaths`, src/index.ts line 82-107): every target is prefixed with
 * the top-level `baseUrl` and the path separator.
 */
module TsPaths {
  import opened Wrappers

  /** A value of `compilerOptions.paths` as parsed from JSON: a string, an array of strings, or anything else. */
  datatype RawValue = RawString(s: string) | RawArray(items: seq<string>) | RawOther

  /** A value of the alias table, `string | Array<string>`. */
  datatype PathValue = One(path: string) | Many(paths: seq<string>)

  /** The alias table in the order `Object.keys` lists its entries. */
  type Table = seq<(string, PathValue)>

  /** The error thrown for a `paths` value that is neither a string nor an array. */
  datatype BuildError = BadPathType

  /** The parts of the loaded tsconfig the builder reads: `baseUrl` and `compilerOptions.paths`, `None` where absent. */
  datatype Config = Config(baseUrl: Option<string>, paths: Option<seq<(string, RawValue)>>)

  const DefaultBaseUrl: string := "src"

  /** No key appears twice, as in the entries of a JavaScript object. */
  predicate UniqueKeys<V>(entries: seq<(string, V)>)
  {
    forall i, j :: 0 <= i < j < |entries| ==> entries[i].0 != entries[j].0
  }

  /** `built` is `raw` with `baseUrl + sep` put in front of each of its paths, keeping a string a string and an array an array of the same length and order. */
  predicate Rewritten(baseUrl: string, sep: string, raw: RawValue, built: PathValue)
  {
    match raw
    case RawString(v) => built == One(baseUrl + sep + v)
    case RawArray(vs) =>
      && built.Many?
      && |built.paths| == |vs|
      && forall j :: 0 <= j < |vs| ==> built.paths[j] == baseUrl + sep + vs[j]
    case RawOther => false
  }

  function PrefixAll(baseUrl: string, sep: string, vs: seq<string>): seq<string>
  {
    seq(|vs|, j requires 0 <= j < |vs| => baseUrl + sep + vs[j])
  }

  /** One entry of the loop at line 92-103. */
  function BuildValue(baseUrl: string, sep: string, raw: RawValue): Result<PathValue, BuildError>
  {
    match raw
    case RawString(v) => Success(One(baseUrl + sep + v))
    case RawArray(vs) => Success(Many(PrefixAll(baseUrl, sep, vs)))
    case RawOther => Failure(BadPathType)
  }

  /**
   * The table the loop at line 92-104 leaves behind, or the error it throws.
   * It fails exactly when some value is neither a string nor an array; on
   * success the keys stay as they were, in the same order, and each value is
   * rewritten with the base prefix.
   */
  function BuildTable(baseUrl: string, sep: string, entries: seq<(string, RawValue)>): (r: Result<Table, BuildError>)
    decreases |entries|
    ensures r.Failure? <==> exists i :: 0 <= i < |entries| && entries[i].1.RawOther?
    ensures r.Success? ==> |r.value| == |entries|
    ensures r.Success? ==> forall i :: 0 <= i < |entries| ==>
      r.value[i].0 == entries[i].0 && Rewritten(baseUrl, sep, entries[i].1, r.value[i].1)
  {
    if entries == [] then Success([])
    else
      var (key, raw) := entries[|entries| - 1];
      match BuildTable(baseUrl, sep, entries[..|entries| - 1])
      case Failure(e) => Failure(e)
      case Success(t) =>
        match BuildValue(baseUrl, sep, raw)
        case Failure(e) => Failure(e)
        case Success(v) => Success(t + [(key, v)])
  }

  /** The whole of `loadTsPaths` after `loadConfig`: `baseUrl` defaults to `"src"` (line 86), a missing `paths` to `{}` (line 88). */
  function TsPathsTable(config: Config, sep: string): Result<Table, BuildError>
  {
    BuildTable(config.baseUrl.GetOr(DefaultBaseUrl), sep, config.paths.GetOr([]))
  }

  /** The map-building part of `loadTsPaths` (line 86-106). */
  method LoadTsPaths(config: Config, sep: string) returns (result: Result<Table, BuildError>)
    requires config.paths.Some? ==> UniqueKeys(config.paths.value)
    ensures result == TsPathsTable(config, sep)
  {
    var baseUrl := if config.baseUrl.Some? then config.baseUrl.value else DefaultBaseUrl;
    var tsPathsObject := if config.paths.Some? then config.paths.value else [];
    assert baseUrl == config.baseUrl.GetOr(DefaultBaseUrl) && tsPathsObject == config.paths.GetOr([]);
    var tsPathsMap: Table := [];
    for k := 0 to |tsPathsObject|
      invariant BuildTable(baseUrl, sep, tsPathsObject[..k]) == Success(tsPathsMap)
    {
      var (key, value) := tsPathsObject[k];
      assert tsPathsObject[..k + 1][..k] == tsPathsObject[..k];
      match value
      case RawString(v) =>
        tsPathsMap := tsPathsMap + [(key, One(baseUrl + sep + v))];
      case RawArray(vs) =>
        var paths := PrefixAll(baseUrl, sep, vs);
        tsPathsMap := tsPathsMap + [(key, Many(paths))];
      case RawOther =>
        assert tsPathsObject[k].1.RawOther?;
        assert BuildTable(baseUrl, sep, tsPathsObject).Failure?;
        assert BuildTable(baseUrl, sep, tsPathsObject).error.BadPathType?;
        return Failure(BadPathType);
    }
    assert tsPathsObject[..|tsPathsObject|] == tsPathsObject;
    return Success(tsPathsMap);
  }

  /** Removes the base prefix again: the inverse of `BuildValue` on the values it produces. */
  function Unprefix(baseUrl: string, sep: string, v: PathValue): RawValue
  {
    var n := |baseUrl + sep|;
    match v
    case One(p) => RawString(if n <= |p| then p[n..] else p)
    case Many(ps) => RawArray(seq(|ps|, j requires 0 <= j < |ps| => if n <= |ps[j]| then ps[j][n..] else ps[j]))
  }

  function Unbuild(baseUrl: string, sep: string, t: Table): seq<(string, RawValue)>
  {
    seq(|t|, i requires 0 <= i < |t| => (t[i].0, Unprefix(baseUrl, sep, t[i].1)))
  }

  /** Building loses nothing: stripping the base prefix from a built table gives back the configured entries, keys, order and shapes included. */
  lemma BuildRoundTrip(baseUrl: string, sep: string, entries: seq<(string, RawValue)>)
    requires BuildTable(baseUrl, sep, entries).Success?
    ensures Unbuild(baseUrl, sep, BuildTable(baseUrl, sep, entries).value) == entries
  {
    var t := BuildTable(baseUrl, sep, entries).value;
    var n := |baseUrl + sep|;
    forall i | 0 <= i < |entries| ensures Unprefix(baseUrl, sep, t[i].1) == entries[i].1 {
      match entries[i].1
      case RawString(v) =>
        assert (baseUrl + sep + v)[n..] == v;
      case RawArray(vs) =>
        var ps := t[i].1.paths;
        forall j | 0 <= j < |vs| ensures ps[j][n..] == vs[j] {
          assert ps[j] == baseUrl + sep + vs[j];
        }
        assert Unprefix(baseUrl, sep, t[i].1).items == vs;
    }
  }

  /** Without a `baseUrl`, every target starts with `"src"` and the separator; without `paths`, the table is empty. */
  lemma ConfigDefaults(config: Config, sep: string)
    ensures config.paths.None? ==> TsPathsTable(config, sep) == Success([])
    ensures config.baseUrl.None? && TsPathsTable(config, sep).Success? ==>
      var t := TsPathsTable(config, sep).value;
      forall i :: 0 <= i < |t| ==> match t[i].1
        case One(p) => |DefaultBaseUrl + sep| <= |p| && p[..|DefaultBaseUrl + sep|] == DefaultBaseUrl + sep
        case Many(ps) => forall j :: 0 <= j < |ps| ==>
          |DefaultBaseUrl + sep| <= |ps[j]| && ps[j][..|DefaultBaseUrl + sep|] == DefaultBaseUrl + sep
  {
    if config.baseUrl.None? && TsPathsTable(config, sep).Success? {
      var entries := config.paths.GetOr([]);
      var t := TsPathsTable(config, sep).value;
      var pre := DefaultBaseUrl + sep;
      forall i | 0 <= i < |t| ensures match t[i].1
        case One(p) => |pre| <= |p| && p[..|pre|] == pre
        case Many(ps) => forall j :: 0 <= j < |ps| ==> |pre| <= |ps[j]| && ps[j][..|pre|] == pre
      {
        assert Rewritten(DefaultBaseUrl, sep, entries[i].1, t[i].1);
        match entries[i].1
        case RawString(v) =>
          assert (pre + v)[..|pre|] == pre;
        case RawArray(vs) =>
          forall j | 0 <= j < |vs| ensures (pre + vs[j])[..|pre|] == pre { }
      }
    }
  }
}
