/**
 * What the resolver asks of its host: the helpers of `./utils` (`trimStar`,
 * `findFileInDirectory`, `findFileInDirectoryUnknownExt`) and the `path`
 * and `fs` it exports. Their code is not part of this model, so each is an arbitrary
 * function supplied by the caller, and every property proved holds for all
 * of them.
 */
module Host {
  import opened Wrappers

  /** `path.sep`, `path.resolve`, `path.relative('.', _)`, `path.basename`, `path.dirname`, and `trimStar`. */
  datatype PathOps = PathOps(
    sep: string,
    trimStar: string -> string,
    resolve: string -> string,
    relative: string -> string,
    basename: string -> string,
    dirname: string -> string)

  /**
   * The file system at the moment of one resolution: the paths `fs.existsSync`
   * accepts, those `fs.statSync` reports as directories, and the two finders.
   * `findFileInDirectory(dir, Some(base))` looks for `base` with a known
   * extension in `dir`; `findFileInDirectory(dir, None)` is the one-argument
   * call, which looks for the index file of `dir`. `None` stands for
   * `undefined` or `null`.
   */
  datatype FileSystem = FileSystem(
    existing: set<string>,
    directories: set<string>,
    findFileInDirectory: (string, Option<string>) -> Option<string>,
    findFileInDirectoryUnknownExt: (string, string) -> Option<string>)

  /** A finder's answer as the `if (!absolutePath)` tests read it: the empty string is falsy too. */
  function Truthy(p: Option<string>): Option<string>
  {
    if p.Some? && p.value != "" then p else None
  }

  /** The model's reading of `fs.existsSync(p)`: membership in `existing`, and false for `undefined`. */
  predicate ExistsSync(fs: FileSystem, p: Option<string>)
  {
    p.Some? && p.value in fs.existing
  }
}
