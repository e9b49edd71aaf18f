/**
 * What the stubs command hands to the file-discovery library: the roots the
 * finder searches and the directory and path exclusions registered on it, in
 * registration order. How the library matches those exclusions against files
 * is not part of this model; the finder here only records them.
 */
module Finders {

  /** The discovery request: search roots, `exclude` directories, `notPath` patterns. */
  datatype SourceSet = SourceSet(roots: seq<string>, dirExcludes: seq<string>, pathExcludes: seq<string>)

  /** The finder object, configured step by step by the command. */
  class Finder {
    var roots: seq<string>
    var dirExcludes: seq<string>
    var pathExcludes: seq<string>

    /** The request the finder currently describes. */
    function Query(): SourceSet
      reads this
    {
      SourceSet(roots, dirExcludes, pathExcludes)
    }

    /** A finder searching `roots`, with no exclusion registered yet (`Finder::create()->in(...)`). */
    constructor Create(roots: seq<string>)
      ensures Query() == SourceSet(roots, [], [])
    {
      this.roots := roots;
      dirExcludes := [];
      pathExcludes := [];
    }

    /** Registers one more excluded directory after the earlier ones. */
    method Exclude(dir: string)
      modifies this
      ensures Query() == old(Query()).(dirExcludes := old(dirExcludes) + [dir])
    {
      dirExcludes := dirExcludes + [dir];
    }

    /** Registers one more excluded path after the earlier ones. */
    method NotPath(path: string)
      modifies this
      ensures Query() == old(Query()).(pathExcludes := old(pathExcludes) + [path])
    {
      pathExcludes := pathExcludes + [path];
    }
  }
}
