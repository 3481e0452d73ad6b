/**
 * The pieces of the Hadoop mapred API that the 4mz input path consumes: file paths,
 * file splits and the job configuration.
 */
module Hadoop {

  /** A file path, compared by value as Path.equals compares it. */
  type Path = string

  /**
   * A mapred FileSplit: the byte range [start, start + length) of a file, plus the
   * host names the framework prefers to run it on (never interpreted here).
   */
  datatype FileSplit = FileSplit(path: Path, start: int, length: int, locations: seq<string>)

  /** The end offset of a split, start + length, as the planner and the reader compute it. */
  function SplitEnd(split: FileSplit): int
  {
    split.start + split.length
  }

  /**
   * The typed lookups the core makes into a JobConf: each key is either set or
   * falls back to the default the caller passes.
   */
  datatype JobConf = JobConf(ints: map<string, int>, bools: map<string, bool>)
  {
    /** Configuration.getInt(key, default). */
    function GetInt(key: string, default: int): int
    {
      if key in ints then ints[key] else default
    }

    /** Configuration.getBoolean(key, default). */
    function GetBoolean(key: string, default: bool): bool
    {
      if key in bools then bools[key] else default
    }
  }
}
