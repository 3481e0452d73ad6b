/**
 * DeprecatedFourMzLineRecordReader: reads the lines of one split of a 4mz-compressed text
 * file. Keys are positions in the compressed file, values are the lines.
 */
module FourMzLineRecordReader {
  import opened Wrappers
  import opened Hadoop

  /** Java's Integer.MAX_VALUE, the default line-length limit. */
  const IntMax: int := 2147483647

  /** The configuration key of the line-length limit. */
  const MaxLineLenConf: string := "com.hadoop.mapreduce.fourmc.line.recordreader.max.line.length"

  /** The configured maximum line length, Integer.MAX_VALUE unless the job sets it. */
  function MaxLineLength(job: JobConf): (limit: int)
    ensures MaxLineLenConf !in job.ints ==> limit == IntMax
    ensures MaxLineLenConf in job.ints ==> limit == job.ints[MaxLineLenConf]
  {
    job.GetInt(MaxLineLenConf, IntMax)
  }

  /**
   * One line as the LineReader delivers it: its text, the byte count readLine returns for it
   * (never 0: a 0 count means end of stream), and the position of the underlying compressed
   * file stream once the line has been read.
   */
  datatype Line = Line(text: string, size: nat, posAfter: nat)

  /**
   * What the stream of a split can deliver: positive byte counts, and compressed-file
   * positions that never go back, starting from the position before the first read.
   */
  ghost predicate WellFormed(origin: nat, lines: seq<Line>)
  {
    && (forall i :: 0 <= i < |lines| ==> lines[i].size > 0 && origin <= lines[i].posAfter)
    && (forall i, j :: 0 <= i < j < |lines| ==> lines[i].posAfter <= lines[j].posAfter)
  }

  /** Hadoop's Text, the value a line is read into. */
  class Text {
    var bytes: string

    constructor ()
      ensures bytes == []
    {
      bytes := [];
    }
  }

  /** Hadoop's LongWritable, the key a record's position is stored in. */
  class LongWritable {
    var value: int

    constructor ()
      ensures value == 0
    {
      value := 0;
    }
  }

  /**
   * The LineReader over the codec's decompressing stream, together with the file stream
   * fileIn it drains: readLine pulls the next line, getPos reports fileIn's position.
   */
  class LineStream {
    const lines: seq<Line>
    const origin: nat
    var cursor: nat
    var closed: bool
    /** The line-length limit passed to each readLine call so far. */
    ghost var limits: seq<int>

    ghost predicate Valid()
      reads this
    {
      cursor <= |lines| && WellFormed(origin, lines)
    }

    constructor (lines: seq<Line>, origin: nat)
      requires WellFormed(origin, lines)
      ensures Valid() && this.lines == lines && this.origin == origin
      ensures cursor == 0 && !closed && limits == []
    {
      this.lines := lines;
      this.origin := origin;
      cursor := 0;
      closed := false;
      limits := [];
    }

    /** fileIn.getPos(): where the compressed file stream stands after the lines read so far. */
    function Position(): nat
      reads this
      requires cursor <= |lines|
    {
      if cursor == 0 then origin else lines[cursor - 1].posAfter
    }

    method GetPos() returns (p: nat)
      requires Valid()
      ensures p == Position()
    {
      p := Position();
    }

    /**
     * readLine(value, maxLen): stores the next line in value and returns its byte count,
     * or clears value and returns 0 at the end of the stream.
     */
    method ReadLine(value: Text, maxLen: int) returns (n: nat)
      requires Valid()
      modifies this, value
      ensures Valid() && closed == old(closed)
      ensures limits == old(limits) + [maxLen]
      ensures Position() >= old(Position())
      ensures old(cursor) < |lines| ==>
                n == lines[old(cursor)].size && n > 0 && cursor == old(cursor) + 1 &&
                value.bytes == lines[old(cursor)].text
      ensures old(cursor) == |lines| ==> n == 0 && cursor == old(cursor) && value.bytes == []
    {
      limits := limits + [maxLen];
      if cursor < |lines| {
        value.bytes := lines[cursor].text;
        n := lines[cursor].size;
        cursor := cursor + 1;
      } else {
        value.bytes := [];
        n := 0;
      }
    }

    method Close()
      requires Valid()
      modifies this
      ensures Valid() && closed
      ensures cursor == old(cursor) && limits == old(limits)
    {
      closed := true;
    }
  }

  /**
   * getProgress for the state (start, pos, end): 0 for an empty range, otherwise how far pos
   * has moved from start towards end, capped at 1.
   */
  function Progress(start: int, pos: int, end: int): (r: real)
    ensures r <= 1.0
    ensures start == end ==> r == 0.0
    ensures start < end ==> (r == 1.0 <==> end <= pos)
    ensures start < end ==> (r == 0.0 <==> pos == start)
    ensures start < end && start <= pos ==> 0.0 <= r
    ensures end < start && pos == start ==> r == 0.0
  {
    if start == end then 0.0
    else
      var ratio := (pos - start) as real / (end - start) as real;
      if ratio < 1.0 then ratio else 1.0
  }

  /**
   * The stream as the constructor has it once fs.open has opened the file and, for a split
   * that does not start at offset 0, fileIn.seek has moved to the split's start: no line has
   * been read from it yet, and the position before its first line is that start.
   */
  ghost predicate Opened(split: FileSplit, stream: LineStream)
    reads stream
  {
    stream.cursor == 0 && (split.start != 0 ==> stream.origin == split.start)
  }

  /** Progress never goes back as pos moves forward within the same range. */
  lemma ProgressMonotone(start: int, end: int, pos: int, pos': int)
    requires start <= end && pos <= pos'
    ensures Progress(start, pos, end) <= Progress(start, pos', end)
  {
    if start < end {
      var d := (end - start) as real;
      assert (pos - start) as real / d <= (pos' - start) as real / d by {
        assert (pos' - start) as real / d - (pos - start) as real / d == (pos' - pos) as real / d;
      }
    }
  }

  /** A DeprecatedFourMzLineRecordReader: the state start, pos, end over one split's stream. */
  class FourMzLineRecordReader {
    var start: int
    var pos: int
    /** start + length of the split; never reassigned after construction. */
    const end: int
    const maxLineLen: int
    const input: LineStream
    /** The keys of the records returned so far, in order. */
    ghost var keys: seq<int>

    ghost predicate Valid()
      reads this, input
    {
      && input.Valid()
      && start <= pos <= input.Position()
      && (end < start ==> pos == start)
      && (forall i, j :: 0 <= i < j < |keys| ==> keys[i] <= keys[j])
      && (forall i :: 0 <= i < |keys| ==> keys[i] <= pos)
    }

    /**
     * The constructor: end is fixed from the split as given; for a split that does not start
     * at offset 0 exactly one line is read and discarded, and start and pos move to the
     * stream position after it; otherwise nothing is read and start = pos = 0.
     */
    constructor (split: FileSplit, job: JobConf, stream: LineStream)
      requires stream.Valid() && Opened(split, stream)
      modifies stream
      ensures Valid() && input == stream && keys == []
      ensures end == SplitEnd(split) && maxLineLen == MaxLineLength(job)
      ensures split.start <= start
      ensures stream.closed == old(stream.closed)
      ensures split.start == 0 ==>
                start == 0 && pos == 0 &&
                stream.cursor == old(stream.cursor) && stream.limits == old(stream.limits)
      ensures split.start != 0 ==>
                stream.limits == old(stream.limits) + [IntMax] &&
                stream.cursor == (if old(stream.cursor) < |stream.lines| then old(stream.cursor) + 1 else old(stream.cursor)) &&
                start == stream.Position() && pos == start
    {
      start := split.start;
      end := split.start + split.length;
      maxLineLen := job.GetInt(MaxLineLenConf, IntMax);
      input := stream;
      pos := 0;
      keys := [];
      new;
      if start != 0 {
        // the one-argument readLine reads with no length limit
        var discarded := new Text();
        var _ := stream.ReadLine(discarded, IntMax);
        start := stream.GetPos();
      }
      pos := start;
    }

    /** getProgress, which stays within [0, 1] for every reachable state. */
    function GetProgress(): (r: real)
      reads this, input
      requires Valid()
      ensures 0.0 <= r <= 1.0
      ensures r == 0.0 <==> start == end || pos == start
      ensures r == 1.0 <==> start < end <= pos
    {
      Progress(start, pos, end)
    }

    /** getPos: the current position, with no change of state. */
    method GetPos() returns (p: int)
      ensures p == pos
    {
      p := pos;
    }

    /**
     * next(key, value): past end, returns false without reading. Otherwise stamps key with
     * pos, reads one line of at most maxLineLen into value, and returns false at the end of
     * the stream (pos unchanged) or true with pos moved to the stream's position.
     */
    method Next(key: LongWritable, value: Text) returns (more: bool)
      requires Valid()
      modifies this, key, value, input
      ensures Valid()
      ensures start == old(start) && input.closed == old(input.closed)
      ensures old(pos) > end ==> !more && pos == old(pos) && keys == old(keys) && unchanged(key, value, input)
      ensures old(pos) <= end ==> key.value == old(pos) && input.limits == old(input.limits) + [maxLineLen]
      ensures old(pos) <= end ==> (more <==> old(input.cursor) < |input.lines|)
      ensures old(pos) <= end ==>
                input.cursor == (if old(input.cursor) < |input.lines| then old(input.cursor) + 1 else old(input.cursor))
      ensures more ==>
                value.bytes == input.lines[old(input.cursor)].text && pos == input.Position() &&
                pos == input.lines[old(input.cursor)].posAfter && keys == old(keys) + [key.value]
      ensures !more ==> pos == old(pos) && keys == old(keys)
      ensures old(pos) <= pos
      ensures GetProgress() >= old(GetProgress())
    {
      if pos <= end {
        key.value := pos;
        var newSize := input.ReadLine(value, maxLineLen);
        if newSize == 0 {
          return false;
        }
        ghost var before := pos;
        pos := input.GetPos();
        keys := keys + [key.value];
        ProgressMonotone(start, end, before, pos);
        return true;
      }
      return false;
    }

    /** close: releases the stream; the reader's own state is left as it was. */
    method Close()
      requires Valid()
      modifies input
      ensures Valid() && input.closed
      ensures input.cursor == old(input.cursor)
    {
      input.Close();
    }
  }

  /**
   * The part of the constructor that can fail: with no codec for the file there is no
   * reader, only the IOException; with one, the stream is opened as the constructor says.
   */
  method Open(split: FileSplit, job: JobConf, codecFound: bool, stream: LineStream)
    returns (r: Result<FourMzLineRecordReader, string>)
    requires stream.Valid() && Opened(split, stream)
    modifies stream
    ensures !codecFound ==> r == Failure("Codec for file " + split.path + " not found, cannot run") && unchanged(stream)
    ensures codecFound ==>
              r.Success? && fresh(r.value) && r.value.Valid() && r.value.input == stream &&
              r.value.end == SplitEnd(split) && r.value.maxLineLen == MaxLineLength(job) &&
              r.value.keys == [] && split.start <= r.value.start && stream.closed == old(stream.closed)
    ensures codecFound && split.start == 0 ==>
              r.value.start == 0 && r.value.pos == 0 &&
              stream.cursor == old(stream.cursor) && stream.limits == old(stream.limits)
    ensures codecFound && split.start != 0 ==>
              stream.limits == old(stream.limits) + [IntMax] &&
              stream.cursor == (if old(stream.cursor) < |stream.lines| then old(stream.cursor) + 1 else old(stream.cursor)) &&
              r.value.start == stream.Position() && r.value.pos == r.value.start
  {
    if !codecFound {
      return Failure("Codec for file " + split.path + " not found, cannot run");
    }
    var reader := new FourMzLineRecordReader(split, job, stream);
    return Success(reader);
  }
}
