# 4mz input path: split planning and line reading, in Dafny

This project models the core of the old-API (`org.apache.hadoop.mapred`) input path for
4mz (4mc block-compressed) files in the hadoop-4mc library, and proves what it promises.

- **DeprecatedFourMzInputFormat** chooses the input files and plans the splits.
  - Input files: a recursive walk (`addInputPath`) keeps the plain files whose names pass
    `visible4mcFilter`. It descends into directories only when
    `mapred.input.dir.recursive` is set. Inside a directory it skips entries that
    `hiddenPathFilter` rejects.
  - Splits: `getSplits` walks the framework's naive `FileSplit`s in order. It keeps a
    one-slot cache of the last file's block index. An unreadable (null) index fails the
    whole plan. An empty index passes the split through unchanged. Otherwise the split is
    snapped onto block boundaries with the index's two alignment functions. It is dropped
    when either alignment is `NOT_FOUND`.
- **DeprecatedFourMzLineRecordReader** reads one split.
  - When the split does not start at offset 0, it discards exactly one leading line and
    re-bases `start` to the stream position after it.
  - `next` stamps each key with the position before the read. It stops past `end` or
    when a read returns 0 bytes.
  - `getProgress` reports progress capped at 1.

Files:

- `wrappers.dfy`: `Option` (a Java null) and `Result` (a thrown `IOException`).
- `hadoop.dfy`: paths, `FileSplit`, and the two `JobConf` lookups the core makes.
- `block_index.dfy`: `BlockIndexes` is the interface the planner sees of a loaded
  `FourMzBlockIndex`: `isEmpty` and the two alignment functions. `NOT_FOUND` is the
  `NotFound` constructor. `SortedBlockIndex` is one concrete index over strictly increasing
  block offsets. It is used for the tiling proofs. Its start alignment gives the first
  block start inside the window; its end alignment gives the first block start at or after
  the end, or the file length.
- `input_format.dfy`: the filters, `addInputPath` and `listStatus` as methods over the
  mutated result list, the planning loop `GetSplits` with its cache, the cache-free
  specification `Plan`, and the lemmas.
- `aligned_partition.dfy`: over `SortedBlockIndex`, naive splits that tile a file are
  planned into aligned splits that tile it too. Also the three-block worked example.
- `line_record_reader.dfy`: the reader as a class over a `LineStream`. The stream stands for
  the `LineReader` together with the file stream whose position it reports.

Inputs that come from I/O are parameters:

- `readIndex: Path -> Option<BlockIndex>` stands for `FourMzBlockIndex.readIndex`.
- `fileLength: Path -> int` stands for `fs.getFileStatus(file).getLen()`.
- `is4mz: string -> bool` stands for `FourMcInputFormatUtil.is4mzFile`.
- The directory tree is a `FileStatus` value.
- The decompressed stream is a sequence of lines. Each line carries the byte count
  `readLine` returns for it and the compressed-file position after it. Positions never
  go back.

Points where the model states the code's behaviour precisely:

- `getSplits` checks both alignments against `NOT_FOUND`. The model therefore lets an
  index's `alignSliceEndToIndex` return `NotFound`, and drops the split when it does.
  `SortedBlockIndex`'s end alignment never returns `NotFound`.
- `getProgress` caps only above. The model proves from the reader's invariant that
  progress is also never negative. `pos == start` whenever the re-based `start` passed
  `end`.
- Top-level inputs are not passed through `hiddenPathFilter` by this code. A top-level
  directory is descended whatever its name. A top-level file must pass `visible4mcFilter`.

## Model

| member | source | states |
|---|---|---|
| FourMzInputFormat.HiddenPathFilter | java/hadoop-4mc/src/main/java/com/hadoop/mapred/DeprecatedFourMzInputFormat.java:45-53 | a name is accepted iff it is empty or its first character is neither '.' nor '_' |
| FourMzInputFormat.Visible4mcFilter | java/hadoop-4mc/src/main/java/com/hadoop/mapred/DeprecatedFourMzInputFormat.java:55-62 | a name is accepted iff the hidden-path filter accepts it and is4mzFile recognises it |
| FourMzInputFormat.IsSplitable | java/hadoop-4mc/src/main/java/com/hadoop/mapred/DeprecatedFourMzInputFormat.java:96-99 | every file is splittable |
| FourMzInputFormat.ListStatus | java/hadoop-4mc/src/main/java/com/hadoop/mapred/DeprecatedFourMzInputFormat.java:87 | the listing holds exactly the directory entries the hidden-path filter accepts |
| FourMzInputFormat.AddInputPath | java/hadoop-4mc/src/main/java/com/hadoop/mapred/DeprecatedFourMzInputFormat.java:82-94 | the result list grows by exactly what the walk of pathStat collects; nothing else is added |
| FourMzInputFormat.AddListing | java/hadoop-4mc/src/main/java/com/hadoop/mapred/DeprecatedFourMzInputFormat.java:86-90 | the loop over the filtered listing appends the walks of the non-hidden entries, in order |
| FourMzInputFormat.ListInputFiles | java/hadoop-4mc/src/main/java/com/hadoop/mapred/DeprecatedFourMzInputFormat.java:64-80 | the returned files are the walks of the top-level statuses, in order, with recursion read from mapred.input.dir.recursive (default false) |
| FourMzInputFormat.CollectedAreVisibleFiles | java/hadoop-4mc/src/main/java/com/hadoop/mapred/DeprecatedFourMzInputFormat.java:82-94 | the walk never adds a directory, and every file it adds passes visible4mcFilter |
| FourMzInputFormat.ChildrenAreVisibleFiles | java/hadoop-4mc/src/main/java/com/hadoop/mapred/DeprecatedFourMzInputFormat.java:86-90 | the walk of a directory's entries adds only files that pass visible4mcFilter |
| FourMzInputFormat.CollectedIffReachable | java/hadoop-4mc/src/main/java/com/hadoop/mapred/DeprecatedFourMzInputFormat.java:82-94 | with recursion, a status is collected iff it is a visible 4mz file reachable from pathStat without passing a hidden entry |
| FourMzInputFormat.ChildrenIffReachable | java/hadoop-4mc/src/main/java/com/hadoop/mapred/DeprecatedFourMzInputFormat.java:86-90 | a status is collected from a directory's entries iff it is a visible 4mz file under a non-hidden entry |
| FourMzInputFormat.VisibleTopLevelFiles | java/hadoop-4mc/src/main/java/com/hadoop/mapred/DeprecatedFourMzInputFormat.java:91-93 | a status is kept iff it is one of the given statuses, a plain file, and passes visible4mcFilter |
| FourMzInputFormat.NonRecursiveKeepsTopLevel | java/hadoop-4mc/src/main/java/com/hadoop/mapred/DeprecatedFourMzInputFormat.java:85-93 | without recursion the result is exactly the accepted top-level files, in order; directories contribute nothing |
| FourMzInputFormat.AlignSplit | java/hadoop-4mc/src/main/java/com/hadoop/mapred/DeprecatedFourMzInputFormat.java:129-143 | empty index: the split unchanged; otherwise emitted iff both alignments are found, with the original file and locations, start = aligned start, end = aligned end |
| FourMzInputFormat.GetSplits | java/hadoop-4mc/src/main/java/com/hadoop/mapred/DeprecatedFourMzInputFormat.java:101-148 | the cached loop returns what cache-free planning returns; the index is read once per run of same-file splits, up to and including a failing split |
| FourMzInputFormat.PlanPrefixFailure | java/hadoop-4mc/src/main/java/com/hadoop/mapred/DeprecatedFourMzInputFormat.java:125-127 | once a prefix fails, the whole plan fails with the same error; no partial result |
| FourMzInputFormat.PlanFailsIffUnreadable | java/hadoop-4mc/src/main/java/com/hadoop/mapred/DeprecatedFourMzInputFormat.java:116-127 | planning succeeds iff every split's index is readable; on failure the error names the first unreadable file |
| FourMzInputFormat.PlanKeepsOrder | java/hadoop-4mc/src/main/java/com/hadoop/mapred/DeprecatedFourMzInputFormat.java:111-147 | each output is the aligned form of one input; those inputs appear in strictly increasing order; every input left out was dropped by alignment |
| FourMzInputFormat.PlanNoLonger | java/hadoop-4mc/src/main/java/com/hadoop/mapred/DeprecatedFourMzInputFormat.java:111-147 | the plan is never longer than the naive split list |
| FourMzInputFormat.PlanEmptyIndexIdentity | java/hadoop-4mc/src/main/java/com/hadoop/mapred/DeprecatedFourMzInputFormat.java:129-132 | when every index is empty, the naive splits come back unchanged |
| FourMzInputFormat.IndexLoadsOneFile | java/hadoop-4mc/src/main/java/com/hadoop/mapred/DeprecatedFourMzInputFormat.java:116-123 | splits that all belong to one file cause exactly one index read |
| FourMzInputFormat.IndexLoadsCover | java/hadoop-4mc/src/main/java/com/hadoop/mapred/DeprecatedFourMzInputFormat.java:116-123 | every split's file is read, no other file is read, and there are never more reads than splits |
| FourMzInputFormat.IndexLoadsChangeFile | java/hadoop-4mc/src/main/java/com/hadoop/mapred/DeprecatedFourMzInputFormat.java:116-123 | two consecutive index reads are for different files, and the last read is for the last split's file |
| SortedBlockIndex.AlignStart | java/hadoop-4mc/src/main/java/com/hadoop/mapred/DeprecatedFourMzInputFormat.java:137 | over increasing offsets: the smallest block start in [start, end), NOT_FOUND iff there is none |
| SortedBlockIndex.AlignEnd | java/hadoop-4mc/src/main/java/com/hadoop/mapred/DeprecatedFourMzInputFormat.java:138 | over increasing offsets: the smallest block start at or after end, or the file length if there is none; never NOT_FOUND |
| AlignedPartition.AlignEndSkipsEmptyWindow | java/hadoop-4mc/src/main/java/com/hadoop/mapred/DeprecatedFourMzInputFormat.java:137-143 | a naive window with no block start leaves the aligned end unchanged, so dropping it leaves no gap |
| AlignedPartition.AlignStartMeetsPreviousEnd | java/hadoop-4mc/src/main/java/com/hadoop/mapred/DeprecatedFourMzInputFormat.java:137-143 | a window holding a block start begins exactly where the previous window's aligned end lies |
| AlignedPartition.PlanTilesFile | java/hadoop-4mc/src/main/java/com/hadoop/mapred/DeprecatedFourMzInputFormat.java:111-147 | naive splits that tile a file are planned into splits that tile it too, each starting at a block start and ending at a block start or at the file end |
| AlignedPartition.ThreeBlockExample | java/hadoop-4mc/src/main/java/com/hadoop/mapred/DeprecatedFourMzInputFormat.java:134-143 | blocks at 0, 1000, 2500 in a 4000-byte file: naive [0,1500) [1500,3000) [3000,4000) become [0,2500) [2500,4000) |
| FourMzLineRecordReader.MaxLineLength | java/hadoop-4mc/src/main/java/com/hadoop/mapred/DeprecatedFourMzLineRecordReader.java:33-49 | the line-length limit is Integer.MAX_VALUE unless the job configures it |
| FourMzLineRecordReader.LineStream.ReadLine | java/hadoop-4mc/src/main/java/com/hadoop/mapred/DeprecatedFourMzLineRecordReader.java:115-116 | the byte count is that of the next line, and 0 exactly at end of stream; the stream position never goes back; the limit passed is recorded |
| FourMzLineRecordReader.LineStream.GetPos | java/hadoop-4mc/src/main/java/com/hadoop/mapred/DeprecatedFourMzLineRecordReader.java:119 | the position of the compressed file stream after the lines read so far |
| FourMzLineRecordReader.Progress | java/hadoop-4mc/src/main/java/com/hadoop/mapred/DeprecatedFourMzLineRecordReader.java:79-85 | 0 for an empty range; never above 1; for a non-empty range: 1 iff pos has reached end, 0 iff pos is still at start, non-negative once pos is at or past start; 0 when a re-based start lies past end |
| FourMzLineRecordReader.ProgressMonotone | java/hadoop-4mc/src/main/java/com/hadoop/mapred/DeprecatedFourMzLineRecordReader.java:79-85 | progress never decreases as pos moves forward |
| FourMzLineRecordReader.FourMzLineRecordReader.constructor | java/hadoop-4mc/src/main/java/com/hadoop/mapred/DeprecatedFourMzLineRecordReader.java:43-73 | end = split start + length and maxLineLen is the configured limit; start 0: nothing read and start = pos = 0; otherwise one unlimited readLine that consumes at most one line, then start = pos = stream position, never before the split's start |
| FourMzLineRecordReader.FourMzLineRecordReader.GetProgress | java/hadoop-4mc/src/main/java/com/hadoop/mapred/DeprecatedFourMzLineRecordReader.java:78-85 | in every reachable state progress lies in [0, 1]; it is 0 iff the range is empty or pos is at start |
| FourMzLineRecordReader.FourMzLineRecordReader.GetPos | java/hadoop-4mc/src/main/java/com/hadoop/mapred/DeprecatedFourMzLineRecordReader.java:87-90 | returns pos and changes nothing |
| FourMzLineRecordReader.FourMzLineRecordReader.Next | java/hadoop-4mc/src/main/java/com/hadoop/mapred/DeprecatedFourMzLineRecordReader.java:109-124 | past end: false, nothing read, nothing changed; else key = old pos and one readLine with maxLineLen; false at end of stream with pos and the stream position unchanged; otherwise the stream advances by exactly one line, the value is that line and pos is the position after it; keys stay non-decreasing and progress never drops |
| FourMzLineRecordReader.FourMzLineRecordReader.Close | java/hadoop-4mc/src/main/java/com/hadoop/mapred/DeprecatedFourMzLineRecordReader.java:92-97 | the stream is closed and its read position is unchanged |
| FourMzLineRecordReader.Open | java/hadoop-4mc/src/main/java/com/hadoop/mapred/DeprecatedFourMzLineRecordReader.java:43-73 | no codec: the IOException with its message, and the stream untouched; otherwise a fresh, valid reader with all the constructor's guarantees: end, maxLineLen, the start-0 case and the one-line discard |

## Left out

- `FourMzBlockIndex` is not part of this model. The planner is stated over the interface
  `BlockIndexes.BlockIndex`. `SortedBlockIndex` is one concrete index used for the tiling
  proof; `FourMzBlockIndex`'s own alignment code is not modelled. `NOT_FOUND` is a
  constructor, not a numeric sentinel, so an index cannot
  return an offset that collides with it.
- Hadoop I/O (`fs.open`, `seek`, `getFileStatus`, `super.listStatus`,
  `super.getSplits`, `fs.listStatus`) is not modelled. Its results are inputs: the naive
  split list, the file length, the directory tree, the opened stream.
- The codec (`CompressionCodecFactory`, `createInputStream`) is not modelled. Whether a
  codec was found is a boolean. The header read is folded into the stream given to the
  constructor. The predicate `Opened` states what `fs.open` and the seek leave: no line read
  yet and, for a split that does not start at 0, the split's start as the position before
  the first line.
- `FileStatus` keeps only the entry's name (`getName()`), not its full path. The collected
  entries therefore lose their directories, and two same-named files in different
  directories are the same value.
- `LineReader.readLine` internals are not modelled: truncation of over-long lines, how the
  remainder is skipped, and what `value` holds at end of stream (the model clears it).
  Only the returned byte count, the line text and the stream position are modelled.
- `FourMzLineRecordReader.Progress`: computed over reals. Java's float rounding is not
  modelled. For a re-based start past end the Java result is -0.0f, which the model
  represents as 0.
- `FourMzInputFormat.AlignSplit`: `start + length` and `fourMcEnd - fourMcStart` use
  unbounded integers. Java's 64-bit `long` overflow is not modelled.
- `synchronized` on `getPos` and `close` (concurrency) and `LOG.debug` are left out.
- `getName`, `getFilePattern`, `createKey` and `createValue` are left out. They
  return constants or fresh empty objects.
- `getRecordReader` is left out. It only calls the reader's constructor, which `Open`
  models.
- The elephant-bird output format is left out. It is an adapter over external writers,
  codecs and reflection.
