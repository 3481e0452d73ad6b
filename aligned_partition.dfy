/**
 * What split planning achieves over a sorted block index: when the naive splits of a file
 * tile it in order, the aligned splits tile it too, each starting at a block start and ending
 * at a block start or at the end of the file, so every block is read by exactly one split.
 */
module AlignedPartition {
  import opened Wrappers
  import opened Hadoop
  import opened BlockIndexes
  import opened SortedBlockIndex
  import opened FourMzInputFormat

  /** Splits of one file, each non-empty, each starting where the previous one ends. */
  ghost predicate Chained(splits: seq<FileSplit>, file: Path)
  {
    && (forall i :: 0 <= i < |splits| ==> splits[i].path == file && splits[i].length > 0)
    && (forall i :: 0 < i < |splits| ==> splits[i].start == SplitEnd(splits[i - 1]))
  }

  /** Splits that cover [0, fileLength) of one file in order, with no gap and no overlap. */
  ghost predicate TilesFile(splits: seq<FileSplit>, file: Path, fileLength: int)
  {
    && |splits| > 0
    && Chained(splits, file)
    && splits[0].start == 0
    && SplitEnd(splits[|splits| - 1]) == fileLength
  }

  /** A block index for a file of the given length: blocks start at 0 and inside the file. */
  ghost predicate IndexOfFile(offsets: seq<int>, fileLength: int)
  {
    && StrictlyIncreasing(offsets)
    && |offsets| > 0 && offsets[0] == 0
    && forall o :: o in offsets ==> o < fileLength
  }

  /** A naive window with no block start in it does not move the aligned end. */
  lemma AlignEndSkipsEmptyWindow(offsets: seq<int>, lo: int, hi: int, fileLength: int)
    requires StrictlyIncreasing(offsets) && lo <= hi
    requires AlignStart(offsets, lo, hi).NotFound?
    ensures AlignEnd(offsets, lo, fileLength) == AlignEnd(offsets, hi, fileLength)
  {
    var a := AlignEnd(offsets, lo, fileLength);
    var b := AlignEnd(offsets, hi, fileLength);
    if exists o :: o in offsets && hi <= o {
      assert b.offset in offsets && a.offset in offsets && lo <= a.offset;
      assert a.offset <= b.offset;
      assert !(a.offset < hi);
    }
  }

  /** A naive window holding a block start begins exactly where the previous aligned split ends. */
  lemma AlignStartMeetsPreviousEnd(offsets: seq<int>, lo: int, hi: int, fileLength: int)
    requires StrictlyIncreasing(offsets)
    requires AlignStart(offsets, lo, hi).At?
    ensures AlignEnd(offsets, lo, fileLength) == AlignStart(offsets, lo, hi)
  {
    var s := AlignStart(offsets, lo, hi).offset;
    assert s in offsets && lo <= s;
    var a := AlignEnd(offsets, lo, fileLength).offset;
    assert a in offsets && a <= s;
  }

  /**
   * The aligned splits planned so far tile [0, a) of the file, where a is the aligned end of
   * the last naive split visited, which ended at naiveEnd.
   */
  ghost predicate TilesUpTo(out: seq<FileSplit>, file: Path, offsets: seq<int>, fileLength: int, naiveEnd: int)
    requires StrictlyIncreasing(offsets)
  {
    && |out| > 0 && Chained(out, file) && out[0].start == 0
    && SplitEnd(out[|out| - 1]) == AlignEnd(offsets, naiveEnd, fileLength).offset
    && (forall i :: 0 <= i < |out| ==> out[i].start in offsets)
    && (forall i :: 0 <= i < |out| ==> SplitEnd(out[i]) in offsets || SplitEnd(out[i]) == fileLength)
  }

  /** The aligned form of a non-empty naive split, when its window holds a block start. */
  lemma AlignedSplitShape(split: FileSplit, offsets: seq<int>, fileLength: int)
    requires IndexOfFile(offsets, fileLength) && split.length > 0
    ensures var s := AlignStart(offsets, split.start, SplitEnd(split));
            var r := AlignSplit(split, FromOffsets(offsets), fileLength);
            && (r.Some? <==> s.At?)
            && (r.Some? ==> r.value.path == split.path && r.value.start == s.offset &&
                            r.value.start in offsets && r.value.length > 0 &&
                            SplitEnd(r.value) == AlignEnd(offsets, SplitEnd(split), fileLength).offset)
  {
    var s := AlignStart(offsets, split.start, SplitEnd(split));
    var e := AlignEnd(offsets, SplitEnd(split), fileLength);
    if s.At? {
      assert s.offset in offsets && s.offset < fileLength && s.offset < SplitEnd(split);
      assert e.offset in offsets ==> SplitEnd(split) <= e.offset;
    }
  }

  /** The first naive split, starting at 0, always survives and starts the tiling. */
  lemma TilesFirst(split: FileSplit, file: Path, offsets: seq<int>, fileLength: int)
    requires IndexOfFile(offsets, fileLength)
    requires split.path == file && split.start == 0 && split.length > 0
    ensures AlignSplit(split, FromOffsets(offsets), fileLength).Some?
    ensures TilesUpTo([AlignSplit(split, FromOffsets(offsets), fileLength).value], file, offsets, fileLength, SplitEnd(split))
  {
    assert offsets[0] in offsets;
    AlignedSplitShape(split, offsets, fileLength);
  }

  /** A naive split that continues the tiling keeps the aligned splits a tiling. */
  lemma TilesNext(out: seq<FileSplit>, split: FileSplit, file: Path, offsets: seq<int>, fileLength: int)
    requires IndexOfFile(offsets, fileLength)
    requires split.path == file && split.length > 0
    requires TilesUpTo(out, file, offsets, fileLength, split.start)
    ensures var r := AlignSplit(split, FromOffsets(offsets), fileLength);
            TilesUpTo(out + (if r.Some? then [r.value] else []), file, offsets, fileLength, SplitEnd(split))
  {
    AlignedSplitShape(split, offsets, fileLength);
    var s := AlignStart(offsets, split.start, SplitEnd(split));
    if s.NotFound? {
      AlignEndSkipsEmptyWindow(offsets, split.start, SplitEnd(split), fileLength);
      assert out + [] == out;
    } else {
      AlignStartMeetsPreviousEnd(offsets, split.start, SplitEnd(split), fileLength);
      TilesExtend(out, AlignSplit(split, FromOffsets(offsets), fileLength).value, file, offsets, fileLength,
                  split.start, SplitEnd(split));
    }
  }

  /** Appending a split that starts where the tiling ends, at a block start, extends the tiling. */
  lemma TilesExtend(out: seq<FileSplit>, next: FileSplit, file: Path, offsets: seq<int>, fileLength: int,
                    naiveEnd: int, naiveEnd': int)
    requires StrictlyIncreasing(offsets)
    requires TilesUpTo(out, file, offsets, fileLength, naiveEnd)
    requires next.path == file && next.length > 0 && next.start in offsets
    requires next.start == AlignEnd(offsets, naiveEnd, fileLength).offset
    requires SplitEnd(next) == AlignEnd(offsets, naiveEnd', fileLength).offset
    requires SplitEnd(next) in offsets || SplitEnd(next) == fileLength
    ensures TilesUpTo(out + [next], file, offsets, fileLength, naiveEnd')
  {
    var o := out + [next];
    assert forall i :: 0 <= i < |out| ==> o[i] == out[i];
    assert o[|out|] == next && o[|out| - 1] == out[|out| - 1];
  }

  /** The plan of the first k naive splits tiles [0, aligned end of naive split k - 1). */
  lemma {:induction false} PlanPrefixTiles(
    splits: seq<FileSplit>, k: nat, file: Path, offsets: seq<int>, fileLength: int,
    readIndex: Path -> Option<BlockIndex>, lengthOf: Path -> int)
    requires IndexOfFile(offsets, fileLength)
    requires readIndex(file) == Some(FromOffsets(offsets)) && lengthOf(file) == fileLength
    requires |splits| > 0 && Chained(splits, file) && splits[0].start == 0
    requires 1 <= k <= |splits|
    ensures Plan(splits[..k], readIndex, lengthOf).Success?
    ensures TilesUpTo(Plan(splits[..k], readIndex, lengthOf).value, file, offsets, fileLength, SplitEnd(splits[k - 1]))
  {
    if k == 1 {
      assert splits[..0] == [];
      PlanSnoc(splits, 0, readIndex, lengthOf);
      TilesFirst(splits[0], file, offsets, fileLength);
    } else {
      PlanPrefixTiles(splits, k - 1, file, offsets, fileLength, readIndex, lengthOf);
      PlanSnoc(splits, k - 1, readIndex, lengthOf);
      TilesNext(Plan(splits[..k - 1], readIndex, lengthOf).value, splits[k - 1], file, offsets, fileLength);
    }
  }

  /**
   * Naive splits that tile a file are planned into aligned splits that tile it too, each
   * starting at a block start and ending at a block start or at the end of the file.
   */
  lemma PlanTilesFile(
    splits: seq<FileSplit>, file: Path, offsets: seq<int>, fileLength: int,
    readIndex: Path -> Option<BlockIndex>, lengthOf: Path -> int)
    requires IndexOfFile(offsets, fileLength)
    requires readIndex(file) == Some(FromOffsets(offsets)) && lengthOf(file) == fileLength
    requires TilesFile(splits, file, fileLength)
    ensures Plan(splits, readIndex, lengthOf).Success?
    ensures var out := Plan(splits, readIndex, lengthOf).value;
            && TilesFile(out, file, fileLength)
            && (forall i :: 0 <= i < |out| ==> out[i].start in offsets)
            && (forall i :: 0 <= i < |out| ==> SplitEnd(out[i]) in offsets || SplitEnd(out[i]) == fileLength)
  {
    PlanPrefixTiles(splits, |splits|, file, offsets, fileLength, readIndex, lengthOf);
    assert splits[..|splits|] == splits;
    assert AlignEnd(offsets, fileLength, fileLength).offset == fileLength;
  }

  /**
   * A file of 4000 bytes with blocks starting at 0, 1000 and 2500, split naively into
   * [0, 1500), [1500, 3000) and [3000, 4000), is read as [0, 2500) and [2500, 4000);
   * the third window holds no block start and is dropped.
   */
  lemma ThreeBlockExample(readIndex: Path -> Option<BlockIndex>, lengthOf: Path -> int)
    requires StrictlyIncreasing([0, 1000, 2500])
    requires readIndex("f") == Some(FromOffsets([0, 1000, 2500])) && lengthOf("f") == 4000
    ensures Plan([FileSplit("f", 0, 1500, []), FileSplit("f", 1500, 1500, []), FileSplit("f", 3000, 1000, [])],
                 readIndex, lengthOf)
         == Success([FileSplit("f", 0, 2500, []), FileSplit("f", 2500, 1500, [])])
  {
    var splits := [FileSplit("f", 0, 1500, []), FileSplit("f", 1500, 1500, []), FileSplit("f", 3000, 1000, [])];
    FirstTwoWindows(splits, readIndex, lengthOf);
    ThirdWindow([0, 1000, 2500]);
    PlanSnoc(splits, 2, readIndex, lengthOf);
    assert splits[..3] == splits;
  }

  /** The first two windows of the example each hold a block start and are kept. */
  lemma FirstTwoWindows(splits: seq<FileSplit>, readIndex: Path -> Option<BlockIndex>, lengthOf: Path -> int)
    requires StrictlyIncreasing([0, 1000, 2500])
    requires readIndex("f") == Some(FromOffsets([0, 1000, 2500])) && lengthOf("f") == 4000
    requires splits == [FileSplit("f", 0, 1500, []), FileSplit("f", 1500, 1500, []), FileSplit("f", 3000, 1000, [])]
    ensures Plan(splits[..2], readIndex, lengthOf) == Success([FileSplit("f", 0, 2500, []), FileSplit("f", 2500, 1500, [])])
  {
    var first := FileSplit("f", 0, 2500, []);
    var second := FileSplit("f", 2500, 1500, []);
    FirstWindowPlanned(splits, readIndex, lengthOf);
    SecondWindow([0, 1000, 2500]);
    assert [first] + [second] == [first, second];
    PlanSnoc(splits, 1, readIndex, lengthOf);
  }

  lemma FirstWindowPlanned(splits: seq<FileSplit>, readIndex: Path -> Option<BlockIndex>, lengthOf: Path -> int)
    requires StrictlyIncreasing([0, 1000, 2500])
    requires readIndex("f") == Some(FromOffsets([0, 1000, 2500])) && lengthOf("f") == 4000
    requires |splits| > 0 && splits[0] == FileSplit("f", 0, 1500, [])
    ensures Plan(splits[..1], readIndex, lengthOf) == Success([FileSplit("f", 0, 2500, [])])
  {
    FirstWindow([0, 1000, 2500]);
    assert splits[..0] == [];
    assert [] + [FileSplit("f", 0, 2500, [])] == [FileSplit("f", 0, 2500, [])];
    PlanSnoc(splits, 0, readIndex, lengthOf);
  }

  lemma FirstWindow(offsets: seq<int>)
    requires offsets == [0, 1000, 2500] && StrictlyIncreasing(offsets)
    ensures AlignSplit(FileSplit("f", 0, 1500, []), FromOffsets(offsets), 4000) == Some(FileSplit("f", 0, 2500, []))
  {
    assert LowerBound(offsets, 0) == 0;
    assert LowerBound(offsets, 1500) == 2 by {
      assert LowerBound(offsets[1..], 1500) == 1 + LowerBound(offsets[2..], 1500);
    }
  }

  lemma SecondWindow(offsets: seq<int>)
    requires offsets == [0, 1000, 2500] && StrictlyIncreasing(offsets)
    ensures AlignSplit(FileSplit("f", 1500, 1500, []), FromOffsets(offsets), 4000) == Some(FileSplit("f", 2500, 1500, []))
  {
    assert LowerBound(offsets, 1500) == 2 by {
      assert LowerBound(offsets[1..], 1500) == 1 + LowerBound(offsets[2..], 1500);
    }
    assert LowerBound(offsets, 3000) == 3 by {
      assert LowerBound(offsets[1..], 3000) == 1 + LowerBound(offsets[2..], 3000);
      assert LowerBound(offsets[2..], 3000) == 1 + LowerBound(offsets[3..], 3000);
    }
  }

  lemma ThirdWindow(offsets: seq<int>)
    requires offsets == [0, 1000, 2500] && StrictlyIncreasing(offsets)
    ensures AlignSplit(FileSplit("f", 3000, 1000, []), FromOffsets(offsets), 4000).None?
  {
    assert LowerBound(offsets, 3000) == 3 by {
      assert LowerBound(offsets[1..], 3000) == 1 + LowerBound(offsets[2..], 3000);
      assert LowerBound(offsets[2..], 3000) == 1 + LowerBound(offsets[3..], 3000);
    }
  }
}
