/**
 * What the split planner sees of a loaded FourMzBlockIndex. FourMzBlockIndex itself is not
 * part of this model: the planner is stated over this interface, and any index satisfying it
 * (such as SortedBlockIndex.FromOffsets below) can be plugged in.
 */
module BlockIndexes {

  /** The result of aligning a slice boundary: a block-start offset, or the NOT_FOUND sentinel. */
  datatype Alignment = NotFound | At(offset: int)

  /**
   * A loaded block index: whether it records any block at all, and its two alignment
   * functions, alignSliceStartToIndex(start, end) and alignSliceEndToIndex(end, fileLength).
   */
  datatype BlockIndex = BlockIndex(
    isEmpty: bool,
    alignSliceStartToIndex: (int, int) -> Alignment,
    alignSliceEndToIndex: (int, int) -> Alignment)
}

/**
 * A concrete block index: the strictly increasing start offsets of a file's compression
 * blocks, used for the tiling proofs. alignSliceStartToIndex(start, end) is the
 * first block start in the window [start, end), NOT_FOUND if there is none;
 * alignSliceEndToIndex(end, fileLength) is the first block start at or after end, or
 * fileLength if there is none.
 */
module SortedBlockIndex {
  import opened BlockIndexes

  ghost predicate StrictlyIncreasing(offsets: seq<int>)
  {
    forall i, j :: 0 <= i < j < |offsets| ==> offsets[i] < offsets[j]
  }

  /** The position of the first offset that is at least x (|offsets| if there is none). */
  function LowerBound(offsets: seq<int>, x: int): (k: nat)
    ensures k <= |offsets|
    ensures forall i :: 0 <= i < k ==> offsets[i] < x
    ensures k < |offsets| ==> x <= offsets[k]
  {
    if offsets == [] then 0
    else if x <= offsets[0] then 0
    else 1 + LowerBound(offsets[1..], x)
  }

  /** alignSliceStartToIndex: the smallest block start in [start, end). */
  function AlignStart(offsets: seq<int>, start: int, end: int): (r: Alignment)
    requires StrictlyIncreasing(offsets)
    ensures r.At? ==> r.offset in offsets && start <= r.offset < end
    ensures r.At? ==> forall o :: o in offsets && start <= o < end ==> r.offset <= o
    ensures r.NotFound? <==> forall o :: o in offsets ==> !(start <= o < end)
  {
    var k := LowerBound(offsets, start);
    if k < |offsets| && offsets[k] < end then At(offsets[k]) else NotFound
  }

  /** alignSliceEndToIndex: the smallest block start at or after end, or fileLength if none. */
  function AlignEnd(offsets: seq<int>, end: int, fileLength: int): (r: Alignment)
    requires StrictlyIncreasing(offsets)
    ensures r.At?
    ensures (exists o :: o in offsets && end <= o) ==>
              r.offset in offsets && end <= r.offset &&
              forall o :: o in offsets && end <= o ==> r.offset <= o
    ensures (forall o :: o in offsets ==> o < end) ==> r.offset == fileLength
  {
    var k := LowerBound(offsets, end);
    if k < |offsets| then
      assert offsets[k] in offsets;
      At(offsets[k])
    else
      At(fileLength)
  }

  /** The index of a file whose blocks start at the given offsets. */
  function FromOffsets(offsets: seq<int>): BlockIndex
    requires StrictlyIncreasing(offsets)
  {
    BlockIndex(
      |offsets| == 0,
      (start, end) => AlignStart(offsets, start, end),
      (end, fileLength) => AlignEnd(offsets, end, fileLength))
  }
}
