/**
 * DeprecatedFourMzInputFormat: which input files a 4mz job reads, and how the framework's
 * naive byte-range splits of those files are snapped onto 4mz block boundaries.
 */
module FourMzInputFormat {
  import opened Wrappers
  import opened Hadoop
  import opened BlockIndexes

  // ---------------------------------------------------------------------------------------
  // Input-file filtering
  // ---------------------------------------------------------------------------------------

  /**
   * A FileStatus together with what the file system lists under it: a plain file, or a
   * directory with its entries. The name is the last path component, Path.getName().
   */
  datatype FileStatus = File(name: string) | Dir(name: string, children: seq<FileStatus>)

  /** hiddenPathFilter: rejects exactly the names that begin with '.' or '_'. */
  function HiddenPathFilter(name: string): (accepted: bool)
    ensures accepted <==> name == [] || (name[0] != '.' && name[0] != '_')
  {
    !("." <= name) && !("_" <= name)
  }

  /**
   * visible4mcFilter: a name the hidden-path filter accepts and that the external
   * FourMcInputFormatUtil.is4mzFile check (here the parameter is4mz) recognises.
   */
  function Visible4mcFilter(name: string, is4mz: string -> bool): (accepted: bool)
    ensures accepted ==> HiddenPathFilter(name) && is4mz(name)
    ensures !accepted ==> !HiddenPathFilter(name) || !is4mz(name)
  {
    !("." <= name) && !("_" <= name) && is4mz(name)
  }

  /** isSplitable: every 4mz file may be split, whatever its name. */
  function IsSplitable(file: Path): (splitable: bool)
    ensures splitable
  {
    true
  }

  /** fs.listStatus(path, hiddenPathFilter): the entries of a directory that are not hidden, in order. */
  function ListStatus(entries: seq<FileStatus>): (listing: seq<FileStatus>)
    ensures forall s :: s in listing ==> s in entries && HiddenPathFilter(s.name)
    ensures forall s :: s in entries && HiddenPathFilter(s.name) ==> s in listing
  {
    if entries == [] then []
    else (if HiddenPathFilter(entries[0].name) then [entries[0]] else []) + ListStatus(entries[1..])
  }

  /** What addInputPath appends to its results for one FileStatus, in order. */
  function Collected(stat: FileStatus, recursive: bool, is4mz: string -> bool): seq<FileStatus>
    decreases stat
  {
    match stat
    case File(name) => if Visible4mcFilter(name, is4mz) then [stat] else []
    case Dir(_, children) => if recursive then CollectedChildren(children, recursive, is4mz) else []
  }

  /** What the recursive calls over a directory's non-hidden entries append, in order. */
  function CollectedChildren(entries: seq<FileStatus>, recursive: bool, is4mz: string -> bool): seq<FileStatus>
    decreases entries
  {
    if entries == [] then []
    else
      (if HiddenPathFilter(entries[0].name) then Collected(entries[0], recursive, is4mz) else [])
      + CollectedChildren(entries[1..], recursive, is4mz)
  }

  /** What a sequence of addInputPath calls appends, one call per status, in order. */
  function CollectedEach(stats: seq<FileStatus>, recursive: bool, is4mz: string -> bool): seq<FileStatus>
  {
    if stats == [] then [] else Collected(stats[0], recursive, is4mz) + CollectedEach(stats[1..], recursive, is4mz)
  }

  /** The java.util.List<FileStatus> that addInputPath appends to. */
  class StatusList {
    var items: seq<FileStatus>

    constructor ()
      ensures items == []
    {
      items := [];
    }

    method Add(stat: FileStatus)
      modifies this
      ensures items == old(items) + [stat]
    {
      items := items + [stat];
    }
  }

  /**
   * addInputPath: appends pathStat to results when it is a file the visible-4mc filter
   * accepts; descends into a directory's non-hidden entries only when recursive is set.
   */
  method AddInputPath(results: StatusList, pathStat: FileStatus, recursive: bool, is4mz: string -> bool)
    modifies results
    ensures results.items == old(results.items) + Collected(pathStat, recursive, is4mz)
    decreases pathStat, 1
  {
    match pathStat
    case Dir(_, children) =>
      if recursive {
        AddListing(results, pathStat, recursive, is4mz);
      }
    case File(name) =>
      if Visible4mcFilter(name, is4mz) {
        results.Add(pathStat);
      }
  }

  /** The loop of addInputPath over fs.listStatus(path, hiddenPathFilter) for a directory. */
  method AddListing(results: StatusList, dir: FileStatus, recursive: bool, is4mz: string -> bool)
    requires dir.Dir?
    modifies results
    ensures results.items == old(results.items) + CollectedChildren(dir.children, recursive, is4mz)
    decreases dir, 0
  {
    ghost var before := results.items;
    var listing := ListStatus(dir.children);
    for i := 0 to |listing|
      invariant results.items == before + CollectedEach(listing[..i], recursive, is4mz)
    {
      ListStatusMember(dir.children, i);
      ghost var mid := results.items;
      AddInputPath(results, listing[i], recursive, is4mz);
      CollectedEachExtend(before, mid, results.items, listing, i, recursive, is4mz);
    }
    ListStatusCollected(dir.children, recursive, is4mz);
    CollectedEachWhole(listing, recursive, is4mz);
  }

  /**
   * listStatus: the framework's top-level input statuses, each expanded by addInputPath,
   * with recursion switched by mapred.input.dir.recursive (default false).
   */
  method ListInputFiles(conf: JobConf, inputs: seq<FileStatus>, is4mz: string -> bool)
    returns (files: seq<FileStatus>)
    ensures files == CollectedEach(inputs, conf.GetBoolean("mapred.input.dir.recursive", false), is4mz)
  {
    var results := new StatusList();
    var recursive := conf.GetBoolean("mapred.input.dir.recursive", false);
    for i := 0 to |inputs|
      invariant results.items == CollectedEach(inputs[..i], recursive, is4mz)
    {
      AddInputPath(results, inputs[i], recursive, is4mz);
      CollectedEachStep(inputs, i, recursive, is4mz);
    }
    assert inputs[..|inputs|] == inputs;
    files := results.items;
  }

  lemma {:induction false} CollectedEachAppend(a: seq<FileStatus>, b: seq<FileStatus>, recursive: bool, is4mz: string -> bool)
    ensures CollectedEach(a + b, recursive, is4mz) == CollectedEach(a, recursive, is4mz) + CollectedEach(b, recursive, is4mz)
  {
    if a == [] {
      assert a + b == b;
    } else {
      assert (a + b)[0] == a[0] && (a + b)[1..] == a[1..] + b;
      CollectedEachAppend(a[1..], b, recursive, is4mz);
    }
  }

  lemma CollectedEachStep(stats: seq<FileStatus>, i: nat, recursive: bool, is4mz: string -> bool)
    requires i < |stats|
    ensures CollectedEach(stats[..i + 1], recursive, is4mz)
         == CollectedEach(stats[..i], recursive, is4mz) + Collected(stats[i], recursive, is4mz)
  {
    assert stats[..i + 1] == stats[..i] + [stats[i]];
    CollectedEachAppend(stats[..i], [stats[i]], recursive, is4mz);
  }

  /** One more addInputPath call extends what the loop has appended since `before` by one status. */
  lemma CollectedEachExtend(before: seq<FileStatus>, mid: seq<FileStatus>, now: seq<FileStatus>,
                            stats: seq<FileStatus>, i: nat, recursive: bool, is4mz: string -> bool)
    requires i < |stats|
    requires mid == before + CollectedEach(stats[..i], recursive, is4mz)
    requires now == mid + Collected(stats[i], recursive, is4mz)
    ensures now == before + CollectedEach(stats[..i + 1], recursive, is4mz)
  {
    CollectedEachStep(stats, i, recursive, is4mz);
  }

  lemma ListStatusMember(entries: seq<FileStatus>, i: nat)
    requires i < |ListStatus(entries)|
    ensures ListStatus(entries)[i] in entries
  {
    assert ListStatus(entries)[i] in ListStatus(entries);
  }

  lemma CollectedEachWhole(stats: seq<FileStatus>, recursive: bool, is4mz: string -> bool)
    ensures CollectedEach(stats[..|stats|], recursive, is4mz) == CollectedEach(stats, recursive, is4mz)
  {
    assert stats[..|stats|] == stats;
  }

  /** Walking the filtered listing collects what walking the raw entries with the filter inline does. */
  lemma {:induction false} ListStatusCollected(entries: seq<FileStatus>, recursive: bool, is4mz: string -> bool)
    ensures CollectedEach(ListStatus(entries), recursive, is4mz) == CollectedChildren(entries, recursive, is4mz)
  {
    if entries != [] {
      ListStatusCollected(entries[1..], recursive, is4mz);
      var head := if HiddenPathFilter(entries[0].name) then [entries[0]] else [];
      CollectedEachAppend(head, ListStatus(entries[1..]), recursive, is4mz);
    }
  }

  /** f is stat itself, or lies below it through directory entries the hidden-path filter keeps. */
  ghost predicate Reaches(stat: FileStatus, f: FileStatus)
    decreases stat
  {
    stat == f || (stat.Dir? && exists c :: c in stat.children && HiddenPathFilter(c.name) && Reaches(c, f))
  }

  /** addInputPath never adds a directory, and every file it adds passes visible4mcFilter. */
  lemma {:induction false} CollectedAreVisibleFiles(stat: FileStatus, recursive: bool, is4mz: string -> bool)
    ensures forall f :: f in Collected(stat, recursive, is4mz) ==> f.File? && Visible4mcFilter(f.name, is4mz)
    decreases stat
  {
    match stat
    case File(_) =>
    case Dir(_, children) => ChildrenAreVisibleFiles(children, recursive, is4mz);
  }

  lemma {:induction false} ChildrenAreVisibleFiles(entries: seq<FileStatus>, recursive: bool, is4mz: string -> bool)
    ensures forall f :: f in CollectedChildren(entries, recursive, is4mz) ==> f.File? && Visible4mcFilter(f.name, is4mz)
    decreases entries
  {
    if entries != [] {
      CollectedAreVisibleFiles(entries[0], recursive, is4mz);
      ChildrenAreVisibleFiles(entries[1..], recursive, is4mz);
    }
  }

  /**
   * With recursion, addInputPath collects exactly the files that pass visible4mcFilter and
   * are reachable from pathStat without passing through a hidden entry.
   */
  lemma {:induction false} CollectedIffReachable(stat: FileStatus, f: FileStatus, is4mz: string -> bool)
    ensures f in Collected(stat, true, is4mz) <==> f.File? && Visible4mcFilter(f.name, is4mz) && Reaches(stat, f)
    decreases stat
  {
    match stat
    case File(_) =>
    case Dir(_, children) => ChildrenIffReachable(children, f, is4mz);
  }

  lemma {:induction false} ChildrenIffReachable(entries: seq<FileStatus>, f: FileStatus, is4mz: string -> bool)
    ensures f in CollectedChildren(entries, true, is4mz) <==>
            f.File? && Visible4mcFilter(f.name, is4mz) &&
            exists c :: c in entries && HiddenPathFilter(c.name) && Reaches(c, f)
    decreases entries
  {
    if entries != [] {
      CollectedIffReachable(entries[0], f, is4mz);
      ChildrenIffReachable(entries[1..], f, is4mz);
      assert forall c :: c in entries <==> c == entries[0] || c in entries[1..];
    }
  }

  /** The accepted files among the top-level statuses, in order: directories are dropped. */
  function VisibleTopLevelFiles(stats: seq<FileStatus>, is4mz: string -> bool): (files: seq<FileStatus>)
    ensures forall f :: f in files <==> f in stats && f.File? && Visible4mcFilter(f.name, is4mz)
  {
    if stats == [] then []
    else
      (if stats[0].File? && Visible4mcFilter(stats[0].name, is4mz) then [stats[0]] else [])
      + VisibleTopLevelFiles(stats[1..], is4mz)
  }

  /** Without recursion, listStatus yields the accepted top-level files only, in their order. */
  lemma {:induction false} NonRecursiveKeepsTopLevel(stats: seq<FileStatus>, is4mz: string -> bool)
    ensures CollectedEach(stats, false, is4mz) == VisibleTopLevelFiles(stats, is4mz)
  {
    if stats != [] {
      NonRecursiveKeepsTopLevel(stats[1..], is4mz);
    }
  }

  // ---------------------------------------------------------------------------------------
  // Split planning
  // ---------------------------------------------------------------------------------------

  /** The IOException getSplits throws when a file's block index cannot be read. */
  datatype PlanError = BlockIndexUnreadable(file: Path)

  /**
   * One split of the getSplits loop once its file's index is loaded: passed through unchanged
   * for an empty index; otherwise snapped onto block boundaries, or dropped (None) when either
   * alignment is NOT_FOUND.
   */
  function AlignSplit(split: FileSplit, index: BlockIndex, fileLength: int): (r: Option<FileSplit>)
    ensures index.isEmpty ==> r == Some(split)
    ensures !index.isEmpty ==>
              var s := index.alignSliceStartToIndex(split.start, SplitEnd(split));
              var e := index.alignSliceEndToIndex(SplitEnd(split), fileLength);
              && (r.Some? <==> s.At? && e.At?)
              && (r.Some? ==> r.value.path == split.path && r.value.locations == split.locations &&
                              r.value.start == s.offset && SplitEnd(r.value) == e.offset)
  {
    if index.isEmpty then Some(split)
    else
      var start := split.start;
      var end := start + split.length;
      var fourMcStart := index.alignSliceStartToIndex(start, end);
      var fourMcEnd := index.alignSliceEndToIndex(end, fileLength);
      if fourMcStart.At? && fourMcEnd.At? then
        Some(FileSplit(split.path, fourMcStart.offset, fourMcEnd.offset - fourMcStart.offset, split.locations))
      else
        None
  }

  /**
   * What getSplits returns for the naive splits, defined without the index cache: every
   * split's index is read afresh. The first split whose index is unreadable fails the whole plan.
   */
  function Plan(splits: seq<FileSplit>, readIndex: Path -> Option<BlockIndex>, fileLength: Path -> int)
    : Result<seq<FileSplit>, PlanError>
  {
    if splits == [] then Success([])
    else
      var last := splits[|splits| - 1];
      match Plan(splits[..|splits| - 1], readIndex, fileLength)
      case Failure(e) => Failure(e)
      case Success(out) =>
        match readIndex(last.path)
        case None => Failure(BlockIndexUnreadable(last.path))
        case Some(index) =>
          match AlignSplit(last, index, fileLength(last.path))
          case None => Success(out)
          case Some(aligned) => Success(out + [aligned])
  }

  /** The positions of the naive splits that contribute an output split, in order. */
  function Kept(splits: seq<FileSplit>, readIndex: Path -> Option<BlockIndex>, fileLength: Path -> int): seq<nat>
  {
    if splits == [] then []
    else
      var n := |splits| - 1;
      var index := readIndex(splits[n].path);
      Kept(splits[..n], readIndex, fileLength)
      + (if index.Some? && AlignSplit(splits[n], index.value, fileLength(splits[n].path)).Some? then [n] else [])
  }

  /**
   * The files whose index getSplits reads while it visits these splits: with its single-slot
   * cache, one read per run of consecutive splits of the same file.
   */
  function IndexLoads(splits: seq<FileSplit>): seq<Path>
  {
    if splits == [] then []
    else
      var n := |splits| - 1;
      IndexLoads(splits[..n]) + (if n > 0 && splits[n - 1].path == splits[n].path then [] else [splits[n].path])
  }

  /**
   * getSplits over the framework's naive splits, with the prevFile/prevIndex cache.
   * It returns what Plan returns, and reads the index once per run of same-file splits
   * up to and including the split that fails, if one does; loads is the ghost log of those reads.
   */
  method GetSplits(splits: seq<FileSplit>, readIndex: Path -> Option<BlockIndex>, fileLength: Path -> int)
    returns (result: Result<seq<FileSplit>, PlanError>, ghost loads: seq<Path>)
    ensures result == Plan(splits, readIndex, fileLength)
    ensures result.Success? ==> loads == IndexLoads(splits)
    ensures result.Failure? ==>
              exists n :: 0 < n <= |splits| && result.error == BlockIndexUnreadable(splits[n - 1].path) &&
                          loads == IndexLoads(splits[..n])
  {
    var out: seq<FileSplit> := [];
    var prevFile: Option<Path> := None;
    var prevIndex: Option<BlockIndex> := None;
    loads := [];
    for i := 0 to |splits|
      invariant Plan(splits[..i], readIndex, fileLength) == Success(out)
      invariant loads == IndexLoads(splits[..i])
      invariant i == 0 ==> prevFile.None?
      invariant i > 0 ==> prevFile == Some(splits[i - 1].path) && prevIndex == readIndex(splits[i - 1].path)
    {
      assert splits[..i + 1][..i] == splits[..i];
      var split := splits[i];
      var file := split.path;
      var index: Option<BlockIndex>;
      if prevFile == Some(file) {
        index := prevIndex;
      } else {
        index := readIndex(file);
        prevFile := Some(file);
        prevIndex := index;
        loads := loads + [file];
      }
      if index.None? {
        PlanPrefixFailure(splits, i + 1, readIndex, fileLength);
        return Failure(BlockIndexUnreadable(file)), loads;
      }
      var blockIndex := index.value;
      if blockIndex.isEmpty {
        out := out + [split];
        continue;
      }
      var start := split.start;
      var end := start + split.length;
      var fourMcStart := blockIndex.alignSliceStartToIndex(start, end);
      var fourMcEnd := blockIndex.alignSliceEndToIndex(end, fileLength(file));
      if fourMcStart.At? && fourMcEnd.At? {
        out := out + [FileSplit(file, fourMcStart.offset, fourMcEnd.offset - fourMcStart.offset, split.locations)];
      }
    }
    assert splits[..|splits|] == splits;
    result := Success(out);
  }

  /** Once a prefix of the splits fails to plan, the whole sequence fails with the same error. */
  lemma {:induction false} PlanPrefixFailure(splits: seq<FileSplit>, k: nat, readIndex: Path -> Option<BlockIndex>, fileLength: Path -> int)
    requires k <= |splits|
    requires Plan(splits[..k], readIndex, fileLength).Failure?
    ensures Plan(splits, readIndex, fileLength) == Plan(splits[..k], readIndex, fileLength)
    decreases |splits| - k
  {
    if k < |splits| {
      assert splits[..k + 1][..k] == splits[..k];
      PlanPrefixFailure(splits, k + 1, readIndex, fileLength);
    } else {
      assert splits[..k] == splits;
    }
  }

  /**
   * Planning fails exactly when some split's index is unreadable; the error then names the
   * file of the first such split, and no partial result is returned.
   */
  lemma {:induction false} PlanFailsIffUnreadable(splits: seq<FileSplit>, readIndex: Path -> Option<BlockIndex>, fileLength: Path -> int)
    ensures Plan(splits, readIndex, fileLength).Success? <==>
            forall i :: 0 <= i < |splits| ==> readIndex(splits[i].path).Some?
    ensures Plan(splits, readIndex, fileLength).Failure? ==>
              exists i :: 0 <= i < |splits| && readIndex(splits[i].path).None? &&
                          (forall j :: 0 <= j < i ==> readIndex(splits[j].path).Some?) &&
                          Plan(splits, readIndex, fileLength).error == BlockIndexUnreadable(splits[i].path)
  {
    if splits != [] {
      var n := |splits| - 1;
      PlanFailsIffUnreadable(splits[..n], readIndex, fileLength);
      assert forall i :: 0 <= i < n ==> splits[..n][i] == splits[i];
      if Plan(splits[..n], readIndex, fileLength).Failure? {
        var i :| 0 <= i < n && readIndex(splits[..n][i].path).None? &&
                 (forall j :: 0 <= j < i ==> readIndex(splits[..n][j].path).Some?) &&
                 Plan(splits[..n], readIndex, fileLength).error == BlockIndexUnreadable(splits[..n][i].path);
        assert readIndex(splits[i].path).None?;
      }
    }
  }

  /**
   * out is what planning the splits produced and kept says where each output came from:
   * output k is the aligned form of split kept[k], the kept positions strictly increase,
   * and every split not kept was dropped by the alignment.
   */
  ghost predicate TracesBack(splits: seq<FileSplit>, kept: seq<nat>, out: seq<FileSplit>,
                             readIndex: Path -> Option<BlockIndex>, fileLength: Path -> int)
  {
    && |kept| == |out|
    && (forall k :: 0 <= k < |kept| ==> kept[k] < |splits|)
    && (forall k, l :: 0 <= k < l < |kept| ==> kept[k] < kept[l])
    && (forall k :: 0 <= k < |kept| ==>
          readIndex(splits[kept[k]].path).Some? &&
          AlignSplit(splits[kept[k]], readIndex(splits[kept[k]].path).value,
                     fileLength(splits[kept[k]].path)) == Some(out[k]))
    && (forall i :: 0 <= i < |splits| && i !in kept ==>
          readIndex(splits[i].path).Some? &&
          AlignSplit(splits[i], readIndex(splits[i].path).value, fileLength(splits[i].path)).None?)
  }

  /** A successful plan keeps the relative order of its inputs and takes at most one output from each. */
  lemma {:induction false} PlanKeepsOrder(splits: seq<FileSplit>, readIndex: Path -> Option<BlockIndex>, fileLength: Path -> int)
    requires Plan(splits, readIndex, fileLength).Success?
    ensures TracesBack(splits, Kept(splits, readIndex, fileLength), Plan(splits, readIndex, fileLength).value,
                       readIndex, fileLength)
  {
    if splits != [] {
      var n := |splits| - 1;
      PlanKeepsOrder(splits[..n], readIndex, fileLength);
      TracesBackSnoc(splits, n, Kept(splits[..n], readIndex, fileLength), Plan(splits[..n], readIndex, fileLength).value,
                     readIndex, fileLength);
    }
  }

  lemma TracesBackSnoc(splits: seq<FileSplit>, n: nat, kept: seq<nat>, out: seq<FileSplit>,
                       readIndex: Path -> Option<BlockIndex>, fileLength: Path -> int)
    requires n == |splits| - 1
    requires readIndex(splits[n].path).Some?
    requires TracesBack(splits[..n], kept, out, readIndex, fileLength)
    ensures var aligned := AlignSplit(splits[n], readIndex(splits[n].path).value, fileLength(splits[n].path));
            TracesBack(splits, kept + (if aligned.Some? then [n] else []),
                       out + (if aligned.Some? then [aligned.value] else []), readIndex, fileLength)
  {
    assert forall i :: 0 <= i < n ==> splits[..n][i] == splits[i];
  }

  /** The plan is never longer than the naive split list. */
  lemma {:induction false} PlanNoLonger(splits: seq<FileSplit>, readIndex: Path -> Option<BlockIndex>, fileLength: Path -> int)
    requires Plan(splits, readIndex, fileLength).Success?
    ensures |Plan(splits, readIndex, fileLength).value| <= |splits|
  {
    if splits != [] {
      PlanNoLonger(splits[..|splits| - 1], readIndex, fileLength);
    }
  }

  /** When every file's index is readable and empty, the naive splits come back unchanged. */
  lemma {:induction false} PlanEmptyIndexIdentity(splits: seq<FileSplit>, readIndex: Path -> Option<BlockIndex>, fileLength: Path -> int)
    requires forall i :: 0 <= i < |splits| ==> readIndex(splits[i].path).Some? && readIndex(splits[i].path).value.isEmpty
    ensures Plan(splits, readIndex, fileLength) == Success(splits)
  {
    if splits != [] {
      var n := |splits| - 1;
      assert forall i :: 0 <= i < n ==> splits[..n][i] == splits[i];
      PlanEmptyIndexIdentity(splits[..n], readIndex, fileLength);
      assert splits[..n] + [splits[n]] == splits;
    }
  }

  /** Splits that all belong to one file cost a single index read. */
  lemma {:induction false} IndexLoadsOneFile(splits: seq<FileSplit>, file: Path)
    requires |splits| > 0
    requires forall i :: 0 <= i < |splits| ==> splits[i].path == file
    ensures IndexLoads(splits) == [file]
  {
    var n := |splits| - 1;
    if n > 0 {
      assert forall i :: 0 <= i < n ==> splits[..n][i] == splits[i];
      IndexLoadsOneFile(splits[..n], file);
    }
  }

  /**
   * Every file of the splits has its index read, only those files are read, and there are
   * never more reads than splits.
   */
  lemma {:induction false} IndexLoadsCover(splits: seq<FileSplit>)
    ensures |IndexLoads(splits)| <= |splits|
    ensures forall p :: p in IndexLoads(splits) <==> exists i :: 0 <= i < |splits| && splits[i].path == p
  {
    if splits != [] {
      var n := |splits| - 1;
      assert forall i :: 0 <= i < n ==> splits[..n][i] == splits[i];
      IndexLoadsCover(splits[..n]);
    }
  }

  /** Two consecutive index reads are always for different files. */
  lemma {:induction false} IndexLoadsChangeFile(splits: seq<FileSplit>)
    ensures forall k :: 0 < k < |IndexLoads(splits)| ==> IndexLoads(splits)[k - 1] != IndexLoads(splits)[k]
    ensures |splits| > 0 ==> |IndexLoads(splits)| > 0 && IndexLoads(splits)[|IndexLoads(splits)| - 1] == splits[|splits| - 1].path
  {
    if splits != [] {
      var n := |splits| - 1;
      IndexLoadsChangeFile(splits[..n]);
    }
  }

  /** Planning one more split with a readable index appends its aligned form, if any. */
  lemma PlanSnoc(splits: seq<FileSplit>, k: nat, readIndex: Path -> Option<BlockIndex>, fileLength: Path -> int)
    requires k < |splits|
    requires Plan(splits[..k], readIndex, fileLength).Success?
    requires readIndex(splits[k].path).Some?
    ensures var aligned := AlignSplit(splits[k], readIndex(splits[k].path).value, fileLength(splits[k].path));
            Plan(splits[..k + 1], readIndex, fileLength)
            == Success(Plan(splits[..k], readIndex, fileLength).value + (if aligned.Some? then [aligned.value] else []))
  {
    var prefix := splits[..k + 1];
    assert prefix[..k] == splits[..k] && prefix[k] == splits[k];
    var out := Plan(splits[..k], readIndex, fileLength).value;
    assert out + [] == out;
  }
}
