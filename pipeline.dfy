/**
 * Pipeline: the control flow of `main` (aggregate_videos.py, lines 6-61).
 * Discovery, then a halt when nothing matched, the in-place sort, the load
 * loop, a halt when nothing loaded, and finally concatenation and export of
 * the collected clips.  The file system and the video library are inputs:
 * `listing` is what `os.listdir` returned, `mtime` is `os.path.getmtime`,
 * `open` is `mp.VideoFileClip`, and `writeVideo` says whether concatenating the
 * clips and writing the output file succeeded.
 */
module Pipeline {
  import opened Discovery
  import opened Ordering
  import opened Loader

  /** How a run ends; each `exit()` of the source is a terminal value here. */
  datatype Outcome<C> =
    | NoVideos                            // no ".MOV" name: halt at lines 18-20
    | NoValidClips(failures: seq<string>) // every open failed: halt at lines 44-46
    | Export(clips: seq<C>, failures: seq<string>, exported: bool)
      // the clips went to concatenation and export; a failed export is reported, not raised

  /** The sorted list of ".MOV" names that the load loop visits. */
  function SortedFiles(listing: seq<string>, mtime: string -> int): seq<string> {
    SortByTime(MovFiles(listing), mtime)
  }

  /** The outcome of one run, stage by stage. */
  function Run<C>(listing: seq<string>, mtime: string -> int, open: string -> Option<C>,
                  writeVideo: seq<C> -> bool): Outcome<C>
  {
    if MovFiles(listing) == [] then NoVideos
    else
      var sorted := SortedFiles(listing, mtime);
      var clips := Collect(sorted, open);
      if clips == [] then NoValidClips(Failures(sorted, open))
      else Export(clips, Failures(sorted, open), writeVideo(clips))
  }

  /**
   * `main`: the Python list `files` is sorted in place, so it is an array
   * here; the run's result is exactly `Run`.
   */
  method Aggregate<C>(listing: seq<string>, mtime: string -> int, open: string -> Option<C>,
                      writeVideo: seq<C> -> bool)
      returns (outcome: Outcome<C>)
    ensures outcome == Run(listing, mtime, open, writeVideo)
  {
    var files := MovFiles(listing);
    if |files| == 0 {
      return NoVideos;
    }
    var a := new string[|files|](i requires 0 <= i < |files| => files[i]);
    assert a[..] == files;
    SortInPlace(a, mtime);
    var clips, failures := LoadClips(a[..], open);
    if |clips| == 0 {
      return NoValidClips(failures);
    }
    var exported := writeVideo(clips);
    return Export(clips, failures, exported);
  }

  /** The sort neither drops nor adds names: the visited names are the listed ".MOV" names. */
  lemma SortedFilesMembers(listing: seq<string>, mtime: string -> int, x: string)
    ensures x in SortedFiles(listing, mtime) <==> x in listing && IsMov(x)
  {
    SortByTimeCorrect(MovFiles(listing), mtime);
    assert x in SortedFiles(listing, mtime) <==> x in multiset(SortedFiles(listing, mtime));
  }

  /** The loader visits the listed ".MOV" names in non-decreasing modification time, ties in listing order. */
  lemma SortedFilesOrder(listing: seq<string>, mtime: string -> int)
    ensures |SortedFiles(listing, mtime)| == |MovFiles(listing)|
    ensures Sorted(SortedFiles(listing, mtime), mtime)
    ensures Stable(MovFiles(listing), SortedFiles(listing, mtime), mtime)
  {
    SortByTimeCorrect(MovFiles(listing), mtime);
  }

  /** A run halts before sorting exactly when no listed name ends with ".MOV". */
  lemma HaltsWithoutVideos<C>(listing: seq<string>, mtime: string -> int, open: string -> Option<C>,
                              writeVideo: seq<C> -> bool)
    ensures Run(listing, mtime, open, writeVideo) == NoVideos <==> forall f :: f in listing ==> !IsMov(f)
  {
    MovFilesEmpty(listing);
  }

  /**
   * A run halts before concatenation exactly when some listed name ends with
   * ".MOV" and none of those names opens; every one of them is then reported,
   * in sorted order.
   */
  lemma HaltsWithoutClips<C>(listing: seq<string>, mtime: string -> int, open: string -> Option<C>,
                             writeVideo: seq<C> -> bool)
    ensures Run(listing, mtime, open, writeVideo).NoValidClips? <==>
      (exists f :: f in listing && IsMov(f)) && forall f :: f in listing && IsMov(f) ==> open(f).None?
    ensures Run(listing, mtime, open, writeVideo).NoValidClips? ==>
      Run(listing, mtime, open, writeVideo).failures == SortedFiles(listing, mtime)
  {
    var sorted := SortedFiles(listing, mtime);
    MovFilesEmpty(listing);
    CollectNone(sorted, open);
    forall i | 0 <= i < |sorted|
      ensures sorted[i] in listing && IsMov(sorted[i])
    {
      SortedFilesMembers(listing, mtime, sorted[i]);
    }
    forall f | f in listing && IsMov(f)
      ensures f in sorted
    {
      SortedFilesMembers(listing, mtime, f);
    }
    if Collect(sorted, open) == [] {
      FailuresAll(sorted, open);
    }
  }

  /**
   * When the run reaches concatenation, the export receives exactly the
   * clips of the sorted ".MOV" names that opened, in non-decreasing
   * modification time; every listed ".MOV" name that opens contributes its
   * clip, and every other one is reported as a failure.
   */
  lemma ExportsLoadedClips<C>(listing: seq<string>, mtime: string -> int, open: string -> Option<C>,
                              writeVideo: seq<C> -> bool)
    requires Run(listing, mtime, open, writeVideo).Export?
    ensures var o, sorted := Run(listing, mtime, open, writeVideo), SortedFiles(listing, mtime);
      var pos := LoadedPositions(sorted, open);
      && o.clips != []
      && o.exported == writeVideo(o.clips)
      && |o.clips| + |o.failures| == |MovFiles(listing)|
      && |pos| == |o.clips|
      && (forall k :: 0 <= k < |pos| ==> pos[k] < |sorted| && open(sorted[pos[k]]) == Some(o.clips[k]))
      && (forall k, l :: 0 <= k < l < |pos| ==> mtime(sorted[pos[k]]) <= mtime(sorted[pos[l]]))
      && (forall i :: 0 <= i < |sorted| && open(sorted[i]).Some? ==> i in pos)
  {
    var sorted := SortedFiles(listing, mtime);
    SortedFilesOrder(listing, mtime);
    CollectCount(sorted, open);
    CollectKeepsOrder(sorted, open);
  }

  /**
   * Whenever the run gets past discovery, its failure report names every
   * sorted ".MOV" name that fails to open, each once and in visiting order,
   * and nothing else.
   */
  lemma ReportsEveryFailure<C>(listing: seq<string>, mtime: string -> int, open: string -> Option<C>,
                               writeVideo: seq<C> -> bool)
    requires !Run(listing, mtime, open, writeVideo).NoVideos?
    ensures var o, sorted := Run(listing, mtime, open, writeVideo), SortedFiles(listing, mtime);
      var pos := FailedPositions(sorted, open);
      && |pos| == |o.failures|
      && (forall k :: 0 <= k < |pos| ==> pos[k] < |sorted| && o.failures[k] == sorted[pos[k]] && open(sorted[pos[k]]).None?)
      && (forall k, l :: 0 <= k < l < |pos| ==> pos[k] < pos[l])
      && (forall i :: 0 <= i < |sorted| && open(sorted[i]).None? ==> i in pos)
  {
    FailuresKeepOrder(SortedFiles(listing, mtime), open);
  }

  /** A run reaches concatenation and export exactly when some listed ".MOV" name opens. */
  lemma ExportsIffSomeClipLoads<C>(listing: seq<string>, mtime: string -> int, open: string -> Option<C>,
                                   writeVideo: seq<C> -> bool)
    ensures Run(listing, mtime, open, writeVideo).Export? <==> exists f :: f in listing && IsMov(f) && open(f).Some?
  {
    HaltsWithoutClips(listing, mtime, open, writeVideo);
    HaltsWithoutVideos(listing, mtime, open, writeVideo);
  }
}
