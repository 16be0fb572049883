/**
 * Loader: the loop that opens each sorted name as a clip
 * (aggregate_videos.py, lines 35-42).  `mp.VideoFileClip` is an input
 * function `open` that either yields a clip or fails; a failure is reported
 * (here: the name is recorded in `failures`) and the loop goes on.
 */
module Loader {

  datatype Option<T> = None | Some(value: T)

  /** The clips collected from `files`, in order; a failed open contributes nothing. */
  function Collect<C>(files: seq<string>, open: string -> Option<C>): (clips: seq<C>)
    ensures |clips| <= |files|
  {
    if files == [] then []
    else
      var last := files[|files| - 1];
      Collect(files[..|files| - 1], open) + (match open(last) case Some(c) => [c] case None => [])
  }

  /** The names whose open failed, in order: the ones the error report at line 42 names. */
  function Failures<C>(files: seq<string>, open: string -> Option<C>): (failed: seq<string>)
    ensures forall f :: f in failed ==> f in files && open(f).None?
  {
    if files == [] then []
    else
      var last := files[|files| - 1];
      Failures(files[..|files| - 1], open) + (if open(last).None? then [last] else [])
  }

  /** The positions in `files` of the names that open. */
  function LoadedPositions<C>(files: seq<string>, open: string -> Option<C>): seq<nat> {
    if files == [] then []
    else
      var n := |files| - 1;
      LoadedPositions(files[..n], open) + (if open(files[n]).Some? then [n] else [])
  }

  /** The positions in `files` of the names that fail to open. */
  function FailedPositions<C>(files: seq<string>, open: string -> Option<C>): seq<nat> {
    if files == [] then []
    else
      var n := |files| - 1;
      FailedPositions(files[..n], open) + (if open(files[n]).None? then [n] else [])
  }

  /** Every name is either collected as a clip or reported as a failure, never both. */
  lemma {:induction false} CollectCount<C>(files: seq<string>, open: string -> Option<C>)
    ensures |Collect(files, open)| + |Failures(files, open)| == |files|
  {
    if files != [] {
      CollectCount(files[..|files| - 1], open);
    }
  }

  /** At most one clip per name, and one per name exactly when every open succeeds. */
  lemma {:induction false} CollectAll<C>(files: seq<string>, open: string -> Option<C>)
    ensures |Collect(files, open)| == |files| <==> forall i :: 0 <= i < |files| ==> open(files[i]).Some?
  {
    if files != [] {
      var n := |files| - 1;
      var init := files[..n];
      CollectAll(init, open);
      assert forall i :: 0 <= i < n ==> init[i] == files[i];
    }
  }

  /** No clip at all exactly when every open fails. */
  lemma {:induction false} CollectNone<C>(files: seq<string>, open: string -> Option<C>)
    ensures Collect(files, open) == [] <==> forall i :: 0 <= i < |files| ==> open(files[i]).None?
  {
    if files != [] {
      var n := |files| - 1;
      var init := files[..n];
      CollectNone(init, open);
      assert forall i :: 0 <= i < n ==> init[i] == files[i];
    }
  }

  /** When every open fails, every name is reported, in order. */
  lemma {:induction false} FailuresAll<C>(files: seq<string>, open: string -> Option<C>)
    requires forall i :: 0 <= i < |files| ==> open(files[i]).None?
    ensures Failures(files, open) == files
  {
    if files != [] {
      var n := |files| - 1;
      var init := files[..n];
      forall i | 0 <= i < |init|
        ensures open(init[i]).None?
      {
        assert init[i] == files[i];
      }
      FailuresAll(init, open);
      assert files == init + [files[n]];
    }
  }

  lemma {:induction false} CollectAppend<C>(a: seq<string>, b: seq<string>, open: string -> Option<C>)
    ensures Collect(a + b, open) == Collect(a, open) + Collect(b, open)
  {
    if b == [] {
      assert a + b == a;
    } else {
      var init := b[..|b| - 1];
      assert (a + b)[..|a + b| - 1] == a + init;
      CollectAppend(a, init, open);
    }
  }

  /** A failed open adds no clip and does not stop the names after it from being collected. */
  lemma SkipsFailure<C>(before: seq<string>, f: string, after: seq<string>, open: string -> Option<C>)
    requires open(f).None?
    ensures Collect(before + [f] + after, open) == Collect(before, open) + Collect(after, open)
  {
    CollectAppend(before + [f], after, open);
    CollectAppend(before, [f], open);
    assert Collect([f], open) == [] by {
      assert [f][..0] == [];
      assert Collect([f], open) == Collect([], open) + [];
    }
  }

  /** Clip `k` is the clip opened from the name at position `LoadedPositions(files, open)[k]`. */
  lemma {:induction false} LoadedPositionsPick<C>(files: seq<string>, open: string -> Option<C>)
    ensures |LoadedPositions(files, open)| == |Collect(files, open)|
    ensures forall k :: 0 <= k < |LoadedPositions(files, open)| ==>
      LoadedPositions(files, open)[k] < |files|
      && open(files[LoadedPositions(files, open)[k]]) == Some(Collect(files, open)[k])
  {
    if files != [] {
      LoadedPositionsPick(files[..|files| - 1], open);
    }
  }

  /** The positions increase strictly and include every position whose name opens. */
  lemma {:induction false} LoadedPositionsIncreaseAndCover<C>(files: seq<string>, open: string -> Option<C>)
    ensures forall k, l :: 0 <= k < l < |LoadedPositions(files, open)| ==>
      LoadedPositions(files, open)[k] < LoadedPositions(files, open)[l]
    ensures forall i :: 0 <= i < |files| && open(files[i]).Some? ==> i in LoadedPositions(files, open)
  {
    if files != [] {
      var init := files[..|files| - 1];
      LoadedPositionsIncreaseAndCover(init, open);
      LoadedPositionsPick(init, open);
      assert forall i :: 0 <= i < |init| ==> init[i] == files[i];
    }
  }

  /**
   * The clips are the opened clips of the loadable names, in file order:
   * clip `k` comes from the name at the `k`-th position of a strictly
   * increasing list of positions, and every position whose name opens is
   * on that list.
   */
  lemma {:induction false} CollectKeepsOrder<C>(files: seq<string>, open: string -> Option<C>)
    ensures var clips, pos := Collect(files, open), LoadedPositions(files, open);
      && |pos| == |clips|
      && (forall k :: 0 <= k < |pos| ==> pos[k] < |files| && open(files[pos[k]]) == Some(clips[k]))
      && (forall k, l :: 0 <= k < l < |pos| ==> pos[k] < pos[l])
      && (forall i :: 0 <= i < |files| && open(files[i]).Some? ==> i in pos)
  {
    LoadedPositionsPick(files, open);
    LoadedPositionsIncreaseAndCover(files, open);
  }

  /** Reported name `k` is the name at position `FailedPositions(files, open)[k]`, and it failed. */
  lemma {:induction false} FailedPositionsPick<C>(files: seq<string>, open: string -> Option<C>)
    ensures |FailedPositions(files, open)| == |Failures(files, open)|
    ensures forall k :: 0 <= k < |FailedPositions(files, open)| ==>
      FailedPositions(files, open)[k] < |files|
      && Failures(files, open)[k] == files[FailedPositions(files, open)[k]]
      && open(files[FailedPositions(files, open)[k]]).None?
  {
    if files != [] {
      FailedPositionsPick(files[..|files| - 1], open);
    }
  }

  /** The positions increase strictly and include every position whose name fails to open. */
  lemma {:induction false} FailedPositionsIncreaseAndCover<C>(files: seq<string>, open: string -> Option<C>)
    ensures forall k, l :: 0 <= k < l < |FailedPositions(files, open)| ==>
      FailedPositions(files, open)[k] < FailedPositions(files, open)[l]
    ensures forall i :: 0 <= i < |files| && open(files[i]).None? ==> i in FailedPositions(files, open)
  {
    if files != [] {
      var init := files[..|files| - 1];
      FailedPositionsIncreaseAndCover(init, open);
      FailedPositionsPick(init, open);
      assert forall i :: 0 <= i < |init| ==> init[i] == files[i];
    }
  }

  /**
   * Every failure is reported once, in visiting order: report `k` is the
   * name at the `k`-th position of a strictly increasing list of positions,
   * each of which fails to open, and every failing position is on that list.
   */
  lemma {:induction false} FailuresKeepOrder<C>(files: seq<string>, open: string -> Option<C>)
    ensures var failed, pos := Failures(files, open), FailedPositions(files, open);
      && |pos| == |failed|
      && (forall k :: 0 <= k < |pos| ==> pos[k] < |files| && failed[k] == files[pos[k]] && open(files[pos[k]]).None?)
      && (forall k, l :: 0 <= k < l < |pos| ==> pos[k] < pos[l])
      && (forall i :: 0 <= i < |files| && open(files[i]).None? ==> i in pos)
  {
    FailedPositionsPick(files, open);
    FailedPositionsIncreaseAndCover(files, open);
  }

  /** Every name that fails to open is reported: with `Failures`' own contract, a name is reported exactly when it was visited and failed. */
  lemma FailuresComplete<C>(files: seq<string>, open: string -> Option<C>)
    ensures forall f :: f in files && open(f).None? ==> f in Failures(files, open)
  {
    var pos := FailedPositions(files, open);
    FailuresKeepOrder(files, open);
    forall f | f in files && open(f).None?
      ensures f in Failures(files, open)
    {
      var i :| 0 <= i < |files| && files[i] == f;
      var k :| 0 <= k < |pos| && pos[k] == i;
      assert Failures(files, open)[k] == f;
    }
  }

  /**
   * The load loop: visits `files` in order, appends the clip of every name
   * that opens and reports every name that does not.
   */
  method LoadClips<C>(files: seq<string>, open: string -> Option<C>)
      returns (clips: seq<C>, failures: seq<string>)
    ensures clips == Collect(files, open)
    ensures failures == Failures(files, open)
    ensures |clips| + |failures| == |files|
    ensures clips == [] <==> forall i :: 0 <= i < |files| ==> open(files[i]).None?
  {
    clips, failures := [], [];
    for i := 0 to |files|
      invariant clips == Collect(files[..i], open)
      invariant failures == Failures(files[..i], open)
    {
      assert files[..i + 1][..i] == files[..i];
      match open(files[i])
      case Some(clip) =>
        clips := clips + [clip];
      case None =>
        failures := failures + [files[i]];
    }
    assert files[..|files|] == files;
    CollectCount(files, open);
    CollectNone(files, open);
  }
}
