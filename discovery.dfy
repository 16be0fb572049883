/**
 * Discovery: the directory listing is narrowed to the names that end with the
 * case-sensitive suffix ".MOV" (aggregate_videos.py, line 14).  The listing
 * itself is an input; nothing here touches a file system.
 */
module Discovery {

  /** The one extension the source folder is scanned for. */
  const MovSuffix: string := ".MOV"

  /** Python's `str.endswith` for a single suffix: compares characters exactly. */
  predicate EndsWith(s: string, suffix: string) {
    |suffix| <= |s| && s[|s| - |suffix|..] == suffix
  }

  predicate IsMov(name: string) {
    EndsWith(name, MovSuffix)
  }

  /**
   * The comprehension `[f for f in listing if f.endswith(".MOV")]`:
   * exactly the listed names with the suffix survive.
   */
  function MovFiles(listing: seq<string>): (files: seq<string>)
    ensures |files| <= |listing|
    ensures forall f :: f in files ==> f in listing && IsMov(f)
    ensures forall f :: f in listing && IsMov(f) ==> f in files
  {
    if listing == [] then []
    else
      var last := listing[|listing| - 1];
      MovFiles(listing[..|listing| - 1]) + (if IsMov(last) then [last] else [])
  }

  /** The positions in `listing` of the names that `MovFiles` keeps. */
  function MovPositions(listing: seq<string>): seq<nat> {
    if listing == [] then []
    else
      var n := |listing| - 1;
      MovPositions(listing[..n]) + (if IsMov(listing[n]) then [n] else [])
  }

  /** `MovFiles(listing)` is `listing` read at the positions `MovPositions(listing)`. */
  lemma {:induction false} MovPositionsPick(listing: seq<string>)
    ensures |MovPositions(listing)| == |MovFiles(listing)|
    ensures forall k :: 0 <= k < |MovPositions(listing)| ==>
      MovPositions(listing)[k] < |listing| && MovFiles(listing)[k] == listing[MovPositions(listing)[k]]
  {
    if listing != [] {
      MovPositionsPick(listing[..|listing| - 1]);
    }
  }

  /** The positions increase strictly and include every position of a ".MOV" name. */
  lemma {:induction false} MovPositionsIncreaseAndCover(listing: seq<string>)
    ensures forall k :: 0 <= k < |MovPositions(listing)| ==> MovPositions(listing)[k] < |listing|
    ensures forall k, l :: 0 <= k < l < |MovPositions(listing)| ==> MovPositions(listing)[k] < MovPositions(listing)[l]
    ensures forall i :: 0 <= i < |listing| && IsMov(listing[i]) ==> i in MovPositions(listing)
  {
    if listing != [] {
      var init := listing[..|listing| - 1];
      MovPositionsIncreaseAndCover(init);
      assert forall i :: 0 <= i < |init| ==> init[i] == listing[i];
    }
  }

  /**
   * The filter keeps listing order: `MovFiles(listing)` is `listing` read at
   * a strictly increasing sequence of positions, and those positions are
   * every position that holds a ".MOV" name.
   */
  lemma {:induction false} MovFilesKeepsListingOrder(listing: seq<string>)
    ensures var files, pos := MovFiles(listing), MovPositions(listing);
      && |pos| == |files|
      && (forall k :: 0 <= k < |pos| ==> pos[k] < |listing| && files[k] == listing[pos[k]])
      && (forall k, l :: 0 <= k < l < |pos| ==> pos[k] < pos[l])
      && (forall i :: 0 <= i < |listing| && IsMov(listing[i]) ==> i in pos)
  {
    MovPositionsPick(listing);
    MovPositionsIncreaseAndCover(listing);
  }

  /** An empty result means no listed name carries the suffix, and conversely. */
  lemma MovFilesEmpty(listing: seq<string>)
    ensures MovFiles(listing) == [] <==> forall f :: f in listing ==> !IsMov(f)
  {
    if MovFiles(listing) != [] {
      assert MovFiles(listing)[0] in MovFiles(listing);
    }
  }

  /** The suffix test is case-sensitive: any name ending in ".MOV" matches, the same name ending in ".mov" does not. */
  lemma SuffixIsCaseSensitive(s: string)
    ensures IsMov(s + ".MOV") && !IsMov(s + ".mov")
  {
    assert (s + ".MOV")[|s|..] == ".MOV";
    assert (s + ".mov")[|s| + 1] == 'm';
  }
}
