/**
 * Ordering: `files.sort(key=mtime)` (aggregate_videos.py, line 24).  Python's
 * `list.sort` is stable and sorts in place, so the model is an in-place
 * insertion sort over an array, proved equal to the functional stable sort
 * `SortByTime`.  The modification time of each name is an input function.
 */
module Ordering {

  /** Non-decreasing modification time from left to right. */
  predicate Sorted<T>(s: seq<T>, mtime: T -> int) {
    forall i, j :: 0 <= i < j < |s| ==> mtime(s[i]) <= mtime(s[j])
  }

  /** The names of `s` whose modification time is `t`, in the order of `s`. */
  function WithTime<T>(s: seq<T>, mtime: T -> int, t: int): (r: seq<T>)
    ensures |r| <= |s|
  {
    if s == [] then []
    else
      var last := s[|s| - 1];
      WithTime(s[..|s| - 1], mtime, t) + (if mtime(last) == t then [last] else [])
  }

  /**
   * `r` orders names with equal modification time exactly as `s` does: for
   * every timestamp, the names carrying it appear in the same relative order.
   */
  ghost predicate Stable<T>(s: seq<T>, r: seq<T>, mtime: T -> int) {
    forall t :: WithTime(r, mtime, t) == WithTime(s, mtime, t)
  }

  /**
   * Where a stable insertion puts `x` into `s`: just after the last element,
   * scanning from the right, whose time is not later than that of `x`.
   */
  function InsertPos<T>(s: seq<T>, x: T, mtime: T -> int): (p: nat)
    ensures p <= |s|
  {
    if s == [] || mtime(s[|s| - 1]) <= mtime(x) then |s|
    else InsertPos(s[..|s| - 1], x, mtime)
  }

  function Insert<T>(s: seq<T>, x: T, mtime: T -> int): seq<T> {
    var p := InsertPos(s, x, mtime);
    s[..p] + [x] + s[p..]
  }

  /** Stable sort by modification time, inserting each name in listing order. */
  function SortByTime<T>(s: seq<T>, mtime: T -> int): seq<T> {
    if s == [] then []
    else Insert(SortByTime(s[..|s| - 1], mtime), s[|s| - 1], mtime)
  }

  lemma {:induction false} InsertPosSplits<T>(s: seq<T>, x: T, mtime: T -> int)
    ensures forall k :: InsertPos(s, x, mtime) <= k < |s| ==> mtime(x) < mtime(s[k])
    ensures Sorted(s, mtime) ==> forall k :: 0 <= k < InsertPos(s, x, mtime) ==> mtime(s[k]) <= mtime(x)
  {
    if s != [] && mtime(s[|s| - 1]) > mtime(x) {
      var init := s[..|s| - 1];
      InsertPosSplits(init, x, mtime);
      assert forall k :: 0 <= k < |init| ==> init[k] == s[k];
    }
  }

  lemma {:induction false} WithTimeAppend<T>(a: seq<T>, b: seq<T>, mtime: T -> int, t: int)
    ensures WithTime(a + b, mtime, t) == WithTime(a, mtime, t) + WithTime(b, mtime, t)
  {
    if b == [] {
      assert a + b == a;
    } else {
      var init := b[..|b| - 1];
      assert (a + b)[..|a + b| - 1] == a + init;
      WithTimeAppend(a, init, mtime, t);
    }
  }

  /** `WithTime(s, mtime, t)` holds exactly the names of `s` whose time is `t`. */
  lemma {:induction false} WithTimeMembers<T>(s: seq<T>, mtime: T -> int, t: int, x: T)
    ensures x in WithTime(s, mtime, t) <==> x in s && mtime(x) == t
  {
    if s != [] {
      var init := s[..|s| - 1];
      WithTimeMembers(init, mtime, t, x);
      assert s == init + [s[|s| - 1]];
    }
  }

  /** A stretch of names none of which has time `t` contributes nothing to `WithTime(_, t)`. */
  lemma {:induction false} WithTimeNone<T>(s: seq<T>, mtime: T -> int, t: int)
    requires forall k :: 0 <= k < |s| ==> mtime(s[k]) != t
    ensures WithTime(s, mtime, t) == []
  {
    if s != [] {
      var init := s[..|s| - 1];
      assert forall k :: 0 <= k < |init| ==> init[k] == s[k];
      WithTimeNone(init, mtime, t);
    }
  }

  lemma InsertSorted<T>(s: seq<T>, x: T, mtime: T -> int)
    requires Sorted(s, mtime)
    ensures Sorted(Insert(s, x, mtime), mtime)
  {
    InsertPosSplits(s, x, mtime);
    var p := InsertPos(s, x, mtime);
    var r := Insert(s, x, mtime);
    assert forall k :: 0 <= k < p ==> r[k] == s[k];
    assert r[p] == x;
    assert forall k :: p < k < |r| ==> r[k] == s[k - 1];
  }

  lemma WithTimeAppend3<T>(a: seq<T>, b: seq<T>, c: seq<T>, mtime: T -> int, t: int)
    ensures WithTime(a + b + c, mtime, t) == WithTime(a, mtime, t) + WithTime(b, mtime, t) + WithTime(c, mtime, t)
  {
    WithTimeAppend(a + b, c, mtime, t);
    WithTimeAppend(a, b, mtime, t);
  }

  lemma WithTimeSingle<T>(x: T, mtime: T -> int, t: int)
    ensures WithTime([x], mtime, t) == if mtime(x) == t then [x] else []
  {
    assert [x][..0] == [];
  }

  /** The groups of an insertion: the names before the insertion point, `x`, then the names after it. */
  lemma InsertGroups<T>(s: seq<T>, x: T, mtime: T -> int, t: int)
    ensures var p := InsertPos(s, x, mtime);
      WithTime(Insert(s, x, mtime), mtime, t)
        == WithTime(s[..p], mtime, t) + WithTime([x], mtime, t) + WithTime(s[p..], mtime, t)
  {
    var p := InsertPos(s, x, mtime);
    assert Insert(s, x, mtime) == s[..p] + [x] + s[p..];
    WithTimeAppend3(s[..p], [x], s[p..], mtime, t);
  }

  lemma AppendGroups<T>(s: seq<T>, x: T, mtime: T -> int, t: int, p: nat)
    requires p <= |s|
    ensures WithTime(s + [x], mtime, t)
      == WithTime(s[..p], mtime, t) + WithTime(s[p..], mtime, t) + WithTime([x], mtime, t)
  {
    assert s + [x] == s[..p] + s[p..] + [x];
    WithTimeAppend3(s[..p], s[p..], [x], mtime, t);
  }

  /** No name after the insertion point shares the time of `x`. */
  lemma AfterInsertPosNone<T>(s: seq<T>, x: T, mtime: T -> int)
    ensures WithTime(s[InsertPos(s, x, mtime)..], mtime, mtime(x)) == []
  {
    var p := InsertPos(s, x, mtime);
    var back := s[p..];
    InsertPosSplits(s, x, mtime);
    assert forall k :: 0 <= k < |back| ==> back[k] == s[p + k];
    WithTimeNone(back, mtime, mtime(x));
  }

  /** Inserting `x` keeps every per-timestamp order, taking `x` last among its equals. */
  lemma InsertStable<T>(s: seq<T>, x: T, mtime: T -> int, t: int)
    ensures WithTime(Insert(s, x, mtime), mtime, t) == WithTime(s + [x], mtime, t)
  {
    var p := InsertPos(s, x, mtime);
    InsertGroups(s, x, mtime, t);
    AppendGroups(s, x, mtime, t, p);
    WithTimeSingle(x, mtime, t);
    var wf, wx, wb := WithTime(s[..p], mtime, t), WithTime([x], mtime, t), WithTime(s[p..], mtime, t);
    if mtime(x) == t {
      AfterInsertPosNone(s, x, mtime);
      assert wb == [];
    } else {
      assert wx == [];
    }
    assert wf + wx + wb == wf + wb + wx;
  }

  lemma InsertMultiset<T>(s: seq<T>, x: T, mtime: T -> int)
    ensures |Insert(s, x, mtime)| == |s| + 1
    ensures multiset(Insert(s, x, mtime)) == multiset(s) + multiset{x}
  {
    var p := InsertPos(s, x, mtime);
    assert s == s[..p] + s[p..];
  }

  /** Inserting the next name into a stable ordering of a prefix gives a stable ordering of the longer prefix. */
  lemma InsertKeepsStable<T>(init: seq<T>, r: seq<T>, x: T, mtime: T -> int)
    requires Stable(init, r, mtime)
    ensures Stable(init + [x], Insert(r, x, mtime), mtime)
  {
    forall t
      ensures WithTime(Insert(r, x, mtime), mtime, t) == WithTime(init + [x], mtime, t)
    {
      InsertStable(r, x, mtime, t);
      WithTimeAppend(r, [x], mtime, t);
      WithTimeAppend(init, [x], mtime, t);
    }
  }

  /**
   * `SortByTime` is what a stable sort by modification time returns: a
   * permutation of its input, in non-decreasing time order, with names of
   * equal time in their original relative order.
   */
  lemma {:induction false} SortByTimeCorrect<T>(s: seq<T>, mtime: T -> int)
    ensures |SortByTime(s, mtime)| == |s|
    ensures multiset(SortByTime(s, mtime)) == multiset(s)
    ensures Sorted(SortByTime(s, mtime), mtime)
    ensures Stable(s, SortByTime(s, mtime), mtime)
  {
    if s != [] {
      var init, x := s[..|s| - 1], s[|s| - 1];
      assert s == init + [x];
      SortByTimeCorrect(init, mtime);
      var r := SortByTime(init, mtime);
      InsertMultiset(r, x, mtime);
      InsertSorted(r, x, mtime);
      InsertKeepsStable(init, r, x, mtime);
    }
  }

  /** In a time-ordered sequence the last name is among the latest. */
  lemma LastIsLatest<T>(s: seq<T>, mtime: T -> int, x: T)
    requires Sorted(s, mtime) && x in s
    ensures mtime(x) <= mtime(s[|s| - 1])
  {
    var k :| 0 <= k < |s| && s[k] == x;
  }

  /** A name of `r` is a name of `q` when the two agree on every timestamp group. */
  lemma AgreeingMember<T>(r: seq<T>, q: seq<T>, mtime: T -> int, x: T)
    requires x in r
    requires WithTime(r, mtime, mtime(x)) == WithTime(q, mtime, mtime(x))
    ensures x in q
  {
    WithTimeMembers(r, mtime, mtime(x), x);
    WithTimeMembers(q, mtime, mtime(x), x);
  }

  /** In two time-ordered sequences that agree on every timestamp group, the last names have the same time. */
  lemma LastTimesAgree<T>(r: seq<T>, q: seq<T>, mtime: T -> int)
    requires r != [] && q != []
    requires Sorted(r, mtime) && Sorted(q, mtime)
    requires forall t :: WithTime(r, mtime, t) == WithTime(q, mtime, t)
    ensures mtime(r[|r| - 1]) == mtime(q[|q| - 1])
  {
    var a, b := r[|r| - 1], q[|q| - 1];
    AgreeingMember(r, q, mtime, a);
    LastIsLatest(q, mtime, a);
    AgreeingMember(q, r, mtime, b);
    LastIsLatest(r, mtime, b);
  }

  /** Dropping the last name changes only the group of its own timestamp. */
  lemma DropLastOther<T>(s: seq<T>, mtime: T -> int, t: int)
    requires s != [] && mtime(s[|s| - 1]) != t
    ensures WithTime(s[..|s| - 1], mtime, t) == WithTime(s, mtime, t)
  {
  }

  /** Dropping two equal last names keeps the agreement on every timestamp group. */
  lemma DropLastAgrees<T>(r: seq<T>, q: seq<T>, mtime: T -> int)
    requires r != [] && q != []
    requires mtime(r[|r| - 1]) == mtime(q[|q| - 1])
    requires forall t :: WithTime(r, mtime, t) == WithTime(q, mtime, t)
    ensures r[|r| - 1] == q[|q| - 1]
    ensures var r', q' := r[..|r| - 1], q[..|q| - 1];
      forall t :: WithTime(r', mtime, t) == WithTime(q', mtime, t)
  {
    var a, b := r[|r| - 1], q[|q| - 1];
    var r', q' := r[..|r| - 1], q[..|q| - 1];
    var T := mtime(a);
    var w := WithTime(r, mtime, T);
    assert w == WithTime(r', mtime, T) + [a];
    assert w == WithTime(q', mtime, T) + [b];
    assert w[..|w| - 1] == WithTime(r', mtime, T) == WithTime(q', mtime, T);
    forall t
      ensures WithTime(r', mtime, t) == WithTime(q', mtime, t)
    {
      if t != T {
        DropLastOther(r, mtime, t);
        DropLastOther(q, mtime, t);
      }
    }
  }

  /**
   * There is only one stable sort: two sequences in time order that agree on
   * the relative order of every group of equal times are the same sequence.
   */
  lemma {:induction false} SortedAndStableIsUnique<T>(r: seq<T>, q: seq<T>, mtime: T -> int)
    requires Sorted(r, mtime) && Sorted(q, mtime)
    requires forall t :: WithTime(r, mtime, t) == WithTime(q, mtime, t)
    ensures r == q
  {
    if r == [] || q == [] {
      if r != [] {
        AgreeingMember(r, q, mtime, r[0]);
        assert false;
      }
      if q != [] {
        AgreeingMember(q, r, mtime, q[0]);
        assert false;
      }
    } else {
      LastTimesAgree(r, q, mtime);
      DropLastAgrees(r, q, mtime);
      var r', q' := r[..|r| - 1], q[..|q| - 1];
      assert Sorted(r', mtime) && Sorted(q', mtime);
      SortedAndStableIsUnique(r', q', mtime);
      assert r == r' + [r[|r| - 1]] && q == q' + [q[|q| - 1]];
    }
  }

  /** Any stable sort of `s` by modification time is `SortByTime(s, mtime)`. */
  lemma StableSortIsSortByTime<T>(s: seq<T>, r: seq<T>, mtime: T -> int)
    requires Sorted(r, mtime) && Stable(s, r, mtime)
    ensures r == SortByTime(s, mtime)
  {
    SortByTimeCorrect(s, mtime);
    SortedAndStableIsUnique(r, SortByTime(s, mtime), mtime);
  }

  /** A sequence laid out as `p` with `x` placed at its insertion point is `Insert(p, x, mtime)`. */
  lemma InsertLayout<T>(p: seq<T>, x: T, mtime: T -> int, b: seq<T>)
    requires |b| == |p| + 1
    requires forall k :: 0 <= k < InsertPos(p, x, mtime) ==> b[k] == p[k]
    requires b[InsertPos(p, x, mtime)] == x
    requires forall k :: InsertPos(p, x, mtime) < k < |b| ==> b[k] == p[k - 1]
    ensures b == Insert(p, x, mtime)
  {
  }

  /**
   * One pass of the insertion sort: with `a[..i]` already in order, moves
   * `a[i]` left past every name with a later time, so `a[..i + 1]` becomes
   * `Insert(a[..i], a[i])`; the rest of the array is left alone.
   */
  method InsertNext<T>(a: array<T>, i: nat, mtime: T -> int)
    requires i < a.Length
    modifies a
    ensures a[..i + 1] == Insert(old(a[..i]), old(a[i]), mtime)
    ensures forall k :: i < k < a.Length ==> a[k] == old(a[k])
  {
    var x := a[i];
    ghost var p := a[..i];
    var j := i;
    assert p[..j] == p;
    while j > 0 && mtime(a[j - 1]) > mtime(x)
      invariant 0 <= j <= i
      invariant forall k :: 0 <= k < j ==> a[k] == p[k]
      invariant forall k :: j < k <= i ==> a[k] == p[k - 1]
      invariant forall k :: i < k < a.Length ==> a[k] == old(a[k])
      invariant InsertPos(p, x, mtime) == InsertPos(p[..j], x, mtime)
    {
      assert p[..j][..j - 1] == p[..j - 1];
      a[j] := a[j - 1];
      j := j - 1;
    }
    a[j] := x;
    assert InsertPos(p, x, mtime) == j;
    InsertLayout(p, x, mtime, a[..i + 1]);
  }

  /**
   * `files.sort(key=mtime)`: sorts the array in place; afterwards it holds
   * the stable sort of its former contents.
   */
  method SortInPlace<T>(a: array<T>, mtime: T -> int)
    modifies a
    ensures a[..] == SortByTime(old(a[..]), mtime)
    ensures multiset(a[..]) == multiset(old(a[..]))
    ensures Sorted(a[..], mtime) && Stable(old(a[..]), a[..], mtime)
  {
    ghost var s := a[..];
    var i := 0;
    while i < a.Length
      invariant 0 <= i <= a.Length
      invariant a[..i] == SortByTime(s[..i], mtime)
      invariant forall k :: i <= k < a.Length ==> a[k] == s[k]
    {
      InsertNext(a, i, mtime);
      assert s[..i + 1][..i] == s[..i];
      i := i + 1;
    }
    assert a[..] == a[..a.Length] && s == s[..a.Length];
    SortByTimeCorrect(s, mtime);
  }
}
