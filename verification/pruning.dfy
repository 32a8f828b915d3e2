/**
 * The retention rule of `backup_odoo_and_upload_to_drive`: the folder
 * listing is sorted in place by `createdTime` with Python's stable
 * `list.sort`, and every entry of the slice `items[:-max_backups]` is
 * deleted, oldest first, but only when the listing is longer than
 * `max_backups`.
 */
module Pruning {
  import opened StringOrder

  /** One file of the Drive folder listing: the fields `id, name, createdTime`. */
  datatype Entry = Entry(id: string, name: string, createdTime: string)

  /** The sort key comparison, `x['createdTime'] <= y['createdTime']`. */
  predicate TimeLe(x: Entry, y: Entry)
  {
    StrLe(x.createdTime, y.createdTime)
  }

  ghost predicate SortedByTime(s: seq<Entry>)
  {
    forall i, j :: 0 <= i < j < |s| ==> TimeLe(s[i], s[j])
  }

  /** The entries of `s` whose `createdTime` is `t`, in their order in `s`. */
  function WithTime(s: seq<Entry>, t: string): (r: seq<Entry>)
    ensures |r| <= |s|
  {
    if s == [] then []
    else (if s[0].createdTime == t then [s[0]] else []) + WithTime(s[1..], t)
  }

  /**
   * Stable insertion of `e`, which comes after every entry of `s` in the
   * input: it goes after all entries whose time is not later than its own.
   */
  function Insert(s: seq<Entry>, e: Entry): (r: seq<Entry>)
    ensures |r| == |s| + 1
    decreases |s|
  {
    if s == [] || TimeLe(s[|s| - 1], e) then s + [e]
    else Insert(s[..|s| - 1], e) + [s[|s| - 1]]
  }

  /** The list as `items.sort(key=lambda x: x['createdTime'])` leaves it. */
  function SortByTime(s: seq<Entry>): (r: seq<Entry>)
    ensures |r| == |s|
  {
    if s == [] then [] else Insert(SortByTime(s[..|s| - 1]), s[|s| - 1])
  }

  /**
   * The end index Python uses for the slice `s[:stop]` of a list of length
   * `n`: a negative stop counts from the end, and both ends are clipped.
   */
  function SliceStop(stop: int, n: nat): (k: nat)
    ensures k <= n
  {
    if stop < 0 then (if n + stop < 0 then 0 else n + stop)
    else if stop > n then n
    else stop
  }

  /** Whether line 88's guard `len(items) > max_backups` lets the pruning run. */
  predicate Prunes(items: seq<Entry>, maxBackups: int)
  {
    |items| > maxBackups
  }

  /** The entries deleted, in the order their deletes are issued. */
  function ToDelete(items: seq<Entry>, maxBackups: int): seq<Entry>
  {
    if Prunes(items, maxBackups) then
      var sorted := SortByTime(items);
      sorted[..SliceStop(-maxBackups, |sorted|)]
    else []
  }

  /** The listing entries the slice leaves alone, in the order `items` has afterwards. */
  function Kept(items: seq<Entry>, maxBackups: int): seq<Entry>
  {
    if Prunes(items, maxBackups) then
      var sorted := SortByTime(items);
      sorted[SliceStop(-maxBackups, |sorted|)..]
    else items
  }

  // ---------------------------------------------------------------------
  // The sort: ordered, a permutation, stable, and the only such list.
  // ---------------------------------------------------------------------

  lemma TimeLeTransitive(x: Entry, y: Entry, z: Entry)
    requires TimeLe(x, y) && TimeLe(y, z)
    ensures TimeLe(x, z)
  {
    StrLeTransitive(x.createdTime, y.createdTime, z.createdTime);
  }

  lemma {:induction false} InsertPermutes(s: seq<Entry>, e: Entry)
    ensures multiset(Insert(s, e)) == multiset(s) + multiset{e}
    decreases |s|
  {
    if s != [] && !TimeLe(s[|s| - 1], e) {
      InsertPermutes(s[..|s| - 1], e);
      assert s == s[..|s| - 1] + [s[|s| - 1]];
    }
  }

  /** The sort only rearranges the listing. */
  lemma {:induction false} SortByTimePermutes(s: seq<Entry>)
    ensures multiset(SortByTime(s)) == multiset(s)
  {
    if s != [] {
      SortByTimePermutes(s[..|s| - 1]);
      InsertPermutes(SortByTime(s[..|s| - 1]), s[|s| - 1]);
      assert s == s[..|s| - 1] + [s[|s| - 1]];
    }
  }

  lemma {:induction false} InsertSorted(s: seq<Entry>, e: Entry)
    requires SortedByTime(s)
    ensures SortedByTime(Insert(s, e))
    decreases |s|
  {
    if s == [] || TimeLe(s[|s| - 1], e) {
      forall i | 0 <= i < |s| ensures TimeLe(s[i], e) {
        if i < |s| - 1 { TimeLeTransitive(s[i], s[|s| - 1], e); }
      }
    } else {
      var init, last := s[..|s| - 1], s[|s| - 1];
      StrLeTotal(last.createdTime, e.createdTime);
      InsertSorted(init, e);
      InsertPermutes(init, e);
      var r := Insert(init, e);
      forall x | x in r ensures TimeLe(x, last) {
        assert x in multiset(r);
        if x != e {
          assert x in multiset(init);
          var i :| 0 <= i < |init| && init[i] == x;
        }
      }
      assert Insert(s, e) == r + [last];
      forall i, j | 0 <= i < j < |r| + 1 ensures TimeLe((r + [last])[i], (r + [last])[j]) {
        if j == |r| { assert r[i] in r; }
      }
    }
  }

  lemma {:induction false} SortByTimeSorted(s: seq<Entry>)
    ensures SortedByTime(SortByTime(s))
  {
    if s != [] {
      SortByTimeSorted(s[..|s| - 1]);
      InsertSorted(SortByTime(s[..|s| - 1]), s[|s| - 1]);
    }
  }

  lemma {:induction false} WithTimeConcat(a: seq<Entry>, b: seq<Entry>, t: string)
    ensures WithTime(a + b, t) == WithTime(a, t) + WithTime(b, t)
  {
    if a != [] {
      assert (a + b)[0] == a[0];
      assert (a + b)[1..] == a[1..] + b;
      assert WithTime(a + b, t) == (if a[0].createdTime == t then [a[0]] else []) + WithTime(a[1..] + b, t);
      WithTimeConcat(a[1..], b, t);
    } else {
      assert a + b == b;
    }
  }

  lemma {:induction false} WithTimeElements(s: seq<Entry>, t: string)
    ensures forall x :: x in WithTime(s, t) ==> x in s && x.createdTime == t
  {
    if s != [] {
      WithTimeElements(s[1..], t);
    }
  }

  lemma {:induction false} InsertStable(s: seq<Entry>, e: Entry, t: string)
    ensures WithTime(Insert(s, e), t) == WithTime(s, t) + WithTime([e], t)
    decreases |s|
  {
    if s == [] || TimeLe(s[|s| - 1], e) {
      WithTimeConcat(s, [e], t);
    } else {
      var init, last := s[..|s| - 1], s[|s| - 1];
      StrLeRefl(e.createdTime);
      assert last.createdTime != e.createdTime;
      InsertStable(init, e, t);
      WithTimeConcat(Insert(init, e), [last], t);
      WithTimeConcat(init, [last], t);
      assert init + [last] == s;
    }
  }

  /** Python's sort is stable: entries with equal times keep their listed order. */
  lemma {:induction false} SortByTimeStable(s: seq<Entry>, t: string)
    ensures WithTime(SortByTime(s), t) == WithTime(s, t)
  {
    if s != [] {
      var init, last := s[..|s| - 1], s[|s| - 1];
      SortByTimeStable(init, t);
      InsertStable(SortByTime(init), last, t);
      WithTimeConcat(init, [last], t);
      assert init + [last] == s;
    }
  }

  lemma SortedFirstIsLeast(x: seq<Entry>, e: Entry)
    requires SortedByTime(x) && e in x
    ensures TimeLe(x[0], e)
  {
    var i :| 0 <= i < |x| && x[i] == e;
    if i == 0 { StrLeRefl(e.createdTime); }
  }

  /** Two ordered lists holding, time by time, the same entries in the same order are equal. */
  lemma {:induction false} SortedStableUnique(x: seq<Entry>, y: seq<Entry>)
    requires SortedByTime(x) && SortedByTime(y)
    requires forall t :: WithTime(x, t) == WithTime(y, t)
    ensures x == y
    decreases |x|
  {
    assert x != [] ==> WithTime(x, x[0].createdTime) != [];
    assert y != [] ==> WithTime(y, y[0].createdTime) != [];
    if x == [] || y == [] {
    } else {
      var a, b := x[0], y[0];
      // The first entry of each list has the least time of the other.
      assert WithTime(y, b.createdTime)[0] == b;
      WithTimeElements(x, b.createdTime);
      assert WithTime(x, b.createdTime)[0] in WithTime(x, b.createdTime);
      var xb := WithTime(x, b.createdTime)[0];
      SortedFirstIsLeast(x, xb);
      assert WithTime(x, a.createdTime)[0] == a;
      WithTimeElements(y, a.createdTime);
      assert WithTime(y, a.createdTime)[0] in WithTime(y, a.createdTime);
      var ya := WithTime(y, a.createdTime)[0];
      SortedFirstIsLeast(y, ya);
      StrLeAntisymmetric(a.createdTime, b.createdTime);
      assert a == b;
      forall t ensures WithTime(x[1..], t) == WithTime(y[1..], t) {
        var head := if a.createdTime == t then [a] else [];
        assert WithTime(x, t) == head + WithTime(x[1..], t);
        assert WithTime(y, t) == head + WithTime(y[1..], t);
        assert WithTime(x[1..], t) == (head + WithTime(x[1..], t))[|head|..];
        assert WithTime(y[1..], t) == (head + WithTime(y[1..], t))[|head|..];
      }
      SortedStableUnique(x[1..], y[1..]);
      assert x == [a] + x[1..];
      assert y == [b] + y[1..];
    }
  }

  /**
   * Any ordered, stable rearrangement of `s` is `SortByTime(s)`: the list
   * does not depend on which stable sort produced it.
   */
  lemma SortByTimeIsTheStableSort(s: seq<Entry>, u: seq<Entry>)
    requires SortedByTime(u)
    requires forall t :: WithTime(u, t) == WithTime(s, t)
    ensures u == SortByTime(s)
  {
    SortByTimeSorted(s);
    forall t ensures WithTime(u, t) == WithTime(SortByTime(s), t) {
      SortByTimeStable(s, t);
    }
    SortedStableUnique(u, SortByTime(s));
  }

  // ---------------------------------------------------------------------
  // The in-place sort of line 89.
  // ---------------------------------------------------------------------

  lemma {:induction false} InsertAt(s: seq<Entry>, e: Entry, h: nat)
    requires h <= |s|
    requires h == 0 || TimeLe(s[h - 1], e)
    requires forall m :: h <= m < |s| ==> !TimeLe(s[m], e)
    ensures Insert(s, e) == s[..h] + [e] + s[h..]
    decreases |s|
  {
    if h == |s| {
      assert s[..h] == s;
    } else {
      var init, last := s[..|s| - 1], s[|s| - 1];
      assert !TimeLe(last, e);
      assert Insert(s, e) == Insert(init, e) + [last];
      assert h == 0 || TimeLe(init[h - 1], e);
      assert forall m :: h <= m < |init| ==> !TimeLe(init[m], e);
      InsertAt(init, e, h);
      assert s[h..] == init[h..] + [last];
      assert s[..h] == init[..h];
    }
  }

  /**
   * The array after the shifting loop: entries before `h` in place, the
   * later-timed ones one slot to the right, the rest untouched. Writing
   * `e` at `h` then leaves `Insert(sorted, e)` in front of the rest.
   */
  lemma ShiftedInsert(sorted: seq<Entry>, before: seq<Entry>, mid: seq<Entry>, e: Entry, h: nat)
    requires |mid| == |before| && |sorted| < |mid| && h <= |sorted|
    requires forall m :: 0 <= m < h ==> mid[m] == sorted[m]
    requires forall m :: h < m <= |sorted| ==> mid[m] == sorted[m - 1]
    requires forall m :: |sorted| < m < |mid| ==> mid[m] == before[m]
    requires h == 0 || TimeLe(sorted[h - 1], e)
    requires forall m :: h <= m < |sorted| ==> !TimeLe(sorted[m], e)
    ensures mid[h := e][..|sorted| + 1] == Insert(sorted, e)
    ensures mid[h := e][|sorted| + 1..] == before[|sorted| + 1..]
  {
    var ins := sorted[..h] + [e] + sorted[h..];
    var out := mid[h := e];
    forall m | 0 <= m <= |sorted|
      ensures out[m] == ins[m]
    {
      if m < h {
        assert ins[m] == sorted[m];
      } else if h < m {
        assert ins[m] == sorted[m - 1];
      }
    }
    assert out[..|sorted| + 1] == ins;
    InsertAt(sorted, e, h);
  }

  /**
   * One step of the in-place sort: `a[..i]` is already sorted, and `a[i]`
   * moves left past every entry with a later time.
   */
  method InsertInPlace(a: array<Entry>, i: nat)
    requires i < a.Length
    modifies a
    ensures a[..i + 1] == Insert(old(a[..i]), old(a[i]))
    ensures a[i + 1..] == old(a[i + 1..])
  {
    ghost var before := a[..];
    ghost var sorted := a[..i];
    var e := a[i];
    var h := i;
    while h > 0 && !TimeLe(a[h - 1], e)
      invariant 0 <= h <= i
      invariant forall m :: 0 <= m < h ==> a[m] == sorted[m]
      invariant forall m :: h < m <= i ==> a[m] == sorted[m - 1]
      invariant forall m :: i < m < a.Length ==> a[m] == before[m]
      invariant forall m :: h <= m < i ==> !TimeLe(sorted[m], e)
    {
      a[h] := a[h - 1];
      h := h - 1;
    }
    ghost var mid := a[..];
    a[h] := e;
    assert a[..] == mid[h := e];
    ShiftedInsert(sorted, before, mid, e, h);
  }

  /** Sorting one more entry of a prefix is one more `Insert`. */
  lemma SortPrefixStep(s: seq<Entry>, i: nat)
    requires i < |s|
    ensures SortByTime(s[..i + 1]) == Insert(SortByTime(s[..i]), s[i])
  {
    assert s[..i + 1] == s[..i] + [s[i]];
    SortByTimeSnoc(s[..i], s[i]);
  }

  /** `items.sort(key=lambda x: x['createdTime'])`, a stable sort in place. */
  method SortInPlace(a: array<Entry>)
    modifies a
    ensures a[..] == SortByTime(old(a[..]))
  {
    ghost var input := a[..];
    var i := 0;
    while i < a.Length
      invariant 0 <= i <= a.Length
      invariant a[..i] == SortByTime(input[..i])
      invariant a[i..] == input[i..]
    {
      ghost var prev := a[..];
      assert prev[..i] == SortByTime(input[..i]) && prev[i] == input[i] && prev[i + 1..] == input[i + 1..] by {
        assert prev[i..] == input[i..];
      }
      InsertInPlace(a, i);
      assert a[..i + 1] == SortByTime(input[..i + 1]) by { SortPrefixStep(input, i); }
      i := i + 1;
    }
    assert input[..a.Length] == input;
    assert a[..] == a[..a.Length];
  }

  // ---------------------------------------------------------------------
  // Which entries are deleted and which are kept.
  // ---------------------------------------------------------------------

  /** Line 88: a listing no longer than `max_backups` is left alone. */
  lemma WithinLimitNothingDeleted(items: seq<Entry>, maxBackups: int)
    requires |items| <= maxBackups
    ensures ToDelete(items, maxBackups) == []
    ensures Kept(items, maxBackups) == items
  {
  }

  /** How many deletes are issued, for every value of `max_backups`. */
  lemma DeleteCount(items: seq<Entry>, maxBackups: int)
    ensures |ToDelete(items, maxBackups)| ==
      if |items| <= maxBackups || maxBackups == 0 then 0
      else if maxBackups > 0 then |items| - maxBackups
      else if -maxBackups <= |items| then -maxBackups
      else |items|
  {
  }

  /** With a positive retention count, the `max_backups` newest entries are kept. */
  lemma KeptCount(items: seq<Entry>, maxBackups: int)
    requires maxBackups >= 1
    ensures |Kept(items, maxBackups)| == if |items| <= maxBackups then |items| else maxBackups
  {
  }

  /** `items[:-0]` is empty: with `max_backups == 0` nothing is deleted and every entry stays. */
  lemma ZeroRetentionDeletesNothing(items: seq<Entry>)
    ensures ToDelete(items, 0) == []
    ensures items != [] ==> Kept(items, 0) == SortByTime(items)
    ensures multiset(Kept(items, 0)) == multiset(items)
  {
    SortByTimePermutes(items);
  }

  /** A negative `max_backups` deletes the `-max_backups` oldest entries, or all of them. */
  lemma NegativeRetentionDeletesOldest(items: seq<Entry>, maxBackups: int)
    requires maxBackups < 0
    ensures ToDelete(items, maxBackups) ==
      SortByTime(items)[..if -maxBackups <= |items| then -maxBackups else |items|]
  {
  }

  /** When pruning, the deletes followed by the kept entries are the sorted listing. */
  lemma DeletedThenKeptIsSorted(items: seq<Entry>, maxBackups: int)
    requires Prunes(items, maxBackups)
    ensures ToDelete(items, maxBackups) + Kept(items, maxBackups) == SortByTime(items)
    ensures SortedByTime(ToDelete(items, maxBackups) + Kept(items, maxBackups))
  {
    var sorted := SortByTime(items);
    var k := SliceStop(-maxBackups, |sorted|);
    SortByTimeSorted(items);
    assert sorted == sorted[..k] + sorted[k..];
  }

  /** No entry is deleted twice and none is lost. */
  lemma PrunePartition(items: seq<Entry>, maxBackups: int)
    ensures multiset(ToDelete(items, maxBackups)) + multiset(Kept(items, maxBackups)) == multiset(items)
  {
    if Prunes(items, maxBackups) {
      var sorted := SortByTime(items);
      var k := SliceStop(-maxBackups, |sorted|);
      SortByTimePermutes(items);
      assert sorted == sorted[..k] + sorted[k..];
    }
  }

  /** Every deleted entry is at least as old as every kept one. */
  lemma DeletedAreOldest(items: seq<Entry>, maxBackups: int, d: Entry, e: Entry)
    requires d in ToDelete(items, maxBackups) && e in Kept(items, maxBackups)
    ensures TimeLe(d, e)
  {
    var sorted := SortByTime(items);
    var k := SliceStop(-maxBackups, |sorted|);
    SortByTimeSorted(items);
    var i :| 0 <= i < k && sorted[..k][i] == d;
    var j :| 0 <= j < |sorted| - k && sorted[k..][j] == e;
    assert sorted[i] == d && sorted[k + j] == e;
  }

  /**
   * Deletes are issued oldest first, and entries with the same time are
   * deleted, and kept, in the order the listing gave them.
   */
  lemma DeletesOldestFirstStable(items: seq<Entry>, maxBackups: int, t: string)
    ensures SortedByTime(ToDelete(items, maxBackups))
    ensures WithTime(ToDelete(items, maxBackups), t) + WithTime(Kept(items, maxBackups), t) == WithTime(items, t)
  {
    if Prunes(items, maxBackups) {
      var sorted := SortByTime(items);
      var k := SliceStop(-maxBackups, |sorted|);
      SortByTimeSorted(items);
      SortByTimeStable(items, t);
      assert sorted == sorted[..k] + sorted[k..];
      WithTimeConcat(sorted[..k], sorted[k..], t);
    }
  }

  /** One step of `SortByTime`: the last entry is inserted into the sorted rest. */
  lemma SortByTimeSnoc(s: seq<Entry>, e: Entry)
    ensures SortByTime(s + [e]) == Insert(SortByTime(s), e)
  {
    assert (s + [e])[..|s|] == s;
  }

  /** An entry no older than the last one goes at the end. */
  lemma InsertAtEnd(s: seq<Entry>, e: Entry)
    requires s == [] || TimeLe(s[|s| - 1], e)
    ensures Insert(s, e) == s + [e]
  {
  }

  /** An entry older than the last one goes before it. */
  lemma InsertBeforeLast(s: seq<Entry>, e: Entry, last: Entry)
    requires !TimeLe(last, e)
    ensures Insert(s + [last], e) == Insert(s, e) + [last]
  {
    assert (s + [last])[..|s|] == s;
  }

  /** The first three entries of the listing T3, T1, T4 sort to T1, T3, T4. */
  lemma SortFirstThree(t1: Entry, t3: Entry, t4: Entry)
    requires !TimeLe(t3, t1) && TimeLe(t3, t4)
    ensures SortByTime([t3, t1, t4]) == [t1, t3, t4]
  {
    assert SortByTime([t3]) == [t3] by {
      SortByTimeSnoc([], t3);
      InsertAtEnd([], t3);
      assert [] + [t3] == [t3];
    }
    assert SortByTime([t3, t1]) == [t1, t3] by {
      SortByTimeSnoc([t3], t1);
      InsertBeforeLast([], t1, t3);
      InsertAtEnd([], t1);
      assert [t3] + [t1] == [t3, t1] && [] + [t3] == [t3] && [] + [t1] == [t1];
    }
    SortByTimeSnoc([t3, t1], t4);
    InsertAtEnd([t1, t3], t4);
    assert [t3, t1] + [t4] == [t3, t1, t4];
  }

  /** The local sort puts a listing given as T3, T1, T4, T2 into creation order. */
  lemma SortRestoresCreationOrder(t1: Entry, t2: Entry, t3: Entry, t4: Entry)
    requires !TimeLe(t2, t1) && !TimeLe(t3, t2) && !TimeLe(t4, t3)
    ensures SortByTime([t3, t1, t4, t2]) == [t1, t2, t3, t4]
  {
    StrLeTotal(t1.createdTime, t2.createdTime);
    StrLeTotal(t3.createdTime, t4.createdTime);
    assert !TimeLe(t3, t1) by { if TimeLe(t3, t1) { TimeLeTransitive(t3, t1, t2); } }
    assert !TimeLe(t4, t2) by { if TimeLe(t4, t2) { TimeLeTransitive(t3, t4, t2); } }
    SortFirstThree(t1, t3, t4);
    SortByTimeSnoc([t3, t1, t4], t2);
    assert [t3, t1, t4] + [t2] == [t3, t1, t4, t2];
    InsertBeforeLast([t1, t3], t2, t4);
    assert [t1, t3] + [t4] == [t1, t3, t4];
    InsertBeforeLast([t1], t2, t3);
    assert [t1] + [t3] == [t1, t3];
    InsertAtEnd([t1], t2);
  }

  /**
   * Backups created at T1 < T2 < T3 < T4 and listed as T3, T1, T4, T2,
   * with `max_backups == 2`: T1 and T2 are deleted, in that order, and
   * T3 and T4 are kept.
   */
  lemma FourBackupsKeepTwoNewest(t1: Entry, t2: Entry, t3: Entry, t4: Entry)
    requires !TimeLe(t2, t1) && !TimeLe(t3, t2) && !TimeLe(t4, t3)
    ensures ToDelete([t3, t1, t4, t2], 2) == [t1, t2]
    ensures Kept([t3, t1, t4, t2], 2) == [t3, t4]
  {
    SortRestoresCreationOrder(t1, t2, t3, t4);
    assert [t1, t2, t3, t4][..2] == [t1, t2];
    assert [t1, t2, t3, t4][2..] == [t3, t4];
  }
}
