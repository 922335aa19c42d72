/**
 * Ranking of the backup folder's children by ctime: a stable sort of the
 * listing, then its first element (the oldest) or its last (the newest).
 */
module Ranking {
  import opened Entries

  predicate SortedByCtime(s: seq<Entry>)
  {
    forall i, j :: 0 <= i < j < |s| ==> s[i].ctime <= s[j].ctime
  }

  /** Inserts `e` into the sorted `t` ahead of every element whose ctime is
      not smaller, so `e` stays in front of its equals. */
  function Insert(e: Entry, t: seq<Entry>): (r: seq<Entry>)
    ensures |r| == |t| + 1
    ensures multiset(r) == multiset(t) + multiset{e}
    ensures SortedByCtime(t) ==> SortedByCtime(r)
  {
    if t == [] || e.ctime <= t[0].ctime then
      [e] + t
    else
      var rest := Insert(e, t[1..]);
      assert t == [t[0]] + t[1..];
      assert SortedByCtime(t) ==> SortedByCtime([t[0]] + rest) by {
        if SortedByCtime(t) {
          InsertSortedCons(e, t, rest);
        }
      }
      [t[0]] + rest
  }

  /** Putting `t[0]` back in front of an insertion into `t[1..]` keeps the
      result sorted when `t` was sorted and `t[0]` is older than `e`. */
  lemma InsertSortedCons(e: Entry, t: seq<Entry>, rest: seq<Entry>)
    requires t != [] && SortedByCtime(t) && t[0].ctime < e.ctime
    requires multiset(rest) == multiset(t[1..]) + multiset{e}
    requires SortedByCtime(rest)
    ensures SortedByCtime([t[0]] + rest)
  {
    forall j | 0 <= j < |rest| ensures t[0].ctime <= rest[j].ctime {
      assert rest[j] in multiset(rest);
      if rest[j] != e {
        assert rest[j] in t[1..];
        var m :| 0 <= m < |t[1..]| && t[1..][m] == rest[j];
        assert t[1..][m] == t[m + 1];
      }
    }
    PrependOlderKeepsSorted(t[0], rest);
  }

  /** A sorted sequence stays sorted with an element no newer than all of it
      put in front. */
  lemma PrependOlderKeepsSorted(e: Entry, rest: seq<Entry>)
    requires SortedByCtime(rest)
    requires forall j :: 0 <= j < |rest| ==> e.ctime <= rest[j].ctime
    ensures SortedByCtime([e] + rest)
  {
    var r := [e] + rest;
    forall a, b | 0 <= a < b < |r| ensures r[a].ctime <= r[b].ctime {
      assert r[b] == rest[b - 1];
      if a > 0 { assert r[a] == rest[a - 1]; }
    }
  }

  /** The listing sorted by ctime, stably: entries with equal ctime keep
      their listing order. Insertion sort that inserts each entry ahead of
      the already sorted later entries is one such sort, and a stable sort
      has only one possible output. */
  function SortByCtime(s: seq<Entry>): (r: seq<Entry>)
    ensures |r| == |s|
    ensures multiset(r) == multiset(s)
    ensures SortedByCtime(r)
  {
    if s == [] then []
    else
      assert s == [s[0]] + s[1..];
      Insert(s[0], SortByCtime(s[1..]))
  }

  /** `[x]` when `x` has ctime `c`, otherwise nothing. */
  function Keep(x: Entry, c: real): seq<Entry>
  {
    if x.ctime == c then [x] else []
  }

  /** The entries of `s` whose ctime is `c`, in their order in `s`. */
  function WithCtime(s: seq<Entry>, c: real): seq<Entry>
  {
    if s == [] then [] else Keep(s[0], c) + WithCtime(s[1..], c)
  }

  lemma WithCtimeCons(x: Entry, r: seq<Entry>, c: real)
    ensures WithCtime([x] + r, c) == Keep(x, c) + WithCtime(r, c)
  {
    assert ([x] + r)[1..] == r;
  }

  /** Entries of different ctimes never both survive the filter, so their
      order relative to each other does not show in it. */
  lemma KeepSwap(x: Entry, y: Entry, c: real, rest: seq<Entry>)
    requires x.ctime != y.ctime
    ensures Keep(x, c) + (Keep(y, c) + rest) == Keep(y, c) + (Keep(x, c) + rest)
  {
    if x.ctime == c {
      assert Keep(y, c) == [];
    } else {
      assert Keep(x, c) == [];
    }
  }

  /** Inserting `e` puts it ahead of every entry that shares its ctime. */
  lemma {:induction false} InsertWithCtime(e: Entry, t: seq<Entry>, c: real)
    ensures WithCtime(Insert(e, t), c) == Keep(e, c) + WithCtime(t, c)
    decreases |t|
  {
    if t == [] || e.ctime <= t[0].ctime {
      WithCtimeCons(e, t, c);
    } else {
      var rest := Insert(e, t[1..]);
      assert Insert(e, t) == [t[0]] + rest;
      InsertWithCtime(e, t[1..], c);
      WithCtimeCons(t[0], rest, c);
      KeepSwap(t[0], e, c, WithCtime(t[1..], c));
    }
  }

  /** The sort is stable: for every ctime, the entries with that ctime come
      out in the order the listing gave them. Together with sortedness and
      the permutation property this fixes the output completely. */
  lemma {:induction false} SortByCtimeStable(s: seq<Entry>, c: real)
    ensures WithCtime(SortByCtime(s), c) == WithCtime(s, c)
    decreases |s|
  {
    if s != [] {
      SortByCtimeStable(s[1..], c);
      InsertWithCtime(s[0], SortByCtime(s[1..]), c);
    }
  }

  /** The child with the oldest ctime: the head of the sorted listing, or
      None for an empty folder. */
  function Oldest(s: seq<Entry>): (r: Option<Entry>)
    ensures r.None? <==> s == []
    ensures r.Some? ==> r.value in s
  {
    var sorted := SortByCtime(s);
    if |sorted| == 0 then None
    else
      assert sorted[0] in multiset(sorted);
      Some(sorted[0])
  }

  /** The child with the newest ctime: the last element of the sorted
      listing, or None for an empty folder. */
  function Newest(s: seq<Entry>): (r: Option<Entry>)
    ensures r.None? <==> s == []
    ensures r.Some? ==> r.value in s
  {
    var sorted := SortByCtime(s);
    if |sorted| == 0 then None
    else
      assert sorted[|sorted| - 1] in multiset(sorted);
      Some(sorted[|sorted| - 1])
  }

  /** Reference definition: the position of the first entry, in listing
      order, among those with the least ctime. */
  function FirstMinIndex(s: seq<Entry>): (i: nat)
    requires s != []
    ensures i < |s|
    ensures forall j :: 0 <= j < |s| ==> s[i].ctime <= s[j].ctime
    ensures forall j :: 0 <= j < i ==> s[j].ctime > s[i].ctime
  {
    if |s| == 1 then 0
    else
      var k := FirstMinIndex(s[1..]) + 1;
      assert s[k] == s[1..][k - 1];
      if s[0].ctime <= s[k].ctime then 0 else k
  }

  /** Reference definition: the position of the last entry, in listing
      order, among those with the greatest ctime. */
  function LastMaxIndex(s: seq<Entry>): (i: nat)
    requires s != []
    ensures i < |s|
    ensures forall j :: 0 <= j < |s| ==> s[j].ctime <= s[i].ctime
    ensures forall j :: i < j < |s| ==> s[j].ctime < s[i].ctime
  {
    if |s| == 1 then 0
    else
      var k := LastMaxIndex(s[1..]) + 1;
      assert s[k] == s[1..][k - 1];
      if s[0].ctime > s[k].ctime then 0 else k
  }

  /** The last element of an insertion: `e` itself unless some element of
      `t` is at least as new. */
  lemma {:induction false} InsertLast(e: Entry, t: seq<Entry>)
    requires SortedByCtime(t)
    ensures Insert(e, t)[|t|] == if t != [] && e.ctime <= t[|t| - 1].ctime then t[|t| - 1] else e
    decreases |t|
  {
    if t == [] || e.ctime <= t[0].ctime {
    } else if |t| == 1 {
    } else {
      InsertLast(e, t[1..]);
    }
  }

  /** The oldest entry is None exactly for an empty folder; otherwise it is
      the first entry, in listing order, with the least ctime. */
  lemma {:induction false} OldestIsFirstMinimum(s: seq<Entry>)
    ensures Oldest(s).None? <==> s == []
    ensures s != [] ==> Oldest(s) == Some(s[FirstMinIndex(s)])
    decreases |s|
  {
    if |s| > 1 {
      OldestIsFirstMinimum(s[1..]);
    }
  }

  /** The newest entry is None exactly for an empty folder; otherwise it is
      the last entry, in listing order, with the greatest ctime. */
  lemma {:induction false} NewestIsLastMaximum(s: seq<Entry>)
    ensures Newest(s).None? <==> s == []
    ensures s != [] ==> Newest(s) == Some(s[LastMaxIndex(s)])
    decreases |s|
  {
    if |s| > 1 {
      NewestIsLastMaximum(s[1..]);
      InsertLast(s[0], SortByCtime(s[1..]));
    }
  }

  /** With exactly one entry, the oldest and the newest are that entry; in
      general the oldest is never newer than the newest. */
  lemma OldestNotNewerThanNewest(s: seq<Entry>)
    requires s != []
    ensures Oldest(s).value.ctime <= Newest(s).value.ctime
    ensures |s| == 1 ==> Oldest(s) == Newest(s) == Some(s[0])
  {
    OldestIsFirstMinimum(s);
    NewestIsLastMaximum(s);
  }

  /** LastMaxIndex is the only position that is maximal and strictly newer
      than everything after it. */
  lemma LastMaxUnique(s: seq<Entry>, k: nat)
    requires k < |s|
    requires forall j :: 0 <= j < |s| ==> s[j].ctime <= s[k].ctime
    requires forall j :: k < j < |s| ==> s[j].ctime < s[k].ctime
    ensures LastMaxIndex(s) == k
  {
  }
}
