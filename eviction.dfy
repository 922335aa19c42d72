/**
 * What `purge_old_backups_as_required` does to the folder, as functions of
 * the listing it starts from: which children it deletes, in which order,
 * and which survive.
 */
module Eviction {
  import opened Entries
  import opened Ranking
  import opened Admission

  /** What `du -sk` reports for the backup root: the children's sizes plus
      a fixed overhead for the root directory itself. */
  function RootSizeKb(s: seq<Entry>, overheadKb: nat): nat
  {
    SumSizes(s) + overheadKb
  }

  /** The loop's exit test: the root and the new backup fit under the cap. */
  predicate Fits(s: seq<Entry>, overheadKb: nat, inputSizeKb: nat, maxKb: int)
  {
    RootSizeKb(s, overheadKb) + inputSizeKb <= maxKb
  }

  /** The listing once the oldest child has been deleted. */
  function EvictOldest(s: seq<Entry>): (r: seq<Entry>)
    requires s != []
    ensures |r| < |s|
    ensures forall x :: x in r ==> x in s
  {
    MemberHasName(s, Oldest(s).value);
    Without(s, Oldest(s).value.name)
  }

  /** The children left once the purge loop stops: it deletes the oldest
      child while the root and the input together exceed the cap and the
      folder is not empty. */
  function Purged(s: seq<Entry>, overheadKb: nat, inputSizeKb: nat, maxKb: int): (r: seq<Entry>)
    ensures Fits(r, overheadKb, inputSizeKb, maxKb) || r == []
    ensures forall x :: x in r ==> x in s
    ensures Fits(s, overheadKb, inputSizeKb, maxKb) ==> r == s
    decreases |s|
  {
    if Fits(s, overheadKb, inputSizeKb, maxKb) || s == [] then s
    else Purged(EvictOldest(s), overheadKb, inputSizeKb, maxKb)
  }

  /** The children the purge loop deletes, in the order it deletes them:
      each is the oldest child of the folder at the moment it goes. */
  function Evictions(s: seq<Entry>, overheadKb: nat, inputSizeKb: nat, maxKb: int): (r: seq<Entry>)
    ensures forall x :: x in r ==> x in s
    ensures Fits(s, overheadKb, inputSizeKb, maxKb) ==> r == []
    decreases |s|
  {
    if Fits(s, overheadKb, inputSizeKb, maxKb) || s == [] then []
    else [Oldest(s).value] + Evictions(EvictOldest(s), overheadKb, inputSizeKb, maxKb)
  }

  /** One turn of the purge loop: when the folder does not fit and is not
      empty, the purge continues from the folder without its oldest child. */
  lemma PurgeStep(s: seq<Entry>, overheadKb: nat, inputSizeKb: nat, maxKb: int)
    requires s != [] && !Fits(s, overheadKb, inputSizeKb, maxKb)
    ensures Purged(EvictOldest(s), overheadKb, inputSizeKb, maxKb) == Purged(s, overheadKb, inputSizeKb, maxKb)
  {
  }

  /** One turn of the purge loop, for the deletions: the oldest child goes
      first and the rest of the deletions follow from the smaller folder. */
  lemma EvictionsStep(s: seq<Entry>, overheadKb: nat, inputSizeKb: nat, maxKb: int, done: seq<Entry>)
    requires s != [] && !Fits(s, overheadKb, inputSizeKb, maxKb)
    ensures Evictions(s, overheadKb, inputSizeKb, maxKb)
         == [Oldest(s).value] + Evictions(EvictOldest(s), overheadKb, inputSizeKb, maxKb)
    ensures (done + [Oldest(s).value]) + Evictions(EvictOldest(s), overheadKb, inputSizeKb, maxKb)
         == done + Evictions(s, overheadKb, inputSizeKb, maxKb)
  {
    var rest := Evictions(EvictOldest(s), overheadKb, inputSizeKb, maxKb);
    assert Evictions(s, overheadKb, inputSizeKb, maxKb) == [Oldest(s).value] + rest;
    SeqAssoc(done, [Oldest(s).value], rest);
  }

  /** Concatenation is associative; named so that `EvictionsStep` can use it
      at one instance instead of the solver searching for it. */
  lemma SeqAssoc(a: seq<Entry>, b: seq<Entry>, c: seq<Entry>)
    ensures (a + b) + c == a + (b + c)
  {
  }

  /** The purge only deletes: the deleted children and the surviving ones
      together are exactly the children it started from. */
  lemma {:induction false} PurgePartitions(s: seq<Entry>, overheadKb: nat, inputSizeKb: nat, maxKb: int)
    requires DistinctNames(s)
    ensures multiset(Evictions(s, overheadKb, inputSizeKb, maxKb)) + multiset(Purged(s, overheadKb, inputSizeKb, maxKb))
         == multiset(s)
    decreases |s|
  {
    if !(Fits(s, overheadKb, inputSizeKb, maxKb) || s == []) {
      OldestIsFirstMinimum(s);
      var i := FirstMinIndex(s);
      WithoutAtMultiset(s, i);
      WithoutKeepsDistinct(s, s[i].name);
      PurgePartitions(EvictOldest(s), overheadKb, inputSizeKb, maxKb);
    }
  }

  /** Children are deleted oldest first: the deletions come in
      non-decreasing ctime order. */
  lemma {:induction false} EvictionsOldestFirst(s: seq<Entry>, overheadKb: nat, inputSizeKb: nat, maxKb: int)
    ensures SortedByCtime(Evictions(s, overheadKb, inputSizeKb, maxKb))
    decreases |s|
  {
    if !(Fits(s, overheadKb, inputSizeKb, maxKb) || s == []) {
      OldestIsFirstMinimum(s);
      var e := Oldest(s).value;
      var t := EvictOldest(s);
      EvictionsOldestFirst(t, overheadKb, inputSizeKb, maxKb);
      var rest := Evictions(t, overheadKb, inputSizeKb, maxKb);
      forall j | 0 <= j < |rest| ensures e.ctime <= rest[j].ctime {
        assert rest[j] in rest;
        var m :| 0 <= m < |s| && s[m] == rest[j];
      }
      PrependOlderKeepsSorted(e, rest);
    }
  }

  /** No child the purge deletes is newer than any child that survives it. */
  lemma {:induction false} EvictionsNoNewerThanSurvivors(s: seq<Entry>, overheadKb: nat, inputSizeKb: nat, maxKb: int)
    ensures forall x, y ::
              x in Evictions(s, overheadKb, inputSizeKb, maxKb) && y in Purged(s, overheadKb, inputSizeKb, maxKb)
              ==> x.ctime <= y.ctime
    decreases |s|
  {
    if !(Fits(s, overheadKb, inputSizeKb, maxKb) || s == []) {
      OldestIsFirstMinimum(s);
      var e := Oldest(s).value;
      var t := EvictOldest(s);
      EvictionsNoNewerThanSurvivors(t, overheadKb, inputSizeKb, maxKb);
      forall y | y in Purged(t, overheadKb, inputSizeKb, maxKb) ensures e.ctime <= y.ctime {
        var m :| 0 <= m < |s| && s[m] == y;
      }
    }
  }

  /** Taking out any child other than the last one of greatest ctime leaves
      that child the last one of greatest ctime. */
  lemma RemoveAtKeepsLastMax(s: seq<Entry>, i: nat)
    requires i < |s| && i != LastMaxIndex(s)
    ensures var k := LastMaxIndex(s);
            LastMaxIndex(s[..i] + s[i + 1..]) == if k < i then k else k - 1
  {
    var u := s[..i] + s[i + 1..];
    RemoveAtShifts(s, i, u);
    ShiftedKeepsLastMax(s, i, u);
  }

  /** The core of `RemoveAtKeepsLastMax`, over any `u` known only through
      where its elements come from in `s`. */
  lemma ShiftedKeepsLastMax(s: seq<Entry>, i: nat, u: seq<Entry>)
    requires i < |s| && i != LastMaxIndex(s) && |u| == |s| - 1
    requires forall j :: 0 <= j < i ==> u[j] == s[j]
    requires forall j :: i <= j < |u| ==> u[j] == s[j + 1]
    ensures var k := LastMaxIndex(s);
            LastMaxIndex(u) == if k < i then k else k - 1
  {
    var k := LastMaxIndex(s);
    var k' := if k < i then k else k - 1;
    assert u[k'] == s[k];
    forall j | 0 <= j < |u|
      ensures u[j].ctime <= u[k'].ctime
      ensures k' < j ==> u[j].ctime < u[k'].ctime
    {
      if j < i { assert u[j] == s[j]; } else { assert u[j] == s[j + 1]; }
    }
    LastMaxUnique(u, k');
  }

  /** While two or more children remain, deleting the oldest one leaves the
      newest one in place and still the newest. */
  lemma EvictOldestKeepsNewest(s: seq<Entry>)
    requires DistinctNames(s) && |s| >= 2
    ensures Newest(EvictOldest(s)) == Newest(s)
  {
    OldestIsFirstMinimum(s);
    NewestIsLastMaximum(s);
    var i := FirstMinIndex(s);
    var k := LastMaxIndex(s);
    assert i != k by {
      assert s[0].ctime <= s[k].ctime && s[i].ctime <= s[|s| - 1].ctime;
    }
    WithoutAt(s, i);
    var u := s[..i] + s[i + 1..];
    RemoveAtKeepsLastMax(s, i);
    NewestIsLastMaximum(u);
    assert u[if k < i then k else k - 1] == s[k];
  }

  /** On a folder with a single child, admission leaves room for that child
      and the input together. */
  lemma AdmittedSingleFits(s: seq<Entry>, inputSizeKb: nat, maxKb: int)
    requires BackupPossible(inputSizeKb, s, maxKb)
    ensures |s| == 1 ==> Fits(s, 0, inputSizeKb, maxKb)
  {
    if |s| == 1 {
      NewestIsLastMaximum(s);
      assert SumSizes(s) == s[0].sizeKb;
    }
  }

  /** Where the root's size is exactly the sum of its children's sizes, an
      admitted backup never costs the newest existing backup: the purge stops
      before deleting it, and it is still the newest child afterwards. */
  lemma {:induction false} NewestSurvivesPurge(s: seq<Entry>, inputSizeKb: nat, maxKb: int)
    requires DistinctNames(s)
    requires BackupPossible(inputSizeKb, s, maxKb)
    ensures Newest(Purged(s, 0, inputSizeKb, maxKb)) == Newest(s)
    decreases |s|
  {
    if !(Fits(s, 0, inputSizeKb, maxKb) || s == []) {
      AdmittedSingleFits(s, inputSizeKb, maxKb);
      var t := EvictOldest(s);
      EvictOldestKeepsNewest(s);
      WithoutKeepsDistinct(s, Oldest(s).value.name);
      NewestSurvivesPurge(t, inputSizeKb, maxKb);
    }
  }

  /** Where the root's size is exactly the sum of its children's sizes, an
      admitted backup always fits once the purge is done: the purge never
      has to empty the folder. */
  lemma AdmittedPurgeFits(s: seq<Entry>, inputSizeKb: nat, maxKb: int)
    requires DistinctNames(s)
    requires BackupPossible(inputSizeKb, s, maxKb)
    ensures Fits(Purged(s, 0, inputSizeKb, maxKb), 0, inputSizeKb, maxKb)
  {
    NewestSurvivesPurge(s, inputSizeKb, maxKb);
    BackupPossibleIff(inputSizeKb, s, maxKb);
    NewestIsLastMaximum(s);
    NewestIsLastMaximum(Purged(s, 0, inputSizeKb, maxKb));
  }
}
