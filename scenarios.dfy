/**
 * Worked end-to-end cases of the retention policy, on a root whose size is
 * the sum of its children's sizes.
 */
module Scenarios {
  import opened Entries
  import opened Ranking
  import opened Admission
  import opened Eviction

  /** An empty folder admits a 10 KB input under a 100 KB cap and deletes
      nothing. */
  lemma EmptyFolderAdmits()
    ensures BackupPossible(10, [], 100)
    ensures Purged([], 0, 10, 100) == [] && Evictions([], 0, 10, 100) == []
  {
  }

  /** One 90 KB backup leaves no room for a 20 KB input under a 100 KB cap. */
  lemma NewestTooLargeRefuses(old90: Entry)
    requires old90.sizeKb == 90
    ensures !BackupPossible(20, [old90], 100)
  {
    NewestIsLastMaximum([old90]);
  }

  /** Three backups with increasing ctimes: the first is the oldest and
      the last the newest. */
  lemma ThreeBackupsRanked(a: Entry, b: Entry, c: Entry)
    requires a.ctime < b.ctime < c.ctime
    ensures Oldest([a, b, c]) == Some(a)
    ensures Newest([a, b, c]) == Some(c)
  {
    var s := [a, b, c];
    NewestIsLastMaximum(s);
    assert s[2].ctime > s[1].ctime > s[0].ctime;
    assert LastMaxIndex(s) == 2;
    OldestIsFirstMinimum(s);
    assert FirstMinIndex(s) == 0;
  }

  /** Three 30 KB backups and a 15 KB input under a 100 KB cap: the input
      is admitted, and exactly the oldest backup is deleted. */
  lemma ThreeBackupsEvictOne(a: Entry, b: Entry, c: Entry)
    requires a.sizeKb == b.sizeKb == c.sizeKb == 30
    requires a.ctime < b.ctime < c.ctime
    requires a.name != b.name && b.name != c.name && a.name != c.name
    ensures BackupPossible(15, [a, b, c], 100)
    ensures Evictions([a, b, c], 0, 15, 100) == [a]
    ensures Purged([a, b, c], 0, 15, 100) == [b, c]
  {
    var s := [a, b, c];
    ThreeBackupsRanked(a, b, c);
    assert !Fits(s, 0, 15, 100) by {
      assert s[1..] == [b, c] && [b, c][1..] == [c] && [c][1..] == [];
      assert SumSizes([c]) == 30;
      assert SumSizes([b, c]) == 60;
    }
    assert Fits([b, c], 0, 15, 100) by {
      assert [b, c][1..] == [c] && [c][1..] == [];
      assert SumSizes([c]) == 30;
    }
    assert EvictOldest(s) == [b, c] by {
      WithoutAt(s, 0);
      assert s[..0] + s[1..] == [b, c];
    }
    PurgeStep(s, 0, 15, 100);
    EvictionsStep(s, 0, 15, 100, []);
  }
}
