/**
 * The backup folder as mutable state, and the script's steps that change
 * it: the purge loop, the creation of the new backup, and the dispatch
 * that runs them.
 */
module Backup {
  import opened Entries
  import opened Ranking
  import opened Admission
  import opened Eviction

  /** The backup root on disk: its children in listing order, and the
      fixed amount `du` reports for the root directory beyond its children. */
  class BackupFolder {
    var entries: seq<Entry>
    const overheadKb: nat

    ghost predicate Valid()
      reads this
    {
      DistinctNames(entries)
    }

    /** `get_size_kilobytes(backup_folder)`: never less than the root's own
        overhead plus any one child. */
    function SizeKb(): (r: nat)
      reads this
      ensures overheadKb <= r
      ensures forall i :: 0 <= i < |entries| ==> entries[i].sizeKb + overheadKb <= r
    {
      SumSizesBoundsEach(entries);
      RootSizeKb(entries, overheadKb)
    }

    /** `os.path.exists` on a path joined onto the backup root: some child
        carries the name. */
    predicate Exists(name: string): (r: bool)
      reads this
      ensures r <==> exists i :: 0 <= i < |entries| && entries[i].name == name
    {
      HasNameIff(entries, name);
      HasName(entries, name)
    }

    constructor (listing: seq<Entry>, overheadKb: nat)
      requires DistinctNames(listing)
      ensures Valid()
      ensures entries == listing && this.overheadKb == overheadKb
    {
      entries := listing;
      this.overheadKb := overheadKb;
    }

    /** Deletes the child called `name` (`remove_tree` for a directory,
        `os.remove` for a file). Both branches remove the whole entry, so
        the entry's `isDir` flag is recorded but not needed here. */
    method Delete(name: string)
      requires Valid()
      modifies this
      ensures Valid()
      ensures entries == Without(old(entries), name)
      ensures HasName(old(entries), name) ==> |entries| == |old(entries)| - 1
    {
      HasNameIff(entries, name);
      if HasName(entries, name) {
        var i :| 0 <= i < |entries| && entries[i].name == name;
        WithoutAt(entries, i);
      }
      WithoutKeepsDistinct(entries, name);
      entries := Without(entries, name);
    }

    /** `purge_old_backups_as_required`: deletes the oldest child, one at a
        time, until the root and the input fit under the cap or the folder
        is empty. `evicted` lists the deleted children in deletion order. */
    method PurgeOldBackupsAsRequired(inputSizeKb: nat, maxKb: int) returns (ghost evicted: seq<Entry>)
      requires Valid()
      modifies this
      ensures Valid()
      ensures entries == Purged(old(entries), overheadKb, inputSizeKb, maxKb)
      ensures evicted == Evictions(old(entries), overheadKb, inputSizeKb, maxKb)
      ensures SizeKb() + inputSizeKb <= maxKb || entries == []
      ensures old(SizeKb()) + inputSizeKb <= maxKb ==> entries == old(entries) && evicted == []
    {
      var folderSizeKb := SizeKb();
      var oldest := Oldest(entries);
      evicted := [];
      while folderSizeKb + inputSizeKb > maxKb && oldest.Some?
        invariant Valid()
        invariant folderSizeKb == SizeKb()
        invariant oldest == Oldest(entries)
        invariant Purged(entries, overheadKb, inputSizeKb, maxKb) == Purged(old(entries), overheadKb, inputSizeKb, maxKb)
        invariant evicted + Evictions(entries, overheadKb, inputSizeKb, maxKb)
               == Evictions(old(entries), overheadKb, inputSizeKb, maxKb)
        decreases |entries|
      {
        PurgeStep(entries, overheadKb, inputSizeKb, maxKb);
        EvictionsStep(entries, overheadKb, inputSizeKb, maxKb, evicted);
        Delete(oldest.value.name);
        evicted := evicted + [oldest.value];
        oldest := Oldest(entries);
        folderSizeKb := SizeKb();
      }
      assert Purged(entries, overheadKb, inputSizeKb, maxKb) == entries;
      assert Evictions(entries, overheadKb, inputSizeKb, maxKb) == [];
    }

    /** `create_new_backup`: when the target already exists nothing changes;
        otherwise the copy of the input appears as one new directory. */
    method CreateNewBackup(inputSizeKb: nat, outputName: string, nowCtime: real) returns (created: bool)
      requires Valid()
      modifies this
      ensures Valid()
      ensures created <==> !old(Exists(outputName))
      ensures created ==> entries == old(entries) + [Entry(outputName, nowCtime, inputSizeKb, true)]
      ensures !created ==> entries == old(entries)
    {
      if Exists(outputName) {
        created := false;
      } else {
        var copy := Entry(outputName, nowCtime, inputSizeKb, true);
        HasNameIff(entries, outputName);
        entries := entries + [copy];
        created := true;
      }
    }
  }

  /** How one run of the script ends. */
  datatype Outcome =
    | NameCollision      // the timestamped folder already exists
    | TooLarge           // admission failed: "Cancelling."
    | Created            // the backup was made
    | CopyTargetExists   // `create_new_backup` found its target present

  /** The process exit status of each outcome. */
  function ExitStatus(o: Outcome): (status: int)
    ensures status == 2 <==> o == NameCollision
    ensures status == 0 || status == 2
  {
    if o == NameCollision then 2 else 0
  }

  /** The script's dispatch: collision check, admission, eviction, copy.
      `outputName` is the generated timestamp name, `nowCtime` the ctime the
      copy receives. */
  method RunBackup(folder: BackupFolder, inputSizeKb: nat, maxKb: int, outputName: string, nowCtime: real)
    returns (outcome: Outcome)
    requires folder.Valid()
    modifies folder
    ensures folder.Valid()
    ensures ExitStatus(outcome) == 2 <==> old(folder.Exists(outputName))
    ensures old(folder.Exists(outputName)) ==>
              outcome == NameCollision && folder.entries == old(folder.entries)
    ensures !old(folder.Exists(outputName)) && !BackupPossible(inputSizeKb, old(folder.entries), maxKb) ==>
              outcome == TooLarge && folder.entries == old(folder.entries)
    ensures !old(folder.Exists(outputName)) && BackupPossible(inputSizeKb, old(folder.entries), maxKb) ==>
              outcome == Created &&
              folder.entries == Purged(old(folder.entries), folder.overheadKb, inputSizeKb, maxKb)
                                + [Entry(outputName, nowCtime, inputSizeKb, true)]
  {
    if folder.Exists(outputName) {
      return NameCollision;
    }
    if BackupPossible(inputSizeKb, folder.entries, maxKb) {
      ghost var before := folder.entries;
      var _ := folder.PurgeOldBackupsAsRequired(inputSizeKb, maxKb);
      SubsetKeepsNameAbsent(before, folder.entries, outputName);
      var created := folder.CreateNewBackup(inputSizeKb, outputName, nowCtime);
      outcome := if created then Created else CopyTargetExists;
    } else {
      outcome := TooLarge;
    }
  }

  /** Where the root's size is exactly the sum of its children's sizes, a
      run that makes the backup leaves the root within the cap, with the
      newest earlier backup still in it. */
  lemma CreatedRunWithinCap(s: seq<Entry>, inputSizeKb: nat, maxKb: int, copy: Entry)
    requires DistinctNames(s)
    requires BackupPossible(inputSizeKb, s, maxKb)
    requires copy.sizeKb == inputSizeKb
    ensures RootSizeKb(Purged(s, 0, inputSizeKb, maxKb) + [copy], 0) <= maxKb
    ensures s != [] ==> Newest(s).value in Purged(s, 0, inputSizeKb, maxKb)
  {
    var p := Purged(s, 0, inputSizeKb, maxKb);
    AdmittedPurgeFits(s, inputSizeKb, maxKb);
    NewestSurvivesPurge(s, inputSizeKb, maxKb);
    SumSizesAppend(p, [copy]);
    assert SumSizes([copy]) == copy.sizeKb;
  }
}
