/**
 * The admission check run before any eviction: the new backup must fit
 * under the cap next to at least the newest existing backup.
 */
module Admission {
  import opened Entries
  import opened Ranking

  /** Size of the newest child of the folder, 0 when the folder is empty:
      the size of the last entry of greatest ctime. */
  function NewestSizeKb(s: seq<Entry>): (r: nat)
    ensures s == [] ==> r == 0
    ensures s != [] ==> r == s[LastMaxIndex(s)].sizeKb
  {
    NewestIsLastMaximum(s);
    match Newest(s)
    case None => 0
    case Some(e) => e.sizeKb
  }

  /** `check_backup_possible` over a snapshot of the folder: the input's
      size is at most the cap minus the newest backup's size. */
  predicate BackupPossible(inputSizeKb: nat, s: seq<Entry>, maxKb: int): (ok: bool)
    ensures ok ==> inputSizeKb <= maxKb
    ensures s == [] ==> (ok <==> inputSizeKb <= maxKb)
  {
    inputSizeKb <= maxKb - NewestSizeKb(s)
  }

  /** Admission in terms of the listing itself: on an empty folder the input
      alone must fit under the cap; otherwise the input together with the
      last entry of greatest ctime must fit. Either way an input larger than
      the cap is never admitted. */
  lemma BackupPossibleIff(inputSizeKb: nat, s: seq<Entry>, maxKb: int)
    ensures s == [] ==> (BackupPossible(inputSizeKb, s, maxKb) <==> inputSizeKb <= maxKb)
    ensures s != [] ==>
      (BackupPossible(inputSizeKb, s, maxKb) <==> inputSizeKb + s[LastMaxIndex(s)].sizeKb <= maxKb)
    ensures BackupPossible(inputSizeKb, s, maxKb) ==> inputSizeKb <= maxKb
  {
    NewestIsLastMaximum(s);
  }
}
