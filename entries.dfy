/**
 * The abstract state of a backup folder: the immediate children of the
 * backup root, in the order the directory listing returns them.
 */
module Entries {

  datatype Option<T> = None | Some(value: T)

  /** One immediate child (file or directory) of the backup root.
      `ctime` is the last metadata change time, `sizeKb` what `du -sk`
      reports for the child's subtree. */
  datatype Entry = Entry(name: string, ctime: real, sizeKb: nat, isDir: bool)

  /** Sum of the sizes of the entries. */
  function SumSizes(s: seq<Entry>): nat
  {
    if s == [] then 0 else s[0].sizeKb + SumSizes(s[1..])
  }

  lemma {:induction false} SumSizesAppend(s: seq<Entry>, t: seq<Entry>)
    ensures SumSizes(s + t) == SumSizes(s) + SumSizes(t)
    decreases |s|
  {
    if s == [] {
      assert s + t == t;
    } else {
      assert (s + t)[1..] == s[1..] + t;
      SumSizesAppend(s[1..], t);
    }
  }

  /** The sum is at least the size of each entry. */
  lemma {:induction false} SumSizesBoundsEach(s: seq<Entry>)
    ensures forall i :: 0 <= i < |s| ==> s[i].sizeKb <= SumSizes(s)
    decreases |s|
  {
    if s != [] {
      SumSizesBoundsEach(s[1..]);
      forall i | 0 < i < |s| ensures s[i].sizeKb <= SumSizes(s) {
        assert s[i] == s[1..][i - 1];
      }
    }
  }

  /** Some child of the listing is called `name`: the joined path exists. */
  predicate HasName(s: seq<Entry>, name: string)
  {
    s != [] && (s[0].name == name || HasName(s[1..], name))
  }

  /** A path exists exactly when some position of the listing carries its
      name. */
  lemma {:induction false} HasNameIff(s: seq<Entry>, name: string)
    ensures HasName(s, name) <==> exists i :: 0 <= i < |s| && s[i].name == name
    decreases |s|
  {
    if s != [] {
      HasNameIff(s[1..], name);
      if exists i :: 0 <= i < |s| && s[i].name == name {
        var i :| 0 <= i < |s| && s[i].name == name;
        if i > 0 { assert s[1..][i - 1] == s[i]; }
      }
      if exists i :: 0 <= i < |s[1..]| && s[1..][i].name == name {
        var i :| 0 <= i < |s[1..]| && s[1..][i].name == name;
        assert s[i + 1] == s[1..][i];
      }
    }
  }

  /** A child's own name exists in the listing. */
  lemma MemberHasName(s: seq<Entry>, x: Entry)
    requires x in s
    ensures HasName(s, x.name)
  {
    HasNameIff(s, x.name);
    var i :| 0 <= i < |s| && s[i] == x;
  }

  /** Keeping only some of the children never brings a missing name in. */
  lemma SubsetKeepsNameAbsent(s: seq<Entry>, r: seq<Entry>, name: string)
    requires forall x :: x in r ==> x in s
    requires !HasName(s, name)
    ensures !HasName(r, name)
  {
    HasNameIff(s, name);
    HasNameIff(r, name);
    forall i | 0 <= i < |r| ensures r[i].name != name {
      assert r[i] in r;
      var j :| 0 <= j < |s| && s[j] == r[i];
    }
  }

  /** A directory never lists two children under one name. */
  predicate DistinctNames(s: seq<Entry>)
  {
    forall i, j :: 0 <= i < j < |s| ==> s[i].name != s[j].name
  }

  /** The listing after the child called `name` has been deleted. */
  function Without(s: seq<Entry>, name: string): (r: seq<Entry>)
    ensures |r| <= |s|
    ensures forall x :: x in r ==> x in s
    ensures HasName(s, name) ==> |r| < |s|
  {
    if s == [] then []
    else if s[0].name == name then Without(s[1..], name)
    else
      var rest := Without(s[1..], name);
      assert forall x :: x in rest ==> x in s by {
        forall x | x in rest ensures x in s {
          var j :| 0 <= j < |s[1..]| && s[1..][j] == x;
          assert s[j + 1] == x;
        }
      }
      [s[0]] + rest
  }

  /** Deleting a child keeps exactly the children with other names. */
  lemma {:induction false} WithoutKeepsOthers(s: seq<Entry>, name: string)
    ensures forall x :: x in Without(s, name) <==> x in s && x.name != name
    decreases |s|
  {
    if s != [] {
      WithoutKeepsOthers(s[1..], name);
      assert s == [s[0]] + s[1..];
    }
  }

  /** Deleting a name that is not there changes nothing. */
  lemma {:induction false} WithoutAbsent(s: seq<Entry>, name: string)
    requires !HasName(s, name)
    ensures Without(s, name) == s
    decreases |s|
  {
    if s != [] {
      WithoutAbsent(s[1..], name);
      assert s == [s[0]] + s[1..];
    }
  }

  /** Removing the first element keeps the remaining names distinct, and
      the first name no longer occurs. */
  lemma DistinctTail(s: seq<Entry>)
    requires DistinctNames(s) && s != []
    ensures DistinctNames(s[1..])
    ensures !HasName(s[1..], s[0].name)
  {
    forall a, b | 0 <= a < b < |s[1..]| ensures s[1..][a].name != s[1..][b].name {
      assert s[1..][a] == s[a + 1] && s[1..][b] == s[b + 1];
    }
    HasNameIff(s[1..], s[0].name);
    forall j | 0 <= j < |s[1..]| ensures s[1..][j].name != s[0].name {
      assert s[1..][j] == s[j + 1];
    }
  }

  /** With distinct names, deleting the child at index i removes exactly
      that one element and keeps the order of the others. */
  lemma {:induction false} WithoutAt(s: seq<Entry>, i: nat)
    requires DistinctNames(s) && i < |s|
    ensures Without(s, s[i].name) == s[..i] + s[i + 1..]
    decreases |s|
  {
    DistinctTail(s);
    if i == 0 {
      WithoutAbsent(s[1..], s[0].name);
    } else {
      var n := s[i].name;
      assert s[1..][i - 1] == s[i];
      WithoutAt(s[1..], i - 1);
      assert Without(s, n) == [s[0]] + Without(s[1..], n);
      ConsRemoveAt(s, i);
    }
  }

  /** Splits `WithoutAt`'s sequence identity into its own small lemma, so
      that proof stays cheap for the solver. */
  lemma ConsRemoveAt(s: seq<Entry>, i: nat)
    requires 0 < i < |s|
    ensures [s[0]] + (s[1..][..i - 1] + s[1..][i..]) == s[..i] + s[i + 1..]
  {
    assert [s[0]] + s[1..][..i - 1] == s[..i];
    assert s[1..][i..] == s[i + 1..];
  }

  /** Where each element of a listing lands once the element at index i
      is taken out. Stated once here, with `u` as a named trigger, so callers
      need not unfold the slices. */
  lemma RemoveAtShifts(s: seq<Entry>, i: nat, u: seq<Entry>)
    requires i < |s| && u == s[..i] + s[i + 1..]
    ensures |u| == |s| - 1
    ensures forall j :: 0 <= j < i ==> u[j] == s[j]
    ensures forall j :: i <= j < |u| ==> u[j] == s[j + 1]
  {
  }

  lemma RemoveAtMultiset(s: seq<Entry>, i: nat, u: seq<Entry>)
    requires i < |s| && u == s[..i] + s[i + 1..]
    ensures multiset(u) + multiset{s[i]} == multiset(s)
  {
    assert s == s[..i] + [s[i]] + s[i + 1..];
  }

  /** Deleting one child of a listing with distinct names takes exactly
      that child out of the multiset of entries. */
  lemma WithoutAtMultiset(s: seq<Entry>, i: nat)
    requires DistinctNames(s) && i < |s|
    ensures multiset(Without(s, s[i].name)) + multiset{s[i]} == multiset(s)
  {
    WithoutAt(s, i);
    RemoveAtMultiset(s, i, Without(s, s[i].name));
  }

  /** Taking one element out of a listing keeps its names distinct. */
  lemma RemoveAtKeepsDistinct(s: seq<Entry>, i: nat)
    requires DistinctNames(s) && i < |s|
    ensures DistinctNames(s[..i] + s[i + 1..])
  {
    var r := s[..i] + s[i + 1..];
    RemoveAtShifts(s, i, r);
    forall a, b | 0 <= a < b < |r| ensures r[a].name != r[b].name {
      var a' := if a < i then a else a + 1;
      var b' := if b < i then b else b + 1;
      assert r[a] == s[a'] && r[b] == s[b'];
    }
  }

  /** Deleting a child never makes two names collide. */
  lemma WithoutKeepsDistinct(s: seq<Entry>, name: string)
    requires DistinctNames(s)
    ensures DistinctNames(Without(s, name))
  {
    HasNameIff(s, name);
    if HasName(s, name) {
      var i :| 0 <= i < |s| && s[i].name == name;
      WithoutAt(s, i);
      RemoveAtKeepsDistinct(s, i);
    } else {
      WithoutAbsent(s, name);
    }
  }
}
