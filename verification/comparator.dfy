/**
 The tree comparator: cmp_hashlist keeps, in order, the records of the left
 hash list whose hash occurs nowhere in the right hash list. Paths play no part
 in the comparison. Called twice with the arguments swapped it gives the
 left_only and right_only tables.
 */
module Comparator {
  import opened Records

  /** The records of `left`, in order, whose hash is not among the hashes of `right`. */
  function OnlyIn(left: seq<FileRecord>, right: seq<FileRecord>): seq<FileRecord>
  {
    if left == [] then []
    else
      var last := left[|left| - 1];
      OnlyIn(left[..|left| - 1], right) + if last.hash in Hashes(right) then [] else [last]
  }

  /** cmp_hashlist(left_hashlist, right_hashlist). */
  method CmpHashlist(left: seq<FileRecord>, right: seq<FileRecord>) returns (leftOnly: seq<FileRecord>)
    ensures leftOnly == OnlyIn(left, right)
  {
    leftOnly := [];
    var rightHashes := Hashes(right);
    var k := 0;
    while k < |left|
      invariant 0 <= k <= |left|
      invariant leftOnly == OnlyIn(left[..k], right)
    {
      assert left[..k + 1][..k] == left[..k];
      if left[k].hash !in rightHashes {
        leftOnly := leftOnly + [left[k]];
      }
      k := k + 1;
    }
    assert left[..k] == left;
  }

  /** A record is reported exactly when it is in `left` and its hash is absent from `right`. */
  lemma {:induction false} OnlyInMember(left: seq<FileRecord>, right: seq<FileRecord>, x: FileRecord)
    ensures x in OnlyIn(left, right) <==> x in left && x.hash !in Hashes(right)
    decreases |left|
  {
    if left != [] {
      var init := left[..|left| - 1];
      OnlyInMember(init, right, x);
      assert left == init + [left[|left| - 1]];
    }
  }

  /** The result keeps the order of `left`: it distributes over a split of `left`. */
  lemma {:induction false} OnlyInAppend(a: seq<FileRecord>, b: seq<FileRecord>, right: seq<FileRecord>)
    ensures OnlyIn(a + b, right) == OnlyIn(a, right) + OnlyIn(b, right)
    decreases |b|
  {
    if b == [] {
      assert a + b == a;
    } else {
      var binit := b[..|b| - 1];
      assert (a + b)[..|a + b| - 1] == a + binit;
      assert (a + b)[|a + b| - 1] == b[|b| - 1];
      OnlyInAppend(a, binit, right);
    }
  }

  /** The result is never longer than `left`. */
  lemma {:induction false} OnlyInLength(left: seq<FileRecord>, right: seq<FileRecord>)
    ensures |OnlyIn(left, right)| <= |left|
    decreases |left|
  {
    if left != [] {
      OnlyInLength(left[..|left| - 1], right);
    }
  }

  /** Against an empty right list every left record is reported. */
  lemma {:induction false} OnlyInEmptyRight(left: seq<FileRecord>)
    ensures OnlyIn(left, []) == left
    decreases |left|
  {
    if left != [] {
      OnlyInEmptyRight(left[..|left| - 1]);
      assert left == left[..|left| - 1] + [left[|left| - 1]];
    }
  }

  /** A hash list compared with itself reports nothing. */
  lemma {:induction false} OnlyInSelf(records: seq<FileRecord>)
    ensures OnlyIn(records, records) == []
  {
    var r := OnlyIn(records, records);
    if r != [] {
      OnlyInMember(records, records, r[0]);
      assert false;
    }
  }

  /**
   Left holds a.txt and b.txt of different contents, right holds a copy of
   a.txt only: left_only is b.txt's record and right_only is empty.
   */
  lemma {:induction false} TwoTreeScenario(a: FileRecord, b: FileRecord, a2: FileRecord)
    requires a.hash == a2.hash && a.hash != b.hash
    ensures OnlyIn([a, b], [a2]) == [b]
    ensures OnlyIn([a2], [a, b]) == []
  {
    assert Hashes([a2]) == [a2.hash];
    assert Hashes([a, b]) == [a.hash, b.hash];
    assert [a, b][..1] == [a];
    assert [a][..0] == [];
    assert [a2][..0] == [];
    assert OnlyIn([a], [a2]) == [];
    assert OnlyIn([a, b], [a2]) == OnlyIn([a], [a2]) + [b];
  }
}
