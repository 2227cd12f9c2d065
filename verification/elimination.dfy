/**
 Greedy elimination of false collisions inside one pack. The pack is
 sorted by `(rank, id)`, highest first; its head is kept; every later
 item is deleted when it is a duplicate of an item kept so far and kept
 otherwise. `isDup(item, kept)` is the external duplicate test, used
 with the candidate as first argument and not assumed symmetric.
 */
module Elimination {
  import opened Addresses
  import opened Seqs
  import opened Grouping
  import opened PackSort

  /** Packs longer than this are skipped without any deletion. */
  const MaxPackLength: nat := 5000

  /** Reference definition of the greedy choice over a sorted pack `s`:
      `m[j]` says that `s[j]` is deleted, which happens exactly when some
      earlier kept item makes it a duplicate. In particular `s[0]` is kept. */
  ghost predicate GreedyMarks(isDup: (Address, Address) -> bool, s: seq<Item>, m: seq<bool>)
  {
    && |m| == |s|
    && forall j :: 0 <= j < |s| ==> MarkedAt(isDup, s, m, j)
  }

  /** The reference definition at position `j`. */
  ghost predicate MarkedAt(isDup: (Address, Address) -> bool, s: seq<Item>, m: seq<bool>, j: int)
  {
    && 0 <= j < |s| && j < |m|
    && (m[j] <==> exists k :: 0 <= k < j && !m[k] && isDup(s[j].address, s[k].address))
  }

  /** Deletion marks of the greedy scan, decided item after item. */
  function DeletionMarks(isDup: (Address, Address) -> bool, s: seq<Item>): (m: seq<bool>)
    ensures |m| == |s|
    ensures |s| > 0 ==> !m[0]
    decreases |s|
  {
    if |s| == 0 then []
    else
      var n := |s| - 1;
      var prev := DeletionMarks(isDup, s[..n]);
      prev + [exists k | 0 <= k < n :: !prev[k] && isDup(s[n].address, s[k].address)]
  }

  /** The scan computes the reference definition. */
  lemma {:induction false} DeletionMarksAreGreedy(isDup: (Address, Address) -> bool, s: seq<Item>)
    ensures GreedyMarks(isDup, s, DeletionMarks(isDup, s))
    decreases |s|
  {
    if |s| > 0 {
      var n := |s| - 1;
      var prev := DeletionMarks(isDup, s[..n]);
      var m := DeletionMarks(isDup, s);
      DeletionMarksAreGreedy(isDup, s[..n]);
      assert m == prev + [m[n]];
      forall j | 0 <= j < |s|
        ensures MarkedAt(isDup, s, m, j)
      {
        if j < n {
          assert MarkedAt(isDup, s[..n], prev, j);
          assert m[j] == prev[j] && s[j] == s[..n][j];
          assert forall k :: 0 <= k < j ==> m[k] == prev[k] && s[k] == s[..n][k];
        } else {
          assert forall k :: 0 <= k < n ==> m[k] == prev[k];
        }
      }
    }
  }

  /** The greedy choice is determined by the pack: two mark sequences that
      both satisfy the reference definition are equal. */
  lemma GreedyMarksUnique(isDup: (Address, Address) -> bool, s: seq<Item>, m1: seq<bool>, m2: seq<bool>)
    requires GreedyMarks(isDup, s, m1) && GreedyMarks(isDup, s, m2)
    ensures m1 == m2
  {
    var j := 0;
    while j < |s|
      invariant 0 <= j <= |s|
      invariant m1[..j] == m2[..j]
    {
      assert MarkedAt(isDup, s, m1, j) && MarkedAt(isDup, s, m2, j);
      assert forall k :: 0 <= k < j ==> m1[k] == m2[k] by {
        forall k | 0 <= k < j
          ensures m1[k] == m2[k]
        {
          assert m1[..j][k] == m1[k] && m2[..j][k] == m2[k];
        }
      }
      j := j + 1;
    }
    assert m1 == m1[..|s|] && m2 == m2[..|s|];
  }

  /** Any mark sequence meeting the reference definition is the scan's. */
  lemma GreedyChoiceIsTheScan(isDup: (Address, Address) -> bool, s: seq<Item>, m: seq<bool>)
    requires GreedyMarks(isDup, s, m)
    ensures m == DeletionMarks(isDup, s)
  {
    DeletionMarksAreGreedy(isDup, s);
    GreedyMarksUnique(isDup, s, m, DeletionMarks(isDup, s));
  }

  /** The reference definition restricted to a prefix of the pack. */
  lemma GreedyMarksPrefix(isDup: (Address, Address) -> bool, s: seq<Item>, m: seq<bool>, i: nat)
    requires GreedyMarks(isDup, s, m) && i <= |s|
    ensures GreedyMarks(isDup, s[..i], m[..i])
  {
    forall j | 0 <= j < i
      ensures MarkedAt(isDup, s[..i], m[..i], j)
    {
      assert MarkedAt(isDup, s, m, j);
      if m[j] {
        var k :| 0 <= k < j && !m[k] && isDup(s[j].address, s[k].address);
        assert !m[..i][k] && s[..i][k] == s[k];
      }
    }
  }

  /** `is_duplicate(item, kept)` for some kept item, as `any` computes it. */
  function AnyDuplicate(isDup: (Address, Address) -> bool, item: Item, kept: seq<Item>): (r: bool)
    ensures r <==> exists k :: 0 <= k < |kept| && isDup(item.address, kept[k].address)
    decreases |kept|
  {
    if |kept| == 0 then false
    else if isDup(item.address, kept[0].address) then true
    else
      var r := AnyDuplicate(isDup, item, kept[1..]);
      assert forall k :: 1 <= k < |kept| ==> kept[k] == kept[1..][k - 1];
      r
  }

  /** Testing an item against the kept items of a prefix is testing it
      against the unmarked positions of that prefix. */
  lemma AnyDuplicateOfSelected(isDup: (Address, Address) -> bool, item: Item, s: seq<Item>, m: seq<bool>)
    requires |m| == |s|
    ensures AnyDuplicate(isDup, item, Select(s, m, false))
        <==> exists k :: 0 <= k < |s| && !m[k] && isDup(item.address, s[k].address)
  {
    var kept := Select(s, m, false);
    if AnyDuplicate(isDup, item, kept) {
      var k0 :| 0 <= k0 < |kept| && isDup(item.address, kept[k0].address);
      SelectMember(s, m, false, kept[k0]);
    }
    if exists k :: 0 <= k < |s| && !m[k] && isDup(item.address, s[k].address) {
      var k :| 0 <= k < |s| && !m[k] && isDup(item.address, s[k].address);
      SelectMember(s, m, false, s[k]);
      var k0 :| 0 <= k0 < |kept| && kept[k0] == s[k];
    }
  }

  /** One more step of the scan: the next item is marked exactly when it
      duplicates an item kept so far. */
  lemma DeletionMarksSnoc(isDup: (Address, Address) -> bool, p: seq<Item>, x: Item)
    ensures DeletionMarks(isDup, p + [x])
         == DeletionMarks(isDup, p) + [AnyDuplicate(isDup, x, Select(p, DeletionMarks(isDup, p), false))]
  {
    var t := p + [x];
    assert t[..|p|] == p;
    var m := DeletionMarks(isDup, p);
    AnyDuplicateOfSelected(isDup, x, p, m);
    assert (exists k | 0 <= k < |p| :: !m[k] && isDup(t[|p|].address, t[k].address))
       <==> (exists k :: 0 <= k < |p| && !m[k] && isDup(x.address, p[k].address)) by {
      assert forall k :: 0 <= k < |p| ==> t[k] == p[k];
    }
  }

  /** `kept` and `deleted` are the greedy choice over the prefix `p`. */
  ghost predicate ScanState(isDup: (Address, Address) -> bool, p: seq<Item>, kept: seq<Item>, deleted: seq<Item>)
  {
    && kept == Select(p, DeletionMarks(isDup, p), false)
    && deleted == Select(p, DeletionMarks(isDup, p), true)
  }

  /** One iteration of the elimination loop over a prefix `p`: the next
      item `x` joins exactly one of the kept and deleted items, the
      deleted ones when it duplicates a kept item (`d`). */
  lemma ScanStep(isDup: (Address, Address) -> bool, p: seq<Item>, x: Item, kept: seq<Item>, deleted: seq<Item>, d: bool)
    requires ScanState(isDup, p, kept, deleted)
    requires d == AnyDuplicate(isDup, x, kept)
    ensures d ==> ScanState(isDup, p + [x], kept, deleted + [x])
    ensures !d ==> ScanState(isDup, p + [x], kept + [x], deleted)
  {
    var m := DeletionMarks(isDup, p);
    DeletionMarksSnoc(isDup, p, x);
    SelectSnoc(p, m, x, d, false);
    SelectSnoc(p, m, x, d, true);
  }

  /** The elimination loop over a sorted pack: `kept` starts with the head
      and each later item is either sent for deletion or appended to
      `kept`. The result is the greedy choice of the reference definition. */
  method Eliminate(isDup: (Address, Address) -> bool, s: seq<Item>) returns (kept: seq<Item>, deleted: seq<Item>)
    requires |s| >= 1
    ensures kept == Select(s, DeletionMarks(isDup, s), false)
    ensures deleted == Select(s, DeletionMarks(isDup, s), true)
  {
    assert s[..1] == [] + [s[0]];
    ScanStep(isDup, [], s[0], [], [], false);
    kept := [s[0]];
    deleted := [];
    var i := 1;
    while i < |s|
      invariant 1 <= i <= |s|
      invariant ScanState(isDup, s[..i], kept, deleted)
    {
      var item := s[i];
      var isDuplicate := AnyDuplicate(isDup, item, kept);
      ScanStep(isDup, s[..i], item, kept, deleted, isDuplicate);
      assert s[..i + 1] == s[..i] + [item];
      if isDuplicate {
        deleted := deleted + [item];
      } else {
        kept := kept + [item];
      }
      i := i + 1;
    }
    assert s[..i] == s;
  }

  /** Under the greedy choice the head of the pack is the first kept item. */
  lemma {:induction false} GreedyHeadKept(isDup: (Address, Address) -> bool, s: seq<Item>, m: seq<bool>)
    requires GreedyMarks(isDup, s, m) && |s| > 0
    ensures |Select(s, m, false)| > 0 && Select(s, m, false)[0] == s[0]
    decreases |s|
  {
    var n := |s| - 1;
    assert s == s[..n] + [s[n]] && m == m[..n] + [m[n]];
    SelectSnoc(s[..n], m[..n], s[n], m[n], false);
    if n > 0 {
      GreedyMarksPrefix(isDup, s, m, n);
      GreedyHeadKept(isDup, s[..n], m[..n]);
    } else {
      assert MarkedAt(isDup, s, m, 0);
    }
  }

  /** Under the greedy choice every kept item is no duplicate of any item
      kept before it. */
  lemma {:induction false} GreedyKeptIndependent(isDup: (Address, Address) -> bool, s: seq<Item>, m: seq<bool>)
    requires GreedyMarks(isDup, s, m)
    ensures var kept := Select(s, m, false);
      forall a, b :: 0 <= a < b < |kept| ==> !isDup(kept[b].address, kept[a].address)
    decreases |s|
  {
    if |s| > 0 {
      var n := |s| - 1;
      var kept := Select(s, m, false);
      var prev := Select(s[..n], m[..n], false);
      assert s == s[..n] + [s[n]] && m == m[..n] + [m[n]];
      SelectSnoc(s[..n], m[..n], s[n], m[n], false);
      GreedyMarksPrefix(isDup, s, m, n);
      GreedyKeptIndependent(isDup, s[..n], m[..n]);
      forall a, b | 0 <= a < b < |kept|
        ensures !isDup(kept[b].address, kept[a].address)
      {
        if b == |prev| {
          assert MarkedAt(isDup, s, m, n);
          assert kept[b] == s[n] && kept[a] == prev[a];
          SelectMember(s[..n], m[..n], false, prev[a]);
          var k :| 0 <= k < n && !m[..n][k] && s[..n][k] == prev[a];
          assert !m[k] && s[k] == prev[a];
        } else {
          assert kept[b] == prev[b] && kept[a] == prev[a];
        }
      }
    }
  }

  /** `d` is deleted with good reason: some item of `kept` is above it and
      `d` is a duplicate of that item. */
  ghost predicate HasWitness(isDup: (Address, Address) -> bool, kept: seq<Item>, d: Item)
  {
    exists w :: w in kept && Above(w, d) && isDup(d.address, w.address)
  }

  /** Under the greedy choice on a sorted pack every deleted item has a
      witness: a kept item above it of which it is a duplicate. */
  lemma GreedyDeletedWitness(isDup: (Address, Address) -> bool, s: seq<Item>, m: seq<bool>)
    requires GreedyMarks(isDup, s, m) && SortedDesc(s)
    ensures var kept := Select(s, m, false); var deleted := Select(s, m, true);
      forall j :: 0 <= j < |deleted| ==> HasWitness(isDup, kept, deleted[j])
  {
    var kept := Select(s, m, false);
    var deleted := Select(s, m, true);
    forall j | 0 <= j < |deleted|
      ensures HasWitness(isDup, kept, deleted[j])
    {
      SelectMember(s, m, true, deleted[j]);
      var p :| 0 <= p < |s| && m[p] && s[p] == deleted[j];
      assert MarkedAt(isDup, s, m, p);
      var k :| 0 <= k < p && !m[k] && isDup(s[p].address, s[k].address);
      SelectMember(s, m, false, s[k]);
      assert Above(s[k], s[p]);
    }
  }

  /** What a worker does with one pack. */
  datatype PackResult = Skipped | Processed(kept: seq<Item>, deleted: seq<Item>)

  /** Handle one pack: skip it when too long, otherwise sort it and run the
      greedy elimination over it. */
  function ProcessPack(isDup: (Address, Address) -> bool, pack: seq<Item>): (r: PackResult)
    requires |pack| >= 1
    ensures r.Skipped? <==> |pack| > MaxPackLength
    ensures r.Processed? ==> Interleave(SortPack(pack), r.kept, r.deleted)
    ensures r.Processed? ==> |r.kept| >= 1 && forall x :: x in pack ==> Above(r.kept[0], x)
  {
    if |pack| > MaxPackLength then Skipped
    else
      var s := SortPack(pack);
      var m := DeletionMarks(isDup, s);
      DeletionMarksAreGreedy(isDup, s);
      SelectInterleave(s, m);
      InterleaveCounts(s, Select(s, m, false), Select(s, m, true));
      SortedHeadIsMaximum(pack);
      GreedyHeadKept(isDup, s, m);
      Processed(Select(s, m, false), Select(s, m, true))
  }

  /** A processed pack loses no item and gains none: |kept| + |deleted| is
      the size of the pack. */
  lemma ProcessedSizes(isDup: (Address, Address) -> bool, pack: seq<Item>)
    requires |pack| >= 1
    ensures var r := ProcessPack(isDup, pack);
      r.Processed? ==> |r.kept| + |r.deleted| == |pack|
  {
    var r := ProcessPack(isDup, pack);
    if r.Processed? {
      InterleaveCounts(SortPack(pack), r.kept, r.deleted);
      SortedHeadIsMaximum(pack);
    }
  }

  /** Every item of a processed pack is either kept or deleted, never both:
      the two lists together hold exactly the items of the pack. */
  lemma ProcessedPartition(isDup: (Address, Address) -> bool, pack: seq<Item>)
    requires |pack| >= 1
    ensures var r := ProcessPack(isDup, pack);
      r.Processed? ==> multiset(r.kept) + multiset(r.deleted) == multiset(pack)
  {
    var r := ProcessPack(isDup, pack);
    if r.Processed? {
      InterleaveCounts(SortPack(pack), r.kept, r.deleted);
      SortedHeadIsMaximum(pack);
    }
  }

  /** Every item a processed pack deletes has a kept witness above it. */
  lemma DeletedHaveWitness(isDup: (Address, Address) -> bool, pack: seq<Item>)
    requires |pack| >= 1
    ensures var r := ProcessPack(isDup, pack);
      r.Processed? ==>
        forall j :: 0 <= j < |r.deleted| ==> HasWitness(isDup, r.kept, r.deleted[j])
  {
    if |pack| <= MaxPackLength {
      var s := SortPack(pack);
      var m := DeletionMarks(isDup, s);
      assert ProcessPack(isDup, pack) == Processed(Select(s, m, false), Select(s, m, true));
      DeletionMarksAreGreedy(isDup, s);
      GreedyDeletedWitness(isDup, s, m);
    }
  }

  /** No kept item of a processed pack is a duplicate of a kept item
      before it. */
  lemma KeptAreIndependent(isDup: (Address, Address) -> bool, pack: seq<Item>)
    requires |pack| >= 1
    ensures var r := ProcessPack(isDup, pack);
      r.Processed? ==>
        forall a, b :: 0 <= a < b < |r.kept| ==> !isDup(r.kept[b].address, r.kept[a].address)
  {
    if |pack| <= MaxPackLength {
      var s := SortPack(pack);
      var m := DeletionMarks(isDup, s);
      assert ProcessPack(isDup, pack) == Processed(Select(s, m, false), Select(s, m, true));
      DeletionMarksAreGreedy(isDup, s);
      GreedyKeptIndependent(isDup, s, m);
    }
  }
}
