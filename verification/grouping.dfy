/**
 Hash rows read back from the database, and their grouping into
 collision packs: maximal runs of consecutive rows with the same hash,
 of which only the runs holding at least two rows are kept.
 */
module Grouping {
  import opened Addresses
  import opened Seqs

  /** One row of the sorted hash table: an address, its rank, its row id
      and one of its hashes. The rank stands for the source's float rank. */
  datatype Item = Item(hash: int, rank: int, id: int, address: Address)

  /** All items of `run` carry the hash of its first item. */
  predicate SameHash(run: seq<Item>)
  {
    forall i :: 0 <= i < |run| ==> run[i].hash == run[0].hash
  }

  /** Items are in non-decreasing hash order, as the database returns them. */
  ghost predicate SortedByHash(s: seq<Item>)
  {
    forall i, j :: 0 <= i < j < |s| ==> s[i].hash <= s[j].hash
  }

  /** Group consecutive items with equal hashes, as `group_by` does. */
  function Runs(s: seq<Item>): (r: seq<seq<Item>>)
    ensures forall i :: 0 <= i < |r| ==> |r[i]| >= 1
    ensures |s| > 0 ==> |r| > 0 && r[0][0] == s[0]
    decreases |s|
  {
    if |s| == 0 then []
    else
      var rest := Runs(s[1..]);
      if |rest| > 0 && rest[0][0].hash == s[0].hash then
        [[s[0]] + rest[0]] + rest[1..]
      else
        [[s[0]]] + rest
  }

  /** One step of `Runs`: the first item either joins the first run of
      the rest or opens a run of its own. */
  lemma RunsStep(s: seq<Item>)
    requires |s| > 0
    ensures var rest := Runs(s[1..]);
      if |rest| > 0 && rest[0][0].hash == s[0].hash
      then Runs(s) == [[s[0]] + rest[0]] + rest[1..]
      else Runs(s) == [[s[0]]] + rest
  {
  }

  /** The runs partition the input: concatenated, they give it back. */
  lemma {:induction false} RunsFlatten(s: seq<Item>)
    ensures Flatten(Runs(s)) == s
    decreases |s|
  {
    if |s| > 0 {
      var rest: seq<seq<Item>> := Runs(s[1..]);
      RunsFlatten(s[1..]);
      RunsStep(s);
      assert s == [s[0]] + s[1..];
      if |rest| > 0 && rest[0][0].hash == s[0].hash {
        var r: seq<seq<Item>> := Runs(s);
        assert Flatten(rest) == rest[0] + Flatten(rest[1..]);
        assert r[1..] == rest[1..];
      } else {
        var r: seq<seq<Item>> := Runs(s);
        assert r[1..] == rest;
      }
    }
  }

  /** Each run holds a single hash, and neighbouring runs hold different
      hashes. */
  ghost predicate Maximal(r: seq<seq<Item>>)
  {
    && (forall i :: 0 <= i < |r| ==> |r[i]| > 0 && SameHash(r[i]))
    && (forall i, j :: 0 <= i < |r| && j == i + 1 < |r| ==> r[i][0].hash != r[j][0].hash)
  }

  /** Putting an item in front of maximal runs, joining the first run
      exactly when it shares its hash, keeps the runs maximal. */
  lemma ConsKeepsMaximal(x: Item, rest: seq<seq<Item>>, r: seq<seq<Item>>)
    requires Maximal(rest)
    requires r == if |rest| > 0 && rest[0][0].hash == x.hash then [[x] + rest[0]] + rest[1..] else [[x]] + rest
    ensures Maximal(r)
  {
  }

  /** The runs are maximal. */
  lemma {:induction false} RunsAreMaximal(s: seq<Item>)
    ensures forall i :: 0 <= i < |Runs(s)| ==> SameHash(Runs(s)[i])
    ensures forall i, j :: 0 <= i < |Runs(s)| && j == i + 1 < |Runs(s)| ==> Runs(s)[i][0].hash != Runs(s)[j][0].hash
    decreases |s|
  {
    if |s| > 0 {
      RunsAreMaximal(s[1..]);
      assert Maximal(Runs(s[1..]));
      RunsStep(s);
      ConsKeepsMaximal(s[0], Runs(s[1..]), Runs(s));
    }
  }

  /** Collision packs: the runs of length at least two. */
  function Packs(s: seq<Item>): (r: seq<seq<Item>>)
    ensures forall i :: 0 <= i < |r| ==> |r[i]| >= 2 && SameHash(r[i])
    ensures forall i :: 0 <= i < |r| ==> r[i] in Runs(s)
  {
    RunsAreMaximal(s);
    Filter(Runs(s), (run: seq<Item>) => |run| >= 2)
  }

  /** The first item of a hash-sorted sequence has the smallest hash. */
  lemma SortedFirstIsLeast(s: seq<Item>, x: Item)
    requires SortedByHash(s) && x in s
    ensures s[0].hash <= x.hash
  {
  }

  /** Every run head is an item of the input. */
  lemma RunHeadsFromInput(s: seq<Item>)
    ensures forall k :: 0 <= k < |Runs(s)| ==> Runs(s)[k][0] in s
  {
  }

  /** On hash-sorted input every run head after the first has a larger
      hash than the first item. */
  lemma SortedRunHeadsAbove(s: seq<Item>)
    requires |s| > 0 && SortedByHash(s)
    ensures forall k :: 0 <= k < |Runs(s[1..])| ==> s[0].hash <= Runs(s[1..])[k][0].hash
  {
    var rest: seq<seq<Item>> := Runs(s[1..]);
    RunHeadsFromInput(s[1..]);
    forall k | 0 <= k < |rest|
      ensures s[0].hash <= rest[k][0].hash
    {
      assert rest[k][0] in s;
      SortedFirstIsLeast(s, rest[k][0]);
    }
  }

  /** Run heads strictly increase in hash. */
  ghost predicate HeadsIncrease(r: seq<seq<Item>>)
  {
    forall i, j :: 0 <= i < j < |r| ==> |r[i]| > 0 && |r[j]| > 0 && r[i][0].hash < r[j][0].hash
  }

  /** Putting an item no larger than every head in front of increasing
      runs keeps the heads increasing, whether it joins the first run or
      opens its own. */
  lemma ConsKeepsHeadsIncreasing(x: Item, rest: seq<seq<Item>>, r: seq<seq<Item>>)
    requires HeadsIncrease(rest)
    requires forall k :: 0 <= k < |rest| ==> |rest[k]| > 0 && x.hash <= rest[k][0].hash
    requires r == if |rest| > 0 && rest[0][0].hash == x.hash then [[x] + rest[0]] + rest[1..] else [[x]] + rest
    ensures HeadsIncrease(r)
  {
  }

  /** On hash-sorted input the run heads strictly increase in hash, so no
      hash is split over two runs. */
  lemma {:induction false} RunHeadsIncrease(s: seq<Item>)
    requires SortedByHash(s)
    ensures forall i, j :: 0 <= i < j < |Runs(s)| ==> Runs(s)[i][0].hash < Runs(s)[j][0].hash
    decreases |s|
  {
    if |s| > 0 {
      var rest: seq<seq<Item>> := Runs(s[1..]);
      assert SortedByHash(s[1..]);
      RunHeadsIncrease(s[1..]);
      assert HeadsIncrease(rest);
      SortedRunHeadsAbove(s);
      RunsStep(s);
      ConsKeepsHeadsIncreasing(s[0], rest, Runs(s));
    }
  }

  /** On hash-sorted input a run collects every item of its hash. */
  lemma {:induction false} RunCollectsItsHash(s: seq<Item>, k: nat, x: Item)
    requires SortedByHash(s)
    requires k < |Runs(s)| && x in s && x.hash == Runs(s)[k][0].hash
    ensures x in Runs(s)[k]
    decreases |s|
  {
    var rest: seq<seq<Item>> := Runs(s[1..]);
    var r: seq<seq<Item>> := Runs(s);
    RunsStep(s);
    RunHeadsIncrease(s);
    assert SortedByHash(s[1..]);
    assert s == [s[0]] + s[1..];
    if x != s[0] {
      assert x in s[1..];
    }
    if |rest| > 0 && rest[0][0].hash == s[0].hash {
      if k > 0 {
        assert r[k] == rest[k];
        assert r[0][0].hash < r[k][0].hash;
        RunCollectsItsHash(s[1..], k, x);
      } else if x != s[0] {
        RunCollectsItsHash(s[1..], 0, x);
      }
    } else {
      if k > 0 {
        assert r[k] == rest[k - 1];
        assert r[0][0].hash < r[k][0].hash;
        RunCollectsItsHash(s[1..], k - 1, x);
      } else if x != s[0] {
        SortedFirstIsLeast(s[1..], x);
        assert false;
      }
    }
  }

  /** Two distinct items that collide on a hash of a hash-sorted stream
      end up in one and the same pack. */
  lemma CollidingItemsShareAPack(s: seq<Item>, x: Item, y: Item)
    requires SortedByHash(s)
    requires x in s && y in s && x != y && x.hash == y.hash
    ensures exists p :: p in Packs(s) && x in p && y in p
  {
    var r: seq<seq<Item>> := Runs(s);
    RunsFlatten(s);
    RunsAreMaximal(s);
    FlattenMember(r, x);
    var k :| 0 <= k < |r| && x in r[k];
    assert x.hash == r[k][0].hash;
    RunCollectsItsHash(s, k, y);
    assert |r[k]| >= 2;
    assert r[k] in Packs(s);
  }
}
