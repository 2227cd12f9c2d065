/**
 Ordering of a collision pack before elimination: items with the
 greatest `(rank, id)` pair come first.
 */
module PackSort {
  import opened Grouping

  /** `a` comes no later than `b`: `(a.rank, a.id)` is lexicographically
      at least `(b.rank, b.id)`. */
  predicate Above(a: Item, b: Item)
  {
    a.rank > b.rank || (a.rank == b.rank && a.id >= b.id)
  }

  /** Non-increasing in `(rank, id)`. */
  ghost predicate SortedDesc(s: seq<Item>)
  {
    forall i, j :: 0 <= i < j < |s| ==> Above(s[i], s[j])
  }

  /** Insert `x` into a sorted sequence, before the first item it is above. */
  function InsertDesc(x: Item, s: seq<Item>): (r: seq<Item>)
    requires SortedDesc(s)
    ensures SortedDesc(r)
    ensures multiset(r) == multiset(s) + multiset{x}
    ensures r[0] == x || r[0] == s[0]
    decreases |s|
  {
    if |s| == 0 then [x]
    else if Above(x, s[0]) then ConsSorted(x, s); [x] + s
    else
      var tail := InsertDesc(x, s[1..]);
      assert s == [s[0]] + s[1..];
      ConsSorted(s[0], tail);
      [s[0]] + tail
  }

  /** An item above the head of a sorted sequence can be put in front of it. */
  lemma ConsSorted(y: Item, t: seq<Item>)
    requires SortedDesc(t) && (|t| > 0 ==> Above(y, t[0]))
    ensures SortedDesc([y] + t)
  {
  }

  /** The pack in non-increasing `(rank, id)` order: a permutation of it. */
  function SortPack(pack: seq<Item>): (r: seq<Item>)
    ensures SortedDesc(r)
    ensures multiset(r) == multiset(pack)
    decreases |pack|
  {
    if |pack| == 0 then []
    else
      assert pack == [pack[0]] + pack[1..];
      InsertDesc(pack[0], SortPack(pack[1..]))
  }

  /** After sorting, the first item is above every item of the pack. */
  lemma SortedHeadIsMaximum(pack: seq<Item>)
    requires |pack| > 0
    ensures |SortPack(pack)| == |pack|
    ensures forall x :: x in pack ==> Above(SortPack(pack)[0], x)
  {
    var s := SortPack(pack);
    assert |s| == |multiset(s)| == |multiset(pack)| == |pack|;
    forall x | x in pack
      ensures Above(s[0], x)
    {
      assert x in multiset(pack);
      assert x in s;
      var j :| 0 <= j < |s| && s[j] == x;
      if j > 0 {
        assert Above(s[0], s[j]);
      }
    }
  }
}
