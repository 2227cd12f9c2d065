/**
 Generic facts about sequences used by both importers: filtering,
 flattening, selecting by a mark sequence, and order-preserving splits
 of one sequence into two.
 */
module Seqs {

  /** `s` is split into `a` and `b`: every element of `s` goes to exactly
      one of the two, and both keep the order the elements had in `s`. */
  ghost predicate Interleave<T>(s: seq<T>, a: seq<T>, b: seq<T>)
    decreases |s|
  {
    if |s| == 0 then a == [] && b == []
    else
      (|a| > 0 && a[|a| - 1] == s[|s| - 1] && Interleave(s[..|s| - 1], a[..|a| - 1], b)) ||
      (|b| > 0 && b[|b| - 1] == s[|s| - 1] && Interleave(s[..|s| - 1], a, b[..|b| - 1]))
  }

  /** A split loses and duplicates nothing. */
  lemma {:induction false} InterleaveCounts<T>(s: seq<T>, a: seq<T>, b: seq<T>)
    requires Interleave(s, a, b)
    ensures |s| == |a| + |b|
    ensures multiset(s) == multiset(a) + multiset(b)
    decreases |s|
  {
    if |s| > 0 {
      var n := |s| - 1;
      assert s == s[..n] + [s[n]];
      if |a| > 0 && a[|a| - 1] == s[n] && Interleave(s[..n], a[..|a| - 1], b) {
        InterleaveCounts(s[..n], a[..|a| - 1], b);
        assert a == a[..|a| - 1] + [a[|a| - 1]];
      } else {
        InterleaveCounts(s[..n], a, b[..|b| - 1]);
        assert b == b[..|b| - 1] + [b[|b| - 1]];
      }
    }
  }

  /** Every element of a split sequence lands in one of the two parts. */
  lemma InterleaveMember<T>(s: seq<T>, a: seq<T>, b: seq<T>, x: T)
    requires Interleave(s, a, b)
    requires x in s
    ensures x in a || x in b
  {
    InterleaveCounts(s, a, b);
    assert x in multiset(s);
  }

  /** Splits of consecutive pieces concatenate into a split of the whole. */
  lemma {:induction false} InterleaveAppend<T>(s1: seq<T>, a1: seq<T>, b1: seq<T>, s2: seq<T>, a2: seq<T>, b2: seq<T>)
    requires Interleave(s1, a1, b1)
    requires Interleave(s2, a2, b2)
    ensures Interleave(s1 + s2, a1 + a2, b1 + b2)
    decreases |s2|
  {
    if |s2| == 0 {
      assert s1 + s2 == s1 && a1 + a2 == a1 && b1 + b2 == b1;
    } else {
      var s := s1 + s2;
      var n2 := |s2| - 1;
      assert s[..|s| - 1] == s1 + s2[..n2];
      if |a2| > 0 && a2[|a2| - 1] == s2[n2] && Interleave(s2[..n2], a2[..|a2| - 1], b2) {
        InterleaveAppend(s1, a1, b1, s2[..n2], a2[..|a2| - 1], b2);
        var a := a1 + a2;
        assert a[..|a| - 1] == a1 + a2[..|a2| - 1];
      } else {
        InterleaveAppend(s1, a1, b1, s2[..n2], a2, b2[..|b2| - 1]);
        var b := b1 + b2;
        assert b[..|b| - 1] == b1 + b2[..|b2| - 1];
      }
    }
  }

  /** Elements of `s` whose mark equals `b`, in order. */
  function Select<T>(s: seq<T>, marks: seq<bool>, b: bool): seq<T>
    requires |marks| == |s|
    decreases |s|
  {
    if |s| == 0 then []
    else
      var n := |s| - 1;
      Select(s[..n], marks[..n], b) + (if marks[n] == b then [s[n]] else [])
  }

  /** Selecting both ways splits `s`. */
  lemma {:induction false} SelectInterleave<T>(s: seq<T>, marks: seq<bool>)
    requires |marks| == |s|
    ensures Interleave(s, Select(s, marks, false), Select(s, marks, true))
    decreases |s|
  {
    if |s| > 0 {
      var n := |s| - 1;
      SelectInterleave(s[..n], marks[..n]);
      var a := Select(s, marks, false);
      var b := Select(s, marks, true);
      if marks[n] {
        assert a == Select(s[..n], marks[..n], false);
        assert b[..|b| - 1] == Select(s[..n], marks[..n], true);
      } else {
        assert b == Select(s[..n], marks[..n], true);
        assert a[..|a| - 1] == Select(s[..n], marks[..n], false);
      }
    }
  }

  /** An element is selected exactly when some position holding it carries the mark. */
  lemma {:induction false} SelectMember<T>(s: seq<T>, marks: seq<bool>, b: bool, x: T)
    requires |marks| == |s|
    ensures x in Select(s, marks, b) <==> exists k :: 0 <= k < |s| && marks[k] == b && s[k] == x
    decreases |s|
  {
    if |s| > 0 {
      var n := |s| - 1;
      SelectMember(s[..n], marks[..n], b, x);
      if x in Select(s, marks, b) && x !in Select(s[..n], marks[..n], b) {
        assert marks[n] == b && s[n] == x;
      }
    }
  }

  /** Selecting on a one-element extension adds at most that element. */
  lemma SelectSnoc<T>(s: seq<T>, marks: seq<bool>, x: T, mark: bool, b: bool)
    requires |marks| == |s|
    ensures Select(s + [x], marks + [mark], b) == Select(s, marks, b) + (if mark == b then [x] else [])
  {
    assert (s + [x])[..|s|] == s;
    assert (marks + [mark])[..|s|] == marks;
  }

  /** The elements of `s` satisfying `f`, in order. */
  function Filter<T>(s: seq<T>, f: T -> bool): (r: seq<T>)
    ensures |r| <= |s|
    ensures forall i :: 0 <= i < |r| ==> r[i] in s && f(r[i])
    ensures forall i :: 0 <= i < |s| && f(s[i]) ==> s[i] in r
    decreases |s|
  {
    if |s| == 0 then []
    else if f(s[0]) then [s[0]] + Filter(s[1..], f)
    else Filter(s[1..], f)
  }

  /** Prepending the same element to a split and to one of its parts
      gives a split. */
  lemma InterleaveCons<T>(x: T, s: seq<T>, a: seq<T>, b: seq<T>, left: bool)
    requires Interleave(s, a, b)
    ensures left ==> Interleave([x] + s, [x] + a, b)
    ensures !left ==> Interleave([x] + s, a, [x] + b)
  {
    assert [x][..0] == [];
    if left {
      assert Interleave([x], [x], []);
      InterleaveAppend([x], [x], [], s, a, b);
      assert [] + b == b;
    } else {
      assert Interleave([x], [], [x]);
      InterleaveAppend([x], [], [x], s, a, b);
      assert [] + a == a;
    }
  }

  /** Filtering keeps the order of what it keeps; together with its
      complement it splits the input. */
  lemma {:induction false} FilterInterleave<T>(s: seq<T>, f: T -> bool, g: T -> bool)
    requires forall x :: g(x) == !f(x)
    ensures Interleave(s, Filter(s, f), Filter(s, g))
    decreases |s|
  {
    if |s| > 0 {
      FilterInterleave(s[1..], f, g);
      assert [s[0]] + s[1..] == s;
      if f(s[0]) {
        assert Filter(s, f) == [s[0]] + Filter(s[1..], f);
        assert Filter(s, g) == Filter(s[1..], g);
        InterleaveCons(s[0], s[1..], Filter(s[1..], f), Filter(s[1..], g), true);
      } else {
        assert Filter(s, f) == Filter(s[1..], f);
        assert Filter(s, g) == [s[0]] + Filter(s[1..], g);
        InterleaveCons(s[0], s[1..], Filter(s[1..], f), Filter(s[1..], g), false);
      }
    }
  }

  /** The concatenation of all pieces. */
  function Flatten<T>(ss: seq<seq<T>>): seq<T>
    decreases |ss|
  {
    if |ss| == 0 then [] else ss[0] + Flatten(ss[1..])
  }

  /** Every element of a piece occurs in the flattened sequence, and conversely. */
  lemma {:induction false} FlattenMember<T>(ss: seq<seq<T>>, x: T)
    ensures x in Flatten(ss) <==> exists i :: 0 <= i < |ss| && x in ss[i]
    decreases |ss|
  {
    if |ss| > 0 {
      FlattenMember(ss[1..], x);
      if x in Flatten(ss[1..]) {
        var i :| 0 <= i < |ss[1..]| && x in ss[1..][i];
        assert x in ss[i + 1];
      }
      if exists i :: 0 <= i < |ss| && x in ss[i] {
        var i :| 0 <= i < |ss| && x in ss[i];
        if i > 0 {
          assert x in ss[1..][i - 1];
        }
      }
    }
  }
}
