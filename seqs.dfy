/** Sequence helpers shared by the abstract cache model and the linked implementation. */
module Seqs {

  /** No element occurs twice: the first one is not among the rest, and so on down the sequence. */
  predicate Distinct<T(==)>(s: seq<T>) {
    s == [] || (s[0] !in s[1..] && Distinct(s[1..]))
  }

  /** In a sequence without duplicates, every two positions hold different elements. */
  lemma {:induction false} DistinctApart<T>(s: seq<T>)
    requires Distinct(s)
    ensures forall i, j :: 0 <= i < j < |s| ==> s[i] != s[j]
  {
    if s != [] {
      var t := s[1..];
      DistinctApart(t);
      forall i, j | 0 <= i < j < |s| ensures s[i] != s[j] {
        if i == 0 { assert s[j] == t[j - 1]; } else { assert s[i] == t[i - 1] && s[j] == t[j - 1]; }
      }
    }
  }

  /** A sequence whose positions all hold different elements has no duplicates. */
  lemma {:induction false} ApartDistinct<T>(s: seq<T>)
    requires forall i, j :: 0 <= i < j < |s| ==> s[i] != s[j]
    ensures Distinct(s)
  {
    if s != [] {
      var t := s[1..];
      forall i, j | 0 <= i < j < |t| ensures t[i] != t[j] {
        assert t[i] == s[i + 1] && t[j] == s[j + 1];
      }
      ApartDistinct(t);
      forall j | 0 <= j < |t| ensures t[j] != s[0] {
        assert t[j] == s[j + 1];
      }
    }
  }

  /** A prefix of a sequence without duplicates has none either. */
  lemma DistinctTake<T>(s: seq<T>, n: nat)
    requires Distinct(s) && n <= |s|
    ensures Distinct(s[..n])
  {
    DistinctApart(s);
    ApartDistinct(s[..n]);
  }

  /**
    Cutting one position out of a sequence without duplicates leaves one without
    duplicates, and the element cut out occurs nowhere else.
  */
  lemma DistinctCut<T>(s: seq<T>, j: nat)
    requires Distinct(s) && j < |s|
    ensures Distinct(s[..j] + s[j + 1..])
    ensures forall k :: 0 <= k < |s| && k != j ==> s[k] != s[j]
  {
    DistinctApart(s);
    var t := s[..j] + s[j + 1..];
    forall a, b | 0 <= a < b < |t| ensures t[a] != t[b] {
      var a', b' := if a < j then a else a + 1, if b < j then b else b + 1;
      assert t[a] == s[a'] && t[b] == s[b'];
    }
    ApartDistinct(t);
  }

  /** Position of the first occurrence of `x` in `s`. */
  function IndexOf<T(==)>(s: seq<T>, x: T): (i: nat)
    requires x in s
    ensures i < |s| && s[i] == x
    ensures forall j :: 0 <= j < i ==> s[j] != x
  {
    if s[0] == x then 0 else 1 + IndexOf(s[1..], x)
  }

  /** `s` with every occurrence of `x` dropped, the rest in their original order. */
  function Remove(s: seq<int>, x: int): (r: seq<int>)
    ensures forall y :: y in r <==> y in s && y != x
    ensures x !in s ==> r == s
  {
    if s == [] then []
    else if s[0] == x then Remove(s[1..], x)
    else [s[0]] + Remove(s[1..], x)
  }

  /** Removing from a sequence without duplicates keeps it without duplicates, one shorter if `x` was there. */
  lemma {:induction false} RemoveDistinct(s: seq<int>, x: int)
    requires Distinct(s)
    ensures Distinct(Remove(s, x))
    ensures x in s ==> |Remove(s, x)| == |s| - 1
  {
    if s != [] {
      var t := s[1..];
      RemoveDistinct(t, x);
      if s[0] != x {
        var r := Remove(t, x);
        assert s[0] !in r;
        assert ([s[0]] + r)[1..] == r;
      }
    }
  }

  /** In a sequence without duplicates, removing the element at `i` is cutting out position `i`. */
  lemma {:induction false} RemoveAt(s: seq<int>, i: nat)
    requires Distinct(s) && i < |s|
    ensures Remove(s, s[i]) == s[..i] + s[i + 1..]
  {
    var t := s[1..];
    assert Distinct(t);
    if i == 0 {
      assert s[0] !in t;
      assert Remove(s, s[0]) == Remove(t, s[0]) == t;
      assert s[..0] + s[1..] == t;
    } else {
      assert s[0] != s[i];
      RemoveAt(t, i - 1);
      assert Remove(s, s[i]) == [s[0]] + Remove(t, t[i - 1]);
      assert [s[0]] + (t[..i - 1] + t[i..]) == s[..i] + s[i + 1..] by {
        assert [s[0]] + t[..i - 1] == s[..i];
        assert t[i..] == s[i + 1..];
      }
    }
  }

  /** Removing an element other than the last one leaves the last one last. */
  lemma RemoveKeepsLast(s: seq<int>, x: int)
    requires Distinct(s) && x in s && s[|s| - 1] != x
    ensures |Remove(s, x)| == |s| - 1 > 0
    ensures Remove(s, x)[|s| - 2] == s[|s| - 1]
  {
    var i := IndexOf(s, x);
    RemoveAt(s, i);
    assert s[i + 1..][|s| - 2 - i] == s[|s| - 1];
  }

  /** `s` read back to front. */
  function Reverse<T>(s: seq<T>): (r: seq<T>)
    ensures |r| == |s|
    ensures forall i :: 0 <= i < |s| ==> r[i] == s[|s| - 1 - i]
  {
    if s == [] then [] else [s[|s| - 1]] + Reverse(s[..|s| - 1])
  }

  /** Reversal keeps the elements. */
  lemma ReverseMembers<T>(s: seq<T>, x: T)
    ensures x in Reverse(s) <==> x in s
  {
    var r := Reverse(s);
    if x in s {
      var i :| 0 <= i < |s| && s[i] == x;
      assert r[|s| - 1 - i] == x;
    }
    if x in r {
      var i :| 0 <= i < |r| && r[i] == x;
      assert s[|s| - 1 - i] == x;
    }
  }

  /** A sequence without duplicates has as many distinct elements as it has positions. */
  lemma {:induction false} DistinctCardinality<T>(s: seq<T>)
    requires Distinct(s)
    ensures |set x | x in s| == |s|
  {
    if s != [] {
      assert Distinct(s[1..]);
      DistinctCardinality(s[1..]);
      assert s[0] !in s[1..];
      assert (set x | x in s) == (set x | x in s[1..]) + {s[0]};
    }
  }
}
