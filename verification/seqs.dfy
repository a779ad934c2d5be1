/** Sequence vocabulary shared by the model. */
module Seqs {

  /** Concatenation of a sequence of sequences, in order. */
  function Flatten<T>(rows: seq<seq<T>>): seq<T> {
    if |rows| == 0 then [] else Flatten(rows[..|rows| - 1]) + rows[|rows| - 1]
  }

  /** Rows that extend `rows` by one more row flatten to one more block. */
  lemma FlattenExtend<T>(longer: seq<seq<T>>, rows: seq<seq<T>>)
    requires |longer| == |rows| + 1
    requires forall k :: 0 <= k < |rows| ==> longer[k] == rows[k]
    ensures Flatten(longer) == Flatten(rows) + longer[|rows|]
  {
    assert longer[..|rows|] == rows;
  }

  /** Total length of a sequence of sequences. */
  function TotalLength<T>(rows: seq<seq<T>>): nat {
    if |rows| == 0 then 0 else TotalLength(rows[..|rows| - 1]) + |rows[|rows| - 1]|
  }

  lemma {:induction false} FlattenLength<T>(rows: seq<seq<T>>)
    ensures |Flatten(rows)| == TotalLength(rows)
  {
    if |rows| != 0 {
      FlattenLength(rows[..|rows| - 1]);
    }
  }

  lemma {:induction false} FlattenAppend<T>(rows: seq<seq<T>>, row: seq<T>)
    ensures Flatten(rows + [row]) == Flatten(rows) + row
  {
    assert (rows + [row])[..|rows|] == rows;
  }

  lemma TakeStep<T>(s: seq<T>, i: nat)
    requires i < |s|
    ensures s[..i + 1] == s[..i] + [s[i]]
  {
  }

  /** Two leading elements, a middle part and a trailing element, each found where it was put. */
  lemma Framed<T>(a: T, b: T, mid: seq<T>, c: T)
    ensures |[a, b] + mid + [c]| == |mid| + 3
    ensures ([a, b] + mid + [c])[0] == a && ([a, b] + mid + [c])[1] == b
    ensures forall j :: 0 <= j < |mid| ==> ([a, b] + mid + [c])[j + 2] == mid[j]
    ensures ([a, b] + mid + [c])[|mid| + 2] == c
  {
  }

  /** Every element of a row is an element of the concatenation. */
  lemma {:induction false} FlattenMember<T>(rows: seq<seq<T>>, i: nat, x: T)
    requires i < |rows| && x in rows[i]
    ensures x in Flatten(rows)
  {
    var m := |rows| - 1;
    if i < m {
      assert rows[..m][i] == rows[i];
      FlattenMember(rows[..m], i, x);
    }
  }

  lemma {:induction false} FlattenPrepend<T>(row: seq<T>, rows: seq<seq<T>>)
    ensures Flatten([row] + rows) == row + Flatten(rows)
    decreases |rows|
  {
    if |rows| == 0 {
      assert [row] + rows == [row];
      assert Flatten([row]) == Flatten([row][..0]) + row;
    } else {
      var init := rows[..|rows| - 1];
      var last := rows[|rows| - 1];
      FlattenPrepend(row, init);
      assert rows == init + [last];
      assert [row] + rows == ([row] + init) + [last];
      FlattenAppend([row] + init, last);
      FlattenAppend(init, last);
    }
  }

  /** Element `i` of row `r` sits in the concatenation after all the earlier rows. */
  lemma {:induction false} FlattenAt<T>(rows: seq<seq<T>>, r: nat, i: nat)
    requires r < |rows| && i < |rows[r]|
    ensures TotalLength(rows[..r]) + i < |Flatten(rows)|
    ensures Flatten(rows)[TotalLength(rows[..r]) + i] == rows[r][i]
  {
    var m := |rows| - 1;
    FlattenLength(rows);
    FlattenLength(rows[..m]);
    if r < m {
      assert rows[..m][..r] == rows[..r];
      assert rows[..m][r] == rows[r];
      FlattenAt(rows[..m], r, i);
    }
  }

  /** The positions `0, 1, ..., n - 1`, as `std::iota` fills them. */
  function Range(n: nat): (r: seq<nat>)
    ensures |r| == n
    ensures forall i :: 0 <= i < n ==> r[i] == i
  {
    if n == 0 then [] else Range(n - 1) + [n - 1]
  }

  predicate NonDecreasing(s: seq<int>) {
    forall i, j :: 0 <= i < j < |s| ==> s[i] <= s[j]
  }

  predicate Distinct<T(==)>(s: seq<T>) {
    forall i, j :: 0 <= i < j < |s| ==> s[i] != s[j]
  }

  /** `a` is `b` with some elements left out and the rest kept in order. */
  predicate IsSubsequence<T(==)>(a: seq<T>, b: seq<T>)
    decreases |b|
  {
    if |a| == 0 then true
    else if |b| == 0 then false
    else if a[|a| - 1] == b[|b| - 1] then IsSubsequence(a[..|a| - 1], b[..|b| - 1])
    else IsSubsequence(a, b[..|b| - 1])
  }

  /** A subsequence of `b` is a subsequence of `b` with one more element appended. */
  lemma SubsequenceOfLonger<T>(a: seq<T>, b: seq<T>, x: T)
    requires IsSubsequence(a, b)
    ensures IsSubsequence(a, b + [x])
    decreases |b|, 1
  {
    var b' := b + [x];
    assert b'[..|b'| - 1] == b;
    if |a| != 0 && a[|a| - 1] == x {
      SubsequenceDropLast(a, b);
    }
  }

  /** Appending the same element to both sides keeps a subsequence. */
  lemma SubsequenceExtend<T>(a: seq<T>, b: seq<T>, x: T)
    requires IsSubsequence(a, b)
    ensures IsSubsequence(a + [x], b + [x])
  {
    assert (a + [x])[..|a|] == a;
    assert (b + [x])[..|b|] == b;
  }

  /** Dropping the last element of `a` keeps it a subsequence. */
  lemma SubsequenceDropLast<T>(a: seq<T>, b: seq<T>)
    requires 0 < |a|
    requires IsSubsequence(a, b)
    ensures IsSubsequence(a[..|a| - 1], b)
    decreases |b|, 0
  {
    var b0 := b[..|b| - 1];
    assert b0 + [b[|b| - 1]] == b;
    if a[|a| - 1] == b[|b| - 1] {
      SubsequenceOfLonger(a[..|a| - 1], b0, b[|b| - 1]);
    } else {
      SubsequenceDropLast(a, b0);
      SubsequenceOfLonger(a[..|a| - 1], b0, b[|b| - 1]);
    }
  }

  /** Every element of a subsequence of `b` is an element of `b`. */
  lemma {:induction false} SubsequenceMembers<T>(a: seq<T>, b: seq<T>)
    requires IsSubsequence(a, b)
    ensures forall x :: x in a ==> x in b
    decreases |b|
  {
    if |a| != 0 {
      var b0 := b[..|b| - 1];
      if a[|a| - 1] == b[|b| - 1] {
        SubsequenceMembers(a[..|a| - 1], b0);
        assert a == a[..|a| - 1] + [a[|a| - 1]];
        assert b == b0 + [b[|b| - 1]];
      } else {
        SubsequenceMembers(a, b0);
      }
    }
  }

  /** A subsequence of an ascending sequence is ascending. */
  lemma {:induction false} SubsequenceOfAscending(a: seq<int>, b: seq<int>)
    requires IsSubsequence(a, b)
    requires NonDecreasing(b)
    ensures NonDecreasing(a)
    decreases |b|
  {
    if |a| != 0 {
      var a0, b0 := a[..|a| - 1], b[..|b| - 1];
      if a[|a| - 1] == b[|b| - 1] {
        SubsequenceOfAscending(a0, b0);
        SubsequenceMembers(a0, b0);
        forall i | 0 <= i < |a0|
          ensures a0[i] <= a[|a| - 1]
        {
          assert a0[i] in b0;
        }
      } else {
        SubsequenceOfAscending(a, b0);
      }
    }
  }

  /** An element of a concatenation comes from one of its rows. */
  lemma {:induction false} FlattenMemberOf<T>(rows: seq<seq<T>>, x: T)
    requires x in Flatten(rows)
    ensures exists i :: 0 <= i < |rows| && x in rows[i]
  {
    var m := |rows| - 1;
    if x !in rows[m] {
      FlattenMemberOf(rows[..m], x);
      var i :| 0 <= i < m && x in rows[..m][i];
      assert x in rows[i];
    }
  }

  /** A slice inside the second part of a concatenation is a slice of that part. */
  lemma SliceOfAppend<T>(a: seq<T>, b: seq<T>, lo: nat, hi: nat)
    requires |a| <= lo <= hi <= |a| + |b|
    ensures (a + b)[lo..hi] == b[lo - |a|..hi - |a|]
  {
  }

  /** A slice inside the first part of a concatenation is a slice of that part. */
  lemma SliceOfFront<T>(a: seq<T>, b: seq<T>, lo: nat, hi: nat)
    requires lo <= hi <= |a|
    ensures (a + b)[lo..hi] == a[lo..hi]
  {
  }

  /** Scaling by a natural number keeps the order. */
  lemma MulMono(a: nat, b: nat, s: nat)
    requires a <= b
    ensures a * s <= b * s
  {
  }

  /** The union of a sequence of sets. */
  function UnionAll<T>(sets: seq<set<T>>): set<T> {
    if |sets| == 0 then {} else UnionAll(sets[..|sets| - 1]) + sets[|sets| - 1]
  }

  /** An element of the union belongs to one of the sets, and every element of one of them to the union. */
  lemma {:induction false} UnionAllMembers<T>(sets: seq<set<T>>, x: T)
    ensures x in UnionAll(sets) <==> exists i :: 0 <= i < |sets| && x in sets[i]
  {
    if |sets| != 0 {
      var init := sets[..|sets| - 1];
      UnionAllMembers(init, x);
      if i :| 0 <= i < |sets| && x in sets[i] {
        if i < |init| {
          assert init[i] == sets[i];
        }
      }
      if i :| 0 <= i < |init| && x in init[i] {
        assert init[i] == sets[i];
      }
    }
  }
}
