/**
 The permutation `sortIndices` that `printAllData` builds with `std::iota`
 followed by `std::stable_sort`: the flat positions `0 .. n - 1` of the gathered
 global indices, reordered so that the global index at each position never
 decreases, positions with equal global indices keeping their gather order.
 */
module StableSort {
  import opened Seqs

  /** Every position in `s` addresses an element of a sequence of length `n`. */
  predicate AllBelow(s: seq<nat>, n: nat) {
    forall i :: 0 <= i < |s| ==> s[i] < n
  }

  /** The keys found at the positions `s`, in the order of `s`. */
  function Permute(keys: seq<int>, s: seq<nat>): (r: seq<int>)
    requires AllBelow(s, |keys|)
    ensures |r| == |s|
    ensures forall i :: 0 <= i < |s| ==> r[i] == keys[s[i]]
  {
    seq(|s|, i requires 0 <= i < |s| => keys[s[i]])
  }

  /** The key never decreases along `s`. */
  predicate KeyOrdered(keys: seq<int>, s: seq<nat>)
    requires AllBelow(s, |keys|)
  {
    forall i, j :: 0 <= i < j < |s| ==> keys[s[i]] <= keys[s[j]]
  }

  /** Positions with equal keys appear in increasing (gather) order. */
  predicate Stable(keys: seq<int>, s: seq<nat>)
    requires AllBelow(s, |keys|)
  {
    forall i, j :: 0 <= i < j < |s| && keys[s[i]] == keys[s[j]] ==> s[i] < s[j]
  }

  /** `s` lists every position `0 .. n - 1` exactly once. */
  predicate IsPermutationOfRange(s: seq<nat>, n: nat) {
    && |s| == n
    && AllBelow(s, n)
    && Distinct(s)
    && (forall x: nat :: x < n ==> x in s)
  }

  /** What `std::stable_sort` promises of its result, for positions compared by key. */
  predicate IsStableSortOf(keys: seq<int>, s: seq<nat>) {
    && IsPermutationOfRange(s, |keys|)
    && KeyOrdered(keys, s)
    && Stable(keys, s)
  }

  /**
   Inserts position `p` into `s` after every position whose key does not
   exceed `keys[p]`.
   */
  function Insert(keys: seq<int>, p: nat, s: seq<nat>): (r: seq<nat>)
    requires p < |keys|
    requires AllBelow(s, |keys|)
    ensures |r| == |s| + 1
    ensures AllBelow(r, |keys|)
    decreases |s|
  {
    if |s| == 0 then [p]
    else if keys[s[0]] <= keys[p] then [s[0]] + Insert(keys, p, s[1..])
    else [p] + s
  }

  /** Reading the keys distributes over putting a position in front. */
  lemma PermuteCons(keys: seq<int>, x: nat, s: seq<nat>)
    requires x < |keys| && AllBelow(s, |keys|)
    ensures AllBelow([x] + s, |keys|)
    ensures Permute(keys, [x] + s) == [keys[x]] + Permute(keys, s)
  {
    assert forall i :: 0 < i < |[x] + s| ==> ([x] + s)[i] == s[i - 1];
  }

  /** Insertion adds exactly the position `p`. */
  lemma {:induction false} InsertMembers(keys: seq<int>, p: nat, s: seq<nat>)
    requires p < |keys|
    requires AllBelow(s, |keys|)
    ensures forall x :: x in Insert(keys, p, s) <==> x in s || x == p
    decreases |s|
  {
    if |s| != 0 && keys[s[0]] <= keys[p] {
      InsertMembers(keys, p, s[1..]);
      assert s == [s[0]] + s[1..];
    }
  }

  /** Insertion adds exactly one copy of the key of `p`. */
  lemma {:induction false} InsertKeys(keys: seq<int>, p: nat, s: seq<nat>)
    requires p < |keys|
    requires AllBelow(s, |keys|)
    ensures multiset(Permute(keys, Insert(keys, p, s))) == multiset(Permute(keys, s)) + multiset{keys[p]}
    decreases |s|
  {
    if |s| == 0 {
      assert Permute(keys, Insert(keys, p, s)) == [keys[p]];
    } else if keys[s[0]] <= keys[p] {
      var tail := Insert(keys, p, s[1..]);
      InsertKeys(keys, p, s[1..]);
      assert s == [s[0]] + s[1..];
      PermuteCons(keys, s[0], tail);
      PermuteCons(keys, s[0], s[1..]);
    } else {
      PermuteCons(keys, p, s);
    }
  }

  /** Insertion adds exactly `p`, and exactly one copy of its key. */
  lemma InsertContents(keys: seq<int>, p: nat, s: seq<nat>)
    requires p < |keys|
    requires AllBelow(s, |keys|)
    ensures forall x :: x in Insert(keys, p, s) <==> x in s || x == p
    ensures multiset(Permute(keys, Insert(keys, p, s))) == multiset(Permute(keys, s)) + multiset{keys[p]}
  {
    InsertMembers(keys, p, s);
    InsertKeys(keys, p, s);
  }

  /** The head of a sorted `s` precedes everything the insertion places after it. */
  lemma HeadBeforeInsertedTail(keys: seq<int>, p: nat, s: seq<nat>)
    requires p < |keys|
    requires AllBelow(s, |keys|)
    requires 0 < |s| && keys[s[0]] <= keys[p]
    requires forall i :: 0 <= i < |s| ==> s[i] < p
    requires KeyOrdered(keys, s) && Stable(keys, s) && Distinct(s)
    ensures forall j :: 0 <= j < |Insert(keys, p, s[1..])| ==>
      var t := Insert(keys, p, s[1..])[j];
      keys[s[0]] <= keys[t] && s[0] != t && (keys[s[0]] == keys[t] ==> s[0] < t)
  {
    var tail := Insert(keys, p, s[1..]);
    InsertContents(keys, p, s[1..]);
    forall j | 0 <= j < |tail|
      ensures keys[s[0]] <= keys[tail[j]] && s[0] != tail[j]
      ensures keys[s[0]] == keys[tail[j]] ==> s[0] < tail[j]
    {
      assert tail[j] in tail;
      if tail[j] != p {
        var k :| 0 <= k < |s[1..]| && s[1..][k] == tail[j];
        assert s[k + 1] == tail[j];
      }
    }
  }

  /** The tail of a sorted, stable, duplicate-free `s` is so too. */
  lemma TailOrdered(keys: seq<int>, p: nat, s: seq<nat>)
    requires AllBelow(s, |keys|) && 0 < |s|
    requires forall i :: 0 <= i < |s| ==> s[i] < p
    requires KeyOrdered(keys, s) && Stable(keys, s) && Distinct(s)
    ensures AllBelow(s[1..], |keys|)
    ensures forall i :: 0 <= i < |s[1..]| ==> s[1..][i] < p
    ensures KeyOrdered(keys, s[1..]) && Stable(keys, s[1..]) && Distinct(s[1..])
  {
    assert forall i :: 0 <= i < |s[1..]| ==> s[1..][i] == s[i + 1];
  }

  /**
   A position put in front of a sorted, stable, duplicate-free `tail` keeps it
   so when its key is no larger than any in `tail`, it is different from all
   of them, and it is earlier than those with an equal key.
   */
  lemma {:induction false} ConsOrdered(keys: seq<int>, x: nat, tail: seq<nat>)
    requires x < |keys| && AllBelow(tail, |keys|)
    requires KeyOrdered(keys, tail) && Stable(keys, tail) && Distinct(tail)
    requires forall j :: 0 <= j < |tail| ==>
      keys[x] <= keys[tail[j]] && x != tail[j] && (keys[x] == keys[tail[j]] ==> x < tail[j])
    ensures AllBelow([x] + tail, |keys|)
    ensures KeyOrdered(keys, [x] + tail)
    ensures Stable(keys, [x] + tail)
    ensures Distinct([x] + tail)
  {
    var r := [x] + tail;
    forall i, j | 0 <= i < j < |r|
      ensures keys[r[i]] <= keys[r[j]]
      ensures keys[r[i]] == keys[r[j]] ==> r[i] < r[j]
      ensures r[i] != r[j]
    {
      assert r[j] == tail[j - 1];
      if i > 0 {
        assert r[i] == tail[i - 1];
      }
    }
  }

  /** Inserting a position later than all of `s` keeps `s` sorted, stable and duplicate-free. */
  lemma {:induction false} InsertKeepsOrder(keys: seq<int>, p: nat, s: seq<nat>)
    requires p < |keys|
    requires AllBelow(s, |keys|)
    requires forall i :: 0 <= i < |s| ==> s[i] < p
    requires KeyOrdered(keys, s) && Stable(keys, s) && Distinct(s)
    ensures KeyOrdered(keys, Insert(keys, p, s))
    ensures Stable(keys, Insert(keys, p, s))
    ensures Distinct(Insert(keys, p, s))
    decreases |s|
  {
    if |s| == 0 {
    } else if keys[s[0]] <= keys[p] {
      TailOrdered(keys, p, s);
      InsertKeepsOrder(keys, p, s[1..]);
      HeadBeforeInsertedTail(keys, p, s);
      ConsOrdered(keys, s[0], Insert(keys, p, s[1..]));
    } else {
      forall j | 0 <= j < |s|
        ensures keys[p] <= keys[s[j]] && p != s[j]
      {
        assert keys[s[0]] <= keys[s[j]] || j == 0;
      }
      ConsOrdered(keys, p, s);
    }
  }

  /** The first `n` positions, stably sorted by key (insertion sort). */
  function SortPrefix(keys: seq<int>, n: nat): (r: seq<nat>)
    requires n <= |keys|
    ensures |r| == n
    ensures AllBelow(r, |keys|)
  {
    if n == 0 then [] else
      var s := SortPrefix(keys, n - 1);
      InsertContents(keys, n - 1, s);
      Insert(keys, n - 1, s)
  }

  /** The sorted prefix holds exactly the positions `0 .. n - 1`. */
  lemma {:induction false} SortPrefixMembers(keys: seq<int>, n: nat)
    requires n <= |keys|
    ensures forall x: nat :: x in SortPrefix(keys, n) <==> x < n
    ensures AllBelow(SortPrefix(keys, n), n)
  {
    if n != 0 {
      var s := SortPrefix(keys, n - 1);
      var r := SortPrefix(keys, n);
      SortPrefixMembers(keys, n - 1);
      InsertContents(keys, n - 1, s);
      assert r == Insert(keys, n - 1, s);
      forall i | 0 <= i < |r| ensures r[i] < n {
        assert r[i] in r;
      }
    }
  }

  /** The sorted prefix holds only positions below `n`. */
  lemma {:induction false} SortPrefixBelow(keys: seq<int>, n: nat)
    requires n <= |keys|
    ensures forall i :: 0 <= i < |SortPrefix(keys, n)| ==> SortPrefix(keys, n)[i] < n
  {
    if n != 0 {
      var s := SortPrefix(keys, n - 1);
      SortPrefixBelow(keys, n - 1);
      InsertMembers(keys, n - 1, s);
      forall i | 0 <= i < |SortPrefix(keys, n)|
        ensures SortPrefix(keys, n)[i] < n
      {
        assert SortPrefix(keys, n)[i] in Insert(keys, n - 1, s);
      }
    }
  }

  /** The sorted prefix is duplicate-free, ordered by key, and stable. */
  lemma {:induction false} SortPrefixOrdered(keys: seq<int>, n: nat)
    requires n <= |keys|
    ensures Distinct(SortPrefix(keys, n))
    ensures KeyOrdered(keys, SortPrefix(keys, n))
    ensures Stable(keys, SortPrefix(keys, n))
  {
    if n != 0 {
      var s := SortPrefix(keys, n - 1);
      SortPrefixOrdered(keys, n - 1);
      SortPrefixBelow(keys, n - 1);
      InsertKeepsOrder(keys, n - 1, s);
    }
  }

  /** The keys read through the sorted prefix are the first `n` keys, rearranged. */
  lemma {:induction false} SortPrefixKeys(keys: seq<int>, n: nat)
    requires n <= |keys|
    ensures multiset(Permute(keys, SortPrefix(keys, n))) == multiset(keys[..n])
  {
    if n != 0 {
      var s := SortPrefix(keys, n - 1);
      SortPrefixKeys(keys, n - 1);
      assert SortPrefix(keys, n) == Insert(keys, n - 1, s);
      InsertKeys(keys, n - 1, s);
      assert keys[..n] == keys[..n - 1] + [keys[n - 1]];
    }
  }

  /**
   `sortIndices`: the positions of `keys` in ascending key order, ties kept in
   gather order.
   */
  function StableSortIndices(keys: seq<int>): (r: seq<nat>)
    ensures IsStableSortOf(keys, r)
    ensures multiset(Permute(keys, r)) == multiset(keys)
  {
    SortPrefixMembers(keys, |keys|);
    SortPrefixOrdered(keys, |keys|);
    SortPrefixKeys(keys, |keys|);
    assert keys[..|keys|] == keys;
    SortPrefix(keys, |keys|)
  }

  /** The strict order a stable sort arranges positions in: by key, then by position. */
  predicate Before(keys: seq<int>, x: nat, y: nat)
    requires x < |keys| && y < |keys|
  {
    keys[x] < keys[y] || (keys[x] == keys[y] && x < y)
  }

  predicate StrictlyArranged(keys: seq<int>, s: seq<nat>)
    requires AllBelow(s, |keys|)
  {
    forall i, j :: 0 <= i < j < |s| ==> Before(keys, s[i], s[j])
  }

  lemma {:induction false} ArrangedUnique(keys: seq<int>, a: seq<nat>, b: seq<nat>)
    requires AllBelow(a, |keys|) && AllBelow(b, |keys|)
    requires StrictlyArranged(keys, a) && StrictlyArranged(keys, b)
    requires |a| == |b|
    requires forall x :: x in a <==> x in b
    ensures a == b
    decreases |a|
  {
    if |a| != 0 {
      assert a[0] in b;
      var j :| 0 <= j < |b| && b[j] == a[0];
      assert b[0] in a;
      var k :| 0 <= k < |a| && a[k] == b[0];
      assert a[0] == b[0];
      forall x
        ensures x in a[1..] <==> x in b[1..]
      {
        if x in a[1..] {
          var i :| 0 <= i < |a[1..]| && a[1..][i] == x;
          assert Before(keys, a[0], a[i + 1]);
          assert x in b;
        }
        if x in b[1..] {
          var i :| 0 <= i < |b[1..]| && b[1..][i] == x;
          assert Before(keys, b[0], b[i + 1]);
          assert x in a;
        }
      }
      ArrangedUnique(keys, a[1..], b[1..]);
      assert a == [a[0]] + a[1..];
      assert b == [b[0]] + b[1..];
    }
  }

  /**
   The stable-sort contract determines its result: any arrangement meeting it
   is the one `StableSortIndices` computes.
   */
  lemma StableSortUnique(keys: seq<int>, s: seq<nat>)
    requires IsStableSortOf(keys, s)
    ensures s == StableSortIndices(keys)
  {
    var t := StableSortIndices(keys);
    assert StrictlyArranged(keys, s);
    assert StrictlyArranged(keys, t);
    ArrangedUnique(keys, s, t);
  }

  /** Arranged neighbour by neighbour is arranged throughout. */
  lemma {:induction false} NeighboursArranged(keys: seq<int>, s: seq<nat>, i: nat, j: nat)
    requires AllBelow(s, |keys|)
    requires forall k :: 0 <= k < |s| - 1 ==> Before(keys, s[k], s[k + 1])
    requires i < j < |s|
    ensures Before(keys, s[i], s[j])
    decreases j - i
  {
    if i + 1 < j {
      NeighboursArranged(keys, s, i, j - 1);
    }
  }

  /**
   An arrangement of all positions in which each position comes before its
   successor, by key and then by position, is the stable sort.
   */
  lemma StableSortByNeighbours(keys: seq<int>, s: seq<nat>)
    requires |s| == |keys| && AllBelow(s, |keys|)
    requires forall x: nat :: x < |keys| ==> x in s
    requires forall k :: 0 <= k < |s| - 1 ==> Before(keys, s[k], s[k + 1])
    ensures s == StableSortIndices(keys)
  {
    forall i, j | 0 <= i < j < |s|
      ensures keys[s[i]] <= keys[s[j]] && s[i] != s[j]
      ensures keys[s[i]] == keys[s[j]] ==> s[i] < s[j]
    {
      NeighboursArranged(keys, s, i, j);
    }
    assert IsStableSortOf(keys, s);
    StableSortUnique(keys, s);
  }

  /** In an ascending `b`, the head is no larger than any element of `a` when both hold the same elements. */
  lemma HeadIsLeast(a: seq<int>, b: seq<int>)
    requires NonDecreasing(b) && 0 < |a| && 0 < |b|
    requires multiset(a) == multiset(b)
    ensures b[0] <= a[0]
  {
    assert a[0] in multiset(b);
    assert a[0] in b;
  }

  /** Two ascending sequences holding the same elements are equal. */
  lemma {:induction false} AscendingByMultisetUnique(a: seq<int>, b: seq<int>)
    requires NonDecreasing(a) && NonDecreasing(b)
    requires multiset(a) == multiset(b)
    ensures a == b
    decreases |a|
  {
    assert |a| == |b| by { assert |multiset(a)| == |a|; assert |multiset(b)| == |b|; }
    if |a| != 0 {
      HeadIsLeast(a, b);
      HeadIsLeast(b, a);
      var a', b' := a[1..], b[1..];
      assert a == [a[0]] + a';
      assert b == [b[0]] + b';
      assert multiset(a) == multiset{a[0]} + multiset(a');
      assert multiset(b) == multiset{b[0]} + multiset(b');
      forall z
        ensures multiset(a')[z] == multiset(b')[z]
      {
        assert multiset(a)[z] == multiset(b)[z];
      }
      AscendingByMultisetUnique(a', b');
    }
  }

  /**
   A stable sort of distinct keys does not depend on where each key sits:
   if `keys2` holds `keys1[perm[p]]` at position `p`, the sort of `keys2`
   read through `perm` is the sort of `keys1`.
   */
  lemma SortRelabelled(keys1: seq<int>, keys2: seq<int>, perm: seq<nat>)
    requires Distinct(keys1)
    requires IsPermutationOfRange(perm, |keys1|) && |keys2| == |keys1|
    requires forall p :: 0 <= p < |keys2| ==> keys2[p] == keys1[perm[p]]
    ensures forall k :: 0 <= k < |keys1| ==> perm[StableSortIndices(keys2)[k]] == StableSortIndices(keys1)[k]
  {
    var s2 := StableSortIndices(keys2);
    var t := seq(|s2|, k requires 0 <= k < |s2| => perm[s2[k]]);
    forall i, j | 0 <= i < j < |t|
      ensures t[i] != t[j]
    {
      assert s2[i] != s2[j];
    }
    forall x: nat | x < |keys1|
      ensures x in t
    {
      assert x in perm;
      var p :| 0 <= p < |perm| && perm[p] == x;
      assert p in s2;
      var k :| 0 <= k < |s2| && s2[k] == p;
      assert t[k] == x;
    }
    forall i, j | 0 <= i < j < |t|
      ensures keys1[t[i]] <= keys1[t[j]]
    {
      assert keys1[t[i]] == keys2[s2[i]] && keys1[t[j]] == keys2[s2[j]];
    }
    assert IsStableSortOf(keys1, t);
    StableSortUnique(keys1, t);
  }
}
