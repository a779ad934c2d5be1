/**
 The global-order reconstruction and selection of `printAllData`: gathering
 the per-rank where-flags and global location indices, stably sorting the
 gathered indices, applying the location window and the flags, and cutting the
 survivors into table rows that fit the page width.
 */
module Selection {
  import opened Status
  import opened Seqs
  import opened StableSort

  /** Gather-all: every rank's local sequence, concatenated in rank order. */
  function Gather<T>(perRank: seq<seq<T>>): (r: seq<T>)
    ensures |r| == TotalLength(perRank)
  {
    FlattenLength(perRank);
    Flatten(perRank)
  }

  /** Element `i` of rank `rank` lands after the elements of all lower ranks. */
  lemma GatherAt<T>(perRank: seq<seq<T>>, rank: nat, i: nat)
    requires rank < |perRank| && i < |perRank[rank]|
    ensures TotalLength(perRank[..rank]) + i < |Gather(perRank)|
    ensures Gather(perRank)[TotalLength(perRank[..rank]) + i] == perRank[rank][i]
  {
    FlattenAt(perRank, rank, i);
  }

  /**
   One rank's contribution to `globalApply`: its where-flags as 0/1, or all
   zeros on every rank but 0 when only rank 0 is to be printed.
   */
  function RankFlags(rank: nat, apply: seq<bool>, printRank0: bool): (r: seq<int>)
    ensures |r| == |apply|
    ensures forall i :: 0 <= i < |r| ==> (r[i] != 0 <==> apply[i] && !(printRank0 && rank != 0))
    ensures forall i :: 0 <= i < |r| ==> r[i] == 0 || r[i] == 1
  {
    if printRank0 && rank != 0 then seq(|apply|, _ => 0)
    else seq(|apply|, i requires 0 <= i < |apply| => if apply[i] then 1 else 0)
  }

  /** `globalApply`: the flags of all ranks, gathered. */
  function GlobalApply(applyPerRank: seq<seq<bool>>, printRank0: bool): (r: seq<int>)
    ensures |r| == TotalLength(applyPerRank)
  {
    var flags := seq(|applyPerRank|, rank requires 0 <= rank < |applyPerRank| =>
      RankFlags(rank, applyPerRank[rank], printRank0));
    assert TotalLength(flags) == TotalLength(applyPerRank) by {
      SameShapeSameLength(flags, applyPerRank);
    }
    Gather(flags)
  }

  /**
   Location `i` of rank `rank` gets its where-flag as 0/1 in `globalApply`,
   or 0 when only rank 0 is printed and `rank` is another rank.
   */
  lemma GlobalApplyAt(applyPerRank: seq<seq<bool>>, printRank0: bool, rank: nat, i: nat)
    requires rank < |applyPerRank| && i < |applyPerRank[rank]|
    ensures TotalLength(applyPerRank[..rank]) + i < |GlobalApply(applyPerRank, printRank0)|
    ensures GlobalApply(applyPerRank, printRank0)[TotalLength(applyPerRank[..rank]) + i] ==
      (if applyPerRank[rank][i] && !(printRank0 && rank != 0) then 1 else 0)
  {
    var flags := seq(|applyPerRank|, rank requires 0 <= rank < |applyPerRank| =>
      RankFlags(rank, applyPerRank[rank], printRank0));
    assert GlobalApply(applyPerRank, printRank0) == Gather(flags);
    SameShapeSameLength(flags[..rank], applyPerRank[..rank]);
    GatherAt(flags, rank, i);
  }

  lemma {:induction false} SameShapeSameLength<S, T>(a: seq<seq<S>>, b: seq<seq<T>>)
    requires |a| == |b|
    requires forall i :: 0 <= i < |a| ==> |a[i]| == |b[i]|
    ensures TotalLength(a) == TotalLength(b)
    decreases |a|
  {
    if |a| != 0 {
      SameShapeSameLength(a[..|a| - 1], b[..|b| - 1]);
    }
  }

  /** Past the first row, a flattening of rows that are zero after the first is zero. */
  lemma {:induction false} ZeroBeyondFirstRow(rows: seq<seq<int>>, j: nat)
    requires 0 < |rows|
    requires forall r, i :: 0 < r < |rows| && 0 <= i < |rows[r]| ==> rows[r][i] == 0
    requires |rows[0]| <= j < |Flatten(rows)|
    ensures Flatten(rows)[j] == 0
    decreases |rows|
  {
    var init := rows[..|rows| - 1];
    var last := rows[|rows| - 1];
    FlattenLength(rows);
    FlattenLength(init);
    if 1 < |rows| {
      if j < |Flatten(init)| {
        ZeroBeyondFirstRow(init, j);
      } else {
        assert Flatten(rows)[j] == last[j - |Flatten(init)|];
      }
    }
  }

  /**
   With `printRank0` set, only rank 0's segment of `globalApply` can be
   nonzero, so only rank 0's locations can be selected.
   */
  lemma OnlyRankZeroSelectable(applyPerRank: seq<seq<bool>>, j: nat)
    requires 0 < |applyPerRank|
    requires j < |GlobalApply(applyPerRank, true)|
    requires GlobalApply(applyPerRank, true)[j] != 0
    ensures j < |applyPerRank[0]|
  {
    var flags := seq(|applyPerRank|, rank requires 0 <= rank < |applyPerRank| =>
      RankFlags(rank, applyPerRank[rank], true));
    assert GlobalApply(applyPerRank, true) == Flatten(flags);
    if |applyPerRank[0]| <= j {
      ZeroBeyondFirstRow(flags, j);
    }
  }

  /** The location window `[min, max)` after normalisation. */
  datatype Window = Window(min: int, max: int)

  /**
   Normalises the configured `locmin`/`locmax` against the number of locations:
   a `locmin` at or past the end becomes the last location, a `locmax` of 0
   means "up to the end", and an inverted window is a `BadValue` error.
   */
  function NormaliseWindow(locmin: int, locmax: int, nlocs: int): (r: Result<Window>)
    ensures r.Success? ==> r.value.min <= r.value.max
    ensures r.Success? ==> r.value.min < nlocs && r.value.min <= locmin
    ensures r.Success? && locmin < nlocs ==> r.value.min == locmin
    ensures r.Success? && nlocs <= locmin ==> r.value.min == nlocs - 1
    ensures r.Success? ==> r.value.max == (if locmax == 0 then nlocs else locmax)
    ensures r.Failure? ==> r.error.BadValue?
    ensures r.Failure? <==>
      (if locmax == 0 then nlocs else locmax) < (if locmin < nlocs then locmin else nlocs - 1)
  {
    var min := if locmin >= nlocs then nlocs - 1 else locmin;
    var max := if locmax == 0 then nlocs else locmax;
    if min > max then Failure(BadValue("Minimum location cannot be larger than maximum location"))
    else Success(Window(min, max))
  }

  /** `permutedGlobalIndex`: the gathered global indices read in `sortIndices` order. */
  function PermutedGlobalIndex(globalIndex: seq<int>): (r: seq<int>)
    ensures |r| == |globalIndex|
    ensures NonDecreasing(r)
    ensures multiset(r) == multiset(globalIndex)
  {
    var sortIndices := StableSortIndices(globalIndex);
    Permute(globalIndex, sortIndices)
  }

  /**
   The ascending global indices do not depend on how the locations were
   distributed over the ranks: two distributions that hold the same indices
   give the same `permutedGlobalIndex`.
   */
  lemma PermutedIndependentOfDistribution(a: seq<seq<int>>, b: seq<seq<int>>)
    requires multiset(Gather(a)) == multiset(Gather(b))
    ensures PermutedGlobalIndex(Gather(a)) == PermutedGlobalIndex(Gather(b))
  {
    AscendingByMultisetUnique(PermutedGlobalIndex(Gather(a)), PermutedGlobalIndex(Gather(b)));
  }

  /** The selected locations and their positions in the gathered arrays. */
  datatype Selection = Selection(locs: seq<int>, indices: seq<nat>)

  /**
   The selection loop reads `sortIndices[loc]` for every `loc` inside the
   window; that read is in range only if every such `loc` is below `nlocs`.
   */
  predicate WindowReadsInRange(permuted: seq<int>, sortIndices: seq<nat>, w: Window) {
    forall idx :: 0 <= idx < |permuted| && w.min <= permuted[idx] < w.max ==>
      0 <= permuted[idx] < |sortIndices|
  }

  /** The test the selection loop applies to the location `loc`, as written. */
  predicate Selected(sortIndices: seq<nat>, globalApply: seq<int>, w: Window, loc: int)
    requires AllBelow(sortIndices, |globalApply|)
    requires w.min <= loc < w.max ==> 0 <= loc < |sortIndices|
  {
    w.min <= loc < w.max && globalApply[sortIndices[loc]] != 0
  }

  /** The selection loop over the first `n` sorted positions. */
  function SelectUpTo(permuted: seq<int>, sortIndices: seq<nat>, globalApply: seq<int>, w: Window, n: nat)
    : (r: Selection)
    requires n <= |permuted|
    requires AllBelow(sortIndices, |globalApply|)
    requires WindowReadsInRange(permuted, sortIndices, w)
    ensures |r.locs| == |r.indices|
    ensures forall i :: 0 <= i < |r.locs| ==>
      && w.min <= r.locs[i] < w.max
      && 0 <= r.locs[i] < |sortIndices|
      && r.indices[i] == sortIndices[r.locs[i]]
      && globalApply[r.indices[i]] != 0
  {
    if n == 0 then Selection([], [])
    else
      var prev := SelectUpTo(permuted, sortIndices, globalApply, w, n - 1);
      var loc := permuted[n - 1];
      if Selected(sortIndices, globalApply, w, loc) then
        Selection(prev.locs + [loc], prev.indices + [sortIndices[loc]])
      else
        prev
  }

  /** One more sorted position: the loop keeps `permuted[n]` exactly when it passes the test. */
  lemma SelectUpToNext(permuted: seq<int>, sortIndices: seq<nat>, globalApply: seq<int>, w: Window, n: nat)
    requires n < |permuted|
    requires AllBelow(sortIndices, |globalApply|)
    requires WindowReadsInRange(permuted, sortIndices, w)
    ensures var prev := SelectUpTo(permuted, sortIndices, globalApply, w, n);
      SelectUpTo(permuted, sortIndices, globalApply, w, n + 1) ==
        if Selected(sortIndices, globalApply, w, permuted[n])
        then Selection(prev.locs + [permuted[n]], prev.indices + [sortIndices[permuted[n]]])
        else prev
  {
  }

  /** The locations kept by the loop appear in `permutedGlobalIndex`, in its order. */
  lemma {:induction false} SelectUpToSubsequence(permuted: seq<int>, sortIndices: seq<nat>, globalApply: seq<int>, w: Window, n: nat)
    requires n <= |permuted|
    requires AllBelow(sortIndices, |globalApply|)
    requires WindowReadsInRange(permuted, sortIndices, w)
    ensures IsSubsequence(SelectUpTo(permuted, sortIndices, globalApply, w, n).locs, permuted[..n])
  {
    if n != 0 {
      var prev := SelectUpTo(permuted, sortIndices, globalApply, w, n - 1).locs;
      var loc := permuted[n - 1];
      SelectUpToSubsequence(permuted, sortIndices, globalApply, w, n - 1);
      SelectUpToNext(permuted, sortIndices, globalApply, w, n - 1);
      assert permuted[..n] == permuted[..n - 1] + [loc];
      if Selected(sortIndices, globalApply, w, loc) {
        SubsequenceExtend(prev, permuted[..n - 1], loc);
      } else {
        SubsequenceOfLonger(prev, permuted[..n - 1], loc);
      }
    }
  }

  /** Every location that passes the test is kept by the loop. */
  lemma {:induction false} SelectUpToComplete(permuted: seq<int>, sortIndices: seq<nat>, globalApply: seq<int>, w: Window, n: nat)
    requires n <= |permuted|
    requires AllBelow(sortIndices, |globalApply|)
    requires WindowReadsInRange(permuted, sortIndices, w)
    ensures forall idx :: 0 <= idx < n && Selected(sortIndices, globalApply, w, permuted[idx]) ==>
      permuted[idx] in SelectUpTo(permuted, sortIndices, globalApply, w, n).locs
  {
    if n != 0 {
      SelectUpToComplete(permuted, sortIndices, globalApply, w, n - 1);
    }
  }

  /** The sorted positions among the first `n` whose location passes the test. */
  function PassingPositions(permuted: seq<int>, sortIndices: seq<nat>, globalApply: seq<int>, w: Window, n: nat): set<nat>
    requires n <= |permuted|
    requires AllBelow(sortIndices, |globalApply|)
    requires WindowReadsInRange(permuted, sortIndices, w)
  {
    set idx: nat | idx < n && Selected(sortIndices, globalApply, w, permuted[idx])
  }

  /** The loop keeps one location for every sorted position that passes the test. */
  lemma {:induction false} SelectUpToCount(permuted: seq<int>, sortIndices: seq<nat>, globalApply: seq<int>, w: Window, n: nat)
    requires n <= |permuted|
    requires AllBelow(sortIndices, |globalApply|)
    requires WindowReadsInRange(permuted, sortIndices, w)
    ensures |SelectUpTo(permuted, sortIndices, globalApply, w, n).locs| == |PassingPositions(permuted, sortIndices, globalApply, w, n)|
  {
    if n != 0 {
      SelectUpToCount(permuted, sortIndices, globalApply, w, n - 1);
      var before := PassingPositions(permuted, sortIndices, globalApply, w, n - 1);
      if Selected(sortIndices, globalApply, w, permuted[n - 1]) {
        assert PassingPositions(permuted, sortIndices, globalApply, w, n) == before + {n - 1};
        assert n - 1 !in before;
      } else {
        assert PassingPositions(permuted, sortIndices, globalApply, w, n) == before;
      }
    }
  }

  /**
   The selection loop of `printAllData` over all sorted positions: every kept
   location lies in the window and is printed from `sortIndices[loc]`, whose
   flag is set.
   */
  function Select(permuted: seq<int>, sortIndices: seq<nat>, globalApply: seq<int>, w: Window)
    : (r: Selection)
    requires AllBelow(sortIndices, |globalApply|)
    requires WindowReadsInRange(permuted, sortIndices, w)
    ensures |r.locs| == |r.indices|
    ensures forall i :: 0 <= i < |r.locs| ==>
      && w.min <= r.locs[i] < w.max
      && 0 <= r.locs[i] < |sortIndices|
      && r.indices[i] == sortIndices[r.locs[i]]
      && globalApply[r.indices[i]] != 0
  {
    SelectUpTo(permuted, sortIndices, globalApply, w, |permuted|)
  }

  /** The selection keeps only locations of `permutedGlobalIndex`, in its order. */
  lemma SelectKeepsOrder(permuted: seq<int>, sortIndices: seq<nat>, globalApply: seq<int>, w: Window)
    requires AllBelow(sortIndices, |globalApply|)
    requires WindowReadsInRange(permuted, sortIndices, w)
    ensures IsSubsequence(Select(permuted, sortIndices, globalApply, w).locs, permuted)
  {
    assert permuted[..|permuted|] == permuted;
    SelectUpToSubsequence(permuted, sortIndices, globalApply, w, |permuted|);
  }

  /**
   The selection misses no location that passes the test, and keeps one entry
   per sorted position that passes it, so a location listed twice in
   `permutedGlobalIndex` is kept twice.
   */
  lemma SelectComplete(permuted: seq<int>, sortIndices: seq<nat>, globalApply: seq<int>, w: Window)
    requires AllBelow(sortIndices, |globalApply|)
    requires WindowReadsInRange(permuted, sortIndices, w)
    ensures forall idx :: 0 <= idx < |permuted| && Selected(sortIndices, globalApply, w, permuted[idx]) ==>
      permuted[idx] in Select(permuted, sortIndices, globalApply, w).locs
    ensures |Select(permuted, sortIndices, globalApply, w).locs|
      == |PassingPositions(permuted, sortIndices, globalApply, w, |permuted|)|
  {
    SelectUpToComplete(permuted, sortIndices, globalApply, w, |permuted|);
    SelectUpToCount(permuted, sortIndices, globalApply, w, |permuted|);
  }

  /** The locations chosen for the table headings come out in ascending order. */
  lemma SelectedLocationsAscending(globalIndex: seq<int>, globalApply: seq<int>, w: Window)
    requires |globalApply| == |globalIndex|
    requires WindowReadsInRange(PermutedGlobalIndex(globalIndex), StableSortIndices(globalIndex), w)
    ensures NonDecreasing(Select(PermutedGlobalIndex(globalIndex), StableSortIndices(globalIndex), globalApply, w).locs)
  {
    var permuted := PermutedGlobalIndex(globalIndex);
    var r := Select(permuted, StableSortIndices(globalIndex), globalApply, w);
    SelectKeepsOrder(permuted, StableSortIndices(globalIndex), globalApply, w);
    SubsequenceOfAscending(r.locs, permuted);
  }

  /**
   The selection loop run on relabelled positions: when `perm` carries the
   positions of the second gather to those of the first, in the sort and in
   the `where` flags alike, the loop keeps the same locations, and each kept
   flat index carried by `perm` is the one the first run keeps.
   */
  lemma {:induction false} SelectUpToRelabelled(permuted: seq<int>, s1: seq<nat>, a1: seq<int>,
                                                s2: seq<nat>, a2: seq<int>, perm: seq<nat>, w: Window, n: nat)
    requires n <= |permuted|
    requires AllBelow(s1, |a1|) && AllBelow(s2, |a2|) && |s2| == |s1|
    requires |perm| == |a2| && AllBelow(perm, |a1|)
    requires forall k :: 0 <= k < |s2| ==> perm[s2[k]] == s1[k]
    requires forall p :: 0 <= p < |a2| ==> a2[p] == a1[perm[p]]
    requires WindowReadsInRange(permuted, s1, w)
    ensures WindowReadsInRange(permuted, s2, w)
    ensures SelectUpTo(permuted, s2, a2, w, n).locs == SelectUpTo(permuted, s1, a1, w, n).locs
    ensures forall k :: 0 <= k < |SelectUpTo(permuted, s1, a1, w, n).indices| ==>
      perm[SelectUpTo(permuted, s2, a2, w, n).indices[k]] == SelectUpTo(permuted, s1, a1, w, n).indices[k]
  {
    if n != 0 {
      SelectUpToRelabelled(permuted, s1, a1, s2, a2, perm, w, n - 1);
      var loc := permuted[n - 1];
      if w.min <= loc < w.max {
        assert a2[s2[loc]] == a1[s1[loc]];
      }
    }
  }

  /**
   Where each location was computed does not change what `printAllData`
   selects, as long as the global indices are distinct and every rank
   prints: if the second gather holds at position `p` the global index and
   `where` flag the first holds at `perm[p]`, both print the same locations,
   from flat indices that `perm` carries from the second gather to the first.
   */
  lemma SelectionIndependentOfDistribution(g1: seq<int>, a1: seq<int>, g2: seq<int>, a2: seq<int>,
                                           perm: seq<nat>, w: Window)
    requires |a1| == |g1| && |a2| == |g2| == |g1|
    requires Distinct(g1) && IsPermutationOfRange(perm, |g1|)
    requires forall p :: 0 <= p < |g2| ==> g2[p] == g1[perm[p]] && a2[p] == a1[perm[p]]
    requires WindowReadsInRange(PermutedGlobalIndex(g1), StableSortIndices(g1), w)
    ensures PermutedGlobalIndex(g2) == PermutedGlobalIndex(g1)
    ensures WindowReadsInRange(PermutedGlobalIndex(g2), StableSortIndices(g2), w)
    ensures Select(PermutedGlobalIndex(g2), StableSortIndices(g2), a2, w).locs
      == Select(PermutedGlobalIndex(g1), StableSortIndices(g1), a1, w).locs
    ensures forall k :: 0 <= k < |Select(PermutedGlobalIndex(g1), StableSortIndices(g1), a1, w).indices| ==>
      perm[Select(PermutedGlobalIndex(g2), StableSortIndices(g2), a2, w).indices[k]]
        == Select(PermutedGlobalIndex(g1), StableSortIndices(g1), a1, w).indices[k]
  {
    var s1, s2 := StableSortIndices(g1), StableSortIndices(g2);
    SortRelabelled(g1, g2, perm);
    var permuted := PermutedGlobalIndex(g1);
    assert PermutedGlobalIndex(g2) == permuted by {
      forall k | 0 <= k < |g1|
        ensures PermutedGlobalIndex(g2)[k] == permuted[k]
      {
        assert g2[s2[k]] == g1[s1[k]];
      }
    }
    SelectUpToRelabelled(permuted, s1, a1, s2, a2, perm, w, |permuted|);
  }

  /** An empty window (`locmin == locmax`) selects nothing. */
  lemma EmptyWindowSelectsNothing(permuted: seq<int>, sortIndices: seq<nat>, globalApply: seq<int>, w: Window)
    requires AllBelow(sortIndices, |globalApply|)
    requires w.min == w.max
    ensures WindowReadsInRange(permuted, sortIndices, w)
    ensures Select(permuted, sortIndices, globalApply, w) == Selection([], [])
  {
    EmptyWindowSelectsNothingUpTo(permuted, sortIndices, globalApply, w, |permuted|);
  }

  lemma {:induction false} EmptyWindowSelectsNothingUpTo(permuted: seq<int>, sortIndices: seq<nat>, globalApply: seq<int>,
                                                         w: Window, n: nat)
    requires n <= |permuted|
    requires AllBelow(sortIndices, |globalApply|)
    requires w.min == w.max
    ensures WindowReadsInRange(permuted, sortIndices, w)
    ensures SelectUpTo(permuted, sortIndices, globalApply, w, n) == Selection([], [])
  {
    if n != 0 {
      EmptyWindowSelectsNothingUpTo(permuted, sortIndices, globalApply, w, n - 1);
    }
  }

  /**
   The selection the surrounding comments describe: position `idx` of the
   sorted order is printed from `sortIndices[idx]`.
   */
  function SelectIntendedUpTo(permuted: seq<int>, sortIndices: seq<nat>, globalApply: seq<int>, w: Window, n: nat)
    : (r: Selection)
    requires n <= |permuted| == |sortIndices|
    requires AllBelow(sortIndices, |globalApply|)
    ensures |r.locs| == |r.indices|
    ensures forall i :: 0 <= i < |r.indices| ==>
      w.min <= r.locs[i] < w.max && r.indices[i] < |globalApply| && globalApply[r.indices[i]] != 0
  {
    if n == 0 then Selection([], [])
    else
      var prev := SelectIntendedUpTo(permuted, sortIndices, globalApply, w, n - 1);
      var loc := permuted[n - 1];
      if w.min <= loc < w.max && globalApply[sortIndices[n - 1]] != 0 then
        Selection(prev.locs + [loc], prev.indices + [sortIndices[n - 1]])
      else
        prev
  }

  /**
   When the gathered indices are exactly `0 .. nlocs - 1` in some order, the
   ascending indices are `0 .. nlocs - 1` themselves.
   */
  lemma PermutedIsRangeUnderPermutation(globalIndex: seq<int>)
    requires multiset(globalIndex) == multiset(Range(|globalIndex|))
    ensures PermutedGlobalIndex(globalIndex) == Range(|globalIndex|)
  {
    AscendingByMultisetUnique(PermutedGlobalIndex(globalIndex), Range(|globalIndex|));
  }

  lemma {:induction false} SelectAgreesUpTo(permuted: seq<int>, sortIndices: seq<nat>, globalApply: seq<int>, w: Window, n: nat)
    requires n <= |permuted| == |sortIndices|
    requires AllBelow(sortIndices, |globalApply|)
    requires forall idx :: 0 <= idx < |permuted| ==> permuted[idx] == idx
    ensures WindowReadsInRange(permuted, sortIndices, w)
    ensures SelectUpTo(permuted, sortIndices, globalApply, w, n) == SelectIntendedUpTo(permuted, sortIndices, globalApply, w, n)
  {
    if n != 0 {
      SelectAgreesUpTo(permuted, sortIndices, globalApply, w, n - 1);
    }
  }

  /**
   The selection as written reads `sortIndices[loc]` where the comments
   describe `sortIndices[idx]`; the two agree whenever the gathered indices are
   a permutation of `0 .. nlocs - 1`.
   */
  lemma SelectAgreesUnderPermutation(globalIndex: seq<int>, globalApply: seq<int>, w: Window)
    requires |globalApply| == |globalIndex|
    requires multiset(globalIndex) == multiset(Range(|globalIndex|))
    ensures WindowReadsInRange(PermutedGlobalIndex(globalIndex), StableSortIndices(globalIndex), w)
    ensures Select(PermutedGlobalIndex(globalIndex), StableSortIndices(globalIndex), globalApply, w)
         == SelectIntendedUpTo(PermutedGlobalIndex(globalIndex), StableSortIndices(globalIndex), globalApply, w, |globalIndex|)
  {
    var permuted := PermutedGlobalIndex(globalIndex);
    PermutedIsRangeUnderPermutation(globalIndex);
    SelectAgreesUpTo(permuted, StableSortIndices(globalIndex), globalApply, w, |globalIndex|);
    assert permuted[..|permuted|] == permuted;
  }

  lemma {:induction false} SelectIntendedTakesAll(permuted: seq<int>, sortIndices: seq<nat>, globalApply: seq<int>, w: Window, n: nat)
    requires n <= |permuted| == |sortIndices|
    requires AllBelow(sortIndices, |globalApply|)
    requires forall idx :: 0 <= idx < |permuted| ==> w.min <= permuted[idx] < w.max
    requires forall j :: 0 <= j < |globalApply| ==> globalApply[j] != 0
    ensures SelectIntendedUpTo(permuted, sortIndices, globalApply, w, n) == Selection(permuted[..n], sortIndices[..n])
  {
    if n != 0 {
      SelectIntendedTakesAll(permuted, sortIndices, globalApply, w, n - 1);
      assert permuted[..n] == permuted[..n - 1] + [permuted[n - 1]];
      assert sortIndices[..n] == sortIndices[..n - 1] + [sortIndices[n - 1]];
    }
  }

  lemma FullSelectionOfIdentity(permuted: seq<int>, sortIndices: seq<nat>, globalApply: seq<int>)
    requires |permuted| == |sortIndices|
    requires AllBelow(sortIndices, |globalApply|)
    requires forall idx :: 0 <= idx < |permuted| ==> permuted[idx] == idx
    requires forall j :: 0 <= j < |globalApply| ==> globalApply[j] != 0
    ensures WindowReadsInRange(permuted, sortIndices, Window(0, |permuted|))
    ensures Select(permuted, sortIndices, globalApply, Window(0, |permuted|)) == Selection(permuted, sortIndices)
  {
    var n := |permuted|;
    var w := Window(0, n);
    SelectAgreesUpTo(permuted, sortIndices, globalApply, w, n);
    SelectIntendedTakesAll(permuted, sortIndices, globalApply, w, n);
    assert permuted[..n] == permuted;
    assert sortIndices[..n] == sortIndices;
  }

  /**
   With the whole range selected, every flag set and the gathered indices a
   permutation of `0 .. nlocs - 1`, the table prints every location in order
   and reads location `k` from `sortIndices[k]`.
   */
  lemma FullSelectionUnderPermutation(globalIndex: seq<int>, globalApply: seq<int>)
    requires |globalApply| == |globalIndex|
    requires multiset(globalIndex) == multiset(Range(|globalIndex|))
    requires forall j :: 0 <= j < |globalApply| ==> globalApply[j] != 0
    ensures WindowReadsInRange(PermutedGlobalIndex(globalIndex), StableSortIndices(globalIndex), Window(0, |globalIndex|))
    ensures Select(PermutedGlobalIndex(globalIndex), StableSortIndices(globalIndex), globalApply, Window(0, |globalIndex|))
         == Selection(Range(|globalIndex|), StableSortIndices(globalIndex))
  {
    PermutedIsRangeUnderPermutation(globalIndex);
    FullSelectionOfIdentity(PermutedGlobalIndex(globalIndex), StableSortIndices(globalIndex), globalApply);
  }

  /** The sort of the gathered indices `[2, 4, 1, 3]` from the comments of `printAllData`. */
  lemma GappedExampleSort(keys: seq<int>)
    requires keys == [2, 4, 1, 3]
    ensures StableSortIndices(keys) == [2, 0, 3, 1]
    ensures PermutedGlobalIndex(keys) == [1, 2, 3, 4]
  {
    GappedExampleOrder(keys);
    assert Permute(keys, [2, 0, 3, 1]) == [1, 2, 3, 4];
  }

  lemma GappedExampleOrder(keys: seq<int>)
    requires keys == [2, 4, 1, 3]
    ensures StableSortIndices(keys) == [2, 0, 3, 1]
  {
    var s: seq<nat> := [2, 0, 3, 1];
    assert forall x: nat :: x < 4 ==> x in s by {
      assert s[1] == 0 && s[3] == 1 && s[0] == 2 && s[2] == 3;
    }
    assert Before(keys, s[0], s[1]) && Before(keys, s[1], s[2]) && Before(keys, s[2], s[3]);
    StableSortByNeighbours(keys, s);
  }

  lemma GappedExampleSelect(permuted: seq<int>, sortIndices: seq<nat>, globalApply: seq<int>)
    requires permuted == [1, 2, 3, 4] && sortIndices == [2, 0, 3, 1] && globalApply == [1, 1, 1, 1]
    ensures WindowReadsInRange(permuted, sortIndices, Window(0, 4))
    ensures Select(permuted, sortIndices, globalApply, Window(0, 4)) == Selection([1, 2, 3], [0, 3, 1])
    ensures !WindowReadsInRange(permuted, sortIndices, Window(0, 5))
  {
    var w := Window(0, 4);
    assert WindowReadsInRange(permuted, sortIndices, w);
    SelectUpToNext(permuted, sortIndices, globalApply, w, 0);
    SelectUpToNext(permuted, sortIndices, globalApply, w, 1);
    SelectUpToNext(permuted, sortIndices, globalApply, w, 2);
    SelectUpToNext(permuted, sortIndices, globalApply, w, 3);
    assert permuted[3] == 4;
  }

  /** One more sorted position of the selection the comments describe. */
  lemma SelectIntendedNext(permuted: seq<int>, sortIndices: seq<nat>, globalApply: seq<int>, w: Window, n: nat)
    requires n < |permuted| == |sortIndices|
    requires AllBelow(sortIndices, |globalApply|)
    ensures var prev := SelectIntendedUpTo(permuted, sortIndices, globalApply, w, n);
      SelectIntendedUpTo(permuted, sortIndices, globalApply, w, n + 1) ==
        if w.min <= permuted[n] < w.max && globalApply[sortIndices[n]] != 0
        then Selection(prev.locs + [permuted[n]], prev.indices + [sortIndices[n]])
        else prev
  {
  }

  /** The comments' reading of the gapped example prints all four locations. */
  lemma GappedExampleIntended()
    ensures SelectIntendedUpTo([1, 2, 3, 4], [2, 0, 3, 1], [1, 1, 1, 1], Window(0, 5), 4) == Selection([1, 2, 3, 4], [2, 0, 3, 1])
  {
  }

  /**
   The example in the comments of `printAllData`, gathered indices
   `[2, 4, 1, 3]` with every flag set: the comments expect locations
   `[1, 2, 3, 4]` read from flat positions `[2, 0, 3, 1]`. As written, the
   default window `[0, 4)` prints locations `[1, 2, 3]` read from flat
   positions `[0, 3, 1]` (location 1 shows the record of location 2, and
   location 4 is dropped), and a window `[0, 5)` would read `sortIndices[4]`,
   past the end, where reading `sortIndices[idx]` prints what the comments say.
   */
  lemma GappedExampleAsWritten(keys: seq<int>, globalApply: seq<int>)
    requires keys == [2, 4, 1, 3] && globalApply == [1, 1, 1, 1]
    ensures StableSortIndices(keys) == [2, 0, 3, 1]
    ensures PermutedGlobalIndex(keys) == [1, 2, 3, 4]
    ensures NormaliseWindow(0, 0, |keys|) == Success(Window(0, 4))
    ensures WindowReadsInRange(PermutedGlobalIndex(keys), StableSortIndices(keys), Window(0, 4))
    ensures Select(PermutedGlobalIndex(keys), StableSortIndices(keys), globalApply, Window(0, 4))
         == Selection([1, 2, 3], [0, 3, 1])
    ensures NormaliseWindow(0, 5, |keys|) == Success(Window(0, 5))
    ensures !WindowReadsInRange(PermutedGlobalIndex(keys), StableSortIndices(keys), Window(0, 5))
    ensures SelectIntendedUpTo(PermutedGlobalIndex(keys), StableSortIndices(keys), globalApply, Window(0, 5), 4)
         == Selection([1, 2, 3, 4], [2, 0, 3, 1])
  {
    GappedExampleSort(keys);
    GappedExampleSelect(PermutedGlobalIndex(keys), StableSortIndices(keys), globalApply);
    GappedExampleIntended();
  }

  lemma PermutationExampleSort(keys: seq<int>)
    requires keys == [1, 3, 0, 2]
    ensures StableSortIndices(keys) == [2, 0, 3, 1]
    ensures PermutedGlobalIndex(keys) == [0, 1, 2, 3]
  {
    PermutationExampleOrder(keys);
    assert Permute(keys, [2, 0, 3, 1]) == [0, 1, 2, 3];
  }

  lemma PermutationExampleOrder(keys: seq<int>)
    requires keys == [1, 3, 0, 2]
    ensures StableSortIndices(keys) == [2, 0, 3, 1]
  {
    var s: seq<nat> := [2, 0, 3, 1];
    assert forall x: nat :: x < 4 ==> x in s by {
      assert s[1] == 0 && s[3] == 1 && s[0] == 2 && s[2] == 3;
    }
    assert Before(keys, s[0], s[1]) && Before(keys, s[1], s[2]) && Before(keys, s[2], s[3]);
    StableSortByNeighbours(keys, s);
  }

  /**
   The same records numbered `0 .. 3` (a permutation): the selection prints
   locations `[0, 1, 2, 3]` from flat positions `[2, 0, 3, 1]`, as the
   comments describe.
   */
  lemma PermutationExampleMatchesComments(keys: seq<int>, globalApply: seq<int>)
    requires keys == [1, 3, 0, 2] && globalApply == [1, 1, 1, 1]
    ensures StableSortIndices(keys) == [2, 0, 3, 1]
    ensures WindowReadsInRange(PermutedGlobalIndex(keys), StableSortIndices(keys), Window(0, 4))
    ensures Select(PermutedGlobalIndex(keys), StableSortIndices(keys), globalApply, Window(0, 4))
         == Selection([0, 1, 2, 3], [2, 0, 3, 1])
  {
    PermutationExampleSort(keys);
    PermutationExampleSelect(PermutedGlobalIndex(keys), StableSortIndices(keys), globalApply);
  }

  lemma PermutationExampleSelect(permuted: seq<int>, sortIndices: seq<nat>, globalApply: seq<int>)
    requires permuted == [0, 1, 2, 3] && sortIndices == [2, 0, 3, 1] && globalApply == [1, 1, 1, 1]
    ensures WindowReadsInRange(permuted, sortIndices, Window(0, 4))
    ensures Select(permuted, sortIndices, globalApply, Window(0, 4)) == Selection([0, 1, 2, 3], [2, 0, 3, 1])
  {
    assert forall idx :: 0 <= idx < |permuted| ==> permuted[idx] == idx;
    FullSelectionOfIdentity(permuted, sortIndices, globalApply);
  }

  lemma DuplicateExampleSelect(permuted: seq<int>, sortIndices: seq<nat>, globalApply: seq<int>)
    requires permuted == [0, 0, 2] && sortIndices == [0, 1, 2] && globalApply == [1, 1, 1]
    ensures WindowReadsInRange(permuted, sortIndices, Window(0, 3))
    ensures Select(permuted, sortIndices, globalApply, Window(0, 3)).indices == [0, 0, 2]
  {
    var w := Window(0, 3);
    assert WindowReadsInRange(permuted, sortIndices, w);
    SelectUpToNext(permuted, sortIndices, globalApply, w, 0);
    SelectUpToNext(permuted, sortIndices, globalApply, w, 1);
    SelectUpToNext(permuted, sortIndices, globalApply, w, 2);
  }

  lemma DuplicateExampleIntended(permuted: seq<int>, sortIndices: seq<nat>, globalApply: seq<int>)
    requires permuted == [0, 0, 2] && sortIndices == [0, 1, 2] && globalApply == [1, 1, 1]
    ensures SelectIntendedUpTo(permuted, sortIndices, globalApply, Window(0, 3), 3).indices == [0, 1, 2]
  {
    var w := Window(0, 3);
    SelectIntendedNext(permuted, sortIndices, globalApply, w, 0);
    SelectIntendedNext(permuted, sortIndices, globalApply, w, 1);
    SelectIntendedNext(permuted, sortIndices, globalApply, w, 2);
  }

  /**
   A duplicated global index (no gap, no read past the end) also makes the
   as-written selection differ from the intended one: gathered indices
   `[0, 0, 2]` print flat position 0 twice and never flat position 1.
   */
  lemma DuplicateExampleDiverges(keys: seq<int>, globalApply: seq<int>)
    requires keys == [0, 0, 2] && globalApply == [1, 1, 1]
    ensures StableSortIndices(keys) == [0, 1, 2]
    ensures WindowReadsInRange(PermutedGlobalIndex(keys), StableSortIndices(keys), Window(0, 3))
    ensures Select(PermutedGlobalIndex(keys), StableSortIndices(keys), globalApply, Window(0, 3)).indices == [0, 0, 2]
    ensures SelectIntendedUpTo(PermutedGlobalIndex(keys), StableSortIndices(keys), globalApply, Window(0, 3), 3).indices
         == [0, 1, 2]
  {
    var s: seq<nat> := [0, 1, 2];
    assert forall x: nat :: x < 3 ==> x in s by {
      assert s[0] == 0 && s[1] == 1 && s[2] == 2;
    }
    assert Before(keys, s[0], s[1]) && Before(keys, s[1], s[2]);
    StableSortByNeighbours(keys, s);
    assert Permute(keys, s) == [0, 0, 2];
    DuplicateExampleSelect(PermutedGlobalIndex(keys), StableSortIndices(keys), globalApply);
    DuplicateExampleIntended(PermutedGlobalIndex(keys), StableSortIndices(keys), globalApply);
  }
}
