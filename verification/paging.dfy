/**
 How `printAllData` splits the selected locations into table rows: the number
 of location columns that fit the configured text width, and the cutting of
 the selection into consecutive rows of that many locations.
 */
module Paging {
  import opened Seqs
  import opened Text

  /** C++ integer division, which truncates toward zero. */
  function TruncDiv(a: int, b: int): int
    requires b != 0
  {
    var q := (if a < 0 then -a else a) / (if b < 0 then -b else b);
    if (a < 0) != (b < 0) then -q else q
  }

  /**
   `nlocsPerRow`: how many location columns fit beside the name column. Each
   column takes `columnWidth` characters plus the three of its " | " separator;
   at least one column is printed even when none fits.
   */
  function LocationsPerRow(maxTextWidth: int, nameWidth: int, columnWidth: int): (r: int)
    requires columnWidth + 3 != 0
    ensures 1 <= r
    ensures columnWidth + 3 > 0 ==> r == Max((maxTextWidth - nameWidth) / (columnWidth + 3), 1)
    ensures columnWidth + 3 > 0 && 1 < r ==> r * (columnWidth + 3) <= maxTextWidth - nameWidth
    ensures columnWidth + 3 > 0 && 1 <= r ==>
      maxTextWidth - nameWidth < (r + 1) * (columnWidth + 3) || r == 1
  {
    Max(TruncDiv(maxTextWidth - nameWidth, columnWidth + 3), 1)
  }

  /** The sizes of the worked example: column width 8, text width 40, name width 10. */
  lemma TwoColumnsFitExample()
    ensures LocationsPerRow(40, 10, 8) == 2
  {
  }

  /**
   `rows` cuts `s` into consecutive non-empty rows, every row but the last
   holding exactly `k` elements.
   */
  predicate IsRowPartition<T(==)>(rows: seq<seq<T>>, s: seq<T>, k: int) {
    && Flatten(rows) == s
    && (forall r :: 0 <= r < |rows| ==> 1 <= |rows[r]| <= k)
    && (forall r :: 0 <= r < |rows| - 1 ==> |rows[r]| == k)
  }

  /** The rows of `k` elements, as a reference definition. */
  function Chunk<T(==)>(s: seq<T>, k: int): (rows: seq<seq<T>>)
    requires 1 <= k
    ensures IsRowPartition(rows, s, k)
    decreases |s|
  {
    if |s| == 0 then []
    else if |s| <= k then
      assert Flatten([s]) == Flatten([s][..0]) + s;
      [s]
    else
      var rest := Chunk(s[k..], k);
      FlattenPrepend(s[..k], rest);
      assert s[..k] + s[k..] == s;
      [s[..k]] + rest
  }

  /** Where row `i` of a cutting into rows of `k` starts, counted row by row. */
  function RowStart(i: nat, k: nat): nat {
    if i == 0 then 0 else RowStart(i - 1, k) + k
  }

  lemma {:induction false} RowStartIsProduct(i: nat, k: nat)
    ensures RowStart(i, k) == i * k
  {
    if i != 0 {
      RowStartIsProduct(i - 1, k);
      MulStep(i, k);
    }
  }

  /** Row `i` of the cutting holds the elements from its start up to `k` further or the end. */
  lemma {:induction false} ChunkRowFrom<T>(s: seq<T>, k: int, i: nat)
    requires 1 <= k && i < |Chunk(s, k)|
    ensures 0 <= RowStart(i, k) < |s|
    ensures Chunk(s, k)[i] == s[RowStart(i, k)..Min(RowStart(i, k) + k, |s|)]
    decreases |s|
  {
    if k < |s| && i != 0 {
      var t := s[k..];
      ChunkRowFrom(t, k, i - 1);
      assert Chunk(s, k)[i] == Chunk(t, k)[i - 1];
      DropSlice(s, k, RowStart(i - 1, k), Min(RowStart(i - 1, k) + k, |t|));
    } else {
      assert i == 0;
      assert Chunk(s, k)[0] == s[..Min(k, |s|)];
    }
  }

  /** Row `i` of the cutting holds the elements from `i * k` up to the next multiple of `k` or the end. */
  lemma ChunkAt<T>(s: seq<T>, k: int, i: nat)
    requires 1 <= k && i < |Chunk(s, k)|
    ensures i * k < |s|
    ensures Chunk(s, k)[i] == s[i * k..Min((i + 1) * k, |s|)]
  {
    ChunkRowFrom(s, k, i);
    RowStartIsProduct(i, k);
    RowStartIsProduct(i + 1, k);
  }

  lemma MulStep(i: nat, k: int)
    requires 0 < i
    ensures (i - 1) * k + k == i * k
    ensures i * k + k == (i + 1) * k
  {
  }

  /** Slicing after dropping `k` elements is slicing `k` further along. */
  lemma DropSlice<T>(s: seq<T>, k: nat, lo: nat, hi: nat)
    requires k <= |s| && lo <= hi <= |s| - k
    ensures s[k..][lo..hi] == s[k + lo..k + hi]
  {
  }

  /** There is a row `i` whenever `i * k` is a position of `s`. */
  lemma {:induction false} ChunkHasRow<T>(s: seq<T>, k: int, i: nat)
    requires 1 <= k && i * k < |s|
    ensures i < |Chunk(s, k)|
    decreases |s|
  {
    if i != 0 {
      MulStep(i, k);
      ChunkHasRow(s[k..], k, i - 1);
    }
  }

  /** There are as many rows as `k` goes into the length, rounded up. */
  lemma {:induction false} ChunkCount<T>(s: seq<T>, k: int)
    requires 1 <= k
    ensures |Chunk(s, k)| == (|s| + k - 1) / k
    decreases |s|
  {
    if |s| == 0 {
      DivUnique(k - 1, 0, k - 1, k);
    } else if |s| <= k {
      DivUnique(|s| + k - 1, 1, |s| - 1, k);
    } else {
      ChunkCount(s[k..], k);
      CeilDivStep(|s|, k);
    }
  }

  /** One more full row's worth of elements needs one more row. */
  lemma CeilDivStep(n: int, k: int)
    requires 1 <= k < n
    ensures (n + k - 1) / k == (n - 1) / k + 1
  {
    var q, r := (n - 1) / k, (n - 1) % k;
    MulStep(q + 1, k);
    DivUnique(n + k - 1, q + 1, r, k);
  }

  /** The row cutting is determined by its contract: any such partition is `Chunk`. */
  lemma {:induction false} RowPartitionUnique<T>(rows: seq<seq<T>>, s: seq<T>, k: int)
    requires 1 <= k
    requires IsRowPartition(rows, s, k)
    ensures rows == Chunk(s, k)
    decreases |rows|
  {
    if |rows| == 0 {
    } else {
      var rest := rows[1..];
      FlattenPrepend(rows[0], rest);
      assert rows == [rows[0]] + rest;
      FlattenLength(rest);
      if |rows| == 1 {
        assert Flatten(rest) == [];
        assert s == rows[0];
      } else {
        assert |rows[0]| == k;
        assert 0 < |rows[1]|;
        RestNonEmpty(rest);
        assert s[..k] == rows[0];
        assert s[k..] == Flatten(rest);
        RowPartitionUnique(rest, s[k..], k);
      }
    }
  }

  lemma {:induction false} RestNonEmpty<T>(rows: seq<seq<T>>)
    requires 0 < |rows| && 0 < |rows[0]|
    ensures 0 < |Flatten(rows)|
  {
    FlattenPrepend(rows[0], rows[1..]);
    assert rows == [rows[0]] + rows[1..];
  }

  /** The worked example in the comments: four locations, three per row. */
  lemma ChunkExample()
    ensures Chunk([1, 2, 3, 4], 3) == [[1, 2, 3], [4]]
    ensures Chunk([2, 0, 3, 1], 3) == [[2, 0, 3], [1]]
  {
    assert [1, 2, 3, 4][..3] == [1, 2, 3] && [1, 2, 3, 4][3..] == [4];
    assert [2, 0, 3, 1][..3] == [2, 0, 3] && [2, 0, 3, 1][3..] == [1];
  }

  /** Five selected locations, two per row, give rows of 2, 2 and 1. */
  lemma FiveByTwoExample()
    ensures Chunk([10, 11, 12, 13, 14], 2) == [[10, 11], [12, 13], [14]]
  {
    var s := [10, 11, 12, 13, 14];
    assert s[..2] == [10, 11] && s[2..] == [12, 13, 14];
    assert s[2..][..2] == [12, 13] && s[2..][2..] == [14];
    assert Chunk([14], 2) == [[14]];
    assert Chunk([12, 13, 14], 2) == [[12, 13], [14]];
  }

  /** The remainder is the `r` of any decomposition `a == q * k + r` with `0 <= r < k`. */
  lemma ModUnique(a: int, q: int, r: int, k: int)
    requires 0 < k && 0 <= r < k
    requires a == q * k + r
    ensures a % k == r
  {
    var d := q - a / k;
    assert d * k == a % k - r;
  }

  /** The quotient is the `q` of any decomposition `a == q * k + r` with `0 <= r < k`. */
  lemma DivUnique(a: int, q: int, r: int, k: int)
    requires 0 < k && 0 <= r < k
    requires a == q * k + r
    ensures a / k == q
  {
    ModUnique(a, q, r, k);
    var d := q - a / k;
    assert d * k == 0;
  }

  /** Equal remainders stay equal after adding one to both sides. */
  lemma ModSucc(a: int, b: int, k: int)
    requires 0 < k
    requires a % k == b % k
    ensures (a + 1) % k == (b + 1) % k
  {
    var r := a % k;
    if r + 1 < k {
      ModUnique(a + 1, a / k, r + 1, k);
      ModUnique(b + 1, b / k, r + 1, k);
    } else {
      ModUnique(a + 1, a / k + 1, 0, k);
      ModUnique(b + 1, b / k + 1, 0, k);
    }
  }

  /** `rows` with `x` appended to its last row (`rows.back().push_back(x)`). */
  function AppendToLast<T>(rows: seq<seq<T>>, x: T): (r: seq<seq<T>>)
    requires 0 < |rows|
    ensures |r| == |rows|
    ensures Flatten(r) == Flatten(rows) + [x]
    ensures r[|r| - 1] == rows[|rows| - 1] + [x]
    ensures forall j :: 0 <= j < |rows| - 1 ==> r[j] == rows[j]
  {
    var m := |rows| - 1;
    FlattenAppend(rows[..m], rows[m]);
    FlattenAppend(rows[..m], rows[m] + [x]);
    assert rows == rows[..m] + [rows[m]];
    rows[..m] + [rows[m] + [x]]
  }

  /** One step of the row-building loop: open a new row when `count` is a multiple of `k`, then append `x` to the last row. */
  function NextRows<T>(rows: seq<seq<T>>, count: int, k: int, x: T): seq<seq<T>>
    requires 1 <= k
    requires count % k == 0 || 0 < |rows|
  {
    if count % k == 0 then AppendToLast(rows + [[]], x) else AppendToLast(rows, x)
  }

  /** Rows that are all full hold `k` elements each. */
  lemma {:induction false} FullRowsLength<T>(rows: seq<seq<T>>, k: int)
    requires forall r :: 0 <= r < |rows| ==> |rows[r]| == k
    ensures |Flatten(rows)| == |rows| * k
  {
    if |rows| > 0 {
      var m := |rows| - 1;
      FlattenAppend(rows[..m], rows[m]);
      assert rows == rows[..m] + [rows[m]];
      FullRowsLength(rows[..m], k);
    }
  }

  /** In a concatenation of rows that all hold `n` elements, element `t` of row `i` sits at `i * n + t`. */
  lemma {:induction false} FlattenUniformAt<T>(rows: seq<seq<T>>, n: nat, i: nat, t: nat)
    requires forall r :: 0 <= r < |rows| ==> |rows[r]| == n
    requires i < |rows| && t < n
    ensures |Flatten(rows)| == |rows| * n
    ensures 0 <= i * n && i * n + t < |rows| * n
    ensures Flatten(rows)[i * n + t] == rows[i][t]
  {
    var m := |rows| - 1;
    var init := rows[..m];
    FullRowsLength(rows, n);
    FullRowsLength(init, n);
    assert Flatten(rows) == Flatten(init) + rows[m];
    assert |rows| * n == m * n + n;
    if i < m {
      FlattenUniformAt(init, n, i, t);
      MulMono(i + 1, m, n);
      assert i * n + n == (i + 1) * n;
    } else {
      assert i * n == |Flatten(init)|;
    }
  }

  /** The length of a row partition is fixed by its number of rows and its last row. */
  lemma PartitionLength<T>(rows: seq<seq<T>>, s: seq<T>, k: int)
    requires 1 <= k && 0 < |rows|
    requires IsRowPartition(rows, s, k)
    ensures |s| == (|rows| - 1) * k + |rows[|rows| - 1]|
  {
    var m := |rows| - 1;
    FlattenAppend(rows[..m], rows[m]);
    assert rows == rows[..m] + [rows[m]];
    FullRowsLength(rows[..m], k);
  }

  /** The loop step keeps the rows a partition of what has been seen so far. */
  lemma {:induction false} NextRowsPartition<T>(rows: seq<seq<T>>, s: seq<T>, k: int, count: int, x: T)
    requires 1 <= k && count == |s|
    requires IsRowPartition(rows, s, k)
    ensures count % k == 0 || 0 < |rows|
    ensures IsRowPartition(NextRows(rows, count, k, x), s + [x], k)
  {
    if |rows| == 0 {
      FlattenLength(rows);
    } else {
      PartitionLength(rows, s, k);
      var last := |rows[|rows| - 1]|;
      if last == k {
        ModUnique(|s|, |rows|, 0, k);
        FlattenAppend(rows, []);
      } else {
        ModUnique(|s|, |rows| - 1, last, k);
      }
    }
    if |s| % k == 0 {
      FlattenAppend(rows, []);
    }
  }

  /** Chunking two sequences of equal length gives rows of equal shape. */
  lemma {:induction false} ChunkSameShape<A, B>(a: seq<A>, b: seq<B>, k: int)
    requires 1 <= k && |a| == |b|
    ensures |Chunk(a, k)| == |Chunk(b, k)|
    ensures forall r :: 0 <= r < |Chunk(a, k)| ==> |Chunk(a, k)[r]| == |Chunk(b, k)[r]|
    decreases |a|
  {
    if k < |a| {
      ChunkSameShape(a[k..], b[k..], k);
    }
  }

  /**
   Chunking keeps positions: when `perm` carries each element of `a` to the
   element of `b` at the same position, it carries each element of a row of
   `Chunk(a, k)` to the element of `Chunk(b, k)` at the same place.
   */
  lemma {:induction false} ChunkRelabelled(a: seq<nat>, b: seq<nat>, perm: seq<nat>, k: int)
    requires 1 <= k && |a| == |b|
    requires forall t :: 0 <= t < |a| ==> a[t] < |perm| && perm[a[t]] == b[t]
    ensures |Chunk<nat>(a, k)| == |Chunk<nat>(b, k)|
    ensures forall r, j :: 0 <= r < |Chunk<nat>(a, k)| && 0 <= j < |Chunk<nat>(a, k)[r]| ==>
      && j < |Chunk<nat>(b, k)[r]|
      && Chunk<nat>(a, k)[r][j] < |perm|
      && perm[Chunk<nat>(a, k)[r][j]] == Chunk<nat>(b, k)[r][j]
    decreases |a|
  {
    ChunkSameShape<nat, nat>(a, b, k);
    if k < |a| {
      var ra, rb := Chunk<nat>(a, k), Chunk<nat>(b, k);
      ChunkRelabelled(a[k..], b[k..], perm, k);
      forall r, j | 0 <= r < |ra| && 0 <= j < |ra[r]|
        ensures ra[r][j] < |perm| && perm[ra[r][j]] == rb[r][j]
      {
        if r == 0 {
          assert ra[0] == a[..k] && rb[0] == b[..k];
        } else {
          assert ra[r] == Chunk<nat>(a[k..], k)[r - 1] && rb[r] == Chunk<nat>(b[k..], k)[r - 1];
        }
      }
    } else if |a| != 0 {
      assert Chunk<nat>(a, k) == [a] && Chunk<nat>(b, k) == [b];
    }
  }

  /** Two row partitions of equal-length sequences are the chunkings and have the same shape. */
  lemma PartitionsSameShape<A, B>(ra: seq<seq<A>>, a: seq<A>, rb: seq<seq<B>>, b: seq<B>, k: int)
    requires 1 <= k && |a| == |b|
    requires IsRowPartition(ra, a, k) && IsRowPartition(rb, b, k)
    ensures ra == Chunk(a, k) && rb == Chunk(b, k)
    ensures |ra| == |rb|
    ensures forall r :: 0 <= r < |ra| ==> |ra[r]| == |rb[r]|
  {
    RowPartitionUnique(ra, a, k);
    RowPartitionUnique(rb, b, k);
    ChunkSameShape(a, b, k);
  }

  /**
   The row-building loop of `printAllData`: a new row is opened whenever the
   running count is a multiple of `nlocsPerRow`, and each location is appended
   to the last row together with its flat index.
   */
  method Paginate(locs: seq<int>, indices: seq<nat>, perRow: int)
    returns (rowLocs: seq<seq<int>>, rowIndices: seq<seq<nat>>)
    requires |locs| <= |indices|
    requires 1 <= perRow
    ensures IsRowPartition(rowLocs, locs, perRow)
    ensures IsRowPartition(rowIndices, indices[..|locs|], perRow)
    ensures |rowLocs| == |rowIndices|
    ensures forall r :: 0 <= r < |rowLocs| ==> |rowLocs[r]| == |rowIndices[r]|
    ensures rowLocs == Chunk(locs, perRow)
  {
    rowLocs, rowIndices := [], [];
    var count := 0;
    var i := 0;
    while i < |locs|
      invariant 0 <= i <= |locs|
      invariant count == i
      invariant IsRowPartition(rowLocs, locs[..i], perRow)
      invariant IsRowPartition(rowIndices, indices[..i], perRow)
    {
      var idx := indices[i];
      var loc := locs[i];
      NextRowsPartition(rowLocs, locs[..i], perRow, count, loc);
      NextRowsPartition(rowIndices, indices[..i], perRow, count, idx);
      rowLocs := NextRows(rowLocs, count, perRow, loc);
      rowIndices := NextRows(rowIndices, count, perRow, idx);
      assert locs[..i + 1] == locs[..i] + [loc];
      assert indices[..i + 1] == indices[..i] + [idx];
      count := count + 1;
      i := i + 1;
    }
    assert locs[..i] == locs;
    PartitionsSameShape(rowLocs, locs, rowIndices, indices[..i], perRow);
  }
}
