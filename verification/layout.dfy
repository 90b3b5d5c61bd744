/** The masonry grid shared by the dashboard and the public share view: the
    viewport width picks a column count, and the cards are dealt round-robin
    into that many columns (card `i` goes to column `i % columns`). */
module Layout {
  import opened Sequences

  /** The breakpoint map of `useResponsiveColumns`. */
  function ColumnsForWidth(width: int): (columns: nat)
    ensures 1 <= columns <= 4
    ensures columns == 1 <==> width < 640
    ensures columns == 2 <==> 640 <= width < 1024
    ensures columns == 3 <==> 1024 <= width < 1536
    ensures columns == 4 <==> width >= 1536
  {
    if width < 640 then 1
    else if width < 1024 then 2
    else if width < 1536 then 3
    else 4
  }

  /** A wider window never has fewer columns. */
  lemma ColumnsMonotone(narrow: int, wide: int)
    requires narrow <= wide
    ensures ColumnsForWidth(narrow) <= ColumnsForWidth(wide)
  {
  }

  // ---------------------------------------------------------------------------
  // Reference definition of the round-robin layout

  /** The elements of `xs` at positions `k`, `k + c`, `k + 2c`, ... in order. */
  function Stride<T>(xs: seq<T>, k: nat, c: nat): (col: seq<T>)
    requires c >= 1
    decreases |xs| - k
  {
    if k < |xs| then [xs[k]] + Stride(xs, k + c, c) else []
  }

  /** Row `j` of the stride from `k` is the element at position `k + j * c`,
      and the stride stops only once the next position would leave `xs`. */
  lemma {:induction false} StrideIndex<T>(xs: seq<T>, k: nat, c: nat)
    requires c >= 1
    ensures forall j :: 0 <= j < |Stride(xs, k, c)| ==>
      k + j * c < |xs| && Stride(xs, k, c)[j] == xs[k + j * c]
    ensures k + |Stride(xs, k, c)| * c >= |xs|
    decreases |xs| - k
  {
    if k < |xs| {
      var col, rest := Stride(xs, k, c), Stride(xs, k + c, c);
      StrideIndex(xs, k + c, c);
      forall j | 0 <= j < |col| ensures k + j * c < |xs| && col[j] == xs[k + j * c] {
        if j > 0 {
          assert col[j] == rest[j - 1];
          MulSucc(j - 1, c);
        }
      }
      MulSucc(|rest|, c);
    }
  }

  /** Column `k` of the layout holds the elements whose position is `k` modulo
      `c`, in their original order. */
  function Deal<T>(xs: seq<T>, c: nat): seq<seq<T>>
    requires c >= 1
  {
    seq(c, k requires 0 <= k < c => Stride(xs, k, c))
  }

  /** Column sizes never grow from left to right and differ by at most one. */
  predicate Balanced<T>(grid: seq<seq<T>>) {
    forall k1, k2 :: 0 <= k1 <= k2 < |grid| ==> |grid[k2]| <= |grid[k1]| <= |grid[k2]| + 1
  }

  /** Every column lists its elements in the order they have in `xs`. */
  predicate ColumnsInOrder<T(==)>(grid: seq<seq<T>>, xs: seq<T>) {
    forall k :: 0 <= k < |grid| ==> IsSubsequence(grid[k], xs)
  }

  /** `grid` is `xs` dealt round-robin into `c` columns: element `i` sits in
      column `i % c` at row `i / c`, nothing else is there, the columns are
      balanced and keep the input order. */
  predicate IsRoundRobin<T(==)>(grid: seq<seq<T>>, xs: seq<T>, c: nat)
    requires c >= 1
  {
    && |grid| == c
    && (forall i :: 0 <= i < |xs| ==> i / c < |grid[i % c]| && grid[i % c][i / c] == xs[i])
    && SumLengths(grid) == |xs|
    && multiset(Flatten(grid)) == multiset(xs)
    && Balanced(grid)
    && ColumnsInOrder(grid, xs)
  }

  // ---------------------------------------------------------------------------
  // The loop of `distributeCards`

  /** `distributeCards`: start from `columns` empty arrays and push card `i`
      onto array `i % columns`. */
  method DistributeCards<T>(items: seq<T>, columns: nat) returns (grid: seq<seq<T>>)
    requires columns >= 1
    ensures grid == Deal(items, columns)
  {
    grid := seq(columns, _ => []);
    assert grid == Deal([], columns);
    var i := 0;
    while i < |items|
      invariant i <= |items|
      invariant grid == Deal(items[..i], columns)
    {
      var column := i % columns;
      DealSnoc(items[..i], items[i], columns);
      assert items[..i + 1] == items[..i] + [items[i]];
      grid := grid[column := grid[column] + [items[i]]];
      i := i + 1;
    }
    assert items[..i] == items;
  }

  // ---------------------------------------------------------------------------
  // Arithmetic on Euclidean division

  lemma MulSucc(j: int, c: int)
    ensures (j + 1) * c == j * c + c
  {
  }

  lemma MulAtLeast(a: int, c: int)
    requires a >= 1 && c > 0
    ensures a * c >= c
  {
  }

  lemma MulMonotone(a: int, b: int, c: int)
    requires a <= b && c >= 0
    ensures a * c <= b * c
  {
    assert b * c - a * c == (b - a) * c;
  }

  /** Quotient and remainder are unique. */
  lemma DivModUnique(n: int, c: int, q: int, r: int)
    requires c > 0 && 0 <= r < c && n == q * c + r
    ensures n / c == q && n % c == r
  {
    var q', r' := n / c, n % c;
    assert n == q' * c + r';
    assert (q - q') * c == r' - r;
    if q > q' {
      MulAtLeast(q - q', c);
    } else if q' > q {
      MulAtLeast(q' - q, c);
    }
  }

  /** Position `n` lies on the stride starting at `k < c` exactly when
      `n % c == k`. */
  lemma OnStride(n: nat, k: nat, c: nat)
    requires k < c
    ensures (k <= n && (n - k) % c == 0) <==> n % c == k
  {
    if n % c == k {
      DivModUnique(n - k, c, n / c, 0);
    }
    if k <= n && (n - k) % c == 0 {
      DivModUnique(n, c, (n - k) / c, k);
    }
  }

  /** Stepping back by `c` keeps the remainder. */
  lemma ModStep(n: int, c: int)
    requires n >= c >= 1
    ensures (n - c) % c == n % c
  {
    DivModUnique(n - c, c, n / c - 1, n % c);
  }

  /** A position below `c` is its own remainder. */
  lemma ModSmall(n: int, c: int)
    requires 0 <= n < c
    ensures n % c == n
  {
    DivModUnique(n, c, 0, n);
  }

  /** A row index whose position lies inside the input lies inside a column
      that reaches past the input. */
  lemma RowBound(k: int, q: int, c: int, n: int, len: int)
    requires c >= 1 && k >= 0 && q >= 0 && k + q * c < len <= k + n * c
    ensures q < n
  {
    if q >= n {
      MulMonotone(n, q, c);
    }
  }

  /** Euclidean division splits a position into column and row. */
  lemma ColumnAndRow(i: int, c: int)
    requires c >= 1 && i >= 0
    ensures 0 <= i % c < c && i / c >= 0 && i == i % c + (i / c) * c
  {
  }


  // ---------------------------------------------------------------------------
  // Growing the input by one element

  /** Appending `x` to the input extends the stride starting at `k` by `x`
      exactly when `x`'s position is reached from `k` in steps of `c`. */
  lemma {:induction false} StrideSnoc<T>(xs: seq<T>, x: T, k: nat, c: nat)
    requires c >= 1
    ensures Stride(xs + [x], k, c)
         == Stride(xs, k, c) + (if k <= |xs| && (|xs| - k) % c == 0 then [x] else [])
    decreases |xs| + 1 - k
  {
    var ys := xs + [x];
    if k < |xs| {
      StrideSnoc(xs, x, k + c, c);
      assert ys[k] == xs[k];
      if k + c <= |xs| {
        ModStep(|xs| - k, c);
      } else {
        ModSmall(|xs| - k, c);
      }
    }
  }

  /** Appending `x` to the input appends it to column `|xs| % c` and leaves
      every other column as it was. */
  lemma DealSnoc<T>(xs: seq<T>, x: T, c: nat)
    requires c >= 1
    ensures Deal(xs + [x], c) == Deal(xs, c)[|xs| % c := Deal(xs, c)[|xs| % c] + [x]]
  {
    forall k | 0 <= k < c
      ensures Deal(xs + [x], c)[k] == Deal(xs, c)[|xs| % c := Deal(xs, c)[|xs| % c] + [x]][k]
    {
      StrideSnoc(xs, x, k, c);
      OnStride(|xs|, k, c);
    }
  }

  // ---------------------------------------------------------------------------
  // Properties of the layout

  /** With nothing to lay out there are still `c` columns, all empty. */
  lemma DealEmpty<T>(xs: seq<T>, c: nat)
    requires c >= 1 && xs == []
    ensures |Deal(xs, c)| == c
    ensures forall k :: 0 <= k < c ==> Deal(xs, c)[k] == []
  {
  }

  lemma StrideLength<T>(xs: seq<T>, k: nat, c: nat)
    requires c >= 1
    ensures k + |Stride(xs, k, c)| * c >= |xs|
  {
    StrideIndex(xs, k, c);
  }

  lemma StrideAt<T>(xs: seq<T>, k: nat, c: nat, j: nat)
    requires c >= 1 && j < |Stride(xs, k, c)|
    ensures k + j * c < |xs| && Stride(xs, k, c)[j] == xs[k + j * c]
  {
    StrideIndex(xs, k, c);
  }

  /** Position `k + q * c` is row `q` of the stride from `k`. */
  lemma StridePlacement<T>(xs: seq<T>, k: nat, q: nat, c: nat)
    requires c >= 1 && k + q * c < |xs|
    ensures q < |Stride(xs, k, c)| && Stride(xs, k, c)[q] == xs[k + q * c]
  {
    StrideLength(xs, k, c);
    RowBound(k, q, c, |Stride(xs, k, c)|, |xs|);
    StrideAt(xs, k, c, q);
  }

  /** The element at position `i` sits in column `i % c`, at row `i / c`. */
  lemma DealPlacement<T>(xs: seq<T>, c: nat)
    requires c >= 1
    ensures |Deal(xs, c)| == c
    ensures forall i :: 0 <= i < |xs| ==>
      i / c < |Deal(xs, c)[i % c]| && Deal(xs, c)[i % c][i / c] == xs[i]
  {
    forall i | 0 <= i < |xs|
      ensures i / c < |Deal(xs, c)[i % c]| && Deal(xs, c)[i % c][i / c] == xs[i]
    {
      ColumnAndRow(i, c);
      StridePlacement(xs, i % c, i / c, c);
    }
  }

  lemma {:induction false} FlattenEmptyColumns<T>(ss: seq<seq<T>>)
    requires forall k :: 0 <= k < |ss| ==> ss[k] == []
    ensures Flatten(ss) == [] && SumLengths(ss) == 0
  {
    if ss != [] {
      FlattenEmptyColumns(ss[1..]);
    }
  }

  /** The columns partition the input: their sizes add up to its length and
      together they hold every element exactly as often as the input does. */
  lemma {:induction false} DealPartition<T>(xs: seq<T>, c: nat)
    requires c >= 1
    ensures SumLengths(Deal(xs, c)) == |xs|
    ensures multiset(Flatten(Deal(xs, c))) == multiset(xs)
    decreases |xs|
  {
    if xs == [] {
      FlattenEmptyColumns(Deal(xs, c));
    } else {
      var init, x := xs[..|xs| - 1], xs[|xs| - 1];
      assert xs == init + [x];
      DealPartition(init, c);
      DealSnoc(init, x, c);
      AppendToColumn(Deal(init, c), |init| % c, x);
      AppendToColumnSize(Deal(init, c), |init| % c, x);
    }
  }

  /** Neighbouring strides differ in size by at most one, the earlier one
      being the longer. */
  lemma {:induction false} StrideAdjacent<T>(xs: seq<T>, k: nat, c: nat)
    requires c >= 1
    ensures |Stride(xs, k + 1, c)| <= |Stride(xs, k, c)| <= |Stride(xs, k + 1, c)| + 1
    decreases |xs| - k
  {
    if k + 1 < |xs| {
      StrideAdjacent(xs, k + c, c);
    }
  }

  lemma {:induction false} StrideMonotone<T>(xs: seq<T>, k1: nat, k2: nat, c: nat)
    requires c >= 1 && k1 <= k2
    ensures |Stride(xs, k2, c)| <= |Stride(xs, k1, c)|
    decreases k2 - k1
  {
    if k1 < k2 {
      StrideAdjacent(xs, k1, c);
      StrideMonotone(xs, k1 + 1, k2, c);
    }
  }

  /** The layout is balanced. */
  lemma DealBalanced<T>(xs: seq<T>, c: nat)
    requires c >= 1
    ensures Balanced(Deal(xs, c))
  {
    forall k1, k2 | 0 <= k1 <= k2 < c
      ensures |Stride(xs, k2, c)| <= |Stride(xs, k1, c)| <= |Stride(xs, k2, c)| + 1
    {
      StrideMonotone(xs, k1, k2, c);
      StrideMonotone(xs, k2, k1 + c, c);
    }
  }

  lemma {:induction false} StrideSubsequence<T>(xs: seq<T>, k: nat, c: nat)
    requires c >= 1 && k <= |xs|
    ensures IsSubsequence(Stride(xs, k, c), xs[k..])
    decreases |xs| - k
  {
    if k < |xs| {
      var rest := Stride(xs, k + c, c);
      if k + c <= |xs| {
        StrideSubsequence(xs, k + c, c);
        assert xs[k + 1..][c - 1..] == xs[k + c..];
        SubsequenceOfSuffix(rest, xs[k + 1..], c - 1);
      }
      assert xs[k..][1..] == xs[k + 1..];
      assert ([xs[k]] + rest)[1..] == rest;
    }
  }

  /** Every column lists its elements in their input order. */
  lemma DealKeepsOrder<T>(xs: seq<T>, c: nat)
    requires c >= 1
    ensures ColumnsInOrder(Deal(xs, c), xs)
  {
    forall k | 0 <= k < c ensures IsSubsequence(Stride(xs, k, c), xs) {
      if k <= |xs| {
        StrideSubsequence(xs, k, c);
        SubsequenceOfSuffix(Stride(xs, k, c), xs, k);
      }
    }
  }

  /** The reference layout has every round-robin property. */
  lemma DealIsRoundRobin<T>(xs: seq<T>, c: nat)
    requires c >= 1
    ensures IsRoundRobin(Deal(xs, c), xs, c)
  {
    DealPlacement(xs, c);
    DealPartition(xs, c);
    DealBalanced(xs, c);
    DealKeepsOrder(xs, c);
  }
}
