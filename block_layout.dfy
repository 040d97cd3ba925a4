/** Index arithmetic and block-major visit order of the blocked two-dimensional
    array (uarray2b.c). Everything here is a pure function of the grid's
    width, height and block size; the class in module UArray2b stores its
    elements according to these functions and its traversal methods are proved
    to produce the order defined here. */
module BlockLayout {

  /** A cell of the logical grid: column and row. */
  datatype Coord = Coord(col: int, row: int)

  /** Where a cell is stored: the block at (blockCol, blockRow) of the block
      table, and the position `index` inside that block's flat buffer. */
  datatype Slot = Slot(blockCol: int, blockRow: int, index: int)

  predicate InGrid(width: int, height: int, p: Coord) {
    0 <= p.col < width && 0 <= p.row < height
  }

  function Min(a: int, b: int): int { if a <= b then a else b }

  // ---------------------------------------------------------------------------
  // Arithmetic helpers

  lemma MulMonotone(a: int, b: int, k: nat)
    requires a <= b
    ensures a * k <= b * k
  {
  }

  lemma DivNonNegative(x: nat, bs: nat)
    requires bs > 0
    ensures x / bs >= 0
  {
  }

  lemma DivMod(x: int, bs: nat)
    requires bs > 0
    ensures x == (x / bs) * bs + x % bs
  {
  }

  /** m < n and n * c <= limit give m * c < limit, for positive c. */
  lemma ProductBelow(m: int, n: int, c: nat, limit: int)
    requires m < n && c > 0 && n * c <= limit
    ensures m * c < limit
  {
    MulMonotone(m, n - 1, c);
    assert (n - 1) * c == n * c - c;
  }

  lemma Distribute(a: int, b: int, c: int)
    ensures a * c + b * c == (a + b) * c
  {
  }

  /** x lies in the b-th run of bs consecutive integers exactly when x / bs == b. */
  lemma DivBetween(x: nat, b: nat, bs: nat)
    requires bs > 0
    ensures b * bs <= x < b * bs + bs <==> x / bs == b
  {
    var q, m := x / bs, x % bs;
    assert x == q * bs + m && 0 <= m < bs;
    if q < b {
      MulMonotone(q + 1, b, bs);
    } else if q > b {
      MulMonotone(b + 1, q, bs);
    }
  }

  /** The flat index of an in-block offset stays inside the bs * bs buffer. */
  lemma IndexInBlock(bs: nat, a: nat, b: nat)
    requires a < bs && b < bs
    ensures bs * a + b < bs * bs
  {
    MulMonotone(a, bs - 1, bs);
    assert (bs - 1) * bs == bs * bs - bs;
  }

  lemma DivOfLess(x: nat, q: nat, bs: nat)
    requires bs > 0 && x < q * bs
    ensures x / bs < q
  {
    DivBetween(x, x / bs, bs);
    if x / bs >= q {
      MulMonotone(q, x / bs, bs);
    }
  }

  lemma TakeOneMore<X>(s: seq<X>, k: nat)
    requires k < |s|
    ensures s[..k + 1] == s[..k] + [s[k]]
  {
  }

  // ---------------------------------------------------------------------------
  // Block geometry

  /** The number of blocks of bs cells needed to cover n cells: the source's
      ceil((double) n / blocksize), which determines the block table's width
      (for n = width) and height (for n = height). */
  function CeilDiv(n: nat, bs: nat): (q: nat)
    requires bs > 0
    ensures n <= q * bs < n + bs
  {
    var q := (n + bs - 1) / bs;
    assert n + bs - 1 == q * bs + (n + bs - 1) % bs;
    q
  }

  /** The smallest k with k * k >= n: the source's ceil(sqrt(n)) for a
      non-negative integer n. */
  function CeilSqrt(n: nat): (k: nat)
    ensures k * k >= n
    ensures k == 0 || (k - 1) * (k - 1) < n
  {
    CeilSqrtFrom(n, 0)
  }

  /** Searches upward from k, every smaller candidate having been too small. */
  function CeilSqrtFrom(n: nat, k: nat): (r: nat)
    requires k == 0 || (k - 1) * (k - 1) < n
    ensures r * r >= n
    ensures r == 0 || (r - 1) * (r - 1) < n
    decreases n - k
  {
    if k * k >= n then k
    else
      var next := k + 1;
      SquareAtLeast(k);
      assert k < n;
      assert (next - 1) * (next - 1) < n;
      CeilSqrtFrom(n, next)
  }

  /** The two properties of CeilSqrt determine it. */
  lemma CeilSqrtUnique(n: nat, k: nat)
    requires k * k >= n && (k == 0 || (k - 1) * (k - 1) < n)
    ensures k == CeilSqrt(n)
  {
    var r := CeilSqrt(n);
    if k < r {
      SquareMonotone(k, r - 1);
    } else if k > r {
      SquareMonotone(r, k - 1);
    }
  }

  lemma SquareAtLeast(k: nat)
    ensures k <= k * k
  {
    if k > 0 {
      MulMonotone(1, k, k);
    }
  }

  lemma SquareMonotone(a: nat, b: nat)
    requires a <= b
    ensures a * a <= b * b
  {
    MulMonotone(a, b, a);
    MulMonotone(a, b, b);
  }

  /** The block size UArray2b_new_64K_block chooses for elements of `size`
      bytes: 1 when one element exceeds 64K, otherwise ceil(sqrt(65536 / size))
      with the source's truncating integer division: the least bs whose square
      reaches 65536 / size. It is always at least 1, so it meets UArray2b_new's
      requirement. Because of the ceiling, a block
      one element narrower is what is guaranteed to fit in 65536 bytes. */
  function BlockSize64K(size: int): (bs: int)
    requires size > 0
    ensures bs >= 1
    ensures size > 65536 ==> bs == 1
    ensures size <= 65536 ==> bs * bs >= 65536 / size
    ensures size <= 65536 ==> (bs - 1) * (bs - 1) < 65536 / size
    ensures size <= 65536 ==> (bs - 1) * (bs - 1) * size < 65536
  {
    if size > 65536 then 1
    else
      BlockFits(size);
      CeilSqrt(65536 / size)
  }

  /** For 0 < size <= 65536 the ceiling square root of 65536 / size is
      positive, and one less than it, squared, times size stays below 65536. */
  lemma BlockFits(size: int)
    requires 0 < size <= 65536
    ensures CeilSqrt(65536 / size) >= 1
    ensures (CeilSqrt(65536 / size) - 1) * (CeilSqrt(65536 / size) - 1) * size < 65536
  {
    var n := 65536 / size;
    DivMod(65536, size);
    DivBetween(65536, 0, size);
    DivNonNegative(65536, size);
    var k := CeilSqrt(n);
    var j := k - 1;
    assert j * j < n;
    ProductBelow(j * j, n, size, 65536);
  }

  /** Elements of 3 bytes get 148 x 148 blocks, which occupy 65712 bytes: the
      choice can exceed the 64K budget. */
  lemma BlockSize64KOvershoots()
    ensures BlockSize64K(3) == 148
    ensures BlockSize64K(3) * BlockSize64K(3) * 3 > 65536
  {
    CeilSqrtUnique(65536 / 3, 148);
  }

  /** The slot of cell (col, row): block (col / bs, row / bs), flat index
      bs * (row % bs) + col % bs. The block lies inside the block table and the
      index inside the block's bs * bs buffer. */
  function At(width: nat, height: nat, blocksize: nat, col: int, row: int): (s: Slot)
    requires blocksize > 0
    requires 0 <= col < width && 0 <= row < height
    ensures 0 <= s.blockCol < CeilDiv(width, blocksize)
    ensures 0 <= s.blockRow < CeilDiv(height, blocksize)
    ensures 0 <= s.index < blocksize * blocksize
  {
    var blockCol, smallCol := col / blocksize, col % blocksize;
    var blockRow, smallRow := row / blocksize, row % blocksize;
    DivNonNegative(col, blocksize);
    DivNonNegative(row, blocksize);
    DivOfLess(col, CeilDiv(width, blocksize), blocksize);
    DivOfLess(row, CeilDiv(height, blocksize), blocksize);
    IndexInBlock(blocksize, smallRow, smallCol);
    Slot(blockCol, blockRow, blocksize * smallRow + smallCol)
  }

  /** The cell a slot stands for: the inverse of At. For a slot of a partial
      edge block this may be a cell outside the grid (a padding slot). */
  function CellOf(blocksize: nat, s: Slot): Coord
    requires blocksize > 0
  {
    Coord(s.blockCol * blocksize + s.index % blocksize,
          s.blockRow * blocksize + s.index / blocksize)
  }

  /** At followed by CellOf gives back the cell. */
  lemma {:induction false} AtRoundTrip(width: nat, height: nat, bs: nat, col: int, row: int)
    requires bs > 0 && 0 <= col < width && 0 <= row < height
    ensures CellOf(bs, At(width, height, bs, col, row)) == Coord(col, row)
  {
    var s := At(width, height, bs, col, row);
    var smallCol, smallRow := col % bs, row % bs;
    assert s.index == smallRow * bs + smallCol;
    SplitParts(bs, smallRow, smallCol);
    DivMod(col, bs);
    DivMod(row, bs);
  }

  /** CellOf followed by At gives back the slot, for every slot of a block of
      the table whose cell is inside the grid. */
  lemma {:induction false} CellOfRoundTrip(width: nat, height: nat, bs: nat, s: Slot)
    requires bs > 0 && s.blockCol >= 0 && s.blockRow >= 0 && 0 <= s.index < bs * bs
    requires InGrid(width, height, CellOf(bs, s))
    ensures At(width, height, bs, CellOf(bs, s).col, CellOf(bs, s).row) == s
  {
    var m, q := s.index % bs, s.index / bs;
    DivOfLess(s.index, bs, bs);
    assert q < bs;
    SplitParts(bs, s.blockCol, m);
    SplitParts(bs, s.blockRow, q);
    DivMod(s.index, bs);
    assert bs * q == q * bs;
    var c := CellOf(bs, s);
    assert c.col / bs == s.blockCol && c.col % bs == m;
    assert c.row / bs == s.blockRow && c.row % bs == q;
  }

  lemma SplitParts(bs: nat, b: nat, m: nat)
    requires bs > 0 && m < bs
    ensures (b * bs + m) / bs == b && (b * bs + m) % bs == m
  {
    DivBetween(b * bs + m, b, bs);
  }

  /** Distinct cells of the grid are stored in distinct slots. */
  lemma {:induction false} AtInjective(width: nat, height: nat, bs: nat, c1: int, r1: int, c2: int, r2: int)
    requires bs > 0
    requires 0 <= c1 < width && 0 <= r1 < height && 0 <= c2 < width && 0 <= r2 < height
    requires At(width, height, bs, c1, r1) == At(width, height, bs, c2, r2)
    ensures c1 == c2 && r1 == r2
  {
    AtRoundTrip(width, height, bs, c1, r1);
    AtRoundTrip(width, height, bs, c2, r2);
  }

  /** The valid extent of block b along an axis of n cells: the source's
      end_small_col (against the width) and end_small_row (against the height).
      For every block of the table it is bs, or, in a short last block, the
      n - b * bs cells that remain, between 1 and bs - 1. */
  function EndSmall(b: nat, n: nat, bs: nat): (e: nat)
    requires bs > 0
    ensures b < CeilDiv(n, bs) ==> 1 <= e <= bs && e == Min(bs, n - b * bs)
    ensures b < CeilDiv(n, bs) && (b + 1) * bs > n ==> e == n - b * bs && e < bs
    ensures (b + 1) * bs <= n ==> e == bs
  {
    if (b + 1) * bs > n then
      if b < CeilDiv(n, bs) then
        Distribute(b, 1, bs);
        MulMonotone(b + 1, CeilDiv(n, bs), bs);
        DivBetween(n, b, bs);
        DivMod(n, bs);
        n % bs
      else
        n % bs
    else
      Distribute(b, 1, bs);
      bs
  }

  /** Along one axis, the cells of block b that the traversal visits are
      exactly the cells of the axis whose block coordinate is b. */
  lemma {:induction false} AxisMember(x: int, b: nat, n: nat, bs: nat)
    requires bs > 0 && b < CeilDiv(n, bs)
    ensures (b * bs <= x < b * bs + EndSmall(b, n, bs)) <==> (0 <= x < n && x / bs == b)
  {
    if 0 <= x {
      DivBetween(x, b, bs);
    }
  }

  // ---------------------------------------------------------------------------
  // Visit order of UArray2b_map

  /** The source's traversal order within one block, and across blocks: block
      row, then block column, then row, then column, compared
      lexicographically. */
  predicate Precedes(bs: nat, p: Coord, q: Coord)
    requires bs > 0
  {
    p.row / bs < q.row / bs
    || (p.row / bs == q.row / bs && p.col / bs < q.col / bs)
    || (p.row / bs == q.row / bs && p.col / bs == q.col / bs
        && (p.row < q.row || (p.row == q.row && p.col < q.col)))
  }

  predicate Sorted(bs: nat, s: seq<Coord>)
    requires bs > 0
  {
    forall i, j :: 0 <= i < j < |s| ==> Precedes(bs, s[i], s[j])
  }

  /** The cells (col0, row), ..., (col0 + n - 1, row): one pass of the inner
      small_col loop of apply_on_block. */
  function RowRun(col0: int, row: int, n: nat): seq<Coord> {
    seq(n, i => Coord(col0 + i, row))
  }

  /** The cells apply_on_block visits for block (blockCol, blockRow) with
      extents endCol x endRow, in the order it visits them: small_row outer,
      small_col inner. */
  function BlockVisits(bs: nat, blockCol: nat, blockRow: nat, endCol: nat, endRow: nat): seq<Coord>
    decreases endRow
  {
    if endRow == 0 then []
    else BlockVisits(bs, blockCol, blockRow, endCol, endRow - 1)
         + RowRun(blockCol * bs, blockRow * bs + endRow - 1, endCol)
  }

  /** The cells UArray2b_map visits in the first nCols blocks of block row
      blockRow. */
  function BlockRowVisits(width: nat, height: nat, bs: nat, blockRow: nat, nCols: nat): seq<Coord>
    requires bs > 0
    decreases nCols
  {
    if nCols == 0 then []
    else BlockRowVisits(width, height, bs, blockRow, nCols - 1)
         + BlockVisits(bs, nCols - 1, blockRow, EndSmall(nCols - 1, width, bs), EndSmall(blockRow, height, bs))
  }

  /** The cells UArray2b_map visits in the first nRows block rows. */
  function BlockRowsVisits(width: nat, height: nat, bs: nat, nRows: nat): seq<Coord>
    requires bs > 0
    decreases nRows
  {
    if nRows == 0 then []
    else BlockRowsVisits(width, height, bs, nRows - 1)
         + BlockRowVisits(width, height, bs, nRows - 1, CeilDiv(width, bs))
  }

  /** One more block of a block row appends that block's visits. */
  lemma BlockRowVisitsStep(width: nat, height: nat, bs: nat, blockRow: nat, blockCol: nat)
    requires bs > 0
    ensures BlockRowVisits(width, height, bs, blockRow, blockCol + 1)
         == BlockRowVisits(width, height, bs, blockRow, blockCol)
            + BlockVisits(bs, blockCol, blockRow, EndSmall(blockCol, width, bs), EndSmall(blockRow, height, bs))
  {
  }

  /** One more block row appends that block row's visits. */
  lemma BlockRowsVisitsStep(width: nat, height: nat, bs: nat, blockRow: nat)
    requires bs > 0
    ensures BlockRowsVisits(width, height, bs, blockRow + 1)
         == BlockRowsVisits(width, height, bs, blockRow)
            + BlockRowVisits(width, height, bs, blockRow, CeilDiv(width, bs))
  {
  }

  /** The complete sequence of (col, row) pairs UArray2b_map passes to apply. */
  function BlockMajor(width: nat, height: nat, bs: nat): seq<Coord>
    requires bs > 0
  {
    BlockRowsVisits(width, height, bs, CeilDiv(height, bs))
  }

  // ---------------------------------------------------------------------------
  // Properties of the visit order

  lemma SortedConcat(bs: nat, a: seq<Coord>, b: seq<Coord>)
    requires bs > 0 && Sorted(bs, a) && Sorted(bs, b)
    requires forall p, q :: p in a && q in b ==> Precedes(bs, p, q)
    ensures Sorted(bs, a + b)
  {
    forall i, j | 0 <= i < j < |a + b|
      ensures Precedes(bs, (a + b)[i], (a + b)[j])
    {
      if j < |a| {
        assert (a + b)[i] == a[i] && (a + b)[j] == a[j];
      } else if i >= |a| {
        assert (a + b)[i] == b[i - |a|] && (a + b)[j] == b[j - |a|];
      } else {
        assert (a + b)[i] == a[i] && (a + b)[j] == b[j - |a|];
      }
    }
  }

  lemma RowRunMembers(col0: int, row: int, n: nat, p: Coord)
    ensures p in RowRun(col0, row, n) <==> p.row == row && col0 <= p.col < col0 + n
  {
    if p.row == row && col0 <= p.col < col0 + n {
      assert RowRun(col0, row, n)[p.col - col0] == p;
    }
  }

  /** apply_on_block visits exactly the cells of the endCol x endRow corner of
      its block. */
  lemma {:induction false} BlockVisitsMembers(bs: nat, blockCol: nat, blockRow: nat, endCol: nat, endRow: nat, p: Coord)
    ensures p in BlockVisits(bs, blockCol, blockRow, endCol, endRow) <==>
            blockCol * bs <= p.col < blockCol * bs + endCol && blockRow * bs <= p.row < blockRow * bs + endRow
    decreases endRow
  {
    if endRow > 0 {
      BlockVisitsMembers(bs, blockCol, blockRow, endCol, endRow - 1, p);
      RowRunMembers(blockCol * bs, blockRow * bs + endRow - 1, endCol, p);
    }
  }

  /** apply_on_block makes endCol * endRow calls. */
  lemma {:induction false} BlockVisitsLength(bs: nat, blockCol: nat, blockRow: nat, endCol: nat, endRow: nat)
    ensures |BlockVisits(bs, blockCol, blockRow, endCol, endRow)| == endCol * endRow
    decreases endRow
  {
    if endRow > 0 {
      BlockVisitsLength(bs, blockCol, blockRow, endCol, endRow - 1);
    }
  }

  /** Two cells of the same block are ordered by row, then column. */
  lemma PrecedesInBlock(bs: nat, blockCol: nat, blockRow: nat, p: Coord, q: Coord)
    requires bs > 0
    requires blockCol * bs <= p.col < blockCol * bs + bs && blockRow * bs <= p.row < blockRow * bs + bs
    requires blockCol * bs <= q.col < blockCol * bs + bs && blockRow * bs <= q.row < blockRow * bs + bs
    requires p.row < q.row || (p.row == q.row && p.col < q.col)
    ensures Precedes(bs, p, q)
  {
    DivBetween(p.col, blockCol, bs);
    DivBetween(q.col, blockCol, bs);
    DivBetween(p.row, blockRow, bs);
    DivBetween(q.row, blockRow, bs);
  }

  /** Within a block, the visits are in row-major order. */
  lemma {:induction false} BlockVisitsSorted(bs: nat, blockCol: nat, blockRow: nat, endCol: nat, endRow: nat)
    requires bs > 0 && endCol <= bs && endRow <= bs
    ensures Sorted(bs, BlockVisits(bs, blockCol, blockRow, endCol, endRow))
    decreases endRow
  {
    if endRow > 0 {
      var prev := BlockVisits(bs, blockCol, blockRow, endCol, endRow - 1);
      var row := blockRow * bs + endRow - 1;
      var run := RowRun(blockCol * bs, row, endCol);
      BlockVisitsSorted(bs, blockCol, blockRow, endCol, endRow - 1);
      forall i, j | 0 <= i < j < |run|
        ensures Precedes(bs, run[i], run[j])
      {
        PrecedesInBlock(bs, blockCol, blockRow, run[i], run[j]);
      }
      forall p, q | p in prev && q in run
        ensures Precedes(bs, p, q)
      {
        BlockVisitsMembers(bs, blockCol, blockRow, endCol, endRow - 1, p);
        RowRunMembers(blockCol * bs, row, endCol, q);
        PrecedesInBlock(bs, blockCol, blockRow, p, q);
      }
      SortedConcat(bs, prev, run);
    }
  }

  /** The visits of a block of the table are exactly the grid cells whose
      block coordinates are that block's. */
  lemma {:induction false} BlockMembers(width: nat, height: nat, bs: nat, blockCol: nat, blockRow: nat, p: Coord)
    requires bs > 0 && blockCol < CeilDiv(width, bs) && blockRow < CeilDiv(height, bs)
    ensures p in BlockVisits(bs, blockCol, blockRow, EndSmall(blockCol, width, bs), EndSmall(blockRow, height, bs)) <==>
            InGrid(width, height, p) && p.col / bs == blockCol && p.row / bs == blockRow
  {
    BlockVisitsMembers(bs, blockCol, blockRow, EndSmall(blockCol, width, bs), EndSmall(blockRow, height, bs), p);
    AxisMember(p.col, blockCol, width, bs);
    AxisMember(p.row, blockRow, height, bs);
  }

  lemma {:induction false} BlockRowMembers(width: nat, height: nat, bs: nat, blockRow: nat, nCols: nat, p: Coord)
    requires bs > 0 && blockRow < CeilDiv(height, bs) && nCols <= CeilDiv(width, bs)
    ensures p in BlockRowVisits(width, height, bs, blockRow, nCols) <==>
            InGrid(width, height, p) && p.row / bs == blockRow && p.col / bs < nCols
    decreases nCols
  {
    if nCols > 0 {
      BlockRowMembers(width, height, bs, blockRow, nCols - 1, p);
      BlockMembers(width, height, bs, nCols - 1, blockRow, p);
    }
  }

  lemma {:induction false} BlockRowSorted(width: nat, height: nat, bs: nat, blockRow: nat, nCols: nat)
    requires bs > 0 && blockRow < CeilDiv(height, bs) && nCols <= CeilDiv(width, bs)
    ensures Sorted(bs, BlockRowVisits(width, height, bs, blockRow, nCols))
    decreases nCols
  {
    if nCols > 0 {
      var prev := BlockRowVisits(width, height, bs, blockRow, nCols - 1);
      var block := BlockVisits(bs, nCols - 1, blockRow, EndSmall(nCols - 1, width, bs), EndSmall(blockRow, height, bs));
      BlockRowSorted(width, height, bs, blockRow, nCols - 1);
      BlockVisitsSorted(bs, nCols - 1, blockRow, EndSmall(nCols - 1, width, bs), EndSmall(blockRow, height, bs));
      forall p, q | p in prev && q in block
        ensures Precedes(bs, p, q)
      {
        BlockRowMembers(width, height, bs, blockRow, nCols - 1, p);
        BlockMembers(width, height, bs, nCols - 1, blockRow, q);
        assert p.row / bs == q.row / bs && p.col / bs < q.col / bs;
      }
      SortedConcat(bs, prev, block);
    }
  }

  /** The first nCols blocks of a block row hold Min(nCols * bs, width)
      columns of that block row's rows. */
  lemma {:induction false} BlockRowLength(width: nat, height: nat, bs: nat, blockRow: nat, nCols: nat)
    requires bs > 0 && nCols <= CeilDiv(width, bs)
    ensures |BlockRowVisits(width, height, bs, blockRow, nCols)| == Min(nCols * bs, width) * EndSmall(blockRow, height, bs)
    decreases nCols
  {
    if nCols > 0 {
      var e := EndSmall(blockRow, height, bs);
      var ec := EndSmall(nCols - 1, width, bs);
      var before := (nCols - 1) * bs;
      var prev := BlockRowVisits(width, height, bs, blockRow, nCols - 1);
      var block := BlockVisits(bs, nCols - 1, blockRow, ec, e);
      assert BlockRowVisits(width, height, bs, blockRow, nCols) == prev + block;
      BlockRowLength(width, height, bs, blockRow, nCols - 1);
      BlockVisitsLength(bs, nCols - 1, blockRow, ec, e);
      PrefixExtent(nCols, width, bs);
      assert |prev| == before * e;
      Distribute(before, ec, e);
    }
  }

  /** The first k blocks of an axis of n cells cover Min(k * bs, n) cells:
      (k - 1) full blocks followed by the extent of block k - 1. */
  lemma PrefixExtent(k: nat, n: nat, bs: nat)
    requires bs > 0 && 0 < k <= CeilDiv(n, bs)
    ensures Min((k - 1) * bs, n) == (k - 1) * bs
    ensures (k - 1) * bs + EndSmall(k - 1, n, bs) == Min(k * bs, n)
  {
    var b, q := k - 1, CeilDiv(n, bs);
    MulMonotone(k, q, bs);
    Distribute(b, 1, bs);
    assert b * bs < n;
    assert EndSmall(b, n, bs) == Min(bs, n - b * bs);
  }

  lemma {:induction false} BlockRowsMembers(width: nat, height: nat, bs: nat, nRows: nat, p: Coord)
    requires bs > 0 && nRows <= CeilDiv(height, bs)
    ensures p in BlockRowsVisits(width, height, bs, nRows) <==> InGrid(width, height, p) && p.row / bs < nRows
    decreases nRows
  {
    if nRows > 0 {
      var prev := BlockRowsVisits(width, height, bs, nRows - 1);
      var blockRow := BlockRowVisits(width, height, bs, nRows - 1, CeilDiv(width, bs));
      assert BlockRowsVisits(width, height, bs, nRows) == prev + blockRow;
      assert p in prev + blockRow <==> p in prev || p in blockRow;
      BlockRowsMembers(width, height, bs, nRows - 1, p);
      BlockRowMembers(width, height, bs, nRows - 1, CeilDiv(width, bs), p);
      if InGrid(width, height, p) {
        DivOfLess(p.col, CeilDiv(width, bs), bs);
        assert p in blockRow <==> p.row / bs == nRows - 1;
        assert p in prev <==> p.row / bs < nRows - 1;
      } else {
        assert p !in prev && p !in blockRow;
      }
    } else if InGrid(width, height, p) {
      DivNonNegative(p.row, bs);
    }
  }

  lemma {:induction false} BlockRowsSorted(width: nat, height: nat, bs: nat, nRows: nat)
    requires bs > 0 && nRows <= CeilDiv(height, bs)
    ensures Sorted(bs, BlockRowsVisits(width, height, bs, nRows))
    decreases nRows
  {
    if nRows > 0 {
      var prev := BlockRowsVisits(width, height, bs, nRows - 1);
      var blockRow := BlockRowVisits(width, height, bs, nRows - 1, CeilDiv(width, bs));
      BlockRowsSorted(width, height, bs, nRows - 1);
      BlockRowSorted(width, height, bs, nRows - 1, CeilDiv(width, bs));
      forall p, q | p in prev && q in blockRow
        ensures Precedes(bs, p, q)
      {
        BlockRowsMembers(width, height, bs, nRows - 1, p);
        BlockRowMembers(width, height, bs, nRows - 1, CeilDiv(width, bs), q);
        assert p.row / bs < q.row / bs;
      }
      SortedConcat(bs, prev, blockRow);
    }
  }

  lemma {:induction false} BlockRowsLength(width: nat, height: nat, bs: nat, nRows: nat)
    requires bs > 0 && nRows <= CeilDiv(height, bs)
    ensures |BlockRowsVisits(width, height, bs, nRows)| == Min(nRows * bs, height) * width
    decreases nRows
  {
    if nRows > 0 {
      var e := EndSmall(nRows - 1, height, bs);
      var before := (nRows - 1) * bs;
      var prev := BlockRowsVisits(width, height, bs, nRows - 1);
      var blockRow := BlockRowVisits(width, height, bs, nRows - 1, CeilDiv(width, bs));
      assert BlockRowsVisits(width, height, bs, nRows) == prev + blockRow;
      BlockRowsLength(width, height, bs, nRows - 1);
      BlockRowLength(width, height, bs, nRows - 1, CeilDiv(width, bs));
      assert Min(CeilDiv(width, bs) * bs, width) == width;
      assert |blockRow| == width * e;
      PrefixExtent(nRows, height, bs);
      assert |prev| == before * width;
      assert width * e == e * width;
      Distribute(before, e, width);
    }
  }

  /** UArray2b_map calls apply for a coordinate exactly when it lies inside
      the grid: every cell is visited and no padding slot is. */
  lemma BlockMajorCoverage(width: nat, height: nat, bs: nat)
    requires bs > 0
    ensures forall p :: p in BlockMajor(width, height, bs) <==> InGrid(width, height, p)
  {
    forall p
      ensures p in BlockMajor(width, height, bs) <==> InGrid(width, height, p)
    {
      BlockRowsMembers(width, height, bs, CeilDiv(height, bs), p);
      if InGrid(width, height, p) {
        DivOfLess(p.row, CeilDiv(height, bs), bs);
      }
    }
  }

  /** The visits follow block rows, then block columns, then rows and columns
      inside a block. */
  lemma BlockMajorOrdered(width: nat, height: nat, bs: nat)
    requires bs > 0
    ensures Sorted(bs, BlockMajor(width, height, bs))
  {
    BlockRowsSorted(width, height, bs, CeilDiv(height, bs));
  }

  /** UArray2b_map calls apply width * height times. */
  lemma BlockMajorLength(width: nat, height: nat, bs: nat)
    requires bs > 0
    ensures |BlockMajor(width, height, bs)| == width * height
  {
    BlockRowsLength(width, height, bs, CeilDiv(height, bs));
    assert Min(CeilDiv(height, bs) * bs, height) == height;
  }

  /** No cell is visited twice. */
  lemma BlockMajorNoRepeats(width: nat, height: nat, bs: nat)
    requires bs > 0
    ensures var o := BlockMajor(width, height, bs);
            forall i, j :: 0 <= i < |o| && 0 <= j < |o| && o[i] == o[j] ==> i == j
  {
    BlockMajorOrdered(width, height, bs);
  }

  /** The k-th visit is a cell of the grid that no earlier visit named. */
  lemma BlockMajorVisit(width: nat, height: nat, bs: nat, k: nat)
    requires bs > 0 && k < |BlockMajor(width, height, bs)|
    ensures var o := BlockMajor(width, height, bs);
            InGrid(width, height, o[k]) && o[k] !in o[..k]
  {
    var o := BlockMajor(width, height, bs);
    BlockMajorCoverage(width, height, bs);
    BlockMajorNoRepeats(width, height, bs);
    assert o[k] in o;
    forall i | 0 <= i < k
      ensures o[..k][i] != o[k]
    {
      assert o[..k][i] == o[i];
    }
  }

  /** All visits of one block are consecutive: a visit between two visits of
      the same block belongs to that block too. */
  lemma BlockMajorBlocksContiguous(width: nat, height: nat, bs: nat)
    requires bs > 0
    ensures var o := BlockMajor(width, height, bs);
            forall i, j, k :: 0 <= i < j < k < |o|
              && o[i].col / bs == o[k].col / bs && o[i].row / bs == o[k].row / bs
              ==> o[j].col / bs == o[i].col / bs && o[j].row / bs == o[i].row / bs
  {
    BlockMajorOrdered(width, height, bs);
  }
}
