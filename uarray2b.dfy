/** The blocked two-dimensional array of uarray2b.c. A width x height grid is
    stored as a CeilDiv(width, blocksize) x CeilDiv(height, blocksize) table of
    blocks; every block is a flat buffer of blocksize * blocksize slots, and
    cell (col, row) lives in the slot BlockLayout.At names. */
module UArray2b {
  import opened BlockLayout

  /** The grid g with f applied to every cell: what UArray2b_map leaves behind
      when its apply function replaces each element e at (col, row) by
      f(col, row, e). */
  function Applied<T>(f: (int, int, T) -> T, g: seq<seq<T>>): seq<seq<T>> {
    seq(|g|, r requires 0 <= r < |g| => seq(|g[r]|, c requires 0 <= c < |g[r]| => f(c, r, g[r][c])))
  }

  /** A width x height grid every cell of which holds v. */
  function Filled<T>(width: nat, height: nat, v: T): seq<seq<T>> {
    seq(height, _ => seq(width, _ => v))
  }

  /** The grid g after the apply function has run on the cells in `visited`
      and on no others. */
  function PartlyApplied<T>(f: (int, int, T) -> T, g: seq<seq<T>>, visited: seq<Coord>): seq<seq<T>> {
    seq(|g|, r requires 0 <= r < |g| =>
      seq(|g[r]|, c requires 0 <= c < |g[r]| => if Coord(c, r) in visited then f(c, r, g[r][c]) else g[r][c]))
  }

  lemma PartlyAppliedNone<T>(f: (int, int, T) -> T, g: seq<seq<T>>)
    ensures PartlyApplied(f, g, []) == g
  {
    var none := PartlyApplied(f, g, []);
    forall r | 0 <= r < |g|
      ensures none[r] == g[r]
    {
    }
  }

  /** Applying f at one more, not yet visited cell p replaces that cell's
      original value by f's result and leaves every other cell alone. */
  lemma PartlyAppliedStep<T>(f: (int, int, T) -> T, g: seq<seq<T>>, visited: seq<Coord>, p: Coord)
    requires 0 <= p.row < |g| && 0 <= p.col < |g[p.row]| && p !in visited
    ensures var before := PartlyApplied(f, g, visited);
            before[p.row][p.col] == g[p.row][p.col] &&
            PartlyApplied(f, g, visited + [p])
              == before[p.row := before[p.row][p.col := f(p.col, p.row, g[p.row][p.col])]]
  {
    var before := PartlyApplied(f, g, visited);
    var after := PartlyApplied(f, g, visited + [p]);
    var expected := before[p.row := before[p.row][p.col := f(p.col, p.row, g[p.row][p.col])]];
    forall r | 0 <= r < |g|
      ensures after[r] == expected[r]
    {
      forall c | 0 <= c < |g[r]|
        ensures after[r][c] == expected[r][c]
      {
        assert Coord(c, r) in visited + [p] <==> Coord(c, r) in visited || Coord(c, r) == p;
      }
    }
  }

  /** Once every cell has been visited, the grid is the fully applied one. */
  lemma PartlyAppliedDone<T>(f: (int, int, T) -> T, g: seq<seq<T>>, visited: seq<Coord>)
    requires forall r, c :: 0 <= r < |g| && 0 <= c < |g[r]| ==> Coord(c, r) in visited
    ensures PartlyApplied(f, g, visited) == Applied(f, g)
  {
    var done := PartlyApplied(f, g, visited);
    forall r | 0 <= r < |g|
      ensures done[r] == Applied(f, g)[r]
    {
    }
  }

  /** A block buffer of n slots, each holding init. */
  ghost predicate FreshBlock<T>(b: array?<T>, n: nat, init: T)
    reads b
  {
    b != null && b.Length == n && forall k :: 0 <= k < n ==> b[k] == init
  }

  class Array2b<T> {
    // The four values UArray2b_width, UArray2b_height, UArray2b_size and
    // UArray2b_blocksize return.
    const width: nat
    const height: nat
    const size: nat
    const blocksize: nat

    /** The block table, indexed [blockCol, blockRow]. */
    const blocks: array2<array?<T>>

    /** The logical contents, Contents[row][col]. */
    ghost var Contents: seq<seq<T>>

    /** The block table and every block buffer. */
    ghost const Repr: set<object>

    ghost predicate Valid()
      reads this, Repr
    {
      size > 0 && blocksize > 0 &&
      blocks in Repr &&
      blocks.Length0 == CeilDiv(width, blocksize) &&
      blocks.Length1 == CeilDiv(height, blocksize) &&
      (forall i, j :: 0 <= i < blocks.Length0 && 0 <= j < blocks.Length1 ==>
         blocks[i, j] != null && blocks[i, j] in Repr && blocks[i, j].Length == blocksize * blocksize) &&
      // no two entries of the table share a buffer
      (forall i, j, k, l ::
         (0 <= i < blocks.Length0 && 0 <= j < blocks.Length1 &&
          0 <= k < blocks.Length0 && 0 <= l < blocks.Length1 &&
          blocks[i, j] == blocks[k, l]) ==> i == k && j == l) &&
      |Contents| == height &&
      (forall r :: 0 <= r < height ==> |Contents[r]| == width) &&
      (forall c, r :: 0 <= c < width && 0 <= r < height ==>
         Contents[r][c] == Stored(At(width, height, blocksize, c, r)))
    }

    /** The element held in slot s of the block table. */
    ghost function Stored(s: Slot): T
      reads this, blocks, Repr
      requires 0 <= s.blockCol < blocks.Length0 && 0 <= s.blockRow < blocks.Length1
      requires blocks[s.blockCol, s.blockRow] != null && blocks[s.blockCol, s.blockRow] in Repr
      requires 0 <= s.index < blocks[s.blockCol, s.blockRow].Length
    {
      blocks[s.blockCol, s.blockRow][s.index]
    }

    /** UArray2b_new: a grid of the given shape whose block table has
        CeilDiv(width, blocksize) x CeilDiv(height, blocksize) entries, each a
        buffer of blocksize * blocksize slots, including the partial blocks on
        the right and bottom edges. Every cell starts as init. */
    constructor New(width: int, height: int, size: int, blocksize: int, init: T)
      requires height >= 0 && width >= 0 && size > 0 && blocksize > 0
      ensures Valid() && fresh(Repr)
      ensures this.width == width && this.height == height
      ensures this.size == size && this.blocksize == blocksize
      ensures Contents == Filled(width, height, init)
    {
      var blockedWidth := CeilDiv(width, blocksize);
      var blockedHeight := CeilDiv(height, blocksize);
      var n := blocksize * blocksize;
      var table := new array?<T>[blockedWidth, blockedHeight];
      ghost var made: set<object> := {};
      for blockCol := 0 to blockedWidth
        invariant fresh(made)
        invariant forall i, j :: 0 <= i < blockCol && 0 <= j < blockedHeight ==>
                    FreshBlock(table[i, j], n, init) && table[i, j] in made
        invariant forall i, j, k, l ::
                    (0 <= i < blockCol && 0 <= j < blockedHeight &&
                     0 <= k < blockCol && 0 <= l < blockedHeight &&
                     table[i, j] == table[k, l]) ==> i == k && j == l
      {
        for blockRow := 0 to blockedHeight
          invariant fresh(made)
          invariant forall i, j ::
                      (0 <= i < blockedWidth && 0 <= j < blockedHeight &&
                       (i < blockCol || (i == blockCol && j < blockRow))) ==>
                      FreshBlock(table[i, j], n, init) && table[i, j] in made
          invariant forall i, j, k, l ::
                      (0 <= i < blockedWidth && 0 <= j < blockedHeight &&
                       0 <= k < blockedWidth && 0 <= l < blockedHeight &&
                       (i < blockCol || (i == blockCol && j < blockRow)) &&
                       (k < blockCol || (k == blockCol && l < blockRow)) &&
                       table[i, j] == table[k, l]) ==> i == k && j == l
        {
          var block := new T[n](_ => init);
          table[blockCol, blockRow] := block;
          made := made + {block};
        }
      }
      this.width := width;
      this.height := height;
      this.size := size;
      this.blocksize := blocksize;
      blocks := table;
      Repr := {table} + made;
      Contents := Filled(width, height, init);
      new;
      forall c, r | 0 <= c < width && 0 <= r < height
        ensures Contents[r][c] == Stored(At(width, height, blocksize, c, r))
      {
        var s := At(width, height, blocksize, c, r);
        assert FreshBlock(table[s.blockCol, s.blockRow], n, init);
      }
    }

    /** UArray2b_new_64K_block: UArray2b_new with the block size BlockSize64K
        derives from the element size. */
    static method New64KBlock(width: int, height: int, size: int, init: T) returns (a: Array2b<T>)
      requires height >= 0 && width >= 0 && size > 0
      ensures fresh(a) && fresh(a.Repr) && a.Valid()
      ensures a.width == width && a.height == height
      ensures a.size == size && a.blocksize == BlockSize64K(size)
      ensures a.Contents == Filled(width, height, init)
    {
      a := new Array2b.New(width, height, size, BlockSize64K(size), init);
    }

    /** Reading through the address UArray2b_at returns: the element at
        (col, row). */
    method Get(col: int, row: int) returns (v: T)
      requires Valid() && 0 <= col < width && 0 <= row < height
      ensures v == Contents[row][col]
    {
      var s := At(width, height, blocksize, col, row);
      v := blocks[s.blockCol, s.blockRow][s.index];
    }

    /** Writing through the address UArray2b_at returns: cell (col, row) now
        holds v and every other cell is unchanged. */
    method Set(col: int, row: int, v: T)
      requires Valid() && 0 <= col < width && 0 <= row < height
      modifies this, Repr
      ensures Valid()
      ensures Contents == old(Contents)[row := old(Contents)[row][col := v]]
    {
      var s := At(width, height, blocksize, col, row);
      blocks[s.blockCol, s.blockRow][s.index] := v;
      Contents := Contents[row := Contents[row][col := v]];
      forall c, r | 0 <= c < width && 0 <= r < height
        ensures Contents[r][c] == Stored(At(width, height, blocksize, c, r))
      {
        var t := At(width, height, blocksize, c, r);
        if c != col || r != row {
          if t == s {
            AtInjective(width, height, blocksize, c, r, col, row);
          }
        }
      }
    }

    /** apply_on_block: the cells of block (blockCol, blockRow) that are
        visited, endSmallCol x endSmallRow of them in row-major order. */
    method ApplyOnBlock(blockCol: nat, blockRow: nat, endSmallCol: nat, endSmallRow: nat)
      returns (visits: seq<Coord>)
      requires blocksize > 0
      ensures visits == BlockVisits(blocksize, blockCol, blockRow, endSmallCol, endSmallRow)
    {
      visits := [];
      for smallRow := 0 to endSmallRow
        invariant visits == BlockVisits(blocksize, blockCol, blockRow, endSmallCol, smallRow)
      {
        for smallCol := 0 to endSmallCol
          invariant visits == BlockVisits(blocksize, blockCol, blockRow, endSmallCol, smallRow)
                              + RowRun(blockCol * blocksize, blockRow * blocksize + smallRow, smallCol)
        {
          var largeCol := blockCol * blocksize + smallCol;
          var largeRow := blockRow * blocksize + smallRow;
          visits := visits + [Coord(largeCol, largeRow)];
        }
      }
    }

    /** The traversal of UArray2b_map: the (col, row) pairs it passes to
        apply, in order. */
    method MapOrder() returns (visits: seq<Coord>)
      requires blocksize > 0
      ensures visits == BlockMajor(width, height, blocksize)
    {
      var blockedWidth := CeilDiv(width, blocksize);
      var blockedHeight := CeilDiv(height, blocksize);
      visits := [];
      for blockRow := 0 to blockedHeight
        invariant visits == BlockRowsVisits(width, height, blocksize, blockRow)
      {
        var rowVisits := [];
        for blockCol := 0 to blockedWidth
          invariant rowVisits == BlockRowVisits(width, height, blocksize, blockRow, blockCol)
        {
          var endSmallCol := blocksize;
          var endSmallRow := blocksize;
          if (blockCol + 1) * blocksize > width {
            endSmallCol := width % blocksize;
          }
          if (blockRow + 1) * blocksize > height {
            endSmallRow := height % blocksize;
          }
          assert endSmallCol == EndSmall(blockCol, width, blocksize);
          assert endSmallRow == EndSmall(blockRow, height, blocksize);
          var block := ApplyOnBlock(blockCol, blockRow, endSmallCol, endSmallRow);
          BlockRowVisitsStep(width, height, blocksize, blockRow, blockCol);
          rowVisits := rowVisits + block;
        }
        BlockRowsVisitsStep(width, height, blocksize, blockRow);
        visits := visits + rowVisits;
      }
    }

    /** One call of the apply function of UArray2b_map at the unvisited cell
        p: the element there is replaced by f(p.col, p.row, element). */
    method ApplyAt(f: (int, int, T) -> T, p: Coord, ghost before: seq<seq<T>>, ghost visited: seq<Coord>)
      requires Valid() && InGrid(width, height, p) && p !in visited
      requires Contents == PartlyApplied(f, before, visited)
      modifies this, Repr
      ensures Valid()
      ensures Contents == PartlyApplied(f, before, visited + [p])
    {
      assert |before| == |Contents| && |before[p.row]| == |Contents[p.row]|;
      PartlyAppliedStep(f, before, visited, p);
      var elem := Get(p.col, p.row);
      Set(p.col, p.row, f(p.col, p.row, elem));
    }

    /** UArray2b_map with an apply function that replaces each element e at
        (col, row) by f(col, row, e): every cell is updated exactly once, in
        the block-major order it returns. */
    method Map(f: (int, int, T) -> T) returns (visits: seq<Coord>)
      requires Valid()
      modifies this, Repr
      ensures Valid()
      ensures visits == BlockMajor(width, height, blocksize)
      ensures Contents == Applied(f, old(Contents))
    {
      visits := MapOrder();
      ghost var before := Contents;
      assert |before| == height && forall r :: 0 <= r < height ==> |before[r]| == width;
      PartlyAppliedNone(f, before);
      for k := 0 to |visits|
        invariant Valid()
        invariant Contents == PartlyApplied(f, before, visits[..k])
      {
        BlockMajorVisit(width, height, blocksize, k);
        TakeOneMore(visits, k);
        ApplyAt(f, visits[k], before, visits[..k]);
      }
      assert visits[..|visits|] == visits;
      BlockMajorCoverage(width, height, blocksize);
      PartlyAppliedDone(f, before, visits);
    }
  }
}
