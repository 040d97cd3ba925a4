/** The rotation part of ppmtrans.c: the rotations main accepts, the
    coordinate maps of the callbacks rotate_0, rotate_90 and rotate_180, and
    rotate_img, which sizes a destination image and fills it by mapping a
    callback over the source image in block-major order. */
module PpmTrans {
  import opened BlockLayout
  import opened UArray2b

  datatype Option<T> = None | Some(value: T)

  /** The rotations ppmtrans performs: 0, 90 and 180 degrees. */
  datatype Rotation = NoTurn | QuarterTurn | HalfTurn

  function Degrees(rotation: Rotation): int {
    match rotation
    case NoTurn => 0
    case QuarterTurn => 90
    case HalfTurn => 180
  }

  /** The check main makes of the -rotate value: 0, 90 and 180 are accepted,
      every other value is rejected. */
  function AcceptRotation(rotation: int): (r: Option<Rotation>)
    ensures r.Some? <==> rotation == 0 || rotation == 90 || rotation == 180
    ensures r.Some? ==> Degrees(r.value) == rotation
  {
    if rotation == 0 then Some(NoTurn)
    else if rotation == 90 then Some(QuarterTurn)
    else if rotation == 180 then Some(HalfTurn)
    else None
  }

  /** The destination dimensions rotate_img chooses: swapped for 90 degrees,
      kept for 0 and 180. */
  function RotatedSize(rotation: Rotation, width: nat, height: nat): (nat, nat) {
    if rotation == QuarterTurn then (height, width) else (width, height)
  }

  /** p is a pixel of an input image whose rotation by `rotation` is
      rotatedWidth x rotatedHeight. */
  predicate InSource(rotation: Rotation, rotatedWidth: nat, rotatedHeight: nat, p: Coord) {
    if rotation == QuarterTurn then InGrid(rotatedHeight, rotatedWidth, p)
    else InGrid(rotatedWidth, rotatedHeight, p)
  }

  /** The destination coordinate the callbacks compute for input pixel p, from
      the destination's dimensions: rotate_0 keeps (col, row), rotate_90 sends
      it to (H - row - 1, col) with H read back as the destination's width,
      rotate_180 to (W - col - 1, H - row - 1). It lies inside the
      destination. */
  function Destination(rotation: Rotation, p: Coord, rotatedWidth: nat, rotatedHeight: nat): (d: Coord)
    requires InSource(rotation, rotatedWidth, rotatedHeight, p)
    ensures InGrid(rotatedWidth, rotatedHeight, d)
  {
    match rotation
    case NoTurn => Coord(p.col, p.row)
    case QuarterTurn =>
      var inputHeight := rotatedWidth;
      Coord(inputHeight - p.row - 1, p.col)
    case HalfTurn =>
      var inputWidth, inputHeight := rotatedWidth, rotatedHeight;
      Coord(inputWidth - p.col - 1, inputHeight - p.row - 1)
  }

  /** The input pixel a destination pixel receives: the inverse of
      Destination, so each rotation is a bijection between the two grids. */
  function Origin(rotation: Rotation, d: Coord, rotatedWidth: nat, rotatedHeight: nat): (p: Coord)
    requires InGrid(rotatedWidth, rotatedHeight, d)
    ensures InSource(rotation, rotatedWidth, rotatedHeight, p)
    ensures Destination(rotation, p, rotatedWidth, rotatedHeight) == d
  {
    match rotation
    case NoTurn => d
    case QuarterTurn => Coord(d.row, rotatedWidth - d.col - 1)
    case HalfTurn => Coord(rotatedWidth - d.col - 1, rotatedHeight - d.row - 1)
  }

  /** Origin undoes Destination. */
  lemma OriginOfDestination(rotation: Rotation, p: Coord, rotatedWidth: nat, rotatedHeight: nat)
    requires InSource(rotation, rotatedWidth, rotatedHeight, p)
    ensures Origin(rotation, Destination(rotation, p, rotatedWidth, rotatedHeight), rotatedWidth, rotatedHeight) == p
  {
  }

  /** rotate_180's map is its own inverse. */
  lemma HalfTurnSelfInverse(p: Coord, width: nat, height: nat)
    requires InGrid(width, height, p)
    ensures Destination(HalfTurn, Destination(HalfTurn, p, width, height), width, height) == p
  {
  }

  predicate IsGrid<T>(g: seq<seq<T>>, width: nat, height: nat) {
    |g| == height && forall r :: 0 <= r < height ==> |g[r]| == width
  }

  /** The rotatedWidth x rotatedHeight image the rotation of img produces:
      each destination pixel holds the input pixel at its origin. */
  function Rotated<T>(rotation: Rotation, img: seq<seq<T>>, rotatedWidth: nat, rotatedHeight: nat): (out: seq<seq<T>>)
    requires var (w, h) := RotatedSize(rotation, rotatedWidth, rotatedHeight); IsGrid(img, w, h)
    ensures IsGrid(out, rotatedWidth, rotatedHeight)
  {
    seq(rotatedHeight, dr requires 0 <= dr < rotatedHeight =>
      seq(rotatedWidth, dc requires 0 <= dc < rotatedWidth =>
        var p := Origin(rotation, Coord(dc, dr), rotatedWidth, rotatedHeight);
        img[p.row][p.col]))
  }

  /** Every input pixel arrives at its destination. */
  lemma RotatedMovesPixel<T>(rotation: Rotation, img: seq<seq<T>>, width: nat, height: nat, p: Coord)
    requires IsGrid(img, width, height) && InGrid(width, height, p)
    ensures var (rw, rh) := RotatedSize(rotation, width, height);
            var d := Destination(rotation, p, rw, rh);
            Rotated(rotation, img, rw, rh)[d.row][d.col] == img[p.row][p.col]
  {
    var (rw, rh) := RotatedSize(rotation, width, height);
    OriginOfDestination(rotation, p, rw, rh);
  }

  /** Rotating by 180 degrees twice gives back the image. */
  lemma HalfTurnTwice<T>(img: seq<seq<T>>, width: nat, height: nat)
    requires IsGrid(img, width, height)
    ensures Rotated(HalfTurn, Rotated(HalfTurn, img, width, height), width, height) == img
  {
    var once := Rotated(HalfTurn, img, width, height);
    var twice := Rotated(HalfTurn, once, width, height);
    forall r | 0 <= r < height
      ensures twice[r] == img[r]
    {
      forall c | 0 <= c < width
        ensures twice[r][c] == img[r][c]
      {
        HalfTurnSelfInverse(Coord(c, r), width, height);
      }
    }
  }

  /** The input pixels of a rotation into RotatedSize of a width x height
      image are exactly the cells of that image. */
  lemma InSourceOfRotatedSize(rotation: Rotation, width: nat, height: nat, p: Coord)
    ensures InSource(rotation, RotatedSize(rotation, width, height).0, RotatedSize(rotation, width, height).1, p)
            <==> InGrid(width, height, p)
  {
  }

  /** Every pixel the traversal visits is an input pixel of the rotation. */
  lemma VisitsInSource(rotation: Rotation, width: nat, height: nat, bs: nat)
    requires bs > 0
    ensures var o := BlockMajor(width, height, bs);
            forall i :: 0 <= i < |o| ==>
              InSource(rotation, RotatedSize(rotation, width, height).0, RotatedSize(rotation, width, height).1, o[i])
  {
    var o := BlockMajor(width, height, bs);
    BlockMajorCoverage(width, height, bs);
    forall i | 0 <= i < |o|
      ensures InSource(rotation, RotatedSize(rotation, width, height).0, RotatedSize(rotation, width, height).1, o[i])
    {
      assert o[i] in o;
      InSourceOfRotatedSize(rotation, width, height, o[i]);
    }
  }

  /** No two visits of the traversal write the same destination pixel. */
  lemma DestinationsDistinct(rotation: Rotation, width: nat, height: nat, bs: nat)
    requires bs > 0
    ensures var o := BlockMajor(width, height, bs);
            var rw := RotatedSize(rotation, width, height).0;
            var rh := RotatedSize(rotation, width, height).1;
            forall i, j ::
              (0 <= i < |o| && 0 <= j < |o| &&
               InSource(rotation, rw, rh, o[i]) && InSource(rotation, rw, rh, o[j]) &&
               Destination(rotation, o[i], rw, rh) == Destination(rotation, o[j], rw, rh)) ==> i == j
  {
    var o := BlockMajor(width, height, bs);
    var rw := RotatedSize(rotation, width, height).0;
    var rh := RotatedSize(rotation, width, height).1;
    BlockMajorNoRepeats(width, height, bs);
    forall i, j | 0 <= i < |o| && 0 <= j < |o| &&
                  InSource(rotation, rw, rh, o[i]) && InSource(rotation, rw, rh, o[j]) &&
                  Destination(rotation, o[i], rw, rh) == Destination(rotation, o[j], rw, rh)
      ensures i == j
    {
      OriginOfDestination(rotation, o[i], rw, rh);
      OriginOfDestination(rotation, o[j], rw, rh);
    }
  }

  /** Every destination pixel is written by some visit of the traversal. */
  lemma DestinationsCovered(rotation: Rotation, width: nat, height: nat, bs: nat)
    requires bs > 0
    ensures var o := BlockMajor(width, height, bs);
            var rw := RotatedSize(rotation, width, height).0;
            var rh := RotatedSize(rotation, width, height).1;
            forall d :: InGrid(rw, rh, d) ==>
              exists i :: 0 <= i < |o| && InSource(rotation, rw, rh, o[i]) &&
                          Destination(rotation, o[i], rw, rh) == d
  {
    var o := BlockMajor(width, height, bs);
    var rw := RotatedSize(rotation, width, height).0;
    var rh := RotatedSize(rotation, width, height).1;
    BlockMajorCoverage(width, height, bs);
    forall d | InGrid(rw, rh, d)
      ensures exists i :: 0 <= i < |o| && InSource(rotation, rw, rh, o[i]) &&
                          Destination(rotation, o[i], rw, rh) == d
    {
      var p := Origin(rotation, d, rw, rh);
      InSourceOfRotatedSize(rotation, width, height, p);
      assert p in o;
      var i :| 0 <= i < |o| && o[i] == p;
    }
  }

  /** Mapped over the block-major traversal of a width x height input, the
      callback of each rotation writes every destination pixel exactly once. */
  lemma DestinationsExactlyOnce(rotation: Rotation, width: nat, height: nat, bs: nat)
    requires bs > 0
    ensures var o := BlockMajor(width, height, bs);
            var rw := RotatedSize(rotation, width, height).0;
            var rh := RotatedSize(rotation, width, height).1;
            (forall i :: 0 <= i < |o| ==> InSource(rotation, rw, rh, o[i])) &&
            (forall i, j ::
               (0 <= i < |o| && 0 <= j < |o| &&
                Destination(rotation, o[i], rw, rh) == Destination(rotation, o[j], rw, rh)) ==> i == j) &&
            (forall d :: InGrid(rw, rh, d) ==>
               exists i :: 0 <= i < |o| && Destination(rotation, o[i], rw, rh) == d)
  {
    VisitsInSource(rotation, width, height, bs);
    DestinationsDistinct(rotation, width, height, bs);
    DestinationsCovered(rotation, width, height, bs);
  }

  /** An image: its dimensions, the denominator (maximum channel value) and
      the pixel grid. */
  class Ppm<T> {
    var width: nat
    var height: nat
    var denominator: int
    var pixels: Array2b<T>

    ghost predicate Valid()
      reads this, pixels, pixels.Repr
    {
      this !in pixels.Repr &&
      pixels.Valid() && pixels.width == width && pixels.height == height
    }

    constructor (width: nat, height: nat, denominator: int, pixels: Array2b<T>)
      requires pixels.Valid() && pixels.width == width && pixels.height == height
      ensures Valid()
      ensures this.width == width && this.height == height
      ensures this.denominator == denominator && this.pixels == pixels
    {
      this.width := width;
      this.height := height;
      this.denominator := denominator;
      this.pixels := pixels;
    }
  }

  /** rotate_0: copies elem, the input pixel at (inputCol, inputRow), to the
      same coordinate of the destination and changes no other pixel. */
  method Rotate0<T>(inputCol: int, inputRow: int, elem: T, rotated: Ppm<T>)
    requires rotated.Valid()
    requires InSource(NoTurn, rotated.width, rotated.height, Coord(inputCol, inputRow))
    modifies rotated.pixels, rotated.pixels.Repr
    ensures rotated.Valid()
    ensures var d := Destination(NoTurn, Coord(inputCol, inputRow), rotated.width, rotated.height);
            rotated.pixels.Contents == old(rotated.pixels.Contents)[d.row := old(rotated.pixels.Contents)[d.row][d.col := elem]]
  {
    var rotatedCol := inputCol;
    var rotatedRow := inputRow;
    rotated.pixels.Set(rotatedCol, rotatedRow, elem);
  }

  /** rotate_90: copies elem to (H - inputRow - 1, inputCol), H being the
      destination's width, and changes no other pixel. */
  method Rotate90<T>(inputCol: int, inputRow: int, elem: T, rotated: Ppm<T>)
    requires rotated.Valid()
    requires InSource(QuarterTurn, rotated.width, rotated.height, Coord(inputCol, inputRow))
    modifies rotated.pixels, rotated.pixels.Repr
    ensures rotated.Valid()
    ensures var d := Destination(QuarterTurn, Coord(inputCol, inputRow), rotated.width, rotated.height);
            rotated.pixels.Contents == old(rotated.pixels.Contents)[d.row := old(rotated.pixels.Contents)[d.row][d.col := elem]]
  {
    var inputHeight := rotated.width;
    var rotatedCol := inputHeight - inputRow - 1;
    var rotatedRow := inputCol;
    rotated.pixels.Set(rotatedCol, rotatedRow, elem);
  }

  /** rotate_180: copies elem to (W - inputCol - 1, H - inputRow - 1), W and H
      being the destination's dimensions, and changes no other pixel. */
  method Rotate180<T>(inputCol: int, inputRow: int, elem: T, rotated: Ppm<T>)
    requires rotated.Valid()
    requires InSource(HalfTurn, rotated.width, rotated.height, Coord(inputCol, inputRow))
    modifies rotated.pixels, rotated.pixels.Repr
    ensures rotated.Valid()
    ensures var d := Destination(HalfTurn, Coord(inputCol, inputRow), rotated.width, rotated.height);
            rotated.pixels.Contents == old(rotated.pixels.Contents)[d.row := old(rotated.pixels.Contents)[d.row][d.col := elem]]
  {
    var inputWidth := rotated.width;
    var inputHeight := rotated.height;
    var rotatedCol := inputWidth - inputCol - 1;
    var rotatedRow := inputHeight - inputRow - 1;
    rotated.pixels.Set(rotatedCol, rotatedRow, elem);
  }

  /** The callback rotate_img hands to the map for `rotation`. */
  method RotatePixel<T>(rotation: Rotation, inputCol: int, inputRow: int, elem: T, rotated: Ppm<T>)
    requires rotated.Valid()
    requires InSource(rotation, rotated.width, rotated.height, Coord(inputCol, inputRow))
    modifies rotated.pixels, rotated.pixels.Repr
    ensures rotated.Valid()
    ensures var d := Destination(rotation, Coord(inputCol, inputRow), rotated.width, rotated.height);
            rotated.pixels.Contents == old(rotated.pixels.Contents)[d.row := old(rotated.pixels.Contents)[d.row][d.col := elem]]
  {
    match rotation {
      case NoTurn => Rotate0(inputCol, inputRow, elem, rotated);
      case QuarterTurn => Rotate90(inputCol, inputRow, elem, rotated);
      case HalfTurn => Rotate180(inputCol, inputRow, elem, rotated);
    }
  }

  /** The destination after the callback has run for the input pixels in
      `visited`, starting from the grid `start`: a pixel whose origin was
      visited holds the origin's value, every other pixel still holds what it
      held in `start`. */
  function PartlyRotated<T>(rotation: Rotation, source: seq<seq<T>>, visited: seq<Coord>,
                            width: nat, height: nat, start: seq<seq<T>>): (out: seq<seq<T>>)
    requires IsGrid(source, RotatedSize(rotation, width, height).0, RotatedSize(rotation, width, height).1)
    requires IsGrid(start, width, height)
    ensures IsGrid(out, width, height)
  {
    seq(height, dr requires 0 <= dr < height =>
      seq(width, dc requires 0 <= dc < width =>
        var p := Origin(rotation, Coord(dc, dr), width, height);
        if p in visited then source[p.row][p.col] else start[dr][dc]))
  }

  /** Before any callback has run, the destination is the starting grid. */
  lemma PartlyRotatedNone<T>(rotation: Rotation, source: seq<seq<T>>, width: nat, height: nat, start: seq<seq<T>>)
    requires IsGrid(source, RotatedSize(rotation, width, height).0, RotatedSize(rotation, width, height).1)
    requires IsGrid(start, width, height)
    ensures PartlyRotated(rotation, source, [], width, height, start) == start
  {
    var none := PartlyRotated(rotation, source, [], width, height, start);
    forall r | 0 <= r < height
      ensures none[r] == start[r]
    {
    }
  }

  /** One more callback writes the new pixel at its destination and leaves
      every other destination pixel as it was. */
  lemma PartlyRotatedStep<T>(rotation: Rotation, source: seq<seq<T>>, visited: seq<Coord>, p: Coord,
                             width: nat, height: nat, start: seq<seq<T>>)
    requires IsGrid(source, RotatedSize(rotation, width, height).0, RotatedSize(rotation, width, height).1)
    requires IsGrid(start, width, height)
    requires InSource(rotation, width, height, p) && p !in visited
    ensures var before := PartlyRotated(rotation, source, visited, width, height, start);
            var d := Destination(rotation, p, width, height);
            PartlyRotated(rotation, source, visited + [p], width, height, start)
              == before[d.row := before[d.row][d.col := source[p.row][p.col]]]
  {
    var before := PartlyRotated(rotation, source, visited, width, height, start);
    var after := PartlyRotated(rotation, source, visited + [p], width, height, start);
    var d := Destination(rotation, p, width, height);
    var expected := before[d.row := before[d.row][d.col := source[p.row][p.col]]];
    OriginOfDestination(rotation, p, width, height);
    forall r | 0 <= r < height
      ensures after[r] == expected[r]
    {
      forall c | 0 <= c < width
        ensures after[r][c] == expected[r][c]
      {
        var o := Origin(rotation, Coord(c, r), width, height);
        assert o in visited + [p] <==> o in visited || o == p;
      }
    }
  }

  /** Once every input pixel has been visited, the destination is the rotated
      image. */
  lemma PartlyRotatedDone<T>(rotation: Rotation, source: seq<seq<T>>, visited: seq<Coord>,
                             width: nat, height: nat, start: seq<seq<T>>)
    requires IsGrid(source, RotatedSize(rotation, width, height).0, RotatedSize(rotation, width, height).1)
    requires IsGrid(start, width, height)
    requires forall p :: InSource(rotation, width, height, p) ==> p in visited
    ensures PartlyRotated(rotation, source, visited, width, height, start) == Rotated(rotation, source, width, height)
  {
    var done := PartlyRotated(rotation, source, visited, width, height, start);
    var expected := Rotated(rotation, source, width, height);
    forall r | 0 <= r < height
      ensures done[r] == expected[r]
    {
      forall c | 0 <= c < width
        ensures done[r][c] == expected[r][c]
      {
        assert Origin(rotation, Coord(c, r), width, height) in visited;
      }
    }
  }

  /** One iteration of rotate_img's map: reads the input pixel p and hands it
      to the rotation callback, which extends the partly rotated destination
      by p. The input grid is disjoint from the destination and unchanged. */
  method RotateStep<T>(rotation: Rotation, src: Array2b<T>, rotated: Ppm<T>, p: Coord,
                       ghost visited: seq<Coord>, ghost start: seq<seq<T>>)
    requires src.Valid() && rotated.Valid()
    requires src != rotated.pixels && src !in rotated.pixels.Repr && src.Repr !! rotated.pixels.Repr
    requires (src.width, src.height) == RotatedSize(rotation, rotated.width, rotated.height)
    requires InSource(rotation, rotated.width, rotated.height, p) && p !in visited
    requires IsGrid(start, rotated.width, rotated.height)
    requires rotated.pixels.Contents == PartlyRotated(rotation, src.Contents, visited, rotated.width, rotated.height, start)
    modifies rotated.pixels, rotated.pixels.Repr
    ensures src.Valid() && rotated.Valid() && src.Contents == old(src.Contents)
    ensures rotated.pixels.Contents == PartlyRotated(rotation, src.Contents, visited + [p], rotated.width, rotated.height, start)
  {
    var elem := src.Get(p.col, p.row);
    PartlyRotatedStep(rotation, src.Contents, visited, p, rotated.width, rotated.height, start);
    RotatePixel(rotation, p.col, p.row, elem, rotated);
  }

  /** The map call of rotate_img: the rotation callback is applied to every
      pixel of src in block-major order, and the destination, whatever it held
      before, ends up holding the rotated image. src is disjoint from the destination and is
      not changed. */
  method MapRotate<T>(rotation: Rotation, src: Array2b<T>, rotated: Ppm<T>)
    requires src.Valid() && rotated.Valid()
    requires src != rotated.pixels && src !in rotated.pixels.Repr && src.Repr !! rotated.pixels.Repr
    requires (rotated.width, rotated.height) == RotatedSize(rotation, src.width, src.height)
    modifies rotated.pixels, rotated.pixels.Repr
    ensures src.Valid() && rotated.Valid() && src.Contents == old(src.Contents)
    ensures rotated.pixels.Contents == Rotated(rotation, src.Contents, rotated.width, rotated.height)
  {
    var width, height := rotated.width, rotated.height;
    var order := src.MapOrder();
    ghost var source := src.Contents;
    ghost var start := rotated.pixels.Contents;
    PartlyRotatedNone(rotation, source, width, height, start);
    for k := 0 to |order|
      invariant rotated.Valid() && src.Valid() && src.Contents == source
      invariant rotated.pixels.Contents == PartlyRotated(rotation, source, order[..k], width, height, start)
    {
      BlockMajorVisit(src.width, src.height, src.blocksize, k);
      InSourceOfRotatedSize(rotation, src.width, src.height, order[k]);
      TakeOneMore(order, k);
      RotateStep(rotation, src, rotated, order[k], order[..k], start);
    }
    assert order[..|order|] == order;
    BlockMajorCoverage(src.width, src.height, src.blocksize);
    forall p | InSource(rotation, width, height, p)
      ensures p in order
    {
      InSourceOfRotatedSize(rotation, src.width, src.height, p);
    }
    PartlyRotatedDone(rotation, source, order, width, height, start);
  }

  /** rotate_img: a fresh image with the rotated dimensions and the input's
      denominator, whose pixels are filled by mapping the rotation's callback
      over the input in block-major order. The result is the rotated image;
      the input is unchanged. */
  method RotateImg<T>(rotation: Rotation, input: Ppm<T>, pixelSize: int, blank: T) returns (rotated: Ppm<T>)
    requires input.Valid() && pixelSize > 0
    ensures fresh(rotated) && fresh(rotated.pixels) && fresh(rotated.pixels.Repr)
    ensures rotated.Valid()
    ensures (rotated.width, rotated.height) == RotatedSize(rotation, input.width, input.height)
    ensures rotated.denominator == input.denominator
    ensures rotated.pixels.Contents == Rotated(rotation, input.pixels.Contents, rotated.width, rotated.height)
  {
    var width, height := input.width, input.height;
    if rotation == QuarterTurn {
      width, height := input.height, input.width;
    }
    var pixels := Array2b.New64KBlock(width, height, pixelSize, blank);
    rotated := new Ppm(width, height, input.denominator, pixels);

    MapRotate(rotation, input.pixels, rotated);
  }
}
