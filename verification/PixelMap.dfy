/** Where an image pixel lives in the pixel configuration (BPC) file, and back. */
module PixelMap {
  import opened Arith
  import opened Symmetry

  /** The parameters the index maps read. */
  datatype Detector = Detector(numChips: int, rowLength: int, numRows: int, orientation: int) {

    /** The geometry divides by the row length and by the chip width. */
    predicate Valid() {
      rowLength > 0 && numChips > 0 && numRows >= rowLength
    }

    function XChips(): int { rowLength }

    function YChips(): int
      requires Valid()
    {
      numChips / rowLength
    }

    function PelWidth(): (w: int)
      requires Valid()
      ensures w > 0
    {
      numRows / rowLength
    }

    function Rows(): int { numRows }

    function Cols(): int
      requires Valid()
    {
      YChips() * PelWidth()
    }

    /** One chip, or a 2x2 quad: a square image of side Rows() == Cols(). */
    predicate Square() {
      && Valid()
      && 0 <= orientation < 8
      && ((numChips == 1 && rowLength == 1) || (numChips == 4 && rowLength == 2 && numRows % 2 == 0))
    }

    /** Eight chips in a full grid: the layouts the eight-chip map accepts. */
    predicate EightUp() {
      Valid() && numChips == 8 && orientation == 0 && XChips() * YChips() == 8
    }

    /** The layouts with a working map. */
    predicate Mapped() {
      Square() || EightUp()
    }

    /** The one orientation whose two maps disagree. */
    predicate QuadLeft() {
      numChips == 4 && orientation == 3
    }

    /** Bytes of configuration, one a pixel. */
    function Size(): int
      requires Valid()
    {
      numChips * (PelWidth() * PelWidth())
    }

    /** The image: XChips() chips across, YChips() chips down. */
    predicate InImage(p: Point)
      requires Valid()
    {
      0 <= p.i < XChips() * PelWidth() && 0 <= p.j < YChips() * PelWidth()
    }
  }

  // ----- image pixel to file index

  function SingleIndex(w: int, o: int, i: int, j: int): int {
    if o == 0 then i + ((w - 1) - j) * w
    else if o == 1 then j + i * w
    else if o == 2 then ((w - 1) - i) + j * w
    else if o == 3 then ((w - 1) - j) + ((w - 1) - i) * w
    else if o == 4 then ((w - 1) - i) + ((w - 1) - j) * w
    else if o == 5 then j + ((w - 1) - i) * w
    else if o == 6 then i + j * w
    else if o == 7 then ((w - 1) - j) + i * w
    else 0
  }

  function QuadIndex(w: int, o: int, i: nat, j: nat): int
    requires w > 0
  {
    QuadTileIndex(w, o, i / w, j / w, i, j)
  }

  /** Pixel (i, j) is in tile (x, y). */
  function QuadTileIndex(w: int, o: int, x: int, y: int, i: int, j: int): int {
    var ii, jj := i - w, j - w;
    if o < 0 || o > 7 then 0
    else if x > 1 || y > 1 then -1
    else if o == 0 then
      if x == 1 && y == 1 then ii - (jj - (w - 1)) * w
      else if x == 1 then w * w + ((w - 1) - ii) + j * w
      else if y == 0 then 2 * w * w + ((w - 1) - i) + j * w
      else 3 * w * w + i - (jj - (w - 1)) * w
    else if o == 3 then
      if x == 1 && y == 1 then 3 * w * w + ((w - 1) - jj) + ((w - 1) - ii) * w
      else if x == 1 then ((w - 1) - j) + ((w - 1) - ii) * w
      else if y == 0 then w * w + j + i * w
      else 2 * w * w + jj + i * w
    else if o == 1 then
      if x == 1 && y == 1 then w * w + ((w - 1) - jj) + ((w - 1) - ii) * w
      else if x == 1 then 2 * w * w + ((w - 1) - j) + ((w - 1) - ii) * w
      else if y == 0 then 3 * w * w + j + i * w
      else jj + i * w
    else if o == 2 then
      if x == 1 && y == 1 then 2 * w * w + ii + ((w - 1) - jj) * w
      else if x == 1 then 3 * w * w + ((w - 1) - ii) + j * w
      else if y == 0 then ((w - 1) - i) + j * w
      else w * w + i + ((w - 1) - jj) * w
    else if o == 4 then
      if x == 1 && y == 1 then 3 * w * w + ((w - 1) - ii) + ((w - 1) - jj) * w
      else if x == 1 then 2 * w * w + ii + j * w
      else if y == 0 then w * w + i + j * w
      else ((w - 1) - i) + ((w - 1) - jj) * w
    else if o == 5 then
      if x == 1 && y == 1 then jj + ((w - 1) - ii) * w
      else if x == 1 then 3 * w * w + j + ((w - 1) - ii) * w
      else if y == 0 then 2 * w * w + ((w - 1) - j) + i * w
      else w * w + ((w - 1) - jj) + i * w
    else if o == 6 then
      if x == 1 && y == 1 then w * w + ((w - 1) - ii) + ((w - 1) - jj) * w
      else if x == 1 then ii + j * w
      else if y == 0 then 3 * w * w + i + j * w
      else 2 * w * w + ((w - 1) - i) + ((w - 1) - jj) * w
    else
      if x == 1 && y == 1 then 2 * w * w + jj + ((w - 1) - ii) * w
      else if x == 1 then w * w + j + ((w - 1) - ii) * w
      else if y == 0 then ((w - 1) - j) + i * w
      else 3 * w * w + ((w - 1) - jj) + i * w
  }

  function EightIndex(d: Detector, i: nat, j: nat): int
    requires d.Valid()
  {
    var w := d.PelWidth();
    var x, y := i / w, j / w;
    if d.orientation != 0 || d.XChips() * d.YChips() != 8 || x >= d.XChips() || y >= d.YChips() then -1
    else
      var lx, ly := i - x * w, j - y * w;
      (y * d.XChips() + x) * w * w + lx + ((w - 1) - ly) * w
  }

  /** Index into the BPC file of image pixel (i, j). */
  function PelIndex(d: Detector, i: nat, j: nat): int
    requires d.Valid()
  {
    if d.numChips == 1 then SingleIndex(d.PelWidth(), d.orientation, i, j)
    else if d.numChips == 4 then QuadIndex(d.PelWidth(), d.orientation, i, j)
    else if d.numChips == 8 then EightIndex(d, i, j)
    else 0
  }

  // ----- file index to linear image index

  function SinglePixel(w: int, o: int, k: nat): Point
    requires w > 0
  {
    if o == 0 then Point(k % w, w - 1 - k / w)
    else if o == 1 then Point(k / w, k % w)
    else if o == 2 then Point(w - 1 - k % w, k / w)
    else if o == 3 then Point(w - 1 - k / w, w - 1 - k % w)
    else if o == 4 then Point(w - 1 - k % w, w - 1 - k / w)
    else if o == 5 then Point(w - 1 - k / w, k % w)
    else if o == 6 then Point(k % w, k / w)
    else if o == 7 then Point(k / w, w - 1 - k % w)
    else Point(0, 0)
  }

  /** A chip index past 3 leaves (0, 0): the out-of-range marker is overwritten.
      Each branch of the table first subtracts the base of its own chip. */
  function QuadPixel(w: int, o: int, k: nat): Point
    requires w > 0
  {
    var chip := k / (w * w);
    var local := k - chip * (w * w);
    QuadChipPixel(w, o, chip, local % w, local / w)
  }

  function QuadChipPixel(w: int, o: int, chip: int, lx: int, ly: int): Point {
    if chip > 3 then Point(0, 0)
    else if o == 0 then
      if chip == 0 then Point(w + lx, 2 * w - 1 - ly)
      else if chip == 1 then Point(2 * w - 1 - lx, ly)
      else if chip == 2 then Point(w - 1 - lx, ly)
      else Point(lx, 2 * w - 1 - ly)
    else if o == 3 then
      if chip == 3 then Point(2 * w - 1 - ly, 2 * w - 1 - lx)
      else if chip == 0 then Point(2 * w - 1 - ly, lx)
      else if chip == 1 then Point(ly, lx)
      else Point(ly, w + lx)
    else if o == 1 then
      if chip == 1 then Point(2 * w - 1 - ly, 2 * w - 1 - lx)
      else if chip == 2 then Point(2 * w - 1 - ly, w - 1 - lx)
      else if chip == 3 then Point(ly, lx)
      else Point(ly, w + lx)
    else if o == 2 then
      if chip == 2 then Point(w + lx, 2 * w - 1 - ly)
      else if chip == 3 then Point(2 * w - 1 - lx, ly)
      else if chip == 0 then Point(w - 1 - lx, ly)
      else Point(lx, 2 * w - 1 - ly)
    else if o == 4 then
      if chip == 3 then Point(2 * w - 1 - lx, 2 * w - 1 - ly)
      else if chip == 2 then Point(w + lx, ly)
      else if chip == 1 then Point(lx, ly)
      else Point(w - 1 - lx, 2 * w - 1 - ly)
    else if o == 5 then
      if chip == 0 then Point(2 * w - 1 - ly, w + lx)
      else if chip == 3 then Point(2 * w - 1 - ly, lx)
      else if chip == 2 then Point(ly, w - 1 - lx)
      else Point(ly, 2 * w - 1 - lx)
    else if o == 6 then
      if chip == 1 then Point(2 * w - 1 - lx, 2 * w - 1 - ly)
      else if chip == 0 then Point(w + lx, ly)
      else if chip == 3 then Point(lx, ly)
      else Point(w - 1 - lx, 2 * w - 1 - ly)
    else if o == 7 then
      if chip == 2 then Point(2 * w - 1 - ly, w + lx)
      else if chip == 1 then Point(2 * w - 1 - ly, lx)
      else if chip == 0 then Point(ly, w - 1 - lx)
      else Point(ly, 2 * w - 1 - lx)
    else Point(0, 0)
  }

  /** Linear image index of BPC byte k, rows XChips() chips wide. */
  function Bpc2ImgIndex(d: Detector, k: nat): int
    requires d.Valid()
  {
    var w := d.PelWidth();
    if d.numChips == 1 then
      var p := SinglePixel(w, d.orientation, k);
      p.i + w * p.j
    else if d.numChips == 4 then
      var p := QuadPixel(w, d.orientation, k);
      p.i + 2 * w * p.j
    else if d.numChips == 8 then
      if d.orientation != 0 || d.XChips() * d.YChips() != 8 || k / (w * w) > 7 then -1
      else
        var p := EightPixel(d.XChips(), w, k);
        p.i + d.XChips() * w * p.j
    else -1
  }

  function EightPixel(across: int, w: int, k: nat): Point
    requires across > 0 && w > 0
  {
    var chip := k / (w * w);
    var local := k - chip * (w * w);
    Point(chip % across * w + local % w, chip / across * w + (w - 1 - local / w))
  }

  // ----- one meaning for the 41 formulas: a chip and a place on it

  /** A place on a chip: column lx, row ly counted from the bottom. */
  datatype Pel = Pel(chip: int, lx: int, ly: int)

  predicate OnChips(n: int, w: int, e: Pel) {
    0 <= e.chip < n && 0 <= e.lx < w && 0 <= e.ly < w
  }

  function Flat(w: int, e: Pel): int {
    e.chip * (w * w) + (e.ly * w + e.lx)
  }

  function Unflat(w: int, k: nat): Pel
    requires w > 0
  {
    Pel(k / (w * w), k % (w * w) % w, k % (w * w) / w)
  }

  /** A quad reads 2 1 / 3 0 from the top left, chips 1 and 2 upside down. */
  function PlaceQuad(w: int, p: Point): Pel {
    if p.i >= w && p.j >= w then Pel(0, p.i - w, 2 * w - 1 - p.j)
    else if p.i >= w then Pel(1, 2 * w - 1 - p.i, p.j)
    else if p.j < w then Pel(2, w - 1 - p.i, p.j)
    else Pel(3, p.i, 2 * w - 1 - p.j)
  }

  function UnplaceQuad(w: int, e: Pel): Point {
    if e.chip == 0 then Point(w + e.lx, 2 * w - 1 - e.ly)
    else if e.chip == 1 then Point(2 * w - 1 - e.lx, e.ly)
    else if e.chip == 2 then Point(w - 1 - e.lx, e.ly)
    else Point(e.lx, 2 * w - 1 - e.ly)
  }

  /** Other layouts run row by row, `across` chips to a row, all upright. */
  function PlaceGrid(across: int, w: int, p: Point): Pel
    requires w > 0
  {
    Pel(p.j / w * across + p.i / w, p.i % w, w - 1 - p.j % w)
  }

  function UnplaceGrid(across: int, w: int, e: Pel): Point
    requires across > 0
  {
    Point(e.chip % across * w + e.lx, e.chip / across * w + (w - 1 - e.ly))
  }

  /** Where the chips sit in the unrotated image. */
  function Place(d: Detector, p: Point): Pel
    requires d.Valid()
  {
    if d.numChips == 4 then PlaceQuad(d.PelWidth(), p) else PlaceGrid(d.XChips(), d.PelWidth(), p)
  }

  function Unplace(d: Detector, e: Pel): Point
    requires d.Valid()
  {
    if d.numChips == 4 then UnplaceQuad(d.PelWidth(), e) else UnplaceGrid(d.XChips(), d.PelWidth(), e)
  }

  /** The chip place that image pixel p shows: undo the orientation, then look up. */
  function Locate(d: Detector, p: Point): Pel
    requires d.Valid()
  {
    Place(d, Turn(d.orientation, d.Rows(), p))
  }

  /** The image pixel that shows BPC byte k, stated through the symmetry alone. */
  function PelPixel(d: Detector, k: nat): Point
    requires d.Valid()
  {
    Turn(Opposite(d.orientation), d.Rows(), Unplace(d, Unflat(d.PelWidth(), k)))
  }

  // ----- flat indices

  lemma FlatUnflat(n: int, w: int, e: Pel)
    requires OnChips(n, w, e)
    ensures 0 <= Flat(w, e) < n * (w * w) && Unflat(w, Flat(w, e)) == e
    ensures (e.ly * w + e.lx) / w == e.ly && (e.ly * w + e.lx) % w == e.lx
  {
    FlatBound(w, w, e.ly, e.lx);
    FlatBound(w * w, n, e.chip, e.ly * w + e.lx);
    DivMod(w * w, e.chip, e.ly * w + e.lx);
    DivMod(w, e.ly, e.lx);
  }

  lemma UnflatFlat(n: int, w: int, k: nat)
    requires w > 0 && k < n * (w * w)
    ensures OnChips(n, w, Unflat(w, k)) && Flat(w, Unflat(w, k)) == k
  {
    DivBound(w * w, n, k);
    DivBound(w, w, k % (w * w));
  }

  // ----- the formulas place pixels as one table turned by one symmetry

  lemma Halves(w: int, x: int)
    requires 0 <= x < 2 * w
    ensures x / w == if x < w then 0 else 1
  {
    DivMod(w, if x < w then 0 else 1, if x < w then x else x - w);
  }

  lemma FromFarEdge(w: int, x: int)
    ensures (2 * w - 1 - x) * w == 2 * (w * w) - w - x * w
    ensures ((w - 1) - (x - w)) * w == 2 * (w * w) - w - x * w
    ensures ((x - w) - (w - 1)) * w == x * w - 2 * (w * w) + w
    ensures 2 * w * w == 2 * (w * w) && 3 * w * w == 3 * (w * w)
  {
  }

  lemma QuadTopUpright(w: int, o: int, p: Point)
    requires 0 <= o < 4 && InSquare(2 * w, p) && p.j < w
    ensures QuadTileIndex(w, o, if p.i < w then 0 else 1, 0, p.i, p.j) == Flat(w, PlaceQuad(w, Turn(o, 2 * w, p)))
  {
    FromFarEdge(w, p.i);
    FromFarEdge(w, p.j);
  }

  lemma QuadTopMirrored(w: int, o: int, p: Point)
    requires 4 <= o < 8 && InSquare(2 * w, p) && p.j < w
    ensures QuadTileIndex(w, o, if p.i < w then 0 else 1, 0, p.i, p.j) == Flat(w, PlaceQuad(w, Turn(o, 2 * w, p)))
  {
    FromFarEdge(w, p.i);
    FromFarEdge(w, p.j);
  }

  lemma QuadTopFlat(w: int, o: int, p: Point)
    requires 0 <= o < 8 && InSquare(2 * w, p) && p.j < w
    ensures QuadTileIndex(w, o, if p.i < w then 0 else 1, 0, p.i, p.j) == Flat(w, PlaceQuad(w, Turn(o, 2 * w, p)))
  {
    hide QuadTileIndex, Flat, PlaceQuad, Turn;
    if o < 4 {
      QuadTopUpright(w, o, p);
    } else {
      QuadTopMirrored(w, o, p);
    }
  }

  lemma QuadBottomUpright(w: int, o: int, p: Point)
    requires 0 <= o < 4 && InSquare(2 * w, p) && p.j >= w
    ensures QuadTileIndex(w, o, if p.i < w then 0 else 1, 1, p.i, p.j) == Flat(w, PlaceQuad(w, Turn(o, 2 * w, p)))
  {
    FromFarEdge(w, p.i);
    FromFarEdge(w, p.j);
  }

  lemma QuadBottomMirrored(w: int, o: int, p: Point)
    requires 4 <= o < 8 && InSquare(2 * w, p) && p.j >= w
    ensures QuadTileIndex(w, o, if p.i < w then 0 else 1, 1, p.i, p.j) == Flat(w, PlaceQuad(w, Turn(o, 2 * w, p)))
  {
    FromFarEdge(w, p.i);
    FromFarEdge(w, p.j);
  }

  lemma QuadBottomFlat(w: int, o: int, p: Point)
    requires 0 <= o < 8 && InSquare(2 * w, p) && p.j >= w
    ensures QuadTileIndex(w, o, if p.i < w then 0 else 1, 1, p.i, p.j) == Flat(w, PlaceQuad(w, Turn(o, 2 * w, p)))
  {
    hide QuadTileIndex, Flat, PlaceQuad, Turn;
    if o < 4 {
      QuadBottomUpright(w, o, p);
    } else {
      QuadBottomMirrored(w, o, p);
    }
  }

  lemma QuadFlat(w: int, o: int, p: Point)
    requires w > 0 && 0 <= o < 8 && InSquare(2 * w, p)
    ensures QuadIndex(w, o, p.i, p.j) == Flat(w, PlaceQuad(w, Turn(o, 2 * w, p)))
  {
    Halves(w, p.i);
    Halves(w, p.j);
    if p.j < w {
      QuadTopFlat(w, o, p);
    } else {
      QuadBottomFlat(w, o, p);
    }
  }

  lemma SingleFlat(w: int, o: int, p: Point)
    requires w > 0 && 0 <= o < 8 && InSquare(w, p)
    ensures SingleIndex(w, o, p.i, p.j) == Flat(w, PlaceGrid(1, w, Turn(o, w, p)))
  {
    var q := Turn(o, w, p);
    DivMod(w, 0, q.i);
    DivMod(w, 0, q.j);
  }

  lemma ProductAssoc(a: int, w: int)
    ensures a * w * w == a * (w * w)
  {
  }

  lemma EightFlat(d: Detector, p: Point)
    requires d.EightUp() && d.InImage(p)
    ensures EightIndex(d, p.i, p.j) == Flat(d.PelWidth(), PlaceGrid(d.XChips(), d.PelWidth(), p))
  {
    var w := d.PelWidth();
    DivBound(w, d.XChips(), p.i);
    DivBound(w, d.YChips(), p.j);
    ProductAssoc(p.j / w * d.XChips() + p.i / w, w);
  }

  lemma QuadUnplace(w: int, p: Point, e: Pel)
    requires w > 0
    ensures InSquare(2 * w, p) ==> OnChips(4, w, PlaceQuad(w, p)) && UnplaceQuad(w, PlaceQuad(w, p)) == p
    ensures OnChips(4, w, e) ==> InSquare(2 * w, UnplaceQuad(w, e)) && PlaceQuad(w, UnplaceQuad(w, e)) == e
  {
  }

  lemma GridUnplace(x: int, y: int, w: int, p: Point)
    requires x > 0 && y > 0 && w > 0 && 0 <= p.i < x * w && 0 <= p.j < y * w
    ensures OnChips(y * x, w, PlaceGrid(x, w, p)) && UnplaceGrid(x, w, PlaceGrid(x, w, p)) == p
  {
    DivBound(w, x, p.i);
    DivBound(w, y, p.j);
    FlatBound(x, y, p.j / w, p.i / w);
    DivMod(x, p.j / w, p.i / w);
  }

  lemma GridPlace(x: int, y: int, w: int, e: Pel)
    requires x > 0 && w > 0 && OnChips(y * x, w, e)
    ensures var p := UnplaceGrid(x, w, e);
            0 <= p.i < x * w && 0 <= p.j < y * w && PlaceGrid(x, w, p) == e
  {
    DivBound(x, y, e.chip);
    FlatBound(w, x, e.chip % x, e.lx);
    FlatBound(w, y, e.chip / x, w - 1 - e.ly);
    DivMod(w, e.chip % x, e.lx);
    DivMod(w, e.chip / x, w - 1 - e.ly);
  }

  lemma SquareSide(d: Detector)
    requires d.Square()
    ensures d.numChips == 1 ==> d.PelWidth() == d.Rows()
    ensures d.numChips == 4 ==> 2 * d.PelWidth() == d.Rows()
    ensures d.XChips() * d.PelWidth() == d.YChips() * d.PelWidth() == d.Cols() == d.Rows()
  {
  }

  lemma GridCount(d: Detector)
    requires d.Mapped()
    ensures d.YChips() > 0 && (d.numChips != 4 ==> d.YChips() * d.XChips() == d.numChips)
  {
  }

  /** All three families of formulas at once. */
  lemma IndexIsFlat(d: Detector, p: Point)
    requires d.Mapped() && d.InImage(p)
    ensures PelIndex(d, p.i, p.j) == Flat(d.PelWidth(), Locate(d, p))
  {
    hide SingleIndex, QuadIndex, EightIndex, Flat, PlaceQuad, PlaceGrid;
    if d.Square() {
      SquareSide(d);
    }
    if d.numChips == 1 {
      SingleFlat(d.PelWidth(), d.orientation, p);
    } else if d.numChips == 4 {
      QuadFlat(d.PelWidth(), d.orientation, p);
    } else {
      EightFlat(d, p);
    }
  }

  /** Every orientation's formulas are the UP formulas after one symmetry of the
      whole image, and it is the same symmetry for one chip and for a quad. */
  lemma Factorisation(d: Detector, p: Point)
    requires d.Square() && d.InImage(p)
    ensures var q := Turn(d.orientation, d.Rows(), p);
            d.InImage(q) && PelIndex(d, p.i, p.j) == PelIndex(d.(orientation := 0), q.i, q.j)
  {
    hide PelIndex, Flat, PlaceQuad, PlaceGrid;
    SquareSide(d);
    var up := d.(orientation := 0);
    IndexIsFlat(d, p);
    IndexIsFlat(up, Turn(d.orientation, d.Rows(), p));
  }

  // ----- the index map is a bijection

  lemma LocateInverse(d: Detector, p: Point)
    requires d.Mapped() && d.InImage(p)
    ensures OnChips(d.numChips, d.PelWidth(), Locate(d, p))
    ensures Turn(Opposite(d.orientation), d.Rows(), Unplace(d, Locate(d, p))) == p
  {
    hide PlaceQuad, PlaceGrid, UnplaceQuad, UnplaceGrid, OnChips;
    GridCount(d);
    if d.Square() {
      SquareSide(d);
    }
    TurnInverse(d.orientation, d.Rows(), p);
    var q := Turn(d.orientation, d.Rows(), p);
    if d.numChips == 4 {
      QuadUnplace(d.PelWidth(), q, Locate(d, p));
    } else {
      GridUnplace(d.XChips(), d.YChips(), d.PelWidth(), q);
    }
  }

  lemma PlaceInverse(d: Detector, e: Pel)
    requires d.Mapped() && OnChips(d.numChips, d.PelWidth(), e)
    ensures var p := Turn(Opposite(d.orientation), d.Rows(), Unplace(d, e));
            d.InImage(p) && Locate(d, p) == e
  {
    hide PlaceQuad, PlaceGrid, UnplaceQuad, UnplaceGrid;
    if d.Square() {
      SquareSide(d);
    }
    var q := Unplace(d, e);
    TurnInverse(d.orientation, d.Rows(), q);
    if d.numChips == 4 {
      QuadUnplace(d.PelWidth(), q, e);
    } else {
      GridPlace(d.XChips(), d.YChips(), d.PelWidth(), e);
    }
  }

  /** From the image into the file and back. */
  lemma PixelOfIndex(d: Detector, p: Point)
    requires d.Mapped() && d.InImage(p)
    ensures 0 <= PelIndex(d, p.i, p.j) < d.Size()
    ensures PelPixel(d, PelIndex(d, p.i, p.j)) == p
  {
    hide PelIndex, Flat, Unflat, Locate, Unplace;
    IndexIsFlat(d, p);
    LocateInverse(d, p);
    FlatUnflat(d.numChips, d.PelWidth(), Locate(d, p));
  }

  /** From the file into the image and back. */
  lemma IndexOfPixel(d: Detector, k: nat)
    requires d.Mapped() && k < d.Size()
    ensures d.InImage(PelPixel(d, k))
    ensures PelIndex(d, PelPixel(d, k).i, PelPixel(d, k).j) == k
  {
    hide PelIndex, Flat, Unflat, Locate, Unplace;
    var e := Unflat(d.PelWidth(), k);
    UnflatFlat(d.numChips, d.PelWidth(), k);
    PlaceInverse(d, e);
    IndexIsFlat(d, PelPixel(d, k));
  }

  /** `PelIndex` maps the image one-to-one onto the bytes of the file. */
  lemma PelIndexBijective(d: Detector)
    requires d.Mapped()
    ensures forall p | d.InImage(p) :: 0 <= PelIndex(d, p.i, p.j) < d.Size()
    ensures forall p, q | d.InImage(p) && d.InImage(q) && PelIndex(d, p.i, p.j) == PelIndex(d, q.i, q.j) :: p == q
    ensures forall k: nat | k < d.Size() ::
              d.InImage(PelPixel(d, k)) && PelIndex(d, PelPixel(d, k).i, PelPixel(d, k).j) == k
  {
    hide PelIndex, PelPixel;
    forall p | d.InImage(p)
      ensures 0 <= PelIndex(d, p.i, p.j) < d.Size() && PelPixel(d, PelIndex(d, p.i, p.j)) == p
    {
      PixelOfIndex(d, p);
    }
    forall k: nat | k < d.Size()
      ensures d.InImage(PelPixel(d, k)) && PelIndex(d, PelPixel(d, k).i, PelPixel(d, k).j) == k
    {
      IndexOfPixel(d, k);
    }
  }

  // ----- the reverse formulas

  lemma SinglePixelFlat(w: int, o: int, e: Pel)
    requires 0 <= o < 8 && OnChips(1, w, e)
    ensures SinglePixel(w, o, Flat(w, e)) == Turn(Opposite(o), w, UnplaceGrid(1, w, e))
  {
    FlatUnflat(1, w, e);
  }

  lemma QuadPixelUpright(w: int, o: int, e: Pel)
    requires 0 <= o < 4 && OnChips(4, w, e)
    ensures var f := if o == 3 && e.chip == 0 then e.(lx := w - 1 - e.lx) else e;
            QuadChipPixel(w, o, e.chip, e.lx, e.ly) == Turn(Opposite(o), 2 * w, UnplaceQuad(w, f))
  {
  }

  lemma QuadPixelMirrored(w: int, o: int, e: Pel)
    requires 4 <= o < 8 && OnChips(4, w, e)
    ensures QuadChipPixel(w, o, e.chip, e.lx, e.ly) == Turn(Opposite(o), 2 * w, UnplaceQuad(w, e))
  {
  }

  lemma QuadChipPixelTurn(w: int, o: int, e: Pel)
    requires 0 <= o < 8 && OnChips(4, w, e)
    ensures var f := if o == 3 && e.chip == 0 then e.(lx := w - 1 - e.lx) else e;
            QuadChipPixel(w, o, e.chip, e.lx, e.ly) == Turn(Opposite(o), 2 * w, UnplaceQuad(w, f))
  {
    hide QuadChipPixel, UnplaceQuad, Turn;
    if o < 4 {
      QuadPixelUpright(w, o, e);
    } else {
      QuadPixelMirrored(w, o, e);
    }
  }

  /** Every quad branch but one agrees with the symmetry; the LEFT branch for
      chip 0 shows that chip's columns in reverse. */
  lemma QuadPixelFlat(w: int, o: int, e: Pel)
    requires 0 <= o < 8 && OnChips(4, w, e)
    ensures var f := if o == 3 && e.chip == 0 then e.(lx := w - 1 - e.lx) else e;
            QuadPixel(w, o, Flat(w, e)) == Turn(Opposite(o), 2 * w, UnplaceQuad(w, f))
  {
    hide QuadChipPixel, UnplaceQuad, Turn;
    FlatUnflat(4, w, e);
    QuadChipPixelTurn(w, o, e);
  }

  lemma EightPixelFlat(across: int, w: int, e: Pel)
    requires across > 0 && OnChips(8, w, e)
    ensures EightPixel(across, w, Flat(w, e)) == UnplaceGrid(across, w, e)
  {
    FlatUnflat(8, w, e);
  }

  /** Position of a pixel in the row-major image. */
  function Linear(d: Detector, p: Point): int
    requires d.Valid()
  {
    p.i + d.XChips() * d.PelWidth() * p.j
  }

  /** Turn chip 0's tile of the quad LEFT layout upside down. */
  function FlipLeft(d: Detector, p: Point): Point
    requires d.Valid()
  {
    if d.QuadLeft() && p.i >= d.PelWidth() && p.j < d.PelWidth() then Point(p.i, d.PelWidth() - 1 - p.j) else p
  }

  /** Turning chip 0's tile upside down is reversing the columns of the chip. */
  lemma TileReversed(d: Detector, e: Pel)
    requires d.Mapped() && d.numChips == 4 && OnChips(4, d.PelWidth(), e)
    ensures var f := if d.orientation == 3 && e.chip == 0 then e.(lx := d.PelWidth() - 1 - e.lx) else e;
            FlipLeft(d, Turn(Opposite(d.orientation), 2 * d.PelWidth(), UnplaceQuad(d.PelWidth(), e)))
              == Turn(Opposite(d.orientation), 2 * d.PelWidth(), UnplaceQuad(d.PelWidth(), f))
  {
  }

  lemma ReverseOfOne(d: Detector, e: Pel)
    requires d.Mapped() && d.numChips == 1 && OnChips(1, d.PelWidth(), e)
    ensures 0 <= Flat(d.PelWidth(), e)
    ensures Bpc2ImgIndex(d, Flat(d.PelWidth(), e))
         == Linear(d, FlipLeft(d, Turn(Opposite(d.orientation), d.Rows(), Unplace(d, e))))
  {
    hide SinglePixel, Flat, UnplaceGrid, Turn;
    FlatUnflat(1, d.PelWidth(), e);
    SquareSide(d);
    SinglePixelFlat(d.PelWidth(), d.orientation, e);
  }

  lemma ReverseOfFour(d: Detector, e: Pel)
    requires d.Mapped() && d.numChips == 4 && OnChips(4, d.PelWidth(), e)
    ensures 0 <= Flat(d.PelWidth(), e)
    ensures Bpc2ImgIndex(d, Flat(d.PelWidth(), e))
         == Linear(d, FlipLeft(d, Turn(Opposite(d.orientation), d.Rows(), Unplace(d, e))))
  {
    hide QuadPixel, Flat, UnplaceQuad, Turn, FlipLeft;
    FlatUnflat(4, d.PelWidth(), e);
    SquareSide(d);
    QuadPixelFlat(d.PelWidth(), d.orientation, e);
    TileReversed(d, e);
  }

  lemma ReverseOfEight(d: Detector, e: Pel)
    requires d.Mapped() && d.numChips == 8 && OnChips(8, d.PelWidth(), e)
    ensures 0 <= Flat(d.PelWidth(), e)
    ensures Bpc2ImgIndex(d, Flat(d.PelWidth(), e))
         == Linear(d, FlipLeft(d, Turn(Opposite(d.orientation), d.Rows(), Unplace(d, e))))
  {
    hide EightPixel, Flat, UnplaceGrid;
    var w := d.PelWidth();
    assert 0 <= Flat(w, e) && Flat(w, e) / (w * w) == e.chip by {
      FlatUnflat(8, w, e);
    }
    EightPixelFlat(d.XChips(), w, e);
  }

  lemma ReverseOfPlace(d: Detector, e: Pel)
    requires d.Mapped() && OnChips(d.numChips, d.PelWidth(), e)
    ensures 0 <= Flat(d.PelWidth(), e)
    ensures Bpc2ImgIndex(d, Flat(d.PelWidth(), e))
         == Linear(d, FlipLeft(d, Turn(Opposite(d.orientation), d.Rows(), Unplace(d, e))))
  {
    hide Bpc2ImgIndex, Flat, Linear, FlipLeft, Turn, Unplace;
    if d.numChips == 1 {
      ReverseOfOne(d, e);
    } else if d.numChips == 4 {
      ReverseOfFour(d, e);
    } else {
      ReverseOfEight(d, e);
    }
  }

  /** What the reverse map computes for every byte of the file: the pixel that
      shows the byte, except that quad LEFT turns chip 0's tile upside down. */
  lemma ReverseMap(d: Detector, k: nat)
    requires d.Mapped() && k < d.Size()
    ensures d.InImage(FlipLeft(d, PelPixel(d, k)))
    ensures Bpc2ImgIndex(d, k) == Linear(d, FlipLeft(d, PelPixel(d, k)))
  {
    hide Bpc2ImgIndex, Linear, Flat, Unflat, Unplace;
    UnflatFlat(d.numChips, d.PelWidth(), k);
    ReverseOfPlace(d, Unflat(d.PelWidth(), k));
    IndexOfPixel(d, k);
  }

  /** Outside the layouts and the files that are mapped. A byte beyond a quad's file is
      placed at pixel (0, 0), since the mark for it is overwritten; with eight chips, or
      another number of chips, it is skipped. */
  lemma OffTheMap(d: Detector, k: nat, i: nat, j: nat)
    requires d.Valid()
    ensures d.numChips == 4 && k >= d.Size() ==> Bpc2ImgIndex(d, k) == 0
    ensures d.numChips == 8 && (d.orientation != 0 || d.XChips() * d.YChips() != 8 || k >= d.Size()) ==>
              Bpc2ImgIndex(d, k) == -1
    ensures d.numChips !in {1, 4, 8} ==> Bpc2ImgIndex(d, k) == -1 && PelIndex(d, i, j) == 0
    ensures d.numChips == 8 && (d.orientation != 0 || d.XChips() * d.YChips() != 8 || !d.InImage(Point(i, j))) ==>
              PelIndex(d, i, j) == -1
    ensures d.numChips in {1, 4} && !(0 <= d.orientation < 8) ==>
              PelIndex(d, i, j) == 0 && Bpc2ImgIndex(d, k) == 0
    ensures d.numChips == 4 && 0 <= d.orientation < 8 && (i >= 2 * d.PelWidth() || j >= 2 * d.PelWidth()) ==>
              PelIndex(d, i, j) == -1
  {
    hide EightPixel;
    var w := d.PelWidth();
    DivAtLeast(w * w, d.numChips, k);
    DivAtLeast(w, d.XChips(), i);
    DivAtLeast(w, d.YChips(), j);
    DivAtLeast(w, 2, i);
    DivAtLeast(w, 2, j);
  }

  lemma LinearInjective(d: Detector, p: Point, q: Point)
    requires d.Valid() && d.InImage(p) && d.InImage(q) && Linear(d, p) == Linear(d, q)
    ensures p == q
  {
    var l := d.XChips() * d.PelWidth();
    QuotientUnique(l, p.j, p.i, q.j, q.i);
  }

  /** The reverse map inverts `PelIndex` at a pixel exactly when the pixel is not
      in the flipped tile, or lies on the tile's middle row. */
  lemma ReverseInverts(d: Detector, p: Point)
    requires d.Mapped() && d.InImage(p)
    ensures 0 <= PelIndex(d, p.i, p.j)
    ensures Bpc2ImgIndex(d, PelIndex(d, p.i, p.j)) == Linear(d, FlipLeft(d, p))
    ensures Bpc2ImgIndex(d, PelIndex(d, p.i, p.j)) == Linear(d, p)
       <==> !(d.QuadLeft() && p.i >= d.PelWidth() && p.j < d.PelWidth()) || 2 * p.j == d.PelWidth() - 1
  {
    hide PelIndex, PelPixel, Bpc2ImgIndex, Linear;
    PixelOfIndex(d, p);
    ReverseMap(d, PelIndex(d, p.i, p.j));
    if Linear(d, p) == Linear(d, FlipLeft(d, p)) {
      LinearInjective(d, p, FlipLeft(d, p));
    }
  }

  /** Outside quad LEFT the two maps are inverse to each other on both sides. */
  lemma TwoSidedInverse(d: Detector)
    requires d.Mapped() && !d.QuadLeft()
    ensures forall p | d.InImage(p) ::
              0 <= PelIndex(d, p.i, p.j) && Bpc2ImgIndex(d, PelIndex(d, p.i, p.j)) == Linear(d, p)
    ensures forall k: nat, p | k < d.Size() && d.InImage(p) && Linear(d, p) == Bpc2ImgIndex(d, k) ::
              PelIndex(d, p.i, p.j) == k
  {
    hide PelIndex, PelPixel, Bpc2ImgIndex, Linear;
    forall p | d.InImage(p)
      ensures 0 <= PelIndex(d, p.i, p.j) && Bpc2ImgIndex(d, PelIndex(d, p.i, p.j)) == Linear(d, p)
    {
      ReverseInverts(d, p);
    }
    forall k: nat, p | k < d.Size() && d.InImage(p) && Linear(d, p) == Bpc2ImgIndex(d, k)
      ensures PelIndex(d, p.i, p.j) == k
    {
      IndexOfPixel(d, k);
      ReverseMap(d, k);
      LinearInjective(d, p, PelPixel(d, k));
    }
  }
}
