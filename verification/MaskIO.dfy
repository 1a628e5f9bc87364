/** Drawing a pixel mask, writing it into a BPC file, and loading it back. */
module MaskIO {
  import opened Arith
  import opened Symmetry
  import opened PixelMap
  import opened Counting
  import opened Raster

  type Word = bv32
  type Byte = bv8

  const MASK_BIT: Word := 1
  const LOADED_BIT: Word := 2
  const DEFAULT_MASK_FILE := "mask.bpc"

  predicate Drawn(v: Word) {
    v & MASK_BIT != 0
  }

  predicate Masked(b: Byte) {
    b & 1 != 0
  }

  /** All bits but the mask bit. */
  function Others(v: Word): Word {
    v & 0xFFFF_FFFE
  }

  function SetMask(v: Word, on: Word): Word {
    if on != 0 then v | MASK_BIT else v & !MASK_BIT
  }

  /** Only the mask bit of the word can change, and it ends as the parameter says. */
  lemma SetMaskExact(v: Word, on: Word)
    ensures Others(SetMask(v, on)) == Others(v)
    ensures Drawn(SetMask(v, on)) <==> on != 0
  {
  }

  // ----- drawing

  /** Row j of a rectangle, clipped at the right and below, reaches position p. */
  predicate Hits(l: int, x: int, xSize: int, p: int, j: int) {
    j < l && x <= p - j * l < x + xSize && p - j * l < l
  }

  datatype Draw =
    | Reset(on: Word)
    | Rectangle(x: int, xSize: int, y: int, ySize: int, on: Word)
    | Circle(cx: int, cy: int, radius: int, on: Word)
  {
    /** The rectangle loop does not check for negative coordinates; it stays inside the
        buffer when its first pixel does. */
    predicate Safe(l: int) {
      Rectangle? && xSize > 0 && ySize > 0 && x < l && y < l ==> y * l + x >= 0
    }

    /** A rectangle is drawn by position in the buffer: columns left of the image are the
        end of the row above. */
    predicate Covers(l: int, q: Point) {
      match this
      case Reset(_) => true
      case Rectangle(x, xs, y, ys, _) => exists j | y <= j < y + ys :: Hits(l, x, xs, Position(l, q), j)
      case Circle(cx, cy, r, _) =>
        r >= 0 && (q.i - cx) * (q.i - cx) + (q.j - cy) * (q.j - cy) <= r * r
    }

    /** A reset stores the on/off parameter itself; the shapes touch bit 0 only. */
    function Stroke(v: Word): Word {
      if Reset? then on else SetMask(v, on)
    }

    function Paint(l: int, q: Point, v: Word): Word {
      if Covers(l, q) then Stroke(v) else v
    }
  }

  /** The buffer once a draw has finished every pixel before column i of row j. */
  ghost predicate Painted(l: int, was: seq<Word>, now: seq<Word>, op: Draw, j: int, i: int)
    requires l > 0
  {
    && |now| == |was|
    && (forall p | 0 <= p < |now| && p < l * l ::
          now[p] == if Before(At(l, p), j, i) then op.Paint(l, At(l, p), was[p]) else was[p])
    && (forall p | l * l <= p < |now| :: now[p] == was[p])
  }

  /** Finishing pixel (i, j), whether it is covered or not. */
  lemma PaintedStep(l: int, was: seq<Word>, now: seq<Word>, op: Draw, j: int, i: int)
    requires 0 < l && l * l <= |was| && Painted(l, was, now, op, j, i)
    requires InSquare(l, Point(i, j))
    ensures 0 <= j * l + i < |now|
    ensures Painted(l, was, now[j * l + i := op.Paint(l, Point(i, j), now[j * l + i])], op, j, i + 1)
  {
    var q := Point(i, j);
    AtPosition(l, q);
    var next := now[j * l + i := op.Paint(l, q, now[j * l + i])];
    forall p | 0 <= p < l * l
      ensures next[p] == if Before(At(l, p), j, i + 1) then op.Paint(l, At(l, p), was[p]) else was[p]
    {
      PositionAt(l, p);
    }
  }

  /** Skipping pixels that are not covered, or not in the image. */
  lemma PaintedSkip(l: int, was: seq<Word>, now: seq<Word>, op: Draw, j: int, i: int, j': int, i': int)
    requires 0 < l && Painted(l, was, now, op, j, i)
    requires forall q | InSquare(l, q) && op.Covers(l, q) :: Before(q, j', i') == Before(q, j, i)
    ensures Painted(l, was, now, op, j', i')
  {
    forall p | 0 <= p < |now| && p < l * l
      ensures now[p] == if Before(At(l, p), j', i') then op.Paint(l, At(l, p), was[p]) else was[p]
    {
      PositionAt(l, p);
    }
  }

  lemma PaintedNone(l: int, was: seq<Word>, op: Draw, j: int, i: int)
    requires 0 < l
    requires forall q | InSquare(l, q) && op.Covers(l, q) :: !Before(q, j, i)
    ensures Painted(l, was, was, op, j, i)
  {
    forall p | 0 <= p < |was| && p < l * l
      ensures was[p] == if Before(At(l, p), j, i) then op.Paint(l, At(l, p), was[p]) else was[p]
    {
      PositionAt(l, p);
    }
  }

  /** What a draw leaves in the buffer. */
  function DrawOn(d: Detector, op: Draw, img: seq<Word>): (out: seq<Word>)
    requires d.Square()
    ensures |out| == |img|
  {
    seq(|img|, (p: nat) requires p < |img| =>
      if p < d.Rows() * d.Rows() then op.Paint(d.Rows(), At(d.Rows(), p), img[p]) else img[p])
  }

  /** A shape moves no bit of any word but the mask bit, and that bit only where it covers
      an image pixel. */
  lemma ShapeExact(d: Detector, op: Draw, img: seq<Word>, p: nat)
    requires d.Square() && !op.Reset? && p < |img|
    ensures Others(DrawOn(d, op, img)[p]) == Others(img[p])
    ensures Drawn(DrawOn(d, op, img)[p]) <==>
              if p < d.Rows() * d.Rows() && op.Covers(d.Rows(), At(d.Rows(), p)) then op.on != 0 else Drawn(img[p])
  {
    hide SetMask, Others, Drawn;
    SetMaskExact(img[p], op.on);
  }

  /** A reset replaces whole words, in the image and nowhere else. */
  lemma ResetExact(d: Detector, on: Word, img: seq<Word>, p: nat)
    requires d.Square() && p < |img|
    ensures DrawOn(d, Reset(on), img)[p] == if p < d.Rows() * d.Rows() then on else img[p]
  {
  }

  lemma PaintedAll(d: Detector, was: seq<Word>, now: seq<Word>, op: Draw)
    requires d.Square() && Painted(d.Rows(), was, now, op, d.Rows(), 0)
    ensures now == DrawOn(d, op, was)
  {
    forall p | 0 <= p < |now| && p < d.Rows() * d.Rows()
      ensures now[p] == op.Paint(d.Rows(), At(d.Rows(), p), was[p])
    {
      PositionAt(d.Rows(), p);
    }
  }

  /** Set or clear the mask bit of one pixel. */
  method Mark(buf: array<Word>, at: int, on: Word)
    requires 0 <= at < buf.Length
    modifies buf
    ensures buf[..] == old(buf[..])[at := SetMask(old(buf[at]), on)]
  {
    if on != 0 {
      buf[at] := buf[at] | MASK_BIT;
    } else {
      buf[at] := buf[at] & !MASK_BIT;
    }
  }

  method MaskReset(d: Detector, buf: array<Word>, on: Word)
    requires d.Square() && buf.Length >= d.Rows() * d.Rows()
    modifies buf
    ensures buf[..] == DrawOn(d, Reset(on), old(buf[..]))
  {
    hide Painted, DrawOn, SetMask;
    SquareSide(d);
    var rows, cols := d.Rows(), d.Cols();
    ghost var was, op := buf[..], Reset(on);
    PaintedNone(rows, was, op, 0, 0);
    var j := 0;
    while j < rows
      invariant 0 <= j <= rows
      invariant Painted(rows, was, buf[..], op, j, 0)
    {
      var i := 0;
      while i < cols
        invariant 0 <= i <= cols
        invariant Painted(rows, was, buf[..], op, j, i)
      {
        PaintedStep(rows, was, buf[..], op, j, i);
        Store(buf, j * rows + i, on);
        i := i + 1;
      }
      PaintedSkip(rows, was, buf[..], op, j, cols, j + 1, 0);
      j := j + 1;
    }
    PaintedAll(d, was, buf[..], op);
  }

  // A negative left edge makes a rectangle visit positions out of order and twice, so its
  // loop is followed by position.

  /** Position p has been reached before column i of row j. */
  predicate HitBefore(l: int, op: Draw, p: int, j: int, i: int)
    requires op.Rectangle?
  {
    exists k | op.y <= k <= j :: Hits(l, op.x, op.xSize, p, k) && (k < j || p - k * l < i)
  }

  ghost predicate Ruled(l: int, was: seq<Word>, now: seq<Word>, op: Draw, j: int, i: int)
    requires op.Rectangle?
  {
    && |now| == |was|
    && forall p | 0 <= p < |now| :: now[p] == if HitBefore(l, op, p, j, i) then SetMask(was[p], op.on) else was[p]
  }

  lemma SetMaskTwice(v: Word, on: Word)
    ensures SetMask(SetMask(v, on), on) == SetMask(v, on)
  {
  }

  lemma HitStep(l: int, op: Draw, p: int, j: int, i: int)
    requires op.Rectangle? && op.y <= j && op.x <= i < op.x + op.xSize
    ensures HitBefore(l, op, p, j, i + 1) <==> HitBefore(l, op, p, j, i) || (p == j * l + i && i < l && j < l)
  {
    if p == j * l + i && i < l && j < l {
      assert Hits(l, op.x, op.xSize, p, j);
    }
  }

  lemma HitRow(l: int, op: Draw, p: int, j: int, i: int)
    requires op.Rectangle? && op.y <= j && (i >= op.x + op.xSize || j >= l)
    ensures HitBefore(l, op, p, j, i) <==> HitBefore(l, op, p, j + 1, op.x)
  {
    if HitBefore(l, op, p, j, i) {
      var k :| op.y <= k <= j && Hits(l, op.x, op.xSize, p, k) && (k < j || p - k * l < i);
      assert k < j + 1;
    }
    if HitBefore(l, op, p, j + 1, op.x) {
      var k :| op.y <= k <= j + 1 && Hits(l, op.x, op.xSize, p, k) && (k < j + 1 || p - k * l < op.x);
      assert k <= j;
    }
  }

  lemma RuledStep(l: int, was: seq<Word>, now: seq<Word>, op: Draw, j: int, i: int)
    requires op.Rectangle? && Ruled(l, was, now, op, j, i) && op.y <= j && op.x <= i < op.x + op.xSize
    ensures i < l && j < l && 0 <= j * l + i < |now| ==>
              Ruled(l, was, now[j * l + i := SetMask(now[j * l + i], op.on)], op, j, i + 1)
    ensures i >= l ==> Ruled(l, was, now, op, j, i + 1)
  {
    hide HitBefore, SetMask;
    forall p | 0 <= p < |now|
      ensures HitBefore(l, op, p, j, i + 1) <==> HitBefore(l, op, p, j, i) || (p == j * l + i && i < l && j < l)
      ensures SetMask(SetMask(was[p], op.on), op.on) == SetMask(was[p], op.on)
    {
      HitStep(l, op, p, j, i);
      SetMaskTwice(was[p], op.on);
    }
  }

  lemma RuledRow(l: int, was: seq<Word>, now: seq<Word>, op: Draw, j: int, i: int)
    requires op.Rectangle? && Ruled(l, was, now, op, j, i) && op.y <= j && (i >= op.x + op.xSize || j >= l)
    ensures Ruled(l, was, now, op, j + 1, op.x)
  {
    hide HitBefore, SetMask;
    forall p | 0 <= p < |now|
      ensures HitBefore(l, op, p, j, i) <==> HitBefore(l, op, p, j + 1, op.x)
    {
      HitRow(l, op, p, j, i);
    }
  }

  lemma RuledNone(l: int, was: seq<Word>, op: Draw)
    requires op.Rectangle?
    ensures Ruled(l, was, was, op, op.y, op.x)
  {
  }

  /** The positions reached are those of the covered pixels. */
  lemma RuledAll(d: Detector, was: seq<Word>, now: seq<Word>, op: Draw, j: int)
    requires d.Square() && op.Rectangle? && Ruled(d.Rows(), was, now, op, j, op.x)
    requires op.y <= j && (op.ySize >= 0 ==> j == op.y + op.ySize) && (op.ySize < 0 ==> j == op.y)
    ensures now == DrawOn(d, op, was)
  {
    hide HitBefore, SetMask, Hits;
    var l := d.Rows();
    forall p | 0 <= p < |now|
      ensures now[p] == DrawOn(d, op, was)[p]
    {
      HitAll(l, op, p, j);
      if p < l * l {
        PositionAt(l, p);
      } else if HitBefore(l, op, p, j, op.x) {
        HitInside(l, op, p, j);
      }
    }
  }

  lemma HitAll(l: int, op: Draw, p: int, j: int)
    requires op.Rectangle? && op.y <= j && (op.ySize >= 0 ==> j == op.y + op.ySize) && (op.ySize < 0 ==> j == op.y)
    ensures HitBefore(l, op, p, j, op.x) <==> exists k | op.y <= k < op.y + op.ySize :: Hits(l, op.x, op.xSize, p, k)
  {
    if HitBefore(l, op, p, j, op.x) {
      var k :| op.y <= k <= j && Hits(l, op.x, op.xSize, p, k) && (k < j || p - k * l < op.x);
      assert k < j;
    }
  }

  lemma HitInside(l: int, op: Draw, p: int, j: int)
    requires op.Rectangle? && l > 0 && HitBefore(l, op, p, j, op.x)
    ensures p < l * l
  {
    var k :| op.y <= k <= j && Hits(l, op.x, op.xSize, p, k);
    MulLe(k + 1, l, l);
    assert (k + 1) * l == k * l + l;
  }

  method MaskRectangle(d: Detector, buf: array<Word>, x: int, xSize: int, y: int, ySize: int, on: Word)
    requires d.Square() && buf.Length >= d.Rows() * d.Rows()
    requires Rectangle(x, xSize, y, ySize, on).Safe(d.Rows())
    modifies buf
    ensures buf[..] == DrawOn(d, Rectangle(x, xSize, y, ySize, on), old(buf[..]))
  {
    hide Ruled, DrawOn, SetMask;
    SquareSide(d);
    var rows, cols := d.Rows(), d.Cols();
    ghost var was, op := buf[..], Rectangle(x, xSize, y, ySize, on);
    RuledNone(rows, was, op);
    var j := y;
    while j < y + ySize
      invariant y <= j && (ySize >= 0 ==> j <= y + ySize) && (ySize < 0 ==> j == y)
      invariant Ruled(rows, was, buf[..], op, j, x)
    {
      var i := x;
      if j < rows {
        while i < x + xSize
          invariant x <= i && (xSize >= 0 ==> i <= x + xSize)
          invariant Ruled(rows, was, buf[..], op, j, i)
        {
          RuledStep(rows, was, buf[..], op, j, i);
          if i < cols {
            InsideBuffer(rows, op, j, i);
            Mark(buf, j * rows + i, on);
          }
          i := i + 1;
        }
      }
      RuledRow(rows, was, buf[..], op, j, i);
      j := j + 1;
    }
    RuledAll(d, was, buf[..], op, j);
  }

  lemma InsideBuffer(l: int, op: Draw, j: int, i: int)
    requires l > 0 && op.Rectangle? && op.Safe(l) && op.y <= j < l && op.x <= i < l
    requires op.xSize > 0 && op.ySize > 0
    ensures 0 <= j * l + i < l * l
  {
    MulLe(op.y, j, l);
    MulLe(j + 1, l, l);
    assert (j + 1) * l == j * l + l;
  }

  /** The pixels of a rectangle as its parameters describe them. */
  predicate InRectangle(op: Draw, q: Point)
    requires op.Rectangle?
  {
    op.x <= q.i < op.x + op.xSize && op.y <= q.j < op.y + op.ySize
  }

  lemma HitsRow(l: int, x: int, xSize: int, q: Point, j: int)
    requires InSquare(l, q) && x >= 0
    ensures Hits(l, x, xSize, Position(l, q), j) <==> j == q.j && x <= q.i < x + xSize
  {
    if Hits(l, x, xSize, Position(l, q), j) {
      QuotientUnique(l, q.j, q.i, j, Position(l, q) - j * l);
    }
  }

  /** A rectangle that stays in the buffer draws the part of itself that lies in the
      image if and only if its left edge is not negative, or it draws nothing. */
  lemma RectangleExact(l: int, op: Draw)
    requires l > 0 && op.Rectangle? && op.Safe(l)
    ensures (forall q | InSquare(l, q) :: op.Covers(l, q) <==> InRectangle(op, q))
       <==> op.x >= 0 || op.xSize <= 0 || op.ySize <= 0 || op.y >= l
  {
    if op.x >= 0 || op.xSize <= 0 || op.ySize <= 0 || op.y >= l {
      forall q | InSquare(l, q)
        ensures op.Covers(l, q) <==> InRectangle(op, q)
      {
        RectangleClipped(l, op, q);
      }
    } else {
      var p := op.y * l + op.x;
      MulLe(op.y + 1, l, l);
      assert (op.y + 1) * l == op.y * l + l;
      PositionAt(l, p);
      assert Hits(l, op.x, op.xSize, p, op.y);
      WrappedAbove(l, op, At(l, p));
    }
  }

  lemma RectangleClipped(l: int, op: Draw, q: Point)
    requires op.Rectangle? && InSquare(l, q)
    requires op.x >= 0 || op.xSize <= 0 || op.ySize <= 0 || op.y >= l
    ensures op.Covers(l, q) <==> InRectangle(op, q)
  {
    if op.x >= 0 {
      HitsRow(l, op.x, op.xSize, q, q.j);
      if op.Covers(l, q) {
        var j :| op.y <= j < op.y + op.ySize && Hits(l, op.x, op.xSize, Position(l, q), j);
        HitsRow(l, op.x, op.xSize, q, j);
      }
    }
  }

  /** A rectangle of two columns from column -1 of row 1 of a 4 x 4 image: its left half is
      drawn at the end of row 0. */
  lemma RectangleWraps()
    ensures var op := Rectangle(-1, 2, 1, 1, 1);
            op.Safe(4) && op.Covers(4, Point(3, 0)) && !InRectangle(op, Point(3, 0))
  {
    assert Hits(4, -1, 2, Position(4, Point(3, 0)), 1);
  }

  /** What a negative left edge sticks out to the left is drawn in the row above. */
  lemma WrappedAbove(l: int, op: Draw, q: Point)
    requires l > 0 && op.Rectangle? && op.x < 0 && InSquare(l, q) && Position(l, q) == op.y * l + op.x
    ensures q.j < op.y
  {
    if q.j >= op.y {
      MulLe(op.y, q.j, l);
    }
  }

  /** A covered pixel is no further than the radius from the centre, row and column. */
  lemma CircleBox(l: int, op: Draw, q: Point)
    requires op.Circle? && op.Covers(l, q)
    ensures op.cx - op.radius <= q.i <= op.cx + op.radius
    ensures op.cy - op.radius <= q.j <= op.cy + op.radius
  {
    WithinRadius(q.i - op.cx, q.j - op.cy, op.radius);
    WithinRadius(q.j - op.cy, q.i - op.cx, op.radius);
  }

  lemma WithinRadius(x: int, y: int, r: int)
    requires r >= 0 && x * x + y * y <= r * r
    ensures -r <= x <= r
  {
    if y >= 0 {
      MulLe(0, y, y);
    } else {
      MulLe(0, -y, -y);
    }
    SquareRoot(x, r);
  }

  lemma SquareRoot(x: int, r: int)
    requires r >= 0 && x * x <= r * r
    ensures -r <= x <= r
  {
    if x > r {
      MulLe(r + 1, x, x);
      MulLe(r, x, r + 1);
    } else if x < -r {
      MulLe(r + 1, -x, -x);
      MulLe(r, -x, r + 1);
    }
  }

  /** What a circle covers in a row: nothing outside its radius, and else the columns that
      are no further from the centre than the whole square root of what the row leaves. */
  lemma CircleRow(l: int, op: Draw, q: Point, half: int)
    requires op.Circle? && op.radius >= 0 && half >= 0
    requires var left := op.radius * op.radius - (q.j - op.cy) * (q.j - op.cy);
             half * half <= left < (half + 1) * (half + 1)
    ensures op.Covers(l, q) <==> op.cx - half <= q.i <= op.cx + half
  {
    var x := q.i - op.cx;
    var left := op.radius * op.radius - (q.j - op.cy) * (q.j - op.cy);
    if x * x <= left {
      SquareBelow(x, half);
    } else if -half <= x <= half {
      SquareWithin(x, half);
    }
  }

  lemma SquareBelow(x: int, n: int)
    requires n >= 0 && x * x < (n + 1) * (n + 1)
    ensures -n <= x <= n
  {
    if x > n {
      MulLe(n + 1, x, n + 1);
      MulLe(n + 1, x, x);
    } else if x < -n {
      MulLe(n + 1, -x, n + 1);
      MulLe(n + 1, -x, -x);
    }
  }

  lemma SquareWithin(x: int, n: int)
    requires -n <= x <= n
    ensures x * x <= n * n
  {
    var y := if x < 0 then -x else x;
    MulLe(y, n, y);
    MulLe(y, n, n);
  }

  /** A row further away than the radius is not touched, and no circle of negative radius
      covers anything. */
  lemma CircleRows(l: int, op: Draw, q: Point)
    requires op.Circle? && op.Covers(l, q)
    ensures 0 <= op.radius && op.cy - op.radius <= q.j <= op.cy + op.radius
  {
    CircleBox(l, op, q);
  }

  method MaskCircle(d: Detector, buf: array<Word>, cx: int, cy: int, radius: int, on: Word)
    requires d.Square() && buf.Length >= d.Rows() * d.Rows()
    modifies buf
    ensures buf[..] == DrawOn(d, Circle(cx, cy, radius, on), old(buf[..]))
  {
    hide Painted, DrawOn, SetMask;
    SquareSide(d);
    var rows, cols := d.Rows(), d.Cols();
    ghost var was, op := buf[..], Circle(cx, cy, radius, on);
    forall q | op.Covers(rows, q)
      ensures cx - radius <= q.i <= cx + radius && cy - radius <= q.j <= cy + radius
    {
      CircleBox(rows, op, q);
    }
    PaintedNone(rows, was, op, cy - radius, cx - radius);
    var j := cy - radius;
    while j <= cy + radius
      invariant Painted(rows, was, buf[..], op, j, cx - radius)
    {
      var i := cx - radius;
      while i <= cx + radius
        invariant Painted(rows, was, buf[..], op, j, i)
      {
        if j >= 0 && j < rows && i >= 0 && i < cols && (i - cx) * (i - cx) + (j - cy) * (j - cy) <= radius * radius {
          PaintedStep(rows, was, buf[..], op, j, i);
          Mark(buf, j * rows + i, on);
        } else {
          PaintedSkip(rows, was, buf[..], op, j, i, j, i + 1);
        }
        i := i + 1;
      }
      PaintedSkip(rows, was, buf[..], op, j, i, j + 1, cx - radius);
      j := j + 1;
    }
    PaintedSkip(rows, was, buf[..], op, j, cx - radius, rows, 0);
    PaintedAll(d, was, buf[..], op);
  }

  // ----- loading and writing the file

  /** The pixel bytes beyond the loaded bit are cleared; an empty file loads nothing. */
  function LoadMask(d: Detector, file: seq<Byte>, was: seq<Word>): (img: seq<Word>)
    requires d.Square()
    ensures |img| == |was|
  {
    if file == [] then was
    else seq(|was|, (p: nat) =>
           if p < d.Rows() * d.Rows() && FileMasks(d, file, At(d.Rows(), p)) then LOADED_BIT else 0)
  }

  /** Byte of the file that holds pixel q has its mask bit set. */
  predicate FileMasks(d: Detector, file: seq<Byte>, q: Point)
    requires d.Valid()
  {
    q.i >= 0 && q.j >= 0 && 0 <= PelIndex(d, q.i, q.j) < |file| && Masked(file[PelIndex(d, q.i, q.j)])
  }

  /** Drawn pixels are masked in the file; nothing is ever unmasked. */
  function WriteMask(d: Detector, file: seq<Byte>, img: seq<Word>): (out: seq<Byte>)
    requires d.Square() && |img| >= d.Rows() * d.Rows()
    ensures |out| == |file|
  {
    seq(|file|, (k: nat) requires k < |file| => if ImageDraws(d, img, k) then file[k] | 1 else file[k])
  }

  /** The pixel that shows byte k of the file is drawn. */
  predicate ImageDraws(d: Detector, img: seq<Word>, k: nat)
    requires d.Square() && |img| >= d.Rows() * d.Rows()
  {
    k < d.Size() &&
    var p := Position(d.Rows(), PelPixel(d, k));
    0 <= p < |img| && Drawn(img[p])
  }

  lemma LoadedAll(d: Detector, file: seq<Byte>, was: seq<Word>, now: seq<Word>)
    requires d.Square() && file != []
    requires Scanned(d.Rows(), LoadMask(d, file, was), now, 0, d.Rows(), 0)
    ensures now == LoadMask(d, file, was)
  {
    hide FileMasks;
    ScannedAll(d.Rows(), LoadMask(d, file, was), now, 0);
  }

  method Load(d: Detector, file: seq<Byte>, value: array<Word>)
    requires d.Square()
    modifies value
    ensures value[..] == LoadMask(d, file, old(value[..]))
  {
    hide PelIndex, Scanned;
    if |file| > 0 {
      SquareSide(d);
      var rows, cols := d.Rows(), d.Cols();
      ghost var img := LoadMask(d, file, value[..]);
      Clear(value, 0);
      ScannedNone(rows, img, value[..], 0);
      var j := 0;
      while j < cols
        invariant 0 <= j <= cols
        invariant Scanned(rows, img, value[..], 0, j, 0)
      {
        var i := 0;
        while i < rows
          invariant 0 <= i <= rows
          invariant Scanned(rows, img, value[..], 0, j, i)
        {
          ScannedStep(rows, img, value[..], 0, j, i);
          var at := j * cols + i;
          if at < value.Length {
            var k := PelIndex(d, i, j);
            if 0 <= k < |file| && file[k] & 1 != 0 {
              Store(value, at, value[at] | LOADED_BIT);
            } else {
              assert value[..] == value[..][at := 0];
            }
          }
          i := i + 1;
        }
        ScannedRow(rows, img, value[..], 0, j);
        j := j + 1;
      }
      LoadedAll(d, file, old(value[..]), value[..]);
    }
  }

  /** The file buffer once every pixel before column i of row j has been applied. */
  ghost predicate Written(d: Detector, file: seq<Byte>, img: seq<Word>, now: seq<Byte>, j: int, i: int)
    requires d.Square() && |img| >= d.Rows() * d.Rows()
  {
    && |now| == |file|
    && forall k | 0 <= k < |file| ::
         now[k] == if ImageDraws(d, img, k) && Before(PelPixel(d, k), j, i) then file[k] | 1 else file[k]
  }

  lemma WrittenStep(d: Detector, file: seq<Byte>, img: seq<Word>, now: seq<Byte>, j: int, i: int)
    requires d.Square() && |img| >= d.Rows() * d.Rows() && FileReaches(d, |file|, img)
    requires Written(d, file, img, now, j, i) && InSquare(d.Rows(), Point(i, j))
    ensures 0 <= j * d.Rows() + i < |img|
    ensures var k := PelIndex(d, i, j);
            if Drawn(img[j * d.Rows() + i]) then 0 <= k < |now| && Written(d, file, img, now[k := now[k] | 1], j, i + 1)
            else Written(d, file, img, now, j, i + 1)
  {
    hide PelIndex, PelPixel, Drawn, Reached, ImageDraws;
    var l, q := d.Rows(), Point(i, j);
    var p, k := j * l + i, PelIndex(d, i, j);
    PixelStep(d, img, q);
    assert 0 <= p < |img| && (Drawn(img[p]) ==> Reached(d, |file|, p));
    if Drawn(img[p]) {
      ReachedIndex(d, |file|, q);
    }
    var next := if Drawn(img[p]) then now[k := now[k] | 1] else now;
    forall m | 0 <= m < |file|
      ensures next[m] == if ImageDraws(d, img, m) && Before(PelPixel(d, m), j, i + 1) then file[m] | 1 else file[m]
    {
      OnlyByte(d, img, q, m);
    }
  }

  /** Pixel q is shown by the byte at its index and drawn as that byte's pixel. */
  lemma PixelStep(d: Detector, img: seq<Word>, q: Point)
    requires d.Square() && |img| >= d.Rows() * d.Rows() && InSquare(d.Rows(), q)
    ensures 0 <= q.j * d.Rows() + q.i < d.Rows() * d.Rows() && 0 <= PelIndex(d, q.i, q.j) < d.Size()
    ensures PelPixel(d, PelIndex(d, q.i, q.j)) == q
    ensures ImageDraws(d, img, PelIndex(d, q.i, q.j)) <==> Drawn(img[q.j * d.Rows() + q.i])
  {
    hide PelIndex, PelPixel, Drawn;
    SquareSide(d);
    AtPosition(d.Rows(), q);
    PixelOfIndex(d, q);
  }

  lemma ReachedIndex(d: Detector, n: nat, q: Point)
    requires d.Square() && InSquare(d.Rows(), q) && Reached(d, n, q.j * d.Rows() + q.i)
    ensures PelIndex(d, q.i, q.j) < n
  {
    hide PelIndex, At;
    AtPosition(d.Rows(), q);
  }

  /** No other byte shows pixel q, so finishing it changes nothing else. */
  lemma OnlyByte(d: Detector, img: seq<Word>, q: Point, m: nat)
    requires d.Square() && |img| >= d.Rows() * d.Rows() && InSquare(d.Rows(), q)
    ensures m != PelIndex(d, q.i, q.j) && ImageDraws(d, img, m) ==>
              (Before(PelPixel(d, m), q.j, q.i + 1) <==> Before(PelPixel(d, m), q.j, q.i))
    ensures m == PelIndex(d, q.i, q.j) ==> PelPixel(d, m) == q
  {
    hide PelIndex, PelPixel, Drawn;
    SquareSide(d);
    PixelOfIndex(d, q);
    if m < d.Size() {
      IndexOfPixel(d, m);
    }
  }

  lemma WrittenRow(d: Detector, file: seq<Byte>, img: seq<Word>, now: seq<Byte>, j: int)
    requires d.Square() && |img| >= d.Rows() * d.Rows() && Written(d, file, img, now, j, d.Rows())
    ensures Written(d, file, img, now, j + 1, 0)
  {
    hide PelIndex, PelPixel;
    SquareSide(d);
    forall k: nat | k < d.Size()
      ensures InSquare(d.Rows(), PelPixel(d, k))
    {
      IndexOfPixel(d, k);
    }
  }

  lemma WrittenAll(d: Detector, file: seq<Byte>, img: seq<Word>, now: seq<Byte>)
    requires d.Square() && |img| >= d.Rows() * d.Rows() && Written(d, file, img, now, d.Rows(), 0)
    ensures now == WriteMask(d, file, img)
  {
    hide PelIndex, PelPixel;
    SquareSide(d);
    forall k: nat | k < d.Size()
      ensures InSquare(d.Rows(), PelPixel(d, k))
    {
      IndexOfPixel(d, k);
    }
  }

  /** The pixel at position p has its byte in a file of n bytes. */
  predicate Reached(d: Detector, n: nat, p: int)
    requires d.Valid()
  {
    var q := At(d.Rows(), p);
    q.i >= 0 && q.j >= 0 && PelIndex(d, q.i, q.j) < n
  }

  /** Every drawn pixel has its byte in a file of n bytes. */
  ghost predicate FileReaches(d: Detector, n: nat, img: seq<Word>)
    requires d.Square() && |img| >= d.Rows() * d.Rows()
  {
    forall p | 0 <= p < d.Rows() * d.Rows() && Drawn(img[p]) :: Reached(d, n, p)
  }

  /** A file with a byte for every pixel reaches them all. */
  lemma FullFileReaches(d: Detector, n: nat, img: seq<Word>)
    requires d.Square() && |img| >= d.Rows() * d.Rows() && n >= d.Size()
    ensures FileReaches(d, n, img)
  {
    hide Reached, Drawn;
    forall p | 0 <= p < d.Rows() * d.Rows()
      ensures Reached(d, n, p)
    {
      PixelByte(d, n, p);
    }
  }

  lemma PixelByte(d: Detector, n: nat, p: nat)
    requires d.Square() && p < d.Rows() * d.Rows() && n >= d.Size()
    ensures Reached(d, n, p)
  {
    hide PelIndex, PelPixel;
    SquareSide(d);
    PositionAt(d.Rows(), p);
    PixelOfIndex(d, At(d.Rows(), p));
  }

  /** The loop reads the image and writes the file unchecked: it stays inside both when
      the image has a word a pixel and the file reaches the drawn pixels. */
  method ApplyMask(d: Detector, bpc: array<Byte>, value: array<Word>)
    requires d.Square() && value.Length >= d.Rows() * d.Rows() && FileReaches(d, bpc.Length, value[..])
    modifies bpc
    ensures bpc[..] == WriteMask(d, old(bpc[..]), value[..])
  {
    hide PelIndex, PelPixel, Written, FileReaches;
    SquareSide(d);
    var rows, cols := d.Rows(), d.Cols();
    ghost var file, img := bpc[..], value[..];
    WrittenNone(d, file, img);
    var j := 0;
    while j < cols
      invariant 0 <= j <= cols
      invariant Written(d, file, img, bpc[..], j, 0)
    {
      var i := 0;
      while i < rows
        invariant 0 <= i <= rows
        invariant Written(d, file, img, bpc[..], j, i)
      {
        WrittenStep(d, file, img, bpc[..], j, i);
        if value[j * cols + i] & 1 != 0 {
          var k := PelIndex(d, i, j);
          ghost var now := bpc[..];
          bpc[k] := bpc[k] | 1;
          assert bpc[..] == now[k := now[k] | 1];
        }
        i := i + 1;
      }
      WrittenRow(d, file, img, bpc[..], j);
      j := j + 1;
    }
    WrittenAll(d, file, img, bpc[..]);
  }

  lemma WrittenNone(d: Detector, file: seq<Byte>, img: seq<Word>)
    requires d.Square() && |img| >= d.Rows() * d.Rows()
    ensures Written(d, file, img, file, 0, 0)
  {
    hide PelIndex, PelPixel;
    SquareSide(d);
    forall k: nat | k < d.Size()
      ensures InSquare(d.Rows(), PelPixel(d, k))
    {
      IndexOfPixel(d, k);
    }
  }

  /** The masked-pixel count that reading a file publishes. */
  function MaskedCount(file: seq<Byte>): nat {
    |Below(|file|, k => 0 <= k < |file| && Masked(file[k]))|
  }

  method CountMasked(file: seq<Byte>) returns (n: nat)
    ensures n == MaskedCount(file)
  {
    n := 0;
    ghost var keep := k => 0 <= k < |file| && Masked(file[k]);
    assert Below(0, keep) == {};
    for i := 0 to |file|
      invariant n == |Below(i, keep)|
    {
      BelowStep(i, keep);
      if file[i] & 1 != 0 {
        n := n + 1;
      }
    }
  }

  // ----- draw, write, load

  function DrawAll(d: Detector, ops: seq<Draw>, img: seq<Word>): (out: seq<Word>)
    requires d.Square()
    ensures |out| == |img|
  {
    if ops == [] then img else DrawOn(d, ops[|ops| - 1], DrawAll(d, ops[..|ops| - 1], img))
  }

  /** Whether the last draw that covers q switched it on. */
  predicate DrawnAt(l: int, ops: seq<Draw>, q: Point) {
    ops != [] &&
    var op := ops[|ops| - 1];
    if op.Covers(l, q) then (if op.Reset? then Drawn(op.on) else op.on != 0) else DrawnAt(l, ops[..|ops| - 1], q)
  }

  lemma StrokeBit(op: Draw, v: Word)
    ensures Drawn(op.Stroke(v)) == if op.Reset? then Drawn(op.on) else op.on != 0
  {
  }

  lemma {:induction false} DrawAllBit(d: Detector, ops: seq<Draw>, img: seq<Word>, p: nat)
    requires d.Square() && p < |img| && p < d.Rows() * d.Rows() && !Drawn(img[p])
    ensures Drawn(DrawAll(d, ops, img)[p]) == DrawnAt(d.Rows(), ops, At(d.Rows(), p))
  {
    if ops == [] {
    } else {
      DrawAllBit(d, ops[..|ops| - 1], img, p);
      StrokeBit(ops[|ops| - 1], DrawAll(d, ops[..|ops| - 1], img)[p]);
    }
  }

  lemma {:induction false} ShapesKeepRest(d: Detector, ops: seq<Draw>, img: seq<Word>, p: nat)
    requires d.Square() && p < |img| && forall op | op in ops :: !op.Reset?
    ensures Others(DrawAll(d, ops, img)[p]) == Others(img[p])
  {
    hide DrawOn, Others, Drawn;
    if ops != [] {
      assert ops[|ops| - 1] in ops;
      ShapesKeepRest(d, ops[..|ops| - 1], img, p);
      ShapeExact(d, ops[|ops| - 1], DrawAll(d, ops[..|ops| - 1], img), p);
    }
  }

  /** A word is what it is apart from the mask bit, and the mask bit. */
  lemma WordOfBits(v: Word)
    ensures v == if Drawn(v) then Others(v) | 1 else Others(v)
  {
  }

  /** A loaded word, with its mark or without. */
  function Shown(loaded: bool, drawn: bool): Word {
    if loaded then (if drawn then 3 else 2) else if drawn then 1 else 0
  }

  lemma MarkedWord(v: Word, loaded: bool)
    requires Others(v) == Others(if loaded then LOADED_BIT else 0)
    ensures v == Shown(loaded, Drawn(v))
  {
    WordOfBits(v);
  }

  /** The waveform after loading a file and drawing any shapes, word for word: bit 1 still
      shows what the file masks and bit 0 what the shapes leave on. */
  lemma LoadThenShapes(d: Detector, file: seq<Byte>, ops: seq<Draw>, value: seq<Word>, p: nat)
    requires d.Square() && file != [] && p < |value| && p < d.Rows() * d.Rows()
    requires forall op | op in ops :: !op.Reset?
    ensures var q := At(d.Rows(), p);
            DrawAll(d, ops, LoadMask(d, file, value))[p] == Shown(FileMasks(d, file, q), DrawnAt(d.Rows(), ops, q))
  {
    hide DrawAll, DrawnAt, FileMasks, Others, Drawn, Shown;
    var img := LoadMask(d, file, value);
    ShapesKeepRest(d, ops, img, p);
    LoadedUndrawn(d, file, value, p);
    DrawAllBit(d, ops, img, p);
    MarkedWord(DrawAll(d, ops, img)[p], FileMasks(d, file, At(d.Rows(), p)));
  }

  lemma MaskByte(b: Byte)
    ensures Masked(b | 1) && (b | 1) & 0xFE == b & 0xFE
  {
  }

  /** The file that a load, the draws and a write produce from `file`. */
  function DrawAndWrite(d: Detector, file: seq<Byte>, ops: seq<Draw>, value: seq<Word>): (out: seq<Byte>)
    requires d.Square() && |value| >= d.Rows() * d.Rows()
  {
    WriteMask(d, file, DrawAll(d, ops, LoadMask(d, file, value)))
  }

  lemma LoadedUndrawn(d: Detector, file: seq<Byte>, value: seq<Word>, p: nat)
    requires d.Square() && p < |value| && file != []
    ensures !Drawn(LoadMask(d, file, value)[p])
  {
  }

  lemma DrawnByte(d: Detector, file: seq<Byte>, ops: seq<Draw>, value: seq<Word>, k: nat)
    requires d.Square() && |value| >= d.Rows() * d.Rows() && file != []
    ensures ImageDraws(d, DrawAll(d, ops, LoadMask(d, file, value)), k)
       <==> k < d.Size() && DrawnAt(d.Rows(), ops, PelPixel(d, k))
  {
    hide PelIndex, PelPixel, DrawAll, DrawnAt, At, LoadMask;
    if k < d.Size() {
      SquareSide(d);
      IndexOfPixel(d, k);
      AtPosition(d.Rows(), PelPixel(d, k));
      LoadedUndrawn(d, file, value, Position(d.Rows(), PelPixel(d, k)));
      DrawAllBit(d, ops, LoadMask(d, file, value), Position(d.Rows(), PelPixel(d, k)));
    }
  }

  /** Byte k of the written file: only the mask bit can change, only from clear to
      set, and exactly where the pixel showing the byte was drawn. */
  lemma WrittenByte(d: Detector, file: seq<Byte>, ops: seq<Draw>, value: seq<Word>, k: nat)
    requires d.Square() && |value| >= d.Rows() * d.Rows() && k < |file|
    ensures var out := DrawAndWrite(d, file, ops, value);
            && out[k] & 0xFE == file[k] & 0xFE
            && (Masked(out[k]) <==> Masked(file[k]) || (k < d.Size() && DrawnAt(d.Rows(), ops, PelPixel(d, k))))
  {
    hide ImageDraws, DrawAll, LoadMask, PelPixel, DrawnAt, Masked;
    MaskByte(file[k]);
    DrawnByte(d, file, ops, value, k);
  }

  /** Loading the written file shows a pixel masked exactly when it was masked in the
      original file, or the draws left it on and the file reaches its byte; no other bit
      of the image is set. */
  lemma DrawWriteLoad(d: Detector, file: seq<Byte>, ops: seq<Draw>, value: seq<Word>, later: seq<Word>, p: nat)
    requires d.Square() && |value| >= d.Rows() * d.Rows() && file != []
    requires p < |later| && p < d.Rows() * d.Rows()
    ensures var q := At(d.Rows(), p);
            LoadMask(d, DrawAndWrite(d, file, ops, value), later)[p]
              == if FileMasks(d, file, q) || (PelIndex(d, q.i, q.j) < |file| && DrawnAt(d.Rows(), ops, q))
                 then LOADED_BIT else 0
  {
    hide PelIndex, PelPixel;
    var q := At(d.Rows(), p);
    SquareSide(d);
    PositionAt(d.Rows(), p);
    PixelOfIndex(d, q);
    if PelIndex(d, q.i, q.j) < |file| {
      WrittenByte(d, file, ops, value, PelIndex(d, q.i, q.j));
    }
  }

  /** The pixels masked in a file. */
  function MaskedPixels(d: Detector, file: seq<Byte>): set<int>
    requires d.Square()
  {
    Below(d.Rows() * d.Rows(), p => FileMasks(d, file, At(d.Rows(), p)))
  }

  /** A file of exactly one byte a pixel has as many mask bits as masked pixels. */
  lemma CountIsPixels(d: Detector, file: seq<Byte>)
    requires d.Square() && |file| == d.Size()
    ensures MaskedCount(file) == |MaskedPixels(d, file)|
  {
    hide PelIndex, PelPixel;
    var l := d.Rows();
    SquareSide(d);
    var bytes := Below(|file|, k => 0 <= k < |file| && Masked(file[k]));
    var f := (k: int) => if k >= 0 then Position(l, PelPixel(d, k)) else 0;
    var g := (p: int) => var q := At(l, p); if q.i >= 0 && q.j >= 0 then PelIndex(d, q.i, q.j) else 0;
    forall k <- bytes
      ensures f(k) in MaskedPixels(d, file) && g(f(k)) == k
    {
      IndexOfPixel(d, k);
      AtPosition(l, PelPixel(d, k));
    }
    forall p <- MaskedPixels(d, file)
      ensures g(p) in bytes && f(g(p)) == p
    {
      PositionAt(l, p);
      PixelOfIndex(d, At(l, p));
    }
    SameSize(bytes, MaskedPixels(d, file), f, g);
  }

  /** So the count published for the written file is the size of the union. */
  lemma WrittenCount(d: Detector, file: seq<Byte>, ops: seq<Draw>, value: seq<Word>)
    requires d.Square() && |value| >= d.Rows() * d.Rows() && |file| == d.Size()
    ensures MaskedCount(DrawAndWrite(d, file, ops, value))
         == |Below(d.Rows() * d.Rows(),
                   p => FileMasks(d, file, At(d.Rows(), p)) || DrawnAt(d.Rows(), ops, At(d.Rows(), p)))|
  {
    hide PelIndex, PelPixel;
    var out := DrawAndWrite(d, file, ops, value);
    CountIsPixels(d, out);
    forall p: nat | p < d.Rows() * d.Rows()
      ensures FileMasks(d, out, At(d.Rows(), p))
         <==> FileMasks(d, file, At(d.Rows(), p)) || DrawnAt(d.Rows(), ops, At(d.Rows(), p))
    {
      var q := At(d.Rows(), p);
      SquareSide(d);
      PositionAt(d.Rows(), p);
      PixelOfIndex(d, q);
      WrittenByte(d, file, ops, value, PelIndex(d, q.i, q.j));
    }
    assert MaskedPixels(d, out)
        == Below(d.Rows() * d.Rows(),
                 p => FileMasks(d, file, At(d.Rows(), p)) || DrawnAt(d.Rows(), ops, At(d.Rows(), p)));
  }

  // ----- the parameters and files behind the mask waveform

  datatype Action = Paint(op: Draw) | LoadFile | WriteMaskFile | Nothing

  /** The parameters that select the action; a flag counts only when it is 1. */
  datatype MaskParams = MaskParams(
    reset: int, rectangle: int, circle: int, load: int, write: int,
    x: int, xSize: int, y: int, ySize: int, radius: int, on: Word)
  {
    /** At most one action runs: the first flag set, in this order. */
    function Chosen(): Action {
      if reset == 1 then Paint(Reset(on))
      else if rectangle == 1 then Paint(Rectangle(x, xSize, y, ySize, on))
      else if circle == 1 then Paint(Circle(x, y, radius, on))
      else if load == 1 then LoadFile
      else if write == 1 then WriteMaskFile
      else Nothing
    }
  }

  /** The flags in the order in which they are tested, and what each asks for. */
  function Flags(params: MaskParams): (flags: seq<(int, Action)>)
    ensures |flags| == 5
  {
    [(params.reset, Paint(Reset(params.on))),
     (params.rectangle, Paint(Rectangle(params.x, params.xSize, params.y, params.ySize, params.on))),
     (params.circle, Paint(Circle(params.x, params.y, params.radius, params.on))),
     (params.load, LoadFile),
     (params.write, WriteMaskFile)]
  }

  /** The action of the first flag that is 1 runs, whatever the later flags are, and
      without such a flag none does. */
  lemma FirstFlagChosen(params: MaskParams, k: nat)
    requires k <= 5 && forall m | 0 <= m < k :: Flags(params)[m].0 != 1
    requires k < 5 ==> Flags(params)[k].0 == 1
    ensures params.Chosen() == if k < 5 then Flags(params)[k].1 else Nothing
  {
    var flags := Flags(params);
    assert k > 0 ==> flags[0].0 != 1;
    assert k > 1 ==> flags[1].0 != 1;
    assert k > 2 ==> flags[2].0 != 1;
    assert k > 3 ==> flags[3].0 != 1;
    assert k > 4 ==> flags[4].0 != 1;
  }

  /** What the path parameter names on disk. */
  datatype PathKind = Directory | RegularFile | Other

  class MaskChannel {
    const det: Detector
    const value: array<Word>
    var files: map<string, seq<Byte>>
    var path: PathKind
    var bpcName: string
    var maskName: string
    var maskedCount: int
    /** The names of the files that the server was asked to load. */
    var uploads: seq<string>

    ghost predicate Valid()
      reads this
    {
      det.Square() && value.Length >= det.Rows() * det.Rows()
    }

    constructor (d: Detector, image: array<Word>, disk: map<string, seq<Byte>>,
                 kind: PathKind, bpc: string, mask: string)
      requires d.Square() && image.Length >= d.Rows() * d.Rows()
      ensures Valid() && det == d && value == image && files == disk && path == kind
      ensures bpcName == bpc && maskName == mask && maskedCount == 0 && uploads == []
    {
      det, value, files, path, bpcName, maskName, maskedCount, uploads := d, image, disk, kind, bpc, mask, 0, [];
    }

    /** An empty mask name is replaced by the default one. */
    function TargetName(): string
      reads this
    {
      if maskName == "" && path != RegularFile then DEFAULT_MASK_FILE else maskName
    }

    /** Store a file under the mask name and have the server load it; the name of the
        file that is read is borrowed for the upload and given back. Nothing happens when
        the path is no directory or the file cannot be opened. */
    method WriteFile(file: seq<Byte>, opens: bool)
      modifies this`files, this`maskName, this`bpcName, this`uploads
      ensures bpcName == old(bpcName) && maskName == old(TargetName())
      ensures maskName == if old(maskName) == "" && path != RegularFile then "mask.bpc" else old(maskName)
      ensures if path == Directory && opens
              then files == old(files)[maskName := file] && uploads == old(uploads) + [maskName]
              else files == old(files) && uploads == old(uploads)
    {
      maskName := TargetName();
      if path != Directory || !opens {
        return;
      }
      files := files[maskName := file];
      var keep := bpcName;
      bpcName := maskName;
      uploads := uploads + [bpcName];
      bpcName := keep;
    }

    method ReadMask(params: MaskParams, opens: bool)
      requires Valid()
      requires params.Chosen().Paint? ==> params.Chosen().op.Safe(det.Rows())
      requires params.Chosen().WriteMaskFile? && bpcName in files ==> FileReaches(det, |files[bpcName]|, value[..])
      modifies this, value
      ensures Valid() && path == old(path) && bpcName == old(bpcName)
      ensures value[..] == match params.Chosen()
                           case Paint(op) => DrawOn(det, op, old(value[..]))
                           case LoadFile =>
                             (if bpcName in old(files) then LoadMask(det, old(files)[bpcName], old(value[..]))
                              else old(value[..]))
                           case _ => old(value[..])
      ensures maskName == if params.Chosen().WriteMaskFile? && bpcName in old(files) then old(TargetName())
                          else old(maskName)
      ensures if params.Chosen().WriteMaskFile? && bpcName in old(files) && path == Directory && opens
              then
                && files == old(files)[maskName := WriteMask(det, old(files)[bpcName], value[..])]
                && uploads == old(uploads) + [maskName]
              else files == old(files) && uploads == old(uploads)
      ensures maskedCount == if params.Chosen() in {LoadFile, WriteMaskFile} && bpcName in old(files)
                             then MaskedCount(old(files)[bpcName]) else old(maskedCount)
    {
      hide LoadMask, WriteMask, DrawOn, MaskedCount, FileReaches;
      match params.Chosen() {
        case Paint(Reset(on)) =>
          MaskReset(det, value, on);
        case Paint(Rectangle(x, xSize, y, ySize, on)) =>
          MaskRectangle(det, value, x, xSize, y, ySize, on);
        case Paint(Circle(cx, cy, radius, on)) =>
          MaskCircle(det, value, cx, cy, radius, on);
        case LoadFile =>
          if bpcName in files {
            maskedCount := CountMasked(files[bpcName]);
            Load(det, files[bpcName], value);
          }
        case WriteMaskFile =>
          if bpcName in files {
            var file := files[bpcName];
            maskedCount := CountMasked(file);
            var buf := new Byte[|file|](k requires 0 <= k < |file| => file[k]);
            assert buf[..] == file;
            ApplyMask(det, buf, value);
            WriteFile(buf[..], opens);
          }
        case Nothing =>
      }
    }
  }

  // ----- one editing session

  const IDLE := MaskParams(0, 0, 0, 0, 0, 0, 0, 0, 0, 0, 0)

  /** The parameters that ask for one draw. */
  function ParamsOf(op: Draw): (params: MaskParams)
    ensures params.Chosen() == Paint(op)
  {
    match op
    case Reset(on) => IDLE.(reset := 1, on := on)
    case Rectangle(x, xs, y, ys, on) => IDLE.(rectangle := 1, x := x, xSize := xs, y := y, ySize := ys, on := on)
    case Circle(cx, cy, r, on) => IDLE.(circle := 1, x := cx, y := cy, radius := r, on := on)
  }

  lemma DrawAllSnoc(d: Detector, ops: seq<Draw>, k: nat, img: seq<Word>)
    requires d.Square() && k < |ops|
    ensures DrawAll(d, ops[..k + 1], img) == DrawOn(d, ops[k], DrawAll(d, ops[..k], img))
  {
    hide DrawOn;
    assert ops[..k + 1][..k] == ops[..k];
  }

  method DrawEach(c: MaskChannel, ops: seq<Draw>)
    requires c.Valid() && forall op | op in ops :: op.Safe(c.det.Rows())
    modifies c, c.value
    ensures c.Valid() && c.value[..] == DrawAll(c.det, ops, old(c.value[..]))
    ensures c.files == old(c.files) && c.path == old(c.path) && c.bpcName == old(c.bpcName)
    ensures c.maskName == old(c.maskName) && c.uploads == old(c.uploads)
  {
    hide DrawAll, DrawOn, MaskParams.Chosen, Draw.Safe, WriteMask, LoadMask, FileReaches, MaskedCount;
    ghost var was := c.value[..];
    DrawNone(c.det, was);
    for k := 0 to |ops|
      invariant c.Valid() && c.value[..] == DrawAll(c.det, ops[..k], was)
      invariant c.files == old(c.files) && c.path == old(c.path) && c.bpcName == old(c.bpcName)
      invariant c.maskName == old(c.maskName) && c.uploads == old(c.uploads)
    {
      assert ops[k] in ops;
      DrawAllSnoc(c.det, ops, k, was);
      c.ReadMask(ParamsOf(ops[k]), true);
    }
    assert ops[..|ops|] == ops;
  }

  lemma DrawNone(d: Detector, img: seq<Word>)
    requires d.Square()
    ensures DrawAll(d, [], img) == img
  {
  }

  /** The pixel at position p was masked in the file, or the draws left it on. */
  predicate Edited(d: Detector, file: seq<Byte>, ops: seq<Draw>, p: int)
    requires d.Valid()
  {
    FileMasks(d, file, At(d.Rows(), p)) || DrawnAt(d.Rows(), ops, At(d.Rows(), p))
  }

  ghost predicate ShowsEdited(d: Detector, file: seq<Byte>, ops: seq<Draw>, img: seq<Word>)
    requires d.Square()
  {
    && |img| >= d.Rows() * d.Rows()
    && forall p: nat | p < d.Rows() * d.Rows() :: img[p] == if Edited(d, file, ops, p) then LOADED_BIT else 0
  }

  ghost predicate CountsEdited(d: Detector, file: seq<Byte>, ops: seq<Draw>, n: int)
    requires d.Square()
  {
    n == |Below(d.Rows() * d.Rows(), p => Edited(d, file, ops, p))|
  }

  lemma EditedImage(d: Detector, file: seq<Byte>, ops: seq<Draw>, value: seq<Word>, later: seq<Word>)
    requires d.Square() && |value| >= d.Rows() * d.Rows() && |later| >= d.Rows() * d.Rows() && |file| == d.Size()
    ensures ShowsEdited(d, file, ops, LoadMask(d, DrawAndWrite(d, file, ops, value), later))
  {
    hide LoadMask, DrawAndWrite, FileMasks, DrawnAt, PelIndex;
    forall p: nat | p < d.Rows() * d.Rows()
      ensures LoadMask(d, DrawAndWrite(d, file, ops, value), later)[p]
           == if Edited(d, file, ops, p) then LOADED_BIT else 0
    {
      PixelByte(d, |file|, p);
      DrawWriteLoad(d, file, ops, value, later, p);
    }
  }

  lemma EditedCount(d: Detector, file: seq<Byte>, ops: seq<Draw>, value: seq<Word>)
    requires d.Square() && |value| >= d.Rows() * d.Rows() && |file| == d.Size()
    ensures CountsEdited(d, file, ops, MaskedCount(DrawAndWrite(d, file, ops, value)))
  {
    hide DrawAndWrite, FileMasks, DrawnAt, MaskedCount;
    WrittenCount(d, file, ops, value);
    assert Below(d.Rows() * d.Rows(), p => Edited(d, file, ops, p))
        == Below(d.Rows() * d.Rows(),
                 p => FileMasks(d, file, At(d.Rows(), p)) || DrawnAt(d.Rows(), ops, At(d.Rows(), p)));
  }

  /** Load a full file, draw, write, then choose the written file and load it: the image
      shows exactly the pixels that were masked or left on by the draws, and the count is
      their number; the first file is kept unless it is itself the mask file. */
  method EditMask(c: MaskChannel, ghost file: seq<Byte>, ops: seq<Draw>)
    requires c.Valid() && c.path == Directory && c.bpcName in c.files && c.files[c.bpcName] == file
    requires |file| == c.det.Size() && forall op | op in ops :: op.Safe(c.det.Rows())
    modifies c, c.value
    ensures c.Valid() && c.bpcName == c.maskName == old(c.TargetName())
    ensures c.files == old(c.files)[c.maskName := DrawAndWrite(c.det, file, ops, old(c.value[..]))]
    ensures c.uploads == old(c.uploads) + [c.maskName]
    ensures ShowsEdited(c.det, file, ops, c.value[..]) && CountsEdited(c.det, file, ops, c.maskedCount)
  {
    hide DrawAll, LoadMask, WriteMask, FileReaches, MaskedCount, ShowsEdited, CountsEdited, Detector.Size, Draw.Safe;
    ghost var value := c.value[..];
    c.ReadMask(IDLE.(load := 1), true);
    DrawEach(c, ops);
    FullFileReaches(c.det, |file|, c.value[..]);
    c.ReadMask(IDLE.(write := 1), true);
    ghost var later := c.value[..];
    c.bpcName := c.maskName;
    c.ReadMask(IDLE.(load := 1), true);
    EditedImage(c.det, file, ops, value, later);
    EditedCount(c.det, file, ops, value);
  }
}
