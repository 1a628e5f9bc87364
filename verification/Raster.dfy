/** A square image as a row-major buffer, scanned pixel by pixel. */
module Raster {
  import opened Arith
  import opened Symmetry

  /** The pixel stored at position p of a buffer with rows l wide. */
  function At(l: int, p: int): Point
    requires l > 0
  {
    Point(p % l, p / l)
  }

  function Position(l: int, q: Point): int {
    q.j * l + q.i
  }

  lemma AtPosition(l: int, q: Point)
    requires InSquare(l, q)
    ensures 0 <= Position(l, q) < l * l && At(l, Position(l, q)) == q
  {
    FlatBound(l, l, q.j, q.i);
    DivMod(l, q.j, q.i);
  }

  lemma AtIs(l: int, p: int, q: Point)
    requires l > 0
    ensures At(l, p) == q ==> p == Position(l, q)
  {
    assert p / l * l + p % l == p;
  }

  lemma PositionAt(l: int, p: int)
    requires 0 <= p < l * l && l > 0
    ensures InSquare(l, At(l, p)) && Position(l, At(l, p)) == p
  {
    DivBound(l, l, p);
  }

  /** Rows above j are finished, and row j up to column i. */
  predicate Before(q: Point, j: int, i: int) {
    q.j < j || (q.j == j && q.i < i)
  }

  /** The buffer once every pixel before column i of row j holds its value in img and all
      others still hold the blank value. */
  ghost predicate Scanned<T>(l: int, img: seq<T>, now: seq<T>, blank: T, j: int, i: int)
    requires l > 0
  {
    && |now| == |img|
    && forall p | 0 <= p < |now| :: now[p] == if Before(At(l, p), j, i) then img[p] else blank
  }

  /** Storing the value of pixel (i, j), or passing a pixel outside the buffer. */
  lemma ScannedStep<T>(l: int, img: seq<T>, now: seq<T>, blank: T, j: int, i: int)
    requires l > 0 && Scanned(l, img, now, blank, j, i) && InSquare(l, Point(i, j))
    ensures 0 <= j * l + i < l * l && At(l, j * l + i) == Point(i, j)
    ensures j * l + i >= |now| ==> Scanned(l, img, now, blank, j, i + 1)
    ensures j * l + i < |now| ==>
              now[j * l + i] == blank && Scanned(l, img, now[j * l + i := img[j * l + i]], blank, j, i + 1)
  {
    hide At;
    AtPosition(l, Point(i, j));
    forall p | 0 <= p < |now| && p != j * l + i
      ensures At(l, p) != Point(i, j)
    {
      AtIs(l, p, Point(i, j));
    }
  }

  lemma ScannedRow<T>(l: int, img: seq<T>, now: seq<T>, blank: T, j: int)
    requires l > 0 && Scanned(l, img, now, blank, j, l)
    ensures Scanned(l, img, now, blank, j + 1, 0)
  {
  }

  lemma ScannedNone<T>(l: int, img: seq<T>, now: seq<T>, blank: T)
    requires l > 0 && |now| == |img| && forall p | 0 <= p < |now| :: now[p] == blank
    ensures Scanned(l, img, now, blank, 0, 0)
  {
    forall p | 0 <= p < |now|
      ensures !Before(At(l, p), 0, 0)
    {
      QuotientNonNegative(l, p);
    }
  }

  /** A complete scan gives the image, if the image is blank beyond its pixels. */
  lemma ScannedAll<T>(l: int, img: seq<T>, now: seq<T>, blank: T)
    requires l > 0 && Scanned(l, img, now, blank, l, 0)
    requires forall p | l * l <= p < |img| :: img[p] == blank
    ensures now == img
  {
    forall p | 0 <= p < |now|
      ensures now[p] == img[p]
    {
      if p < l * l {
        PositionAt(l, p);
      }
    }
  }

  /** One array store, seen as an update of the buffer's contents. */
  method Store<T>(buf: array<T>, at: int, v: T)
    requires 0 <= at < buf.Length
    modifies buf
    ensures buf[..] == old(buf[..])[at := v]
  {
    buf[at] := v;
  }

  method Clear<T>(buf: array<T>, blank: T)
    modifies buf
    ensures forall p | 0 <= p < buf.Length :: buf[p] == blank
  {
    for k := 0 to buf.Length
      invariant forall p | 0 <= p < k :: buf[p] == blank
    {
      buf[k] := blank;
    }
  }
}
