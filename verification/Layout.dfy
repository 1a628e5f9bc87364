/** The layout command sent for each orientation, and what it does to images. */
module Layout {
  import opened Symmetry
  import opened PixelMap

  datatype Rotation = Keep | Right | Half | Left
  datatype Flip = NoFlip | Horizontal | Vertical
  datatype Command = Command(rotation: Rotation, flip: Flip)

  const RESET_URL := "/detector/layout/rotate?reset=true"

  /** The parameter value the driver acts on: anything off the menu means UP. */
  function Normalise(o: int): int {
    if 0 <= o < 8 then o else 0
  }

  function LayoutCommand(o: int): Command {
    match Normalise(o)
    case 1 => Command(Right, NoFlip)
    case 2 => Command(Half, NoFlip)
    case 3 => Command(Left, NoFlip)
    case 4 => Command(Keep, Horizontal)
    case 5 => Command(Right, Horizontal)
    case 6 => Command(Keep, Vertical)
    case 7 => Command(Right, Vertical)
    case _ => Command(Keep, NoFlip)
  }

  /** The query, whose word for a half turn depends on the server's major version. */
  function LayoutUrl(o: int, apiVersion: string): string {
    var c := LayoutCommand(o);
    RESET_URL + DirectionOf(c.rotation, apiVersion != "" && apiVersion[0] == '3') + FlipOf(c.flip)
  }

  // How the server reads a query, word by word.

  function ReadDirection(words: string): (Rotation, string) {
    if "&direction=right" <= words then (Right, words[16..])
    else if "&direction=left" <= words then (Left, words[15..])
    else if "&direction=half" <= words then (Half, words[15..])
    else if "&direction=180" <= words then (Half, words[14..])
    else (Keep, words)
  }

  function ReadFlip(word: string): Flip {
    if word == "&flip=horizontal" then Horizontal else if word == "&flip=vertical" then Vertical else NoFlip
  }

  function ReadCommand(words: string): Command {
    var (rotation, after) := ReadDirection(words);
    Command(rotation, ReadFlip(after))
  }

  function DirectionOf(r: Rotation, three: bool): string {
    match r
    case Keep => ""
    case Right => "&direction=right"
    case Half => if three then "&direction=180" else "&direction=half"
    case Left => "&direction=left"
  }

  function FlipOf(f: Flip): string {
    match f
    case NoFlip => ""
    case Horizontal => "&flip=horizontal"
    case Vertical => "&flip=vertical"
  }

  lemma ReadsDirection(rotation: Rotation, three: bool, tail: string)
    requires tail != "" ==> |tail| > 1 && tail[1] != 'd'
    ensures ReadDirection(DirectionOf(rotation, three) + tail) == (rotation, tail)
  {
    var direction := DirectionOf(rotation, three);
    var words := direction + tail;
    assert words[|direction|..] == tail;
    match rotation
    case Keep => assert words == tail;
    case Right => assert words[..16] == direction;
    case Left => assert words[..15] == direction && words[11] == 'l';
    case Half =>
      if three {
        assert words[..14] == direction && words[11] == '1';
      } else {
        assert words[..15] == direction && words[11] == 'h';
      }
  }

  lemma ReadsFlip(flip: Flip)
    ensures ReadFlip(FlipOf(flip)) == flip
    ensures FlipOf(flip) != "" ==> |FlipOf(flip)| > 1 && FlipOf(flip)[1] != 'd'
  {
    assert FlipOf(Vertical)[6] == 'v' && FlipOf(Horizontal)[6] == 'h';
  }

  /** What follows the reset in the query says exactly the command, in the words of either
      server version. */
  lemma UrlSaysCommand(o: int, apiVersion: string)
    ensures var n := |RESET_URL|;
            var url := LayoutUrl(o, apiVersion);
            RESET_URL <= url && ReadCommand(url[n..]) == LayoutCommand(o)
  {
    hide ReadDirection, ReadFlip, DirectionOf, FlipOf, LayoutCommand;
    var c := LayoutCommand(o);
    var three := apiVersion != "" && apiVersion[0] == '3';
    ReadsFlip(c.flip);
    ReadsDirection(c.rotation, three, FlipOf(c.flip));
    assert LayoutUrl(o, apiVersion)[|RESET_URL|..] == DirectionOf(c.rotation, three) + FlipOf(c.flip);
  }

  /** The word for a half turn depends on the server's major version. */
  lemma HalfTurnWord(apiVersion: string)
    ensures LayoutUrl(2, apiVersion) == "/detector/layout/rotate?reset=true" +
              if apiVersion != "" && apiVersion[0] == '3' then "&direction=180" else "&direction=half"
  {
  }

  /** No two orientations send the same query. */
  lemma UrlDistinguishes(a: int, b: int, apiVersion: string)
    requires 0 <= a < b < 8
    ensures LayoutUrl(a, apiVersion) != LayoutUrl(b, apiVersion)
  {
    hide LayoutUrl, ReadCommand;
    UrlSaysCommand(a, apiVersion);
    UrlSaysCommand(b, apiVersion);
  }

  // Images are functions from pixels, i to the right and j downwards.

  /** Quarter turns are clockwise for Right: the left edge becomes the top. */
  function Rotate<T>(r: Rotation, l: int, image: Point -> T): Point -> T {
    match r
    case Keep => image
    case Right => (p: Point) => image(Point(p.j, l - 1 - p.i))
    case Half => (p: Point) => image(Point(l - 1 - p.i, l - 1 - p.j))
    case Left => (p: Point) => image(Point(l - 1 - p.j, p.i))
  }

  function Mirror<T>(f: Flip, l: int, image: Point -> T): Point -> T {
    match f
    case NoFlip => image
    case Horizontal => (p: Point) => image(Point(l - 1 - p.i, p.j))
    case Vertical => (p: Point) => image(Point(p.i, l - 1 - p.j))
  }

  function Apply<T>(c: Command, l: int, image: Point -> T): Point -> T {
    Mirror(c.flip, l, Rotate(c.rotation, l, image))
  }

  function RotateOrigin(r: Rotation, l: int, p: Point): Point {
    match r
    case Keep => p
    case Right => Point(p.j, l - 1 - p.i)
    case Half => Point(l - 1 - p.i, l - 1 - p.j)
    case Left => Point(l - 1 - p.j, p.i)
  }

  function MirrorOrigin(f: Flip, l: int, p: Point): Point {
    match f
    case NoFlip => p
    case Horizontal => Point(l - 1 - p.i, p.j)
    case Vertical => Point(p.i, l - 1 - p.j)
  }

  /** The pixel that ends up at p. */
  function Origin(c: Command, l: int, p: Point): Point {
    RotateOrigin(c.rotation, l, MirrorOrigin(c.flip, l, p))
  }

  lemma RotateAt<T>(r: Rotation, l: int, image: Point -> T, p: Point)
    ensures Rotate(r, l, image)(p) == image(RotateOrigin(r, l, p))
  {
  }

  lemma MirrorAt<T>(f: Flip, l: int, image: Point -> T, p: Point)
    ensures Mirror(f, l, image)(p) == image(MirrorOrigin(f, l, p))
  {
  }

  lemma ApplyAt<T>(c: Command, l: int, image: Point -> T, p: Point)
    ensures Apply(c, l, image)(p) == image(Origin(c, l, p))
  {
    hide Rotate, Mirror, RotateOrigin, MirrorOrigin;
    MirrorAt(c.flip, l, Rotate(c.rotation, l, image), p);
    RotateAt(c.rotation, l, image, MirrorOrigin(c.flip, l, p));
  }

  lemma CommandOrigin(o: int, l: int, p: Point)
    ensures Origin(LayoutCommand(o), l, p) == Turn(Normalise(o), l, p)
  {
  }

  /** The server's rotation followed by its flip is the symmetry of the index map. */
  lemma CommandIsTurn<T>(o: int, l: int, image: Point -> T, p: Point)
    ensures Apply(LayoutCommand(o), l, image)(p) == image(Turn(if 0 <= o < 8 then o else 0, l, p))
  {
    hide Apply, Origin, LayoutCommand, Turn;
    ApplyAt(LayoutCommand(o), l, image, p);
    CommandOrigin(o, l, p);
  }

  /** So after the command every image pixel keeps showing the byte that the index
      map assigns to it: turning the UP image of the file gives the o image of it. */
  lemma LayoutAgreesWithMap<T>(d: Detector, file: int -> T, p: Point)
    requires d.Square() && d.InImage(p)
    ensures var up := (q: Point) =>
              if q.i >= 0 && q.j >= 0 then file(PelIndex(d.(orientation := 0), q.i, q.j)) else file(0);
            Apply(LayoutCommand(d.orientation), d.Rows(), up)(p) == file(PelIndex(d, p.i, p.j))
  {
    hide PelIndex, Apply, LayoutCommand;
    var up := (q: Point) => if q.i >= 0 && q.j >= 0 then file(PelIndex(d.(orientation := 0), q.i, q.j)) else file(0);
    CommandIsTurn(d.orientation, d.Rows(), up, p);
    Factorisation(d, p);
  }
}
