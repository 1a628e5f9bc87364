/** Comparing the chips' own pixel configuration with the BPC file, as counts per
    chip and as an image, and exporting the masked pixels of the file. */
module PixelConfig {
  import opened Wrappers
  import opened Arith
  import opened Symmetry
  import opened PixelMap
  import opened Counting
  import opened Raster
  import opened MaskIO

  const CHIP_BYTES: nat := 65536
  const LINEAR_BYTES: nat := 262144

  /** What one chip answered: its decoded configuration, or nothing when the
      request, the JSON or the base64 text failed. */
  type Answer = Option<seq<Byte>>

  // ----- specification

  /** How much of the file belongs to a chip: 64 KiB, or less at the end of the file. */
  function FileSlice(file: seq<Byte>, chip: nat): (slice: nat)
    ensures slice <= 65536 && (slice > 0 <==> chip * CHIP_BYTES < |file|)
    ensures slice > 0 ==> chip * CHIP_BYTES + slice <= |file| && (slice == 65536 || chip * CHIP_BYTES + slice == |file|)
  {
    if chip * CHIP_BYTES >= |file| then 0
    else if |file| - chip * CHIP_BYTES < CHIP_BYTES then |file| - chip * CHIP_BYTES
    else CHIP_BYTES
  }

  /** A chip is compared when it answered and the file reaches its slice. */
  predicate Compared(file: seq<Byte>, answers: seq<Answer>, chip: nat) {
    chip < |answers| && answers[chip].Some? && chip * CHIP_BYTES < |file|
  }

  function ComparedBytes(file: seq<Byte>, answers: seq<Answer>, chip: nat): nat
    requires Compared(file, answers, chip)
  {
    if |answers[chip].value| < FileSlice(file, chip) then |answers[chip].value| else FileSlice(file, chip)
  }

  predicate Differs(file: seq<Byte>, answers: seq<Answer>, chip: nat, i: int) {
    Compared(file, answers, chip) && 0 <= i < ComparedBytes(file, answers, chip) &&
    answers[chip].value[i] != file[chip * CHIP_BYTES + i]
  }

  function Mismatches(file: seq<Byte>, answers: seq<Answer>, chip: nat): nat {
    |Below(CHIP_BYTES, i => Differs(file, answers, chip, i))|
  }

  const MATCHES := 1
  const DIFFERS := 0
  const NO_FILE := 2
  const OTHER_LENGTH := 3
  const NO_ANSWER := -1

  /** What is published for one chip: decoded length, match code, mismatching bytes. */
  datatype Report = Report(length: nat, code: int, mismatch: nat)

  function ReportOf(file: seq<Byte>, answers: seq<Answer>, chip: nat): Report
    requires chip < |answers|
  {
    if answers[chip].None? then Report(0, NO_ANSWER, 0)
    else
      var n := |answers[chip].value|;
      if file == [] then Report(n, NO_FILE, 0)
      else if Mismatches(file, answers, chip) > 0 then Report(n, DIFFERS, Mismatches(file, answers, chip))
      else if n == FileSlice(file, chip) > 0 then Report(n, MATCHES, 0)
      else Report(n, OTHER_LENGTH, 0)
  }

  /** The published number is always that of the mismatching bytes, and the match code
      says what it should: a match is an answer equal to the chip's part of the file, a
      difference a byte that differs within the shorter of the two. */
  lemma CodeExact(file: seq<Byte>, answers: seq<Answer>, chip: nat)
    requires chip < |answers|
    ensures var offset, slice := chip * CHIP_BYTES, FileSlice(file, chip);
            var code := ReportOf(file, answers, chip).code;
            && (code == MATCHES <==>
                  answers[chip].Some? && offset < |file| && answers[chip].value == file[offset..offset + slice])
            && (code == DIFFERS <==> answers[chip].Some? && exists i :: Differs(file, answers, chip, i))
            && (code == NO_ANSWER <==> answers[chip].None?)
            && (code == NO_FILE <==> answers[chip].Some? && file == [])
            && code in {MATCHES, DIFFERS, NO_ANSWER, NO_FILE, OTHER_LENGTH}
    ensures ReportOf(file, answers, chip).length == if answers[chip].Some? then |answers[chip].value| else 0
    ensures ReportOf(file, answers, chip).mismatch == Mismatches(file, answers, chip)
  {
    var s := Below(CHIP_BYTES, i => Differs(file, answers, chip, i));
    if |s| == 0 {
      forall i | 0 <= i < CHIP_BYTES
        ensures !Differs(file, answers, chip, i)
      {
        assert i !in s;
      }
      if answers[chip].Some? && file != [] && |answers[chip].value| == FileSlice(file, chip) > 0 {
        forall i | 0 <= i < |answers[chip].value|
          ensures answers[chip].value[i] == file[chip * CHIP_BYTES + i]
        {
          assert !Differs(file, answers, chip, i);
        }
      }
    } else {
      var i :| i in s;
    }
  }

  /** The published number, byte by byte: how many bytes of the answer differ from the byte of
      the file at their place. */
  lemma MismatchExact(file: seq<Byte>, answers: seq<Answer>, chip: nat)
    requires chip < |answers| && answers[chip].Some?
    ensures var answer := answers[chip].value;
            ReportOf(file, answers, chip).mismatch
              == |set i | 0 <= i < |answer| && i < 65536 && chip * 65536 + i < |file|
                         && answer[i] != file[chip * 65536 + i]|
  {
    hide ReportOf;
    CodeExact(file, answers, chip);
    var answer := answers[chip].value;
    assert Below(CHIP_BYTES, i => Differs(file, answers, chip, i))
        == set i | 0 <= i < |answer| && i < 65536 && chip * 65536 + i < |file| && answer[i] != file[chip * 65536 + i];
  }

  /** The value kept for byte k: zero where no chip supplied one. */
  function ServalByte(file: seq<Byte>, answers: seq<Answer>, k: nat): Byte {
    if Compared(file, answers, k / CHIP_BYTES) && k % CHIP_BYTES < |answers[k / CHIP_BYTES].value|
    then answers[k / CHIP_BYTES].value[k % CHIP_BYTES]
    else 0
  }

  function Distance(a: int, b: int): int {
    if a > b then a - b else b - a
  }

  /** The difference shown for byte k of the file. */
  function DiffAt(file: seq<Byte>, answers: seq<Answer>, k: int): int {
    if 0 <= k < |file| && k < LINEAR_BYTES && Compared(file, answers, k / CHIP_BYTES)
    then Distance(ServalByte(file, answers, k) as int, file[k] as int)
    else 0
  }

  function DiffImage(d: Detector, file: seq<Byte>, answers: seq<Answer>, n: nat): (img: seq<int>)
    requires d.Square()
    ensures |img| == n
  {
    seq(n, (p: nat) => if p < d.Rows() * d.Rows() then DiffPixel(d, file, answers, At(d.Rows(), p)) else 0)
  }

  function DiffPixel(d: Detector, file: seq<Byte>, answers: seq<Answer>, q: Point): int
    requires d.Valid()
  {
    if q.i >= 0 && q.j >= 0 then DiffAt(file, answers, PelIndex(d, q.i, q.j)) else 0
  }

  /** What pixel p of the difference image is to show: the distance between the byte that its
      chip answered and the byte of the file, the byte of the file itself where a short answer
      does not reach, and nothing where nothing was compared. */
  ghost predicate ShowsDifference(d: Detector, file: seq<Byte>, answers: seq<Answer>, p: nat, shown: int)
    requires d.Square() && p < d.Rows() * d.Rows()
  {
    PositionAt(d.Rows(), p);
    var k := PelIndex(d, At(d.Rows(), p).i, At(d.Rows(), p).j);
    if 0 <= k < |file| && k < 262144 && k / 65536 < |answers| && answers[k / 65536].Some? then
      var answer, i := answers[k / 65536].value, k % 65536;
      if i < |answer| then
        shown >= 0 && (file[k] as int + shown == answer[i] as int || answer[i] as int + shown == file[k] as int)
      else shown == file[k] as int
    else shown == 0
  }

  lemma DifferenceShown(d: Detector, file: seq<Byte>, answers: seq<Answer>, n: nat, p: nat)
    requires d.Square() && p < n && p < d.Rows() * d.Rows()
    ensures ShowsDifference(d, file, answers, p, DiffImage(d, file, answers, n)[p])
  {
    hide PelIndex, At;
    PositionAt(d.Rows(), p);
    DiffImageAt(d, file, answers, n, p);
  }

  // ----- the refresh

  /** Compare every answering chip with its slice of the file, and keep its bytes. */
  method CompareChips(file: seq<Byte>, answers: seq<Answer>, serval: array<Byte>, decoded: array<bool>)
    returns (reports: seq<Report>)
    requires serval.Length == LINEAR_BYTES && decoded.Length == |answers| <= 4
    requires forall k | 0 <= k < LINEAR_BYTES :: serval[k] == 0
    requires forall c | 0 <= c < |answers| :: !decoded[c]
    modifies serval, decoded
    ensures |reports| == |answers|
    ensures forall c | 0 <= c < |answers| :: reports[c] == ReportOf(file, answers, c)
    ensures forall c | 0 <= c < |answers| :: decoded[c] == Compared(file, answers, c)
    ensures forall k | 0 <= k < LINEAR_BYTES :: serval[k] == ServalByte(file, answers, k)
  {
    hide ReportOf, FileSlice;
    reports := [];
    for chip := 0 to |answers|
      invariant |reports| == chip
      invariant forall c | 0 <= c < chip :: reports[c] == ReportOf(file, answers, c)
      invariant forall c | 0 <= c < |answers| :: decoded[c] == (c < chip && Compared(file, answers, c))
      invariant forall k | 0 <= k < LINEAR_BYTES ::
                  serval[k] == if k / CHIP_BYTES < chip then ServalByte(file, answers, k) else 0
    {
      var report := ReportChip(file, answers, chip);
      reports := reports + [report];
      if answers[chip].Some? && chip * CHIP_BYTES < |file| {
        var bytes := answers[chip].value;
        decoded[chip] := true;
        var i := 0;
        while i < |bytes| && i < CHIP_BYTES && chip * CHIP_BYTES + i < serval.Length
          invariant 0 <= i <= |bytes| && i <= CHIP_BYTES
          invariant forall c | 0 <= c < |answers| :: decoded[c] == (c <= chip && Compared(file, answers, c))
          invariant forall k | 0 <= k < LINEAR_BYTES ::
                      serval[k] == if k / CHIP_BYTES < chip || (k / CHIP_BYTES == chip && k % CHIP_BYTES < i)
                                   then ServalByte(file, answers, k) else 0
        {
          serval[chip * CHIP_BYTES + i] := bytes[i];
          i := i + 1;
        }
      }
    }
  }

  method ReportChip(file: seq<Byte>, answers: seq<Answer>, chip: nat) returns (report: Report)
    requires chip < |answers|
    ensures report == ReportOf(file, answers, chip)
  {
    hide Mismatches, Below;
    if answers[chip].None? {
      return Report(0, NO_ANSWER, 0);
    }
    var length := |answers[chip].value|;
    if |file| == 0 {
      return Report(length, NO_FILE, 0);
    }
    var offset := chip * CHIP_BYTES;
    if offset >= |file| {
      NotCompared(file, answers, chip);
      return Report(length, OTHER_LENGTH, 0);
    }
    var chipLength := if |file| - offset < CHIP_BYTES then |file| - offset else CHIP_BYTES;
    var mismatch := CompareChip(file, answers, chip);
    if mismatch > 0 {
      return Report(length, DIFFERS, mismatch);
    }
    if length != chipLength {
      return Report(length, OTHER_LENGTH, 0);
    }
    return Report(length, MATCHES, 0);
  }

  lemma NotCompared(file: seq<Byte>, answers: seq<Answer>, chip: nat)
    requires !Compared(file, answers, chip)
    ensures Mismatches(file, answers, chip) == 0
  {
    assert Below(CHIP_BYTES, i => Differs(file, answers, chip, i)) == {};
  }

  method CompareChip(file: seq<Byte>, answers: seq<Answer>, chip: nat) returns (mismatch: nat)
    requires Compared(file, answers, chip)
    ensures mismatch == Mismatches(file, answers, chip)
  {
    ghost var keep := i => Differs(file, answers, chip, i);
    var offset, n := chip * CHIP_BYTES, ComparedBytes(file, answers, chip);
    mismatch := 0;
    assert Below(0, keep) == {};
    for i := 0 to n
      invariant mismatch == |Below(i, keep)|
    {
      BelowStep(i, keep);
      if answers[chip].value[i] != file[offset + i] {
        mismatch := mismatch + 1;
      }
    }
    assert Below(n, keep) == Below(CHIP_BYTES, keep);
    assert Below(n, keep) == Below(CHIP_BYTES, i => Differs(file, answers, chip, i));
  }

  lemma FilledAll(d: Detector, file: seq<Byte>, answers: seq<Answer>, now: seq<int>)
    requires d.Square() && Scanned(d.Rows(), DiffImage(d, file, answers, |now|), now, 0, d.Rows(), 0)
    ensures now == DiffImage(d, file, answers, |now|)
  {
    hide DiffPixel;
    ScannedAll(d.Rows(), DiffImage(d, file, answers, |now|), now, 0);
  }

  /** Fetch, compare and rebuild the difference image; without a file the chips are still
      reported on and the image keeps its contents. */
  method Compare(d: Detector, file: seq<Byte>, answers: seq<Answer>, diff: array<int>)
    returns (reports: seq<Report>)
    requires d.Square() && |answers| == d.numChips
    modifies diff
    ensures |reports| == |answers|
    ensures forall c | 0 <= c < |answers| :: reports[c] == ReportOf(file, answers, c)
    ensures diff[..] == if file == [] then old(diff[..]) else DiffImage(d, file, answers, diff.Length)
    ensures file != [] ==>
              forall p: nat | p < diff.Length && p < d.Rows() * d.Rows() ::
                ShowsDifference(d, file, answers, p, diff[p])
  {
    hide PelIndex, Scanned, DiffImage, ServalByte, ReportOf, ShowsDifference;
    var serval := new Byte[LINEAR_BYTES](_ => 0);
    var decoded := new bool[|answers|](_ => false);
    reports := CompareChips(file, answers, serval, decoded);
    if |file| == 0 {
      return;
    }
    SquareSide(d);
    var rows, cols := d.Rows(), d.Cols();
    ghost var img := DiffImage(d, file, answers, diff.Length);
    Clear(diff, 0);
    ScannedNone(rows, img, diff[..], 0);
    var j := 0;
    while j < rows
      invariant 0 <= j <= rows
      invariant Scanned(rows, img, diff[..], 0, j, 0)
      modifies diff
    {
      var i := 0;
      while i < cols
        invariant 0 <= i <= cols
        invariant Scanned(rows, img, diff[..], 0, j, i)
        modifies diff
      {
        ScannedStep(rows, img, diff[..], 0, j, i);
        var at := j * cols + i;
        if at < diff.Length {
          var k := PelIndex(d, i, j);
          var v := DiffOf(file, answers, serval, decoded, k);
          DiffImageAt(d, file, answers, diff.Length, at);
          Store(diff, at, v);
        }
        i := i + 1;
      }
      ScannedRow(rows, img, diff[..], 0, j);
      j := j + 1;
    }
    FilledAll(d, file, answers, diff[..]);
    forall p: nat | p < diff.Length && p < d.Rows() * d.Rows()
      ensures ShowsDifference(d, file, answers, p, diff[p])
    {
      DifferenceShown(d, file, answers, diff.Length, p);
    }
  }

  method DiffOf(file: seq<Byte>, answers: seq<Answer>, serval: array<Byte>, decoded: array<bool>, k: int)
    returns (v: int)
    requires serval.Length == LINEAR_BYTES && decoded.Length == |answers|
    requires forall c | 0 <= c < |answers| :: decoded[c] == Compared(file, answers, c)
    requires forall i | 0 <= i < LINEAR_BYTES :: serval[i] == ServalByte(file, answers, i)
    ensures v == DiffAt(file, answers, k)
  {
    hide ServalByte, Distance;
    if k < 0 || k >= |file| || k >= serval.Length {
      return 0;
    }
    var chip := k / CHIP_BYTES;
    if chip >= decoded.Length || !decoded[chip] {
      return 0;
    }
    v := Distance(serval[k] as int, file[k] as int);
  }

  lemma DiffImageAt(d: Detector, file: seq<Byte>, answers: seq<Answer>, n: nat, p: nat)
    requires d.Square() && p < n && p < d.Rows() * d.Rows()
    ensures DiffImage(d, file, answers, n)[p] == DiffPixel(d, file, answers, At(d.Rows(), p))
  {
  }

  // ----- conservation

  /** Non-zero file bytes of a compared chip that its short answer did not reach. */
  function UnansweredBytes(file: seq<Byte>, answers: seq<Answer>, chip: nat): nat {
    |Below(CHIP_BYTES, i => Unanswered(file, answers, chip, i))|
  }

  predicate Unanswered(file: seq<Byte>, answers: seq<Answer>, chip: nat, i: int) {
    Compared(file, answers, chip) && ComparedBytes(file, answers, chip) <= i < FileSlice(file, chip) &&
    file[chip * CHIP_BYTES + i] != 0
  }

  function NonZero(img: seq<int>): nat {
    |Below(|img|, p => 0 <= p < |img| && img[p] != 0)|
  }

  /** The layouts whose chips hold exactly CHIP_BYTES pixels each. */
  predicate StandardChips(d: Detector) {
    d.Square() && d.PelWidth() * d.PelWidth() == CHIP_BYTES
  }

  /** Each non-zero pixel of the image stands for one non-zero byte difference. */
  lemma PixelsAreBytes(d: Detector, file: seq<Byte>, answers: seq<Answer>)
    requires StandardChips(d) && d.Rows() * d.Rows() <= LINEAR_BYTES
    ensures NonZero(DiffImage(d, file, answers, LINEAR_BYTES)) == |Below(d.Size(), k => DiffAt(file, answers, k) != 0)|
  {
    hide PelIndex, PelPixel, DiffAt;
    var l := d.Rows();
    SquareSide(d);
    var img := DiffImage(d, file, answers, LINEAR_BYTES);
    var bytes := Below(d.Size(), k => DiffAt(file, answers, k) != 0);
    var pixels := Below(|img|, p => 0 <= p < |img| && img[p] != 0);
    var f := (k: int) => if k >= 0 then Position(l, PelPixel(d, k)) else 0;
    var g := (p: int) => var q := At(l, p); if q.i >= 0 && q.j >= 0 then PelIndex(d, q.i, q.j) else 0;
    forall k <- bytes
      ensures f(k) in pixels && g(f(k)) == k
    {
      IndexOfPixel(d, k);
      AtPosition(l, PelPixel(d, k));
    }
    forall p <- pixels
      ensures g(p) in bytes && f(g(p)) == p
    {
      PositionAt(l, p);
      PixelOfIndex(d, At(l, p));
    }
    SameSize(bytes, pixels, f, g);
  }

  /** One chip: its differing bytes are its mismatches and its unanswered bytes. */
  lemma ChipBytes(file: seq<Byte>, answers: seq<Answer>, chip: nat)
    requires |file| >= (chip + 1) * CHIP_BYTES && chip < 4
    ensures |Below(CHIP_BYTES, i => DiffAt(file, answers, chip * CHIP_BYTES + i) != 0)|
         == Mismatches(file, answers, chip) + UnansweredBytes(file, answers, chip)
  {
    var all := Below(CHIP_BYTES, i => DiffAt(file, answers, chip * CHIP_BYTES + i) != 0);
    var a := Below(CHIP_BYTES, i => Differs(file, answers, chip, i));
    var b := Below(CHIP_BYTES, i => Unanswered(file, answers, chip, i));
    forall i | 0 <= i < CHIP_BYTES
      ensures i in all <==> i in a || i in b
    {
      DiffAtChip(file, answers, chip, i);
    }
    assert all == a + b && a !! b;
  }

  lemma DiffAtChip(file: seq<Byte>, answers: seq<Answer>, chip: nat, i: nat)
    requires |file| >= (chip + 1) * CHIP_BYTES && chip < 4 && i < CHIP_BYTES
    ensures DiffAt(file, answers, chip * CHIP_BYTES + i) != 0
       <==> Differs(file, answers, chip, i) || Unanswered(file, answers, chip, i)
  {
    hide Distance;
    var k := chip * CHIP_BYTES + i;
    assert k / CHIP_BYTES == chip && k % CHIP_BYTES == i;
    DistanceZero(ServalByte(file, answers, k), file[k]);
  }

  lemma DistanceZero(a: Byte, b: Byte)
    ensures Distance(a as int, b as int) == 0 <==> a == b
  {
    hide ByteOf;
    ByteOfNumber(a);
    ByteOfNumber(b);
  }

  function ByteOf(n: int): Byte
    requires 0 <= n < 256
  {
    n as Byte
  }

  lemma ByteOfNumber(a: Byte)
    ensures ByteOf(a as int) == a
  {
  }

  // The numbers of a chip as functions of the chip.

  function MismatchCounts(file: seq<Byte>, answers: seq<Answer>): int -> int {
    c => if c >= 0 then Mismatches(file, answers, c) else 0
  }

  function UnansweredCounts(file: seq<Byte>, answers: seq<Answer>): int -> int {
    c => if c >= 0 then UnansweredBytes(file, answers, c) else 0
  }

  /** The differing bytes of the first n chips. */
  lemma DifferingBytes(file: seq<Byte>, answers: seq<Answer>, n: nat)
    requires n <= 4 && |file| >= n * CHIP_BYTES
    ensures |Below(n * CHIP_BYTES, k => DiffAt(file, answers, k) != 0)|
         == Sum(n, MismatchCounts(file, answers)) + Sum(n, UnansweredCounts(file, answers))
  {
    hide DiffAt, Mismatches, UnansweredBytes, Below, Sum;
    var keep := k => DiffAt(file, answers, k) != 0;
    var f, g := MismatchCounts(file, answers), UnansweredCounts(file, answers);
    BelowBlocks(n, CHIP_BYTES, keep);
    forall c | 0 <= c < n
      ensures |Below(CHIP_BYTES, i => keep(c * CHIP_BYTES + i))| == f(c) + g(c)
    {
      ChipBytes(file, answers, c);
      BelowSame(CHIP_BYTES, i => keep(c * CHIP_BYTES + i), i => DiffAt(file, answers, c * CHIP_BYTES + i) != 0);
    }
    SumSame(n, b => |Below(CHIP_BYTES, i => keep(b * CHIP_BYTES + i))|, c => f(c) + g(c));
    SumAdd(n, f, g);
  }

  /** The image shows every mismatching byte once, plus the non-zero bytes of the
      file beyond a short answer. */
  lemma DiffImageConservation(d: Detector, file: seq<Byte>, answers: seq<Answer>)
    requires StandardChips(d) && |answers| == d.numChips && |file| >= d.Size()
    ensures NonZero(DiffImage(d, file, answers, LINEAR_BYTES))
         == Sum(d.numChips, MismatchCounts(file, answers)) + Sum(d.numChips, UnansweredCounts(file, answers))
  {
    hide DiffImage, DiffAt, MismatchCounts, UnansweredCounts, NonZero, Below, Sum;
    ImageFits(d);
    PixelsAreBytes(d, file, answers);
    DifferingBytes(file, answers, d.numChips);
    BelowSame(d.Size(), k => DiffAt(file, answers, k) != 0, k => DiffAt(file, answers, k) != 0);
  }

  lemma ImageFits(d: Detector)
    requires StandardChips(d)
    ensures d.Rows() * d.Rows() == d.Size() == d.numChips * CHIP_BYTES <= LINEAR_BYTES
  {
    SquareSide(d);
    var w := d.PelWidth();
    assert (2 * w) * (2 * w) == 4 * (w * w);
  }

  function TotalMismatches(file: seq<Byte>, answers: seq<Answer>): int {
    Sum(|answers|, MismatchCounts(file, answers))
  }

  /** No answer stops short of a non-zero byte of its chip's part of the file. */
  predicate Complete(file: seq<Byte>, answers: seq<Answer>) {
    forall c: nat | c < |answers| :: ChipComplete(file, answers, c)
  }

  predicate ChipComplete(file: seq<Byte>, answers: seq<Answer>, chip: nat) {
    forall i | 0 <= i < CHIP_BYTES :: !Unanswered(file, answers, chip, i)
  }

  /** The image and the per-chip counts agree exactly when the file holds only
      zeros where a chip's answer was too short; full answers always agree. */
  lemma ConservationExact(d: Detector, file: seq<Byte>, answers: seq<Answer>)
    requires StandardChips(d) && |answers| == d.numChips && |file| >= d.Size()
    ensures NonZero(DiffImage(d, file, answers, LINEAR_BYTES)) == TotalMismatches(file, answers)
       <==> Complete(file, answers)
    ensures (forall c | 0 <= c < d.numChips :: answers[c].Some? ==> |answers[c].value| >= CHIP_BYTES)
            ==> Complete(file, answers)
  {
    hide DiffImage, NonZero, Complete, Sum, MismatchCounts, UnansweredCounts;
    DiffImageConservation(d, file, answers);
    NoneMissing(file, answers);
    FullAnswers(file, answers);
  }

  lemma FullAnswers(file: seq<Byte>, answers: seq<Answer>)
    ensures (forall c | 0 <= c < |answers| :: answers[c].Some? ==> |answers[c].value| >= CHIP_BYTES)
            ==> Complete(file, answers)
  {
  }

  lemma NoneMissing(file: seq<Byte>, answers: seq<Answer>)
    ensures Sum(|answers|, UnansweredCounts(file, answers)) == 0 <==> Complete(file, answers)
  {
    hide UnansweredBytes, ChipComplete, Sum;
    var g := UnansweredCounts(file, answers);
    SumZero(|answers|, g);
    forall c: nat | c < |answers|
      ensures g(c) == 0 <==> ChipComplete(file, answers, c)
    {
      NoneUnanswered(file, answers, c);
    }
  }

  lemma NoneUnanswered(file: seq<Byte>, answers: seq<Answer>, chip: nat)
    ensures UnansweredBytes(file, answers, chip) == 0 <==> ChipComplete(file, answers, chip)
  {
    var s := Below(CHIP_BYTES, i => Unanswered(file, answers, chip, i));
    if |s| == 0 {
      forall i | 0 <= i < CHIP_BYTES
        ensures !Unanswered(file, answers, chip, i)
      {
        assert i !in s;
      }
    } else {
      var i :| i in s;
    }
  }

  // ----- exporting the masked pixels

  datatype MaskedPel = MaskedPel(bpcIndex: nat, value: Byte, chip: int, lx: int, ly: int, pixel: Point)

  /** The list for the first n bytes of the file; unmapped indices are skipped. */
  function ExportList(d: Detector, file: seq<Byte>, n: nat): seq<MaskedPel>
    requires d.Valid() && n <= |file|
  {
    if n == 0 then []
    else ExportList(d, file, n - 1) +
         if Masked(file[n - 1]) && Bpc2ImgIndex(d, n - 1) >= 0 && d.Cols() > 0
         then [ExportEntry(d, file, n - 1)] else []
  }

  function ExportEntry(d: Detector, file: seq<Byte>, k: nat): (e: MaskedPel)
    requires d.Valid() && k < |file| && d.Cols() > 0
    ensures e.bpcIndex == k
  {
    var w := d.PelWidth();
    var local := k - k / (w * w) * (w * w);
    MaskedPel(k, file[k], k / (w * w), local % w, local / w,
              Point(Bpc2ImgIndex(d, k) % d.Cols(), Bpc2ImgIndex(d, k) / d.Cols()))
  }

  /** A row of the exported list, numbered from 1. */
  datatype Row = Row(index: nat, pel: MaskedPel)

  /** The rows, the separate list of bad pixels, and how many bytes were skipped. */
  method ExportMaskedPels(d: Detector, file: seq<Byte>) returns (rows: seq<Row>, bad: seq<Point>, skipped: nat)
    requires d.Valid()
    ensures |rows| == |bad| == |ExportList(d, file, |file|)|
    ensures forall i | 0 <= i < |rows| ::
              rows[i] == Row(i + 1, ExportList(d, file, |file|)[i]) && bad[i] == ExportList(d, file, |file|)[i].pixel
    ensures |rows| + skipped == MaskedCount(file)
  {
    hide Bpc2ImgIndex;
    ghost var keep := k => 0 <= k < |file| && Masked(file[k]);
    assert Below(0, keep) == {};
    var w, cols := d.PelWidth(), d.Cols();
    rows, bad, skipped := [], [], 0;
    ghost var list := [];
    for pos := 0 to |file|
      invariant list == ExportList(d, file, pos) && |rows| == |bad| == |list|
      invariant forall i | 0 <= i < |list| :: rows[i] == Row(i + 1, list[i]) && bad[i] == list[i].pixel
      invariant |rows| + skipped == |Below(pos, keep)|
    {
      BelowStep(pos, keep);
      if file[pos] & 1 != 0 {
        var imgIdx := Bpc2ImgIndex(d, pos);
        if imgIdx < 0 || cols <= 0 {
          skipped := skipped + 1;
        } else {
          var chip := pos / (w * w);
          var local := pos - chip * (w * w);
          var pel := MaskedPel(pos, file[pos], chip, local % w, local / w, Point(imgIdx % cols, imgIdx / cols));
          rows := rows + [Row(|rows| + 1, pel)];
          bad := bad + [pel.pixel];
          list := list + [pel];
        }
      }
    }
  }

  /** The pixel exported for byte k is the one that shows it, turned upside down in
      the flipped tile of quad LEFT. */
  lemma ExportedPixel(d: Detector, file: seq<Byte>, k: nat)
    requires d.Square() && k < d.Size() <= |file|
    ensures d.Cols() > 0 && Bpc2ImgIndex(d, k) >= 0
    ensures ExportEntry(d, file, k).pixel == FlipLeft(d, PelPixel(d, k))
  {
    hide Bpc2ImgIndex, PelPixel, FlipLeft;
    SquareSide(d);
    ReverseMap(d, k);
    LinearAt(d.Cols(), FlipLeft(d, PelPixel(d, k)));
  }

  lemma LinearAt(l: int, q: Point)
    requires InSquare(l, q)
    ensures 0 <= q.i + l * q.j && At(l, q.i + l * q.j) == q
  {
    AtPosition(l, q);
  }

  /** The chip and the place on it recorded for byte k. */
  lemma ExportedPlace(d: Detector, file: seq<Byte>, k: nat)
    requires d.Valid() && k < |file| && d.Cols() > 0
    ensures var e := ExportEntry(d, file, k);
            Pel(e.chip, e.lx, e.ly) == Unflat(d.PelWidth(), k) && e.value == file[k] && e.bpcIndex == k
  {
    hide Bpc2ImgIndex;
    var c := d.PelWidth() * d.PelWidth();
    assert k / c * c + k % c == k;
  }

  /** No byte of a full file is skipped: the list has one entry for each masked byte. */
  lemma {:induction false} ExportComplete(d: Detector, file: seq<Byte>, n: nat)
    requires d.Square() && |file| == d.Size() && n <= |file|
    ensures |ExportList(d, file, n)| == |Below(n, k => 0 <= k < |file| && Masked(file[k]))|
  {
    hide Bpc2ImgIndex, ExportEntry, Masked;
    var keep := k => 0 <= k < |file| && Masked(file[k]);
    if n == 0 {
      assert Below(0, keep) == {};
    } else {
      ExportComplete(d, file, n - 1);
      MappedByte(d, n - 1);
      BelowStep(n - 1, keep);
      assert Below(n - 1, keep) == Below(n - 1, k => 0 <= k < |file| && Masked(file[k]));
      assert Below(n, keep) == Below(n, k => 0 <= k < |file| && Masked(file[k]));
    }
  }

  lemma MappedByte(d: Detector, k: nat)
    requires d.Square() && k < d.Size()
    ensures d.Cols() > 0 && Bpc2ImgIndex(d, k) >= 0
  {
    hide Bpc2ImgIndex, PelPixel, FlipLeft;
    SquareSide(d);
    ReverseMap(d, k);
  }

  /** The entries are those of the masked bytes and no others. */
  lemma {:induction false} ExportMembers(d: Detector, file: seq<Byte>, n: nat)
    requires d.Square() && |file| == d.Size() && n <= |file|
    ensures forall e | e in ExportList(d, file, n) ::
              e.bpcIndex < n && Masked(file[e.bpcIndex]) && e == ExportEntry(d, file, e.bpcIndex)
    ensures forall k: nat | k < n && Masked(file[k]) :: ExportEntry(d, file, k) in ExportList(d, file, n)
  {
    hide Bpc2ImgIndex, ExportEntry, Masked;
    if n == 0 {
    } else {
      ExportMembers(d, file, n - 1);
      MappedByte(d, n - 1);
    }
  }

  lemma {:induction false} ExportAscending(d: Detector, file: seq<Byte>, n: nat)
    requires d.Valid() && n <= |file|
    ensures forall e | e in ExportList(d, file, n) :: e.bpcIndex < n
    ensures forall a, b | 0 <= a < b < |ExportList(d, file, n)| ::
              ExportList(d, file, n)[a].bpcIndex < ExportList(d, file, n)[b].bpcIndex
  {
    hide Bpc2ImgIndex, ExportEntry, Masked;
    if n == 0 {
    } else {
      ExportAscending(d, file, n - 1);
    }
  }

  /** Flipping the tile twice restores it, so no two bytes share a pixel. */
  lemma ExportedPixelsDistinct(d: Detector, k: nat, m: nat)
    requires d.Square() && k < d.Size() && m < d.Size()
    requires FlipLeft(d, PelPixel(d, k)) == FlipLeft(d, PelPixel(d, m))
    ensures k == m
  {
    hide PelPixel, PelIndex;
    IndexOfPixel(d, k);
    IndexOfPixel(d, m);
  }

  /** A full file is exported without omission or repetition, in every layout. */
  lemma ExportDistinct(d: Detector, file: seq<Byte>)
    requires d.Square() && |file| == d.Size()
    ensures |ExportList(d, file, |file|)| == MaskedCount(file)
    ensures forall a, b | 0 <= a < b < |ExportList(d, file, |file|)| ::
              ExportList(d, file, |file|)[a].pixel != ExportList(d, file, |file|)[b].pixel
  {
    hide ExportList, ExportEntry, PelPixel, FlipLeft;
    var list := ExportList(d, file, |file|);
    ExportComplete(d, file, |file|);
    ExportMembers(d, file, |file|);
    ExportAscending(d, file, |file|);
    forall a, b | 0 <= a < b < |list|
      ensures list[a].pixel != list[b].pixel
    {
      var k, m := list[a].bpcIndex, list[b].bpcIndex;
      assert list[a] in list && list[b] in list;
      ExportedPixel(d, file, k);
      ExportedPixel(d, file, m);
      if list[a].pixel == list[b].pixel {
        ExportedPixelsDistinct(d, k, m);
      }
    }
  }

  /** The pixels a list names. */
  function Pixels(list: seq<MaskedPel>): set<Point> {
    set e | e in list :: e.pixel
  }

  /** The pixels that loading the file shows as masked. */
  ghost predicate AgreesWithLoad(d: Detector, file: seq<Byte>)
    requires d.Square()
  {
    forall q | d.InImage(q) :: q in Pixels(ExportList(d, file, |file|)) <==> FileMasks(d, file, q)
  }

  /** A pixel is exported exactly when the byte shown at its flipped place is masked. */
  lemma ExportedWhere(d: Detector, file: seq<Byte>, q: Point)
    requires d.Square() && |file| == d.Size() && d.InImage(q)
    ensures q in Pixels(ExportList(d, file, |file|)) <==> FileMasks(d, file, FlipLeft(d, q))
  {
    hide ExportList, ExportEntry, PelPixel, PelIndex, Masked;
    var list := ExportList(d, file, |file|);
    ExportMembers(d, file, |file|);
    var r := FlipLeft(d, q);
    SquareSide(d);
    PixelOfIndex(d, r);
    var k := PelIndex(d, r.i, r.j);
    ExportedPixel(d, file, k);
    if q in Pixels(list) {
      var e :| e in list && e.pixel == q;
      ExportedPixel(d, file, e.bpcIndex);
      IndexOfPixel(d, e.bpcIndex);
    }
    if Masked(file[k]) {
      assert ExportEntry(d, file, k) in list;
    }
  }

  /** Load shows every pixel as it shows the pixel at its flipped place. */
  ghost predicate FlipSame(d: Detector, file: seq<Byte>)
    requires d.Valid()
  {
    forall q | d.InImage(q) :: FileMasks(d, file, q) == FileMasks(d, file, FlipLeft(d, q))
  }

  lemma AgreesIsFlipSame(d: Detector, file: seq<Byte>)
    requires d.Square() && |file| == d.Size()
    ensures AgreesWithLoad(d, file) <==> FlipSame(d, file)
  {
    hide FileMasks, Pixels, ExportList, FlipLeft;
    forall q | d.InImage(q)
      ensures q in Pixels(ExportList(d, file, |file|)) <==> FileMasks(d, file, FlipLeft(d, q))
    {
      ExportedWhere(d, file, q);
    }
  }

  lemma FlipSameIsMirrored(d: Detector, file: seq<Byte>)
    requires d.Square() && d.QuadLeft()
    ensures FlipSame(d, file) <==> ChipZeroMirrored(d, file)
  {
    hide FileMasks, MaskedPlace;
    var w := d.PelWidth();
    SquareSide(d);
    if ChipZeroMirrored(d, file) {
      forall q | d.InImage(q)
        ensures FileMasks(d, file, q) == FileMasks(d, file, FlipLeft(d, q))
      {
        if q.i >= w && q.j < w {
          FlippedTile(d, file, q);
          assert MaskedPlace(d, file, q.j, 2 * w - 1 - q.i) == MaskedPlace(d, file, w - 1 - q.j, 2 * w - 1 - q.i);
        }
      }
    }
    if FlipSame(d, file) {
      forall lx, ly | 0 <= lx < w && 0 <= ly < w
        ensures MaskedPlace(d, file, lx, ly) == MaskedPlace(d, file, w - 1 - lx, ly)
      {
        var q := Point(2 * w - 1 - ly, w - 1 - lx);
        assert d.InImage(q);
        FlippedTile(d, file, q);
      }
    }
  }

  /** Export and load agree in every layout but quad LEFT, and there exactly when
      chip 0's part of the file reads the same with its columns reversed. */
  lemma ExportAgreesWithLoad(d: Detector, file: seq<Byte>)
    requires d.Square() && |file| == d.Size()
    ensures AgreesWithLoad(d, file) <==> (d.QuadLeft() ==> ChipZeroMirrored(d, file))
  {
    hide AgreesWithLoad, ChipZeroMirrored, FileMasks;
    AgreesIsFlipSame(d, file);
    if d.QuadLeft() {
      hide FlipSame;
      FlipSameIsMirrored(d, file);
    }
  }

  predicate MaskedPlace(d: Detector, file: seq<Byte>, lx: int, ly: int)
    requires d.Valid()
  {
    0 <= ly * d.PelWidth() + lx < |file| && Masked(file[ly * d.PelWidth() + lx])
  }

  predicate ChipZeroMirrored(d: Detector, file: seq<Byte>)
    requires d.Valid()
  {
    forall lx, ly | 0 <= lx < d.PelWidth() && 0 <= ly < d.PelWidth() ::
      MaskedPlace(d, file, lx, ly) == MaskedPlace(d, file, d.PelWidth() - 1 - lx, ly)
  }

  /** In quad LEFT, pixel (i, j) of the flipped tile shows column w-1-j of row 2w-1-i. */
  lemma FlippedTile(d: Detector, file: seq<Byte>, q: Point)
    requires d.Square() && d.QuadLeft() && d.InImage(q) && q.i >= d.PelWidth() && q.j < d.PelWidth()
    ensures var w := d.PelWidth();
            && FlipLeft(d, q) == Point(q.i, w - 1 - q.j)
            && FileMasks(d, file, q) == MaskedPlace(d, file, w - 1 - q.j, 2 * w - 1 - q.i)
            && FileMasks(d, file, FlipLeft(d, q)) == MaskedPlace(d, file, q.j, 2 * w - 1 - q.i)
  {
    hide PelIndex;
    SquareSide(d);
    IndexIsFlat(d, q);
    IndexIsFlat(d, FlipLeft(d, q));
  }

  // ----- inputs at which the promises fail

  /** A quad in orientation LEFT with chips of 2 x 2 pixels and one masked byte: load and
      export mark different pixels. */
  lemma QuadLeftDisagrees()
    ensures var d := Detector(4, 2, 4, 3);
            var file := seq(16, (k: nat) => if k == 0 then 1 else 0);
            d.Square() && |file| == d.Size() && !AgreesWithLoad(d, file)
  {
    hide AgreesWithLoad;
    var d := Detector(4, 2, 4, 3);
    var file: seq<Byte> := seq(16, (k: nat) => if k == 0 then 1 else 0);
    assert MaskedPlace(d, file, 0, 0) && !MaskedPlace(d, file, 1, 0);
    ExportAgreesWithLoad(d, file);
  }

  /** A chip that answers with nothing while the file holds ones: the image is non-zero
      but no mismatch is counted. */
  lemma ShortAnswerShows()
    ensures var d := Detector(1, 1, 256, 0);
            var file := seq(CHIP_BYTES, (k: nat) => 1);
            && StandardChips(d)
            && NonZero(DiffImage(d, file, [Some([])], LINEAR_BYTES)) != TotalMismatches(file, [Some([])])
  {
    hide DiffImage, NonZero, TotalMismatches;
    var d := Detector(1, 1, 256, 0);
    var file: seq<Byte> := seq(CHIP_BYTES, (k: nat) => 1);
    assert Unanswered(file, [Some([])], 0, 0) && !ChipComplete(file, [Some([])], 0);
    ConservationExact(d, file, [Some([])]);
  }
}
