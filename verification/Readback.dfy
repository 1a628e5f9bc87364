/** Reading the pixel configuration back from the chips: the replies are decoded and
    compared with the BPC file, every chip gets a status text, and the masked pixels of
    the file are exported. */
module Readback {
  import opened Wrappers
  import opened MaskIO
  import opened PixelMap
  import opened Counting
  import opened PixelConfig
  import opened Symmetry
  import Base64
  import Decimal

  // ----- replies

  datatype Content = Unparsed(what: string) | NoString | Text(text: seq<Base64.Octet>)

  /** A server's reply: its HTTP status and what its text holds as JSON. */
  datatype Reply = Reply(http: int, content: Content)

  function FromOctets(s: seq<Base64.Octet>): (b: seq<Byte>)
    ensures |b| == |s|
  {
    seq(|s|, i requires 0 <= i < |s| => s[i] as Byte)
  }

  function ToOctets(b: seq<Byte>): (s: seq<Base64.Octet>)
    ensures |s| == |b|
  {
    seq(|b|, i requires 0 <= i < |b| => b[i] as Base64.Octet)
  }

  lemma OctetsReturn(b: seq<Byte>)
    ensures FromOctets(ToOctets(b)) == b
  {
  }

  predicate Answered(r: Reply) {
    r.http == 200 && r.content.Text? && Base64.Accepts(r.content.text)
  }

  function AnswerOf(r: Reply): Answer {
    if Answered(r) then Some(FromOctets(Base64.Emitted(Base64.Digits(Base64.Body(r.content.text))))) else None
  }

  function AnswersOf(replies: seq<Reply>): (answers: seq<Answer>)
    ensures |answers| == |replies|
  {
    seq(|replies|, c requires 0 <= c < |replies| => AnswerOf(replies[c]))
  }

  method DecodeReply(r: Reply) returns (answer: Answer)
    ensures answer == AnswerOf(r)
  {
    if r.http != 200 || !r.content.Text? {
      return None;
    }
    var ok, octets := Base64.Decode(r.content.text);
    answer := if ok then Some(FromOctets(octets)) else None;
  }

  /** The reply carries a configuration: its text without whitespace is the encoding. */
  predicate Carries(r: Reply, config: seq<Byte>) {
    r.http == 200 && r.content.Text? && Base64.Strip(r.content.text) == Base64.Encode(ToOctets(config))
  }

  /** Whatever configuration a reply carries is the one that is compared. */
  lemma CarriedAnswer(r: Reply, config: seq<Byte>)
    requires Carries(r, config)
    ensures AnswerOf(r) == Some(config)
  {
    Base64.RoundTrip(ToOctets(config), r.content.text);
    OctetsReturn(config);
  }

  // ----- status texts

  const MATCH_TEXT := "OK, matches BPC"
  const NO_FILE_TEXT := "OK, no BPC file"

  function PrintSigned(n: int): string {
    if n < 0 then "-" + Decimal.Print(-n) else Decimal.Print(n)
  }

  /** The printed status reads back as the number it was printed from. */
  lemma SignedRoundTrip(n: int)
    requires -0x8000_0000 <= n <= 0x7FFF_FFFF
    ensures Decimal.ParseInt(PrintSigned(n)) == Some(n)
  {
    hide Decimal.Print, Decimal.ParseInt, Decimal.Value;
    var k: nat := if n < 0 then -n else n;
    Decimal.ValueOfPrint(k);
    var sign := if n < 0 then "-" else "";
    Decimal.ParseIntExact("", sign, Decimal.Print(k), "");
    assert "" + sign + Decimal.Print(k) + "" == PrintSigned(n);
  }

  function Cut(s: string, n: nat): (r: string)
    ensures r <= s && |r| == if |s| <= n then |s| else n
  {
    if |s| <= n then s else s[..n]
  }

  function FailureText(r: Reply): string {
    if r.http != 200 then "HTTP " + PrintSigned(r.http)
    else match r.content
         case Unparsed(what) => "Parse error: " + Cut(what, 200)
         case NoString => "JSON is not a string"
         case Text(_) => "Base64 decode failed"
  }

  function LengthText(file: seq<Byte>, chip: nat, length: nat): string {
    if chip * CHIP_BYTES >= |file| then
      "BPC too small for chip (need offset " + Decimal.Print(chip * CHIP_BYTES) +
      ", have " + Decimal.Print(|file|) + ")"
    else
      "Length mismatch (decoded " + Decimal.Print(length) + ", chip file " + Decimal.Print(FileSlice(file, chip)) + ")"
  }

  function MismatchText(n: nat): string {
    "Mismatch " + Decimal.Print(n) + " bytes"
  }

  /** The text that goes with a report. */
  function StatusOf(file: seq<Byte>, replies: seq<Reply>, chip: nat): string
    requires chip < |replies|
  {
    var report := ReportOf(file, AnswersOf(replies), chip);
    if report.code == NO_ANSWER then FailureText(replies[chip])
    else if report.code == NO_FILE then NO_FILE_TEXT
    else if report.code == DIFFERS then MismatchText(report.mismatch)
    else if report.code == MATCHES then MATCH_TEXT
    else LengthText(file, chip, report.length)
  }

  /** The texts as the driver chooses them, branch by branch. */
  method ReportStatus(file: seq<Byte>, replies: seq<Reply>, chip: nat, report: Report) returns (status: string)
    requires chip < |replies| && report == ReportOf(file, AnswersOf(replies), chip)
    ensures status == StatusOf(file, replies, chip)
  {
    hide Mismatches, Decimal.Print, Base64.Accepts, Base64.Emitted, FromOctets, PrintSigned, Cut;
    var r := replies[chip];
    if r.http != 200 {
      return "HTTP " + PrintSigned(r.http);
    }
    match r.content {
      case Unparsed(what) => return "Parse error: " + Cut(what, 200);
      case NoString => return "JSON is not a string";
      case Text(_) =>
    }
    if report.code == NO_ANSWER {
      return "Base64 decode failed";
    }
    if |file| == 0 {
      return NO_FILE_TEXT;
    }
    var offset := chip * CHIP_BYTES;
    if offset >= |file| {
      NotCompared(file, AnswersOf(replies), chip);
      return "BPC too small for chip (need offset " + Decimal.Print(offset) + ", have " + Decimal.Print(|file|) + ")";
    }
    if report.mismatch > 0 {
      return MismatchText(report.mismatch);
    }
    var slice := FileSlice(file, chip);
    if report.length != slice {
      return "Length mismatch (decoded " + Decimal.Print(report.length) + ", chip file " + Decimal.Print(slice) + ")";
    }
    return MATCH_TEXT;
  }

  method ReportStatuses(file: seq<Byte>, replies: seq<Reply>, reports: seq<Report>) returns (statuses: seq<string>)
    requires |reports| == |replies|
    requires forall c | 0 <= c < |replies| :: reports[c] == ReportOf(file, AnswersOf(replies), c)
    ensures |statuses| == |replies|
    ensures forall c | 0 <= c < |replies| :: statuses[c] == StatusOf(file, replies, c)
  {
    hide ReportOf, StatusOf, AnswersOf;
    statuses := [];
    for c := 0 to |replies|
      invariant |statuses| == c
      invariant forall k | 0 <= k < c :: statuses[k] == StatusOf(file, replies, k)
    {
      var status := ReportStatus(file, replies, c, reports[c]);
      statuses := statuses + [status];
    }
  }

  /** The texts of a match and of a missing file stand for these outcomes alone. */
  lemma StatusExact(file: seq<Byte>, replies: seq<Reply>, chip: nat)
    requires chip < |replies|
    ensures var status, answers := StatusOf(file, replies, chip), AnswersOf(replies);
            var offset, slice := chip * CHIP_BYTES, FileSlice(file, chip);
            && (status == MATCH_TEXT <==>
                  answers[chip].Some? && offset < |file| && answers[chip].value == file[offset..offset + slice])
            && (status == NO_FILE_TEXT <==> answers[chip].Some? && file == [])
  {
    hide ReportOf, AnswerOf, Decimal.Print, PrintSigned, Cut, FileSlice;
    var answers := AnswersOf(replies);
    CodeExact(file, answers, chip);
    CodeRange(file, answers, chip);
    var code := ReportOf(file, answers, chip).code;
    var status := StatusOf(file, replies, chip);
    if code != MATCHES && code != NO_FILE {
      assert status[0] != 'O';
    }
    assert MATCH_TEXT[4] != NO_FILE_TEXT[4];
  }

  /** What the text says about a reply that brings no configuration. */
  lemma FailureSays(file: seq<Byte>, replies: seq<Reply>, chip: nat)
    requires chip < |replies|
    requires var r := replies[chip]; r.http == 200 && r.content.Text? ==> !Base64.Accepts(r.content.text)
    ensures AnswerOf(replies[chip]).None?
    ensures var status, r := StatusOf(file, replies, chip), replies[chip];
            if r.http != 200 then status == "HTTP " + PrintSigned(r.http)
            else match r.content
                 case Unparsed(what) => status == "Parse error: " + Cut(what, 200)
                 case NoString => status == "JSON is not a string"
                 case Text(_) => status == "Base64 decode failed"
  {
    hide Base64.Accepts, PrintSigned, Cut;
  }

  /** Some byte of the answer differs from the file within a slice. */
  predicate Different(file: seq<Byte>, answer: seq<Byte>, offset: nat, slice: nat)
    requires slice > 0 ==> offset + slice <= |file|
  {
    exists i :: 0 <= i < |answer| && i < slice && answer[i] != file[offset + i]
  }

  /** The bytes of the file that belong to a chip. */
  function SliceAt(file: seq<Byte>, offset: nat): (slice: nat)
    ensures slice > 0 ==> offset + slice <= |file|
  {
    if offset >= |file| then 0 else if |file| - offset < 65536 then |file| - offset else 65536
  }

  lemma CodeByBytes(file: seq<Byte>, answers: seq<Answer>, chip: nat)
    requires chip < |answers| && answers[chip].Some?
    ensures FileSlice(file, chip) == SliceAt(file, chip * 65536)
    ensures var answer, offset := answers[chip].value, chip * 65536;
            var slice := SliceAt(file, offset);
            ReportOf(file, answers, chip).code ==
              if file == [] then NO_FILE
              else if slice == 0 then OTHER_LENGTH
              else if Different(file, answer, offset, slice) then DIFFERS
              else if |answer| != slice then OTHER_LENGTH
              else MATCHES
  {
    hide ReportOf;
    CodeExact(file, answers, chip);
    var answer, offset := answers[chip].value, chip * 65536;
    assert forall i :: Differs(file, answers, chip, i) <==>
        0 <= i < |answer| && i < FileSlice(file, chip) && answer[i] != file[offset + i];
  }

  /** What it says about a configuration, by its length and the bytes that differ. */
  lemma ComparisonSays(file: seq<Byte>, replies: seq<Reply>, chip: nat)
    requires chip < |replies| && replies[chip].http == 200 && replies[chip].content.Text?
    requires Base64.Accepts(replies[chip].content.text)
    ensures var status, report := StatusOf(file, replies, chip), ReportOf(file, AnswersOf(replies), chip);
            var answer, offset := AnswerOf(replies[chip]).value, chip * 65536;
            var slice := SliceAt(file, offset);
            && report.length == |answer|
            && status ==
                 if file == [] then "OK, no BPC file"
                 else if slice == 0 then
                   "BPC too small for chip (need offset " + Decimal.Print(offset) +
                   ", have " + Decimal.Print(|file|) + ")"
                 else if Different(file, answer, offset, slice) then
                   "Mismatch " + Decimal.Print(report.mismatch) + " bytes"
                 else if |answer| != slice then
                   "Length mismatch (decoded " + Decimal.Print(|answer|) + ", chip file " + Decimal.Print(slice) + ")"
                 else "OK, matches BPC"
  {
    hide ReportOf, Decimal.Print, Base64.Accepts, Different, Base64.Emitted, Base64.Digits, Base64.Body, FromOctets;
    var answers := AnswersOf(replies);
    CodeByBytes(file, answers, chip);
    CodeExact(file, answers, chip);
    assert answers[chip] == AnswerOf(replies[chip]);
  }

  lemma CodeRange(file: seq<Byte>, answers: seq<Answer>, chip: nat)
    requires chip < |answers|
    ensures ReportOf(file, answers, chip).code in {NO_ANSWER, DIFFERS, MATCHES, NO_FILE, OTHER_LENGTH}
  {
  }

  /** A number between two texts can be read back. */
  lemma NumberReadable(head: string, n: nat, tail: string)
    requires tail != "" ==> !Decimal.IsDigit(tail[0])
    ensures var text := head + Decimal.Print(n) + tail;
            |head| <= |text| && Decimal.Value(Decimal.Leading(text[|head|..])) == n
  {
    hide Decimal.Print, Decimal.Leading, Decimal.Value;
    Decimal.ValueOfPrint(n);
    assert (head + Decimal.Print(n) + tail)[|head|..] == Decimal.Print(n) + tail;
    Decimal.LeadingRest(Decimal.Print(n), tail);
  }

  /** The number of differing bytes can be read back from the text. */
  lemma MismatchReadable(n: nat)
    ensures var text := MismatchText(n);
            var digits := Decimal.Leading(text[9..]);
            text[..9] == "Mismatch " && Decimal.Value(digits) == n && text[9 + |digits|..] == " bytes"
  {
    hide Decimal.Print, Decimal.Leading, Decimal.Value;
    Decimal.ValueOfPrint(n);
    assert MismatchText(n)[9..] == Decimal.Print(n) + " bytes";
    Decimal.LeadingStops(Decimal.Print(n), " bytes");
  }

  // ----- the file and the configurations of all chips

  function Joined(configs: seq<seq<Byte>>): seq<Byte> {
    if configs == [] then [] else Joined(configs[..|configs| - 1]) + configs[|configs| - 1]
  }

  predicate InFile(file: seq<Byte>, config: seq<Byte>, chip: nat) {
    chip * CHIP_BYTES + |config| <= |file| &&
    config == file[chip * CHIP_BYTES..chip * CHIP_BYTES + |config|]
  }

  lemma {:induction false} JoinedSlices(file: seq<Byte>, configs: seq<seq<Byte>>)
    requires forall c | 0 <= c < |configs| :: |configs[c]| == CHIP_BYTES
    requires |file| == |configs| * CHIP_BYTES
    ensures file == Joined(configs) <==> forall c | 0 <= c < |configs| :: InFile(file, configs[c], c)
  {
    hide InFile;
    if configs == [] {
    } else {
      var n := |configs| - 1;
      var front := file[..n * CHIP_BYTES];
      JoinedSlices(front, configs[..n]);
      JoinedLength(configs[..n]);
      assert file == front + file[n * CHIP_BYTES..];
      LastSlice(file, configs[n], n);
      forall c | 0 <= c < n
        ensures InFile(file, configs[c], c) <==> InFile(front, configs[..n][c], c)
      {
        FrontSlice(file, configs[c], c, n);
      }
    }
  }

  lemma FrontSlice(file: seq<Byte>, config: seq<Byte>, chip: nat, n: nat)
    requires chip < n && |config| == CHIP_BYTES && n * CHIP_BYTES <= |file|
    ensures InFile(file, config, chip) <==> InFile(file[..n * CHIP_BYTES], config, chip)
  {
    var a, e := chip * CHIP_BYTES, chip * CHIP_BYTES + CHIP_BYTES;
    assert file[..n * CHIP_BYTES][a..e] == file[a..e];
  }

  lemma LastSlice(file: seq<Byte>, config: seq<Byte>, n: nat)
    requires |config| == CHIP_BYTES && |file| == n * CHIP_BYTES + CHIP_BYTES
    ensures InFile(file, config, n) <==> config == file[n * CHIP_BYTES..]
  {
    assert file[n * CHIP_BYTES..n * CHIP_BYTES + CHIP_BYTES] == file[n * CHIP_BYTES..];
  }

  lemma {:induction false} JoinedLength(configs: seq<seq<Byte>>)
    requires forall c | 0 <= c < |configs| :: |configs[c]| == CHIP_BYTES
    ensures |Joined(configs)| == |configs| * CHIP_BYTES
  {
    if configs != [] {
      JoinedLength(configs[..|configs| - 1]);
    }
  }

  /** When every chip's reply carries its whole configuration, however its text is
      spaced, all chips report a match exactly when the file is the configurations one
      after the other, and exactly then the difference image is blank. */
  lemma FileRecognised(d: Detector, file: seq<Byte>, replies: seq<Reply>, configs: seq<seq<Byte>>)
    requires StandardChips(d) && |file| == d.Size() && |replies| == |configs| == d.numChips
    requires forall c | 0 <= c < |configs| :: Carries(replies[c], configs[c]) && |configs[c]| == CHIP_BYTES
    ensures (forall c | 0 <= c < |replies| :: StatusOf(file, replies, c) == MATCH_TEXT) <==> file == Joined(configs)
    ensures NonZero(DiffImage(d, file, AnswersOf(replies), LINEAR_BYTES)) == 0 <==> file == Joined(configs)
  {
    hide StatusOf, Carries, AnswerOf, DiffImage, NonZero, Mismatches, Sum;
    var answers, n := AnswersOf(replies), d.numChips;
    ImageFits(d);
    JoinedSlices(file, configs);
    forall c | 0 <= c < n
      ensures answers[c] == Some(configs[c])
      ensures StatusOf(file, replies, c) == MATCH_TEXT <==> InFile(file, configs[c], c)
      ensures MismatchCounts(file, answers)(c) == 0 <==> InFile(file, configs[c], c)
    {
      CarriedAnswer(replies[c], configs[c]);
      StatusExact(file, replies, c);
      CodeExact(file, answers, c);
    }
    ConservationExact(d, file, answers);
    SumZero(n, MismatchCounts(file, answers));
  }

  // ----- exporting the masked pixels of the file

  /** What is written: the rows and the bad pixels. */
  datatype Exported = Exported(rows: seq<Row>, bad: seq<Point>)

  function Lower(c: char): char {
    if 'A' <= c <= 'Z' then c + 32 as char else c
  }

  /** The file name without a trailing .bpc in any case. */
  function StripExtension(name: string): string {
    var n := |name| - 4;
    if n >= 0 && name[n] == '.' && Lower(name[n + 1]) == 'b' && Lower(name[n + 2]) == 'p' && Lower(name[n + 3]) == 'c'
    then name[..n] else name
  }

  function ExportPath(folder: string, name: string): string {
    folder + StripExtension(name) + "_masked_pels.json"
  }

  /** A name without a suffix .bpc, in whatever case, is kept, and only one suffix is taken. */
  lemma StripExact(base: string, suffix: string)
    ensures |suffix| == 4 && suffix[0] == '.' && suffix[1] in "bB" && suffix[2] in "pP" && suffix[3] in "cC" ==>
              StripExtension(base + suffix) == base
              && forall folder :: ExportPath(folder, base + suffix) == folder + base + "_masked_pels.json"
    ensures StripExtension(base) != base ==>
              |base| >= 4 && StripExtension(base) == base[..|base| - 4] && base[|base| - 4] == '.'
              && base[|base| - 3] in "bB" && base[|base| - 2] in "pP" && base[|base| - 1] in "cC"
  {
    assert (base + suffix)[..|base|] == base;
  }

  function ExportedOf(d: Detector, file: seq<Byte>): Exported
    requires d.Valid()
  {
    var list := ExportList(d, file, |file|);
    Exported(seq(|list|, i requires 0 <= i < |list| => Row(i + 1, list[i])),
             seq(|list|, i requires 0 <= i < |list| => list[i].pixel))
  }

  function ExportText(written: nat, skipped: nat): string {
    if skipped > 0 then "OK: " + Decimal.Print(written) + " masked pels, " + Decimal.Print(skipped) + " index unmapped"
    else "OK: wrote " + Decimal.Print(written) + " masked pels"
  }

  /** The published path, number and text, and the files on disk, after an export;
      nothing is written without a file name or when the target cannot be opened. */
  ghost predicate ExportDone(d: Detector, file: seq<Byte>, folder: string, name: string, opens: bool,
                             was: map<string, Exported>, path: string, count: int, text: string,
                             now: map<string, Exported>)
    requires d.Valid()
  {
    if name != "" && opens then
      && path == ExportPath(folder, name) && now == was[path := ExportedOf(d, file)]
      && count == |ExportList(d, file, |file|)| <= MaskedCount(file)
      && text == ExportText(count, MaskedCount(file) - count)
    else
      && path == "" && count == 0 && now == was
      && text == if name == "" then "Skipped: BPCFileName empty"
                 else Cut("Write failed: " + ExportPath(folder, name), 255)
  }

  /** The number written can be read back from the text, and the number skipped too. */
  lemma ExportReadable(written: nat, skipped: nat)
    ensures "OK: wrote " <= ExportText(written, 0)
    ensures Decimal.Value(Decimal.Leading(ExportText(written, 0)[10..])) == written
    ensures skipped > 0 ==> ReadsTwo(ExportText(written, skipped), "OK: ", written, " masked pels, ", skipped)
  {
    hide Decimal.Print, Decimal.Value, Decimal.Leading, ReadsTwo;
    NumberReadable("OK: wrote ", written, " masked pels");
    if skipped > 0 {
      TwoReadable("OK: ", written, " masked pels, ", skipped, " index unmapped");
    }
  }

  /** After `head` the text has the first number, and after that and `middle` the second. */
  ghost predicate ReadsTwo(text: string, head: string, first: nat, middle: string, second: nat) {
    var n := |head| + |Decimal.Print(first)| + |middle|;
    && head <= text && Decimal.Value(Decimal.Leading(text[|head|..])) == first
    && n <= |text| && Decimal.Value(Decimal.Leading(text[n..])) == second
  }

  lemma TwoReadable(head: string, first: nat, middle: string, second: nat, tail: string)
    requires middle != "" && !Decimal.IsDigit(middle[0]) && (tail != "" ==> !Decimal.IsDigit(tail[0]))
    ensures ReadsTwo(head + Decimal.Print(first) + middle + Decimal.Print(second) + tail, head, first, middle, second)
  {
    hide Decimal.Print, Decimal.Value, Decimal.Leading;
    var f, k := Decimal.Print(first), Decimal.Print(second);
    var text := head + f + middle + k + tail;
    assert text == head + f + (middle + k + tail) == (head + f + middle) + k + tail;
    NumberReadable(head, first, middle + k + tail);
    NumberReadable(head + f + middle, second, tail);
  }

  /** What the driver keeps of a refresh. */
  class Driver {
    const det: Detector
    const diff: array<int>
    var reports: seq<Report>
    var statuses: seq<string>
    var maskedCount: int
    var exportPath: string
    var exportCount: int
    var exportText: string
    /** The exported files on disk. */
    var exports: map<string, Exported>

    constructor (d: Detector, image: array<int>, disk: map<string, Exported>)
      requires d.Square()
      ensures det == d && diff == image && exports == disk && reports == [] && statuses == []
      ensures maskedCount == exportCount == 0 && exportPath == "" && exportText == ""
    {
      det, diff, exports, reports, statuses := d, image, disk, [], [];
      maskedCount, exportCount, exportPath, exportText := 0, 0, "", "";
    }

    method Export(file: seq<Byte>, folder: string, name: string, opens: bool)
      requires det.Valid() && file != []
      modifies this`exportPath, this`exportCount, this`exportText, this`exports
      ensures ExportDone(det, file, folder, name, opens, old(exports), exportPath, exportCount, exportText, exports)
    {
      hide ExportList, MaskedCount, StripExtension, Decimal.Print, Cut;
      if name == "" {
        exportPath, exportCount, exportText := "", 0, "Skipped: BPCFileName empty";
        return;
      }
      var path := folder + StripExtension(name) + "_masked_pels.json";
      var rows, bad, skipped := ExportMaskedPels(det, file);
      if !opens {
        exportPath, exportCount, exportText := "", 0, Cut("Write failed: " + path, 255);
        return;
      }
      exports := exports[path := Exported(rows, bad)];
      exportPath, exportCount := path, |rows|;
      if skipped > 0 {
        exportText := "OK: " + Decimal.Print(|rows|) + " masked pels, " + Decimal.Print(skipped) + " index unmapped";
      } else {
        exportText := "OK: wrote " + Decimal.Print(|rows|) + " masked pels";
      }
      assert Exported(rows, bad) == ExportedOf(det, file);
    }

    /** Read the file, compare every reply with it, show the differences, and export;
        without a file the difference image and the last export stay as they are. */
    method Refresh(replies: seq<Reply>, file: Option<seq<Byte>>, folder: string, name: string, opens: bool)
      requires det.Square() && |replies| == det.numChips
      modifies this, diff
      ensures maskedCount == if file.Some? then MaskedCount(file.value) else old(maskedCount)
      ensures |reports| == |statuses| == |replies|
      ensures forall c | 0 <= c < |replies| ::
                && reports[c] == ReportOf(BytesOf(file), AnswersOf(replies), c)
                && statuses[c] == StatusOf(BytesOf(file), replies, c)
      ensures diff[..] == if BytesOf(file) == [] then old(diff[..])
                          else DiffImage(det, file.value, AnswersOf(replies), diff.Length)
      ensures BytesOf(file) == [] ==>
                && exportPath == old(exportPath) && exportCount == old(exportCount)
                && exportText == old(exportText) && exports == old(exports)
      ensures BytesOf(file) != [] ==>
                ExportDone(det, file.value, folder, name, opens, old(exports),
                           exportPath, exportCount, exportText, exports)
    {
      hide ReportOf, StatusOf, DiffImage, AnswerOf, ExportDone, MaskedCount;
      var bytes := BytesOf(file);
      if file.Some? {
        maskedCount := CountMasked(bytes);
      }
      var answers := DecodeReplies(replies);
      reports := Compare(det, bytes, answers, diff);
      statuses := ReportStatuses(bytes, replies, reports);
      if bytes != [] {
        Export(bytes, folder, name, opens);
      }
    }
  }

  /** The bytes compared; a file that cannot be opened counts as empty. */
  function BytesOf(file: Option<seq<Byte>>): seq<Byte> {
    if file.Some? then file.value else []
  }

  method DecodeReplies(replies: seq<Reply>) returns (answers: seq<Answer>)
    ensures answers == AnswersOf(replies)
  {
    hide AnswerOf;
    answers := [];
    for c := 0 to |replies|
      invariant |answers| == c && forall k | 0 <= k < c :: answers[k] == AnswerOf(replies[k])
    {
      var answer := DecodeReply(replies[c]);
      answers := answers + [answer];
    }
  }
}
