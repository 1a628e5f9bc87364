/** The base64 decoder applied to a chip's pixel configuration. */
module Base64 {
  import opened Arith
  import opened Text

  type Octet = x: int | 0 <= x < 256
  type Sextet = x: int | 0 <= x < 64

  /** A position the search for a character can find: the alphabet, then its NUL. */
  type Place = x: int | 0 <= x <= 64

  const PAD: Octet := 61
  const WORD: int := 0x1_0000_0000

  /** Position in the alphabet, or -1. The search also finds the terminating NUL
      of the alphabet string, at position 64. */
  function AlphabetIndex(c: Octet): (p: int)
    ensures -1 <= p <= 64 && (p == 64 <==> c == 0) && (IsSpace(c) ==> p == -1)
  {
    if 65 <= c <= 90 then c - 65
    else if 97 <= c <= 122 then c - 71
    else if 48 <= c <= 57 then c + 4
    else if c == 43 then 62
    else if c == 47 then 63
    else if c == 0 then 64
    else -1
  }

  function AlphabetChar(s: Sextet): Octet {
    if s < 26 then s + 65
    else if s < 52 then s + 71
    else if s < 62 then s - 4
    else if s == 62 then 43
    else 47
  }

  lemma AlphabetInverse(s: Sextet)
    ensures AlphabetIndex(AlphabetChar(s)) == s && !IsSpace(AlphabetChar(s)) && AlphabetChar(s) != PAD
  {
  }

  const UPPER := "ABCDEFGHIJKLMNOPQRSTUVWXYZ"
  const LOWER := "abcdefghijklmnopqrstuvwxyz"
  const DIGITS := "0123456789"

  /** The alphabet, character by character. */
  lemma Alphabet(s: Sextet)
    ensures s < 26 ==> UPPER[s] as int == AlphabetChar(s)
    ensures 26 <= s < 52 ==> LOWER[s - 26] as int == AlphabetChar(s)
    ensures 52 <= s < 62 ==> DIGITS[s - 52] as int == AlphabetChar(s)
    ensures s == 62 ==> AlphabetChar(s) == '+' as int
    ensures s == 63 ==> AlphabetChar(s) == '/' as int
  {
  }

  /** The search finds the characters of the alphabet and the final NUL, and no other. */
  lemma AlphabetFound(c: Octet)
    ensures AlphabetIndex(c) >= 0 ==> c == if c == 0 then 0 else AlphabetChar(AlphabetIndex(c))
  {
  }

  // ----- the reference: RFC 4648, section 4

  // The three octets of a quantum, from neighbouring characters.

  function First(a: Sextet, b: Sextet): Octet { a * 4 + b / 16 }

  function Second(a: Sextet, b: Sextet): Octet { a % 16 * 16 + b / 4 }

  function Third(a: Sextet, b: Sextet): Octet { a % 4 * 64 + b }

  /** Whole and partial quanta: 4, 3, 2 characters carry 3, 2, 1 octets. */
  function Octets(s: seq<Sextet>): seq<Octet> {
    if |s| < 2 then []
    else if |s| == 2 then [First(s[0], s[1])]
    else if |s| == 3 then [First(s[0], s[1]), Second(s[1], s[2])]
    else [First(s[0], s[1]), Second(s[1], s[2]), Third(s[2], s[3])] + Octets(s[4..])
  }

  // The four characters of a quantum, from neighbouring octets.

  function Char0(a: Octet): Sextet { a / 4 }

  function Char1(a: Octet, b: Octet): Sextet { a % 4 * 16 + b / 16 }

  function Char2(b: Octet, c: Octet): Sextet { b % 16 * 4 + c / 64 }

  function Char3(c: Octet): Sextet { c % 64 }

  /** The characters of an encoding, before padding. */
  function Sextets(b: seq<Octet>): seq<Sextet> {
    if b == [] then []
    else if |b| == 1 then [Char0(b[0]), Char1(b[0], 0)]
    else if |b| == 2 then [Char0(b[0]), Char1(b[0], b[1]), Char2(b[1], 0)]
    else [Char0(b[0]), Char1(b[0], b[1]), Char2(b[1], b[2]), Char3(b[2])] + Sextets(b[3..])
  }

  function Spell(s: seq<Sextet>): seq<Octet> {
    seq(|s|, (i: nat) requires i < |s| => AlphabetChar(s[i]))
  }

  function Padding(b: seq<Octet>): seq<Octet> {
    if |b| % 3 == 1 then [PAD, PAD] else if |b| % 3 == 2 then [PAD] else []
  }

  function Encode(b: seq<Octet>): seq<Octet> {
    Spell(Sextets(b)) + Padding(b)
  }

  lemma {:induction false} SextetsLength(b: seq<Octet>, quanta: nat)
    requires 3 * quanta - 3 < |b| <= 3 * quanta
    ensures |Sextets(b)| == |b| + quanta
  {
    hide Char0, Char1, Char2, Char3;
    if |b| > 2 {
      SextetsLength(b[3..], quanta - 1);
    }
  }

  /** An encoding has four characters for every three octets begun, with one or two padding
      characters at the end of an incomplete quantum. */
  lemma {:induction false} EncodedLength(b: seq<Octet>, quanta: nat)
    requires 3 * quanta - 3 < |b| <= 3 * quanta
    ensures |Encode(b)| == 4 * quanta && |Padding(b)| == 3 * quanta - |b|
    ensures forall c | c in Padding(b) :: c == '=' as int
  {
    hide Sextets;
    SextetsLength(b, quanta);
    if |b| == 3 * quanta {
      DivMod(3, quanta, 0);
    } else {
      DivMod(3, quanta - 1, |b| - 3 * (quanta - 1));
    }
  }

  lemma QuantumInverse(a: Octet, b: Octet, c: Octet)
    ensures First(Char0(a), Char1(a, b)) == a
    ensures Second(Char1(a, b), Char2(b, c)) == b
    ensures Third(Char2(b, c), Char3(c)) == c
  {
  }

  lemma {:induction false} OctetsOfSextets(b: seq<Octet>)
    ensures Octets(Sextets(b)) == b
  {
    hide First, Second, Third, Char0, Char1, Char2, Char3;
    if |b| == 1 {
      QuantumInverse(b[0], 0, 0);
    } else if |b| == 2 {
      QuantumInverse(b[0], b[1], 0);
    } else if |b| > 2 {
      QuantumInverse(b[0], b[1], b[2]);
      OctetsOfSextets(b[3..]);
      assert Sextets(b)[4..] == Sextets(b[3..]);
    }
  }

  /** How many octets a run of characters carries. */
  lemma {:induction false} OctetsLength(s: seq<Sextet>)
    ensures |Octets(s)| == 6 * |s| / 8
  {
    hide First, Second, Third;
    if |s| < 4 {
    } else {
      OctetsLength(s[4..]);
    }
  }

  // ----- what the decoder accepts and reads

  function Strip(text: seq<Octet>): (r: seq<Octet>) {
    if text == [] then []
    else Strip(text[..|text| - 1]) + if IsSpace(text[|text| - 1]) then [] else [text[|text| - 1]]
  }

  /** The text before the first padding character. */
  function Body(text: seq<Octet>): (r: seq<Octet>)
    ensures r <= text && PAD !in r && (r == text || text[|r|] == PAD)
  {
    if text == [] then []
    else
      var r := Body(text[..|text| - 1]);
      if r == text[..|text| - 1] && text[|text| - 1] != PAD then text else r
  }

  predicate Accepts(text: seq<Octet>) {
    forall c | c in Body(text) :: IsSpace(c) || AlphabetIndex(c) >= 0
  }

  /** The positions found for the characters of a text, spaces dropped. */
  function Digits(body: seq<Octet>): (r: seq<Place>)
  {
    if body == [] then []
    else
      var c := body[|body| - 1];
      Digits(body[..|body| - 1]) + if 0 <= AlphabetIndex(c) then [AlphabetIndex(c)] else []
  }

  /** The positions as one number to the base 64; a NUL carries into the place before. */
  function Number(s: seq<Place>): nat {
    if s == [] then 0 else Number(s[..|s| - 1]) * 64 + s[|s| - 1]
  }

  /** Bits of the number that the octet completed by character n leaves over. */
  function Rest(n: nat): int {
    match n % 4
    case 1 => 16
    case 2 => 4
    case _ => 1
  }

  /** Every character but the first of a quantum completes an octet: the eight bits of
      the number above the bits that are left over. */
  function Emitted(s: seq<Place>): seq<Octet> {
    if s == [] then []
    else
      var n := |s| - 1;
      Emitted(s[..n]) + if n % 4 == 0 then [] else [Number(s) / Rest(n) % 256]
  }

  /** The octet that one more character completes, if it does not start a quantum. */
  function Completed(n: nat, last: Sextet, x: Sextet): seq<Octet> {
    if n % 4 == 0 then []
    else if n % 4 == 1 then [First(last, x)]
    else if n % 4 == 2 then [Second(last, x)]
    else [Third(last, x)]
  }

  lemma {:induction false} OctetsLong(s: seq<Sextet>)
    requires |s| >= 4
    ensures Octets(s) == [First(s[0], s[1]), Second(s[1], s[2]), Third(s[2], s[3])] + Octets(s[4..])
  {
    hide First, Second, Third;
  }

  lemma {:induction false} OctetsShort(s: seq<Sextet>)
    requires |s| < 4
    ensures Octets(s) == (if |s| >= 2 then [First(s[0], s[1])] else []) + if |s| == 3 then [Second(s[1], s[2])] else []
  {
    hide First, Second, Third;
  }

  lemma {:induction false} OctetsSnocShort(s: seq<Sextet>, x: Sextet)
    requires |s| < 4
    ensures Octets(s + [x]) == Octets(s) + Completed(|s|, if s == [] then 0 else s[|s| - 1], x)
  {
    hide First, Second, Third;
    if |s| == 0 {
      assert s + [x] == [x];
    } else if |s| == 1 {
      assert s + [x] == [s[0], x];
    } else if |s| == 2 {
      assert s + [x] == [s[0], s[1], x];
    } else {
      assert s + [x] == [s[0], s[1], s[2], x];
      OctetsLong(s + [x]);
      assert Octets((s + [x])[4..]) == [];
    }
  }

  lemma {:induction false} OctetsSnocFour(s: seq<Sextet>, x: Sextet)
    requires |s| == 4
    ensures Octets(s + [x]) == Octets(s)
  {
    hide Octets, First, Second, Third;
    OctetsLong(s);
    OctetsLong(s + [x]);
    OctetsShort(s[4..]);
    OctetsShort((s + [x])[4..]);
  }

  lemma {:induction false} OctetsSnoc(s: seq<Sextet>, x: Sextet)
    ensures Octets(s + [x]) == Octets(s) + Completed(|s|, if s == [] then 0 else s[|s| - 1], x)
  {
    hide Octets, Completed, First, Second, Third;
    if |s| < 4 {
      OctetsSnocShort(s, x);
    } else if |s| == 4 {
      OctetsSnocFour(s, x);
      CompletedPhase(4, 0, s[3], x);
    } else {
      OctetsSnoc(s[4..], x);
      OctetsLong(s);
      OctetsLong(s + [x]);
      assert (s + [x])[4..] == s[4..] + [x];
      CompletedPhase(|s|, |s| - 4, s[|s| - 1], x);
    }
  }

  /** What a character completes depends on its place in the quantum alone. */
  lemma CompletedPhase(n: nat, m: nat, last: Sextet, x: Sextet)
    requires n % 4 == m % 4
    ensures Completed(n, last, x) == Completed(m, last, x)
    ensures n % 4 == 0 ==> Completed(n, last, x) == []
  {
  }

  /** The low bits of the wrapped accumulator are enough for every octet. */
  lemma AccumulatorBits(x: nat)
    ensures var v := x % WORD; v % 256 == x % 256 && v / 4 % 256 == x / 4 % 256 && v / 16 % 256 == x / 16 % 256
  {
    var q, v := x / WORD, x % WORD;
    assert x == q * WORD + v;
    DivMod(4, v / 4 + q * 0x4000_0000, v % 4);
    DivMod(16, v / 16 + q * 0x1000_0000, v % 16);
    DivMod(256, v / 256 + q * 0x100_0000, v % 256);
    DivMod(256, v / 4 / 256 + q * 0x40_0000, v / 4 % 256);
    DivMod(256, v / 16 / 256 + q * 0x10_0000, v / 16 % 256);
  }

  /** Two neighbouring characters fix the octets between them. */
  lemma LowBits(m: int, y: Sextet, x: Sextet)
    ensures var v := 4096 * m + 64 * y + x;
            v / 16 % 256 == First(y, x) && v / 4 % 256 == Second(y, x) && v % 256 == Third(y, x)
  {
    DivMod(16, 256 * m + 4 * y + x / 16, x % 16);
    DivMod(256, m, First(y, x));
    DivMod(4, 1024 * m + 16 * y + x / 4, x % 4);
    DivMod(256, 4 * m + y / 16, Second(y, x));
    DivMod(256, 16 * m + y / 4, Third(y, x));
  }

  predicate AllSextets(s: seq<Place>) {
    forall i | 0 <= i < |s| :: s[i] < 64
  }

  lemma DigitSnoc(s: seq<Place>, x: Place)
    ensures Number(s + [x]) == Number(s) * 64 + x
    ensures Emitted(s + [x]) == Emitted(s) + if |s| % 4 == 0 then [] else [(Number(s) * 64 + x) / Rest(|s|) % 256]
  {
    hide Number, Emitted, Rest;
    NumberLast(s + [x]);
    EmittedLast(s + [x]);
    assert (s + [x])[..|s|] == s;
  }

  lemma NumberLast(s: seq<Place>)
    requires s != []
    ensures Number(s) == Number(s[..|s| - 1]) * 64 + s[|s| - 1]
  {
  }

  lemma EmittedLast(s: seq<Place>)
    requires s != []
    ensures var n := |s| - 1;
            Emitted(s) == Emitted(s[..n]) + if n % 4 == 0 then [] else [Number(s) / Rest(n) % 256]
  {
    hide Number, Rest;
  }

  /** Without NUL the octets are those of RFC 4648. */
  lemma {:induction false} EmittedIsOctets(s: seq<Sextet>)
    ensures Emitted(s) == Octets(s)
  {
    hide Octets, Emitted, Number, First, Second, Third;
    if s == [] {
      OctetsOfNone();
    } else {
      var n := |s| - 1;
      var front, x: int := s[..n], s[n];
      assert s == front + [s[n]];
      EmittedIsOctets(front);
      OctetsSnoc(front, s[n]);
      DigitSnoc(front, s[n]);
      if n > 0 {
        var y: int := s[n - 1];
        assert front == front[..n - 1] + [s[n - 1]];
        DigitSnoc(front[..n - 1], s[n - 1]);
        LowBits(Number(front[..n - 1]), s[n - 1], s[n]);
      }
    }
  }

  lemma OctetsOfNone()
    ensures Octets([]) == [] && Emitted([]) == []
  {
  }

  /** The bit position the decoder keeps, as a function of the characters read. */
  function BitsLeft(n: nat): int {
    match n % 4
    case 0 => -8
    case 1 => -2
    case 2 => -4
    case _ => -6
  }

  function Shift(val: int, bits: int): int {
    if bits == 4 then val / 16 else if bits == 2 then val / 4 else val
  }

  /** What the decoder knows after a prefix without padding or foreign characters. */
  ghost predicate Reading(prefix: seq<Octet>, val: int, valb: int, out: seq<Octet>) {
    var digits := Digits(prefix);
    && Body(prefix) == prefix && Accepts(prefix)
    && val == Number(digits) % WORD && valb == BitsLeft(|digits|) && out == Emitted(digits)
  }

  lemma DigitsSnoc(prefix: seq<Octet>, c: Octet)
    ensures Digits(prefix + [c]) == Digits(prefix) + if 0 <= AlphabetIndex(c) then [AlphabetIndex(c)] else []
    ensures Digits([]) == []
  {
    hide AlphabetIndex;
    assert (prefix + [c])[..|prefix|] == prefix;
  }

  lemma BodySnoc(prefix: seq<Octet>, c: Octet)
    requires Body(prefix) == prefix && Accepts(prefix) && c != PAD && (IsSpace(c) || AlphabetIndex(c) >= 0)
    ensures Body(prefix + [c]) == prefix + [c] && Accepts(prefix + [c])
    ensures Digits(prefix + [c]) == Digits(prefix) + if 0 <= AlphabetIndex(c) then [AlphabetIndex(c)] else []
  {
    hide AlphabetIndex, IsSpace, Digits;
    assert (prefix + [c])[..|prefix|] == prefix && (prefix + [c])[|prefix|] == c;
    assert Body(prefix + [c]) == prefix + [c];
    DigitsSnoc(prefix, c);
    hide Body;
    forall x | x in prefix + [c]
      ensures IsSpace(x) || AlphabetIndex(x) >= 0
    {
      assert x in prefix || x == c;
    }
  }

  lemma ReadSpace(prefix: seq<Octet>, c: Octet, val: int, valb: int, out: seq<Octet>)
    requires Reading(prefix, val, valb, out) && IsSpace(c)
    ensures Reading(prefix + [c], val, valb, out)
  {
    hide Body, Digits, Accepts, Emitted, Number, AlphabetIndex;
    BodySnoc(prefix, c);
    assert Digits(prefix + [c]) == Digits(prefix);
  }

  lemma ReadCharacter(prefix: seq<Octet>, c: Octet, val: int, valb: int, out: seq<Octet>)
    requires Reading(prefix, val, valb, out) && !IsSpace(c) && c != PAD && AlphabetIndex(c) >= 0
    ensures var v := (val * 64 + AlphabetIndex(c)) % WORD;
            if valb + 6 >= 0 then Reading(prefix + [c], v, valb - 2, out + [Shift(v, valb + 6) % 256])
            else Reading(prefix + [c], v, valb + 6, out)
  {
    hide Body, Digits, Accepts, Emitted, Number, AlphabetIndex, IsSpace;
    BodySnoc(prefix, c);
    OctetCompleted(Digits(prefix), AlphabetIndex(c), val, valb);
  }

  lemma OctetCompleted(digits: seq<Place>, p: Place, val: int, valb: int)
    requires val == Number(digits) % WORD && valb == BitsLeft(|digits|)
    ensures var v := (val * 64 + p) % WORD;
            && v == Number(digits + [p]) % WORD
            && BitsLeft(|digits + [p]|) == (if valb + 6 >= 0 then valb - 2 else valb + 6)
            && Emitted(digits + [p]) == Emitted(digits) + if valb + 6 >= 0 then [Shift(v, valb + 6) % 256] else []
  {
    hide Number, Emitted, Shift, Rest, BitsLeft;
    DigitSnoc(digits, p);
    WrapStep(Number(digits), p);
    AccumulatorBits(Number(digits) * 64 + p);
    BitPosition(|digits|, (val * 64 + p) % WORD, Number(digits) * 64 + p);
  }

  /** The bit counter says where the next octet lies. */
  lemma BitPosition(n: nat, v: nat, x: nat)
    requires v % 256 == x % 256 && v / 4 % 256 == x / 4 % 256 && v / 16 % 256 == x / 16 % 256
    ensures BitsLeft(n + 1) == if BitsLeft(n) + 6 >= 0 then BitsLeft(n) - 2 else BitsLeft(n) + 6
    ensures BitsLeft(n) + 6 >= 0 <==> n % 4 != 0
    ensures n % 4 != 0 ==> Shift(v, BitsLeft(n) + 6) % 256 == x / Rest(n) % 256
  {
    BitCount(n);
    hide BitsLeft;
    if n % 4 == 1 {
      assert Rest(n) == 16;
    } else if n % 4 == 2 {
      assert Rest(n) == 4;
    } else if n % 4 == 3 {
      assert Rest(n) == 1;
    }
  }

  lemma BitCount(n: nat)
    ensures BitsLeft(n + 1) == if BitsLeft(n) + 6 >= 0 then BitsLeft(n) - 2 else BitsLeft(n) + 6
    ensures BitsLeft(n) == if n % 4 == 0 then -8 else if n % 4 == 1 then -2 else if n % 4 == 2 then -4 else -6
  {
  }

  /** Dropping high bits before a step does not matter after it. */
  lemma WrapStep(x: nat, p: Place)
    ensures (x % WORD * 64 + p) % WORD == (x * 64 + p) % WORD
  {
    var q := x / WORD;
    assert x * 64 + p == 64 * q * WORD + (x % WORD * 64 + p);
  }

  /** The decoder. Its accumulator is a 32-bit word that drops old characters; the
      bits it extracts are the low ones, so nothing is lost. */
  method Decode(text: seq<Octet>) returns (ok: bool, out: seq<Octet>)
    ensures ok <==> Accepts(text)
    ensures ok ==> out == Emitted(Digits(Body(text)))
  {
    hide Accepts, Emitted, AlphabetIndex, IsSpace, Reading;
    out := [];
    var val, valb := 0, -8;
    ReadNothing();
    for n := 0 to |text|
      invariant Reading(text[..n], val, valb, out)
    {
      var c := text[n];
      assert text[..n + 1] == text[..n] + [c];
      if IsSpace(c) {
        ReadSpace(text[..n], c, val, valb, out);
        continue;
      }
      if c == PAD {
        ReadPad(text, n, val, valb, out);
        return true, out;
      }
      var p := AlphabetIndex(c);
      if p < 0 {
        ReadForeign(text, n, val, valb, out);
        return false, out;
      }
      ReadCharacter(text[..n], c, val, valb, out);
      val := (val * 64 + p) % WORD;
      valb := valb + 6;
      if valb >= 0 {
        out := out + [Shift(val, valb) % 256];
        valb := valb - 8;
      }
    }
    assert text[..|text|] == text;
    ReadAll(text, val, valb, out);
    return true, out;
  }

  lemma ReadNothing()
    ensures Reading([], 0, -8, [])
  {
  }

  lemma ReadAll(text: seq<Octet>, val: int, valb: int, out: seq<Octet>)
    requires Reading(text, val, valb, out)
    ensures Accepts(text) && out == Emitted(Digits(Body(text)))
  {
  }

  lemma ReadPad(text: seq<Octet>, n: nat, val: int, valb: int, out: seq<Octet>)
    requires n < |text| && text[n] == PAD && Reading(text[..n], val, valb, out)
    ensures Accepts(text) && out == Emitted(Digits(Body(text)))
  {
    BodyStops(text, n);
  }

  lemma ReadForeign(text: seq<Octet>, n: nat, val: int, valb: int, out: seq<Octet>)
    requires n < |text| && Reading(text[..n], val, valb, out)
    requires text[n] != PAD && !IsSpace(text[n]) && AlphabetIndex(text[n]) < 0
    ensures !Accepts(text)
  {
    BodyContains(text, n);
  }

  lemma BodyStops(text: seq<Octet>, n: nat)
    requires n < |text| && Body(text[..n]) == text[..n] && text[n] == PAD
    ensures Body(text) == text[..n]
  {
    if |text| == n + 1 {
      assert text[..|text| - 1] == text[..n];
    } else {
      assert text[..|text| - 1][..n] == text[..n];
      BodyStops(text[..|text| - 1], n);
    }
  }

  lemma BodyContains(text: seq<Octet>, n: nat)
    requires n < |text| && Body(text[..n]) == text[..n] && text[n] != PAD
    ensures text[n] in Body(text)
  {
    if |text| == n + 1 {
      assert text[..|text| - 1] == text[..n];
    } else {
      assert text[..|text| - 1][..n] == text[..n];
      BodyContains(text[..|text| - 1], n);
    }
  }

  // ----- decoding an encoding

  lemma {:induction false} SpelledDigits(body: seq<Octet>, s: seq<Sextet>)
    requires PAD !in body && Strip(body) == Spell(s)
    ensures Digits(body) == s
    ensures forall c | c in body :: IsSpace(c) || 0 <= AlphabetIndex(c) < 64
  {
    if body != [] {
      var c, rest := body[|body| - 1], body[..|body| - 1];
      if IsSpace(c) {
        SpelledDigits(rest, s);
      } else {
        var n := |s| - 1;
        assert Strip(body)[n] == c && Strip(body)[..n] == Strip(rest);
        assert Spell(s)[..n] == Spell(s[..n]);
        AlphabetInverse(s[n]);
        SpelledDigits(rest, s[..n]);
      }
    } else {
      assert s == [] by {
        assert |Spell(s)| == |s|;
      }
    }
  }

  lemma {:induction false} StripAppend(a: seq<Octet>, b: seq<Octet>)
    ensures Strip(a + b) == Strip(a) + Strip(b)
  {
    hide IsSpace;
    if b == [] {
      assert a + b == a;
    } else {
      var n := |b| - 1;
      StripAppend(a, b[..n]);
      assert (a + b)[..|a + b| - 1] == a + b[..n];
      assert (a + b)[|a + b| - 1] == b[n];
    }
  }

  lemma {:induction false} StripKeeps(a: seq<Octet>, c: Octet)
    requires !IsSpace(c)
    ensures c in a <==> c in Strip(a)
  {
    if a == [] {
    } else {
      StripKeeps(a[..|a| - 1], c);
      assert a == a[..|a| - 1] + [a[|a| - 1]];
    }
  }

  lemma {:induction false} BodyWhole(a: seq<Octet>)
    requires PAD !in a
    ensures Body(a) == a
  {
    if a == [] {
    } else {
      BodyWhole(a[..|a| - 1]);
    }
  }

  /** A cut before the first pad, or at the end, leaves the body on its left. */
  lemma BodyOfCut(a: seq<Octet>, b: seq<Octet>)
    requires PAD !in a && (b == [] || b[0] == PAD)
    ensures Body(a + b) == a
  {
    BodyWhole(a);
    if b == [] {
      assert a + b == a;
    } else {
      assert (a + b)[..|a|] == a;
      BodyStops(a + b, |a|);
    }
  }

  /** The unpadded characters of the encoding are what precedes the first pad. */
  lemma BodyOfEncoding(b: seq<Octet>, text: seq<Octet>)
    requires Strip(text) == Encode(b)
    ensures Strip(Body(text)) == Spell(Sextets(b))
  {
    hide Sextets, Strip, Body;
    var body, s := Body(text), Spell(Sextets(b));
    var rest := text[|body|..];
    assert text == body + rest;
    StripAppend(body, rest);
    StripKeeps(body, PAD);
    forall i | 0 <= i < |s|
      ensures s[i] != PAD
    {
      AlphabetInverse(Sextets(b)[i]);
    }
    StripPad(rest);
    BodyOfCut(Strip(body), Strip(rest));
    BodyOfCut(s, Padding(b));
  }

  lemma StripPad(text: seq<Octet>)
    requires text == [] || text[0] == PAD
    ensures Strip(text) == [] || Strip(text)[0] == PAD
  {
    if text != [] {
      StripAppend([PAD], text[1..]);
      assert text == [PAD] + text[1..];
      assert Strip([PAD]) == [PAD];
    }
  }

  /** Every octet string survives: any text that is its encoding once whitespace is
      removed is accepted and decoded to it. */
  lemma RoundTrip(b: seq<Octet>, text: seq<Octet>)
    requires Strip(text) == Encode(b)
    ensures Accepts(text) && Emitted(Digits(Body(text))) == b
  {
    BodyOfEncoding(b, text);
    SpelledDigits(Body(text), Sextets(b));
    EmittedIsOctets(Sextets(b));
    OctetsOfSextets(b);
  }

  lemma {:induction false} DigitsWithoutNul(body: seq<Octet>)
    requires 0 !in body
    ensures AllSextets(Digits(body))
  {
    if body == [] {
    } else {
      DigitsWithoutNul(body[..|body| - 1]);
    }
  }

  /** On any accepted text free of NUL before its padding the decoder gives the octets
      of RFC 4648, floor(6n/8) of them for n characters. */
  lemma DecodedLength(text: seq<Octet>)
    requires Accepts(text) && 0 !in Body(text)
    ensures AllSextets(Digits(Body(text)))
    ensures var digits := Digits(Body(text));
            Emitted(digits) == Octets(digits) && |Emitted(digits)| == 6 * |digits| / 8
  {
    DigitsWithoutNul(Body(text));
    EmittedIsOctets(Digits(Body(text)));
    OctetsLength(Digits(Body(text)));
  }

  /** A NUL is accepted although no encoding contains one: it carries into the character
      before it, so that 'A', NUL reads as 'B', 'A' does. */
  lemma NulCarries()
    ensures Accepts([65, 0]) && Accepts([66, 65])
    ensures Emitted(Digits(Body([65, 0]))) == Emitted(Digits(Body([66, 65]))) == [4]
  {
    hide Body, Digits, Emitted;
    BodyWhole([65, 0]);
    BodyWhole([66, 65]);
    TwoDigits(65, 0);
    TwoDigits(66, 65);
  }

  lemma TwoDigits(a: Octet, b: Octet)
    requires AlphabetIndex(a) >= 0 && AlphabetIndex(b) >= 0
    ensures Emitted(Digits([a, b])) == [(AlphabetIndex(a) * 64 + AlphabetIndex(b)) / 16 % 256]
  {
    hide AlphabetIndex, Emitted, Number;
    var x: Place, y: Place := AlphabetIndex(a), AlphabetIndex(b);
    DigitsSnoc([], a);
    DigitsSnoc([a], b);
    assert [] + [a] == [a] && [a] + [b] == [a, b];
    hide Digits;
    OctetsOfNone();
    DigitSnoc([], x);
    DigitSnoc([x], y);
    assert [] + [x] == [x];
    assert Number([]) == 0 by { NumberOfNone(); }
  }

  lemma NumberOfNone()
    ensures Number([]) == 0
  {
  }
}
