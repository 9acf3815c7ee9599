/**
 The request normaliser: up to two rounds of percent and HTML decoding, then a cut.
 Decoding bytes to text is a parameter, `utf8`.
 */
module Normalizer {
  import opened Options
  import opened HtmlEntities

  const ROUNDS := 2
  const MAX_LENGTH := 16_384

  type Utf8 = seq<int> -> string

  predicate Ascii(s: string) { forall i :: 0 <= i < |s| ==> s[i] < '\U{80}' }

  predicate AsciiBytes(bytes: seq<int>) { forall i :: 0 <= i < |bytes| ==> 0 <= bytes[i] < 128 }

  function AsciiText(bytes: seq<int>): string
    requires AsciiBytes(bytes)
  {
    if bytes == [] then "" else [bytes[0] as char] + AsciiText(bytes[1..])
  }

  /** Bytes below 128 decode to themselves, and no byte sequence decodes to more characters than it has bytes. */
  ghost predicate IsUtf8(utf8: Utf8) {
    && (forall bytes :: AsciiBytes(bytes) ==> utf8(bytes) == AsciiText(bytes))
    && (forall bytes: seq<int> :: |utf8(bytes)| <= |bytes|)
  }

  /** A decoder of that kind, for which bytes beyond ASCII stand for nothing. */
  function AsciiOnly(bytes: seq<int>): string {
    if AsciiBytes(bytes) then AsciiText(bytes) else ""
  }

  lemma AsciiOnlyIsUtf8()
    ensures IsUtf8(AsciiOnly)
  {
    forall bytes ensures |AsciiOnly(bytes)| <= |bytes| {
      if AsciiBytes(bytes) { AsciiTextLength(bytes); }
    }
  }

  lemma {:induction false} AsciiTextLength(bytes: seq<int>)
    requires AsciiBytes(bytes)
    ensures |AsciiText(bytes)| == |bytes|
  {
    if bytes != [] { AsciiTextLength(bytes[1..]); }
  }

  // -------------------------------------------------------- percent decoding

  function Hex(c: char): (v: int)
    ensures -1 <= v < 16
  {
    if '0' <= c <= '9' then c as int - '0' as int
    else if 'a' <= c <= 'f' then c as int - 'a' as int + 10
    else if 'A' <= c <= 'F' then c as int - 'A' as int + 10
    else -1
  }

  /** `s` begins with a percent sign and two hexadecimal digits. */
  predicate Triplet(s: string) {
    |s| > 2 && s[0] == '%' && Hex(s[1]) >= 0 && Hex(s[2]) >= 0
  }

  function ByteOf(s: string): (b: int)
    requires Triplet(s)
    ensures 0 <= b < 256
  {
    Hex(s[1]) * 16 + Hex(s[2])
  }

  const HEX_DIGITS := "0123456789abcdefABCDEF"

  /** A hexadecimal digit of value `v`, in either letter case. */
  predicate Spells(c: char, v: int) {
    0 <= v < 16 && (c == "0123456789abcdef"[v] || c == "0123456789ABCDEF"[v])
  }

  lemma {:induction false} HexExactly(c: char)
    ensures forall v :: 0 <= v < 16 ==> (Hex(c) == v <==> Spells(c, v))
    ensures Hex(c) == -1 <==> c !in HEX_DIGITS
  {
    assert forall i :: 0 <= i < |HEX_DIGITS| ==>
      HEX_DIGITS[i] as int == if i < 10 then '0' as int + i else if i < 16 then 'a' as int + i - 10
                              else 'A' as int + i - 16;
    if Hex(c) >= 0 {
      assert c == HEX_DIGITS[if 'A' <= c <= 'F' then Hex(c) + 6 else Hex(c)];
    }
  }

  /** The bytes of the maximal run of triplets at the beginning of `s`. */
  function RunBytes(s: string): (bytes: seq<int>)
    ensures 3 * |bytes| <= |s|
    ensures bytes != [] <==> Triplet(s)
  {
    if Triplet(s) then [ByteOf(s)] + RunBytes(s[3..]) else []
  }

  function AfterRun(s: string): string { s[3 * |RunBytes(s)|..] }

  /** Each maximal run of triplets is decoded as a whole. */
  function DecodePercent(s: string, plusAsSpace: bool, utf8: Utf8): string
    decreases |s|
  {
    if s == "" then ""
    else if s[0] == '+' && plusAsSpace then " " + DecodePercent(s[1..], plusAsSpace, utf8)
    else if Triplet(s) then utf8(RunBytes(s)) + DecodePercent(AfterRun(s), plusAsSpace, utf8)
    else [s[0]] + DecodePercent(s[1..], plusAsSpace, utf8)
  }

  /** Decoding continues after the first piece of what is left. */
  lemma NextPiece(done: string, s: string, plusAsSpace: bool, utf8: Utf8)
    requires s != ""
    ensures var piece := if s[0] == '+' && plusAsSpace then " " else if Triplet(s) then utf8(RunBytes(s)) else [s[0]];
            var rest := if !(s[0] == '+' && plusAsSpace) && Triplet(s) then AfterRun(s) else s[1..];
            done + DecodePercent(s, plusAsSpace, utf8) == (done + piece) + DecodePercent(rest, plusAsSpace, utf8)
  {
  }

  lemma NothingLeft(plusAsSpace: bool, utf8: Utf8)
    ensures DecodePercent("", plusAsSpace, utf8) == ""
  {
  }

  lemma PlainFirst(c: char, rest: string, plusAsSpace: bool, utf8: Utf8)
    requires c != '%' && c != '+'
    ensures DecodePercent([c] + rest, plusAsSpace, utf8) == [c] + DecodePercent(rest, plusAsSpace, utf8)
  {
    assert ([c] + rest)[1..] == rest;
  }

  /** The inner loop of the decoder: the bytes of the run of triplets at `index`. */
  method TakeRun(value: string, index: nat) returns (bytes: seq<int>, next: nat)
    requires index <= |value|
    ensures bytes == RunBytes(value[index..]) && next == index + 3 * |bytes| <= |value|
  {
    bytes, next := [], index;
    while Triplet(value[next..])
      invariant index <= next <= |value| && next == index + 3 * |bytes|
      invariant bytes + RunBytes(value[next..]) == RunBytes(value[index..])
      decreases |value| - next
    {
      assert value[next..][3..] == value[next + 3..];
      bytes, next := bytes + [ByteOf(value[next..])], next + 3;
    }
  }

  /** The decoder as the program runs it. */
  method DecodePercentRuns(value: string, plusAsSpace: bool, utf8: Utf8) returns (result: string)
    ensures result == DecodePercent(value, plusAsSpace, utf8)
  {
    hide RunBytes, DecodePercent, Hex;
    result := "";
    var index := 0;
    assert value[0..] == value;
    NothingLeft(plusAsSpace, utf8);
    while index < |value|
      invariant index <= |value|
      invariant result + DecodePercent(value[index..], plusAsSpace, utf8) == DecodePercent(value, plusAsSpace, utf8)
    {
      var current := value[index];
      var rest := value[index..];
      assert rest[1..] == value[index + 1..];
      NextPiece(result, rest, plusAsSpace, utf8);
      if current == '+' && plusAsSpace {
        result, index := result + " ", index + 1;
      } else if Triplet(rest) {
        var bytes, next := TakeRun(value, index);
        assert AfterRun(rest) == value[next..];
        result, index := result + utf8(bytes), next;
      } else {
        result, index := result + [current], index + 1;
      }
    }
    assert value[index..] == "";
  }

  /** Decoding triplet by triplet, each to one character. */
  function DecodeEach(s: string, plusAsSpace: bool): string
    decreases |s|
  {
    if s == "" then ""
    else if s[0] == '+' && plusAsSpace then " " + DecodeEach(s[1..], plusAsSpace)
    else if Triplet(s) then [ByteOf(s) as char] + DecodeEach(s[3..], plusAsSpace)
    else [s[0]] + DecodeEach(s[1..], plusAsSpace)
  }

  /** No triplet anywhere in `s` stands for a byte beyond ASCII. */
  ghost predicate AsciiTriplets(s: string) {
    forall i :: 0 <= i < |s| && Triplet(s[i..]) ==> ByteOf(s[i..]) < 128
  }

  lemma AsciiTripletsFrom(s: string, n: nat)
    requires AsciiTriplets(s) && n <= |s|
    ensures AsciiTriplets(s[n..])
  {
    forall i | 0 <= i < |s| - n ensures s[n..][i..] == s[n + i..] {}
  }

  lemma {:induction false} RunText(s: string, plusAsSpace: bool)
    requires AsciiTriplets(s)
    ensures AsciiBytes(RunBytes(s))
    ensures DecodeEach(s, plusAsSpace) == AsciiText(RunBytes(s)) + DecodeEach(AfterRun(s), plusAsSpace)
    decreases |s|
  {
    if Triplet(s) {
      AsciiTripletsFrom(s, 3);
      RunText(s[3..], plusAsSpace);
      assert s[0..] == s;
      assert AfterRun(s[3..]) == AfterRun(s);
      assert RunBytes(s)[1..] == RunBytes(s[3..]);
    }
  }

  /** On ASCII, decoding maximal runs equals decoding triplet by triplet. */
  lemma {:induction false} RunsAreTriplets(s: string, plusAsSpace: bool, utf8: Utf8)
    requires IsUtf8(utf8) && AsciiTriplets(s)
    ensures DecodePercent(s, plusAsSpace, utf8) == DecodeEach(s, plusAsSpace)
    decreases |s|
  {
    if s != "" {
      if Triplet(s) {
        RunText(s, plusAsSpace);
        AsciiTripletsFrom(s, 3 * |RunBytes(s)|);
        RunsAreTriplets(AfterRun(s), plusAsSpace, utf8);
      } else {
        AsciiTripletsFrom(s, 1);
        RunsAreTriplets(s[1..], plusAsSpace, utf8);
      }
    }
  }

  lemma {:induction false} PercentShortens(s: string, plusAsSpace: bool, utf8: Utf8)
    requires IsUtf8(utf8)
    ensures |DecodePercent(s, plusAsSpace, utf8)| <= |s|
    decreases |s|
  {
    if s != "" {
      PercentShortens(if Triplet(s) then AfterRun(s) else s[1..], plusAsSpace, utf8);
    }
  }

  /** What the decoder changes at `i`: a plus sign read as a space, or a percent sign with its two digits. */
  predicate Encoded(s: string, i: nat, plusAsSpace: bool)
    requires i < |s|
  {
    || (s[i] == '+' && plusAsSpace)
    || (s[i] == '%' && i + 2 < |s| && s[i + 1] in HEX_DIGITS && s[i + 2] in HEX_DIGITS)
  }

  lemma FirstIsEncoded(s: string, plusAsSpace: bool)
    requires s != ""
    ensures Encoded(s, 0, plusAsSpace) <==> Triplet(s) || (s[0] == '+' && plusAsSpace)
  {
    if |s| > 2 {
      HexExactly(s[1]);
      HexExactly(s[2]);
    }
  }

  /** The decoder leaves exactly the texts without anything to decode; a malformed percent sign stays. */
  lemma {:induction false} UnchangedExactly(s: string, plusAsSpace: bool, utf8: Utf8)
    requires IsUtf8(utf8)
    ensures DecodePercent(s, plusAsSpace, utf8) == s
       <==> forall i :: 0 <= i < |s| ==> !Encoded(s, i, plusAsSpace)
    decreases |s|
  {
    hide Hex, HEX_DIGITS, RunBytes;
    if s != "" {
      FirstIsEncoded(s, plusAsSpace);
      if s[0] == '+' && plusAsSpace {
        assert DecodePercent(s, plusAsSpace, utf8)[0] == ' ';
      } else if Triplet(s) {
        PercentShortens(AfterRun(s), plusAsSpace, utf8);
        NonemptyRun(s);
      } else {
        var rest := s[1..];
        UnchangedExactly(rest, plusAsSpace, utf8);
        assert s == [s[0]] + rest;
        assert DecodePercent(s, plusAsSpace, utf8)[1..] == DecodePercent(rest, plusAsSpace, utf8);
        forall i: nat | 0 < i < |s| ensures Encoded(s, i, plusAsSpace) <==> Encoded(rest, i - 1, plusAsSpace) {}
        forall i: nat | i < |rest| ensures Encoded(rest, i, plusAsSpace) <==> Encoded(s, i + 1, plusAsSpace) {}
      }
    }
  }

  lemma NonemptyRun(s: string)
    requires Triplet(s)
    ensures |RunBytes(s)| >= 1
  {
  }

  // ------------------------------------------------------------------ rounds

  function Round(s: string, plusAsSpace: bool, utf8: Utf8): string {
    DecodeHtml(DecodePercent(s, plusAsSpace, utf8))
  }

  function Cut(s: string): string { if |s| <= MAX_LENGTH then s else s[..MAX_LENGTH] }

  function Normalized(s: string, plusAsSpace: bool, utf8: Utf8): string {
    Cut(Round(Round(s, plusAsSpace, utf8), plusAsSpace, utf8))
  }

  function Rounds(s: string, n: nat, plusAsSpace: bool, utf8: Utf8): string
    decreases n
  {
    if n == 0 then s else Rounds(Round(s, plusAsSpace, utf8), n - 1, plusAsSpace, utf8)
  }

  /** Stopping at a fixed point changes nothing. */
  lemma {:induction false} StuckRounds(s: string, n: nat, plusAsSpace: bool, utf8: Utf8)
    requires Round(s, plusAsSpace, utf8) == s
    ensures Rounds(s, n, plusAsSpace, utf8) == s
    decreases n
  {
    if n > 0 { StuckRounds(s, n - 1, plusAsSpace, utf8); }
  }

  method Normalize(value: Option<string>, plusAsSpace: bool, utf8: Utf8) returns (r: string)
    ensures r == Normalized(if value.None? then "" else value.value, plusAsSpace, utf8)
  {
    hide Round;
    var result := if value.None? then "" else value.value;
    ghost var start := result;
    var i := 0;
    while i < ROUNDS
      invariant 0 <= i <= ROUNDS
      invariant Rounds(result, ROUNDS - i, plusAsSpace, utf8) == Rounds(start, ROUNDS, plusAsSpace, utf8)
    {
      var next := DecodePercentRuns(result, plusAsSpace, utf8);
      next := DecodeHtml(next);
      IsRound(result, next, plusAsSpace, utf8);
      if next == result {
        StuckRounds(result, ROUNDS - i, plusAsSpace, utf8);
        break;
      }
      result := next;
      i := i + 1;
    }
    TwoRounds(start, plusAsSpace, utf8);
    r := if |result| <= MAX_LENGTH then result else result[..MAX_LENGTH];
  }

  lemma IsRound(s: string, next: string, plusAsSpace: bool, utf8: Utf8)
    requires next == DecodeHtml(DecodePercent(s, plusAsSpace, utf8))
    ensures next == Round(s, plusAsSpace, utf8)
  {
  }

  lemma TwoRounds(s: string, plusAsSpace: bool, utf8: Utf8)
    ensures Cut(Rounds(s, ROUNDS, plusAsSpace, utf8)) == Normalized(s, plusAsSpace, utf8)
  {
    hide Round;
    assert Rounds(s, 2, plusAsSpace, utf8) == Rounds(Round(s, plusAsSpace, utf8), 1, plusAsSpace, utf8);
  }

  /** Normalising never lengthens a request, and keeps the first 16384 characters at most. */
  lemma {:induction false} NormalizedLength(s: string, plusAsSpace: bool, utf8: Utf8)
    requires IsUtf8(utf8)
    ensures |Normalized(s, plusAsSpace, utf8)| <= |s| && |Normalized(s, plusAsSpace, utf8)| <= 16_384
    ensures Cut(s) <= s && |Cut(s)| == if |s| < 16_384 then |s| else 16_384
  {
    hide DecodeHtml, DecodePercent;
    RoundShortens(s, plusAsSpace, utf8);
    RoundShortens(Round(s, plusAsSpace, utf8), plusAsSpace, utf8);
  }

  lemma RoundShortens(s: string, plusAsSpace: bool, utf8: Utf8)
    requires IsUtf8(utf8)
    ensures |Round(s, plusAsSpace, utf8)| <= |s|
  {
    hide DecodeHtml, DecodePercent;
    PercentShortens(s, plusAsSpace, utf8);
    HtmlShortens(DecodePercent(s, plusAsSpace, utf8));
  }

  /** As decoding only shortens, both halves of a round leave a fixed point as it is. */
  lemma {:induction false} HtmlFixed(s: string, plusAsSpace: bool, utf8: Utf8)
    requires IsUtf8(utf8) && Round(s, plusAsSpace, utf8) == s
    ensures DecodePercent(s, plusAsSpace, utf8) == s && DecodeHtml(s) == s
  {
    hide DecodeHtml, DecodePercent;
    PercentShortens(s, plusAsSpace, utf8);
    HtmlShortens(DecodePercent(s, plusAsSpace, utf8));
  }

  /** A text without the characters that begin an encoding is left as it is. */
  lemma {:induction false} PlainIsNormal(s: string, plusAsSpace: bool, utf8: Utf8)
    requires '%' !in s && '+' !in s && '&' !in s && |s| <= MAX_LENGTH
    ensures Normalized(s, plusAsSpace, utf8) == s
  {
    hide DecodeHtml, DecodePercent;
    PlainPercent(s, plusAsSpace, utf8);
    NoAmpersand(s);
  }

  lemma {:induction false} PlainPercent(s: string, plusAsSpace: bool, utf8: Utf8)
    requires '%' !in s && '+' !in s
    ensures DecodePercent(s, plusAsSpace, utf8) == s
  {
    if s != "" {
      assert s[0] in s && s == [s[0]] + s[1..];
      PlainPercent(s[1..], plusAsSpace, utf8);
      PlainFirst(s[0], s[1..], plusAsSpace, utf8);
    }
  }

  // ---------------------------------------------------------------- encoding

  /** The characters an encoder may leave as they are: none of `%`, `+` and `&`. */
  ghost predicate Encoder(keep: char -> bool) {
    !keep('%') && !keep('+') && !keep('&')
  }

  function Digit(v: int): char
    requires 0 <= v < 16
  {
    if v < 10 then ('0' as int + v) as char else ('A' as int + v - 10) as char
  }

  function EncodeChar(c: char, keep: char -> bool): string
    requires c < '\U{80}'
  {
    if keep(c) then [c] else ['%', Digit(c as int / 16), Digit(c as int % 16)]
  }

  function Encode(s: string, keep: char -> bool): string
    requires Ascii(s)
  {
    if s == "" then "" else EncodeChar(s[0], keep) + Encode(s[1..], keep)
  }

  lemma {:induction false} EncodedIsAscii(s: string, keep: char -> bool)
    requires Ascii(s) && Encoder(keep)
    ensures Ascii(Encode(s, keep)) && '&' !in Encode(s, keep) && '+' !in Encode(s, keep)
  {
    if s != "" {
      EncodedIsAscii(s[1..], keep);
      assert '&' !in EncodeChar(s[0], keep) && '+' !in EncodeChar(s[0], keep);
    }
  }

  /** One round undoes one encoding; what it uncovers may hold entities. */
  lemma RoundOfEncoded(s: string, keep: char -> bool, plusAsSpace: bool, utf8: Utf8)
    requires IsUtf8(utf8) && Ascii(s) && Encoder(keep)
    ensures Round(Encode(s, keep), plusAsSpace, utf8) == DecodeHtml(s)
  {
    PercentRoundTrip(s, keep, plusAsSpace, utf8);
  }

  /** A doubly encoded request normalises to its text, entities decoded once. */
  lemma {:induction false} DoublyEncoded(s: string, keep: char -> bool, plusAsSpace: bool, utf8: Utf8)
    requires IsUtf8(utf8) && Ascii(s) && Encoder(keep)
    ensures Ascii(Encode(s, keep))
    ensures Normalized(Encode(Encode(s, keep), keep), plusAsSpace, utf8) == Cut(DecodeHtml(s))
  {
    hide DecodeHtml, Round;
    EncodedIsAscii(s, keep);
    var once := Encode(s, keep);
    RoundOfEncoded(once, keep, plusAsSpace, utf8);
    NoAmpersand(once);
    RoundOfEncoded(s, keep, plusAsSpace, utf8);
  }

  /**
   `text` is an encoding of `s`: any character may be encoded, with digits of either letter case, or
   left as it is unless it would be read as something else; a space may be a plus sign where that is
   read as one.
   */
  predicate Encodes(text: string, s: string, plusAsSpace: bool)
    decreases |s|
  {
    if s == "" || text == "" then s == text
    else
      || (text[0] == s[0] && s[0] != '%' && !(s[0] == '+' && plusAsSpace) && Encodes(text[1..], s[1..], plusAsSpace))
      || (text[0] == '+' && plusAsSpace && s[0] == ' ' && Encodes(text[1..], s[1..], plusAsSpace))
      || (|text| > 2 && text[0] == '%' && Spells(text[1], s[0] as int / 16) && Spells(text[2], s[0] as int % 16)
          && Encodes(text[3..], s[1..], plusAsSpace))
  }

  /** A text that holds no percent sign is an encoding of itself, up to plus signs read as spaces. */
  lemma {:induction false} PlainEncodes(text: string, s: string, plusAsSpace: bool)
    requires '%' !in s && |text| == |s|
    requires forall i :: 0 <= i < |s| ==>
               if text[i] == '+' && plusAsSpace then s[i] == ' ' else s[i] == text[i] && !(s[i] == '+' && plusAsSpace)
    ensures Encodes(text, s, plusAsSpace)
  {
    if s != "" {
      assert s[0] in s;
      PlainEncodes(text[1..], s[1..], plusAsSpace);
    }
  }

  lemma TripletsAfter(text: string, n: nat)
    requires n <= |text| && AsciiTriplets(text[n..])
    requires forall i :: 0 <= i < n && Triplet(text[i..]) ==> ByteOf(text[i..]) < 128
    ensures AsciiTriplets(text)
  {
    forall i | n <= i < |text| && Triplet(text[i..]) ensures ByteOf(text[i..]) < 128 {
      assert text[i..] == text[n..][i - n..];
    }
  }

  lemma DigitsAreNoTriplet(text: string)
    requires Triplet(text)
    ensures !Triplet(text[1..]) && !Triplet(text[2..])
  {
  }

  /** Triplet by triplet, every encoding of a text is read as the text. */
  lemma {:induction false} EncodedTriplets(text: string, s: string, plusAsSpace: bool)
    requires Ascii(s) && Encodes(text, s, plusAsSpace)
    ensures DecodeEach(text, plusAsSpace) == s && AsciiTriplets(text)
    decreases |s|
  {
    hide Spells, Hex, AsciiTriplets;
    if s != "" {
      assert text[0..] == text && [s[0]] + s[1..] == s;
      if text[0] == '%' {
        HexExactly(text[1]);
        HexExactly(text[2]);
        EncodedTriplets(text[3..], s[1..], plusAsSpace);
        assert ByteOf(text) == s[0] as int;
        DigitsAreNoTriplet(text);
        TripletsAfter(text, 3);
      } else {
        EncodedTriplets(text[1..], s[1..], plusAsSpace);
        TripletsAfter(text, 1);
      }
    } else {
      NoTriplets();
    }
  }

  lemma NoTriplets()
    ensures AsciiTriplets("")
  {
  }

  /** Decoding undoes every encoding: in either letter case, and in both readings of `+`. */
  lemma {:induction false} EncodingRead(text: string, s: string, plusAsSpace: bool, utf8: Utf8)
    requires IsUtf8(utf8) && Ascii(s) && Encodes(text, s, plusAsSpace)
    ensures DecodePercent(text, plusAsSpace, utf8) == s
  {
    EncodedTriplets(text, s, plusAsSpace);
    RunsAreTriplets(text, plusAsSpace, utf8);
  }

  lemma {:induction false} EncodeIsEncoding(s: string, keep: char -> bool, plusAsSpace: bool)
    requires Ascii(s) && Encoder(keep)
    ensures Encodes(Encode(s, keep), s, plusAsSpace)
  {
    if s != "" {
      EncodeIsEncoding(s[1..], keep, plusAsSpace);
      var text := Encode(s, keep);
      if keep(s[0]) {
        assert text[1..] == Encode(s[1..], keep);
      } else {
        DigitSpells(s[0] as int / 16);
        DigitSpells(s[0] as int % 16);
        assert text[3..] == Encode(s[1..], keep);
      }
    }
  }

  lemma DigitSpells(v: int)
    requires 0 <= v < 16
    ensures Spells(Digit(v), v)
  {
    HexExactly(Digit(v));
  }

  /** Percent decoding undoes percent encoding, in both readings of `+`. */
  lemma {:induction false} PercentRoundTrip(s: string, keep: char -> bool, plusAsSpace: bool, utf8: Utf8)
    requires IsUtf8(utf8) && Ascii(s) && Encoder(keep)
    ensures DecodePercent(Encode(s, keep), plusAsSpace, utf8) == s
  {
    EncodeIsEncoding(s, keep, plusAsSpace);
    EncodingRead(Encode(s, keep), s, plusAsSpace, utf8);
  }

  /** A request encoded twice, in any such way, normalises to its text, entities decoded once. */
  lemma {:induction false} TwiceEncoded(text: string, once: string, s: string, plusAsSpace: bool, utf8: Utf8)
    requires IsUtf8(utf8) && Ascii(once) && Ascii(s) && '&' !in once
    requires Encodes(text, once, plusAsSpace) && Encodes(once, s, plusAsSpace)
    ensures Normalized(text, plusAsSpace, utf8) == Cut(DecodeHtml(s))
  {
    hide DecodeHtml, DecodePercent, Encodes;
    EncodingRead(text, once, plusAsSpace, utf8);
    NoAmpersand(once);
    EncodingRead(once, s, plusAsSpace, utf8);
  }

  /** A fixed point of one round is what itself, its encoding and its double encoding normalise to. */
  lemma {:induction false} FixedPoint(s: string, keep: char -> bool, plusAsSpace: bool, utf8: Utf8)
    requires IsUtf8(utf8) && Ascii(s) && Encoder(keep)
    requires Round(s, plusAsSpace, utf8) == s && |s| <= MAX_LENGTH
    ensures Normalized(s, plusAsSpace, utf8) == s
    ensures Normalized(Encode(s, keep), plusAsSpace, utf8) == s
    ensures Ascii(Encode(s, keep)) && Normalized(Encode(Encode(s, keep), keep), plusAsSpace, utf8) == s
  {
    hide DecodeHtml, Round;
    HtmlFixed(s, plusAsSpace, utf8);
    RoundOfEncoded(s, keep, plusAsSpace, utf8);
    DoublyEncoded(s, keep, plusAsSpace, utf8);
  }

  /** A third encoding is never removed. */
  lemma {:induction false} TriplyEncoded(s: string, keep: char -> bool, plusAsSpace: bool, utf8: Utf8)
    requires IsUtf8(utf8) && Ascii(s) && Encoder(keep)
    ensures Ascii(Encode(s, keep)) && Ascii(Encode(Encode(s, keep), keep))
    ensures Normalized(Encode(Encode(Encode(s, keep), keep), keep), plusAsSpace, utf8) == Cut(Encode(s, keep))
  {
    hide DecodeHtml, Normalized;
    EncodedIsAscii(s, keep);
    EncodedIsAscii(Encode(s, keep), keep);
    DoublyEncoded(Encode(s, keep), keep, plusAsSpace, utf8);
    NoAmpersand(Encode(s, keep));
  }
}
