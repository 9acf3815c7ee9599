/** Parsing access-log lines: one line, and a block of lines. */
module LogLine {
  import opened Options
  import opened LogFormat

  // ---------------------------------------------------------------- numbers

  function Digit(d: int): char
    requires 0 <= d < 10
  {
    ('0' as int + d) as char
  }

  /** The value of a text of decimal digits. */
  function Value(s: string): int {
    if s == "" then 0 else 10 * Value(s[..|s| - 1]) + DigitValue(s[|s| - 1])
  }

  /** A number as it is printed. */
  function Decimal(n: nat): (s: string)
    ensures s != "" && AllDigits(s)
  {
    if n < 10 then [Digit(n)] else Decimal(n / 10) + [Digit(n % 10)]
  }

  function Power(base: nat, n: nat): nat { if n == 0 then 1 else base * Power(base, n - 1) }

  /** A text of n digits stands for a number below ten to the n. */
  lemma {:induction false} ValueBound(s: string)
    requires AllDigits(s)
    ensures 0 <= Value(s) < Power(10, |s|)
  {
    hide ZeroOf, IsDigit, DigitValue;
    if s != "" {
      var n := |s| - 1;
      ValueBound(s[..n]);
      DigitRange(s[n]);
      assert IsDigit(s[n]);
    }
  }

  lemma {:induction false} DecimalValue(n: nat)
    ensures Value(Decimal(n)) == n
  {
    var s := Decimal(n);
    if n < 10 {
      assert s[..0] == "";
    } else {
      DecimalValue(n / 10);
      assert s[..|s| - 1] == Decimal(n / 10);
    }
  }

  // ----------------------------------------------------------- the request

  datatype RequestLine = RequestLine(verb: string, target: string, protocol: string)

  /** `[A-Z!-~]`, of which the second range covers the first. */
  predicate IsVerbChar(c: char) { '!' <= c <= '~' }

  predicate IsVerb(s: string) { s != "" && forall i :: 0 <= i < |s| ==> IsVerbChar(s[i]) }

  predicate IsTarget(s: string) { s != "" && forall i :: 0 <= i < |s| ==> !IsSpace(s[i]) }

  predicate IsProtocol(s: string) {
    StartsWith(s, "HTTP/") && |s| > 5 && forall i :: 5 <= i < |s| ==> IsDigit(s[i]) || s[i] == '.'
  }

  predicate WellFormedRequest(r: RequestLine) { IsVerb(r.verb) && IsTarget(r.target) && IsProtocol(r.protocol) }

  /** What a request line is made of. */
  lemma {:induction false} RequestLineExactly(r: RequestLine)
    ensures WellFormedRequest(r) <==>
              && r.verb != "" && (forall c :: c in r.verb ==> 0x21 <= c as int <= 0x7e)
              && r.target != "" && (forall c :: c in r.target ==> !IsSpace(c))
              && exists v :: r.protocol == "HTTP/" + v && v != "" && forall c :: c in v ==> IsDigit(c) || c == '.'
  {
    hide IsSpace, IsDigit;
    assert forall i :: 0 <= i < |r.verb| ==> r.verb[i] in r.verb;
    assert forall i :: 0 <= i < |r.target| ==> r.target[i] in r.target;
    ProtocolExactly(r.protocol);
  }

  lemma ProtocolExactly(s: string)
    ensures IsProtocol(s)
       <==> exists v :: s == "HTTP/" + v && v != "" && forall c :: c in v ==> IsDigit(c) || c == '.'
  {
    hide IsDigit;
    if IsProtocol(s) {
      assert s == "HTTP/" + s[5..];
      forall c | c in s[5..] ensures IsDigit(c) || c == '.' {
        var i :| 0 <= i < |s[5..]| && s[5..][i] == c;
        assert s[i + 5] == c;
      }
    }
    if v :| s == "HTTP/" + v && v != "" && forall c :: c in v ==> IsDigit(c) || c == '.' {
      forall i | 5 <= i < |s| ensures IsDigit(s[i]) || s[i] == '.' { assert s[i] == v[i - 5] && v[i - 5] in v; }
    }
  }

  function ShownRequest(r: RequestLine): string { r.verb + (" " + (r.target + (" " + r.protocol))) }

  function ToBlank(s: string): (n: nat)
    ensures n <= |s| && (forall i :: 0 <= i < n ==> s[i] != ' ') && (n < |s| ==> s[n] == ' ')
  {
    if s == "" || s[0] == ' ' then 0 else 1 + ToBlank(s[1..])
  }

  /** `$` also matches before a final line break. */
  function WithoutFinalBreak(s: string): string {
    if s != "" && s[|s| - 1] == '\n' then s[..|s| - 1] else s
  }

  function ScanRequest(s: string): Option<RequestLine> {
    var n := ToBlank(s);
    if n == |s| then None
    else
      var rest := s[n + 1..];
      var m := ToBlank(rest);
      if m == |rest| then None
      else
        var r := RequestLine(s[..n], rest[..m], WithoutFinalBreak(rest[m + 1..]));
        if WellFormedRequest(r) then Some(r) else None
  }

  lemma {:induction false} ToBlankOf(word: string, rest: string)
    requires forall i :: 0 <= i < |word| ==> word[i] != ' '
    ensures ToBlank(word + (" " + rest)) == |word|
    ensures (word + (" " + rest))[|word| + 1..] == rest && (word + (" " + rest))[..|word|] == word
  {
    var s := word + (" " + rest);
    assert s[|word|] == ' ';
    assert forall i :: 0 <= i < |word| ==> s[i] == word[i];
  }

  lemma FinalBreak(s: string)
    ensures s == WithoutFinalBreak(s) || s == WithoutFinalBreak(s) + "\n"
    ensures s == "" || s[|s| - 1] != '\n' ==> WithoutFinalBreak(s) == s && WithoutFinalBreak(s + "\n") == s
  {
    assert (s + "\n")[..|s|] == s;
  }

  lemma SplitAtBlank(s: string)
    requires ToBlank(s) < |s|
    ensures s == s[..ToBlank(s)] + (" " + s[ToBlank(s) + 1..])
  {
  }

  /** The request is recognised exactly when it is a request line, perhaps followed by a line break. */
  lemma {:induction false} ScanRequestExactly(s: string, r: RequestLine)
    ensures ScanRequest(s) == Some(r)
        <==> WellFormedRequest(r) && (s == ShownRequest(r) || s == ShownRequest(r) + "\n")
  {
    hide IsProtocol, IsVerb, IsTarget, ToBlank, WithoutFinalBreak, IsSpace;
    if ScanRequest(s) == Some(r) { ScannedRequest(s); }
    if WellFormedRequest(r) {
      if s == ShownRequest(r) { RequestScanned(r, ""); assert s + "" == s; }
      if s == ShownRequest(r) + "\n" { RequestScanned(r, "\n"); }
    }
  }

  lemma EndLast(a: string, b: string, c: string, end: string)
    ensures a + (" " + (b + (" " + (c + end)))) == (a + (" " + (b + (" " + c)))) + end
  {
    var inner := b + (" " + c);
    assert b + (" " + (c + end)) == inner + end;
    assert " " + (inner + end) == (" " + inner) + end;
    assert a + ((" " + inner) + end) == (a + (" " + inner)) + end;
  }

  lemma ScannedRequest(s: string)
    requires ScanRequest(s).Some?
    ensures var r := ScanRequest(s).value;
            WellFormedRequest(r) && (s == ShownRequest(r) || s == ShownRequest(r) + "\n")
  {
    hide IsProtocol, IsVerb, IsTarget, WithoutFinalBreak, IsSpace, ToBlank;
    var rest := s[ToBlank(s) + 1..];
    var r := ScanRequest(s).value;
    SplitAtBlank(s);
    SplitAtBlank(rest);
    FinalBreak(rest[ToBlank(rest) + 1..]);
    EndLast(r.verb, r.target, r.protocol, "\n");
  }

  lemma RequestScanned(r: RequestLine, end: string)
    requires WellFormedRequest(r) && (end == "" || end == "\n")
    ensures ScanRequest(ShownRequest(r) + end) == Some(r)
  {
    hide ToBlank, IsProtocol, IsVerb, IsTarget, WithoutFinalBreak, IsSpace;
    var protocol := r.protocol + end;
    var rest := r.target + (" " + protocol);
    EndLast(r.verb, r.target, r.protocol, end);
    WordsAreUnbroken(r);
    ToBlankOf(r.verb, rest);
    ToBlankOf(r.target, protocol);
    FinalBreak(r.protocol);
    if end == "" { assert protocol == r.protocol; }
  }

  lemma WordsAreUnbroken(r: RequestLine)
    requires WellFormedRequest(r)
    ensures forall i :: 0 <= i < |r.verb| ==> r.verb[i] != ' '
    ensures forall i :: 0 <= i < |r.target| ==> r.target[i] != ' '
    ensures r.protocol != "" && r.protocol[|r.protocol| - 1] != '\n'
  {
  }

  // ----------------------------------------------------- path and query

  function ToQuestion(s: string): (n: nat)
    ensures n <= |s| && '?' !in s[..n] && (n < |s| ==> s[n] == '?')
  {
    if s == "" || s[0] == '?' then 0
    else
      var n := ToQuestion(s[1..]);
      assert s[..n + 1] == [s[0]] + s[1..][..n];
      n + 1
  }

  /** `target.partition("?")`. */
  function PathOf(target: string): string { target[..ToQuestion(target)] }

  function QueryOf(target: string): string {
    if ToQuestion(target) < |target| then target[ToQuestion(target) + 1..] else ""
  }

  /** Path and query recombine to the target, and the path ends at its first question mark. */
  lemma {:induction false} TargetExactly(target: string, path: string, query: string)
    ensures path == PathOf(target) && query == QueryOf(target)
        <==> '?' !in path && if '?' in target then target == path + ("?" + query) else target == path && query == ""
  {
    var n := ToQuestion(target);
    if n < |target| {
      assert target == target[..n] + ("?" + target[n + 1..]);
      assert target[n] in target;
      if '?' !in path && target == path + ("?" + query) {
        assert target[|path|] == '?';
        assert forall i :: 0 <= i < n ==> target[..n][i] == target[i];
        assert forall i :: 0 <= i < |path| ==> path[i] == target[i];
        assert |path| == n;
      }
    } else {
      assert target[..n] == target;
    }
  }

  // ----------------------------------------------------------- parse_line

  /** A floating-point number, without its rounding. */
  datatype Float = Finite(value: real) | Infinite

  /** The least integer that rounds to no finite double. */
  const FLOAT_LIMIT: int := Power(2, 1024) - Power(2, 970)

  /** Library calls whose result is opaque here. */
  datatype Library = Library(
    toFloat: string -> Option<Float>, toTime: string -> Option<string>, unquote: string -> string)

  datatype Entry = Entry(
    srcIp: string, remoteUser: string, verb: string, path: string, queryString: string, protocol: string,
    status: Option<int>, bodyBytes: int, referer: string, userAgent: string, host: string,
    requestTime: Option<Float>, sessionId: string, requestTs: Option<string>, logTimeRaw: string,
    logSource: string, pathDecoded: string, queryDecoded: string)

  /** The first two are instances of ValueError; an overflow is not. */
  datatype ParseError = NoMatch | BadNumber | Overflow

  /** `int` refuses longer texts. */
  const MAX_INT_DIGITS := 4300

  function DashToEmpty(value: string): string { if value == "-" then "" else value }

  /** `raw.rstrip("\n")`. */
  function WithoutBreaks(s: string): string {
    if s != "" && s[|s| - 1] == '\n' then WithoutBreaks(s[..|s| - 1]) else s
  }

  /** A request that is no request line is kept whole, as the target. */
  function RequestOf(request: string): RequestLine {
    match ScanRequest(request)
    case Some(r) => r
    case None => RequestLine("", request, "")
  }

  /** The request time in seconds, if there is one. */
  function TimeOf(d: Duration, lib: Library): Result<Option<Float>, ParseError> {
    match d
    case Unknown => Ok(None)
    case InSeconds(text) => (
      match lib.toFloat(text)
      case Some(t) => Ok(Some(t))
      case None => Err(BadNumber))
    case InMicros(text) =>
      if |text| > MAX_INT_DIGITS then Err(BadNumber)
      else if Value(text) >= FLOAT_LIMIT then Err(Overflow)
      else Ok(Some(Finite(Value(text) as real / 1_000_000.0)))
  }

  /** The request time, unless some number of the line cannot be read. */
  function NumbersOf(p: Parts, lib: Library): Result<Option<Float>, ParseError>
    requires |p.fields| == |FIELDS|
  {
    if |p.fields[6]| > MAX_INT_DIGITS then Err(BadNumber) else TimeOf(p.tail.duration, lib)
  }

  function StatusOf(text: string): Option<int> { if text == "-" then None else Some(Value(text)) }

  function BytesOf(text: string): int { if text == "-" then 0 else Value(text) }

  function EntryOf(p: Parts, time: Option<Float>, logSource: string, lib: Library): Entry
    requires |p.fields| == 9
  {
    var r := RequestOf(p.fields[4]);
    var path, query := PathOf(r.target), QueryOf(r.target);
    Entry(
      p.fields[0], DashToEmpty(p.fields[2]), r.verb, path, query, r.protocol,
      StatusOf(p.fields[5]), BytesOf(p.fields[6]), DashToEmpty(p.fields[7]), DashToEmpty(p.fields[8]),
      OrEmpty(p.tail.host), time, DashToEmpty(OrEmpty(p.tail.sid)), lib.toTime(p.fields[3]), p.fields[3],
      logSource, lib.unquote(path), lib.unquote(query))
  }

  function ParseLine(raw: string, logSource: string, lib: Library): Result<Entry, ParseError> {
    match ScanLine(WithoutBreaks(raw))
    case None => Err(NoMatch)
    case Some(p) =>
      match NumbersOf(p, lib)
      case Err(e) => Err(e)
      case Ok(time) => Ok(EntryOf(p, time, logSource, lib))
  }

  /** A line parses exactly when it has the format and its numbers can be read. */
  lemma {:induction false} ParsesExactly(raw: string, logSource: string, lib: Library)
    ensures ParseLine(raw, logSource, lib).Ok?
        <==> exists p :: WellFormed(p) && WithoutBreaks(raw) == ShownLine(p) && NumbersOf(p, lib).Ok?
    ensures forall p :: WellFormed(p) && WithoutBreaks(raw) == ShownLine(p) && NumbersOf(p, lib).Ok? ==>
              ParseLine(raw, logSource, lib) == Ok(EntryOf(p, NumbersOf(p, lib).value, logSource, lib))
  {
    hide ScanLine, TailFits, Fits, ShownLine, EntryOf, NumbersOf, WithoutBreaks;
    var line := WithoutBreaks(raw);
    forall p ensures ScanLine(line) == Some(p) <==> WellFormed(p) && line == ShownLine(p) { ScanLineExactly(line, p); }
  }

  /** A line of the format whose time in microseconds is too large for a float. */
  ghost predicate TooLarge(p: Parts) {
    && |p.fields| == |FIELDS| && |p.fields[6]| <= MAX_INT_DIGITS
    && p.tail.duration.InMicros?
    && |p.tail.duration.text| <= MAX_INT_DIGITS && Value(p.tail.duration.text) >= FLOAT_LIMIT
  }

  /** Exactly when parsing a line ends in an overflow, which is no ValueError. */
  lemma {:induction false} OverflowsExactly(raw: string, logSource: string, lib: Library)
    ensures ParseLine(raw, logSource, lib) == Err(Overflow)
        <==> exists p :: WellFormed(p) && WithoutBreaks(raw) == ShownLine(p) && TooLarge(p)
  {
    hide ScanLine, TailFits, Fits, ShownLine, EntryOf, WithoutBreaks, Value;
    var line := WithoutBreaks(raw);
    forall p ensures ScanLine(line) == Some(p) <==> WellFormed(p) && line == ShownLine(p) { ScanLineExactly(line, p); }
  }

  lemma {:induction false} PowersOfSixteen(n: nat)
    ensures Power(10, n) <= Power(2, 4 * n)
  {
    if n > 0 {
      PowersOfSixteen(n - 1);
      PowerOfFour(4 * n - 4);
    }
  }

  lemma PowerOfFour(n: nat)
    ensures Power(2, n + 3) == 8 * Power(2, n) && Power(2, n + 4) == 16 * Power(2, n)
  {
    hide Power;
    NextPower(n);
    NextPower(n + 1);
    NextPower(n + 2);
    NextPower(n + 3);
  }

  lemma {:induction false} PowersGrow(m: nat, n: nat)
    requires m <= n
    ensures 0 < Power(2, m) <= Power(2, n)
  {
    if m > 0 { PowersGrow(m - 1, n - 1); } else if n > 0 { PowersGrow(0, n - 1); }
  }

  /** A time of at most 242 digits never overflows. */
  lemma {:induction false} ShortTimesFit(text: string)
    requires AllDigits(text) && |text| <= 242
    ensures Value(text) < FLOAT_LIMIT
  {
    hide Power, Value, AllDigits;
    ValueBound(text);
    PowersOfSixteen(|text|);
    PowersGrow(4 * |text|, 970);
    LimitAbove();
  }

  lemma LimitAbove()
    ensures FLOAT_LIMIT >= Power(2, 970)
  {
    hide Power;
    PowersGrow(971, 1024);
    NextPower(970);
  }

  lemma NextPower(n: nat)
    ensures Power(2, n + 1) == 2 * Power(2, n)
  {
  }

  function Nines(n: nat): string { if n == 0 then "" else Nines(n - 1) + "9" }

  lemma {:induction false} NinesAre(n: nat)
    ensures |Nines(n)| == n && AllDigits(Nines(n))
  {
    hide ZeroOf, IsDigit;
    if n > 0 {
      NinesAre(n - 1);
      DigitRange('9');
    }
  }

  lemma {:induction false} NinesValue(n: nat)
    ensures Value(Nines(n)) >= Power(2, 3 * n) - 1
  {
    hide DigitValue;
    if n > 0 {
      NinesValue(n - 1);
      DigitRange('9');
      assert Nines(n)[..|Nines(n)| - 1] == Nines(n - 1);
      PowerOfFour(3 * n - 3);
      PowersGrow(0, 3 * n - 3);
    }
  }

  /** A time of 342 nines does. */
  lemma {:induction false} LongTimesOverflow()
    ensures |Nines(342)| == 342 && AllDigits(Nines(342)) && Value(Nines(342)) >= FLOAT_LIMIT
  {
    hide Power, Value, AllDigits, Nines;
    NinesAre(342);
    NinesValue(342);
    PowersGrow(1024, 1026);
    PowersGrow(0, 970);
    assert Power(2, 0) == 1 by { PowerZero(); }
  }

  lemma PowerZero()
    ensures Power(2, 0) == 1
  {
  }

  // ------------------------------------------------- printing and parsing

  /**
   What a web server prints: the values of the `waf_combined` format, the tail being optional. Nginx
   prints the size as a number and the time in seconds, Apache no size as `-` and microseconds. The
   request is printed as the client sent it, which may be anything.
   */
  datatype Printed = Printed(
    remote: string, user: string, time: string, request: Asked, status: Option<nat>, bytes: Option<nat>,
    referer: string, agent: string, extended: Option<Extended>)

  datatype Asked = Proper(line: RequestLine) | Garbage(text: string)

  datatype Extended = Extended(host: string, duration: Duration, sid: string)

  /** A request line, or a text that is none, without the quote that would end it. */
  ghost predicate WellAsked(a: Asked) {
    match a
    case Proper(r) => WellFormedRequest(r) && '"' !in r.verb && '"' !in r.target
    case Garbage(text) =>
      '"' !in text && forall r :: WellFormedRequest(r) ==> text != ShownRequest(r) && text != ShownRequest(r) + "\n"
  }

  function AskedText(a: Asked): string { if a.Proper? then ShownRequest(a.line) else a.text }

  ghost predicate Printable(x: Printed) {
    && Fits(Word, x.remote) && Fits(Word, x.user) && Fits(Time, x.time)
    && WellAsked(x.request)
    && (x.status.Some? ==> 100 <= x.status.value < 1000)
    && WellEscaped(x.referer) && WellEscaped(x.agent)
    && (x.extended.Some? ==>
          Fits(Host, x.extended.value.host) && DurationFits(x.extended.value.duration)
          && Fits(Sid, x.extended.value.sid))
  }

  function StatusText(status: Option<nat>): string { if status.None? then "-" else Decimal(status.value) }

  function SizeText(bytes: Option<nat>): string { if bytes.None? then "-" else Decimal(bytes.value) }

  function FieldsOf(x: Printed): seq<string> {
    [x.remote, "-", x.user, x.time, AskedText(x.request), StatusText(x.status), SizeText(x.bytes), x.referer, x.agent]
  }

  function TailOf(x: Printed): Tail {
    match x.extended
    case None => Tail(None, Unknown, None, "")
    case Some(e) => Tail(Some(e.host), e.duration, Some(e.sid), "")
  }

  function PrintDuration(d: Duration): string {
    match d
    case Unknown => ""
    case InSeconds(text) => " rt=" + text
    case InMicros(text) => " rt_us=" + text
  }

  function PrintTail(x: Printed): string {
    match x.extended
    case None => ""
    case Some(e) => (" \"" + e.host + "\"") + (PrintDuration(e.duration) + (" sid=\"" + e.sid + "\""))
  }

  /** The format string of the server with its variables replaced. */
  function Print(x: Printed): string {
    (x.remote + " ") + (("- ") + ((x.user + " ") + (("[" + x.time + "] ")
    + (("\"" + AskedText(x.request) + "\" ") + ((StatusText(x.status) + " ") + ((SizeText(x.bytes) + " ")
    + (("\"" + x.referer + "\" ") + (("\"" + x.agent + "\"") + PrintTail(x)))))))))
  }

  /**
   What parsing the printed line must give, field by field. A request that is no request line is
   kept whole, as the target.
   */
  function Expected(x: Printed, time: Option<Float>, logSource: string, lib: Library): Entry {
    var target := if x.request.Proper? then x.request.line.target else x.request.text;
    var path, query := PathOf(target), QueryOf(target);
    Entry(
      x.remote, if x.user == "-" then "" else x.user,
      if x.request.Proper? then x.request.line.verb else "", path, query,
      if x.request.Proper? then x.request.line.protocol else "",
      x.status, if x.bytes.None? then 0 else x.bytes.value,
      if x.referer == "-" then "" else x.referer, if x.agent == "-" then "" else x.agent,
      if x.extended.Some? then x.extended.value.host else "", time,
      if x.extended.None? || x.extended.value.sid == "-" then "" else x.extended.value.sid,
      lib.toTime(x.time), x.time, logSource, lib.unquote(path), lib.unquote(query))
  }

  /** The groups from the k-th on, followed by `rest`. */
  function ShownFrom(fields: seq<string>, k: nat, rest: string): string
    requires |fields| == |FIELDS| && k <= |FIELDS|
    decreases |FIELDS| - k
  {
    if k == |FIELDS| then rest else Shown(FIELDS[k], fields[k]) + ShownFrom(fields, k + 1, rest)
  }

  lemma {:induction false} ShownFromIs(fields: seq<string>, k: nat, rest: string)
    requires |fields| == |FIELDS| && k <= |FIELDS|
    ensures ShownFrom(fields, k, rest) == ShownAll(FIELDS[k..], fields[k..]) + rest
    decreases |FIELDS| - k
  {
    hide Shown, FIELDS;
    if k < |FIELDS| {
      ShownFromIs(fields, k + 1, rest);
      assert FIELDS[k..][1..] == FIELDS[k + 1..] && fields[k..][1..] == fields[k + 1..];
    }
  }

  lemma Piece(fields: seq<string>, k: nat, rest: string)
    requires |fields| == |FIELDS| && k < |FIELDS|
    ensures ShownFrom(fields, k, rest)
         == (Open(FIELDS[k]) + fields[k] + Close(FIELDS[k])) + ShownFrom(fields, k + 1, rest)
  {
  }

  lemma PrintedLast(x: Printed, rest: string)
    ensures ShownFrom(FieldsOf(x), 5, rest)
         == (StatusText(x.status) + " ") + ((SizeText(x.bytes) + " ")
            + (("\"" + x.referer + "\" ") + (("\"" + x.agent + "\"") + rest)))
  {
    hide ShownFrom, StatusText, SizeText;
    var fs := FieldsOf(x);
    Piece(fs, 5, rest);
    Piece(fs, 6, rest);
    Piece(fs, 7, rest);
    Piece(fs, 8, rest);
    NothingFrom(fs, rest);
  }

  lemma NothingFrom(fields: seq<string>, rest: string)
    requires |fields| == |FIELDS|
    ensures ShownFrom(fields, 9, rest) == rest
  {
  }

  lemma PrintedFirst(x: Printed, rest: string)
    ensures ShownFrom(FieldsOf(x), 0, rest)
         == (x.remote + " ") + (("- ") + ((x.user + " ") + (("[" + x.time + "] ")
            + (("\"" + AskedText(x.request) + "\" ") + ShownFrom(FieldsOf(x), 5, rest)))))
  {
    hide ShownFrom, AskedText;
    var fs := FieldsOf(x);
    Piece(fs, 0, rest);
    Piece(fs, 1, rest);
    Piece(fs, 2, rest);
    Piece(fs, 3, rest);
    Piece(fs, 4, rest);
    assert "" + x.remote + " " == x.remote + " ";
    assert "" + "-" + " " == "- ";
    assert "" + x.user + " " == x.user + " ";
  }

  /** The printed line is the line of its groups. */
  lemma {:induction false} PrintIsShown(x: Printed)
    ensures Print(x) == ShownLine(Parts(FieldsOf(x), TailOf(x)))
  {
    hide ShownFrom, AskedText, ShownAll, ShownTail, StatusText, SizeText, PrintTail;
    PrintedTail(x);
    PrintedFirst(x, PrintTail(x));
    PrintedLast(x, PrintTail(x));
    ShownFromIs(FieldsOf(x), 0, PrintTail(x));
    assert FIELDS[0..] == FIELDS && FieldsOf(x)[0..] == FieldsOf(x);
  }

  lemma PrintedDuration(d: Duration)
    ensures PrintDuration(d) == ShownDuration(d)
  {
    match d
    case Unknown =>
    case InSeconds(text) => assert Shown(Seconds, text) == " rt=" + text;
    case InMicros(text) => assert Shown(Micros, text) == " rt_us=" + text;
  }

  lemma PrintedTail(x: Printed)
    ensures PrintTail(x) == ShownTail(TailOf(x))
  {
    if x.extended.Some? {
      var e := x.extended.value;
      PrintedDuration(e.duration);
    }
  }

  lemma PrintableFits(x: Printed)
    requires Printable(x)
    ensures WellFormed(Parts(FieldsOf(x), TailOf(x)))
  {
    hide Decimal, WellEscaped, ShownRequest, IsVerb, IsTarget, IsProtocol;
    if x.status.Some? { ThreeDigits(x.status.value); }
    if x.request.Proper? { RequestFits(x.request.line); }
    var fs := FieldsOf(x);
    forall i | 0 <= i < 9 ensures Fits(FIELDS[i], fs[i]) {
    }
  }

  lemma ThreeDigits(n: nat)
    requires 100 <= n < 1000
    ensures |Decimal(n)| == 3
  {
    assert |Decimal(n / 10 / 10)| == 1;
    assert |Decimal(n / 10)| == 2;
  }

  lemma RequestFits(r: RequestLine)
    requires WellFormedRequest(r) && '"' !in r.verb && '"' !in r.target
    ensures Fits(Request, ShownRequest(r))
  {
    assert '"' !in r.protocol by {
      if i :| 0 <= i < |r.protocol| && r.protocol[i] == '"' {
        if i < 5 { assert r.protocol[i] == "HTTP/"[i]; }
      }
    }
  }

  lemma EndsInQuote(x: Printed)
    ensures Print(x) != "" && Print(x)[|Print(x)| - 1] == '"' && WithoutBreaks(Print(x)) == Print(x)
  {
    hide AskedText, StatusText, SizeText, PrintDuration;
  }

  lemma AskedIsRead(a: Asked)
    requires WellAsked(a)
    ensures RequestOf(AskedText(a)) == if a.Proper? then a.line else RequestLine("", a.text, "")
  {
    hide ScanRequest, ShownRequest, WellFormedRequest;
    if a.Proper? {
      ScanRequestExactly(ShownRequest(a.line), a.line);
    } else if ScanRequest(a.text).Some? {
      ScanRequestExactly(a.text, ScanRequest(a.text).value);
    }
  }

  lemma EntryIsExpected(x: Printed, time: Option<Float>, logSource: string, lib: Library)
    requires Printable(x)
    ensures EntryOf(Parts(FieldsOf(x), TailOf(x)), time, logSource, lib) == Expected(x, time, logSource, lib)
  {
    hide PathOf, QueryOf, RequestOf, AskedText, WellAsked, Fits, WellEscaped, Decimal, Value;
    AskedIsRead(x.request);
    if x.status.Some? {
      DecimalValue(x.status.value);
      DecimalIsNoDash(x.status.value);
    }
    if x.bytes.Some? {
      DecimalValue(x.bytes.value);
      DecimalIsNoDash(x.bytes.value);
    }
  }

  lemma DecimalIsNoDash(n: nat)
    ensures Decimal(n) != "-"
  {
    assert IsDigit(Decimal(n)[0]);
  }

  function PartsOf(x: Printed): (p: Parts)
    ensures |p.fields| == |FIELDS|
  {
    Parts(FieldsOf(x), TailOf(x))
  }

  /** Parsing a printed line gives the printed values back, with or without the extended fields. */
  lemma {:induction false} RoundTrip(x: Printed, logSource: string, lib: Library)
    requires Printable(x)
    ensures var time := NumbersOf(PartsOf(x), lib);
            ParseLine(Print(x), logSource, lib)
              == if time.Ok? then Ok(Expected(x, time.value, logSource, lib)) else Err(time.error)
  {
    hide Print, FieldsOf, EntryOf, Expected, ScanLine, WellFormed, ShownLine, WithoutBreaks, TailOf, Printable;
    hide NumbersOf;
    var p := PartsOf(x);
    PrintIsShown(x);
    PrintableFits(x);
    EndsInQuote(x);
    ScanLineExactly(Print(x), p);
    var time := NumbersOf(p, lib);
    if time.Ok? { EntryIsExpected(x, time.value, logSource, lib); }
  }

  /** When the numbers of a printed line can be read: for sizes and times of any server that is not absurd. */
  lemma PrintedNumbers(x: Printed, lib: Library)
    ensures NumbersOf(PartsOf(x), lib).Ok?
       <==> && |SizeText(x.bytes)| <= 4300
            && (x.extended.Some? ==>
                  match x.extended.value.duration
                  case Unknown => true
                  case InSeconds(text) => lib.toFloat(text).Some?
                  case InMicros(text) => |text| <= 4300 && Value(text) < FLOAT_LIMIT)
  {
    hide Decimal, Value;
  }

  /** A line as Apache prints it: microseconds come back as seconds, and `-` as no bytes. */
  lemma {:induction false} ApacheRoundTrip(
    x: Printed, host: string, micros: nat, sid: string, logSource: string, lib: Library)
    requires Printable(x) && x.extended == Some(Extended(host, InMicros(Decimal(micros)), sid))
    requires |SizeText(x.bytes)| <= 4300 && |Decimal(micros)| <= 242
    ensures ParseLine(Print(x), logSource, lib)
         == Ok(Expected(x, Some(Finite(micros as real / 1_000_000.0)), logSource, lib))
  {
    hide Decimal, Value, Print, Expected, ParseLine, Printable, FLOAT_LIMIT;
    RoundTrip(x, logSource, lib);
    DecimalValue(micros);
    ShortTimesFit(Decimal(micros));
  }

  /** A line as nginx prints it: the seconds are read as a number, and a line without a time has none. */
  lemma {:induction false} NginxRoundTrip(x: Printed, logSource: string, lib: Library)
    requires Printable(x) && |SizeText(x.bytes)| <= 4300
    ensures x.extended.None? || x.extended.value.duration.Unknown? ==>
              ParseLine(Print(x), logSource, lib) == Ok(Expected(x, None, logSource, lib))
    ensures x.extended.Some? && x.extended.value.duration.InSeconds? ==>
              ParseLine(Print(x), logSource, lib)
              == match lib.toFloat(x.extended.value.duration.text)
                 case Some(t) => Ok(Expected(x, Some(t), logSource, lib))
                 case None => Err(BadNumber)
  {
    hide Decimal, Value, Print, Expected, ParseLine, Printable, FLOAT_LIMIT;
    RoundTrip(x, logSource, lib);
  }

  /** Line breaks at the end of a line are no part of it. */
  lemma {:induction false} TrailingBreaks(line: string, logSource: string, lib: Library)
    ensures ParseLine(line + "\n", logSource, lib) == ParseLine(line, logSource, lib)
    ensures line == "" || line[|line| - 1] != '\n' ==> WithoutBreaks(line) == line
  {
    hide ScanLine;
    assert (line + "\n")[..|line|] == line;
  }
}
