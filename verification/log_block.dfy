/** Parsing a raw event that may hold several log lines. */
module LogBlock {
  import opened Options
  import opened LogFormat
  import opened LogLine

  // ---------------------------------------------------------- splitting lines

  /** The line boundaries of `str.splitlines`. */
  predicate IsBreak(c: char) {
    || '\n' <= c <= '\r' || '\U{1c}' <= c <= '\U{1e}' || c == '\U{85}' || c == '\U{2028}' || c == '\U{2029}'
  }

  lemma BreaksExactly(c: char)
    ensures IsBreak(c) <==> c as int in [0x0a, 0x0b, 0x0c, 0x0d, 0x1c, 0x1d, 0x1e, 0x85, 0x2028, 0x2029]
  {
  }

  function ToBreak(s: string): (n: nat)
    ensures n <= |s| && (forall i :: 0 <= i < n ==> !IsBreak(s[i])) && (n < |s| ==> IsBreak(s[n]))
  {
    if s == "" || IsBreak(s[0]) then 0 else 1 + ToBreak(s[1..])
  }

  /** A carriage return and the line feed after it are one boundary. */
  function BreakLength(s: string): (n: nat)
    requires s != ""
    ensures 0 < n <= |s|
  {
    if s[0] == '\r' && |s| > 1 && s[1] == '\n' then 2 else 1
  }

  function SplitLines(s: string): seq<string>
    decreases |s|
  {
    if s == "" then []
    else
      var n := ToBreak(s);
      if n == |s| then [s] else [s[..n]] + SplitLines(s[n..][BreakLength(s[n..])..])
  }

  predicate BreakFree(line: string) { forall i :: 0 <= i < |line| ==> !IsBreak(line[i]) }

  function Joined(lines: seq<string>, end: string): string {
    if lines == [] then "" else (lines[0] + end) + Joined(lines[1..], end)
  }

  /** A line end: one boundary character, or a carriage return with its line feed. */
  predicate IsEnd(end: string) { (|end| == 1 && IsBreak(end[0])) || end == "\r\n" }

  lemma LineReach(line: string, rest: string)
    requires BreakFree(line) && (rest != "" ==> IsBreak(rest[0]))
    ensures ToBreak(line + rest) == |line| && (line + rest)[..|line|] == line && (line + rest)[|line|..] == rest
  {
    hide IsBreak;
    var s := line + rest;
    assert forall i :: 0 <= i < |line| ==> s[i] == line[i];
    assert rest != "" ==> s[|line|] == rest[0];
  }

  lemma EndReach(end: string, rest: string)
    requires IsEnd(end) && (end == "\r" && rest != "" ==> rest[0] != '\n')
    ensures BreakLength(end + rest) == |end| && (end + rest)[|end|..] == rest && IsBreak((end + rest)[0])
  {
    var s := end + rest;
    assert s[0] == end[0];
    if |end| == 1 {
      assert end == [end[0]];
      assert rest != "" ==> s[1] == rest[0];
    } else {
      assert s[1] == '\n';
    }
  }

  lemma {:induction false} FirstLine(line: string, end: string, rest: string)
    requires BreakFree(line) && IsEnd(end) && (end == "\r" && rest != "" ==> rest[0] != '\n')
    ensures SplitLines((line + end) + rest) == [line] + SplitLines(rest)
    ensures line != "" ==> SplitLines(line) == [line]
  {
    hide IsBreak, BreakFree, IsEnd, ToBreak, BreakLength;
    EndReach(end, rest);
    LineReach(line, end + rest);
    LineReach(line, "");
    assert line + (end + rest) == (line + end) + rest && line + "" == line;
  }

  /** After a carriage return alone, the next line does not begin with the line feed that would join it. */
  lemma NoLineFeed(lines: seq<string>)
    requires forall i :: 0 <= i < |lines| ==> BreakFree(lines[i])
    ensures Joined(lines, "\r") != "" ==> Joined(lines, "\r")[0] != '\n'
  {
    if lines != [] {
      assert BreakFree(lines[0]);
      assert Joined(lines, "\r")[0] == if lines[0] == "" then '\r' else lines[0][0];
    }
  }

  /** Splitting undoes joining, for every line end. */
  lemma {:induction false} SplitJoined(lines: seq<string>, end: string)
    requires (forall i :: 0 <= i < |lines| ==> BreakFree(lines[i])) && IsEnd(end)
    ensures SplitLines(Joined(lines, end)) == lines
  {
    hide SplitLines, BreakFree;
    if lines == [] {
      NoLines();
    } else {
      SplitJoined(lines[1..], end);
      if end == "\r" { NoLineFeed(lines[1..]); }
      FirstLine(lines[0], end, Joined(lines[1..], end));
    }
  }

  lemma NoLines()
    ensures SplitLines("") == []
  {
  }

  /** No line of a split text holds a boundary. */
  lemma {:induction false} LinesAreBreakFree(s: string)
    ensures forall i :: 0 <= i < |SplitLines(s)| ==> BreakFree(SplitLines(s)[i])
    decreases |s|
  {
    if s != "" {
      var n := ToBreak(s);
      if n < |s| { LinesAreBreakFree(s[n..][BreakLength(s[n..])..]); }
    }
  }

  // ----------------------------------------------------------- the raw event

  datatype Block = Block(parsed: seq<Entry>, invalid: nat)

  /** ValueError is raised when nothing is valid; an overflow of one line leaves the whole block. */
  datatype Outcome = Parsed(block: Block) | NothingValid | Overflowed

  predicate Overflows(line: string, logSource: string, lib: Library) {
    ParseLine(line, logSource, lib) == Err(Overflow)
  }

  /** `not line.strip()`. */
  predicate Blank(line: string) { AllSpace(line) }

  function Nonblank(lines: seq<string>): seq<string> {
    if lines == [] then []
    else
      var n := |lines| - 1;
      Nonblank(lines[..n]) + if Blank(lines[n]) then [] else [lines[n]]
  }

  /** The entries of the lines that parse, in the order of the lines. */
  function Entries(lines: seq<string>, logSource: string, lib: Library): seq<Entry> {
    if lines == [] then []
    else
      var n := |lines| - 1;
      var r := ParseLine(lines[n], logSource, lib);
      Entries(lines[..n], logSource, lib) + if r.Ok? then [r.value] else []
  }

  lemma NextLine(lines: seq<string>, i: nat, logSource: string, lib: Library)
    requires i < |lines|
    ensures var before, after := Nonblank(lines[..i]), Nonblank(lines[..i + 1]);
            if Blank(lines[i]) then after == before
            else
              && |after| == |before| + 1
              && Entries(after, logSource, lib)
                 == Entries(before, logSource, lib)
                    + match ParseLine(lines[i], logSource, lib) case Ok(entry) => [entry] case Err(_) => []
  {
    hide ParseLine, AllSpace;
    assert lines[..i + 1][..i] == lines[..i];
    var before := Nonblank(lines[..i]);
    assert (before + [lines[i]])[..|before|] == before;
    assert before + [] == before;
  }

  ghost predicate NoneOverflows(lines: seq<string>, n: nat, logSource: string, lib: Library)
    requires n <= |lines|
  {
    forall i :: 0 <= i < n ==> !Overflows(lines[i], logSource, lib)
  }

  /**
   Fails as a whole exactly when some line overflows, or when no line parses; otherwise returns the
   entries in line order and the number of other lines that are not blank.
   */
  method ParseRaw(raw: string, logSource: string, lib: Library) returns (r: Outcome)
    ensures r.Overflowed? <==> exists l :: l in SplitLines(raw) && Overflows(l, logSource, lib)
    ensures r.NothingValid? ==> Entries(Nonblank(SplitLines(raw)), logSource, lib) == []
    ensures r.Parsed? ==>
              && r.block.parsed == Entries(Nonblank(SplitLines(raw)), logSource, lib) != []
              && |r.block.parsed| + r.block.invalid == |Nonblank(SplitLines(raw))|
  {
    hide ParseLine, AllSpace, SplitLines, Nonblank, Entries;
    var lines := SplitLines(raw);
    var parsed, invalid := [], 0;
    NothingYet(lines, logSource, lib);
    for i := 0 to |lines|
      invariant parsed == Entries(Nonblank(lines[..i]), logSource, lib)
      invariant |parsed| + invalid == |Nonblank(lines[..i])|
      invariant NoneOverflows(lines, i, logSource, lib)
    {
      NextLine(lines, i, logSource, lib);
      if Blank(lines[i]) {
        BlankNeverParses(lines[i], logSource, lib);
        continue;
      }
      match ParseLine(lines[i], logSource, lib)
      case Ok(entry) => parsed := parsed + [entry];
      case Err(Overflow) =>
        assert lines[i] in lines && Overflows(lines[i], logSource, lib);
        return Overflowed;
      case Err(_) => invalid := invalid + 1;
    }
    assert lines[..|lines|] == lines;
    r := if parsed == [] then NothingValid else Parsed(Block(parsed, invalid));
  }

  lemma NothingYet(lines: seq<string>, logSource: string, lib: Library)
    ensures Nonblank(lines[..0]) == [] && Entries([], logSource, lib) == []
  {
  }

  /** Blank lines never parse, so leaving them out loses no entry. */
  lemma {:induction false} BlankNeverParses(line: string, logSource: string, lib: Library)
    requires Blank(line)
    ensures ParseLine(line, logSource, lib) == Err(NoMatch)
  {
    hide IsSpace;
    BlankWithoutBreaks(line);
    var s := WithoutBreaks(line);
    if ScanLine(s).Some? {
      var p := ScanLine(s).value;
      ScanLineExactly(s, p);
      BeginsWithWord(p);
    }
  }

  lemma {:induction false} BlankWithoutBreaks(line: string)
    requires Blank(line)
    ensures Blank(WithoutBreaks(line))
  {
    if line != "" && line[|line| - 1] == '\n' { BlankWithoutBreaks(line[..|line| - 1]); }
  }

  lemma BeginsWithWord(p: Parts)
    requires WellFormed(p)
    ensures ShownLine(p) != "" && !IsSpace(ShownLine(p)[0])
  {
    hide IsSpace;
    assert Fits(FIELDS[0], p.fields[0]);
    assert Shown(Word, p.fields[0])[0] == p.fields[0][0];
  }

  /** Entries are exactly those of all lines, whether blank ones are skipped or not. */
  lemma {:induction false} SkippingLosesNothing(lines: seq<string>, logSource: string, lib: Library)
    ensures Entries(Nonblank(lines), logSource, lib) == Entries(lines, logSource, lib)
  {
    hide ParseLine, AllSpace;
    if lines != [] {
      var n := |lines| - 1;
      SkippingLosesNothing(lines[..n], logSource, lib);
      if Blank(lines[n]) {
        BlankNeverParses(lines[n], logSource, lib);
        assert Nonblank(lines) == Nonblank(lines[..n]);
      } else {
        var before := Nonblank(lines[..n]);
        assert (before + [lines[n]])[..|before|] == before;
      }
    }
  }

  function PrintAll(xs: seq<Printed>): seq<string> {
    if xs == [] then [] else PrintAll(xs[..|xs| - 1]) + [Print(xs[|xs| - 1])]
  }

  function TimeIn(x: Printed, lib: Library): Result<Option<Float>, ParseError> { NumbersOf(PartsOf(x), lib) }

  /** The entries expected of printed lines: one for each whose numbers can be read, in order. */
  function ExpectedAll(xs: seq<Printed>, logSource: string, lib: Library): seq<Entry> {
    if xs == [] then []
    else
      var x := xs[|xs| - 1];
      ExpectedAll(xs[..|xs| - 1], logSource, lib)
        + if TimeIn(x, lib).Ok? then [Expected(x, TimeIn(x, lib).value, logSource, lib)] else []
  }

  ghost predicate Sendable(xs: seq<Printed>) {
    forall i :: 0 <= i < |xs| ==> Printable(xs[i]) && BreakFree(Print(xs[i]))
  }

  lemma {:induction false} EntriesOfPrinted(xs: seq<Printed>, logSource: string, lib: Library)
    requires Sendable(xs)
    ensures Entries(PrintAll(xs), logSource, lib) == ExpectedAll(xs, logSource, lib)
    ensures |PrintAll(xs)| == |xs| && forall i :: 0 <= i < |xs| ==> PrintAll(xs)[i] == Print(xs[i])
  {
    hide ParseLine, Print, Expected, TimeIn, Printable, BreakFree;
    if xs != [] {
      var n := |xs| - 1;
      EntriesOfPrinted(xs[..n], logSource, lib);
      OnePrinted(xs[n], logSource, lib);
      assert PrintAll(xs)[..n] == PrintAll(xs[..n]);
    }
  }

  lemma OnePrinted(x: Printed, logSource: string, lib: Library)
    requires Printable(x)
    ensures ParseLine(Print(x), logSource, lib)
         == if TimeIn(x, lib).Ok? then Ok(Expected(x, TimeIn(x, lib).value, logSource, lib))
            else Err(TimeIn(x, lib).error)
  {
    hide ParseLine, Print, Expected, NumbersOf, PartsOf, Printable;
    RoundTrip(x, logSource, lib);
  }

  /** A batch of printed lines parses to its entries, in order, whatever the line ends. */
  lemma {:induction false} BlockRoundTrip(xs: seq<Printed>, end: string, logSource: string, lib: Library)
    requires Sendable(xs) && IsEnd(end)
    ensures Entries(Nonblank(SplitLines(Joined(PrintAll(xs), end))), logSource, lib) == ExpectedAll(xs, logSource, lib)
  {
    hide ParseLine, Print, SplitLines, Joined, Nonblank, Entries, ExpectedAll, BreakFree, Printable;
    EntriesOfPrinted(xs, logSource, lib);
    SplitJoined(PrintAll(xs), end);
    SkippingLosesNothing(PrintAll(xs), logSource, lib);
  }

  // ------------------------------------------------------------- an example

  lemma BreakFreeConcat(a: string, b: string)
    requires BreakFree(a) && BreakFree(b)
    ensures BreakFree(a + b)
  {
  }

  lemma DigitsAreBreakFree(s: string)
    requires AllDigits(s)
    ensures BreakFree(s)
  {
    hide ZeroOf, IsDigit;
    forall i | 0 <= i < |s| ensures !IsBreak(s[i]) { DigitIsNoBreak(s[i]); }
  }

  lemma DigitIsNoBreak(c: char)
    requires IsDigit(c)
    ensures !IsBreak(c)
  {
  }

  /** A line of the server with the given time. */
  function ExampleLine(duration: Duration): Printed {
    Printed("192.0.2.1", "-", "16/Sep/2026:09:11:06 +0000", Proper(RequestLine("GET", "/", "HTTP/1.1")),
            Some(200), None, "-", "-",
            Some(Extended("blog.local", duration, "-")))
  }

  lemma ExampleIsPrintable(duration: Duration)
    requires DurationFits(duration)
    ensures Printable(ExampleLine(duration))
  {
    hide ZeroOf;
    DigitRange('1');
  }

  /** The literal text of the format holds no line boundary. */
  lemma LiteralsAreBreakFree()
    ensures BreakFree(" ") && BreakFree("- ") && BreakFree("[") && BreakFree("] ")
    ensures BreakFree("\"") && BreakFree("\" ")
    ensures BreakFree(" \"") && BreakFree(" rt=") && BreakFree(" rt_us=") && BreakFree(" sid=\"") && BreakFree("-")
    ensures BreakFree("")
  {
  }

  lemma Between(a: string, f: string, b: string)
    requires BreakFree(a) && BreakFree(f) && BreakFree(b)
    ensures BreakFree(a + f + b)
  {
  }

  ghost predicate TailIsBreakFree(x: Printed) {
    x.extended.Some? ==>
      && BreakFree(x.extended.value.host) && BreakFree(x.extended.value.sid)
      && (x.extended.value.duration.InSeconds? || x.extended.value.duration.InMicros? ==>
            BreakFree(x.extended.value.duration.text))
  }

  lemma PrintedTailIsBreakFree(x: Printed)
    requires TailIsBreakFree(x)
    ensures BreakFree(PrintTail(x))
  {
    hide BreakFree;
    LiteralsAreBreakFree();
    if x.extended.Some? {
      var e := x.extended.value;
      Between(" \"", e.host, "\"");
      Between(" sid=\"", e.sid, "\"");
      match e.duration {
        case Unknown =>
        case InSeconds(text) => BreakFreeConcat(" rt=", text);
        case InMicros(text) => BreakFreeConcat(" rt_us=", text);
      }
      BreakFreeConcat(PrintDuration(e.duration), " sid=\"" + e.sid + "\"");
      BreakFreeConcat(" \"" + e.host + "\"", PrintDuration(e.duration) + (" sid=\"" + e.sid + "\""));
    }
  }

  /** A printed line holds a line boundary only if one of its values does. */
  lemma PrintIsBreakFree(x: Printed)
    requires BreakFree(x.remote) && BreakFree(x.user) && BreakFree(x.time) && BreakFree(AskedText(x.request))
    requires BreakFree(x.referer) && BreakFree(x.agent) && TailIsBreakFree(x)
    ensures BreakFree(Print(x))
  {
    hide BreakFree, Decimal, AskedText, PrintTail, AllDigits, TailIsBreakFree;
    LiteralsAreBreakFree();
    PrintedTailIsBreakFree(x);
    if x.status.Some? { DigitsAreBreakFree(Decimal(x.status.value)); }
    if x.bytes.Some? { DigitsAreBreakFree(Decimal(x.bytes.value)); }
    var agent := ("\"" + x.agent + "\"") + PrintTail(x);
    Between("\"", x.agent, "\"");
    BreakFreeConcat("\"" + x.agent + "\"", PrintTail(x));
    var referer := ("\"" + x.referer + "\" ") + agent;
    Between("\"", x.referer, "\" ");
    BreakFreeConcat("\"" + x.referer + "\" ", agent);
    var size := (SizeText(x.bytes) + " ") + referer;
    BreakFreeConcat(SizeText(x.bytes), " ");
    BreakFreeConcat(SizeText(x.bytes) + " ", referer);
    var status := (StatusText(x.status) + " ") + size;
    BreakFreeConcat(StatusText(x.status), " ");
    BreakFreeConcat(StatusText(x.status) + " ", size);
    PrintStart(x, status);
  }

  lemma PrintStart(x: Printed, rest: string)
    requires BreakFree(x.remote) && BreakFree(x.user) && BreakFree(x.time) && BreakFree(AskedText(x.request))
    requires BreakFree(rest)
    ensures BreakFree((x.remote + " ") + (("- ") + ((x.user + " ") + (("[" + x.time + "] ")
                      + (("\"" + AskedText(x.request) + "\" ") + rest)))))
  {
    hide BreakFree, AskedText;
    LiteralsAreBreakFree();
    var request := ("\"" + AskedText(x.request) + "\" ") + rest;
    Between("\"", AskedText(x.request), "\" ");
    BreakFreeConcat("\"" + AskedText(x.request) + "\" ", rest);
    var time := ("[" + x.time + "] ") + request;
    Between("[", x.time, "] ");
    BreakFreeConcat("[" + x.time + "] ", request);
    var user := (x.user + " ") + time;
    BreakFreeConcat(x.user, " ");
    BreakFreeConcat(x.user + " ", time);
    BreakFreeConcat("- ", user);
    BreakFreeConcat(x.remote, " ");
    BreakFreeConcat(x.remote + " ", "- " + user);
  }

  lemma ExampleIsBreakFree(micros: string)
    requires AllDigits(micros)
    ensures BreakFree(Print(ExampleLine(InMicros(micros))))
  {
    hide BreakFree, AllDigits, Print;
    DigitsAreBreakFree(micros);
    ExampleValuesAreBreakFree();
    PrintIsBreakFree(ExampleLine(InMicros(micros)));
  }

  lemma ExampleValuesAreBreakFree()
    ensures BreakFree("192.0.2.1") && BreakFree("-") && BreakFree("16/Sep/2026:09:11:06 +0000")
    ensures BreakFree("blog.local") && BreakFree(AskedText(Proper(RequestLine("GET", "/", "HTTP/1.1"))))
  {
  }

  /** Two lines, of which the first parses: the second makes the whole block overflow. */
  lemma {:induction false} OneLineSpoilsTheBlock(logSource: string, lib: Library)
    ensures var good, bad := ExampleLine(InMicros("1500")), ExampleLine(InMicros(Nines(342)));
            var lines := SplitLines(Joined([Print(good), Print(bad)], "\n"));
            && lines == [Print(good), Print(bad)]
            && ParseLine(lines[0], logSource, lib).Ok? && Overflows(lines[1], logSource, lib)
  {
    hide ParseLine, Print, Joined, SplitLines, BreakFree, Value, Nines, Printable, AllDigits, FLOAT_LIMIT, ExampleLine;
    var good, bad := ExampleLine(InMicros("1500")), ExampleLine(InMicros(Nines(342)));
    ShortTime();
    LongTimesOverflow();
    ExampleTimes("1500", logSource, lib);
    ExampleTimes(Nines(342), logSource, lib);
    SplitJoined([Print(good), Print(bad)], "\n");
  }

  lemma ShortTime()
    ensures AllDigits("1500") && Value("1500") < FLOAT_LIMIT
  {
    hide ZeroOf, FLOAT_LIMIT;
    DigitRange('0');
    DigitRange('1');
    DigitRange('5');
    ShortTimesFit("1500");
  }

  lemma ExampleTimes(micros: string, logSource: string, lib: Library)
    requires AllDigits(micros) && micros != "" && |micros| <= MAX_INT_DIGITS
    ensures var x := ExampleLine(InMicros(micros));
            && BreakFree(Print(x))
            && (Value(micros) < FLOAT_LIMIT ==> ParseLine(Print(x), logSource, lib).Ok?)
            && (Value(micros) >= FLOAT_LIMIT ==> Overflows(Print(x), logSource, lib))
  {
    hide ParseLine, Print, BreakFree, Value, Printable, AllDigits, FLOAT_LIMIT, Expected, NumbersOf, PartsOf;
    var x := ExampleLine(InMicros(micros));
    MicrosFit(micros);
    ExampleIsPrintable(InMicros(micros));
    ExampleIsBreakFree(micros);
    RoundTrip(x, logSource, lib);
    ExampleNumbers(micros, lib);
  }

  lemma ExampleNumbers(micros: string, lib: Library)
    requires |micros| <= MAX_INT_DIGITS
    ensures var time := NumbersOf(PartsOf(ExampleLine(InMicros(micros))), lib);
            && (Value(micros) < FLOAT_LIMIT ==> time.Ok?)
            && (Value(micros) >= FLOAT_LIMIT ==> time == Err(Overflow))
  {
    hide NumbersOf, PartsOf, Value, FLOAT_LIMIT;
    MicrosNumbers(ExampleLine(InMicros(micros)), micros, lib);
  }

  lemma MicrosNumbers(x: Printed, micros: string, lib: Library)
    requires x.bytes.None? && x.extended.Some? && x.extended.value.duration == InMicros(micros)
    requires |micros| <= MAX_INT_DIGITS
    ensures var time := NumbersOf(PartsOf(x), lib);
            && (Value(micros) < FLOAT_LIMIT ==> time.Ok?)
            && (Value(micros) >= FLOAT_LIMIT ==> time == Err(Overflow))
  {
    hide Value, FLOAT_LIMIT, Decimal, AskedText;
    assert PartsOf(x).fields[6] == "-" && PartsOf(x).tail.duration == InMicros(micros);
  }

  lemma MicrosFit(micros: string)
    requires AllDigits(micros) && micros != ""
    ensures DurationFits(InMicros(micros))
  {
    hide ZeroOf;
  }
}
