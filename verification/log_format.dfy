/**
 The `waf_combined` log format as a regular expression, and a scanner that matches it
 from left to right without backtracking.
 */
module LogFormat {
  import opened Options

  /** White space as `\s` and `str.isspace` define it. */
  predicate IsSpace(c: char) {
    || '\t' <= c <= '\r' || '\U{1c}' <= c <= ' ' || c == '\U{85}' || c == '\U{a0}' || c == '\U{1680}'
    || '\U{2000}' <= c <= '\U{200a}' || c == '\U{2028}' || c == '\U{2029}' || c == '\U{202f}'
    || c == '\U{205f}' || c == '\U{3000}'
  }

  /** The zero of the ten decimal digits among which `c` is (category Nd of Unicode 15.0), or -1. */
  function ZeroOf(c: int): int {
    if 0x30 <= c <= 0x39 then 0x30 else if 0x660 <= c <= 0x669 then 0x660 else if 0x6f0 <= c <= 0x6f9 then 0x6f0
    else if 0x7c0 <= c <= 0x7c9 then 0x7c0 else if 0x966 <= c <= 0x96f then 0x966
    else if 0x9e6 <= c <= 0x9ef then 0x9e6 else if 0xa66 <= c <= 0xa6f then 0xa66
    else if 0xae6 <= c <= 0xaef then 0xae6 else if 0xb66 <= c <= 0xb6f then 0xb66
    else if 0xbe6 <= c <= 0xbef then 0xbe6 else if 0xc66 <= c <= 0xc6f then 0xc66
    else if 0xce6 <= c <= 0xcef then 0xce6 else if 0xd66 <= c <= 0xd6f then 0xd66
    else if 0xde6 <= c <= 0xdef then 0xde6 else if 0xe50 <= c <= 0xe59 then 0xe50
    else if 0xed0 <= c <= 0xed9 then 0xed0 else if 0xf20 <= c <= 0xf29 then 0xf20
    else if 0x1040 <= c <= 0x1049 then 0x1040 else if 0x1090 <= c <= 0x1099 then 0x1090
    else if 0x17e0 <= c <= 0x17e9 then 0x17e0 else if 0x1810 <= c <= 0x1819 then 0x1810
    else if 0x1946 <= c <= 0x194f then 0x1946 else if 0x19d0 <= c <= 0x19d9 then 0x19d0
    else if 0x1a80 <= c <= 0x1a89 then 0x1a80 else if 0x1a90 <= c <= 0x1a99 then 0x1a90
    else if 0x1b50 <= c <= 0x1b59 then 0x1b50 else if 0x1bb0 <= c <= 0x1bb9 then 0x1bb0
    else if 0x1c40 <= c <= 0x1c49 then 0x1c40 else if 0x1c50 <= c <= 0x1c59 then 0x1c50
    else if 0xa620 <= c <= 0xa629 then 0xa620 else if 0xa8d0 <= c <= 0xa8d9 then 0xa8d0
    else if 0xa900 <= c <= 0xa909 then 0xa900 else if 0xa9d0 <= c <= 0xa9d9 then 0xa9d0
    else if 0xa9f0 <= c <= 0xa9f9 then 0xa9f0 else if 0xaa50 <= c <= 0xaa59 then 0xaa50
    else if 0xabf0 <= c <= 0xabf9 then 0xabf0 else if 0xff10 <= c <= 0xff19 then 0xff10
    else if 0x104a0 <= c <= 0x104a9 then 0x104a0 else if 0x10d30 <= c <= 0x10d39 then 0x10d30
    else if 0x11066 <= c <= 0x1106f then 0x11066 else if 0x110f0 <= c <= 0x110f9 then 0x110f0
    else if 0x11136 <= c <= 0x1113f then 0x11136 else if 0x111d0 <= c <= 0x111d9 then 0x111d0
    else if 0x112f0 <= c <= 0x112f9 then 0x112f0 else if 0x11450 <= c <= 0x11459 then 0x11450
    else if 0x114d0 <= c <= 0x114d9 then 0x114d0 else if 0x11650 <= c <= 0x11659 then 0x11650
    else if 0x116c0 <= c <= 0x116c9 then 0x116c0 else if 0x11730 <= c <= 0x11739 then 0x11730
    else if 0x118e0 <= c <= 0x118e9 then 0x118e0 else if 0x11950 <= c <= 0x11959 then 0x11950
    else if 0x11c50 <= c <= 0x11c59 then 0x11c50 else if 0x11d50 <= c <= 0x11d59 then 0x11d50
    else if 0x11da0 <= c <= 0x11da9 then 0x11da0 else if 0x11f50 <= c <= 0x11f59 then 0x11f50
    else if 0x16a60 <= c <= 0x16a69 then 0x16a60 else if 0x16ac0 <= c <= 0x16ac9 then 0x16ac0
    else if 0x16b50 <= c <= 0x16b59 then 0x16b50 else if 0x1d7ce <= c <= 0x1d7d7 then 0x1d7ce
    else if 0x1d7d8 <= c <= 0x1d7e1 then 0x1d7d8 else if 0x1d7e2 <= c <= 0x1d7eb then 0x1d7e2
    else if 0x1d7ec <= c <= 0x1d7f5 then 0x1d7ec else if 0x1d7f6 <= c <= 0x1d7ff then 0x1d7f6
    else if 0x1e140 <= c <= 0x1e149 then 0x1e140 else if 0x1e2f0 <= c <= 0x1e2f9 then 0x1e2f0
    else if 0x1e4f0 <= c <= 0x1e4f9 then 0x1e4f0 else if 0x1e950 <= c <= 0x1e959 then 0x1e950
    else if 0x1fbf0 <= c <= 0x1fbf9 then 0x1fbf0
    else -1
  }

  /** `\d`, which is not confined to ASCII. */
  predicate IsDigit(c: char) { ZeroOf(c as int) >= 0 }

  /** The value of a digit, as `int` reads it. */
  function DigitValue(c: char): int { c as int - ZeroOf(c as int) }

  lemma DigitRange(c: char)
    ensures IsDigit(c) ==> 0 <= DigitValue(c) < 10
    ensures '0' <= c <= '9' ==> IsDigit(c) && DigitValue(c) == c as int - '0' as int
  {
  }

  predicate AllDigits(s: string) { forall i :: 0 <= i < |s| ==> IsDigit(s[i]) }

  predicate AllSpace(s: string) { forall i :: 0 <= i < |s| ==> IsSpace(s[i]) }

  predicate StartsWith(s: string, p: string) { |p| <= |s| && s[..|p|] == p }

  lemma StartsWithAppend(p: string, t: string)
    ensures StartsWith(p + t, p) && (p + t)[|p|..] == t
  {
  }

  // ------------------------------------------------------------------ fields

  /** A group of the expression with the literal text around it. */
  datatype Kind = Word | Time | Request | Status | Bytes | Referer | Agent | Host | Seconds | Micros | Sid

  function Open(k: Kind): string {
    match k
    case Word => "" case Status => "" case Bytes => ""
    case Time => "["
    case Request => "\"" case Referer => "\"" case Agent => "\""
    case Host => " \""
    case Seconds => " rt="
    case Micros => " rt_us="
    case Sid => " sid=\""
  }

  function Close(k: Kind): string {
    match k
    case Word => " " case Status => " " case Bytes => " "
    case Time => "] "
    case Request => "\" " case Referer => "\" "
    case Agent => "\"" case Host => "\"" case Sid => "\""
    case Seconds => "" case Micros => ""
  }

  predicate Escapable(k: Kind) { k.Referer? || k.Agent? }

  /** The characters a group is made of, for the groups without escapes. */
  predicate InClass(k: Kind, c: char) {
    match k
    case Word => !IsSpace(c)
    case Time => c != ']'
    case Status => IsDigit(c) || c == '-' case Bytes => IsDigit(c) || c == '-'
    case Micros => IsDigit(c)
    case Seconds => IsDigit(c) || c == '.'
    case _ => c != '"'
  }

  /** A sequence of plain characters and backslash pairs. */
  predicate WellEscaped(f: string)
    decreases |f|
  {
    || f == ""
    || (f[0] == '\\' && |f| > 1 && f[1] != '\n' && WellEscaped(f[2..]))
    || (f[0] != '\\' && f[0] != '"' && WellEscaped(f[1..]))
  }

  /** What the group itself matches. */
  predicate Fits(k: Kind, f: string) {
    if Escapable(k) then WellEscaped(f)
    else
      && (forall i :: 0 <= i < |f| ==> InClass(k, f[i]))
      && match k
         case Word => f != "" case Time => f != "" case Seconds => f != "" case Micros => f != ""
         case Status => f == "-" || (|f| == 3 && AllDigits(f))
         case Bytes => f == "-" || (f != "" && AllDigits(f))
         case _ => true
  }

  /** What the groups without escapes match, each by itself. */
  lemma {:induction false} GroupsExactly(f: string)
    ensures Fits(Word, f) <==> f != "" && forall c :: c in f ==> !IsSpace(c)
    ensures Fits(Time, f) <==> f != "" && ']' !in f
    ensures Fits(Request, f) == Fits(Host, f) == Fits(Sid, f) == ('"' !in f)
    ensures Fits(Status, f) <==> f == "-" || (|f| == 3 && forall c :: c in f ==> IsDigit(c))
    ensures Fits(Bytes, f) <==> f == "-" || (f != "" && forall c :: c in f ==> IsDigit(c))
    ensures Fits(Seconds, f) <==> f != "" && forall c :: c in f ==> IsDigit(c) || c == '.'
    ensures Fits(Micros, f) <==> f != "" && forall c :: c in f ==> IsDigit(c)
  {
    hide IsSpace, IsDigit;
    assert forall i :: 0 <= i < |f| ==> f[i] in f;
  }

  function Concat(pieces: seq<string>): string {
    if pieces == [] then "" else pieces[0] + Concat(pieces[1..])
  }

  /** A plain character, or a backslash and any character but a line break. */
  predicate IsUnit(s: string) {
    || (|s| == 1 && s[0] != '"' && s[0] != '\\')
    || (|s| == 2 && s[0] == '\\' && s[1] != '\n')
  }

  ghost predicate AllUnits(pieces: seq<string>) { forall i :: 0 <= i < |pieces| ==> IsUnit(pieces[i]) }

  /** A group with escapes matches exactly the repetitions of such units. */
  lemma {:induction false} EscapedExactly(f: string)
    ensures Fits(Referer, f) == Fits(Agent, f) == (exists pieces :: AllUnits(pieces) && Concat(pieces) == f)
  {
    if WellEscaped(f) {
      var pieces := UnitsOf(f);
    }
    if pieces :| AllUnits(pieces) && Concat(pieces) == f { UnitsEscape(pieces); }
  }

  lemma {:induction false} UnitsOf(f: string) returns (pieces: seq<string>)
    requires WellEscaped(f)
    ensures AllUnits(pieces) && Concat(pieces) == f
    decreases |f|
  {
    if f == "" { return []; }
    var n := if f[0] == '\\' then 2 else 1;
    var rest := UnitsOf(f[n..]);
    pieces := [f[..n]] + rest;
    assert pieces[1..] == rest;
  }

  lemma {:induction false} UnitsEscape(pieces: seq<string>)
    requires AllUnits(pieces)
    ensures WellEscaped(Concat(pieces))
  {
    if pieces != [] {
      UnitsEscape(pieces[1..]);
      var f := Concat(pieces);
      assert IsUnit(pieces[0]);
      assert f[|pieces[0]|..] == Concat(pieces[1..]);
    }
  }

  lemma SpaceExactly(c: char)
    ensures IsSpace(c) <==>
              c as int in [0x09, 0x0a, 0x0b, 0x0c, 0x0d, 0x1c, 0x1d, 0x1e, 0x1f, 0x20, 0x85, 0xa0, 0x1680,
                           0x2000, 0x2001, 0x2002, 0x2003, 0x2004, 0x2005, 0x2006, 0x2007, 0x2008, 0x2009, 0x200a,
                           0x2028, 0x2029, 0x202f, 0x205f, 0x3000]
  {
  }

  function Span(k: Kind, s: string): (n: nat)
    ensures n <= |s| && (forall i :: 0 <= i < n ==> InClass(k, s[i])) && (n < |s| ==> !InClass(k, s[n]))
  {
    if s != "" && InClass(k, s[0]) then 1 + Span(k, s[1..]) else 0
  }

  function EscapedSpan(s: string): (n: nat)
    ensures n <= |s|
    decreases |s|
  {
    if s == "" || s[0] == '"' then 0
    else if s[0] != '\\' then 1 + EscapedSpan(s[1..])
    else if |s| > 1 && s[1] != '\n' then 2 + EscapedSpan(s[2..])
    else 0
  }

  lemma {:induction false} EscapedSpanFits(s: string)
    ensures WellEscaped(s[..EscapedSpan(s)])
    decreases |s|
  {
    var n := EscapedSpan(s);
    if s != "" && s[0] != '"' {
      if s[0] != '\\' {
        EscapedSpanFits(s[1..]);
        assert s[..n][1..] == s[1..][..n - 1];
      } else if |s| > 1 && s[1] != '\n' {
        EscapedSpanFits(s[2..]);
        assert s[..n][2..] == s[2..][..n - 2];
      }
    }
  }

  lemma {:induction false} EscapedSpanOf(f: string, t: string)
    requires WellEscaped(f) && t != "" && t[0] == '"'
    ensures EscapedSpan(f + t) == |f|
    decreases |f|
  {
    if f == "" {
      assert f + t == t;
    } else if f[0] == '\\' {
      EscapedSpanOf(f[2..], t);
      assert (f + t)[2..] == f[2..] + t;
    } else {
      EscapedSpanOf(f[1..], t);
      assert (f + t)[1..] == f[1..] + t;
    }
  }

  /** How far the group reaches, taking as much as it can. */
  function Reach(k: Kind, s: string): (n: nat)
    ensures n <= |s|
  {
    if Escapable(k) then EscapedSpan(s) else Span(k, s)
  }

  /** Whether the text after a group cannot belong to it. */
  predicate Stops(k: Kind, t: string) {
    if k.Seconds? || k.Micros? then t == "" || IsSpace(t[0])
    else StartsWith(t, Close(k))
  }

  lemma {:induction false} ReachOf(k: Kind, f: string, t: string)
    requires Fits(k, f) && Stops(k, t)
    ensures Reach(k, f + t) == |f|
  {
    if Escapable(k) {
      EscapedSpanOf(f, t);
    } else {
      var n := Span(k, f + t);
      assert t != "" ==> (f + t)[|f|] == t[0];
      if n > |f| { NotInClass(k, t); }
    }
  }

  lemma NotInClass(k: Kind, t: string)
    requires !Escapable(k) && t != "" && Stops(k, t)
    ensures !InClass(k, t[0])
  {
    if !k.Seconds? && !k.Micros? { assert t[0] == Close(k)[0]; }
  }

  // -------------------------------------------------------- scanning a field

  datatype Scanned = Failed | Scanned(field: string, rest: string)

  /** Takes one group and its literal text from the front of `s`. */
  function ScanField(k: Kind, s: string): Scanned {
    if !StartsWith(s, Open(k)) then Failed
    else
      var t := s[|Open(k)|..];
      var n := Reach(k, t);
      if Fits(k, t[..n]) && StartsWith(t[n..], Close(k)) then Scanned(t[..n], t[n..][|Close(k)|..])
      else Failed
  }

  function Shown(k: Kind, f: string): string { Open(k) + f + Close(k) }

  lemma ShownField(k: Kind, f: string, rest: string)
    requires Fits(k, f) && Stops(k, Close(k) + rest)
    ensures ScanField(k, Shown(k, f) + rest) == Scanned(f, rest)
  {
    hide Fits, Reach, Open, Close, Stops;
    var t := f + (Close(k) + rest);
    assert Shown(k, f) + rest == Open(k) + t;
    StartsWithAppend(Open(k), t);
    ReachOf(k, f, Close(k) + rest);
    assert t[..|f|] == f && t[|f|..] == Close(k) + rest;
    StartsWithAppend(Close(k), rest);
  }

  lemma ScannedIsShown(k: Kind, s: string)
    requires ScanField(k, s).Scanned?
    ensures var r := ScanField(k, s); Fits(k, r.field) && s == Shown(k, r.field) + r.rest
  {
    hide Fits, Reach, Open, Close;
    var t := s[|Open(k)|..];
    var n := Reach(k, t);
    assert s == Open(k) + t;
    assert t == t[..n] + t[n..];
    assert t[n..] == Close(k) + t[n..][|Close(k)|..];
  }

  // ------------------------------------------------------- the mandatory part

  const FIELDS: seq<Kind> := [Word, Word, Word, Time, Request, Status, Bytes, Referer, Agent]

  datatype ScannedAll = FailedAll | ScannedAll(fields: seq<string>, rest: string)

  function ScanFields(kinds: seq<Kind>, s: string): (r: ScannedAll)
    ensures r.ScannedAll? ==> |r.fields| == |kinds|
  {
    if kinds == [] then ScannedAll([], s)
    else
      match ScanField(kinds[0], s)
      case Failed => FailedAll
      case Scanned(f, rest) =>
        match ScanFields(kinds[1..], rest)
        case FailedAll => FailedAll
        case ScannedAll(fs, last) => ScannedAll([f] + fs, last)
  }

  ghost predicate FitAll(kinds: seq<Kind>, fields: seq<string>) {
    |kinds| == |fields| && forall i :: 0 <= i < |kinds| ==> Fits(kinds[i], fields[i])
  }

  function ShownAll(kinds: seq<Kind>, fields: seq<string>): string
    requires |kinds| == |fields|
  {
    if kinds == [] then "" else Shown(kinds[0], fields[0]) + ShownAll(kinds[1..], fields[1..])
  }

  ghost predicate Closed(kinds: seq<Kind>) {
    forall k :: k in kinds ==> !k.Seconds? && !k.Micros?
  }

  /** Scanning groups that are closed by literal text is exactly matching them. */
  lemma {:induction false} ScanFieldsExactly(kinds: seq<Kind>, s: string, fields: seq<string>, rest: string)
    requires Closed(kinds)
    ensures ScanFields(kinds, s) == ScannedAll(fields, rest)
        <==> FitAll(kinds, fields) && s == ShownAll(kinds, fields) + rest
  {
    hide Fits, Shown, ScanField, Stops;
    if kinds != [] {
      if ScanFields(kinds, s) == ScannedAll(fields, rest) {
        ScannedIsShown(kinds[0], s);
        ScanFieldsExactly(kinds[1..], ScanField(kinds[0], s).rest, fields[1..], rest);
        assert s == Shown(kinds[0], fields[0]) + (ShownAll(kinds[1..], fields[1..]) + rest);
      }
      if FitAll(kinds, fields) && s == ShownAll(kinds, fields) + rest {
        var after := ShownAll(kinds[1..], fields[1..]) + rest;
        assert s == Shown(kinds[0], fields[0]) + after;
        ClosedStops(kinds[0], after);
        ShownField(kinds[0], fields[0], after);
        ScanFieldsExactly(kinds[1..], after, fields[1..], rest);
        assert fields == [fields[0]] + fields[1..];
      }
    }
  }

  lemma ClosedStops(k: Kind, rest: string)
    requires !k.Seconds? && !k.Micros?
    ensures Stops(k, Close(k) + rest)
  {
    StartsWithAppend(Close(k), rest);
  }

  // --------------------------------------------------------- the optional tail

  datatype Duration = Unknown | InSeconds(text: string) | InMicros(text: string)

  /** The extended fields, each of them optional, and trailing white space. */
  datatype Tail = Tail(host: Option<string>, duration: Duration, sid: Option<string>, blank: string)

  ghost predicate SidFits(sid: Option<string>) { sid.Some? ==> Fits(Sid, sid.value) }

  ghost predicate DurationFits(d: Duration) {
    match d
    case Unknown => true
    case InSeconds(t) => Fits(Seconds, t)
    case InMicros(t) => Fits(Micros, t)
  }

  ghost predicate TailFits(t: Tail) {
    (t.host.Some? ==> Fits(Host, t.host.value)) && DurationFits(t.duration) && SidFits(t.sid) && AllSpace(t.blank)
  }

  function ShownSid(sid: Option<string>, blank: string): string {
    (if sid.Some? then Shown(Sid, sid.value) else "") + blank
  }

  function ShownDuration(d: Duration): string {
    match d
    case Unknown => ""
    case InSeconds(t) => Shown(Seconds, t)
    case InMicros(t) => Shown(Micros, t)
  }

  function ShownTail(t: Tail): string {
    (if t.host.Some? then Shown(Host, t.host.value) else "") + (ShownDuration(t.duration) + ShownSid(t.sid, t.blank))
  }

  function ScanSid(s: string): Option<(Option<string>, string)> {
    match ScanField(Sid, s)
    case Scanned(f, rest) => if AllSpace(rest) then Some((Some(f), rest)) else None
    case Failed => if AllSpace(s) then Some((None, s)) else None
  }

  function ScanDuration(s: string): (Duration, string) {
    match ScanField(Seconds, s)
    case Scanned(f, rest) => (InSeconds(f), rest)
    case Failed =>
      match ScanField(Micros, s)
      case Scanned(f, rest) => (InMicros(f), rest)
      case Failed => (Unknown, s)
  }

  function ScanHost(s: string): (Option<string>, string) {
    match ScanField(Host, s)
    case Scanned(f, rest) => (Some(f), rest)
    case Failed => (None, s)
  }

  function ScanTail(s: string): Option<Tail> {
    var (host, afterHost) := ScanHost(s);
    var (duration, afterDuration) := ScanDuration(afterHost);
    match ScanSid(afterDuration)
    case Some((sid, blank)) => Some(Tail(host, duration, sid, blank))
    case None => None
  }

  predicate Optional(k: Kind) { k.Host? || k.Seconds? || k.Micros? || k.Sid? }

  /** What distinguishes the optional groups from each other and from white space. */
  lemma Openings(k: Kind)
    requires Optional(k)
    ensures |Open(k)| > 1 && !IsSpace(Open(k)[1])
    ensures Open(k)[1] == (if k.Host? then '"' else if k.Sid? then 's' else 'r')
    ensures k.Seconds? ==> |Open(k)| > 3 && Open(k)[3] == '='
    ensures k.Micros? ==> |Open(k)| > 3 && Open(k)[3] == '_'
  {
  }

  lemma BlankIsNone(s: string, k: Kind)
    requires AllSpace(s) && Optional(k)
    ensures ScanField(k, s).Failed?
  {
    hide Open, IsSpace, Fits, Reach, Close;
    Openings(k);
    StartsChars(s, Open(k));
    if |s| > 1 { assert IsSpace(s[1]); }
  }

  lemma OtherIsNone(s: string, k: Kind, f: string, rest: string, j: Kind)
    requires k != j && Optional(k) && Optional(j)
    requires s == Shown(k, f) + rest
    ensures ScanField(j, s).Failed?
  {
    hide Open, IsSpace, Fits, Reach, Close;
    Openings(k);
    Openings(j);
    StartsChars(s, Open(j));
    assert s == Open(k) + (f + Close(k) + rest);
    StartsChars(s, Open(k));
    StartsWithAppend(Open(k), f + Close(k) + rest);
    assert s[1] == Open(k)[1];
  }

  lemma StartsChars(s: string, p: string)
    ensures StartsWith(s, p) ==> forall i :: 0 <= i < |p| ==> i < |s| && s[i] == p[i]
  {
  }

  lemma {:induction false} SidExactly(s: string, sid: Option<string>, blank: string)
    ensures ScanSid(s) == Some((sid, blank)) <==> SidFits(sid) && AllSpace(blank) && s == ShownSid(sid, blank)
  {
    hide Fits, Shown, ScanField, AllSpace;
    if ScanField(Sid, s).Scanned? { ScannedIsShown(Sid, s); }
    if SidFits(sid) && AllSpace(blank) && s == ShownSid(sid, blank) {
      if sid.Some? {
        ClosedStops(Sid, blank);
        ShownField(Sid, sid.value, blank);
      } else {
        assert s == blank;
        BlankIsNone(s, Sid);
      }
    }
    if ScanSid(s) == Some((None, blank)) { assert s == "" + s; }
  }

  /** What may follow the duration: the session group or white space. */
  lemma NotInRest(sid: Option<string>, blank: string, k: Kind)
    requires AllSpace(blank) && Optional(k) && k != Sid
    ensures ScanField(k, ShownSid(sid, blank)).Failed?
    ensures var s := ShownSid(sid, blank); s == "" || IsSpace(s[0])
  {
    var s := ShownSid(sid, blank);
    if sid.Some? {
      OtherIsNone(s, Sid, sid.value, blank, k);
    } else {
      assert s == blank;
      BlankIsNone(s, k);
    }
  }

  lemma DurationShown(s: string)
    ensures var (d, rest) := ScanDuration(s); DurationFits(d) && s == ShownDuration(d) + rest
  {
    hide Fits, Shown, ScanField;
    if ScanField(Seconds, s).Scanned? { ScannedIsShown(Seconds, s); }
    if ScanField(Micros, s).Scanned? { ScannedIsShown(Micros, s); }
    assert s == "" + s;
  }

  lemma DurationScanned(d: Duration, sid: Option<string>, blank: string)
    requires DurationFits(d) && AllSpace(blank)
    ensures var rest := ShownSid(sid, blank); ScanDuration(ShownDuration(d) + rest) == (d, rest)
  {
    hide Fits, Shown, ScanField, ShownSid;
    var rest := ShownSid(sid, blank);
    NotInRest(sid, blank, Seconds);
    NotInRest(sid, blank, Micros);
    match d
    case Unknown => assert "" + rest == rest;
    case InSeconds(t) =>
      assert Close(Seconds) + rest == rest;
      ShownField(Seconds, t, rest);
    case InMicros(t) =>
      assert Close(Micros) + rest == rest;
      ShownField(Micros, t, rest);
      OtherIsNone(Shown(Micros, t) + rest, Micros, t, rest, Seconds);
  }

  lemma NoHostInRest(d: Duration, sid: Option<string>, blank: string)
    requires AllSpace(blank)
    ensures ScanField(Host, ShownDuration(d) + ShownSid(sid, blank)).Failed?
  {
    hide Shown, ScanField, ShownSid;
    var rest := ShownSid(sid, blank);
    match d
    case Unknown =>
      assert "" + rest == rest;
      NotInRest(sid, blank, Host);
    case InSeconds(t) => OtherIsNone(Shown(Seconds, t) + rest, Seconds, t, rest, Host);
    case InMicros(t) => OtherIsNone(Shown(Micros, t) + rest, Micros, t, rest, Host);
  }

  lemma HostShown(s: string)
    ensures var (host, rest) := ScanHost(s);
            && (host.Some? ==> Fits(Host, host.value))
            && s == (if host.Some? then Shown(Host, host.value) else "") + rest
  {
    hide Fits, Shown, ScanField;
    if ScanField(Host, s).Scanned? { ScannedIsShown(Host, s); }
    assert s == "" + s;
  }

  /** The optional groups are scanned exactly as they are written, whichever are present. */
  lemma {:induction false} TailExactly(s: string, t: Tail)
    ensures ScanTail(s) == Some(t) <==> TailFits(t) && s == ShownTail(t)
  {
    hide Fits, Shown, ScanField, ScanSid, ScanDuration, ShownSid, ShownDuration, AllSpace;
    if ScanTail(s) == Some(t) {
      HostShown(s);
      var (host, afterHost) := ScanHost(s);
      DurationShown(afterHost);
      var (duration, afterDuration) := ScanDuration(afterHost);
      SidExactly(afterDuration, t.sid, t.blank);
    }
    if TailFits(t) && s == ShownTail(t) {
      var afterDuration := ShownSid(t.sid, t.blank);
      var afterHost := ShownDuration(t.duration) + afterDuration;
      SidExactly(afterDuration, t.sid, t.blank);
      DurationScanned(t.duration, t.sid, t.blank);
      if t.host.Some? {
        ClosedStops(Host, afterHost);
        ShownField(Host, t.host.value, afterHost);
      } else {
        NoHostInRest(t.duration, t.sid, t.blank);
        assert s == afterHost;
      }
    }
  }

  // ------------------------------------------------------------ a whole line

  datatype Parts = Parts(fields: seq<string>, tail: Tail)

  ghost predicate WellFormed(p: Parts) { FitAll(FIELDS, p.fields) && TailFits(p.tail) }

  function ShownLine(p: Parts): string
    requires |p.fields| == |FIELDS|
  {
    ShownAll(FIELDS, p.fields) + ShownTail(p.tail)
  }

  function ScanLine(line: string): (r: Option<Parts>)
    ensures r.Some? ==> |r.value.fields| == |FIELDS|
  {
    match ScanFields(FIELDS, line)
    case FailedAll => None
    case ScannedAll(fields, rest) =>
      match ScanTail(rest)
      case None => None
      case Some(tail) => Some(Parts(fields, tail))
  }

  /** The scanner accepts exactly the lines the expression describes, with exactly their groups. */
  lemma {:induction false} ScanLineExactly(line: string, p: Parts)
    ensures ScanLine(line) == Some(p) <==> WellFormed(p) && line == ShownLine(p)
  {
    hide ScanFields, ScanTail, ShownAll, ShownTail, Fits, TailFits;
    FieldsClosed();
    if ScanLine(line).Some? {
      var r := ScanFields(FIELDS, line);
      ScanFieldsExactly(FIELDS, line, r.fields, r.rest);
      TailExactly(r.rest, ScanLine(line).value.tail);
    }
    if WellFormed(p) && line == ShownLine(p) {
      ScanFieldsExactly(FIELDS, line, p.fields, ShownTail(p.tail));
      TailExactly(ShownTail(p.tail), p.tail);
    }
  }

  lemma FieldsClosed()
    ensures Closed(FIELDS)
  {
  }

  /** So no line can be read in two ways. */
  lemma {:induction false} Unambiguous(p: Parts, q: Parts)
    requires WellFormed(p) && WellFormed(q) && ShownLine(p) == ShownLine(q)
    ensures p == q
  {
    hide TailFits, Fits, ScanLine;
    ScanLineExactly(ShownLine(p), p);
    ScanLineExactly(ShownLine(p), q);
  }
}
