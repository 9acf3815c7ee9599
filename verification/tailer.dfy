/** The polling file tailer: complete lines out of a file that grows, rotates or is truncated. */
module Tailer {
  import opened Options

  newtype Byte = b: int | 0 <= b < 256
  const NEWLINE: Byte := 10

  type Line = seq<Byte>

  /** `data.split(b"\n")`: the terminated lines, and what follows the last newline. */
  function Lines(data: seq<Byte>): seq<Line> {
    if data == [] then []
    else
      var n := |data| - 1;
      if data[n] == NEWLINE then Lines(data[..n]) + [Tail(data[..n])] else Lines(data[..n])
  }

  function Tail(data: seq<Byte>): Line {
    if data == [] then []
    else
      var n := |data| - 1;
      if data[n] == NEWLINE then [] else Tail(data[..n]) + [data[n]]
  }

  /** The lines put back together. */
  function Joined(lines: seq<Line>, tail: Line): seq<Byte> {
    if lines == [] then tail
    else Joined(lines[..|lines| - 1], lines[|lines| - 1] + [NEWLINE] + tail)
  }

  lemma {:induction false} TailHasNoNewline(data: seq<Byte>)
    ensures NEWLINE !in Tail(data)
    ensures forall l :: l in Lines(data) ==> NEWLINE !in l
  {
    if data != [] { TailHasNoNewline(data[..|data| - 1]); }
  }

  lemma {:induction false} NoLines(data: seq<Byte>)
    requires NEWLINE !in data
    ensures Lines(data) == [] && Tail(data) == data
  {
    if data != [] {
      assert data == data[..|data| - 1] + [data[|data| - 1]];
      NoLines(data[..|data| - 1]);
    }
  }

  lemma OneMoreByte(data: seq<Byte>, b: Byte)
    ensures Lines(data + [b]) == Lines(data) + if b == NEWLINE then [Tail(data)] else []
    ensures Tail(data + [b]) == if b == NEWLINE then [] else Tail(data) + [b]
  {
    assert (data + [b])[..|data|] == data;
  }

  /** Splitting chunk by chunk, carrying the tail, is splitting the whole. */
  lemma {:induction false} ChunkIndependence(a: seq<Byte>, b: seq<Byte>)
    ensures Lines(a + b) == Lines(a) + Lines(Tail(a) + b)
    ensures Tail(a + b) == Tail(Tail(a) + b)
  {
    hide Lines, Tail;
    if b == [] {
      assert a + b == a && Tail(a) + b == Tail(a);
      TailHasNoNewline(a);
      NoLines(Tail(a));
    } else {
      var n := |b| - 1;
      ChunkIndependence(a, b[..n]);
      OneMoreByte(a + b[..n], b[n]);
      OneMoreByte(Tail(a) + b[..n], b[n]);
      assert (a + b[..n]) + [b[n]] == a + b;
      assert (Tail(a) + b[..n]) + [b[n]] == Tail(a) + b;
    }
  }

  lemma {:induction false} JoinedExtend(lines: seq<Line>, tail: Line, more: Line)
    ensures Joined(lines, tail + more) == Joined(lines, tail) + more
  {
    if lines != [] {
      var n := |lines| - 1;
      JoinedExtend(lines[..n], lines[n] + [NEWLINE] + tail, more);
      assert lines[n] + [NEWLINE] + (tail + more) == (lines[n] + [NEWLINE] + tail) + more;
    }
  }

  /** No byte is lost: the lines and the tail determine the data they came from. */
  lemma {:induction false} SplitLosesNothing(data: seq<Byte>)
    ensures Joined(Lines(data), Tail(data)) == data
  {
    if data != [] {
      var n := |data| - 1;
      SplitLosesNothing(data[..n]);
      var lines, tail := Lines(data[..n]), Tail(data[..n]);
      assert data == data[..n] + [data[n]];
      if data[n] == NEWLINE {
        assert Lines(data)[..|Lines(data)| - 1] == lines;
        assert tail + [NEWLINE] + [] == tail + [NEWLINE];
        JoinedExtend(lines, tail, [NEWLINE]);
      } else {
        JoinedExtend(lines, tail, [data[n]]);
      }
    }
  }

  function NonEmpty(lines: seq<Line>): seq<Line> {
    if lines == [] then []
    else if lines[|lines| - 1] == [] then NonEmpty(lines[..|lines| - 1])
    else NonEmpty(lines[..|lines| - 1]) + [lines[|lines| - 1]]
  }

  lemma {:induction false} NonEmptyConcat(a: seq<Line>, b: seq<Line>)
    ensures NonEmpty(a + b) == NonEmpty(a) + NonEmpty(b)
  {
    if b == [] {
      assert a + b == a;
    } else {
      var n := |b| - 1;
      NonEmptyConcat(a, b[..n]);
      assert (a + b)[..|a + b| - 1] == a + b[..n];
    }
  }

  lemma {:induction false} NonEmptyExactly(lines: seq<Line>, line: Line)
    ensures NonEmpty([]) == [] && NonEmpty([line]) == if line == [] then [] else [line]
    ensures NonEmpty(lines + [line]) == NonEmpty(lines) + if line == [] then [] else [line]
  {
    assert [line][..0] == [];
    NonEmptyConcat(lines, [line]);
  }

  // ---------------------------------------------------------------- polling

  /** What one poll sees: the stat result, then the file as it is when it is read. */
  datatype Observation = Observation(inode: int, size: nat, content: seq<Byte>, readable: bool)

  /** The tracked position, and the lines emitted since tracking began at `start`. */
  datatype Tracking = Tracking(inode: int, offset: nat, buf: Line, start: nat, out: seq<Line>)

  predicate Replaced(t: Tracking, o: Observation) { o.inode != t.inode || o.size < t.offset }

  /** After a detected rotation or truncation, reading starts again at the beginning. */
  function Reopened(t: Tracking, o: Observation): Tracking {
    if Replaced(t, o) then Tracking(o.inode, 0, [], 0, []) else t
  }

  function Chunk(t: Tracking, o: Observation): seq<Byte> {
    if o.size == t.offset || !o.readable || |o.content| < t.offset then [] else o.content[t.offset..]
  }

  /** One poll of one file. */
  function Polled(t: Tracking, o: Observation): Tracking {
    var s := Reopened(t, o);
    var chunk := Chunk(s, o);
    if chunk == [] then s
    else s.(offset := s.offset + |chunk|, buf := Tail(s.buf + chunk),
            out := s.out + NonEmpty(Lines(s.buf + chunk)))
  }

  function Run(t: Tracking, schedule: seq<Observation>): Tracking {
    if schedule == [] then t else Polled(Run(t, schedule[..|schedule| - 1]), schedule[|schedule| - 1])
  }

  /** `t` has read exactly the bytes [start, offset) of `content`, and emitted their lines. */
  ghost predicate Reads(t: Tracking, content: seq<Byte>) {
    && t.start <= t.offset <= |content|
    && t.out == NonEmpty(Lines(content[t.start..t.offset]))
    && t.buf == Tail(content[t.start..t.offset])
  }

  /** The content at the last observation of a schedule that began with `initial`. */
  function Last(initial: seq<Byte>, schedule: seq<Observation>): seq<Byte> {
    if schedule == [] then initial else schedule[|schedule| - 1].content
  }

  /** Successive observations of one file generation: it only grows, also between stat and read. */
  ghost predicate OneGeneration(inode: int, initial: seq<Byte>, schedule: seq<Observation>) {
    schedule != [] ==>
      var n := |schedule| - 1;
      var o, before := schedule[n], Last(initial, schedule[..n]);
      && OneGeneration(inode, initial, schedule[..n])
      && o.inode == inode && |before| <= o.size <= |o.content| && before <= o.content
  }

  lemma PollReads(t: Tracking, before: seq<Byte>, o: Observation)
    requires Reads(t, before) && o.inode == t.inode && |before| <= o.size <= |o.content| && before <= o.content
    ensures Reads(Polled(t, o), o.content) && Polled(t, o).start == t.start && Polled(t, o).inode == t.inode
  {
    hide Lines, Tail, NonEmpty;
    var seen := before[t.start..t.offset];
    assert seen == o.content[t.start..t.offset];
    var chunk := Chunk(t, o);
    if chunk != [] {
      assert o.content[t.start..|o.content|] == seen + chunk;
      ChunkIndependence(seen, chunk);
      NonEmptyConcat(Lines(seen), Lines(t.buf + chunk));
    }
  }

  /**
   For every schedule of appends and polls on one file generation: the emitted lines are
   exactly the non-empty newline-terminated lines of the bytes read, in order, none lost or
   repeated, and the buffer is the unterminated rest.
   */
  lemma {:induction false} ScheduleIndependence(t: Tracking, initial: seq<Byte>, schedule: seq<Observation>)
    requires Reads(t, initial) && OneGeneration(t.inode, initial, schedule)
    ensures Reads(Run(t, schedule), Last(initial, schedule))
    ensures Run(t, schedule).start == t.start && Run(t, schedule).inode == t.inode
    ensures NEWLINE !in Run(t, schedule).buf
  {
    hide Polled, Reads;
    if schedule != [] {
      var n := |schedule| - 1;
      ScheduleIndependence(t, initial, schedule[..n]);
      PollReads(Run(t, schedule[..n]), Last(initial, schedule[..n]), schedule[n]);
    }
    BufferIsTail(Run(t, schedule), Last(initial, schedule));
  }

  lemma BufferIsTail(t: Tracking, content: seq<Byte>)
    requires Reads(t, content)
    ensures NEWLINE !in t.buf
  {
    TailHasNoNewline(content[t.start..t.offset]);
  }

  /** Where a poll starts reading: at the beginning of a file of another inode, or shorter than what was read. */
  function ReadsFrom(t: Tracking, o: Observation): nat {
    if o.inode != t.inode || o.size < t.offset then 0 else t.offset
  }

  /** A poll reads to the end of the file, unless nothing was to be seen or the file cannot be read there. */
  lemma Progress(t: Tracking, o: Observation)
    ensures Polled(t, o).offset
         == if o.readable && o.size != ReadsFrom(t, o) <= |o.content| then |o.content| else ReadsFrom(t, o)
    ensures Polled(t, o).inode == o.inode
    ensures Polled(t, o).offset == ReadsFrom(t, o) == t.offset && o.inode == t.inode ==>
              Polled(t, o).buf == t.buf && Polled(t, o).out == t.out
  {
    hide Lines, Tail, NonEmpty;
  }

  /** A detected replacement is read whole, if it is readable and was not empty. */
  lemma ReplacementRead(t: Tracking, o: Observation)
    requires (o.inode != t.inode || o.size < t.offset) && o.readable && o.size > 0
    ensures Polled(t, o).out == NonEmpty(Lines(o.content)) && Polled(t, o).buf == Tail(o.content)
  {
    hide Lines, Tail, NonEmpty, Polled;
    DetectedReplacement(t, o);
    Progress(t, o);
    assert o.content[0..|o.content|] == o.content;
  }

  /**
   After any schedule that ends with a readable observation, every byte there was at its stat has been
   read; and if that was more than before, every line of the whole content has been emitted.
   */
  lemma {:induction false} ReadsToEnd(t: Tracking, initial: seq<Byte>, schedule: seq<Observation>)
    requires Reads(t, initial) && OneGeneration(t.inode, initial, schedule)
    requires schedule != [] && schedule[|schedule| - 1].readable
    ensures var o := schedule[|schedule| - 1]; var end := Run(t, schedule);
            && o.size <= end.offset <= |o.content|
            && (o.size > Run(t, schedule[..|schedule| - 1]).offset ==>
                  && t.start <= |o.content| && end.offset == |o.content|
                  && end.out == NonEmpty(Lines(o.content[t.start..]))
                  && end.buf == Tail(o.content[t.start..]))
  {
    hide Lines, Tail, NonEmpty, Polled;
    var n := |schedule| - 1;
    ScheduleIndependence(t, initial, schedule[..n]);
    ScheduleIndependence(t, initial, schedule);
    Progress(Run(t, schedule[..n]), schedule[n]);
    var o := schedule[n];
    assert o.content[t.start..|o.content|] == o.content[t.start..];
  }

  /** A newly tracked file, read from its beginning or from its end, satisfies the invariant. */
  lemma NewlyTracked(inode: int, content: seq<Byte>, fromEnd: bool)
    ensures var at := if fromEnd then |content| else 0; Reads(Tracking(inode, at, [], at, []), content)
  {
    var at := if fromEnd then |content| else 0;
    assert content[at..at] == [];
  }

  /** A poll that detects a replaced file reads the new generation alone. */
  lemma {:induction false} DetectedReplacement(t: Tracking, o: Observation)
    requires Replaced(t, o)
    ensures Reads(Polled(t, o), o.content) && Polled(t, o).start == 0 && Polled(t, o).inode == o.inode
  {
    var s := Reopened(t, o);
    assert o.content[0..0] == [];
    var chunk := Chunk(s, o);
    if chunk != [] {
      assert s.buf + chunk == o.content[0..|o.content|];
      NonEmptyConcat([], Lines(chunk));
      assert [] + NonEmpty(Lines(chunk)) == NonEmpty(Lines(chunk));
    }
  }

  /**
   A replacement the poll cannot see, because the inode is the same and the size not smaller, or
   because it happens between stat and open: the lines and the buffer after the poll are those of
   the new content up to the offset exactly when the bytes read before are still its beginning.
   Here `all` counts empty lines too.
   */
  lemma {:induction false} UndetectedReplacement(t: Tracking, seen: seq<Byte>, o: Observation, all: seq<Line>)
    requires !Replaced(t, o) && t.offset == |seen| && t.buf == Tail(seen) && all == Lines(seen)
    ensures var p := Polled(t, o);
            (&& p.offset <= |o.content|
             && all + Lines(t.buf + Chunk(t, o)) == Lines(o.content[..p.offset])
             && p.buf == Tail(o.content[..p.offset]))
            <==> t.offset <= |o.content| && seen == o.content[..t.offset]
  {
    var chunk, p := Chunk(t, o), Polled(t, o);
    TailHasNoNewline(seen);
    NoLines(t.buf);
    assert t.buf + [] == t.buf && all + [] == all && seen + [] == seen;
    ChunkIndependence(seen, chunk);
    if p.offset <= |o.content| {
      var now := o.content[..p.offset];
      assert now == o.content[..t.offset] + chunk;
      SplitLosesNothing(seen + chunk);
      SplitLosesNothing(now);
      if all + Lines(t.buf + chunk) == Lines(now) && p.buf == Tail(now) {
        assert seen + chunk == now;
        assert seen == (seen + chunk)[..|seen|];
      }
    }
  }

  /** After reading "a", a file of the same inode with "bc" and a newline gives the line "ac" of two files. */
  lemma {:induction false} JoinedAcrossFiles()
    ensures var t := Tracking(1, 1, [97], 0, []); var o := Observation(1, 3, [98, 99, NEWLINE], true);
            !Replaced(t, o) && Polled(t, o).out == [[97, 99]]
  {
    hide Lines, Tail, NonEmpty;
    var data: seq<Byte> := [97, 99];
    var content: seq<Byte> := [98, 99, NEWLINE];
    NoLines(data);
    OneMoreByte(data, NEWLINE);
    assert content[1..] == [99, NEWLINE];
    assert [97] + content[1..] == data + [NEWLINE];
    assert [] + [data] == [data];
    NonEmptyExactly([], data);
  }

  // -------------------------------------------------------- imperative form

  /** `_FileState`, updated in place on every poll. */
  class FileState {
    var inode: int
    var offset: nat
    var buf: Line
    /** Where tracking of the present generation began, and what it has emitted. */
    ghost var start: nat
    ghost var out: seq<Line>

    constructor (inode: int, size: nat, fromEnd: bool)
      ensures Abs() == Tracking(inode, if fromEnd then size else 0, [], if fromEnd then size else 0, [])
    {
      this.inode, buf, out := inode, [], [];
      offset := if fromEnd then size else 0;
      start := if fromEnd then size else 0;
    }

    ghost function Abs(): Tracking
      reads this
    {
      Tracking(inode, offset, buf, start, out)
    }

    /** `_read_new_lines` and `_collect_from`: None when the file has disappeared. */
    method CollectFrom(seen: Option<Observation>, records: seq<Line>) returns (r: Option<seq<Line>>)
      modifies this
      ensures seen.None? ==> r == None && Abs() == old(Abs())
      ensures seen.Some? ==>
                && Abs() == Polled(old(Abs()), seen.value)
                && r == Some(records + Abs().out[|Reopened(old(Abs()), seen.value).out|..])
    {
      if seen.None? { return None; }
      var o := seen.value;
      if o.inode != inode || o.size < offset {
        inode, offset, buf := o.inode, 0, [];
        start, out := 0, [];
      }
      assert out[|out|..] == [];
      if o.size == offset { return Some(records + []); }
      var chunk := ReadChunk(o, offset);
      if chunk == [] { return Some(records + []); }
      offset := offset + |chunk|;
      var lines := SplitLines(chunk);
      var kept := KeepNonEmpty(lines);
      ghost var before := out;
      out := out + kept;
      assert out[|before|..] == kept;
      r := Some(records + kept);
    }

    static method ReadChunk(o: Observation, offset: nat) returns (chunk: seq<Byte>)
      ensures chunk == if !o.readable || |o.content| < offset then [] else o.content[offset..]
    {
      if !o.readable || |o.content| < offset { return []; }
      chunk := o.content[offset..];
    }

    /** `_split_lines`: keeps the unterminated rest for the next poll. */
    method SplitLines(chunk: seq<Byte>) returns (lines: seq<Line>)
      modifies this`buf
      ensures buf == Tail(old(buf) + chunk) && lines == Lines(old(buf) + chunk)
    {
      var data := buf + chunk;
      buf := Tail(data);
      lines := Lines(data);
    }

    static method KeepNonEmpty(lines: seq<Line>) returns (kept: seq<Line>)
      ensures kept == NonEmpty(lines)
    {
      kept := [];
      var i := 0;
      while i < |lines|
        invariant 0 <= i <= |lines| && kept == NonEmpty(lines[..i])
      {
        assert lines[..i + 1][..i] == lines[..i];
        if lines[i] != [] { kept := kept + [lines[i]]; }
        i := i + 1;
      }
      assert lines[..|lines|] == lines;
    }
  }
}
