/**
  From decoded text to CSV records: physical lines as a `newline=""` text stream
  yields them, the per-line NUL filter, and the `csv.reader` state machine that
  `to_stdlib_dialect` configures (section 2 of RFC 4180: doubled quotes, no
  escape character, not strict).
 */
module CsvText {

  import opened Options
  import opened Utf8

  // ----- physical lines --------------------------------------------------------

  predicate IsBreak(c: char) {
    c == '\r' || c == '\n'
  }

  /** The length of the first physical line, terminator included. */
  function LineLength(text: string): (n: nat)
    requires text != []
    ensures 1 <= n <= |text|
  {
    if text[0] == '\n' then 1
    else if text[0] == '\r' then (if |text| > 1 && text[1] == '\n' then 2 else 1)
    else if |text| == 1 then 1
    else 1 + LineLength(text[1..])
  }

  function Lines(text: string): seq<string> {
    if text == [] then []
    else [text[..LineLength(text)]] + Lines(text[LineLength(text)..])
  }

  function Concat(lines: seq<string>): string {
    if lines == [] then [] else lines[0] + Concat(lines[1..])
  }

  lemma {:induction false} ConcatLines(text: string)
    ensures Concat(Lines(text)) == text
  {
    if text != [] {
      var n := LineLength(text);
      ConcatLines(text[n..]);
      assert Lines(text)[1..] == Lines(text[n..]);
      assert text[..n] + text[n..] == text;
    }
  }

  /** The whole string is one physical line. */
  predicate IsLine(line: string) {
    line != [] && LineLength(line) == |line|
  }

  predicate IsTerminated(line: string) {
    IsLine(line) && IsBreak(line[|line| - 1])
  }

  predicate EndsWithCr(line: string) {
    line != [] && line[|line| - 1] == '\r'
  }

  /** A line ended by a lone CR would swallow a following LF. */
  predicate Merges(line: string, next: string) {
    EndsWithCr(line) && next != [] && next[0] == '\n'
  }

  /** Lines as they come out of a text: only the last may be unterminated. */
  ghost predicate LineStream(lines: seq<string>) {
    && (forall i :: 0 <= i < |lines| ==> IsLine(lines[i]))
    && (forall i :: 0 <= i < |lines| - 1 ==> IsTerminated(lines[i]) && !Merges(lines[i], lines[i + 1]))
  }

  lemma {:induction false} LineThenRest(line: string, rest: string)
    requires IsLine(line) && (rest == [] || (IsTerminated(line) && !Merges(line, rest)))
    ensures LineLength(line + rest) == |line|
  {
    if rest == [] {
      assert line + rest == line;
    } else if !IsBreak(line[0]) && |line| > 1 {
      assert (line + rest)[1..] == line[1..] + rest;
      LineThenRest(line[1..], rest);
    }
  }

  lemma {:induction false} LinesOfLineStream(lines: seq<string>)
    requires LineStream(lines)
    ensures Lines(Concat(lines)) == lines
  {
    if lines != [] {
      var rest := Concat(lines[1..]);
      if |lines| > 1 {
        assert lines[1..][0] == lines[1] && rest[0] == lines[1][0];
        assert IsTerminated(lines[0]) && !Merges(lines[0], lines[1]);
      }
      LineThenRest(lines[0], rest);
      LinesOfLineStream(lines[1..]);
      assert Concat(lines)[|lines[0]|..] == rest;
      assert Concat(lines)[..|lines[0]|] == lines[0];
    }
  }

  lemma {:induction false} FirstLineIsLine(text: string)
    requires text != []
    ensures var n := LineLength(text);
      && IsLine(text[..n])
      && (n < |text| ==> IsTerminated(text[..n]) && !Merges(text[..n], text[n..]))
  {
    if !IsBreak(text[0]) && |text| > 1 {
      FirstLineIsLine(text[1..]);
      var n := LineLength(text);
      assert text[..n][1..] == text[1..][..n - 1];
      assert text[n..] == text[1..][n - 1..];
    }
  }

  lemma {:induction false} LinesAreLineStream(text: string)
    ensures LineStream(Lines(text))
  {
    if text != [] {
      var n := LineLength(text);
      var rest := text[n..];
      FirstLineIsLine(text);
      LinesAreLineStream(rest);
      if rest != [] {
        assert Lines(rest)[0] == rest[..LineLength(rest)];
        assert !Merges(text[..n], Lines(rest)[0]);
      }
      forall i | 0 <= i < |Lines(text)|
        ensures IsLine(Lines(text)[i])
        ensures i < |Lines(text)| - 1 ==> IsTerminated(Lines(text)[i]) && !Merges(Lines(text)[i], Lines(text)[i + 1])
      {
        if i > 0 { assert Lines(text)[i] == Lines(rest)[i - 1]; }
      }
    }
  }

  /** Splitting undoes joining exactly on line streams. */
  lemma LinesUndoConcatExactly(lines: seq<string>)
    ensures Lines(Concat(lines)) == lines <==> LineStream(lines)
  {
    if LineStream(lines) {
      LinesOfLineStream(lines);
    }
    LinesAreLineStream(Concat(lines));
  }

  // ----- the NUL filter -----------------------------------------------------------

  function FilterNul(text: string): string {
    if text == [] then []
    else (if text[0] == '\0' then [] else [text[0]]) + FilterNul(text[1..])
  }

  function FilterEach(lines: seq<string>): seq<string> {
    if lines == [] then [] else [FilterNul(lines[0])] + FilterEach(lines[1..])
  }

  lemma {:induction false} FilterNulConcat(a: string, b: string)
    ensures FilterNul(a + b) == FilterNul(a) + FilterNul(b)
  {
    if a == [] {
      assert a + b == b;
    } else {
      assert (a + b)[0] == a[0] && (a + b)[1..] == a[1..] + b;
      FilterNulConcat(a[1..], b);
    }
  }

  lemma {:induction false} FilterNulKeepsClean(a: string)
    requires '\0' !in a
    ensures FilterNul(a) == a
  {
    if a != [] {
      FilterNulKeepsClean(a[1..]);
    }
  }

  /** The lines among the first n that hold a NUL. */
  function WithNul(lines: seq<string>, n: nat): set<nat>
    requires n <= |lines|
  {
    set i: nat | i < n && '\0' in lines[i]
  }

  lemma OneMoreWithNul(lines: seq<string>, n: nat)
    requires n < |lines|
    ensures |WithNul(lines, n + 1)| == |WithNul(lines, n)| + if '\0' in lines[n] then 1 else 0
  {
    assert WithNul(lines, n + 1) == WithNul(lines, n) + if '\0' in lines[n] then {n} else {};
  }

  /** `_strip_nul`, with the number of lines it counts in `lines_with_nul_stripped`. */
  method StripNul(lines: seq<string>) returns (out: seq<string>, stripped: nat)
    ensures out == FilterEach(lines)
    ensures stripped == |WithNul(lines, |lines|)|
  {
    out, stripped := [], 0;
    FilterEachAt(lines);
    assert WithNul(lines, 0) == {};
    for i := 0 to |lines|
      invariant |FilterEach(lines)| == |lines| && out == FilterEach(lines)[..i]
      invariant stripped == |WithNul(lines, i)|
    {
      FilterEachAt(lines);
      OneMoreWithNul(lines, i);
      if '\0' in lines[i] {
        stripped := stripped + 1;
        out := out + [FilterNul(lines[i])];
      } else {
        FilterNulKeepsClean(lines[i]);
        out := out + [lines[i]];
      }
    }
    FilterEachAt(lines);
  }

  /** As concatenated text, filtering each line is filtering the stream. */
  lemma {:induction false} LineFilterIsTextFilter(text: string)
    ensures Concat(FilterEach(Lines(text))) == FilterNul(text)
  {
    if text != [] {
      var n := LineLength(text);
      LineFilterIsTextFilter(text[n..]);
      assert Lines(text)[1..] == Lines(text[n..]);
      assert FilterEach(Lines(text))[1..] == FilterEach(Lines(text[n..]));
      FilterNulConcat(text[..n], text[n..]);
      assert text[..n] + text[n..] == text;
    }
  }

  lemma {:induction false} FilterEachAt(lines: seq<string>)
    ensures |FilterEach(lines)| == |lines|
    ensures forall i :: 0 <= i < |lines| ==> FilterEach(lines)[i] == FilterNul(lines[i])
  {
    if lines != [] {
      FilterEachAt(lines[1..]);
      forall i | 1 <= i < |lines| ensures FilterEach(lines)[i] == FilterNul(lines[i]) {
        assert FilterEach(lines)[i] == FilterEach(lines[1..])[i - 1];
      }
    }
  }

  /** Filtering keeps a line's terminator, and its line form unless nothing is left. */
  lemma {:induction false} FilteredLine(line: string)
    requires IsLine(line)
    ensures var f := FilterNul(line);
      && (IsTerminated(line) ==> IsTerminated(f) && f[|f| - 1] == line[|line| - 1])
      && (f != [] ==> IsLine(f))
      && (f != [] && f[0] == '\n' ==> f == "\n")
  {
    if |line| == 1 {
      assert line[1..] == [];
    } else if line[0] == '\r' {
      assert line == "\r\n";
      FilterNulKeepsClean(line);
    } else {
      var rest := FilterNul(line[1..]);
      FilteredLine(line[1..]);
      assert !IsBreak(line[0]) && line == [line[0]] + line[1..];
      ExtendLine(line[0], line[1..]);
      ExtendLine(line[0], rest);
      assert FilterNul(line) == if line[0] == '\0' then rest else [line[0]] + rest;
    }
  }

  /** A character in front of a line, or on its own. */
  lemma ExtendLine(c: char, rest: string)
    requires !IsBreak(c) && (rest == [] || IsLine(rest))
    ensures IsLine([c] + rest)
    ensures rest != [] ==> (IsTerminated([c] + rest) <==> IsTerminated(rest))
  {
    assert ([c] + rest)[1..] == rest;
  }

  /** The filtered lines would be split differently from the filtered text. */
  ghost predicate NulHazard(lines: seq<string>) {
    || (exists i :: 0 <= i < |lines| - 1 && EndsWithCr(lines[i]) && FilterNul(lines[i + 1]) == "\n")
    || (lines != [] && FilterNul(lines[|lines| - 1]) == [])
  }

  /** Filtering per line equals splitting the filtered text if and only if no lone CR is
      followed by NULs and an LF, and the text does not end in a run of NULs on a line of
      its own. */
  lemma LineFilterIsLinesOfTextFilterExactlyWhen(text: string)
    ensures FilterEach(Lines(text)) == Lines(FilterNul(text)) <==> !NulHazard(Lines(text))
  {
    LineFilterIsTextFilter(text);
    LinesUndoConcatExactly(FilterEach(Lines(text)));
    LinesAreLineStream(text);
    if NulHazard(Lines(text)) {
      HazardBreaksLines(Lines(text));
    } else {
      SafeFilteredLines(Lines(text));
    }
  }

  lemma HazardBreaksLines(lines: seq<string>)
    requires LineStream(lines) && NulHazard(lines)
    ensures !LineStream(FilterEach(lines))
  {
    var filtered := FilterEach(lines);
    FilterEachAt(lines);
    if lines != [] && FilterNul(lines[|lines| - 1]) == [] {
      assert !IsLine(filtered[|lines| - 1]);
    } else {
      var i :| 0 <= i < |lines| - 1 && EndsWithCr(lines[i]) && FilterNul(lines[i + 1]) == "\n";
      FilteredLine(lines[i]);
      assert IsTerminated(lines[i]);
      assert Merges(filtered[i], filtered[i + 1]);
    }
  }

  /** The shortest text the two orders disagree on. */
  lemma CrNulLfSplitsDifferently()
    ensures FilterEach(Lines("\r\0\n")) == ["\r", "\n"]
    ensures Lines(FilterNul("\r\0\n")) == ["\r\n"]
  {
    FilteredCrNulLf();
    LinesOfLineStream(["\r", "\0\n"]);
    LinesOfLineStream(["\r\n"]);
    assert ["\r", "\0\n"][1..] == ["\0\n"] && ["\0\n"][1..] == [] && ["\r\n"][1..] == [];
    assert Concat(["\0\n"]) == "\0\n" && Concat(["\r", "\0\n"]) == "\r\0\n" && Concat(["\r\n"]) == "\r\n";
    assert FilterEach(["\0\n"]) == ["\n"];
  }

  lemma FilteredCrNulLf()
    ensures FilterNul("\r") == "\r" && FilterNul("\0\n") == "\n" && FilterNul("\r\0\n") == "\r\n"
  {
    FilterNulKeepsClean("\r");
    FilterNulKeepsClean("\n");
    assert "\0\n"[1..] == "\n" && "\r\0\n"[1..] == "\0\n";
  }

  lemma SafeFilteredLines(lines: seq<string>)
    requires LineStream(lines) && !NulHazard(lines)
    ensures LineStream(FilterEach(lines))
  {
    var filtered := FilterEach(lines);
    FilterEachAt(lines);
    forall i | 0 <= i < |lines|
      ensures IsLine(filtered[i])
      ensures i < |lines| - 1 ==> IsTerminated(filtered[i]) && !Merges(filtered[i], filtered[i + 1])
    {
      FilteredLine(lines[i]);
      if i < |lines| - 1 {
        FilteredLine(lines[i + 1]);
        assert IsTerminated(lines[i]);
      }
    }
  }

  // ----- the reader ------------------------------------------------------------------

  type Record = seq<string>

  /** `fieldLimit` is `csv.field_size_limit`. */
  datatype Dialect = Dialect(delimiter: char, quote: char, fieldLimit: nat)

  datatype Mode = StartRecord | StartField | InField | InQuoted | QuoteInQuoted | EatBreak

  /** The reader's state within one record. */
  datatype Reader = Reader(mode: Mode, fields: seq<string>, field: string) | Failed

  const FRESH: Reader := Reader(StartRecord, [], [])

  function Save(r: Reader, mode: Mode): Reader
    requires r.Reader?
  {
    Reader(mode, r.fields + [r.field], [])
  }

  /** A field that has reached the limit cannot grow. */
  function Add(d: Dialect, r: Reader, c: char, mode: Mode): Reader
    requires r.Reader?
  {
    if |r.field| >= d.fieldLimit then Failed else Reader(mode, r.fields, r.field + [c])
  }

  /** One character of a line. */
  function Step(d: Dialect, r: Reader, c: char): Reader {
    if r.Failed? then Failed
    else match r.mode
      case StartRecord =>
        if IsBreak(c) then r.(mode := EatBreak) else StepStartField(d, r, c)
      case StartField => StepStartField(d, r, c)
      case InField =>
        if IsBreak(c) then Save(r, EatBreak)
        else if c == d.delimiter then Save(r, StartField)
        else Add(d, r, c, InField)
      case InQuoted =>
        if c == d.quote then r.(mode := QuoteInQuoted) else Add(d, r, c, InQuoted)
      case QuoteInQuoted =>
        if c == d.quote then Add(d, r, c, InQuoted)
        else if c == d.delimiter then Save(r, StartField)
        else if IsBreak(c) then Save(r, EatBreak)
        else Add(d, r, c, InField)
      case EatBreak =>
        if IsBreak(c) then r else Failed
  }

  function StepStartField(d: Dialect, r: Reader, c: char): Reader
    requires r.Reader?
  {
    if IsBreak(c) then Save(r, EatBreak)
    else if c == d.quote then r.(mode := InQuoted)
    else if c == d.delimiter then Save(r, StartField)
    else Add(d, r, c, InField)
  }

  /** The end of a line, which closes the record unless a quoted field is open. */
  function EndLine(r: Reader): Reader {
    if r.Failed? then Failed
    else match r.mode
      case StartRecord => r
      case StartField => Save(r, StartRecord)
      case InField => Save(r, StartRecord)
      case InQuoted => r
      case QuoteInQuoted => Save(r, StartRecord)
      case EatBreak => r.(mode := StartRecord)
  }

  function FeedLine(d: Dialect, r: Reader, line: string): Reader
    decreases |line|
  {
    if line == [] then EndLine(r) else FeedLine(d, Step(d, r, line[0]), line[1..])
  }

  /** All records of a line stream; None where the reader raises. A stream that ends
      inside a quoted field yields the record read so far. */
  function ReadFrom(d: Dialect, r: Reader, lines: seq<string>): Option<seq<Record>>
    decreases |lines|
  {
    if r.Failed? then None
    else if lines == [] then
      if r.mode == StartRecord then Some([]) else Some([r.fields + [r.field]])
    else
      var r' := FeedLine(d, r, lines[0]);
      if r'.Failed? then None
      else if r'.mode != StartRecord then ReadFrom(d, r', lines[1..])
      else match ReadFrom(d, FRESH, lines[1..])
        case None => None
        case Some(rest) => Some([r'.fields] + rest)
  }

  function ReadLines(d: Dialect, lines: seq<string>): Option<seq<Record>> {
    ReadFrom(d, FRESH, lines)
  }

  /** The pipeline's reader over decoded text. */
  function ReadText(d: Dialect, text: string): Option<seq<Record>> {
    ReadLines(d, FilterEach(Lines(text)))
  }

  // ----- what the reader makes of a rendered record ---------------------------------------

  function Join(fields: seq<string>, delimiter: char): string {
    if fields == [] then []
    else if |fields| == 1 then fields[0] else fields[0] + [delimiter] + Join(fields[1..], delimiter)
  }

  /** A field the reader takes literally. A quote matters only in front. */
  predicate CleanField(d: Dialect, f: string) {
    && d.delimiter !in f && '\r' !in f && '\n' !in f && '\0' !in f
    && |f| <= d.fieldLimit
    && (f != [] ==> f[0] != d.quote)
  }

  /** A blank line is not read back as a record with one empty field. */
  predicate CleanRecord(d: Dialect, fields: seq<string>) {
    fields != [] && fields != [""] && forall i :: 0 <= i < |fields| ==> CleanField(d, fields[i])
  }

  predicate PlainDialect(d: Dialect) {
    !IsBreak(d.delimiter) && d.delimiter != d.quote && d.delimiter != '\0'
  }

  lemma {:induction false} FeedChars(d: Dialect, done: seq<string>, acc: string, f: string, rest: string)
    requires d.delimiter !in f && '\r' !in f && '\n' !in f && |acc| + |f| <= d.fieldLimit
    ensures FeedLine(d, Reader(InField, done, acc), f + rest) == FeedLine(d, Reader(InField, done, acc + f), rest)
    decreases |f|
  {
    if f == [] {
      assert f + rest == rest && acc + f == acc;
    } else {
      assert (f + rest)[0] == f[0] && (f + rest)[1..] == f[1..] + rest;
      assert f[0] in f;
      FeedChars(d, done, acc + [f[0]], f[1..], rest);
      assert acc + [f[0]] + f[1..] == acc + f;
    }
  }

  /** A clean field followed by the delimiter. */
  lemma FeedFieldAndDelimiter(d: Dialect, mode: Mode, done: seq<string>, f: string, rest: string)
    requires PlainDialect(d) && CleanField(d, f) && (mode == StartField || mode == StartRecord)
    ensures FeedLine(d, Reader(mode, done, []), f + [d.delimiter] + rest) ==
            FeedLine(d, Reader(StartField, done + [f], []), rest)
  {
    var line := f + [d.delimiter] + rest;
    if f == [] {
      assert line[0] == d.delimiter && line[1..] == rest;
    } else {
      var tail := f[1..] + [d.delimiter] + rest;
      assert line[0] == f[0] && line[1..] == tail && f[0] in f;
      assert Step(d, Reader(mode, done, []), f[0]) == Reader(InField, done, [f[0]]);
      assert tail == f[1..] + ([d.delimiter] + rest);
      FeedChars(d, done, [f[0]], f[1..], [d.delimiter] + rest);
      assert [f[0]] + f[1..] == f;
      assert ([d.delimiter] + rest)[1..] == rest;
    }
  }

  lemma FeedTerminator(d: Dialect, r: Reader, t: string)
    requires IsTerminator(t) && r.Reader? && (r.mode == InField || r.mode == StartField)
    ensures FeedLine(d, r, t) == Reader(StartRecord, r.fields + [r.field], [])
  {
    var r1 := Step(d, r, t[0]);
    assert r1 == Save(r, EatBreak);
    if |t| == 2 {
      assert t[1..][0] == '\n' && t[1..][1..] == [];
      assert FeedLine(d, r1, t[1..]) == FeedLine(d, r1, t[1..][1..]);
    } else {
      assert t[1..] == [];
    }
  }

  lemma FeedFieldAndTerminator(d: Dialect, mode: Mode, done: seq<string>, f: string, t: string)
    requires CleanField(d, f) && IsTerminator(t)
    requires mode == StartField || (mode == StartRecord && f != [])
    ensures FeedLine(d, Reader(mode, done, []), f + t) == Reader(StartRecord, done + [f], [])
  {
    if f == [] {
      assert f + t == t;
      FeedTerminator(d, Reader(mode, done, []), t);
    } else {
      assert (f + t)[0] == f[0] && (f + t)[1..] == f[1..] + t && f[0] in f;
      assert Step(d, Reader(mode, done, []), f[0]) == Reader(InField, done, [f[0]]);
      FeedChars(d, done, [f[0]], f[1..], t);
      assert [f[0]] + f[1..] == f;
      FeedTerminator(d, Reader(InField, done, f), t);
    }
  }

  /** Feeding a rendered record yields its fields, whatever the terminator. */
  lemma {:induction false} FeedRecord(d: Dialect, mode: Mode, done: seq<string>, fields: seq<string>, t: string)
    requires PlainDialect(d) && IsTerminator(t) && fields != []
    requires forall i :: 0 <= i < |fields| ==> CleanField(d, fields[i])
    requires mode == StartField || (mode == StartRecord && fields != [""])
    ensures FeedLine(d, Reader(mode, done, []), Join(fields, d.delimiter) + t) == Reader(StartRecord, done + fields, [])
    decreases |fields|
  {
    if |fields| == 1 {
      assert fields == [fields[0]];
      FeedFieldAndTerminator(d, mode, done, fields[0], t);
    } else {
      var rest := Join(fields[1..], d.delimiter) + t;
      assert Join(fields, d.delimiter) + t == fields[0] + [d.delimiter] + rest;
      FeedFieldAndDelimiter(d, mode, done, fields[0], rest);
      FeedRecord(d, StartField, done + [fields[0]], fields[1..], t);
      assert done + [fields[0]] + fields[1..] == done + fields;
    }
  }

  function RenderedLine(fields: seq<string>, delimiter: char, t: string): string {
    Join(fields, delimiter) + t
  }

  lemma {:induction false} JoinIsClean(d: Dialect, fields: seq<string>)
    requires PlainDialect(d) && fields != []
    requires forall i :: 0 <= i < |fields| ==> CleanField(d, fields[i])
    ensures var j := Join(fields, d.delimiter);
      '\r' !in j && '\n' !in j && '\0' !in j && (j == [] ==> fields == [""])
  {
    if |fields| > 1 {
      JoinIsClean(d, fields[1..]);
    } else {
      assert fields == [fields[0]];
    }
  }

  lemma {:induction false} BreakFreeThenTerminator(content: string, t: string)
    requires '\r' !in content && '\n' !in content && IsTerminator(t)
    ensures IsTerminated(content + t)
  {
    if content == [] {
      assert content + t == t;
    } else {
      assert (content + t)[0] == content[0] && content[0] in content && (content + t)[1..] == content[1..] + t;
      BreakFreeThenTerminator(content[1..], t);
    }
  }

  /** The lines of a table of clean records, one terminator per record. */
  function TableLines(table: seq<Record>, delimiter: char, terminators: seq<string>): seq<string>
    requires |terminators| == |table|
  {
    seq(|table|, i requires 0 <= i < |table| => RenderedLine(table[i], delimiter, terminators[i]))
  }

  lemma TableLinesAreLineStream(d: Dialect, table: seq<Record>, ts: seq<string>)
    requires PlainDialect(d) && |ts| == |table|
    requires forall i :: 0 <= i < |table| ==> CleanRecord(d, table[i]) && IsTerminator(ts[i])
    ensures var lines := TableLines(table, d.delimiter, ts); LineStream(lines) && FilterEach(lines) == lines
  {
    var lines := TableLines(table, d.delimiter, ts);
    forall i | 0 <= i < |table|
      ensures IsTerminated(lines[i]) && lines[i][0] != '\n' && FilterNul(lines[i]) == lines[i]
    {
      var content := Join(table[i], d.delimiter);
      JoinIsClean(d, table[i]);
      BreakFreeThenTerminator(content, ts[i]);
      assert content[0] in content;
      FilterNulKeepsClean(lines[i]);
    }
    FilterEachAt(lines);
  }

  lemma {:induction false} ReadTableLines(d: Dialect, table: seq<Record>, ts: seq<string>)
    requires PlainDialect(d) && |ts| == |table|
    requires forall i :: 0 <= i < |table| ==> CleanRecord(d, table[i]) && IsTerminator(ts[i])
    ensures ReadLines(d, TableLines(table, d.delimiter, ts)) == Some(table)
    decreases |table|
  {
    var lines := TableLines(table, d.delimiter, ts);
    if table != [] {
      FeedRecord(d, StartRecord, [], table[0], ts[0]);
      assert [] + table[0] == table[0];
      assert lines[1..] == TableLines(table[1..], d.delimiter, ts[1..]);
      ReadTableLines(d, table[1..], ts[1..]);
      assert [table[0]] + table[1..] == table;
    }
  }

  /** Rendering a table and reading its text back is the identity, for any terminators. */
  lemma ReadRenderedTable(d: Dialect, table: seq<Record>, ts: seq<string>)
    requires PlainDialect(d) && |ts| == |table|
    requires forall i :: 0 <= i < |table| ==> CleanRecord(d, table[i]) && IsTerminator(ts[i])
    ensures ReadText(d, Concat(TableLines(table, d.delimiter, ts))) == Some(table)
  {
    TableLinesAreLineStream(d, table, ts);
    LinesOfLineStream(TableLines(table, d.delimiter, ts));
    ReadTableLines(d, table, ts);
  }
}
