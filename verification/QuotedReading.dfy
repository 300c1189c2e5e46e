/**
  What the reader makes of quoted fields: a table may be written with any fields in quotes,
  and reads back as itself as long as its fields keep to the field limit.
 */
module QuotedReading {
  import opened CsvText
  import opened Options
  import opened ReadBack
  import opened Utf8

  // ----- writing -----------------------------------------------------------------

  /** A field may be written bare, with its first n characters in quotes, or, at the very end
      of a text, in quotes that are never closed. */
  datatype Writing = Bare | Quoted(n: nat) | Open

  /** A record as written, with its terminator. */
  datatype Row = Row(fields: Record, writings: seq<Writing>, terminator: string)

  /** Every quote doubled. */
  function Doubled(quote: char, s: string): string {
    if s == [] then [] else (if s[0] == quote then [quote, quote] else [s[0]]) + Doubled(quote, s[1..])
  }

  /** What stands outside the quotes is taken literally: no delimiter, no break, and no quote in
      front. */
  predicate IsBare(d: Dialect, s: string) {
    d.delimiter !in s && '\r' !in s && '\n' !in s && (s != [] ==> s[0] != d.quote)
  }

  predicate IsWritable(d: Dialect, f: string, w: Writing) {
    && '\0' !in f
    && match w
       case Bare => IsBare(d, f)
       case Quoted(n) => n <= |f| && IsBare(d, f[n..])
       case Open => true
  }

  function FieldText(d: Dialect, f: string, w: Writing): string
    requires IsWritable(d, f, w)
  {
    match w
    case Bare => f
    case Quoted(n) => [d.quote] + Doubled(d.quote, f[..n]) + [d.quote] + f[n..]
    case Open => [d.quote] + Doubled(d.quote, f)
  }

  predicate AreWritable(d: Dialect, fields: Record, ws: seq<Writing>) {
    |ws| == |fields| && forall i :: 0 <= i < |fields| ==> IsWritable(d, fields[i], ws[i])
  }

  function RecordText(d: Dialect, fields: Record, ws: seq<Writing>): string
    requires AreWritable(d, fields, ws)
  {
    if fields == [] then []
    else if |fields| == 1 then FieldText(d, fields[0], ws[0])
    else FieldText(d, fields[0], ws[0]) + [d.delimiter] + RecordText(d, fields[1..], ws[1..])
  }

  /** A blank line is a record without fields. Only the last record may lack its terminator,
      and only there may the last field's quotes stay open. */
  predicate IsRow(d: Dialect, row: Row, last: bool) {
    && AreWritable(d, row.fields, row.writings)
    && (row.fields == [""] ==> row.writings != [Bare])
    && (IsTerminator(row.terminator) || (last && row.terminator == "" && row.fields != []))
    && OpenOnlyAtTheEnd(row.writings, row.terminator)
  }

  predicate OpenOnlyAtTheEnd(ws: seq<Writing>, t: string) {
    forall i :: 0 <= i < |ws| && ws[i].Open? ==> i == |ws| - 1 && t == ""
  }

  predicate StartsWithLf(row: Row) {
    row.fields == [] && row.terminator == "\n"
  }

  /** A blank line ended by an LF would complete a CR before it. */
  predicate AreRows(d: Dialect, rows: seq<Row>) {
    forall i :: 0 <= i < |rows| ==>
      && IsRow(d, rows[i], i == |rows| - 1)
      && (i + 1 < |rows| && rows[i].terminator == "\r" ==> !StartsWithLf(rows[i + 1]))
  }

  function TableText(d: Dialect, rows: seq<Row>): string
    requires AreRows(d, rows)
  {
    if rows == [] then []
    else
      RowsAfter(d, rows);
      RecordText(d, rows[0].fields, rows[0].writings) + rows[0].terminator + TableText(d, rows[1..])
  }

  lemma RowsAfter(d: Dialect, rows: seq<Row>)
    requires AreRows(d, rows) && rows != []
    ensures AreRows(d, rows[1..])
  {
    forall i | 0 <= i < |rows[1..]|
      ensures IsRow(d, rows[1..][i], i == |rows[1..]| - 1)
      ensures i + 1 < |rows[1..]| && rows[1..][i].terminator == "\r" ==> !StartsWithLf(rows[1..][i + 1])
    {
      assert rows[1..][i] == rows[i + 1];
    }
  }

  function Fields(rows: seq<Row>): seq<Record> {
    if rows == [] then [] else [rows[0].fields] + Fields(rows[1..])
  }

  predicate Fit(d: Dialect, fields: Record) {
    forall i :: 0 <= i < |fields| ==> |fields[i]| <= d.fieldLimit
  }

  // ----- reading from the middle of a line ----------------------------------------------

  /** What becomes of a state in which the text ends. */
  function AtEnd(d: Dialect, r: Reader): Option<seq<Record>> {
    var ended := EndLine(r);
    if ended.Failed? then None
    else Some([if ended.mode == StartRecord then ended.fields else ended.fields + [ended.field]])
  }

  /** All records of a text, with the reader somewhere within a line. */
  function ReadOn(d: Dialect, r: Reader, text: string): Option<seq<Record>> {
    if text == [] then AtEnd(d, r) else ReadFrom(d, r, Lines(text))
  }

  function Prepend(record: Record, rest: Option<seq<Record>>): Option<seq<Record>> {
    if rest.None? then None else Some([record] + rest.value)
  }

  lemma FailedReadsNothing(d: Dialect, text: string)
    ensures ReadOn(d, Failed, text) == None
  {
  }

  /** A character that ends no line: any but a break, and in quotes any but the quote. */
  lemma ReadOneMore(d: Dialect, r: Reader, c: char, rest: string)
    requires r.Reader? && (!IsBreak(c) || (r.mode == InQuoted && c != d.quote))
    ensures ReadOn(d, r, [c] + rest) == ReadOn(d, Step(d, r, c), rest)
  {
    var text := [c] + rest;
    assert text[1..] == rest;
    if !IsBreak(c) {
      PlainCharacter(d, r, c, rest);
    } else {
      QuotedBreak(d, r, c, rest);
    }
  }

  lemma PlainCharacter(d: Dialect, r: Reader, c: char, rest: string)
    requires r.Reader? && !IsBreak(c)
    ensures ReadOn(d, r, [c] + rest) == ReadOn(d, Step(d, r, c), rest)
  {
    var text := [c] + rest;
    assert text[1..] == rest;
    if rest == [] {
      assert text[..1] == text && Lines(text[1..]) == [];
      assert Lines(text) == [text] && Lines(text)[1..] == Lines(rest);
      OneLineReads(d, r, text, Step(d, r, c));
    } else {
      var n := LineLength(rest);
      assert LineLength(text) == n + 1 && text[..n + 1] == [c] + rest[..n] && text[n + 1..] == rest[n..];
      assert Lines(text) == [[c] + rest[..n]] + Lines(rest[n..]);
      FirstLineAdvances(d, r, c, rest[..n], Lines(rest[n..]));
    }
  }

  lemma OneLineReads(d: Dialect, r: Reader, line: string, s: Reader)
    requires r.Reader? && FeedLine(d, r, line) == EndLine(s)
    ensures ReadFrom(d, r, [line]) == AtEnd(d, s)
  {
    var ended, none := EndLine(s), [line][1..];
    assert ReadFrom(d, FRESH, none) == Some([]);
    if ended.Reader? {
      assert [ended.fields] + [] == [ended.fields];
    }
  }

  lemma FirstLineAdvances(d: Dialect, r: Reader, c: char, line: string, lines: seq<string>)
    requires r.Reader?
    ensures ReadFrom(d, r, [[c] + line] + lines) == ReadFrom(d, Step(d, r, c), [line] + lines)
  {
    assert ([c] + line)[1..] == line;
    assert ([[c] + line] + lines)[1..] == lines && ([line] + lines)[1..] == lines;
    FailedStays(d, line);
  }

  lemma QuotedBreak(d: Dialect, r: Reader, c: char, rest: string)
    requires r.Reader? && r.mode == InQuoted && IsBreak(c) && c != d.quote
    ensures ReadOn(d, r, [c] + rest) == ReadOn(d, Step(d, r, c), rest)
  {
    var text := [c] + rest;
    var s := Step(d, r, c);
    assert text[1..] == rest;
    assert EndLine(s) == s && (s.Reader? ==> s.mode == InQuoted);
    if c == '\r' && rest != [] && rest[0] == '\n' {
      assert text[..2] == [c] + rest[..1] && text[2..] == rest[1..];
      assert LineLength(rest) == 1 && Lines(rest) == [rest[..1]] + Lines(rest[1..]);
      assert Lines(text) == [[c] + rest[..1]] + Lines(rest[1..]);
      FirstLineAdvances(d, r, c, rest[..1], Lines(rest[1..]));
    } else {
      assert text[..1] == [c] && Lines(text) == [[c]] + Lines(rest);
      assert Lines(text)[0] == [c] && Lines(text)[1..] == Lines(rest) && [c][1..] == [];
      assert FeedLine(d, r, [c]) == s by {
        assert FeedLine(d, s, []) == EndLine(s);
      }
      assert s.Reader? && rest == [] ==> ReadFrom(d, s, Lines(rest)) == AtEnd(d, s);
    }
  }

  // ----- fields --------------------------------------------------------------------------

  lemma {:induction false} BareCharacters(d: Dialect, done: Record, acc: string, f: string, rest: string)
    requires d.delimiter !in f && '\r' !in f && '\n' !in f && |acc| <= d.fieldLimit
    ensures ReadOn(d, Reader(InField, done, acc), f + rest) ==
      if |acc| + |f| <= d.fieldLimit then ReadOn(d, Reader(InField, done, acc + f), rest) else None
    decreases |f|
  {
    if f == [] {
      assert f + rest == rest && acc + f == acc;
    } else {
      var c, others := f[0], f[1..];
      assert f + rest == [c] + (others + rest) && acc + [c] + others == acc + f;
      OneBareCharacter(d, done, acc, c, others + rest);
      if |acc| < d.fieldLimit {
        BareCharacters(d, done, acc + [c], others, rest);
      }
    }
  }

  lemma OneBareCharacter(d: Dialect, done: Record, acc: string, c: char, tail: string)
    requires c != d.delimiter && !IsBreak(c)
    ensures ReadOn(d, Reader(InField, done, acc), [c] + tail) ==
      if |acc| < d.fieldLimit then ReadOn(d, Reader(InField, done, acc + [c]), tail) else None
  {
    FailedReadsNothing(d, tail);
    ReadOneMore(d, Reader(InField, done, acc), c, tail);
  }

  lemma {:induction false} QuotedCharacters(d: Dialect, done: Record, acc: string, f: string, rest: string)
    requires Usable(d) && |acc| <= d.fieldLimit
    ensures ReadOn(d, Reader(InQuoted, done, acc), Doubled(d.quote, f) + rest) ==
      if |acc| + |f| <= d.fieldLimit then ReadOn(d, Reader(InQuoted, done, acc + f), rest) else None
    decreases |f|
  {
    if f == [] {
      assert Doubled(d.quote, f) + rest == rest && acc + f == acc;
    } else {
      var tail := Doubled(d.quote, f[1..]) + rest;
      OneQuotedCharacter(d, done, acc, f[0], tail);
      assert Doubled(d.quote, f) + rest == (if f[0] == d.quote then [d.quote, d.quote] else [f[0]]) + tail;
      if |acc| < d.fieldLimit {
        QuotedCharacters(d, done, acc + [f[0]], f[1..], rest);
        assert acc + [f[0]] + f[1..] == acc + f;
      }
    }
  }

  lemma OneQuotedCharacter(d: Dialect, done: Record, acc: string, c: char, tail: string)
    requires Usable(d) && |acc| <= d.fieldLimit
    ensures ReadOn(d, Reader(InQuoted, done, acc), (if c == d.quote then [d.quote, d.quote] else [c]) + tail) ==
      if |acc| < d.fieldLimit then ReadOn(d, Reader(InQuoted, done, acc + [c]), tail) else None
  {
    FailedReadsNothing(d, tail);
    if c == d.quote {
      assert [c, c] + tail == [c] + ([c] + tail);
      ReadOneMore(d, Reader(InQuoted, done, acc), c, [c] + tail);
      ReadOneMore(d, Reader(QuoteInQuoted, done, acc), c, tail);
    } else {
      ReadOneMore(d, Reader(InQuoted, done, acc), c, tail);
    }
  }

  /** The reader's mode after a field. */
  function After(mode: Mode, f: string, w: Writing): Mode {
    match w
    case Bare => if f == [] then mode else InField
    case Quoted(n) => if n >= |f| then QuoteInQuoted else InField
    case Open => InQuoted
  }

  lemma ReadField(d: Dialect, mode: Mode, done: Record, f: string, w: Writing, rest: string)
    requires Usable(d) && IsWritable(d, f, w) && (mode == StartField || mode == StartRecord)
    ensures ReadOn(d, Reader(mode, done, []), FieldText(d, f, w) + rest) ==
      if |f| <= d.fieldLimit then ReadOn(d, Reader(After(mode, f, w), done, f), rest) else None
  {
    match w
    case Bare => ReadBareField(d, mode, done, f, rest);
    case Quoted(n) => ReadQuotedField(d, mode, done, f, n, rest);
    case Open =>
      assert FieldText(d, f, w) + rest == [d.quote] + (Doubled(d.quote, f) + rest);
      OpeningQuote(d, mode, done, f, rest);
  }

  lemma ReadBareField(d: Dialect, mode: Mode, done: Record, f: string, rest: string)
    requires Usable(d) && IsBare(d, f) && (mode == StartField || mode == StartRecord)
    ensures ReadOn(d, Reader(mode, done, []), f + rest) ==
      if |f| <= d.fieldLimit then ReadOn(d, Reader(After(mode, f, Bare), done, f), rest) else None
  {
    if f == [] {
      assert f + rest == rest;
    } else {
      assert f + rest == [f[0]] + (f[1..] + rest) && f[0] in f;
      ReadOneMore(d, Reader(mode, done, []), f[0], f[1..] + rest);
      if d.fieldLimit > 0 {
        assert Step(d, Reader(mode, done, []), f[0]) == Reader(InField, done, [f[0]]);
        BareCharacters(d, done, [f[0]], f[1..], rest);
        assert [f[0]] + f[1..] == f;
      } else {
        FailedReadsNothing(d, f[1..] + rest);
      }
    }
  }

  lemma ReadQuotedField(d: Dialect, mode: Mode, done: Record, f: string, n: nat, rest: string)
    requires Usable(d) && n <= |f| && IsBare(d, f[n..]) && (mode == StartField || mode == StartRecord)
    ensures ReadOn(d, Reader(mode, done, []), [d.quote] + Doubled(d.quote, f[..n]) + [d.quote] + f[n..] + rest) ==
      if |f| <= d.fieldLimit then ReadOn(d, Reader(After(mode, f, Quoted(n)), done, f), rest) else None
  {
    var inside, tail := f[..n], f[n..];
    var closing := [d.quote] + (tail + rest);
    assert [d.quote] + Doubled(d.quote, inside) + [d.quote] + tail + rest ==
           [d.quote] + (Doubled(d.quote, inside) + closing);
    assert inside + tail == f;
    OpeningQuote(d, mode, done, inside, closing);
    if n <= d.fieldLimit {
      ReadOneMore(d, Reader(InQuoted, done, inside), d.quote, tail + rest);
      AfterTheQuotes(d, done, inside, tail, rest);
    }
  }

  lemma OpeningQuote(d: Dialect, mode: Mode, done: Record, inside: string, rest: string)
    requires Usable(d) && (mode == StartField || mode == StartRecord)
    ensures ReadOn(d, Reader(mode, done, []), [d.quote] + (Doubled(d.quote, inside) + rest)) ==
      if |inside| <= d.fieldLimit then ReadOn(d, Reader(InQuoted, done, inside), rest) else None
  {
    ReadOneMore(d, Reader(mode, done, []), d.quote, Doubled(d.quote, inside) + rest);
    QuotedCharacters(d, done, [], inside, rest);
    assert [] + inside == inside;
  }

  /** What follows a closing quote belongs to the field, and is taken literally. */
  lemma AfterTheQuotes(d: Dialect, done: Record, inside: string, tail: string, rest: string)
    requires Usable(d) && IsBare(d, tail) && |inside| <= d.fieldLimit
    ensures ReadOn(d, Reader(QuoteInQuoted, done, inside), tail + rest) ==
      if |inside| + |tail| > d.fieldLimit then None
      else ReadOn(d, Reader(if tail == [] then QuoteInQuoted else InField, done, inside + tail), rest)
  {
    if tail == [] {
      assert tail + rest == rest && inside + tail == inside;
    } else {
      assert tail + rest == [tail[0]] + (tail[1..] + rest) && tail[0] in tail;
      ReadOneMore(d, Reader(QuoteInQuoted, done, inside), tail[0], tail[1..] + rest);
      if |inside| < d.fieldLimit {
        BareCharacters(d, done, inside + [tail[0]], tail[1..], rest);
        assert inside + [tail[0]] + tail[1..] == inside + tail;
      } else {
        FailedReadsNothing(d, tail[1..] + rest);
      }
    }
  }

  // ----- records ---------------------------------------------------------------------------

  lemma ReadDelimiter(d: Dialect, mode: Mode, done: Record, f: string, w: Writing, rest: string)
    requires Usable(d) && !w.Open? && (mode == StartField || mode == StartRecord)
    ensures ReadOn(d, Reader(After(mode, f, w), done, f), [d.delimiter] + rest) ==
            ReadOn(d, Reader(StartField, done + [f], []), rest)
  {
    ReadOneMore(d, Reader(After(mode, f, w), done, f), d.delimiter, rest);
  }

  lemma FeedEnd(d: Dialect, r: Reader, t: string)
    requires Usable(d) && IsTerminator(t) && r.Reader?
    requires r.mode == InField || r.mode == StartField || r.mode == QuoteInQuoted
    ensures FeedLine(d, r, t) == Reader(StartRecord, r.fields + [r.field], [])
  {
    var r1 := Step(d, r, t[0]);
    assert r1 == Save(r, EatBreak);
    if |t| == 2 {
      assert t[1..][0] == '\n' && t[1..][1..] == [];
      assert FeedLine(d, r1, t[1..]) == FeedLine(d, r1, t[1..][1..]);
    } else {
      assert t[1..] == [];
    }
  }

  lemma TerminatorIsALine(t: string, rest: string)
    requires IsTerminator(t) && !Merges(t, rest)
    ensures t + rest != [] && Lines(t + rest) == [t] + Lines(rest)
  {
    LineThenRest(t, rest);
    assert (t + rest)[..|t|] == t && (t + rest)[|t|..] == rest;
  }

  /** The terminator can close the record: it is one, or the text ends there. */
  predicate Closes(t: string, rest: string) {
    (IsTerminator(t) && !Merges(t, rest)) || (t == "" && rest == "")
  }

  /** A record ends at its terminator, or with the text. */
  lemma ReadEnd(d: Dialect, r: Reader, t: string, rest: string)
    requires Usable(d) && r.Reader?
    requires r.mode == InField || r.mode == StartField || r.mode == QuoteInQuoted || (r.mode == InQuoted && t == "")
    requires Closes(t, rest)
    ensures ReadOn(d, r, t + rest) == Prepend(r.fields + [r.field], ReadLines(d, Lines(rest)))
  {
    if t == "" {
      assert t + rest == [] && [r.fields + [r.field]] + [] == [r.fields + [r.field]];
    } else {
      TerminatorIsALine(t, rest);
      FeedEnd(d, r, t);
      assert ([t] + Lines(rest))[1..] == Lines(rest);
    }
  }

  lemma ReadLastField(d: Dialect, mode: Mode, done: Record, f: string, w: Writing, t: string, rest: string)
    requires Usable(d) && IsWritable(d, f, w) && (w.Open? ==> t == "") && Closes(t, rest)
    requires mode == StartField || (mode == StartRecord && !(f == "" && w == Bare))
    ensures ReadOn(d, Reader(mode, done, []), FieldText(d, f, w) + (t + rest)) ==
      if |f| <= d.fieldLimit then Prepend(done + [f], ReadLines(d, Lines(rest))) else None
  {
    ReadField(d, mode, done, f, w, t + rest);
    ReadEnd(d, Reader(After(mode, f, w), done, f), t, rest);
  }

  lemma ReadFieldBefore(d: Dialect, mode: Mode, done: Record, f: string, w: Writing, others: string)
    requires Usable(d) && IsWritable(d, f, w) && !w.Open? && (mode == StartField || mode == StartRecord)
    ensures ReadOn(d, Reader(mode, done, []), FieldText(d, f, w) + ([d.delimiter] + others)) ==
      if |f| <= d.fieldLimit then ReadOn(d, Reader(StartField, done + [f], []), others) else None
  {
    ReadField(d, mode, done, f, w, [d.delimiter] + others);
    ReadDelimiter(d, mode, done, f, w, others);
  }

  lemma {:induction false} ReadRecord(d: Dialect, mode: Mode, done: Record, fields: Record, ws: seq<Writing>,
                                      t: string, rest: string)
    requires Usable(d) && fields != [] && AreWritable(d, fields, ws) && OpenOnlyAtTheEnd(ws, t) && Closes(t, rest)
    requires mode == StartField || (mode == StartRecord && !(fields == [""] && ws == [Bare]))
    ensures ReadOn(d, Reader(mode, done, []), RecordText(d, fields, ws) + t + rest) ==
      if Fit(d, fields) then Prepend(done + fields, ReadLines(d, Lines(rest))) else None
    decreases |fields|
  {
    var f, w := fields[0], ws[0];
    FitSplits(d, fields);
    if |fields| == 1 {
      assert fields == [f] && ws == [w];
      assert RecordText(d, fields, ws) + t + rest == FieldText(d, f, w) + (t + rest);
      ReadLastField(d, mode, done, f, w, t, rest);
    } else {
      var others := RecordText(d, fields[1..], ws[1..]) + t + rest;
      assert RecordText(d, fields, ws) + t + rest == FieldText(d, f, w) + ([d.delimiter] + others) by {
        RecordTextSplits(d, fields, ws, t, rest);
      }
      ReadFieldBefore(d, mode, done, f, w, others);
      ReadRecord(d, StartField, done + [f], fields[1..], ws[1..], t, rest);
      assert done + [f] + fields[1..] == done + fields;
    }
  }

  lemma RecordTextSplits(d: Dialect, fields: Record, ws: seq<Writing>, t: string, rest: string)
    requires AreWritable(d, fields, ws) && |fields| > 1
    ensures RecordText(d, fields, ws) + t + rest ==
      FieldText(d, fields[0], ws[0]) + ([d.delimiter] + (RecordText(d, fields[1..], ws[1..]) + t + rest))
  {
  }

  lemma FitSplits(d: Dialect, fields: Record)
    requires fields != []
    ensures Fit(d, fields) <==> |fields[0]| <= d.fieldLimit && Fit(d, fields[1..])
  {
    assert forall i :: 1 <= i < |fields| ==> fields[i] == fields[1..][i - 1];
  }

  // ----- tables -----------------------------------------------------------------------------

  lemma BlankLineReads(d: Dialect, t: string, rest: string)
    requires IsTerminator(t) && !Merges(t, rest)
    ensures ReadLines(d, Lines(t + rest)) == Prepend([], ReadLines(d, Lines(rest)))
  {
    TerminatorIsALine(t, rest);
    assert ([t] + Lines(rest))[1..] == Lines(rest);
    var eating := Reader(EatBreak, [], []);
    assert Step(d, FRESH, t[0]) == eating && FeedLine(d, eating, []) == FRESH;
    if |t| == 2 {
      assert t[1..][0] == '\n' && t[1..][1..] == [];
      assert FeedLine(d, eating, t[1..]) == FeedLine(d, eating, t[1..][1..]);
    } else {
      assert t[1..] == [];
    }
  }

  lemma {:induction false} RecordTextStarts(d: Dialect, fields: Record, ws: seq<Writing>)
    requires Usable(d) && AreWritable(d, fields, ws) && fields != []
    ensures var text := RecordText(d, fields, ws);
      (text == [] ==> fields == [""] && ws == [Bare]) && (text != [] ==> text[0] != '\n')
  {
    var f, w := fields[0], ws[0];
    assert FieldText(d, f, w) != [] ==> FieldText(d, f, w)[0] == d.quote || FieldText(d, f, w)[0] in f;
    if |fields| == 1 {
      assert fields == [f] && ws == [w];
    }
  }

  /** What a written table starts with. */
  lemma TableTextStarts(d: Dialect, rows: seq<Row>)
    requires Usable(d) && AreRows(d, rows) && rows != []
    ensures TableText(d, rows) != [] && (TableText(d, rows)[0] == '\n' ==> StartsWithLf(rows[0]))
  {
    var row := rows[0];
    if row.fields != [] {
      RecordTextStarts(d, row.fields, row.writings);
    }
  }

  lemma RowDoesNotMerge(d: Dialect, rows: seq<Row>)
    requires Usable(d) && AreRows(d, rows) && rows != []
    ensures Closes(rows[0].terminator, TableText(d, rows[1..]))
    ensures rows[0].fields == [] ==> IsTerminator(rows[0].terminator)
  {
    RowsAfter(d, rows);
    assert IsRow(d, rows[0], 0 == |rows| - 1);
    if |rows| > 1 {
      TableTextStarts(d, rows[1..]);
      assert rows[1..][0] == rows[1];
    }
  }

  predicate AllFit(d: Dialect, rows: seq<Row>) {
    forall i :: 0 <= i < |rows| ==> Fit(d, rows[i].fields)
  }

  lemma {:induction false} ReadRows(d: Dialect, rows: seq<Row>)
    requires Usable(d) && AreRows(d, rows)
    ensures ReadLines(d, Lines(TableText(d, rows))) == if AllFit(d, rows) then Some(Fields(rows)) else None
    decreases |rows|
  {
    if rows != [] {
      RowsAfter(d, rows);
      ReadRows(d, rows[1..]);
      RowDoesNotMerge(d, rows);
      ReadFirstRow(d, rows[0], rows == rows[..1], TableText(d, rows[1..]));
      AllFitSplits(d, rows);
    }
  }

  lemma AllFitSplits(d: Dialect, rows: seq<Row>)
    requires rows != []
    ensures AllFit(d, rows) <==> Fit(d, rows[0].fields) && AllFit(d, rows[1..])
  {
    assert forall i :: 1 <= i < |rows| ==> rows[i] == rows[1..][i - 1];
  }

  lemma ReadFirstRow(d: Dialect, row: Row, last: bool, rest: string)
    requires Usable(d) && IsRow(d, row, last) && Closes(row.terminator, rest)
    requires row.fields == [] ==> IsTerminator(row.terminator)
    ensures ReadLines(d, Lines(RecordText(d, row.fields, row.writings) + row.terminator + rest)) ==
      if Fit(d, row.fields) then Prepend(row.fields, ReadLines(d, Lines(rest))) else None
  {
    var text := RecordText(d, row.fields, row.writings);
    if row.fields == [] {
      assert text + row.terminator + rest == row.terminator + rest;
      BlankLineReads(d, row.terminator, rest);
    } else {
      RecordTextStarts(d, row.fields, row.writings);
      ReadRecord(d, StartRecord, [], row.fields, row.writings, row.terminator, rest);
      assert [] + row.fields == row.fields;
      assert text + row.terminator + rest != [];
    }
  }

  // ----- without NULs the filter does nothing -----------------------------------------------

  lemma {:induction false} FilterKeepsLines(text: string)
    requires '\0' !in text
    ensures FilterEach(Lines(text)) == Lines(text)
  {
    if text != [] {
      var n := LineLength(text);
      FilterNulKeepsClean(text[..n]);
      FilterKeepsLines(text[n..]);
      assert Lines(text)[1..] == Lines(text[n..]);
    }
  }

  lemma {:induction false} DoubledHasNoNul(quote: char, s: string)
    requires quote != '\0' && '\0' !in s
    ensures '\0' !in Doubled(quote, s)
  {
    if s != [] {
      DoubledHasNoNul(quote, s[1..]);
    }
  }

  lemma {:induction false} RecordTextHasNoNul(d: Dialect, fields: Record, ws: seq<Writing>)
    requires Usable(d) && AreWritable(d, fields, ws)
    ensures '\0' !in RecordText(d, fields, ws)
  {
    if fields != [] {
      assert IsWritable(d, fields[0], ws[0]);
      DoubledHasNoNul(d.quote, fields[0]);
      if ws[0].Quoted? {
        DoubledHasNoNul(d.quote, fields[0][..ws[0].n]);
      }
      RecordTextHasNoNul(d, fields[1..], ws[1..]);
    }
  }

  lemma {:induction false} TableTextHasNoNul(d: Dialect, rows: seq<Row>)
    requires Usable(d) && AreRows(d, rows)
    ensures '\0' !in TableText(d, rows)
  {
    if rows != [] {
      assert IsRow(d, rows[0], 0 == |rows| - 1);
      RowsAfter(d, rows);
      RecordTextHasNoNul(d, rows[0].fields, rows[0].writings);
      TableTextHasNoNul(d, rows[1..]);
    }
  }

  // ----- results ------------------------------------------------------------------------------

  /** A table reads back as itself however it is written: any of its fields in quotes, with any
      terminators, blank lines as records without fields, the last terminator and even the last
      quote missing. It is refused exactly when a field passes the limit. */
  lemma WrittenTableReadsBackExactlyWhen(d: Dialect, rows: seq<Row>)
    requires Usable(d) && AreRows(d, rows)
    ensures ReadText(d, TableText(d, rows)) == if AllFit(d, rows) then Some(Fields(rows)) else None
  {
    TableTextHasNoNul(d, rows);
    FilterKeepsLines(TableText(d, rows));
    ReadRows(d, rows);
  }

  // ----- lines without terminators --------------------------------------------------------------

  lemma FeedUnterminatedField(d: Dialect, mode: Mode, done: Record, f: string)
    requires CleanField(d, f) && (mode == StartField || (mode == StartRecord && f != []))
    ensures FeedLine(d, Reader(mode, done, []), f) == Reader(StartRecord, done + [f], [])
  {
    if f != [] {
      assert f[0] in f && Step(d, Reader(mode, done, []), f[0]) == Reader(InField, done, [f[0]]);
      assert f[1..] + [] == f[1..] && [f[0]] + f[1..] == f;
      FeedChars(d, done, [f[0]], f[1..], []);
    }
  }

  lemma {:induction false} FeedUnterminatedRecord(d: Dialect, mode: Mode, done: Record, fields: Record)
    requires PlainDialect(d) && fields != [] && forall i :: 0 <= i < |fields| ==> CleanField(d, fields[i])
    requires mode == StartField || (mode == StartRecord && fields != [""])
    ensures FeedLine(d, Reader(mode, done, []), Join(fields, d.delimiter)) == Reader(StartRecord, done + fields, [])
    decreases |fields|
  {
    if |fields| == 1 {
      assert fields == [fields[0]];
      FeedUnterminatedField(d, mode, done, fields[0]);
    } else {
      FeedFieldAndDelimiter(d, mode, done, fields[0], Join(fields[1..], d.delimiter));
      FeedUnterminatedRecord(d, StartField, done + [fields[0]], fields[1..]);
      assert done + [fields[0]] + fields[1..] == done + fields;
    }
  }

  /** The reader takes lines, not terminators: a line without one ends its record all the same. */
  lemma {:induction false} UnterminatedLinesReadBack(d: Dialect, table: seq<Record>)
    requires PlainDialect(d) && forall i :: 0 <= i < |table| ==> CleanRecord(d, table[i])
    ensures ReadLines(d, seq(|table|, i requires 0 <= i < |table| => Join(table[i], d.delimiter))) == Some(table)
  {
    var lines := seq(|table|, i requires 0 <= i < |table| => Join(table[i], d.delimiter));
    if table != [] {
      var rest := table[1..];
      FeedUnterminatedRecord(d, StartRecord, [], table[0]);
      assert [] + table[0] == table[0];
      UnterminatedLinesReadBack(d, rest);
      assert lines[1..] == seq(|rest|, i requires 0 <= i < |rest| => Join(rest[i], d.delimiter));
      assert [table[0]] + rest == table;
    }
  }

  // ----- which tables a text can hold ---------------------------------------------------------

  predicate IsStorable(d: Dialect, f: string) {
    '\0' !in f && |f| <= d.fieldLimit
  }

  predicate AreStorable(d: Dialect, fields: Record) {
    forall i :: 0 <= i < |fields| ==> IsStorable(d, fields[i])
  }

  predicate StoresOnly(d: Dialect, r: Reader) {
    r.Reader? ==> AreStorable(d, r.fields) && IsStorable(d, r.field)
  }

  lemma {:induction false} LineStoresOnly(d: Dialect, r: Reader, line: string)
    requires StoresOnly(d, r) && '\0' !in line
    ensures StoresOnly(d, FeedLine(d, r, line))
    decreases |line|
  {
    if line != [] {
      assert line[0] in line;
      LineStoresOnly(d, Step(d, r, line[0]), line[1..]);
    }
  }

  lemma {:induction false} ReadStoresOnly(d: Dialect, r: Reader, lines: seq<string>)
    requires StoresOnly(d, r) && forall i :: 0 <= i < |lines| ==> '\0' !in lines[i]
    ensures ReadFrom(d, r, lines).Some? ==> forall record :: record in ReadFrom(d, r, lines).value ==> AreStorable(d, record)
    decreases |lines|
  {
    if lines != [] && r.Reader? {
      var r' := FeedLine(d, r, lines[0]);
      LineStoresOnly(d, r, lines[0]);
      if r'.Reader? {
        ReadStoresOnly(d, if r'.mode == StartRecord then FRESH else r', lines[1..]);
      }
    }
  }

  /** The table with every field in quotes and an LF after every record. */
  function AllQuoted(table: seq<Record>): (rows: seq<Row>)
    ensures |rows| == |table|
  {
    seq(|table|, i requires 0 <= i < |table| =>
      Row(table[i], seq(|table[i]|, k requires 0 <= k < |table[i]| => Quoted(|table[i][k]|)), "\n"))
  }

  lemma {:induction false} FieldsOfAllQuoted(table: seq<Record>)
    ensures Fields(AllQuoted(table)) == table
  {
    if table != [] {
      assert AllQuoted(table)[1..] == AllQuoted(table[1..]);
      FieldsOfAllQuoted(table[1..]);
    }
  }

  /** A table can be read from some text if and only if no field holds a NUL or passes the limit:
      quoting is enough for all the rest. */
  lemma ReadableExactlyWhen(d: Dialect, table: seq<Record>)
    requires Usable(d)
    ensures (exists text :: ReadText(d, text) == Some(table)) <==>
            forall i :: 0 <= i < |table| ==> AreStorable(d, table[i])
  {
    if text :| ReadText(d, text) == Some(table) {
      NoNulAfterFilter(Lines(text));
      ReadStoresOnly(d, FRESH, FilterEach(Lines(text)));
      assert forall i :: 0 <= i < |table| ==> table[i] in table;
    }
    if forall i :: 0 <= i < |table| ==> AreStorable(d, table[i]) {
      var rows := AllQuoted(table);
      AllQuotedAreRows(d, table);
      FieldsOfAllQuoted(table);
      WrittenTableReadsBackExactlyWhen(d, rows);
      assert AllFit(d, rows);
    }
  }

  lemma AllQuotedAreRows(d: Dialect, table: seq<Record>)
    requires forall i :: 0 <= i < |table| ==> AreStorable(d, table[i])
    ensures AreRows(d, AllQuoted(table))
  {
    forall i | 0 <= i < |table| ensures IsRow(d, AllQuoted(table)[i], i == |table| - 1) {
      forall k | 0 <= k < |table[i]| ensures IsWritable(d, table[i][k], Quoted(|table[i][k]|)) {
        assert IsStorable(d, table[i][k]) && table[i][k][|table[i][k]|..] == [];
      }
      var ws := AllQuoted(table)[i].writings;
      assert [Bare][0] == Bare && (ws != [] ==> ws[0] != Bare);
    }
  }
}
