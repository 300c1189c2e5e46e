/**
  Tabular fixtures: the streaming writer with its part buffer and byte-order mark,
  and the round trip through strict UTF-8 decoding and the CSV reader.
 */
module Tabular {
  import opened CsvText
  import D = DecimalRendering
  import opened DecimalDigits
  import opened Options
  import opened ReadBack
  import opened Sequences
  import opened Utf8

  /** `bomAfterRecord` 0 puts the mark at offset zero, n right after record n. */
  datatype Fixture = Fixture(
    header: Record,
    rows: nat,
    delimiter: char,
    lineTerminator: string,
    lineTerminators: seq<string>,
    bom: bool,
    bomAfterRecord: nat)

  /** What loading the manifest guarantees: a mark position only with a mark, inside the file. */
  predicate Valid(f: Fixture) {
    && f.header != [] && f.rows > 0
    && IsTerminator(f.lineTerminator)
    && (forall i :: 0 <= i < |f.lineTerminators| ==> IsTerminator(f.lineTerminators[i]))
    && (f.bomAfterRecord > 0 ==> f.bom && f.bomAfterRecord < 1 + f.rows)
  }

  /** `terminator_for`: record 0 is the header. */
  function TerminatorFor(f: Fixture, record: nat): string {
    if f.lineTerminators == [] then f.lineTerminator else f.lineTerminators[record % |f.lineTerminators|]
  }

  /** The header, then the rows the column renderers produce. */
  function Table(f: Fixture, render: (nat, nat) -> string): (t: seq<Record>)
    ensures |t| == 1 + f.rows
  {
    [f.header] + seq(f.rows, i requires 0 <= i < f.rows =>
      seq(|f.header|, p requires 0 <= p < |f.header| => render(i, p)))
  }

  const MARK: char := '\U{FEFF}'

  predicate MarkBefore(f: Fixture, record: nat) {
    f.bom && f.bomAfterRecord == record
  }

  /** A mark in front of a record reads as a character of its first field. */
  function Marked(f: Fixture, table: seq<Record>): (t: seq<Record>)
    ensures |t| == |table|
  {
    seq(|table|, i requires 0 <= i < |table| =>
      if MarkBefore(f, i) && table[i] != [] then [[MARK] + table[i][0]] + table[i][1..] else table[i])
  }

  function Terminators(f: Fixture, n: nat): seq<string> {
    seq(n, i requires 0 <= i < n => TerminatorFor(f, i))
  }

  function Text(f: Fixture, table: seq<Record>): string {
    Concat(TableLines(Marked(f, table), f.delimiter, Terminators(f, |table|)))
  }

  // ----- text lemmas -----------------------------------------------------------

  lemma {:induction false} ConcatSnoc(lines: seq<string>, line: string)
    ensures Concat(lines + [line]) == Concat(lines) + line
  {
    if lines == [] {
      assert [] + [line] == [line] && [line][1..] == [];
    } else {
      assert (lines + [line])[0] == lines[0] && (lines + [line])[1..] == lines[1..] + [line];
      ConcatSnoc(lines[1..], line);
    }
  }

  lemma {:induction false} JoinSnoc(fields: seq<string>, field: string, delimiter: char)
    requires fields != []
    ensures Join(fields + [field], delimiter) == Join(fields, delimiter) + [delimiter] + field
  {
    if |fields| == 1 {
      assert (fields + [field])[1..] == [field];
    } else {
      assert (fields + [field])[0] == fields[0] && (fields + [field])[1..] == fields[1..] + [field];
      JoinSnoc(fields[1..], field, delimiter);
    }
  }

  lemma JoinMarked(fields: seq<string>, delimiter: char)
    requires fields != []
    ensures Join([[MARK] + fields[0]] + fields[1..], delimiter) == [MARK] + Join(fields, delimiter)
  {
    var marked := [[MARK] + fields[0]] + fields[1..];
    assert marked[1..] == fields[1..];
  }

  lemma MarkEncodesToTheMark()
    ensures Encode([MARK]) == BYTE_ORDER_MARK
  {
    assert [MARK][1..] == [];
  }

  /** The text of the first n records. */
  function Head(f: Fixture, table: seq<Record>, n: nat): string
    requires n <= |table|
  {
    Text(f, table[..n])
  }

  /** The same with the mark that stands before record n, if one does. */
  function Ahead(f: Fixture, table: seq<Record>, n: nat): string
    requires n <= |table|
  {
    Head(f, table, n) + if n < |table| && MarkBefore(f, n) then [MARK] else []
  }

  lemma HeadSnoc(f: Fixture, table: seq<Record>, n: nat)
    requires n < |table| && table[n] != []
    ensures Head(f, table, n + 1) == Ahead(f, table, n) + Join(table[n], f.delimiter) + TerminatorFor(f, n)
  {
    var before, after := table[..n], table[..n + 1];
    var last := RenderedLine(Marked(f, after)[n], f.delimiter, TerminatorFor(f, n));
    assert TableLines(Marked(f, after), f.delimiter, Terminators(f, n + 1)) ==
           TableLines(Marked(f, before), f.delimiter, Terminators(f, n)) + [last];
    ConcatSnoc(TableLines(Marked(f, before), f.delimiter, Terminators(f, n)), last);
    JoinMarked(table[n], f.delimiter);
  }

  // ----- the writer --------------------------------------------------------------

  /** What is in the file and in the part buffer together encode the text. */
  ghost predicate Buffered(file: seq<Byte>, parts: seq<string>, text: string) {
    file + Encode(Concat(parts)) == Encode(text)
  }

  lemma BufferPart(file: seq<Byte>, parts: seq<string>, text: string, part: string)
    requires Buffered(file, parts, text)
    ensures Buffered(file, parts + [part], text + part)
  {
    assert Encode(Concat(parts + [part])) == Encode(Concat(parts)) + Encode(part) by {
      ConcatSnoc(parts, part);
      EncodeConcat(Concat(parts), part);
    }
    assert Encode(text + part) == Encode(text) + Encode(part) by {
      EncodeConcat(text, part);
    }
    Assoc(file, Encode(Concat(parts)), Encode(part));
  }

  lemma FlushBuffer(file: seq<Byte>, parts: seq<string>, text: string)
    requires Buffered(file, parts, text)
    ensures Buffered(file + Encode(Concat(parts)), [], text)
  {
    assert Encode(Concat([])) == [];
  }

  lemma MarkIsText(file: seq<Byte>, text: string)
    requires Buffered(file, [], text)
    ensures Buffered(file + BYTE_ORDER_MARK, [], text + [MARK])
  {
    assert Encode(text + [MARK]) == Encode(text) + BYTE_ORDER_MARK by {
      EncodeConcat(text, [MARK]);
      MarkEncodesToTheMark();
    }
    assert Encode(Concat([])) == [];
  }

  /** One record: its fields and delimiters as separate parts, then its terminator. */
  method WriteRecord(f: Fixture, ghost table: seq<Record>, ghost file: seq<Byte>, parts0: seq<string>, fields: Record, n: nat)
    returns (parts: seq<string>)
    requires n < |table| && table[n] == fields != [] && Buffered(file, parts0, Ahead(f, table, n))
    ensures Buffered(file, parts, Head(f, table, n + 1))
  {
    ghost var start := Ahead(f, table, n);
    ghost var text := start;
    parts := parts0;
    for p := 0 to |fields|
      invariant Buffered(file, parts, text)
      invariant text == start + Join(fields[..p], f.delimiter)
    {
      ghost var joined := Join(fields[..p], f.delimiter);
      if p > 0 {
        BufferPart(file, parts, text, [f.delimiter]);
        parts, text := parts + [[f.delimiter]], text + [f.delimiter];
      }
      BufferPart(file, parts, text, fields[p]);
      parts, text := parts + [fields[p]], text + fields[p];
      assert text == start + Join(fields[..p + 1], f.delimiter) by {
        assert fields[..p + 1] == fields[..p] + [fields[p]];
        if p > 0 {
          JoinSnoc(fields[..p], fields[p], f.delimiter);
          Assoc(start, joined, [f.delimiter]);
          Assoc(start, joined + [f.delimiter], fields[p]);
        }
      }
    }
    assert fields[..|fields|] == fields;
    BufferPart(file, parts, text, TerminatorFor(f, n));
    parts := parts + [TerminatorFor(f, n)];
    HeadSnoc(f, table, n);
  }

  /** Flushes the buffer when the mark or the threshold asks for it, and writes the mark. */
  method FlushAfterRecord(f: Fixture, ghost table: seq<Record>, file0: seq<Byte>, parts0: seq<string>, n: nat, full: bool)
    returns (file: seq<Byte>, parts: seq<string>)
    requires Valid(f) && 1 <= n <= |table| == 1 + f.rows && Buffered(file0, parts0, Head(f, table, n))
    ensures Buffered(file, parts, Ahead(f, table, n))
  {
    file, parts := file0, parts0;
    FlushBuffer(file, parts, Head(f, table, n));
    if f.bomAfterRecord == n {
      file, parts := file + Encode(Concat(parts)), [];
      MarkIsText(file, Head(f, table, n));
      file := file + BYTE_ORDER_MARK;
      assert Ahead(f, table, n) == Head(f, table, n) + [MARK];
    } else {
      assert Ahead(f, table, n) == Head(f, table, n);
      if full {
        file, parts := file + Encode(Concat(parts)), [];
      }
    }
  }

  /** Writes the file a part at a time; the flush threshold never shows in the bytes. */
  method WriteTabular(f: Fixture, render: (nat, nat) -> string, flushParts: nat) returns (file: seq<Byte>)
    requires Valid(f)
    ensures file == Encode(Text(f, Table(f, render)))
  {
    ghost var table := Table(f, render);
    var parts: seq<string> := [];
    file := [];
    assert table[..0] == [] && Head(f, table, 0) == [];
    if f.bom && f.bomAfterRecord == 0 {
      MarkIsText([], []);
      file := file + BYTE_ORDER_MARK;
    }
    parts := WriteRecord(f, table, file, parts, f.header, 0);
    file, parts := FlushAfterRecord(f, table, file, parts, 1, false);
    for i := 0 to f.rows
      invariant Buffered(file, parts, Ahead(f, table, i + 1))
    {
      var row := seq(|f.header|, p requires 0 <= p < |f.header| => render(i, p));
      assert row == table[i + 1];
      parts := WriteRecord(f, table, file, parts, row, i + 1);
      file, parts := FlushAfterRecord(f, table, file, parts, i + 2, |parts| >= flushParts);
    }
    file := file + Encode(Concat(parts));
    assert table[..f.rows + 1] == table && Ahead(f, table, |table|) == Text(f, table);
  }

  // ----- the round trip --------------------------------------------------------------

  /** Generate then read is the identity: when every record is clean, the bytes decode and
      parse to exactly the header and the rendered rows, for any flush threshold, any
      cycle of terminators and any place of the mark. */
  lemma GenerateThenReadIsIdentity(f: Fixture, d: Dialect, table: seq<Record>)
    requires Valid(f) && PlainDialect(d) && d.delimiter == f.delimiter
    requires forall i :: 0 <= i < |table| ==> CleanRecord(d, Marked(f, table)[i])
    ensures var text := Decode(Encode(Text(f, table)));
      && text == Some(Text(f, table))
      && ReadText(d, text.value) == Some(Marked(f, table))
    ensures !f.bom ==> Marked(f, table) == table
  {
    DecodeEncode(Text(f, table));
    var ts := Terminators(f, |table|);
    ReadRenderedTable(d, Marked(f, table), ts);
  }

  /** In a clean file, line i holds record i and ends in the i-th terminator of the cycle, the
      header being record 0. */
  lemma LinesEndInTheirTerminators(f: Fixture, d: Dialect, table: seq<Record>, i: nat)
    requires Valid(f) && PlainDialect(d) && d.delimiter == f.delimiter && i < |table|
    requires forall k :: 0 <= k < |table| ==> CleanRecord(d, Marked(f, table)[k])
    ensures var lines := Lines(Text(f, table));
      var t := if f.lineTerminators == [] then f.lineTerminator else f.lineTerminators[i % |f.lineTerminators|];
      && |lines| == |table|
      && lines[i] == Join(Marked(f, table)[i], f.delimiter) + t
      && forall c :: c in Join(Marked(f, table)[i], f.delimiter) ==> !IsBreak(c)
  {
    var marked, ts := Marked(f, table), Terminators(f, |table|);
    TableLinesAreLineStream(d, marked, ts);
    LinesOfLineStream(TableLines(marked, f.delimiter, ts));
    JoinIsClean(d, marked[i]);
  }

  // ----- which fixtures read back, whatever is drawn --------------------------------------

  datatype Column =
    | ZeroPadded(width: nat, start: int)
    | Pick(values: seq<string>)
    | Decimal(spec: D.Column)
    | Repeat(character: char, length: nat)

  /** What parsing the column guarantees. */
  predicate ValidColumn(c: Column) {
    match c
    case ZeroPadded(_, _) => true
    case Pick(values) => values != []
    case Decimal(spec) => D.Valid(spec)
    case Repeat(_, length) => length >= 1
  }

  /** Python counts the sign of a negative number towards the width. */
  function ZeroPaddedText(n: int, width: nat): string {
    if n >= 0 then Padded(n, width) else "-" + Padded(-n, if width == 0 then 0 else width - 1)
  }

  /** What the column's renderer may return in a row. A product of a draw may round up to the
      count it is scaled to. */
  ghost predicate CanRender(c: Column, row: nat, v: string)
    requires ValidColumn(c)
  {
    match c
    case ZeroPadded(width, start) => v == ZeroPaddedText(start + row, width)
    case Pick(values) =>
      exists k :: D.IsDraw(k, |values|) && v == values[D.Clamped(k, |values|)]
    case Decimal(spec) => DecimalCanRender(spec, v)
    case Repeat(character, length) => v == Repeated(character, length)
  }

  ghost predicate DecimalCanRender(spec: D.Column, v: string) {
    exists k :: D.IsDraw(k, D.Span(spec)) && v == D.Render(spec, D.Units(spec, k))
  }

  function Repeated(c: char, n: nat): string {
    seq(n, i => c)
  }

  /** The least units drawn: a column without a representable value draws the units below. */
  function LeastUnits(spec: D.Column): int {
    if D.Low(spec) <= D.High(spec) then D.Low(spec) else D.High(spec)
  }

  /** The same values, listed. */
  function Values(c: Column, row: nat): (vs: seq<string>)
    requires ValidColumn(c)
    ensures vs != []
  {
    match c
    case ZeroPadded(width, start) => [ZeroPaddedText(start + row, width)]
    case Pick(values) => values
    case Decimal(spec) => RenderedUnits(spec, LeastUnits(spec), D.High(spec))
    case Repeat(character, length) => [Repeated(character, length)]
  }

  /** The renderings of consecutive units. */
  function RenderedUnits(spec: D.Column, from: int, to: int): (vs: seq<string>)
    requires from <= to
    ensures |vs| == to - from + 1
    ensures forall j :: 0 <= j < |vs| ==> vs[j] == D.Render(spec, from + j)
  {
    seq(to - from + 1, j => D.Render(spec, from + j))
  }

  lemma BoundsAreAdjacent(spec: D.Column)
    requires D.Valid(spec)
    ensures D.Low(spec) <= D.High(spec) + 1
  {
    var p := D.Power(spec) as real;
    assert spec.minimum * p <= spec.maximum * p;
    assert spec.maximum * p < (D.High(spec) + 1) as real;
  }

  /** The units a decimal column draws are exactly those from the least to the highest. */
  lemma UnitsDrawn(spec: D.Column, u: int)
    requires D.Valid(spec)
    ensures LeastUnits(spec) <= u <= D.High(spec) <==>
            exists k :: D.IsDraw(k, D.Span(spec)) && D.Units(spec, k) == u
  {
    BoundsAreAdjacent(spec);
    if LeastUnits(spec) <= u <= D.High(spec) {
      var k := if D.Low(spec) <= D.High(spec) then u - D.Low(spec) else 0;
      assert D.IsDraw(k, D.Span(spec)) && D.Units(spec, k) == u;
    }
  }

  lemma CanRenderExactlyTheValues(c: Column, row: nat, v: string)
    requires ValidColumn(c)
    ensures CanRender(c, row, v) <==> v in Values(c, row)
  {
    match c
    case Pick(values) =>
      if v in values {
        var k :| 0 <= k < |values| && v == values[k];
        assert D.IsDraw(k, |values|) && D.Clamped(k, |values|) == k;
      }
    case Decimal(spec) => DecimalRendersItsValues(spec, v, LeastUnits(spec), D.High(spec));
    case _ =>
  }

  lemma DrawnUnitsRender(spec: D.Column, u: int)
    requires D.Valid(spec) && LeastUnits(spec) <= u <= D.High(spec)
    ensures DecimalCanRender(spec, D.Render(spec, u))
  {
    UnitsDrawn(spec, u);
    var k :| D.IsDraw(k, D.Span(spec)) && D.Units(spec, k) == u;
  }

  lemma RenderedUnitsAreDrawn(spec: D.Column, v: string) returns (u: int)
    requires D.Valid(spec) && DecimalCanRender(spec, v)
    ensures LeastUnits(spec) <= u <= D.High(spec) && v == D.Render(spec, u)
  {
    var k :| D.IsDraw(k, D.Span(spec)) && v == D.Render(spec, D.Units(spec, k));
    u := D.Units(spec, k);
    UnitsDrawn(spec, u);
  }

  lemma AmongRenderedUnits(spec: D.Column, from: int, to: int, u: int)
    requires from <= u <= to
    ensures D.Render(spec, u) in RenderedUnits(spec, from, to)
  {
    assert RenderedUnits(spec, from, to)[u - from] == D.Render(spec, u);
  }

  lemma WhichUnits(spec: D.Column, from: int, to: int, v: string) returns (u: int)
    requires from <= to && v in RenderedUnits(spec, from, to)
    ensures from <= u <= to && v == D.Render(spec, u)
  {
    var j :| 0 <= j < to - from + 1 && v == RenderedUnits(spec, from, to)[j];
    u := from + j;
  }

  lemma DecimalRendersItsValues(spec: D.Column, v: string, from: int, to: int)
    requires D.Valid(spec) && from == LeastUnits(spec) && to == D.High(spec)
    ensures v in RenderedUnits(spec, from, to) <==> DecimalCanRender(spec, v)
  {
    if v in RenderedUnits(spec, from, to) {
      var u := WhichUnits(spec, from, to, v);
      DrawnUnitsRender(spec, u);
    }
    if DecimalCanRender(spec, v) {
      var u := RenderedUnitsAreDrawn(spec, v);
      AmongRenderedUnits(spec, from, to, u);
    }
  }

  /** Every field comes from its column. */
  ghost predicate Renders(f: Fixture, columns: seq<Column>, render: (nat, nat) -> string)
    requires forall p :: 0 <= p < |columns| ==> ValidColumn(columns[p])
  {
    forall i: nat, p: nat :: i < f.rows && p < |columns| ==> CanRender(columns[p], i, render(i, p))
  }

  /** A field as it stands in the file: the mark may be in front of it. */
  function Shown(f: Fixture, record: nat, p: nat, v: string): string {
    if MarkBefore(f, record) && p == 0 then [MARK] + v else v
  }

  /** A condition on the declaration alone: header and every value a column can render are
      clean where they stand, and no record is a lone empty field. */
  predicate CleanSpec(f: Fixture, d: Dialect, columns: seq<Column>)
    requires forall p :: 0 <= p < |columns| ==> ValidColumn(columns[p])
  {
    && CleanRecord(d, Marked(f, [f.header])[0])
    && forall i, p :: 0 <= i < f.rows && 0 <= p < |columns| ==> CleanAt(f, d, columns, i, p)
  }

  predicate CleanAt(f: Fixture, d: Dialect, columns: seq<Column>, row: nat, p: nat)
    requires p < |columns| && ValidColumn(columns[p])
  {
    forall v :: v in Values(columns[p], row) ==>
      CleanField(d, Shown(f, row + 1, p, v)) && (|columns| == 1 ==> Shown(f, row + 1, p, v) != "")
  }

  lemma MarkedRow(f: Fixture, render: (nat, nat) -> string, row: nat)
    requires f.header != [] && row < f.rows
    ensures var record := Marked(f, Table(f, render))[row + 1];
      && |record| == |f.header|
      && forall p :: 0 <= p < |record| ==> record[p] == Shown(f, row + 1, p, render(row, p))
  {
  }

  lemma MarkedRowIsClean(f: Fixture, d: Dialect, columns: seq<Column>, render: (nat, nat) -> string, row: nat)
    requires forall p :: 0 <= p < |columns| ==> ValidColumn(columns[p])
    requires f.header != [] && |columns| == |f.header| && row < f.rows && Renders(f, columns, render)
    requires CleanSpec(f, d, columns)
    ensures CleanRecord(d, Marked(f, Table(f, render))[row + 1])
  {
    var record := Marked(f, Table(f, render))[row + 1];
    MarkedRow(f, render, row);
    forall p | 0 <= p < |record|
      ensures CleanField(d, record[p]) && (|columns| == 1 ==> record[p] != "")
    {
      CanRenderExactlyTheValues(columns[p], row, render(row, p));
      assert CleanAt(f, d, columns, row, p);
    }
  }

  /** A draw in which row i shows v in column p. */
  lemma SomeDrawShows(f: Fixture, columns: seq<Column>, row: nat, p: nat, v: string)
    returns (render: (nat, nat) -> string)
    requires forall q :: 0 <= q < |columns| ==> ValidColumn(columns[q])
    requires p < |columns| && v in Values(columns[p], row)
    ensures Renders(f, columns, render) && render(row, p) == v
  {
    render := (i: nat, q: nat) =>
      if i == row && q == p then v
      else if q < |columns| && ValidColumn(columns[q]) then Values(columns[q], i)[0] else "";
    forall i: nat, q: nat | i < f.rows && q < |columns| ensures CanRender(columns[q], i, render(i, q)) {
      CanRenderExactlyTheValues(columns[q], i, render(i, q));
    }
  }

  lemma DrawReadsBackExactlyWhen(f: Fixture, d: Dialect, render: (nat, nat) -> string)
    requires Valid(f) && Usable(d) && d.delimiter == f.delimiter
    ensures var marked := Marked(f, Table(f, render));
      ReadText(d, Text(f, Table(f, render))) == Some(marked) <==>
      forall i :: 0 <= i < |marked| ==> CleanRecord(d, marked[i])
  {
    var table := Table(f, render);
    ReadsBackExactlyWhenClean(d, Marked(f, table), Terminators(f, |table|));
  }

  lemma HeaderIsMarkedAlone(f: Fixture, render: (nat, nat) -> string)
    requires f.header != []
    ensures Marked(f, Table(f, render))[0] == Marked(f, [f.header])[0]
  {
  }

  lemma CleanSpecIsNeeded(f: Fixture, d: Dialect, columns: seq<Column>, row: nat, p: nat)
    requires Valid(f) && Usable(d) && d.delimiter == f.delimiter && |columns| == |f.header|
    requires forall q :: 0 <= q < |columns| ==> ValidColumn(columns[q])
    requires row < f.rows && p < |columns|
    requires forall render | Renders(f, columns, render) ::
      ReadText(d, Text(f, Table(f, render))) == Some(Marked(f, Table(f, render)))
    ensures CleanAt(f, d, columns, row, p)
    ensures CleanRecord(d, Marked(f, [f.header])[0])
  {
    forall v | v in Values(columns[p], row)
      ensures CleanField(d, Shown(f, row + 1, p, v)) && (|columns| == 1 ==> Shown(f, row + 1, p, v) != "")
      ensures CleanRecord(d, Marked(f, [f.header])[0])
    {
      var render := SomeDrawShows(f, columns, row, p, v);
      var marked := Marked(f, Table(f, render));
      DrawReadsBackExactlyWhen(f, d, render);
      MarkedRow(f, render, row);
      HeaderIsMarkedAlone(f, render);
      assert CleanRecord(d, marked[0]) && CleanRecord(d, marked[row + 1]);
      assert marked[row + 1][p] == Shown(f, row + 1, p, v);
      assert |columns| == 1 ==> marked[row + 1] == [marked[row + 1][0]];
    }
    assert Values(columns[p], row)[0] in Values(columns[p], row);
  }

  /** A fixture reads back on every draw if and only if its declaration is clean. */
  lemma EveryDrawReadsBackExactlyWhen(f: Fixture, d: Dialect, columns: seq<Column>)
    requires Valid(f) && Usable(d) && d.delimiter == f.delimiter && |columns| == |f.header|
    requires forall p :: 0 <= p < |columns| ==> ValidColumn(columns[p])
    ensures CleanSpec(f, d, columns) <==>
      forall render | Renders(f, columns, render) ::
        ReadText(d, Text(f, Table(f, render))) == Some(Marked(f, Table(f, render)))
  {
    if CleanSpec(f, d, columns) {
      forall render | Renders(f, columns, render)
        ensures ReadText(d, Text(f, Table(f, render))) == Some(Marked(f, Table(f, render)))
      {
        var marked := Marked(f, Table(f, render));
        HeaderIsMarkedAlone(f, render);
        forall i | 0 <= i < |marked| ensures CleanRecord(d, marked[i]) {
          if i > 0 {
            MarkedRowIsClean(f, d, columns, render, i - 1);
          }
        }
        DrawReadsBackExactlyWhen(f, d, render);
      }
    }
    if forall render | Renders(f, columns, render) ::
      ReadText(d, Text(f, Table(f, render))) == Some(Marked(f, Table(f, render))) {
      forall i, p | 0 <= i < f.rows && 0 <= p < |columns| ensures CleanAt(f, d, columns, i, p) {
        CleanSpecIsNeeded(f, d, columns, i, p);
      }
      CleanSpecIsNeeded(f, d, columns, 0, 0);
    }
  }

  // ----- what the collision check says about it --------------------------------------------

  /** `_validate_delimiter_does_not_collide`. */
  predicate NoCollision(columns: seq<Column>, delimiter: char) {
    forall i :: 0 <= i < |columns| && columns[i].Decimal? ==> columns[i].spec.separator != [delimiter]
  }

  /** The check refuses no clean fixture, except for a separator that no value shows because
      the column has no fraction. */
  lemma CleanSpecPassesTheCheck(f: Fixture, d: Dialect, columns: seq<Column>)
    requires Valid(f) && forall p :: 0 <= p < |columns| ==> ValidColumn(columns[p])
    requires CleanSpec(f, d, columns)
    requires forall p :: 0 <= p < |columns| && columns[p].Decimal? ==> columns[p].spec.scale > 0
    ensures NoCollision(columns, d.delimiter)
  {
    forall p | 0 <= p < |columns| && columns[p].Decimal? ensures columns[p].spec.separator != [d.delimiter] {
      var spec := columns[p].spec;
      var v := Values(columns[p], 0)[0];
      var q := D.FloorDiv(LeastUnits(spec), D.Power(spec));
      assert CleanAt(f, d, columns, 0, p) && v in Values(columns[p], 0);
      assert v == D.Signed(q) + spec.separator + Padded(LeastUnits(spec) % D.Power(spec), spec.scale);
      assert forall c :: c in spec.separator ==> c in v && c in Shown(f, 1, p, v);
    }
  }

  /** The check looks at decimal separators only: a picked value may hold the delimiter, and
      its record then reads back as two fields. */
  lemma ACollidingPickPassesAndReadsBackSplit()
    ensures NoCollision([Pick(["a,b"])], ',')
    ensures ReadText(Dialect(',', '"', 100), RenderedLine(["a,b"], ',', "\n")) == Some([["a", "b"]])
  {
    var d := Dialect(',', '"', 100);
    assert RenderedLine(["a", "b"], ',', "\n") == "a,b\n" by {
      assert ["a", "b"][1..] == ["b"];
    }
    assert RenderedLine(["a,b"], ',', "\n") == "a,b\n";
    var table: seq<Record> := [["a", "b"]];
    assert TableLines(table, ',', ["\n"]) == ["a,b\n"];
    assert Concat(["a,b\n"]) == "a,b\n" by {
      assert ["a,b\n"][1..] == [];
    }
    ReadRenderedTable(d, table, ["\n"]);
  }
}
