/**
  Reading a dated series back: what the bytes of a day's file hold.
 */
module DatedReading {
  import opened CsvText
  import opened DatedSeries
  import opened DecimalDigits
  import D = DecimalRendering
  import opened Options
  import opened ReadBack
  import opened Utf8

  /** Characters that mean nothing to the reader: the space, and whatever is above the comma. */
  predicate IsPlain(c: char) {
    c == ' ' || c > ','
  }

  predicate IsPlainText(s: string) {
    forall i :: 0 <= i < |s| ==> IsPlain(s[i])
  }

  predicate ArePlain(fields: Record) {
    forall i :: 0 <= i < |fields| ==> IsPlainText(fields[i])
  }

  /** The text of every date is plain, as digits and hyphens are. */
  ghost predicate PlainDates(w: World) {
    forall date :: IsPlainText(w.dashed(date))
  }

  // The names are long literals, so a few at a time.

  lemma PlainNameTo5(i: nat)
    requires i < 5
    ensures IsPlainText(NameAt(i))
  {
  }

  lemma PlainNameTo10(i: nat)
    requires 5 <= i < 10
    ensures IsPlainText(NameAt(i))
  {
  }

  lemma PlainNameTo15(i: nat)
    requires 10 <= i < 15
    ensures IsPlainText(NameAt(i))
  {
  }

  lemma PlainNameFrom15(i: nat)
    requires 15 <= i
    ensures IsPlainText(NameAt(i))
  {
  }

  lemma PlainCountry(i: nat)
    ensures IsPlainText(CountryAt(i))
  {
  }

  lemma PlainBirthDate(i: nat)
    ensures IsPlainText(BirthDateAt(i))
  {
  }

  lemma PlainPools()
    ensures ArePlain(Names()) && ArePlain(Countries()) && ArePlain(BirthDates())
  {
    forall i: nat | i < 20 ensures IsPlainText(Names()[i]) {
      if i < 5 {
        PlainNameTo5(i);
      } else if i < 10 {
        PlainNameTo10(i);
      } else if i < 15 {
        PlainNameTo15(i);
      } else {
        PlainNameFrom15(i);
      }
    }
    forall i: nat | i < 18 ensures IsPlainText(Countries()[i]) {
      PlainCountry(i);
    }
    forall i: nat | i < 8 ensures IsPlainText(BirthDates()[i]) {
      PlainBirthDate(i);
    }
  }

  lemma PlainCustomerColumns()
    ensures ArePlain(Columns(Customers))
  {
  }

  lemma PlainOrderColumns()
    ensures ArePlain(Columns(Orders))
  {
  }

  lemma PlainExtraColumn(dataset: Dataset)
    ensures ArePlain([ExtraColumn(dataset)])
  {
  }

  lemma PlainExtraValues(dataset: Dataset)
    ensures ArePlain(ExtraValues(dataset))
  {
  }

  lemma PlainDigits(s: string)
    requires forall i :: 0 <= i < |s| ==> IsDigit(s[i])
    ensures IsPlainText(s)
  {
  }

  lemma PlainConcat(a: string, b: string)
    requires IsPlainText(a) && IsPlainText(b)
    ensures IsPlainText(a + b)
  {
  }

  lemma PlainStamp(w: World, date: int)
    requires PlainDates(w)
    ensures IsPlainText(Stamp(w, date))
  {
    PlainConcat(w.dashed(date), "T08:15:00Z");
  }

  lemma PlainAmount(units: int)
    ensures IsPlainText(D.Render(AMOUNT, units))
  {
    var q, p := D.FloorDiv(units, D.Power(AMOUNT)), D.Power(AMOUNT);
    PlainDigits(Digits(D.Abs(q)));
    PlainConcat("-", Digits(D.Abs(q)));
    PlainDigits(Padded(units % p, 2));
    PlainConcat(D.Signed(q), ".");
    PlainConcat(D.Signed(q) + ".", Padded(units % p, 2));
  }

  // ----- rows ------------------------------------------------------------------------

  lemma PlainProfile(w: World, id: nat, s: StreamName)
    ensures var base := Baseline(w, id); var other := Override(w, s, base);
      && IsPlainText(base.name) && IsPlainText(base.country) && IsPlainText(base.birthDate)
      && IsPlainText(base.signupCountry) && IsPlainText(other.name) && IsPlainText(other.country)
  {
    PlainPools();
  }

  lemma PlainExtra(w: World, p: Params, d: int, k: nat)
    ensures ArePlain(Extra(w, p, d, k))
  {
    PlainExtraValues(Customers);
  }

  lemma PlainMemberRow(w: World, p: Params, d: int, m: nat, k: nat)
    requires PlainDates(w)
    ensures ArePlain(MemberRow(w, p, d, m, k)) && |MemberRow(w, p, d, m, k)| > 1
  {
    var id := IdOf(m);
    PlainProfile(w, id, ChangeOf(id));
    PlainDigits(Digits(id));
    PlainStamp(w, p.start + d - if d == p.lateDay && m == p.rows / 2 then p.lateOffset else 0);
    PlainExtra(w, p, d, k);
  }

  lemma PlainCorrectionRow(w: World, p: Params, d: int, k: nat)
    requires PlainDates(w) && p.correctionMember.Some?
    ensures ArePlain(CorrectionRow(w, p, d, k)) && |CorrectionRow(w, p, d, k)| > 1
  {
    var id := IdOf(p.correctionMember.value);
    PlainProfile(w, id, CorrectionOf(id));
    PlainDigits(Digits(id));
    PlainStamp(w, p.start + d - p.correctionOffset);
    PlainExtra(w, p, d, k);
  }

  lemma PlainOrderRow(w: World, p: Params, d: nat, row: nat, at: nat)
    requires PlainDates(w)
    ensures ArePlain(OrderRow(w, p, d, row, at)) && |OrderRow(w, p, d, row, at)| > 1
  {
    var s := FileOf(Named(p, d));
    PlainDigits(Digits(OrderId(d, row)));
    PlainDigits(OrderCustomer(Index(w, s, at, REFERENCED_MEMBERS)));
    PlainAmount(D.Units(AMOUNT, w.draw(s, at + 1, D.Span(AMOUNT))));
    PlainExtraValues(Orders);
  }

  /** The header and the rows that follow it. */
  function Day(w: World, p: Params, d: nat): seq<Record> {
    [Header(p, d)] + match p.dataset { case Customers => CustomerRows(w, p, d) case Orders => OrderRows(w, p, d) }
  }

  lemma PlainHeader(p: Params, d: int)
    ensures ArePlain(Header(p, d)) && |Header(p, d)| > 1
  {
    PlainExtraColumn(p.dataset);
    if p.dataset == Customers {
      PlainCustomerColumns();
    } else {
      PlainOrderColumns();
    }
  }

  /** Plain records of several fields. */
  predicate AllPlain(rows: seq<Record>) {
    forall i :: 0 <= i < |rows| ==> ArePlain(rows[i]) && |rows[i]| > 1
  }

  lemma PlainCustomerRows(w: World, p: Params, d: nat)
    requires PlainDates(w)
    ensures AllPlain(CustomerRows(w, p, d))
  {
    var kept := Kept(p, d, p.rows);
    forall k | 0 <= k < |kept| ensures ArePlain(MemberRows(w, p, d, kept)[k]) && |MemberRows(w, p, d, kept)[k]| > 1 {
      PlainMemberRow(w, p, d, kept[k], k);
    }
    if HasCorrection(p, d) {
      PlainCorrectionRow(w, p, d, |kept|);
    }
  }

  lemma PlainOrderRows(w: World, p: Params, d: nat)
    requires PlainDates(w)
    ensures AllPlain(OrderRows(w, p, d))
  {
    forall r | 0 <= r < p.rows ensures ArePlain(OrderRows(w, p, d)[r]) && |OrderRows(w, p, d)[r]| > 1 {
      PlainOrderRow(w, p, d, r, r * DrawsPerRow(p, d));
    }
  }

  lemma PlainFirst(fields: Record, rows: seq<Record>)
    requires ArePlain(fields) && |fields| > 1 && AllPlain(rows)
    ensures AllPlain([fields] + rows)
  {
  }

  lemma PlainDay(w: World, p: Params, d: nat)
    requires PlainDates(w)
    ensures AllPlain(Day(w, p, d))
  {
    PlainHeader(p, d);
    match p.dataset
    case Customers =>
      PlainCustomerRows(w, p, d);
      PlainFirst(Header(p, d), CustomerRows(w, p, d));
    case Orders =>
      PlainOrderRows(w, p, d);
      PlainFirst(Header(p, d), OrderRows(w, p, d));
  }

  // ----- reading ----------------------------------------------------------------------

  /** The reader's dialect for these files. */
  function Commas(limit: nat): Dialect {
    Dialect(',', '"', limit)
  }

  predicate WithinLimit(fields: Record, limit: nat) {
    forall i :: 0 <= i < |fields| ==> |fields[i]| <= limit
  }

  lemma PlainRecordIsCleanExactlyWhen(fields: Record, limit: nat)
    requires ArePlain(fields) && |fields| > 1
    ensures CleanRecord(Commas(limit), fields) <==> WithinLimit(fields, limit)
  {
  }

  /** The n-th line of the text is the n-th record, ended by a CRLF. */
  ghost predicate IsLineOf(line: string, fields: Record) {
    && line == Join(fields, ',') + "\r\n"
    && forall i :: 0 <= i < |line| - 2 ==> !IsBreak(line[i])
  }

  /** What a reader finds in these bytes: a text of one CRLF-terminated line a record, which
      reads back as the records if and only if no field passes the reader's limit. */
  ghost predicate HoldsExactly(bytes: seq<Byte>, rows: seq<Record>) {
    && Decode(bytes).Some?
    && var text := Decode(bytes).value;
    && |Lines(text)| == |rows| && (forall i :: 0 <= i < |rows| ==> IsLineOf(Lines(text)[i], rows[i]))
    && forall limit :: ReadText(Commas(limit), text) == Some(rows) <==> AllWithinLimit(rows, limit)
  }

  predicate AllWithinLimit(rows: seq<Record>, limit: nat) {
    forall i :: 0 <= i < |rows| ==> WithinLimit(rows[i], limit)
  }

  lemma PlainTableReadsBack(rows: seq<Record>, ts: seq<string>)
    requires AllPlain(rows) && |ts| == |rows| && forall i :: 0 <= i < |ts| ==> ts[i] == "\r\n"
    ensures HoldsExactly(Encode(Concat(TableLines(rows, ',', ts))), rows)
  {
    var text := Concat(TableLines(rows, ',', ts));
    DecodeEncode(text);
    PlainTableLines(rows, ts, Longest(rows));
    forall limit: nat ensures ReadText(Commas(limit), text) == Some(rows) <==> AllWithinLimit(rows, limit) {
      PlainTableReadsBackWithin(rows, ts, limit);
    }
  }

  lemma PlainTableReadsBackWithin(rows: seq<Record>, ts: seq<string>, limit: nat)
    requires AllPlain(rows) && |ts| == |rows| && forall i :: 0 <= i < |ts| ==> ts[i] == "\r\n"
    ensures ReadText(Commas(limit), Concat(TableLines(rows, ',', ts))) == Some(rows) <==> AllWithinLimit(rows, limit)
  {
    forall i | 0 <= i < |rows|
      ensures rows[i] != [] && (CleanRecord(Commas(limit), rows[i]) <==> WithinLimit(rows[i], limit))
    {
      PlainRecordIsCleanExactlyWhen(rows[i], limit);
    }
    ReadsBackExactlyWhenClean(Commas(limit), rows, ts);
  }

  lemma PlainTableLines(rows: seq<Record>, ts: seq<string>, limit: nat)
    requires AllPlain(rows) && |ts| == |rows| && AllWithinLimit(rows, limit)
    requires forall i :: 0 <= i < |ts| ==> ts[i] == "\r\n"
    ensures var lines := TableLines(rows, ',', ts);
      Lines(Concat(lines)) == lines && forall i :: 0 <= i < |rows| ==> IsLineOf(lines[i], rows[i])
  {
    forall i | 0 <= i < |rows|
      ensures CleanRecord(Commas(limit), rows[i]) && IsLineOf(TableLines(rows, ',', ts)[i], rows[i])
    {
      PlainRecordIsCleanExactlyWhen(rows[i], limit);
      PlainLine(rows[i], limit);
    }
    TableLinesAreLineStream(Commas(limit), rows, ts);
    LinesOfLineStream(TableLines(rows, ',', ts));
  }

  lemma PlainLine(fields: Record, limit: nat)
    requires CleanRecord(Commas(limit), fields)
    ensures IsLineOf(RenderedLine(fields, ',', "\r\n"), fields)
  {
    JoinIsClean(Commas(limit), fields);
    var line, content := RenderedLine(fields, ',', "\r\n"), Join(fields, ',');
    assert forall k :: 0 <= k < |content| ==> line[k] == content[k] && content[k] in content;
  }

  /** A day's bytes hold the header and the day's rows. */
  lemma DayFileHoldsTheDay(w: World, p: Params, d: nat)
    requires PlainDates(w)
    ensures HoldsExactly(DayFile(w, p, d), Day(w, p, d))
  {
    var rows := Day(w, p, d);
    var ts := seq(|rows|, i => "\r\n");
    PlainDay(w, p, d);
    PlainTableReadsBack(rows, ts);
    assert DayRows(w, p, d) == rows;
  }

  /** A bound on all fields. */
  function Longest(table: seq<Record>): (n: nat)
    ensures AllWithinLimit(table, n)
  {
    if table == [] then 0
    else
      var rest := Longest(table[1..]);
      assert forall i :: 1 <= i < |table| ==> table[i] == table[1..][i - 1];
      if rest < LongestField(table[0]) then LongestField(table[0]) else rest
  }

  function LongestField(fields: Record): (n: nat)
    ensures WithinLimit(fields, n)
  {
    if fields == [] then 0
    else
      var rest := LongestField(fields[1..]);
      assert forall i :: 1 <= i < |fields| ==> fields[i] == fields[1..][i - 1];
      if rest < |fields[0]| then |fields[0]| else rest
  }

  lemma FileOfDay(w: World, p: Params, files: map<FileName, seq<Byte>>, filenames: seq<FileName>, d: nat)
    requires FilesTo(w, p, p.days, files, filenames) && d < p.days && d != p.gap
    ensures FileName(p.dataset, p.start + d) in files && files[FileName(p.dataset, p.start + d)] == DayFile(w, p, d)
  {
    assert Named(p, d) == FileName(p.dataset, p.start + d);
  }

  /** The extra column is there exactly from the schema-change day on. */
  lemma DayHeader(w: World, p: Params, d: nat)
    ensures Day(w, p, d) != []
    ensures Day(w, p, d)[0] == Columns(p.dataset) + if d >= p.schemaChange then [ExtraColumn(p.dataset)] else []
  {
  }

  /** In an accepted series every day but the gap has a file, and it holds that day: the header
      and the day's rows. */
  lemma SeriesReadsBack(w: World, p: Params, files: map<FileName, seq<Byte>>, filenames: seq<FileName>, d: nat)
    requires PlainDates(w) && FilesTo(w, p, p.days, files, filenames) && d < p.days && d != p.gap
    ensures FileName(p.dataset, p.start + d) in files
    ensures HoldsExactly(files[FileName(p.dataset, p.start + d)], Day(w, p, d))
  {
    DayFileHoldsTheDay(w, p, d);
    FileOfDay(w, p, files, filenames, d);
  }
}
