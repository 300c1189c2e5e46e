/**
  When a rendered table reads back: the reader keeps every quote of the text exactly when it
  never opens a quoted field, and then all it can produce is clean records.
 */
module ReadBack {
  import opened CsvText
  import opened Options
  import opened Utf8

  // ----- counting a character ------------------------------------------------------

  function Count(c: char, s: string): nat {
    if s == [] then 0 else (if s[0] == c then 1 else 0) + Count(c, s[1..])
  }

  function CountEach(c: char, ss: seq<string>): nat {
    if ss == [] then 0 else Count(c, ss[0]) + CountEach(c, ss[1..])
  }

  function CountTable(c: char, table: seq<Record>): nat {
    if table == [] then 0 else CountEach(c, table[0]) + CountTable(c, table[1..])
  }

  lemma {:induction false} CountConcat(c: char, a: string, b: string)
    ensures Count(c, a + b) == Count(c, a) + Count(c, b)
  {
    if a == [] {
      assert a + b == b;
    } else {
      assert (a + b)[0] == a[0] && (a + b)[1..] == a[1..] + b;
      CountConcat(c, a[1..], b);
    }
  }

  lemma CountOne(c: char, x: char)
    ensures Count(c, [x]) == if x == c then 1 else 0
  {
    assert [x][1..] == [];
  }

  lemma {:induction false} CountEachSnoc(c: char, ss: seq<string>, s: string)
    ensures CountEach(c, ss + [s]) == CountEach(c, ss) + Count(c, s)
  {
    if ss == [] {
      assert [] + [s] == [s] && [s][1..] == [];
    } else {
      assert (ss + [s])[0] == ss[0] && (ss + [s])[1..] == ss[1..] + [s];
      CountEachSnoc(c, ss[1..], s);
    }
  }

  lemma {:induction false} CountOfConcat(c: char, lines: seq<string>)
    ensures Count(c, Concat(lines)) == CountEach(c, lines)
  {
    if lines != [] {
      CountConcat(c, lines[0], Concat(lines[1..]));
      CountOfConcat(c, lines[1..]);
    }
  }

  lemma {:induction false} CountOfFiltered(c: char, s: string)
    requires c != '\0'
    ensures Count(c, FilterNul(s)) == Count(c, s)
  {
    if s != [] {
      CountOfFiltered(c, s[1..]);
      CountConcat(c, if s[0] == '\0' then [] else [s[0]], FilterNul(s[1..]));
      CountOne(c, s[0]);
    }
  }

  lemma {:induction false} CountOfJoin(c: char, fields: seq<string>, delimiter: char)
    requires c != delimiter
    ensures Count(c, Join(fields, delimiter)) == CountEach(c, fields)
  {
    if |fields| == 1 {
      assert fields[1..] == [];
    } else if |fields| > 1 {
      CountOfJoin(c, fields[1..], delimiter);
      CountConcat(c, fields[0] + [delimiter], Join(fields[1..], delimiter));
      CountConcat(c, fields[0], [delimiter]);
      CountOne(c, delimiter);
    }
  }

  lemma CountOfTerminator(c: char, t: string)
    requires !IsBreak(c) && IsTerminator(t)
    ensures Count(c, t) == 0
  {
    assert t[1..] == [] || (t[1..] == "\n" && t[1..][1..] == []);
  }

  lemma {:induction false} CountOfTableLines(c: char, table: seq<Record>, delimiter: char, ts: seq<string>)
    requires |ts| == |table| && c != delimiter && !IsBreak(c)
    requires forall i :: 0 <= i < |ts| ==> IsTerminator(ts[i])
    ensures CountEach(c, TableLines(table, delimiter, ts)) == CountTable(c, table)
    decreases |table|
  {
    if table != [] {
      assert TableLines(table, delimiter, ts)[1..] == TableLines(table[1..], delimiter, ts[1..]);
      CountOfTableLines(c, table[1..], delimiter, ts[1..]);
      CountConcat(c, Join(table[0], delimiter), ts[0]);
      CountOfJoin(c, table[0], delimiter);
      CountOfTerminator(c, ts[0]);
    }
  }

  // ----- a reader that has opened no quoted field --------------------------------------

  /** Quotes stored so far. */
  function Stored(d: Dialect, r: Reader): nat
    requires r.Reader?
  {
    CountEach(d.quote, r.fields) + Count(d.quote, r.field)
  }

  predicate AllClean(d: Dialect, fields: seq<string>) {
    forall i :: 0 <= i < |fields| ==> CleanField(d, fields[i])
  }

  /** Within a record, with all fields so far taken literally. */
  predicate Plain(d: Dialect, r: Reader) {
    && r.Reader? && AllClean(d, r.fields)
    && match r.mode
       case StartRecord => r.fields == [] && r.field == []
       case StartField => r.fields != [] && r.field == []
       case InField => r.field != [] && CleanField(d, r.field)
       case EatBreak => r.field == [] && r.fields != [""]
       case _ => false
  }

  predicate Usable(d: Dialect) {
    PlainDialect(d) && !IsBreak(d.quote) && d.quote != '\0'
  }

  lemma SaveStores(d: Dialect, r: Reader, mode: Mode)
    requires r.Reader?
    ensures Stored(d, Save(r, mode)) == Stored(d, r)
  {
    CountEachSnoc(d.quote, r.fields, r.field);
  }

  lemma AddStores(d: Dialect, r: Reader, c: char, mode: Mode)
    requires r.Reader? && Add(d, r, c, mode).Reader?
    ensures Stored(d, Add(d, r, c, mode)) == Stored(d, r) + if c == d.quote then 1 else 0
  {
    CountConcat(d.quote, r.field, [c]);
    CountOne(d.quote, c);
  }

  /** A step stores at most the quote it reads, and only a plain step stores it. */
  lemma StepStores(d: Dialect, r: Reader, c: char)
    requires Usable(d) && r.Reader? && Step(d, r, c).Reader?
    ensures var s := Step(d, r, c); var most := Stored(d, r) + if c == d.quote then 1 else 0;
      && Stored(d, s) <= most
      && (Stored(d, s) == most && c != '\0' && Plain(d, r) ==> Plain(d, s))
  {
    SaveStores(d, r, EatBreak);
    SaveStores(d, r, StartField);
    if Add(d, r, c, InField).Reader? {
      AddStores(d, r, c, InField);
    }
    if Add(d, r, c, InQuoted).Reader? {
      AddStores(d, r, c, InQuoted);
    }
  }

  lemma EndStores(d: Dialect, r: Reader)
    requires r.Reader?
    ensures EndLine(r).Reader? && Stored(d, EndLine(r)) == Stored(d, r)
    ensures Plain(d, r) ==> Closed(d, EndLine(r))
  {
    SaveStores(d, r, StartRecord);
  }

  /** A line read without opening a quoted field: a blank record, or a clean one. */
  predicate Closed(d: Dialect, r: Reader) {
    r.Reader? && r.mode == StartRecord && r.field == [] && (r.fields == [] || CleanRecord(d, r.fields))
  }

  lemma {:induction false} LineStores(d: Dialect, r: Reader, line: string)
    requires Usable(d) && r.Reader? && FeedLine(d, r, line).Reader?
    ensures var s := FeedLine(d, r, line); var most := Stored(d, r) + Count(d.quote, line);
      && Stored(d, s) <= most
      && (Stored(d, s) == most && '\0' !in line && Plain(d, r) ==> Closed(d, s))
    decreases |line|
  {
    if line == [] {
      EndStores(d, r);
    } else {
      var s := Step(d, r, line[0]);
      if s.Failed? {
        FailedStays(d, line[1..]);
        assert false;
      } else {
        StepStores(d, r, line[0]);
        LineStores(d, s, line[1..]);
      }
    }
  }

  lemma {:induction false} FailedStays(d: Dialect, line: string)
    ensures FeedLine(d, Failed, line).Failed?
  {
    if line != [] {
      FailedStays(d, line[1..]);
    }
  }

  lemma {:induction false} ReadStores(d: Dialect, r: Reader, lines: seq<string>)
    requires Usable(d) && r.Reader? && ReadFrom(d, r, lines).Some?
    ensures CountTable(d.quote, ReadFrom(d, r, lines).value) <= Stored(d, r) + CountEach(d.quote, lines)
    decreases |lines|
  {
    if lines == [] {
      var last := r.fields + [r.field];
      CountEachSnoc(d.quote, r.fields, r.field);
      assert [last][1..] == [];
    } else {
      var s := FeedLine(d, r, lines[0]);
      LineStores(d, r, lines[0]);
      if s.mode == StartRecord {
        ReadStores(d, FRESH, lines[1..]);
        OneMoreRecord(d.quote, s.fields, ReadFrom(d, FRESH, lines[1..]).value);
      } else {
        ReadStores(d, s, lines[1..]);
      }
    }
  }

  lemma OneMoreRecord(c: char, record: Record, rest: seq<Record>)
    ensures CountTable(c, [record] + rest) == CountEach(c, record) + CountTable(c, rest)
  {
    assert ([record] + rest)[1..] == rest;
  }

  /** When no quote of the lines is lost, every record read is blank or clean. */
  lemma {:induction false} NoQuoteLostMeansClean(d: Dialect, lines: seq<string>)
    requires Usable(d) && ReadLines(d, lines).Some?
    requires forall i :: 0 <= i < |lines| ==> '\0' !in lines[i]
    requires CountTable(d.quote, ReadLines(d, lines).value) == CountEach(d.quote, lines)
    ensures forall r :: r in ReadLines(d, lines).value ==> r == [] || CleanRecord(d, r)
    decreases |lines|
  {
    if lines != [] {
      var s, rest := FeedLine(d, FRESH, lines[0]), lines[1..];
      LineStores(d, FRESH, lines[0]);
      if s.mode == StartRecord {
        var records := ReadFrom(d, FRESH, rest).value;
        ReadStores(d, FRESH, rest);
        OneMoreRecord(d.quote, s.fields, records);
        assert Closed(d, s);
        NoQuoteLostMeansClean(d, rest);
      } else {
        ReadStores(d, s, rest);
        assert false;
      }
    }
  }

  lemma {:induction false} NoNulAfterFilter(lines: seq<string>)
    ensures forall i :: 0 <= i < |FilterEach(lines)| ==> '\0' !in FilterEach(lines)[i]
  {
    FilterEachAt(lines);
    forall i | 0 <= i < |lines| ensures '\0' !in FilterNul(lines[i]) {
      FilteredHasNoNul(lines[i]);
    }
  }

  lemma {:induction false} FilteredHasNoNul(s: string)
    ensures '\0' !in FilterNul(s)
  {
    if s != [] {
      FilteredHasNoNul(s[1..]);
    }
  }

  /** The exact condition: a rendered table reads back as itself if and only if every record
      is clean. Only a record without any field is left aside; no rendering has one. */
  lemma ReadsBackExactlyWhenClean(d: Dialect, table: seq<Record>, ts: seq<string>)
    requires Usable(d) && |ts| == |table|
    requires forall i :: 0 <= i < |table| ==> table[i] != [] && IsTerminator(ts[i])
    ensures ReadText(d, Concat(TableLines(table, d.delimiter, ts))) == Some(table) <==>
            forall i :: 0 <= i < |table| ==> CleanRecord(d, table[i])
  {
    var text := Concat(TableLines(table, d.delimiter, ts));
    var lines := FilterEach(Lines(text));
    if ReadText(d, text) == Some(table) {
      assert CountEach(d.quote, lines) == CountTable(d.quote, table) by {
        CountOfConcat(d.quote, lines);
        LineFilterIsTextFilter(text);
        CountOfFiltered(d.quote, text);
        CountOfConcat(d.quote, TableLines(table, d.delimiter, ts));
        CountOfTableLines(d.quote, table, d.delimiter, ts);
      }
      NoNulAfterFilter(Lines(text));
      NoQuoteLostMeansClean(d, lines);
      forall i | 0 <= i < |table| ensures CleanRecord(d, table[i]) {
        assert table[i] in table;
      }
    }
    if forall i :: 0 <= i < |table| ==> CleanRecord(d, table[i]) {
      ReadRenderedTable(d, table, ts);
    }
  }
}
