/**
  Reading a part set back: the parts of an accepted target decode on their own, the
  header is in the first only, and their physical lines, streamed one part after
  another, are read as the target's own lines except where a part boundary falls
  between a CR and an LF.
 */
module MultipartReading {
  import opened CsvText
  import M = Multipart
  import opened Options
  import opened Sequences
  import opened Utf8

  // ----- streamed lines --------------------------------------------------------

  function LinesOfEach(texts: seq<string>): seq<string> {
    if texts == [] then [] else Lines(texts[0]) + LinesOfEach(texts[1..])
  }

  /** `open_multipart_stream`: nothing is skipped from a later part. */
  method OpenMultipartStream(texts: seq<string>) returns (lines: seq<string>)
    ensures lines == LinesOfEach(texts)
  {
    lines := [];
    for i := 0 to |texts|
      invariant lines + LinesOfEach(texts[i..]) == LinesOfEach(texts)
    {
      assert texts[i..][0] == texts[i] && texts[i..][1..] == texts[i + 1..];
      lines := lines + Lines(texts[i]);
    }
    assert texts[|texts|..] == [];
  }

  predicate EndsInBreak(text: string) {
    text != [] && IsBreak(text[|text| - 1])
  }

  predicate AllTerminated(lines: seq<string>) {
    forall i :: 0 <= i < |lines| ==> IsTerminated(lines[i])
  }

  /** No part ends in a lone CR in front of a part that starts with an LF. */
  predicate NoBoundaryMerges(texts: seq<string>) {
    forall i :: 0 <= i < |texts| - 1 ==> !Merges(texts[i], texts[i + 1])
  }

  lemma {:induction false} ConcatAppend(a: seq<string>, b: seq<string>)
    ensures Concat(a + b) == Concat(a) + Concat(b)
  {
    if a == [] {
      assert a + b == b;
    } else {
      assert (a + b)[0] == a[0] && (a + b)[1..] == a[1..] + b;
      ConcatAppend(a[1..], b);
    }
  }

  lemma {:induction false} StreamedTextIsTheText(texts: seq<string>)
    ensures Concat(LinesOfEach(texts)) == Concat(texts)
  {
    if texts != [] {
      ConcatAppend(Lines(texts[0]), LinesOfEach(texts[1..]));
      ConcatLines(texts[0]);
      StreamedTextIsTheText(texts[1..]);
    }
  }

  /** The first line starts as the text does and the last line ends as it does. */
  lemma {:induction false} OuterLines(text: string)
    requires text != []
    ensures var lines := Lines(text);
      && lines != [] && lines[0] != [] && lines[0][0] == text[0]
      && lines[|lines| - 1] != [] && lines[|lines| - 1][|lines[|lines| - 1]| - 1] == text[|text| - 1]
  {
    var n := LineLength(text);
    if n < |text| {
      OuterLines(text[n..]);
    } else {
      assert text[n..] == [] && text[..n] == text;
    }
  }

  lemma LinesAreTerminated(text: string)
    requires EndsInBreak(text)
    ensures AllTerminated(Lines(text))
  {
    LinesAreLineStream(text);
    OuterLines(text);
  }

  lemma {:induction false} StreamIsTerminated(texts: seq<string>)
    requires forall i :: 0 <= i < |texts| ==> EndsInBreak(texts[i])
    ensures AllTerminated(LinesOfEach(texts))
  {
    if texts != [] {
      LinesAreTerminated(texts[0]);
      StreamIsTerminated(texts[1..]);
    }
  }

  lemma AppendLineStreams(a: seq<string>, b: seq<string>)
    requires a != [] && b != [] && LineStream(a) && AllTerminated(a)
    ensures LineStream(a + b) <==> LineStream(b) && !Merges(a[|a| - 1], b[0])
  {
    var s := a + b;
    assert forall i :: 0 <= i < |a| ==> s[i] == a[i];
    assert forall i :: 0 <= i < |b| ==> s[|a| + i] == b[i];
    if LineStream(s) {
      assert !Merges(s[|a| - 1], s[|a|]);
    }
  }

  lemma {:induction false} StreamIsALineStreamExactlyWhen(texts: seq<string>)
    requires forall i :: 0 <= i < |texts| ==> EndsInBreak(texts[i])
    ensures LineStream(LinesOfEach(texts)) <==> NoBoundaryMerges(texts)
  {
    if texts != [] {
      var rest := texts[1..];
      LinesAreLineStream(texts[0]);
      LinesAreTerminated(texts[0]);
      StreamIsALineStreamExactlyWhen(rest);
      if rest == [] {
        assert Lines(texts[0]) + LinesOfEach(rest) == Lines(texts[0]);
      } else {
        OuterLines(texts[0]);
        OuterLines(rest[0]);
        AppendLineStreams(Lines(texts[0]), LinesOfEach(rest));
        FirstBoundary(texts);
      }
    }
  }

  lemma FirstBoundary(texts: seq<string>)
    requires |texts| > 1
    ensures NoBoundaryMerges(texts) <==> !Merges(texts[0], texts[1]) && NoBoundaryMerges(texts[1..])
  {
    var rest := texts[1..];
    if NoBoundaryMerges(texts) {
      forall i | 0 <= i < |rest| - 1 ensures !Merges(rest[i], rest[i + 1]) {
        assert !Merges(texts[i + 1], texts[i + 2]);
      }
    }
    if !Merges(texts[0], texts[1]) && NoBoundaryMerges(rest) {
      forall i | 0 <= i < |texts| - 1 ensures !Merges(texts[i], texts[i + 1]) {
        assert i > 0 ==> !Merges(rest[i - 1], rest[i]);
      }
    }
  }

  /** The streamed lines are the lines of the whole text if and only if no part boundary
      falls between a CR and an LF. */
  lemma PartLinesAreTargetLinesExactlyWhen(texts: seq<string>)
    requires forall i :: 0 <= i < |texts| ==> EndsInBreak(texts[i])
    ensures LinesOfEach(texts) == Lines(Concat(texts)) <==> NoBoundaryMerges(texts)
  {
    StreamedTextIsTheText(texts);
    LinesUndoConcatExactly(LinesOfEach(texts));
    StreamIsALineStreamExactlyWhen(texts);
  }

  // ----- what a split line terminator costs -------------------------------------

  /** The lines the undivided text has: an LF line after a lone CR belongs to it. */
  function MergeBreaks(lines: seq<string>): seq<string> {
    if |lines| < 2 then lines
    else if Merges(lines[0], lines[1]) then [lines[0] + lines[1]] + MergeBreaks(lines[2..])
    else [lines[0]] + MergeBreaks(lines[1..])
  }

  lemma {:induction false} AppendLf(line: string)
    requires IsTerminated(line) && EndsWithCr(line)
    ensures IsTerminated(line + "\n")
  {
    if |line| > 1 && line[0] != '\r' && line[0] != '\n' {
      assert (line + "\n")[1..] == line[1..] + "\n";
      AppendLf(line[1..]);
    }
  }

  lemma LfLine(line: string)
    requires IsTerminated(line) && line[0] == '\n'
    ensures line == "\n"
  {
  }

  lemma {:induction false} MergedLines(lines: seq<string>)
    requires AllTerminated(lines)
    ensures var merged := MergeBreaks(lines);
      && Concat(merged) == Concat(lines) && LineStream(merged) && AllTerminated(merged)
      && (lines != [] ==> merged != [] && merged[0][0] == lines[0][0])
    decreases |lines|
  {
    if |lines| == 1 {
      assert MergeBreaks(lines) == lines;
    } else if |lines| >= 2 && Merges(lines[0], lines[1]) {
      var rest, whole := MergeBreaks(lines[2..]), lines[0] + "\n";
      LfLine(lines[1]);
      AppendLf(lines[0]);
      MergedLines(lines[2..]);
      assert !EndsWithCr(whole);
      PrependLine(whole, rest);
      assert MergeBreaks(lines) == [whole] + rest;
      assert Concat(lines) == whole + Concat(lines[2..]) by {
        assert lines[1..][0] == "\n" && lines[1..][1..] == lines[2..];
        assert Concat(lines[1..]) == "\n" + Concat(lines[2..]);
        Assoc(lines[0], "\n", Concat(lines[2..]));
      }
    } else if |lines| >= 2 {
      var rest := MergeBreaks(lines[1..]);
      MergedLines(lines[1..]);
      PrependLine(lines[0], rest);
      assert MergeBreaks(lines) == [lines[0]] + rest;
    }
  }

  lemma PrependLine(line: string, rest: seq<string>)
    requires IsTerminated(line) && LineStream(rest) && AllTerminated(rest)
    requires rest != [] ==> !Merges(line, rest[0])
    ensures LineStream([line] + rest) && AllTerminated([line] + rest)
    ensures Concat([line] + rest) == line + Concat(rest)
  {
    var s := [line] + rest;
    assert s[1..] == rest;
    assert forall i :: 1 <= i < |s| ==> s[i] == rest[i - 1];
  }

  lemma TargetLines(lines: seq<string>)
    requires AllTerminated(lines)
    ensures Lines(Concat(lines)) == MergeBreaks(lines)
  {
    MergedLines(lines);
    LinesOfLineStream(MergeBreaks(lines));
  }

  /** The boundaries between a CR and an LF that the reader meets outside quotes. */
  function BlankRecords(d: Dialect, r: Reader, lines: seq<string>): nat
    decreases |lines|
  {
    if lines == [] || r.Failed? then 0
    else
      var r' := FeedLine(d, r, FilterNul(lines[0]));
      var closed := r'.Reader? && r'.mode == StartRecord;
      (if closed && |lines| > 1 && Merges(lines[0], lines[1]) then 1 else 0)
      + BlankRecords(d, if closed then FRESH else r', lines[1..])
  }

  /** The reader after some characters of a line. */
  function FeedPart(d: Dialect, r: Reader, part: string): Reader
    decreases |part|
  {
    if part == [] then r else FeedPart(d, Step(d, r, part[0]), part[1..])
  }

  lemma {:induction false} FeedInTwo(d: Dialect, r: Reader, a: string, b: string)
    ensures FeedLine(d, r, a + b) == FeedLine(d, FeedPart(d, r, a), b)
    decreases |a|
  {
    if a == [] {
      assert a + b == b;
    } else {
      assert (a + b)[0] == a[0] && (a + b)[1..] == a[1..] + b;
      FeedInTwo(d, Step(d, r, a[0]), a[1..], b);
    }
  }

  lemma {:induction false} AfterCr(d: Dialect, r: Reader, line: string)
    requires PlainDialect(d) && !IsBreak(d.quote) && EndsWithCr(line)
    ensures var s := FeedPart(d, r, line); s.Failed? || s.mode == EatBreak || s.mode == InQuoted
    decreases |line|
  {
    if |line| == 1 {
      assert line[1..] == [];
    } else {
      AfterCr(d, Step(d, r, line[0]), line[1..]);
    }
  }

  /** An LF after the CR changes nothing outside quotes, and is one more character inside. */
  lemma FeedCrThenLf(d: Dialect, r: Reader, f: string)
    requires PlainDialect(d) && !IsBreak(d.quote) && EndsWithCr(f)
    ensures var r' := FeedLine(d, r, f); var whole := FeedLine(d, r, f + "\n");
      && (r'.Failed? ==> whole.Failed?)
      && (r'.Reader? && r'.mode == StartRecord ==> whole == r')
      && (r'.Reader? && r'.mode != StartRecord ==>
            whole == FeedLine(d, r', "\n") && (whole.Reader? ==> whole.mode != StartRecord))
  {
    var s := FeedPart(d, r, f);
    AfterCr(d, r, f);
    FeedInTwo(d, r, f, "");
    assert f + "" == f;
    FeedInTwo(d, r, f, "\n");
    assert "\n"[1..] == "" && FeedLine(d, s, "\n") == EndLine(Step(d, s, '\n'));
  }

  lemma BlankLine(d: Dialect)
    ensures FeedLine(d, FRESH, "\n") == FRESH
  {
    assert "\n"[1..] == "" && FeedLine(d, FRESH, "\n") == EndLine(Step(d, FRESH, '\n'));
  }

  ghost predicate MoreRecords(a: Option<seq<Record>>, b: Option<seq<Record>>, extra: nat) {
    && (a.None? <==> b.None?)
    && (a.Some? ==> |a.value| == |b.value| + extra)
    && (extra == 0 ==> a == b)
  }

  /** Reading divided lines yields one more record per boundary met outside quotes, and
      the very same records when there is none. */
  lemma {:induction false} ReadDivided(d: Dialect, r: Reader, lines: seq<string>)
    requires PlainDialect(d) && !IsBreak(d.quote) && AllTerminated(lines)
    ensures MoreRecords(
      ReadFrom(d, r, FilterEach(lines)), ReadFrom(d, r, FilterEach(MergeBreaks(lines))), BlankRecords(d, r, lines))
    decreases |lines|
  {
    if lines != [] && r.Reader? {
      var r' := FeedLine(d, r, FilterNul(lines[0]));
      if |lines| > 1 && Merges(lines[0], lines[1]) {
        ReadDividedBreak(d, r, lines);
      } else {
        assert |lines| == 1 ==> MergeBreaks(lines[1..]) == [];
        assert MergeBreaks(lines) == [lines[0]] + MergeBreaks(lines[1..]);
        assert MergeBreaks(lines)[1..] == MergeBreaks(lines[1..]);
        ReadDivided(d, if r'.Reader? && r'.mode == StartRecord then FRESH else r', lines[1..]);
      }
    }
  }

  lemma {:induction false} ReadDividedBreak(d: Dialect, r: Reader, lines: seq<string>)
    requires PlainDialect(d) && !IsBreak(d.quote) && AllTerminated(lines) && r.Reader?
    requires |lines| > 1 && Merges(lines[0], lines[1])
    ensures MoreRecords(
      ReadFrom(d, r, FilterEach(lines)), ReadFrom(d, r, FilterEach(MergeBreaks(lines))), BlankRecords(d, r, lines))
    decreases |lines|, 0
  {
    var f, rest := FilterNul(lines[0]), lines[2..];
    var merged := MergeBreaks(lines);
    assert lines[1] == "\n" && lines[1..][0] == lines[1] && lines[1..][1..] == rest;
    assert FilterNul("\n") == "\n" by { FilterNulKeepsClean("\n"); }
    assert EndsWithCr(f) by { FilteredLine(lines[0]); }
    assert FilterNul(merged[0]) == f + "\n" by { FilterNulConcat(lines[0], "\n"); }
    assert merged[1..] == MergeBreaks(rest);
    assert FilterEach(lines)[1..] == FilterEach(lines[1..]) && FilterEach(lines[1..])[0] == "\n";
    assert FilterEach(lines[1..])[1..] == FilterEach(rest);
    assert FilterEach(merged)[0] == f + "\n" && FilterEach(merged)[1..] == FilterEach(MergeBreaks(rest));
    var r' := FeedLine(d, r, f);
    FeedCrThenLf(d, r, f);
    BlankLine(d);
    if r'.Reader? && r'.mode == StartRecord {
      ReadDivided(d, FRESH, rest);
    } else if r'.Reader? {
      ReadDivided(d, FeedLine(d, r', "\n"), rest);
    }
  }

  // ----- the parts of an accepted target --------------------------------------------

  /** The target's physical records: contents that hold no terminator, each terminated. */
  ghost predicate RecordTexts(lines: seq<string>, t: string) {
    forall i :: 0 <= i < |lines| ==> IsRecordText(lines[i], t)
  }

  ghost predicate IsRecordText(line: string, t: string) {
    && TextAt(line, t, |line| - |t|)
    && forall k :: 0 <= k < |line| - |t| ==> !TextAt(line, t, k)
  }

  predicate TextAt(line: string, t: string, k: int) {
    0 <= k && k + |t| <= |line| && line[k..k + |t|] == t
  }

  function EncodeEach(lines: seq<string>): (r: seq<seq<Byte>>)
    ensures |r| == |lines|
  {
    seq(|lines|, i requires 0 <= i < |lines| => Encode(lines[i]))
  }

  lemma {:induction false} EncodeConcatEach(lines: seq<string>)
    ensures Encode(Concat(lines)) == M.Flatten(EncodeEach(lines))
  {
    if lines != [] {
      EncodeConcatEach(lines[1..]);
      EncodeConcat(lines[0], Concat(lines[1..]));
      assert EncodeEach(lines)[1..] == EncodeEach(lines[1..]);
    }
  }

  lemma RecordTextIsComplete(line: string, t: string)
    requires IsTerminator(t) && IsRecordText(line, t)
    ensures M.Complete(Encode(line), Encode(t))
  {
    var content := line[..|line| - |t|];
    assert line == content + t;
    EncodeConcat(content, t);
    TerminatorBytes(t);
    forall i | OccursAt(Encode(line), Encode(t), i) ensures i == |Encode(line)| - |t| {
      var k := TerminatorOccursBetweenCharacters(line, t, i);
      assert TextAt(line, t, k);
    }
  }

  /** Splitting the target's bytes finds exactly the declared records. */
  lemma SplitFindsTheDeclaredRecords(lines: seq<string>, t: string, records: seq<seq<Byte>>)
    requires IsTerminator(t) && RecordTexts(lines, t)
    requires M.IsSplit(records, Encode(Concat(lines)), Encode(t))
    ensures records == EncodeEach(lines)
  {
    EncodeConcatEach(lines);
    TerminatorBytes(t);
    forall i | 0 <= i < |lines| ensures M.Complete(EncodeEach(lines)[i], Encode(t)) {
      RecordTextIsComplete(lines[i], t);
    }
    M.SplitIsUnique(records, EncodeEach(lines), Encode(t));
  }

  /** The records of part i. */
  function PartLines(lines: seq<string>, parts: nat, i: nat): seq<string>
    requires 0 < parts && i < parts && lines != []
  {
    M.StartStep(|lines| - 1, parts, i);
    (if i == 0 then [lines[0]] else [])
    + lines[1..][M.PartStart(|lines| - 1, parts, i)..M.PartStart(|lines| - 1, parts, i + 1)]
  }

  function PartTexts(lines: seq<string>, parts: nat): (texts: seq<string>)
    requires 0 < parts && lines != []
    ensures |texts| == parts
  {
    seq(parts, i requires 0 <= i < parts => Concat(PartLines(lines, parts, i)))
  }

  lemma FirstPartLines(lines: seq<string>, parts: nat)
    requires lines != [] && 0 < parts
    ensures M.PartStart(|lines| - 1, parts, 1) <= |lines| - 1
    ensures PartLines(lines, parts, 0) == lines[..1 + M.PartStart(|lines| - 1, parts, 1)]
    ensures PartLines(lines, parts, 0) == [lines[0]] + lines[1..][..M.PartStart(|lines| - 1, parts, 1)]
  {
    M.StartStep(|lines| - 1, parts, 0);
  }

  lemma LaterPartLines(lines: seq<string>, parts: nat, i: nat)
    requires lines != [] && 1 <= i < parts
    ensures M.PartStart(|lines| - 1, parts, i) <= M.PartStart(|lines| - 1, parts, i + 1) <= |lines| - 1
    ensures PartLines(lines, parts, i) ==
            lines[1 + M.PartStart(|lines| - 1, parts, i)..1 + M.PartStart(|lines| - 1, parts, i + 1)]
  {
    M.StartStep(|lines| - 1, parts, i);
    SliceOfTail(lines, M.PartStart(|lines| - 1, parts, i), M.PartStart(|lines| - 1, parts, i + 1));
  }

  lemma SliceOfTail(lines: seq<string>, from: nat, to: nat)
    requires from <= to < |lines|
    ensures [] + lines[1..][from..to] == lines[1 + from..1 + to]
  {
  }

  lemma SliceOfEncoded(lines: seq<string>, from: nat, to: nat)
    requires lines != [] && from <= to <= |lines| - 1
    ensures EncodeEach(lines)[1..][from..to] == EncodeEach(lines[1 + from..1 + to])
  {
    var slice := lines[1 + from..1 + to];
    forall k | 0 <= k < to - from ensures EncodeEach(lines)[1..][from..to][k] == EncodeEach(slice)[k] {
      assert slice[k] == lines[1 + from + k];
    }
  }

  lemma SliceBytes(lines: seq<string>, from: nat, to: nat)
    requires lines != [] && from <= to <= |lines| - 1
    ensures M.Flatten(EncodeEach(lines)[1..][from..to]) == Encode(Concat(lines[1 + from..1 + to]))
  {
    SliceOfEncoded(lines, from, to);
    EncodeConcatEach(lines[1 + from..1 + to]);
  }

  lemma ChunkBytes(lines: seq<string>, parts: nat, chunk: seq<seq<Byte>>, i: nat)
    requires lines != [] && i < parts && M.IsPart(chunk, EncodeEach(lines)[1..], parts, i)
    ensures var from, to := M.PartStart(|lines| - 1, parts, i), M.PartStart(|lines| - 1, parts, i + 1);
      from <= to <= |lines| - 1 && M.Flatten(chunk) == Encode(Concat(lines[1 + from..1 + to]))
  {
    M.StartStep(|lines| - 1, parts, i);
    SliceBytes(lines, M.PartStart(|lines| - 1, parts, i), M.PartStart(|lines| - 1, parts, i + 1));
  }

  lemma PartBytesAreItsRecords(lines: seq<string>, parts: nat, chunks: seq<seq<seq<Byte>>>, i: nat)
    requires lines != [] && i < parts == |chunks|
    requires M.IsPart(chunks[i], EncodeEach(lines)[1..], parts, i)
    ensures M.PartBytes(Encode(lines[0]), chunks)[i] == Encode(Concat(PartLines(lines, parts, i)))
  {
    ChunkBytes(lines, parts, chunks[i], i);
    if i == 0 {
      var own := lines[1..1 + M.PartStart(|lines| - 1, parts, 1)];
      FirstPartLines(lines, parts);
      assert PartLines(lines, parts, 0) == [lines[0]] + own && ([lines[0]] + own)[1..] == own;
      EncodeConcat(lines[0], Concat(own));
    } else {
      LaterPartLines(lines, parts, i);
      assert [] + M.Flatten(chunks[i]) == M.Flatten(chunks[i]);
    }
  }

  lemma PartRecordTexts(lines: seq<string>, t: string, parts: nat, i: nat)
    requires RecordTexts(lines, t) && lines != [] && i < parts
    ensures RecordTexts(PartLines(lines, parts, i), t)
  {
    if i == 0 {
      FirstPartLines(lines, parts);
    } else {
      LaterPartLines(lines, parts, i);
    }
  }

  lemma PartLinesCount(lines: seq<string>, parts: nat, i: nat)
    requires i < parts < |lines|
    ensures |PartLines(lines, parts, i)| == M.PartSize(|lines| - 1, parts, i) + if i == 0 then 1 else 0
  {
    M.StartStep(|lines| - 1, parts, i);
  }

  lemma PartIsNeverEmpty(lines: seq<string>, t: string, parts: nat, i: nat)
    requires IsTerminator(t) && RecordTexts(lines, t) && i < parts < |lines|
    ensures EndsInBreak(Concat(PartLines(lines, parts, i)))
  {
    PartLinesCount(lines, parts, i);
    M.PartsAreBalanced(|lines| - 1, parts, i, i);
    PartRecordTexts(lines, t, parts, i);
    RecordsEndInBreak(PartLines(lines, parts, i), t);
  }

  lemma PartDecodes(lines: seq<string>, t: string, parts: nat, records: seq<seq<Byte>>,
                    chunks: seq<seq<seq<Byte>>>, i: nat)
    requires IsTerminator(t) && RecordTexts(lines, t) && i < parts < |lines|
    requires M.IsSplit(records, Encode(Concat(lines)), Encode(t)) && records != []
    requires |chunks| == parts && forall i :: 0 <= i < parts ==> M.IsPart(chunks[i], records[1..], parts, i)
    ensures Decode(M.PartBytes(records[0], chunks)[i]) == Some(PartTexts(lines, parts)[i])
  {
    SplitFindsTheDeclaredRecords(lines, t, records);
    PartBytesAreItsRecords(lines, parts, chunks, i);
    DecodeEncode(PartTexts(lines, parts)[i]);
  }

  /** The part set of a target with enough data records: every part decodes on its own to
      its own records, the header record is in part 0 and nowhere else, and no part is
      without a data record. */
  lemma PartsHoldTheirRecords(lines: seq<string>, t: string, parts: nat, records: seq<seq<Byte>>,
                              chunks: seq<seq<seq<Byte>>>, i: nat)
    requires IsTerminator(t) && RecordTexts(lines, t) && i < parts < |lines|
    requires M.IsSplit(records, Encode(Concat(lines)), Encode(t)) && records != []
    requires |chunks| == parts && forall i :: 0 <= i < parts ==> M.IsPart(chunks[i], records[1..], parts, i)
    ensures Decode(M.PartBytes(records[0], chunks)[i]) == Some(PartTexts(lines, parts)[i])
    ensures |PartLines(lines, parts, i)| == M.PartSize(|lines| - 1, parts, i) + if i == 0 then 1 else 0
    ensures M.PartSize(|lines| - 1, parts, i) >= 1 && EndsInBreak(PartTexts(lines, parts)[i])
  {
    PartDecodes(lines, t, parts, records, chunks, i);
    PartLinesCount(lines, parts, i);
    M.PartsAreBalanced(|lines| - 1, parts, i, i);
    PartIsNeverEmpty(lines, t, parts, i);
  }

  lemma {:induction false} RecordsEndInBreak(lines: seq<string>, t: string)
    requires IsTerminator(t) && lines != [] && RecordTexts(lines, t)
    ensures EndsInBreak(Concat(lines))
  {
    assert IsRecordText(lines[0], t);
    if |lines| == 1 {
      assert lines[1..] == [] && Concat(lines) == lines[0];
      assert lines[0][|lines[0]| - 1] == t[|t| - 1];
    } else {
      RecordsEndInBreak(lines[1..], t);
    }
  }

  // ----- reading -------------------------------------------------------------------

  lemma JoinStep(lines: seq<string>, texts: seq<string>, k: nat, from: nat, to: nat)
    requires 0 < k <= |texts| && from <= to <= |lines|
    requires Concat(texts[..k - 1]) == Concat(lines[..from]) && texts[k - 1] == Concat(lines[from..to])
    ensures Concat(texts[..k]) == Concat(lines[..to])
  {
    var last := [texts[k - 1]];
    assert Concat(texts[..k]) == Concat(texts[..k - 1]) + texts[k - 1] by {
      assert texts[..k] == texts[..k - 1] + last;
      ConcatAppend(texts[..k - 1], last);
      assert last[1..] == [];
    }
    assert Concat(lines[..to]) == Concat(lines[..from]) + Concat(lines[from..to]) by {
      assert lines[..to] == lines[..from] + lines[from..to];
      ConcatAppend(lines[..from], lines[from..to]);
    }
  }

  lemma FirstText(lines: seq<string>, parts: nat)
    requires lines != [] && 1 <= parts
    ensures M.PartStart(|lines| - 1, parts, 1) <= |lines| - 1
    ensures Concat(PartTexts(lines, parts)[..1]) == Concat(lines[..1 + M.PartStart(|lines| - 1, parts, 1)])
  {
    var texts, to := PartTexts(lines, parts), 1 + M.PartStart(|lines| - 1, parts, 1);
    FirstPartLines(lines, parts);
    assert texts[..0] == [] && lines[..0] == [] && lines[0..to] == lines[..to];
    JoinStep(lines, texts, 1, 0, to);
  }

  lemma LaterText(lines: seq<string>, parts: nat, k: nat)
    requires lines != [] && 1 <= k < parts
    ensures var from, to := 1 + M.PartStart(|lines| - 1, parts, k), 1 + M.PartStart(|lines| - 1, parts, k + 1);
      from <= to <= |lines| && PartTexts(lines, parts)[k] == Concat(lines[from..to])
  {
    LaterPartLines(lines, parts, k);
  }

  lemma {:induction false} PartTextsJoin(lines: seq<string>, parts: nat, k: nat)
    requires lines != [] && 1 <= k <= parts
    ensures M.PartStart(|lines| - 1, parts, k) <= |lines| - 1
    ensures Concat(PartTexts(lines, parts)[..k]) == Concat(lines[..1 + M.PartStart(|lines| - 1, parts, k)])
    decreases k
  {
    if k == 1 {
      FirstText(lines, parts);
    } else {
      var from, to := 1 + M.PartStart(|lines| - 1, parts, k - 1), 1 + M.PartStart(|lines| - 1, parts, k);
      PartTextsJoin(lines, parts, k - 1);
      LaterText(lines, parts, k - 1);
      JoinStep(lines, PartTexts(lines, parts), k, from, to);
    }
  }

  lemma PartTextsConcatenate(lines: seq<string>, parts: nat)
    requires lines != [] && 0 < parts
    ensures Concat(PartTexts(lines, parts)) == Concat(lines)
  {
    PartTextsJoin(lines, parts, parts);
    M.StartEnds(|lines| - 1, parts);
    assert PartTexts(lines, parts)[..parts] == PartTexts(lines, parts);
    assert lines[..|lines|] == lines;
  }

  /** The parts' texts are the target's text, each ending in a line break. */
  lemma PartTextsAreTheTarget(lines: seq<string>, t: string, parts: nat)
    requires IsTerminator(t) && RecordTexts(lines, t) && 0 < parts < |lines|
    ensures Concat(PartTexts(lines, parts)) == Concat(lines)
    ensures forall i :: 0 <= i < parts ==> EndsInBreak(PartTexts(lines, parts)[i])
  {
    PartTextsConcatenate(lines, parts);
    var texts := PartTexts(lines, parts);
    forall i | 0 <= i < parts ensures EndsInBreak(texts[i]) {
      PartIsNeverEmpty(lines, t, parts, i);
    }
  }

  /** Reading the parts of an accepted target as one stream yields the target's records
      if and only if no part boundary falls between a CR and an LF outside quotes, or the
      target cannot be read at all; each such boundary adds one empty record. */
  lemma PartsReadAsTargetExactlyWhen(d: Dialect, lines: seq<string>, t: string, parts: nat)
    requires PlainDialect(d) && !IsBreak(d.quote)
    requires IsTerminator(t) && RecordTexts(lines, t) && 0 < parts < |lines|
    ensures var streamed := LinesOfEach(PartTexts(lines, parts));
      var whole := ReadText(d, Concat(lines));
      var blank := BlankRecords(d, FRESH, streamed);
      && MoreRecords(ReadLines(d, FilterEach(streamed)), whole, blank)
      && (ReadLines(d, FilterEach(streamed)) == whole <==> whole.None? || blank == 0)
  {
    var texts := PartTexts(lines, parts);
    PartTextsAreTheTarget(lines, t, parts);
    StreamIsTerminated(texts);
    StreamedTextIsTheText(texts);
    TargetLines(LinesOfEach(texts));
    ReadDivided(d, FRESH, LinesOfEach(texts));
  }

  /** Hence any terminator that ends in an LF is safe, and so is a lone CR when no data
      record starts with an LF. */
  lemma PartsReadAsTarget(d: Dialect, lines: seq<string>, t: string, parts: nat)
    requires IsTerminator(t) && RecordTexts(lines, t) && 0 < parts < |lines|
    requires t == "\r" ==> forall i :: 1 <= i < |lines| ==> lines[i][0] != '\n'
    ensures ReadLines(d, FilterEach(LinesOfEach(PartTexts(lines, parts)))) == ReadText(d, Concat(lines))
  {
    var texts := PartTexts(lines, parts);
    PartTextsAreTheTarget(lines, t, parts);
    forall i | 0 <= i < parts - 1 ensures !Merges(texts[i], texts[i + 1]) {
      SafeBoundary(lines, t, parts, i);
    }
    PartLinesAreTargetLinesExactlyWhen(texts);
  }

  lemma SafeBoundary(lines: seq<string>, t: string, parts: nat, i: nat)
    requires IsTerminator(t) && RecordTexts(lines, t) && i + 1 < parts < |lines|
    requires t == "\r" ==> forall j :: 1 <= j < |lines| ==> lines[j][0] != '\n'
    ensures !Merges(PartTexts(lines, parts)[i], PartTexts(lines, parts)[i + 1])
  {
    PartEndsAndStarts(lines, t, parts, i);
    PartEndsAndStarts(lines, t, parts, i + 1);
  }

  lemma PartEndsAndStarts(lines: seq<string>, t: string, parts: nat, i: nat)
    requires IsTerminator(t) && RecordTexts(lines, t) && i < parts < |lines|
    ensures var text := PartTexts(lines, parts)[i];
      && text != [] && text[|text| - 1] == t[|t| - 1]
      && (i > 0 ==> exists j :: 1 <= j < |lines| && lines[j] != [] && text[0] == lines[j][0])
  {
    var own := PartLines(lines, parts, i);
    PartIsNeverEmpty(lines, t, parts, i);
    PartRecordTexts(lines, t, parts, i);
    ConcatEndsInTerminator(own, t);
    assert IsRecordText(own[0], t) && Concat(own)[0] == own[0][0];
    if i > 0 {
      LaterPartLines(lines, parts, i);
      var j := 1 + M.PartStart(|lines| - 1, parts, i);
      assert lines[j] == own[0];
    }
  }

  lemma {:induction false} ConcatEndsInTerminator(lines: seq<string>, t: string)
    requires IsTerminator(t) && lines != [] && RecordTexts(lines, t)
    ensures var text := Concat(lines); text != [] && text[|text| - 1] == t[|t| - 1]
  {
    assert IsRecordText(lines[0], t);
    if |lines| == 1 {
      assert lines[1..] == [] && Concat(lines) == lines[0];
      assert lines[0][|lines[0]| - 1] == t[|t| - 1];
    } else {
      ConcatEndsInTerminator(lines[1..], t);
    }
  }

  lemma CleanRecordText(d: Dialect, fields: seq<string>, t: string)
    requires PlainDialect(d) && CleanRecord(d, fields) && IsTerminator(t)
    ensures var line := RenderedLine(fields, d.delimiter, t); IsRecordText(line, t) && line[0] != '\n'
  {
    var content := Join(fields, d.delimiter);
    var line := RenderedLine(fields, d.delimiter, t);
    JoinIsClean(d, fields);
    assert line[|content|..] == t && content[0] in content;
    forall k | 0 <= k < |content| ensures !TextAt(line, t, k) {
      assert line[k] == content[k] && content[k] in content;
      assert k + |t| <= |line| ==> line[k..k + |t|][0] == content[k];
    }
  }

  /** A table of clean records, generated, split into parts and read back as one stream, is
      the declared table: its header once, then every row in order. */
  lemma PartsOfACleanTableReadBack(d: Dialect, table: seq<Record>, t: string, parts: nat)
    requires PlainDialect(d) && IsTerminator(t) && 0 < parts < |table|
    requires forall i :: 0 <= i < |table| ==> CleanRecord(d, table[i])
    ensures var lines := TableLines(table, d.delimiter, seq(|table|, i => t));
      && RecordTexts(lines, t)
      && ReadLines(d, FilterEach(LinesOfEach(PartTexts(lines, parts)))) == Some(table)
  {
    var ts := seq(|table|, i => t);
    var lines := TableLines(table, d.delimiter, ts);
    forall i | 0 <= i < |table| ensures IsRecordText(lines[i], t) && lines[i][0] != '\n' {
      CleanRecordText(d, table[i], t);
    }
    PartsReadAsTarget(d, lines, t, parts);
    ReadRenderedTable(d, table, ts);
  }

  /** The boundary case on three records ended by a lone CR, the last of which starts with
      an LF: the two parts are streamed with one line more than the target has. */
  lemma ALoneCrCanSplitALineBreak()
    ensures var lines := ["h\r", "a\r", "\nx\r"];
      && RecordTexts(lines, "\r") && PartTexts(lines, 2) == ["h\ra\r", "\nx\r"]
      && Merges(PartTexts(lines, 2)[0], PartTexts(lines, 2)[1])
      && LinesOfEach(PartTexts(lines, 2)) != Lines(Concat(lines))
  {
    var lines := ["h\r", "a\r", "\nx\r"];
    LoneCrRecords();
    LoneCrParts();
    PartTextsAreTheTarget(lines, "\r", 2);
    PartLinesAreTargetLinesExactlyWhen(PartTexts(lines, 2));
  }

  lemma LoneCrRecords()
    ensures RecordTexts(["h\r", "a\r", "\nx\r"], "\r")
  {
    assert "h\r"[1..] == "\r" && "a\r"[1..] == "\r" && "\nx\r"[2..] == "\r";
    assert "h\r"[0..1] == "h" && "a\r"[0..1] == "a" && "\nx\r"[0..1] == "\n" && "\nx\r"[1..2] == "x";
    assert IsRecordText("h\r", "\r") && IsRecordText("a\r", "\r") && IsRecordText("\nx\r", "\r");
  }

  lemma LoneCrParts()
    ensures PartTexts(["h\r", "a\r", "\nx\r"], 2) == ["h\ra\r", "\nx\r"]
  {
    var lines := ["h\r", "a\r", "\nx\r"];
    assert lines[1..][0..1] == ["a\r"] && lines[1..][1..2] == ["\nx\r"];
    assert M.PartStart(2, 2, 0) == 0 && M.PartStart(2, 2, 1) == 1 && M.PartStart(2, 2, 2) == 2;
    assert PartLines(lines, 2, 0) == ["h\r", "a\r"] && PartLines(lines, 2, 1) == ["\nx\r"];
    assert ["h\r", "a\r"][1..] == ["a\r"] && ["a\r"][1..] == [] && ["\nx\r"][1..] == [];
    assert Concat(["a\r"]) == "a\r" && Concat(["h\r", "a\r"]) == "h\ra\r" && Concat(["\nx\r"]) == "\nx\r";
  }
}
