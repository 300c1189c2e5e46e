/**
  Where a record-addressed splice lands: in a text of terminated records, right after the
  record it names, and nowhere when there are fewer.
 */
module RecordAddresses {
  import opened CsvText
  import opened MultipartReading
  import M = Multipart
  import opened Options
  import opened Splices
  import opened Utf8

  /** The bytes of the first k records. */
  function Before(records: seq<seq<Byte>>, k: nat): nat
    requires k <= |records|
  {
    |M.Flatten(records[..k])|
  }

  lemma RecordSlice(records: seq<seq<Byte>>, k: nat)
    requires k < |records|
    ensures var payload := M.Flatten(records);
      && Before(records, k) + |records[k]| == Before(records, k + 1) <= |payload|
      && payload[Before(records, k)..Before(records, k + 1)] == records[k]
  {
    assert records[..k + 1] == records[..k] + [records[k]] && records == records[..k + 1] + records[k + 1..];
    M.FlattenConcat(records[..k], [records[k]]);
    M.FlattenOne(records[k]);
    M.FlattenConcat(records[..k + 1], records[k + 1..]);
  }

  lemma FindsTheEnd(payload: seq<Byte>, t: seq<Byte>, from: nat, to: nat)
    requires from <= to <= |payload| && t != [] && M.Complete(payload[from..to], t)
    ensures Find(payload, t, from) == Some(to - |t|)
  {
    var end := to - |t|;
    assert OccursAt(payload, t, end) && from <= end by {
      M.OccursInSlice(payload, t, from, to, end - from);
    }
    forall i | from <= i < end ensures !OccursAt(payload, t, i) {
      M.OccursInSlice(payload, t, from, to, i - from);
    }
    FindIs(payload, t, from, end);
  }

  lemma FindIs(payload: seq<Byte>, t: seq<Byte>, from: nat, end: nat)
    requires from <= end && OccursAt(payload, t, end) && forall i :: from <= i < end ==> !OccursAt(payload, t, i)
    ensures Find(payload, t, from) == Some(end)
  {
    var found := Find(payload, t, from);
    assert found.Some? ==> !(found.value < end) && !(end < found.value);
  }

  ghost predicate AllComplete(records: seq<seq<Byte>>, t: seq<Byte>) {
    t != [] && forall i :: 0 <= i < |records| ==> M.Complete(records[i], t)
  }

  lemma NextEnd(records: seq<seq<Byte>>, t: seq<Byte>, k: nat, payload: seq<Byte>)
    requires k < |records| && AllComplete(records, t) && payload == M.Flatten(records)
    ensures Find(payload, t, Before(records, k)) == Some(Before(records, k + 1) - |t|)
  {
    RecordSlice(records, k);
    assert M.Complete(records[k], t);
    FindsTheEnd(payload, t, Before(records, k), Before(records, k + 1));
  }

  lemma NoEndAfterTheLast(payload: seq<Byte>, t: seq<Byte>)
    requires t != []
    ensures Find(payload, t, |payload|) == None
  {
  }

  /** Searching on from one end finds the next. */
  ghost predicate AreEnds(payload: seq<Byte>, t: seq<Byte>, ends: seq<nat>) {
    && ends != [] && Find(payload, t, ends[|ends| - 1]).None?
    && forall i :: 0 <= i < |ends| - 1 ==> IsNextEnd(payload, t, ends[i], ends[i + 1])
  }

  predicate IsNextEnd(payload: seq<Byte>, t: seq<Byte>, from: nat, to: nat) {
    Find(payload, t, from).Some? && Find(payload, t, from).value + |t| == to
  }

  lemma {:induction false} EndOfRecord(payload: seq<Byte>, t: seq<Byte>, ends: seq<nat>, k: nat, n: nat)
    requires AreEnds(payload, t, ends) && k < |ends|
    ensures RecordEnd(payload, t, n, ends[k]) == if k + n < |ends| then Some(ends[k + n]) else None
    decreases n
  {
    if n > 0 && k < |ends| - 1 {
      assert IsNextEnd(payload, t, ends[k], ends[k + 1]);
      EndOfRecord(payload, t, ends, k + 1, n - 1);
    }
  }

  function Ends(records: seq<seq<Byte>>): seq<nat> {
    seq(|records| + 1, k requires 0 <= k <= |records| => Before(records, k))
  }

  lemma EndsAreEnds(records: seq<seq<Byte>>, t: seq<Byte>, payload: seq<Byte>)
    requires AllComplete(records, t) && payload == M.Flatten(records)
    ensures AreEnds(payload, t, Ends(records))
  {
    forall k | 0 <= k < |records| ensures IsNextEnd(payload, t, Before(records, k), Before(records, k + 1)) {
      NextEnd(records, t, k, payload);
    }
    assert records[..|records|] == records;
    NoEndAfterTheLast(payload, t);
  }

  lemma EncodedBefore(lines: seq<string>, k: nat)
    requires k <= |lines|
    ensures Before(EncodeEach(lines), k) == |Encode(Concat(lines[..k]))|
  {
    EncodeConcatEach(lines[..k]);
    assert EncodeEach(lines)[..k] == EncodeEach(lines[..k]);
  }

  /** In a content of terminated records, a splice after record n is resolved to the length of
      the first n records in bytes, and refused if and only if there are fewer. */
  lemma AfterRecordIsTheEndOfThatRecord(f: Fixture, s: Splice, lines: seq<string>)
    requires IsTerminator(f.terminator) && RecordTexts(lines, f.terminator) && f.content == Concat(lines)
    requires s.address.AfterRecord?
    ensures Resolved(f, s) ==
      if s.address.record <= |lines| then Some(|Encode(Concat(lines[..s.address.record]))|) else None
  {
    var records := EncodeEach(lines);
    EncodeConcatEach(lines);
    AllRecordsComplete(lines, f.terminator);
    EndInRecords(records, Encode(f.terminator), s.address.record);
    if s.address.record <= |lines| {
      EncodedBefore(lines, s.address.record);
    }
  }

  lemma EndInRecords(records: seq<seq<Byte>>, t: seq<Byte>, n: nat)
    requires AllComplete(records, t)
    ensures RecordEnd(M.Flatten(records), t, n, 0) == if n <= |records| then Some(Before(records, n)) else None
  {
    EndsAreEnds(records, t, M.Flatten(records));
    NothingBefore(records);
    EndOfRecord(M.Flatten(records), t, Ends(records), 0, n);
  }

  lemma NothingBefore(records: seq<seq<Byte>>)
    ensures Before(records, 0) == 0
  {
    assert records[..0] == [];
  }

  lemma AllRecordsComplete(lines: seq<string>, t: string)
    requires IsTerminator(t) && RecordTexts(lines, t)
    ensures AllComplete(EncodeEach(lines), Encode(t))
  {
    TerminatorBytes(t);
    forall i | 0 <= i < |lines| ensures M.Complete(EncodeEach(lines)[i], Encode(t)) {
      RecordTextIsComplete(lines[i], t);
    }
  }
}
