/**
  Part sets: splitting an encoded fixture into records, dealing the records into
  parts, and reading the parts back as one stream of physical lines.
 */
module Multipart {
  import opened Options
  import opened Sequences
  import opened Utf8

  function Flatten<T>(ss: seq<seq<T>>): seq<T> {
    if ss == [] then [] else ss[0] + Flatten(ss[1..])
  }

  lemma {:induction false} FlattenConcat<T>(a: seq<seq<T>>, b: seq<seq<T>>)
    ensures Flatten(a + b) == Flatten(a) + Flatten(b)
  {
    if a == [] {
      assert a + b == b;
    } else {
      assert (a + b)[0] == a[0] && (a + b)[1..] == a[1..] + b;
      FlattenConcat(a[1..], b);
      assert a[0] + (Flatten(a[1..]) + Flatten(b)) == (a[0] + Flatten(a[1..])) + Flatten(b);
    }
  }

  lemma FlattenOne<T>(s: seq<T>)
    ensures Flatten([s]) == s
  {
    assert [s][1..] == [] && Flatten<T>([]) == [];
  }

  lemma FlattenHoldsFirst<T>(ss: seq<seq<T>>)
    ensures ss != [] ==> |Flatten(ss)| >= |ss[0]|
  {
  }

  // ----- splitting -----------------------------------------------------------------

  /** The terminator occurs at the end of the record and nowhere before. */
  ghost predicate Complete(record: seq<Byte>, terminator: seq<Byte>) {
    && OccursAt(record, terminator, |record| - |terminator|)
    && forall i :: i < |record| - |terminator| ==> !OccursAt(record, terminator, i)
  }

  /** Complete records, with at most an unterminated rest at the end. */
  ghost predicate IsSplit(records: seq<seq<Byte>>, payload: seq<Byte>, terminator: seq<Byte>) {
    && Flatten(records) == payload
    && (forall i :: 0 <= i < |records| - 1 ==> Complete(records[i], terminator))
    && (records != [] ==>
          var last := records[|records| - 1];
          Complete(last, terminator) || (last != [] && forall i :: !OccursAt(last, terminator, i)))
  }

  /** The complete records before the cursor. */
  ghost predicate SplitTo(records: seq<seq<Byte>>, payload: seq<Byte>, t: seq<Byte>, cursor: nat) {
    && cursor <= |payload|
    && Flatten(records) == payload[..cursor]
    && forall i :: 0 <= i < |records| ==> Complete(records[i], t)
  }

  /** `_split_records`. */
  method SplitRecords(payload: seq<Byte>, terminator: seq<Byte>) returns (records: seq<seq<Byte>>)
    requires terminator != []
    ensures IsSplit(records, payload, terminator)
  {
    records := [];
    var cursor: nat := 0;
    var found := Find(payload, terminator, cursor);
    while found.Some?
      invariant SplitTo(records, payload, terminator, cursor)
      invariant found == Find(payload, terminator, cursor)
      decreases |payload| - cursor
    {
      var end := found.value + |terminator|;
      SplitStep(records, payload, terminator, cursor, found.value);
      records := records + [payload[cursor..end]];
      cursor := end;
      found := Find(payload, terminator, cursor);
    }
    AddRest(records, payload, terminator, cursor);
    if cursor < |payload| {
      records := records + [payload[cursor..]];
    }
  }

  lemma SplitStep(records: seq<seq<Byte>>, payload: seq<Byte>, t: seq<Byte>, cursor: nat, found: nat)
    requires t != [] && SplitTo(records, payload, t, cursor) && Find(payload, t, cursor) == Some(found)
    ensures found + |t| <= |payload| && SplitTo(records + [payload[cursor..found + |t|]], payload, t, found + |t|)
  {
    var end := found + |t|;
    assert end <= |payload| && Complete(payload[cursor..end], t) by {
      SliceIsComplete(payload, t, cursor, found);
    }
    assert Flatten(records + [payload[cursor..end]]) == payload[..end] by {
      AppendRecord(records, payload, cursor, end);
    }
  }

  lemma AddRest(records: seq<seq<Byte>>, payload: seq<Byte>, t: seq<Byte>, cursor: nat)
    requires SplitTo(records, payload, t, cursor) && Find(payload, t, cursor).None?
    ensures IsSplit(if cursor < |payload| then records + [payload[cursor..]] else records, payload, t)
  {
    if cursor < |payload| {
      var rest := payload[cursor..];
      assert rest == payload[cursor..|payload|];
      forall i ensures !OccursAt(rest, t, i) {
        OccursInSlice(payload, t, cursor, |payload|, i);
      }
      AppendRecord(records, payload, cursor, |payload|);
      assert payload[..|payload|] == payload;
    }
  }

  lemma AppendRecord(records: seq<seq<Byte>>, payload: seq<Byte>, cursor: nat, end: nat)
    requires cursor <= end <= |payload| && Flatten(records) == payload[..cursor]
    ensures Flatten(records + [payload[cursor..end]]) == payload[..end]
  {
    FlattenConcat(records, [payload[cursor..end]]);
    FlattenOne(payload[cursor..end]);
    assert payload[..cursor] + payload[cursor..end] == payload[..end];
  }

  lemma OccursInSlice(payload: seq<Byte>, t: seq<Byte>, from: nat, to: nat, i: int)
    requires from <= to <= |payload|
    ensures OccursAt(payload[from..to], t, i) <==> 0 <= i && from + i + |t| <= to && OccursAt(payload, t, from + i)
  {
    if 0 <= i && from + i + |t| <= to {
      var inner, outer := payload[from..to][i..i + |t|], payload[from + i..from + i + |t|];
      assert forall k :: 0 <= k < |t| ==> inner[k] == payload[from + i + k] == outer[k];
      assert inner == outer;
    }
  }

  lemma SliceIsComplete(payload: seq<Byte>, t: seq<Byte>, cursor: nat, found: nat)
    requires t != [] && cursor <= found && OccursAt(payload, t, found)
    requires forall i :: cursor <= i < found ==> !OccursAt(payload, t, i)
    ensures Complete(payload[cursor..found + |t|], t)
  {
    var record := payload[cursor..found + |t|];
    OccursInSlice(payload, t, cursor, found + |t|, found - cursor);
    forall i | i < |record| - |t| ensures !OccursAt(record, t, i) {
      OccursInSlice(payload, t, cursor, found + |t|, i);
    }
  }

  /** Two splits of a payload into records agree when one of them has only complete records. */
  lemma {:induction false} SplitIsUnique(records: seq<seq<Byte>>, declared: seq<seq<Byte>>, t: seq<Byte>)
    requires t != [] && IsSplit(records, Flatten(declared), t)
    requires forall i :: 0 <= i < |declared| ==> Complete(declared[i], t)
    ensures records == declared
    decreases |declared|
  {
    var payload := Flatten(declared);
    if declared == [] {
      FlattenHoldsFirst(records);
    } else {
      assert |payload| >= |declared[0]| > 0;
      assert records != [];
      FirstRecordsAgree(payload, records, declared, t);
      assert Flatten(records[1..]) == payload[|declared[0]|..] == Flatten(declared[1..]);
      assert IsSplit(records[1..], Flatten(declared[1..]), t);
      SplitIsUnique(records[1..], declared[1..], t);
      assert records == [records[0]] + records[1..];
    }
  }

  lemma FirstRecordsAgree(payload: seq<Byte>, records: seq<seq<Byte>>, declared: seq<seq<Byte>>, t: seq<Byte>)
    requires t != [] && records != [] && declared != []
    requires payload == Flatten(records) == Flatten(declared)
    requires IsSplit(records, payload, t) && Complete(declared[0], t)
    ensures records[0] == declared[0]
  {
    var a, b := records[0], declared[0];
    assert b == payload[..|b|] && a == payload[..|a|];
    OccursInSlice(payload, t, 0, |b|, |b| - |t|);
    if |records| == 1 {
      assert records[1..] == [] && a == payload;
    }
    assert Complete(a, t);
    OccursInSlice(payload, t, 0, |a|, |a| - |t|);
    OccursInSlice(payload, t, 0, |a|, |b| - |t|);
    OccursInSlice(payload, t, 0, |b|, |a| - |t|);
  }

  // ----- dealing -------------------------------------------------------------------------

  /** The first `records % parts` parts take one record more. */
  function PartSize(records: nat, parts: nat, i: nat): nat
    requires parts > 0
  {
    records / parts + if i < records % parts then 1 else 0
  }

  /** The records before part i. */
  function PartStart(records: nat, parts: nat, i: nat): nat
    requires parts > 0
  {
    if i == 0 then 0 else PartStart(records, parts, i - 1) + PartSize(records, parts, i - 1)
  }

  /** Part i holds its share of consecutive records, right after part i - 1's. */
  ghost predicate IsPart<T>(chunk: seq<T>, records: seq<T>, parts: nat, i: nat)
    requires parts > 0
  {
    var start := PartStart(|records|, parts, i);
    && start + PartSize(|records|, parts, i) <= |records|
    && chunk == records[start..start + PartSize(|records|, parts, i)]
  }

  /** `_distribute`. */
  method Distribute<T>(records: seq<T>, parts: nat) returns (chunks: seq<seq<T>>)
    requires parts > 0
    ensures |chunks| == parts && Flatten(chunks) == records
    ensures forall i :: 0 <= i < parts ==> IsPart(chunks[i], records, parts, i)
  {
    var base, extra := |records| / parts, |records| % parts;
    chunks := [];
    var cursor: nat := 0;
    for i := 0 to parts
      invariant |chunks| == i && cursor == PartStart(|records|, parts, i) <= |records|
      invariant Flatten(chunks) == records[..cursor]
      invariant forall j :: 0 <= j < i ==> IsPart(chunks[j], records, parts, j)
    {
      var size := base + if i < extra then 1 else 0;
      StartStep(|records|, parts, i);
      var chunk := records[cursor..cursor + size];
      FlattenConcat(chunks, [chunk]);
      FlattenOne(chunk);
      assert records[..cursor] + chunk == records[..cursor + size];
      chunks := chunks + [chunk];
      cursor := cursor + size;
    }
    StartEnds(|records|, parts);
    assert records[..|records|] == records;
  }

  lemma MulMonotone(a: nat, b: nat, c: nat)
    requires a <= b
    ensures a * c <= b * c
  {
  }

  lemma {:induction false} StartInClosedForm(n: nat, parts: nat, i: nat)
    requires i <= parts && parts > 0
    ensures PartStart(n, parts, i) == i * (n / parts) + if i < n % parts then i else n % parts
  {
    if i > 0 {
      StartInClosedForm(n, parts, i - 1);
      assert i * (n / parts) == (i - 1) * (n / parts) + n / parts;
    }
  }

  lemma DivisionSplits(n: nat, parts: nat)
    requires parts > 0
    ensures n == parts * (n / parts) + n % parts && n % parts < parts
  {
  }

  lemma ShareFits(n: nat, parts: nat, base: nat, extra: nat, k: nat)
    requires n == parts * base + extra && k <= parts
    ensures k * base + (if k < extra then k else extra) <= n
  {
    MulMonotone(k, parts, base);
  }

  lemma StartStep(n: nat, parts: nat, i: nat)
    requires i < parts
    ensures PartStart(n, parts, i) + PartSize(n, parts, i) == PartStart(n, parts, i + 1) <= n
  {
    StartInClosedForm(n, parts, i + 1);
    DivisionSplits(n, parts);
    ShareFits(n, parts, n / parts, n % parts, i + 1);
  }

  lemma StartEnds(n: nat, parts: nat)
    requires parts > 0
    ensures PartStart(n, parts, parts) == n
  {
    StartInClosedForm(n, parts, parts);
    DivisionSplits(n, parts);
  }

  /** Parts differ in size by at most one, larger parts first, and none is empty. */
  lemma PartsAreBalanced(records: nat, parts: nat, i: nat, j: nat)
    requires 0 < parts <= records && i <= j < parts
    ensures PartSize(records, parts, j) <= PartSize(records, parts, i) <= PartSize(records, parts, j) + 1
    ensures PartSize(records, parts, j) >= 1
  {
    assert records / parts >= 1;
  }

  // ----- writing --------------------------------------------------------------------------

  /** The header goes in front of part 0 and nowhere else. */
  function PartBytes(header: seq<Byte>, chunks: seq<seq<seq<Byte>>>): (parts: seq<seq<Byte>>)
    ensures |parts| == |chunks|
  {
    seq(|chunks|, i requires 0 <= i < |chunks| => (if i == 0 then header else []) + Flatten(chunks[i]))
  }

  /** `TargetMissing` is the GeneratorError, `EmptyTarget` the IndexError on `records[0]`. */
  datatype Written = Parts(parts: seq<seq<Byte>>) | TargetMissing | EmptyTarget

  /** `_write_multipart`; `target` is None when it is not a regular file. */
  method WriteMultipart(target: Option<seq<Byte>>, terminator: seq<Byte>, parts: nat)
    returns (r: Written, ghost records: seq<seq<Byte>>, ghost chunks: seq<seq<seq<Byte>>>)
    requires terminator != [] && parts >= 2
    ensures r.TargetMissing? <==> target.None?
    ensures r.EmptyTarget? <==> target == Some([])
    ensures r.Parts? ==>
      && records != [] && IsSplit(records, target.value, terminator)
      && |chunks| == parts && Flatten(chunks) == records[1..]
      && (forall i :: 0 <= i < parts ==> IsPart(chunks[i], records[1..], parts, i))
      && r.parts == PartBytes(records[0], chunks)
  {
    records, chunks := [], [];
    if target.None? {
      return TargetMissing, [], [];
    }
    var split := SplitRecords(target.value, terminator);
    records := split;
    if |split| == 0 {
      return EmptyTarget, records, [];
    }
    assert |target.value| >= |split[0]| > 0;
    var header, data := split[0], split[1..];
    var dealt := Distribute(data, parts);
    chunks := dealt;
    var out := [];
    for i := 0 to |dealt|
      invariant out == PartBytes(header, dealt)[..i]
    {
      var body := Flatten(dealt[i]);
      assert [] + body == body;
      out := out + [if i == 0 then header + body else body];
    }
    r := Parts(out);
  }

  lemma {:induction false} FlattenNested<T>(chunks: seq<seq<seq<T>>>)
    ensures Flatten(seq(|chunks|, i requires 0 <= i < |chunks| => Flatten(chunks[i]))) == Flatten(Flatten(chunks))
  {
    if chunks != [] {
      var bodies := seq(|chunks|, i requires 0 <= i < |chunks| => Flatten(chunks[i]));
      var rest := chunks[1..];
      assert bodies[1..] == seq(|rest|, i requires 0 <= i < |rest| => Flatten(rest[i]));
      FlattenNested(rest);
      FlattenConcat(chunks[0], Flatten(rest));
    }
  }

  /** The parts concatenate to the target byte for byte. */
  lemma PartsConcatenateToTarget(records: seq<seq<Byte>>, chunks: seq<seq<seq<Byte>>>)
    requires records != [] && chunks != [] && Flatten(chunks) == records[1..]
    ensures Flatten(PartBytes(records[0], chunks)) == Flatten(records)
  {
    var parts := PartBytes(records[0], chunks);
    var bodies := seq(|chunks|, i requires 0 <= i < |chunks| => Flatten(chunks[i]));
    FlattenNested(chunks);
    assert parts[1..] == bodies[1..] by {
      forall i | 1 <= i < |parts| ensures parts[i] == bodies[i] {
        assert [] + Flatten(chunks[i]) == Flatten(chunks[i]);
      }
    }
    Assoc(records[0], bodies[0], Flatten(bodies[1..]));
  }
}
