/**
  `chunked_records` and `CsvRecordStream.chunks`: records in chunks by ordinal,
  with resumption by whole chunks.
 */
module RecordChunks {
  import opened CsvText
  import opened Options

  datatype Chunk = Chunk(rows: seq<Record>, firstOrdinal: nat, expectedFieldCount: nat)

  /** How a generator ends: exhausted, with the ValueError of `itertools.batched`, or with an
      error of the reader. */
  datatype End = Exhausted | BadChunkSize | Unreadable

  /** The chunks it yielded before that. */
  datatype Outcome = Yielded(chunks: seq<Chunk>, end: End)

  // ----- the reader as an iterator ---------------------------------------------------

  /** What the reader yields, and whether it raises after that. */
  datatype Reading = Reading(records: seq<Record>, failed: bool)

  function ReadUntil(d: Dialect, r: Reader, lines: seq<string>): Reading
    decreases |lines|
  {
    if r.Failed? then Reading([], true)
    else if lines == [] then
      Reading(if r.mode == StartRecord then [] else [r.fields + [r.field]], false)
    else
      var r' := FeedLine(d, r, lines[0]);
      if r'.Failed? then Reading([], true)
      else if r'.mode != StartRecord then ReadUntil(d, r', lines[1..])
      else
        var rest := ReadUntil(d, FRESH, lines[1..]);
        Reading([r'.fields] + rest.records, rest.failed)
  }

  /** Reading to the end fails exactly when the iterator raises, and otherwise gives what it
      yields. */
  lemma {:induction false} ReadUntilEnds(d: Dialect, r: Reader, lines: seq<string>)
    ensures var reading := ReadUntil(d, r, lines);
      ReadFrom(d, r, lines) == if reading.failed then None else Some(reading.records)
    decreases |lines|
  {
    if !r.Failed? && lines != [] {
      var r' := FeedLine(d, r, lines[0]);
      if r'.Reader? {
        ReadUntilEnds(d, if r'.mode == StartRecord then FRESH else r', lines[1..]);
      }
    }
  }

  // ----- chunks ---------------------------------------------------------------------

  function Flatten(chunks: seq<Chunk>): seq<Record> {
    if chunks == [] then [] else chunks[0].rows + Flatten(chunks[1..])
  }

  lemma {:induction false} FlattenSnoc(chunks: seq<Chunk>, c: Chunk)
    ensures Flatten(chunks + [c]) == Flatten(chunks) + c.rows
  {
    if chunks == [] {
      assert [] + [c] == [c] && [c][1..] == [];
    } else {
      assert (chunks + [c])[0] == chunks[0] && (chunks + [c])[1..] == chunks[1..] + [c];
      FlattenSnoc(chunks[1..], c);
    }
  }

  /** Chunk k of the records: it starts at ordinal k * size and only the last is short. */
  ghost predicate IsChunk(c: Chunk, data: seq<Record>, size: nat, k: nat, width: nat) {
    && c.firstOrdinal == k * size < |data|
    && c.rows == data[k * size..if (k + 1) * size <= |data| then (k + 1) * size else |data|]
    && c.expectedFieldCount == width
  }

  ghost predicate IsChunking(chunks: seq<Chunk>, data: seq<Record>, size: nat, width: nat) {
    && Flatten(chunks) == data
    && forall k :: 0 <= k < |chunks| ==> IsChunk(chunks[k], data, size, k, width)
  }

  /** The most whole chunks can hold: the greatest multiple of the size. */
  function Whole(n: nat, size: nat): (m: nat)
    requires size >= 1
    ensures m <= n < m + size
  {
    if n < size then 0 else size + Whole(n - size, size)
  }

  lemma {:induction false} WholeIs(n: nat, size: nat, k: nat)
    requires size >= 1 && k * size <= n < k * size + size
    ensures Whole(n, size) == k * size
    decreases k
  {
    if k > 0 {
      assert k * size == (k - 1) * size + size;
      WholeIs(n - size, size, k - 1);
    }
  }

  lemma {:induction false} WholeIsAMultiple(n: nat, size: nat) returns (q: nat)
    requires size >= 1
    ensures Whole(n, size) == q * size
    decreases n
  {
    q := 0;
    if n >= size {
      var p := WholeIsAMultiple(n - size, size);
      q := p + 1;
    }
  }

  /** The records that reach a chunk: a batch that the reader's error interrupts is lost. */
  function Batched(data: seq<Record>, failed: bool, size: nat): seq<Record>
    requires size >= 1
  {
    if failed then data[..Whole(|data|, size)] else data
  }

  function EndOf(failed: bool): End {
    if failed then Unreadable else Exhausted
  }

  /** `chunked_records`: chunks by ordinal until the reader ends or raises. */
  method ChunkedRecords(reading: Reading, chunkSize: int, preambleRows: nat) returns (r: Outcome)
    ensures |reading.records| <= preambleRows ==> r == Yielded([], EndOf(reading.failed))
    ensures |reading.records| > preambleRows && chunkSize < 1 ==> r == Yielded([], BadChunkSize)
    ensures |reading.records| > preambleRows && chunkSize >= 1 ==>
      && r.end == EndOf(reading.failed)
      && IsChunking(
           r.chunks, Batched(reading.records[preambleRows + 1..], reading.failed, chunkSize), chunkSize,
           |reading.records[preambleRows]|)
  {
    var records, cursor := reading.records, 0;
    while cursor < preambleRows
      invariant cursor <= preambleRows && cursor <= |records|
    {
      if cursor == |records| {
        return Yielded([], EndOf(reading.failed));
      }
      cursor := cursor + 1;
    }
    if cursor == |records| {
      return Yielded([], EndOf(reading.failed));
    }
    var width := |records[cursor]|;
    if chunkSize < 1 {
      return Yielded([], BadChunkSize);
    }
    var data := records[cursor + 1..];
    var chunks := [];
    var ordinal := 0;
    while ordinal + chunkSize <= |data|
      invariant ordinal == |chunks| * chunkSize <= |data|
      invariant FullChunks(chunks, data, chunkSize, width)
      decreases |data| - ordinal
    {
      FullChunksSnoc(chunks, data, chunkSize, width);
      chunks := chunks + [Chunk(data[ordinal..ordinal + chunkSize], ordinal, width)];
      ordinal := ordinal + chunkSize;
    }
    WholeIs(|data|, chunkSize, |chunks|);
    FullChunksAreAChunking(chunks, data, chunkSize, width);
    if reading.failed {
      return Yielded(chunks, Unreadable);
    }
    if ordinal < |data| {
      LastChunk(chunks, data, chunkSize, width);
      chunks := chunks + [Chunk(data[ordinal..], ordinal, width)];
    } else {
      assert data[..ordinal] == data;
    }
    return Yielded(chunks, Exhausted);
  }

  lemma NextMultiple(k: nat, q: nat, size: nat)
    requires k < q
    ensures (k + 1) * size == k * size + size && (k + 1) * size <= q * size
  {
    assert q * size == (k + 1) * size + (q - k - 1) * size;
  }

  lemma Fewer(k: nat, q: nat, size: nat)
    requires k * size < q * size
    ensures k < q
  {
    assert k >= q ==> k * size == q * size + (k - q) * size;
  }

  lemma SliceOfPrefix<T>(a: seq<T>, b: seq<T>, m: nat, from: nat, to: nat)
    requires from <= to <= m <= |a|
    ensures a[..m][from..to] == (a + b)[from..to]
  {
  }

  ghost predicate FullChunks(chunks: seq<Chunk>, data: seq<Record>, size: nat, width: nat) {
    && |chunks| * size <= |data| && Flatten(chunks) == data[..|chunks| * size]
    && forall k :: 0 <= k < |chunks| ==> IsFullChunk(chunks[k], data, size, k, width)
  }

  ghost predicate IsFullChunk(c: Chunk, data: seq<Record>, size: nat, k: nat, width: nat) {
    k * size + size <= |data| && c == Chunk(data[k * size..k * size + size], k * size, width)
  }

  lemma FullChunksSnoc(chunks: seq<Chunk>, data: seq<Record>, size: nat, width: nat)
    requires FullChunks(chunks, data, size, width) && |chunks| * size + size <= |data|
    ensures var n := |chunks| * size; var c := Chunk(data[n..n + size], n, width);
      FullChunks(chunks + [c], data, size, width) && (|chunks| + 1) * size == n + size
  {
    var n := |chunks| * size;
    var c := Chunk(data[n..n + size], n, width);
    FlattenSnoc(chunks, c);
    assert (|chunks| + 1) * size == n + size;
    assert data[..n] + data[n..n + size] == data[..n + size];
    assert IsFullChunk(c, data, size, |chunks|, width);
  }

  lemma FullChunksAreAChunking(chunks: seq<Chunk>, data: seq<Record>, size: nat, width: nat)
    requires size >= 1 && FullChunks(chunks, data, size, width)
    ensures IsChunking(chunks, data[..|chunks| * size], size, width)
  {
    forall k | 0 <= k < |chunks| ensures IsChunk(chunks[k], data[..|chunks| * size], size, k, width) {
      assert IsFullChunk(chunks[k], data, size, k, width);
      FullChunkIsAChunk(chunks[k], data, size, k, width, |chunks|);
    }
  }

  lemma FullChunkIsAChunk(c: Chunk, data: seq<Record>, size: nat, k: nat, width: nat, n: nat)
    requires size >= 1 && k < n && n * size <= |data| && IsFullChunk(c, data, size, k, width)
    ensures IsChunk(c, data[..n * size], size, k, width)
  {
    NextMultiple(k, n, size);
    SliceOfPrefix(data, [], n * size, k * size, (k + 1) * size);
    assert data + [] == data;
  }

  lemma LastChunk(chunks: seq<Chunk>, data: seq<Record>, size: nat, width: nat)
    requires size >= 1 && FullChunks(chunks, data, size, width)
    requires |chunks| * size < |data| < |chunks| * size + size
    ensures var n := |chunks| * size; IsChunking(chunks + [Chunk(data[n..], n, width)], data, size, width)
  {
    var n := |chunks| * size;
    var c := Chunk(data[n..], n, width);
    FlattenSnoc(chunks, c);
    assert data[..n] + data[n..] == data && data[n..] == data[n..|data|];
    assert (|chunks| + 1) * size == n + size;
    assert IsChunk(c, data, size, |chunks|, width);
    forall k | 0 <= k < |chunks| ensures IsChunk(chunks[k], data, size, k, width) {
      assert IsFullChunk(chunks[k], data, size, k, width);
      assert (k + 1) * size == k * size + size;
    }
  }

  // ----- resuming ----------------------------------------------------------------

  predicate EndsBy(c: Chunk, start: int) {
    c.firstOrdinal + |c.rows| <= start
  }

  function Resumed(chunks: seq<Chunk>, start: int): seq<Chunk> {
    if chunks == [] then []
    else if EndsBy(chunks[0], start) then Resumed(chunks[1..], start)
    else [chunks[0]] + Resumed(chunks[1..], start)
  }

  class CsvRecordStream {
    const lines: seq<string>
    const dialect: Dialect
    const preambleRows: nat
    const chunkSize: int

    constructor (lines: seq<string>, dialect: Dialect, preambleRows: nat, chunkSize: int)
      ensures this.lines == lines && this.dialect == dialect
      ensures this.preambleRows == preambleRows && this.chunkSize == chunkSize
    {
      this.lines, this.dialect, this.preambleRows, this.chunkSize := lines, dialect, preambleRows, chunkSize;
    }

    /** All chunks, or those that do not end at or before `start`, until the reader ends or
        raises. */
    method ChunksFrom(start: Option<int>) returns (r: Outcome)
      ensures var reading := ReadUntil(dialect, FRESH, FilterEach(lines));
        if |reading.records| <= preambleRows then r == Yielded([], EndOf(reading.failed))
        else if chunkSize < 1 then r == Yielded([], BadChunkSize)
        else
          && r.end == EndOf(reading.failed)
          && exists all ::
            && IsChunking(
                 all, Batched(reading.records[preambleRows + 1..], reading.failed, chunkSize), chunkSize,
                 |reading.records[preambleRows]|)
            && r.chunks == if start.Some? then Resumed(all, start.value) else all
    {
      var stripped, _ := StripNul(lines);
      r := ChunkedRecords(ReadUntil(dialect, FRESH, stripped), chunkSize, preambleRows);
      if start.None? {
        return;
      }
      var chunks := r.chunks;
      var kept := [];
      for i := 0 to |chunks|
        invariant kept + Resumed(chunks[i..], start.value) == Resumed(chunks, start.value)
      {
        assert chunks[i..][0] == chunks[i] && chunks[i..][1..] == chunks[i + 1..];
        if !EndsBy(chunks[i], start.value) {
          kept := kept + [chunks[i]];
        }
      }
      assert chunks[|chunks|..] == [];
      r := Yielded(kept, r.end);
      assert Resumed([], start.value) == [];
    }
  }

  /** A later error takes nothing from the chunks already yielded: they are those of any other
      stream with the same records up to there. */
  lemma ErrorTakesOnlyItsOwnBatch(data: seq<Record>, rest: seq<Record>, size: nat, width: nat,
                                  failing: seq<Chunk>, whole: seq<Chunk>)
    requires size >= 1
    requires IsChunking(failing, Batched(data, true, size), size, width)
    requires IsChunking(whole, data + rest, size, width)
    ensures |failing| <= |whole| && failing == whole[..|failing|]
    ensures |data| - |Flatten(failing)| < size
  {
    forall k | 0 <= k < |failing| ensures k < |whole| && failing[k] == whole[k] {
      SameChunk(data, rest, size, width, failing, whole, k);
    }
    if failing != [] {
      SameChunk(data, rest, size, width, failing, whole, |failing| - 1);
    }
  }

  lemma SameChunk(data: seq<Record>, rest: seq<Record>, size: nat, width: nat, failing: seq<Chunk>, whole: seq<Chunk>, k: nat)
    requires size >= 1 && k < |failing|
    requires IsChunking(failing, Batched(data, true, size), size, width)
    requires IsChunking(whole, data + rest, size, width)
    ensures k < |whole| && failing[k] == whole[k]
  {
    ChunkCount(whole, data + rest, size, width);
    assert IsChunk(failing[k], Batched(data, true, size), size, k, width);
    FullInBoth(data, rest, size, k);
    assert k * size < |data + rest|;
    assert IsChunk(whole[k], data + rest, size, k, width);
  }

  /** Chunk k exists exactly when the data reaches it. */
  lemma ChunkCount(chunks: seq<Chunk>, data: seq<Record>, size: nat, width: nat)
    requires size >= 1 && IsChunking(chunks, data, size, width)
    ensures forall k: nat :: k * size < |data| ==> k < |chunks|
  {
    SuffixOfChunks(chunks, data, size, width, |chunks|);
    assert Start(data, size, |chunks|) == |data|;
    forall k: nat | k >= |chunks| ensures k * size >= |data| {
      StartsAscend(data, size, |chunks|, k);
    }
  }

  lemma FullInBoth(data: seq<Record>, rest: seq<Record>, size: nat, k: nat)
    requires size >= 1 && k * size < Whole(|data|, size)
    ensures (k + 1) * size <= Whole(|data|, size) <= |data|
    ensures data[..Whole(|data|, size)][k * size..(k + 1) * size] == (data + rest)[k * size..(k + 1) * size]
  {
    var q := WholeIsAMultiple(|data|, size);
    Fewer(k, q, size);
    NextMultiple(k, q, size);
    SliceOfPrefix(data, rest, Whole(|data|, size), k * size, (k + 1) * size);
  }

  /** Where chunk k starts, capped at the end. */
  function Start(data: seq<Record>, size: nat, k: nat): nat {
    if k * size <= |data| then k * size else |data|
  }

  lemma {:induction false} SuffixOfChunks(chunks: seq<Chunk>, data: seq<Record>, size: nat, width: nat, k: nat)
    requires IsChunking(chunks, data, size, width) && k <= |chunks|
    ensures Flatten(chunks[k..]) == data[Start(data, size, k)..]
    decreases k
  {
    if k == 0 {
      assert chunks[0..] == chunks && data[0..] == data;
    } else {
      SuffixOfChunks(chunks, data, size, width, k - 1);
      assert IsChunk(chunks[k - 1], data, size, k - 1, width);
      var tail := chunks[k - 1..];
      assert tail[0] == chunks[k - 1] && tail[1..] == chunks[k..];
      var from, to := Start(data, size, k - 1), Start(data, size, k);
      assert from == (k - 1) * size && chunks[k - 1].rows == data[from..to];
      assert data[from..] == data[from..to] + data[to..];
    }
  }

  lemma {:induction false} ResumedIsASuffix(chunks: seq<Chunk>, start: int, k: nat) returns (j: nat)
    requires k <= |chunks|
    requires forall i, i' :: 0 <= i <= i' < |chunks| && EndsBy(chunks[i'], start) ==> EndsBy(chunks[i], start)
    requires forall i :: 0 <= i < k ==> EndsBy(chunks[i], start)
    ensures j <= |chunks| && Resumed(chunks[k..], start) == chunks[j..]
    ensures j > 0 ==> EndsBy(chunks[j - 1], start)
    ensures j < |chunks| ==> !EndsBy(chunks[j], start)
    decreases |chunks| - k
  {
    if k == |chunks| {
      j := k;
    } else if EndsBy(chunks[k], start) {
      assert chunks[k..][1..] == chunks[k + 1..];
      j := ResumedIsASuffix(chunks, start, k + 1);
    } else {
      j := k;
      NothingDropped(chunks[k..], start);
    }
  }

  lemma {:induction false} NothingDropped(chunks: seq<Chunk>, start: int)
    requires forall i :: 0 <= i < |chunks| ==> !EndsBy(chunks[i], start)
    ensures Resumed(chunks, start) == chunks
  {
    if chunks != [] {
      NothingDropped(chunks[1..], start);
    }
  }

  lemma ChunkEnd(c: Chunk, data: seq<Record>, size: nat, width: nat, k: nat)
    requires IsChunk(c, data, size, k, width)
    ensures c.firstOrdinal + |c.rows| == Start(data, size, k + 1)
  {
    assert (k + 1) * size == k * size + size;
  }

  lemma StartsAscend(data: seq<Record>, size: nat, i: nat, j: nat)
    requires i <= j
    ensures Start(data, size, i) <= Start(data, size, j)
  {
    var d := j - i;
    assert j * size == i * size + d * size;
  }

  lemma ChunkEndsAscend(chunks: seq<Chunk>, data: seq<Record>, size: nat, width: nat, i: nat, j: nat)
    requires IsChunking(chunks, data, size, width) && i <= j < |chunks|
    ensures chunks[j].firstOrdinal + |chunks[j].rows| == Start(data, size, j + 1)
    ensures Start(data, size, i + 1) <= Start(data, size, j + 1)
  {
    assert IsChunk(chunks[j], data, size, j, width);
    ChunkEnd(chunks[j], data, size, width, j);
    StartsAscend(data, size, i + 1, j + 1);
  }

  /** Resuming at `start` yields every record from `start` on exactly once, in order,
      preceded by fewer than a chunk of earlier records, and nothing past the end. */
  lemma ResumeLosesNothing(chunks: seq<Chunk>, data: seq<Record>, size: nat, width: nat, start: int) returns (dropped: nat)
    requires size >= 1 && IsChunking(chunks, data, size, width)
    ensures dropped <= |data| && Flatten(Resumed(chunks, start)) == data[dropped..]
    ensures start >= |data| ==> dropped == |data|
    ensures 0 <= start < |data| ==> dropped <= start < dropped + size
    ensures start < 0 ==> dropped == 0
  {
    forall i, i' | 0 <= i <= i' < |chunks| && EndsBy(chunks[i'], start) ensures EndsBy(chunks[i], start) {
      ChunkEndsAscend(chunks, data, size, width, i, i');
      ChunkEndsAscend(chunks, data, size, width, i, i);
    }
    assert chunks[0..] == chunks;
    var j := ResumedIsASuffix(chunks, start, 0);
    SuffixOfChunks(chunks, data, size, width, j);
    dropped := Start(data, size, j);
    if j > 0 {
      ChunkEndsAscend(chunks, data, size, width, j - 1, j - 1);
    }
    if j < |chunks| {
      ChunkEndsAscend(chunks, data, size, width, j, j);
      assert IsChunk(chunks[j], data, size, j, width);
      assert (j + 1) * size == j * size + size;
    } else {
      assert chunks[j..] == [] && data[dropped..] == [];
    }
  }
}
