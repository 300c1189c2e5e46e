/**
  The decompression-bomb guard: bounded reads over a decompressor that may read short,
  with a cumulative ceiling checked after every chunk.
 */
module DecompressionGuard {

  type Byte = b: int | 0 <= b < 256

  const BOUNDED_READ_CHUNK_BYTES: nat := 65_536

  /** The decompressor: any read may be short, and only an empty one means the end. */
  class Decompressor {
    const content: seq<Byte>
    var at: nat

    ghost predicate Valid()
      reads this
    {
      at <= |content|
    }

    constructor (content: seq<Byte>)
      ensures Valid() && this.content == content && at == 0
    {
      this.content, at := content, 0;
    }

    method Read(want: nat) returns (chunk: seq<Byte>)
      requires Valid()
      modifies this
      ensures Valid() && at == old(at) + |chunk| && |chunk| <= want && chunk == content[old(at)..at]
      ensures chunk == [] <==> want == 0 || old(at) == |content|
    {
      if want == 0 || at == |content| {
        return [];
      }
      var n: nat :| 1 <= n <= want && at + n <= |content|;
      chunk := content[at..at + n];
      at := at + n;
    }
  }

  /** `Tripped` is the FileInspectionError. */
  datatype Result = Bytes(data: seq<Byte>) | Tripped

  /** A negative size stands for "everything". */
  datatype Call = Read(size: int) | Read1(size: int)

  function Min(a: int, b: int): int {
    if a < b then a else b
  }

  function Max(a: int, b: int): int {
    if a < b then b else a
  }

  /** What a full read asks for: `size` bytes, or all that is left. */
  function Available(content: seq<Byte>, at: nat, size: int): nat
    requires at <= |content|
  {
    if size < 0 then |content| - at else Min(size, |content| - at)
  }

  function Bound(size: int): nat {
    if size < 0 then BOUNDED_READ_CHUNK_BYTES else Min(size, BOUNDED_READ_CHUNK_BYTES)
  }

  /** One call of the guard, from `before` bytes consumed to `after`. */
  ghost predicate Step(content: seq<Byte>, ceiling: int, before: nat, call: Call, r: Result, after: nat) {
    && before <= after <= |content|
    && (r.Bytes? ==> r.data == content[before..after])
    && (r.Tripped? ==> ceiling < after)
    && match call
       case Read(size) =>
         var available := Available(content, before, size);
         && (r.Bytes? <==> size == 0 || before + available <= ceiling)
         && (r.Bytes? ==> after == before + available)
         && (r.Tripped? ==> after <= before + available && after <= Max(before, ceiling) + BOUNDED_READ_CHUNK_BYTES)
       case Read1(size) =>
         && (r.Bytes? <==> after <= ceiling)
         && after - before <= Bound(size)
         && (after == before <==> size == 0 || before == |content|)
  }

  class Guard {
    const inner: Decompressor
    const ceiling: int
    var bytesRead: nat
    var closed: bool

    ghost predicate Valid()
      reads this, inner
    {
      inner.Valid() && inner.at == bytesRead
    }

    constructor (inner: Decompressor, ceiling: int)
      requires inner.Valid() && inner.at == 0
      ensures Valid() && this.inner == inner && this.ceiling == ceiling && bytesRead == 0 && !closed
    {
      this.inner, this.ceiling, bytesRead, closed := inner, ceiling, 0, false;
    }

    /** `_read_one_bounded_chunk`. */
    method ReadOneBoundedChunk(requested: int) returns (r: Result)
      requires Valid()
      modifies this, inner
      ensures Valid() && closed == old(closed)
      ensures Step(inner.content, ceiling, old(bytesRead), Read1(requested), r, bytesRead)
    {
      var want := if requested < 0 then BOUNDED_READ_CHUNK_BYTES else Min(requested, BOUNDED_READ_CHUNK_BYTES);
      var chunk := inner.Read(want);
      bytesRead := bytesRead + |chunk|;
      if bytesRead > ceiling {
        return Tripped;
      }
      r := Bytes(chunk);
    }

    method ReadOne(size: int) returns (r: Result)
      requires Valid()
      modifies this, inner
      ensures Valid() && closed == old(closed)
      ensures Step(inner.content, ceiling, old(bytesRead), Read1(size), r, bytesRead)
    {
      r := ReadOneBoundedChunk(size);
    }

    /** `read`: exactly `size` bytes unless the stream ends, everything for a negative size,
        and an error exactly when that passes the ceiling. */
    method ReadAll(size: int) returns (r: Result)
      requires Valid()
      modifies this, inner
      ensures Valid() && closed == old(closed)
      ensures Step(inner.content, ceiling, old(bytesRead), Read(size), r, bytesRead)
    {
      ghost var start := bytesRead;
      var pieces: seq<Byte> := [];
      if size >= 0 {
        var remaining := size;
        while remaining > 0
          invariant Valid() && closed == old(closed) && start <= bytesRead
          invariant remaining == size - (bytesRead - start) >= 0
          invariant pieces == inner.content[start..bytesRead]
          invariant bytesRead > start ==> bytesRead <= ceiling
        {
          var chunk := ReadOneBoundedChunk(remaining);
          if chunk.Tripped? {
            return Tripped;
          }
          if chunk.data == [] {
            break;
          }
          pieces := pieces + chunk.data;
          remaining := remaining - |chunk.data|;
        }
        return Bytes(pieces);
      }
      while true
        invariant Valid() && closed == old(closed) && start <= bytesRead
        invariant pieces == inner.content[start..bytesRead]
        invariant bytesRead > start ==> bytesRead <= ceiling
        decreases |inner.content| - bytesRead
      {
        var chunk := ReadOneBoundedChunk(-1);
        if chunk.Tripped? {
          return Tripped;
        }
        if chunk.data == [] {
          break;
        }
        pieces := pieces + chunk.data;
      }
      return Bytes(pieces);
    }
  }

  // ----- runs of calls ------------------------------------------------------------

  datatype Event = Event(call: Call, result: Result, after: nat)

  /** The bytes consumed by a run. */
  function Consumed(events: seq<Event>): nat {
    if events == [] then 0 else events[|events| - 1].after
  }

  /** A run of calls on a new guard. */
  ghost predicate Run(content: seq<Byte>, ceiling: int, events: seq<Event>) {
    events == [] ||
    (var init, last := events[..|events| - 1], events[|events| - 1];
     Run(content, ceiling, init) && Step(content, ceiling, Consumed(init), last.call, last.result, last.after))
  }

  function Output(events: seq<Event>): seq<Byte> {
    if events == [] then []
    else
      var last := events[|events| - 1];
      Output(events[..|events| - 1]) + if last.result.Bytes? then last.result.data else []
  }

  function Trips(events: seq<Event>): nat {
    if events == [] then 0
    else Trips(events[..|events| - 1]) + if events[|events| - 1].result.Tripped? then 1 else 0
  }

  /** What the output and the consumption have in common after some calls. */
  ghost predicate Delivered(content: seq<Byte>, ceiling: int, consumed: nat, output: seq<Byte>, trips: nat) {
    && consumed <= |content| && output <= content[..consumed]
    && (trips == 0 ==> output == content[..consumed] && consumed <= Max(ceiling, 0))
    && (trips > 0 ==> consumed > ceiling)
  }

  lemma DeliverOne(content: seq<Byte>, ceiling: int, before: nat, output: seq<Byte>, trips: nat, e: Event)
    requires Delivered(content, ceiling, before, output, trips)
    requires Step(content, ceiling, before, e.call, e.result, e.after)
    ensures e.result.Bytes? ==> Delivered(content, ceiling, e.after, output + e.result.data, trips)
    ensures e.result.Tripped? ==> Delivered(content, ceiling, e.after, output, trips + 1)
  {
    assert content[..before] + content[before..e.after] == content[..e.after];
    assert content[..before] == content[..e.after][..before];
    if trips > 0 && e.result.Bytes? {
      assert e.after == before && output + e.result.data == output;
    }
  }

  /** While nothing has tripped, the outputs are exactly the consumed prefix, within the
      ceiling; after the first error nothing more is ever delivered. */
  lemma {:induction false} OutputIsAPrefix(content: seq<Byte>, ceiling: int, events: seq<Event>)
    requires Run(content, ceiling, events)
    ensures Delivered(content, ceiling, Consumed(events), Output(events), Trips(events))
  {
    if events != [] {
      var init, last := events[..|events| - 1], events[|events| - 1];
      OutputIsAPrefix(content, ceiling, init);
      DeliverOne(content, ceiling, Consumed(init), Output(init), Trips(init), last);
      assert Output(init) + [] == Output(init);
    }
  }

  lemma StepCost(content: seq<Byte>, ceiling: int, before: nat, e: Event)
    requires Step(content, ceiling, before, e.call, e.result, e.after)
    ensures e.after <= if e.result.Bytes? then Max(before, ceiling) else Max(before, Max(ceiling, 0)) + BOUNDED_READ_CHUNK_BYTES
  {
  }

  /** Every error consumes at most one chunk past the ceiling or past the error before it. */
  lemma {:induction false} EachTripCostsAChunk(content: seq<Byte>, ceiling: int, events: seq<Event>)
    requires Run(content, ceiling, events)
    ensures Consumed(events) <= Max(ceiling, 0) + Trips(events) * BOUNDED_READ_CHUNK_BYTES
  {
    if events != [] {
      var init, last := events[..|events| - 1], events[|events| - 1];
      EachTripCostsAChunk(content, ceiling, init);
      StepCost(content, ceiling, Consumed(init), last);
    }
  }

  /** So up to and including the first error, consumption stays within a chunk of the ceiling. */
  lemma FirstTripIsWithinAChunk(content: seq<Byte>, ceiling: int, events: seq<Event>)
    requires Run(content, ceiling, events) && Trips(events) <= 1
    ensures Consumed(events) <= Max(ceiling, 0) + BOUNDED_READ_CHUNK_BYTES
  {
    EachTripCostsAChunk(content, ceiling, events);
  }

  /** What n errors can consume at most, in a stream that passes the ceiling at all. */
  function Reach(content: seq<Byte>, ceiling: int, n: nat): nat {
    Min(|content|, Max(ceiling, 0) + n * BOUNDED_READ_CHUNK_BYTES)
  }

  /** The bound is met: a caller that fills the ceiling and goes on reading after every error
      consumes a whole chunk each time, as long as there is one. */
  lemma {:induction false} ReadingOnConsumesOn(content: seq<Byte>, ceiling: int, n: nat) returns (events: seq<Event>)
    requires n == 0 || |content| > ceiling
    ensures Run(content, ceiling, events) && Trips(events) == n
    ensures Consumed(events) == Reach(content, ceiling, n)
    decreases n
  {
    var init: seq<Event>, last: Event := [], Event(Read(Max(ceiling, 0)), Bytes([]), Reach(content, ceiling, n));
    if n == 0 {
      last := last.(result := Bytes(content[0..last.after]));
    } else {
      init := ReadingOnConsumesOn(content, ceiling, n - 1);
      last := last.(call := Read1(-1), result := Tripped);
      assert n * BOUNDED_READ_CHUNK_BYTES == (n - 1) * BOUNDED_READ_CHUNK_BYTES + BOUNDED_READ_CHUNK_BYTES;
    }
    assert Step(content, ceiling, Consumed(init), last.call, last.result, last.after);
    events := init + [last];
    assert events[..|events| - 1] == init;
  }

  /** Consumption can pass the ceiling by more than a chunk if and only if the caller reads on
      after an error, in a stream that long. */
  lemma MoreThanAChunkExactlyWhen(content: seq<Byte>, ceiling: int, n: nat)
    ensures (exists events ::
        && Run(content, ceiling, events) && Trips(events) == n
        && Consumed(events) > Max(ceiling, 0) + BOUNDED_READ_CHUNK_BYTES) <==>
      n >= 2 && |content| > Max(ceiling, 0) + BOUNDED_READ_CHUNK_BYTES
  {
    forall events | Run(content, ceiling, events) && Trips(events) == n
      ensures Consumed(events) <= |content|
      ensures n <= 1 ==> Consumed(events) <= Max(ceiling, 0) + BOUNDED_READ_CHUNK_BYTES
    {
      OutputIsAPrefix(content, ceiling, events);
      EachTripCostsAChunk(content, ceiling, events);
    }
    if n >= 2 && |content| > Max(ceiling, 0) + BOUNDED_READ_CHUNK_BYTES {
      var events := ReadingOnConsumesOn(content, ceiling, n);
      assert n * BOUNDED_READ_CHUNK_BYTES >= 2 * BOUNDED_READ_CHUNK_BYTES;
    }
  }

  /** Reading to the end delivers the whole stream if and only if it fits the ceiling. */
  lemma WholeStreamExactlyWhen(content: seq<Byte>, ceiling: int, r: Result, after: nat)
    requires Step(content, ceiling, 0, Read(-1), r, after)
    ensures r == Bytes(content) <==> |content| <= ceiling
    ensures r.Tripped? <==> |content| > ceiling
  {
    assert content[0..|content|] == content;
  }
}
