/**
  Raw byte splices: how a literal fixture's declared splices are resolved,
  validated and written into its UTF-8 encoded content.
 */
module Splices {
  import opened Options
  import opened Utf8

  datatype Address = AtOffset(offset: nat) | AfterRecord(record: nat)

  /** The parser guarantees non-empty raw bytes and a record number of at least 1. */
  datatype Splice = Splice(raw: seq<Byte>, address: Address)

  /** The fields of a fixture that splicing reads. */
  datatype Fixture = Fixture(literal: bool, bom: bool, content: string, terminator: string, splices: seq<Splice>)

  /** A resolved splice. */
  datatype Cut = Cut(offset: nat, raw: seq<Byte>)

  // ----- resolving -----------------------------------------------------------

  /** Byte offset just past the n-th terminator at or after `cursor`. */
  function RecordEnd(bytes: seq<Byte>, terminator: seq<Byte>, n: nat, cursor: nat): Option<nat> {
    if n == 0 then Some(cursor)
    else match Find(bytes, terminator, cursor)
      case None => None
      case Some(found) => RecordEnd(bytes, terminator, n - 1, found + |terminator|)
  }

  function Resolved(f: Fixture, s: Splice): Option<nat> {
    match s.address
    case AtOffset(offset) => Some(offset)
    case AfterRecord(n) => RecordEnd(Encode(f.content), Encode(f.terminator), n, 0)
  }

  /** `resolve_splice_offset`; None is the ManifestError. */
  method ResolveSpliceOffset(f: Fixture, s: Splice) returns (r: Option<nat>)
    ensures r == Resolved(f, s)
  {
    if s.address.AtOffset? {
      return Some(s.address.offset);
    }
    var encoded, terminator := Encode(f.content), Encode(f.terminator);
    var cursor: nat := 0;
    for i := 0 to s.address.record
      invariant Resolved(f, s) == RecordEnd(encoded, terminator, s.address.record - i, cursor)
    {
      var found := Find(encoded, terminator, cursor);
      if found.None? {
        return None;
      }
      cursor := found.value + |terminator|;
    }
    return Some(cursor);
  }

  lemma TerminatorEndIsBoundary(content: string, terminator: string, at: nat)
    requires IsTerminator(terminator) && OccursAt(Encode(content), Encode(terminator), at)
    ensures IsBoundary(content, at + |Encode(terminator)|)
  {
    TerminatorBytes(terminator);
    var k := TerminatorOccursBetweenCharacters(content, terminator, at);
    assert Offset(content, k + |terminator|) == at + |Encode(terminator)|;
  }

  lemma {:induction false} RecordEndStaysLegal(bytes: seq<Byte>, terminator: seq<Byte>, n: nat, cursor: nat, legal: iset<nat>)
    requires cursor in legal
    requires forall at: nat :: OccursAt(bytes, terminator, at) ==> at + |terminator| in legal
    ensures var r := RecordEnd(bytes, terminator, n, cursor); r.Some? ==> r.value in legal
    decreases n
  {
    if n > 0 {
      var found := Find(bytes, terminator, cursor);
      if found.Some? {
        RecordEndStaysLegal(bytes, terminator, n - 1, found.value + |terminator|, legal);
      }
    }
  }

  /** Under UTF-8 a record-addressed splice always lands between characters, just past the
      n-th occurrence of the terminator. */
  lemma RecordEndIsBoundary(content: string, terminator: string, n: nat, cursor: nat)
    requires IsTerminator(terminator) && IsBoundary(content, cursor)
    ensures var r := RecordEnd(Encode(content), Encode(terminator), n, cursor);
      r.Some? ==> IsBoundary(content, r.value)
  {
    var legal := iset o: nat | IsBoundary(content, o);
    forall at: nat | OccursAt(Encode(content), Encode(terminator), at) ensures at + |Encode(terminator)| in legal {
      TerminatorEndIsBoundary(content, terminator, at);
    }
    RecordEndStaysLegal(Encode(content), Encode(terminator), n, cursor, legal);
  }

  lemma RecordSpliceIsAlwaysLegal(f: Fixture, s: Splice)
    requires IsTerminator(f.terminator) && s.address.AfterRecord? && Resolved(f, s).Some?
    ensures IsBoundary(f.content, Resolved(f, s).value)
  {
    assert f.content[..0] == [] && Offset(f.content, 0) == 0;
    RecordEndIsBoundary(f.content, f.terminator, s.address.record, 0);
  }

  // ----- validating --------------------------------------------------------------

  /** Splice i resolves to a character boundary after every earlier splice's. */
  predicate LegalAt(f: Fixture, i: nat)
    requires i < |f.splices|
  {
    && Resolved(f, f.splices[i]).Some?
    && IsBoundary(f.content, Resolved(f, f.splices[i]).value)
    && (i > 0 ==> Resolved(f, f.splices[i - 1]).Some?
                  && Resolved(f, f.splices[i - 1]).value < Resolved(f, f.splices[i]).value)
  }

  predicate Accepted(f: Fixture) {
    f.splices == [] || (f.literal && !f.bom && forall i :: 0 <= i < |f.splices| ==> LegalAt(f, i))
  }

  /** `_validate_splices`: false is the ManifestError. */
  method ValidateSplices(f: Fixture) returns (ok: bool)
    ensures ok <==> Accepted(f)
  {
    if f.splices == [] {
      return true;
    }
    if !f.literal || f.bom {
      return false;
    }
    var legal := CharacterBoundaries(f.content);
    var limit := legal[|legal| - 1];
    var previous: int := -1;
    for i := 0 to |f.splices|
      invariant forall j :: 0 <= j < i ==> LegalAt(f, j)
      invariant i == 0 ==> previous == -1
      invariant i > 0 ==> Resolved(f, f.splices[i - 1]) == Some(previous)
    {
      var offset := ResolveSpliceOffset(f, f.splices[i]);
      if offset.None? {
        assert !LegalAt(f, i);
        return false;
      }
      if offset.value > limit {
        BoundaryWithinLimit(f.content, offset.value);
        assert !LegalAt(f, i);
        return false;
      }
      if offset.value !in legal {
        assert !IsBoundary(f.content, offset.value) by {
          forall k | 0 <= k <= |f.content| ensures Offset(f.content, k) != offset.value {
            assert legal[k] in legal;
          }
        }
        assert !LegalAt(f, i);
        return false;
      }
      if offset.value <= previous {
        assert !LegalAt(f, i);
        return false;
      }
      previous := offset.value;
    }
    return true;
  }

  lemma BoundaryWithinLimit(text: string, offset: nat)
    requires offset > Offset(text, |text|)
    ensures !IsBoundary(text, offset)
  {
    forall k | 0 <= k <= |text| ensures Offset(text, k) != offset {
      OffsetSplits(text, k, |text|);
    }
  }

  // ----- writing -------------------------------------------------------------------

  /** The resolved cuts of an accepted fixture. */
  function Cuts(f: Fixture): (cuts: seq<Cut>)
    requires Accepted(f)
    ensures |cuts| == |f.splices|
  {
    seq(|f.splices|, i requires 0 <= i < |f.splices| =>
      assert LegalAt(f, i); Cut(Resolved(f, f.splices[i]).value, f.splices[i].raw))
  }

  function TotalRaw(cuts: seq<Cut>): nat {
    if cuts == [] then 0 else TotalRaw(cuts[..|cuts| - 1]) + |cuts[|cuts| - 1].raw|
  }

  /** Where cut i's raw bytes sit in the output: its offset plus the lengths of the
      earlier splices. */
  function Position(cuts: seq<Cut>, i: nat): nat
    requires i < |cuts|
  {
    cuts[i].offset + TotalRaw(cuts[..i])
  }

  /** Offsets ascend strictly and stay within the content. */
  predicate Ordered(cuts: seq<Cut>, limit: nat) {
    cuts == [] ||
    (var last := |cuts| - 1;
     && cuts[last].offset <= limit
     && (last > 0 ==> cuts[last - 1].offset < cuts[last].offset)
     && Ordered(cuts[..last], limit))
  }

  /** The content with each cut's raw bytes inserted at its position, one at a time. */
  function Spliced(content: seq<Byte>, cuts: seq<Cut>): (out: seq<Byte>)
    requires Ordered(cuts, |content|)
    ensures |out| == |content| + TotalRaw(cuts)
  {
    if cuts == [] then content
    else
      var last := |cuts| - 1;
      var out := Spliced(content, cuts[..last]);
      var at := Position(cuts, last);
      out[..at] + cuts[last].raw + out[at..]
  }

  /** Deleting the injected bytes, last splice first. */
  function Deleted(out: seq<Byte>, cuts: seq<Cut>): Option<seq<Byte>>
    decreases |cuts|
  {
    if cuts == [] then Some(out)
    else
      var last := |cuts| - 1;
      var at := Position(cuts, last);
      var end := at + |cuts[last].raw|;
      if end > |out| then None else Deleted(out[..at] + out[end..], cuts[..last])
  }

  /** After i splices: what is written plus the rest of the content is the content with
      the first i splices inserted. */
  ghost predicate Written(encoded: seq<Byte>, cuts: seq<Cut>, i: nat, out: seq<Byte>, cursor: nat)
    requires i <= |cuts|
  {
    && cursor <= |encoded|
    && (i > 0 ==> cursor == cuts[i - 1].offset)
    && (i == 0 ==> cursor == 0)
    && Ordered(cuts[..i], |encoded|)
    && |out| == cursor + TotalRaw(cuts[..i])
    && out + encoded[cursor..] == Spliced(encoded, cuts[..i])
  }

  lemma WriteOne(encoded: seq<Byte>, cuts: seq<Cut>, i: nat, out: seq<Byte>, cursor: nat)
    requires i < |cuts| && Written(encoded, cuts, i, out, cursor)
    requires cuts[i].offset <= |encoded| && (i > 0 ==> cuts[i - 1].offset < cuts[i].offset)
    ensures Written(encoded, cuts, i + 1, out + encoded[cursor..cuts[i].offset] + cuts[i].raw, cuts[i].offset)
  {
    var offset := cuts[i].offset;
    var piece := out + encoded[cursor..offset];
    assert cuts[..i + 1][..i] == cuts[..i];
    assert encoded[cursor..] == encoded[cursor..offset] + encoded[offset..];
    assert Spliced(encoded, cuts[..i]) == piece + encoded[offset..];
    assert Position(cuts[..i + 1], i) == |piece|;
    assert Spliced(encoded, cuts[..i + 1]) == piece + cuts[i].raw + encoded[offset..];
  }

  /** The pieces between cuts, joined as `_write_literal` joins them. */
  method WriteLiteral(f: Fixture) returns (out: seq<Byte>)
    requires Accepted(f)
    ensures f.splices == [] ==> out == (if f.bom then BYTE_ORDER_MARK else []) + Encode(f.content)
    ensures f.splices != [] ==> Ordered(Cuts(f), |Encode(f.content)|) && out == Spliced(Encode(f.content), Cuts(f))
  {
    var encoded := Encode(f.content);
    if f.splices == [] {
      return (if f.bom then BYTE_ORDER_MARK else []) + encoded;
    }
    CutsAreOrdered(f);
    ghost var cuts := Cuts(f);
    out := [];
    var cursor: nat := 0;
    for i := 0 to |f.splices|
      invariant Written(encoded, cuts, i, out, cursor)
    {
      var offset := ResolveSpliceOffset(f, f.splices[i]);
      assert LegalAt(f, i) && cuts[i] == Cut(offset.value, f.splices[i].raw);
      assert i > 0 ==> cuts[i - 1].offset < cuts[i].offset;
      WriteOne(encoded, cuts, i, out, cursor);
      out := out + encoded[cursor..offset.value] + f.splices[i].raw;
      cursor := offset.value;
    }
    out := out + encoded[cursor..];
    assert cuts[..|cuts|] == cuts;
  }

  lemma CutsAreOrdered(f: Fixture)
    requires Accepted(f) && f.splices != []
    ensures Ordered(Cuts(f), |Encode(f.content)|)
    ensures forall i :: 0 <= i < |f.splices| ==>
      Cuts(f)[i].offset <= |Encode(f.content)| && IsBoundary(f.content, Cuts(f)[i].offset)
    ensures forall i :: 1 <= i < |f.splices| ==> Cuts(f)[i - 1].offset < Cuts(f)[i].offset
  {
    var cuts := Cuts(f);
    forall i | 0 <= i < |cuts|
      ensures cuts[i].offset <= |Encode(f.content)| && IsBoundary(f.content, cuts[i].offset)
    {
      assert LegalAt(f, i);
      var k :| 0 <= k <= |f.content| && cuts[i].offset == Offset(f.content, k);
      OffsetSplits(f.content, k, |f.content|);
    }
    forall i | 1 <= i < |cuts| ensures cuts[i - 1].offset < cuts[i].offset {
      assert LegalAt(f, i);
    }
    StepsAreOrdered(cuts, |Encode(f.content)|);
  }

  lemma {:induction false} StepsAreOrdered(cuts: seq<Cut>, limit: nat)
    requires forall i :: 0 <= i < |cuts| ==> cuts[i].offset <= limit
    requires forall i :: 1 <= i < |cuts| ==> cuts[i - 1].offset < cuts[i].offset
    ensures Ordered(cuts, limit)
  {
    if cuts != [] {
      var init := cuts[..|cuts| - 1];
      forall i | 1 <= i < |init| ensures init[i - 1].offset < init[i].offset {
        assert cuts[i - 1].offset < cuts[i].offset;
      }
      StepsAreOrdered(init, limit);
    }
  }

  lemma {:induction false} OffsetsAscend(cuts: seq<Cut>, limit: nat, i: nat)
    requires Ordered(cuts, limit) && i + 1 < |cuts|
    ensures cuts[i].offset < cuts[|cuts| - 1].offset
  {
    if i + 2 < |cuts| {
      OffsetsAscend(cuts[..|cuts| - 1], limit, i);
    }
  }

  // ----- main results -----------------------------------------------------------------

  /** Deleting the injected bytes restores the encoded content. */
  lemma {:induction false} DeletingRestoresContent(content: seq<Byte>, cuts: seq<Cut>)
    requires Ordered(cuts, |content|)
    ensures Deleted(Spliced(content, cuts), cuts) == Some(content)
  {
    if cuts != [] {
      var last := |cuts| - 1;
      var before := Spliced(content, cuts[..last]);
      var out := Spliced(content, cuts);
      var at := Position(cuts, last);
      assert out[..at] + out[at + |cuts[last].raw|..] == before;
      DeletingRestoresContent(content, cuts[..last]);
    }
  }

  /** Each raw sequence sits at its offset plus the lengths of the earlier splices. */
  lemma {:induction false} RawBytesSitAtTheirPosition(content: seq<Byte>, cuts: seq<Cut>, i: nat)
    requires Ordered(cuts, |content|) && i < |cuts|
    ensures var at := Position(cuts, i);
      at + |cuts[i].raw| <= |Spliced(content, cuts)| &&
      Spliced(content, cuts)[at..at + |cuts[i].raw|] == cuts[i].raw
  {
    var last := |cuts| - 1;
    if i < last {
      RawBytesSitAtTheirPosition(content, cuts[..last], i);
      EarlierRawBytesStay(content, cuts, i);
    } else {
      LastRawBytes(content, cuts);
    }
  }

  lemma LastRawBytes(content: seq<Byte>, cuts: seq<Cut>)
    requires Ordered(cuts, |content|) && cuts != []
    ensures var last := |cuts| - 1; var at := Position(cuts, last);
      at + |cuts[last].raw| <= |Spliced(content, cuts)| &&
      Spliced(content, cuts)[at..at + |cuts[last].raw|] == cuts[last].raw
  {
  }

  lemma EarlierRawBytesStay(content: seq<Byte>, cuts: seq<Cut>, i: nat)
    requires Ordered(cuts, |content|) && i < |cuts| - 1
    requires var init := cuts[..|cuts| - 1]; var at := Position(init, i);
      at + |cuts[i].raw| <= |Spliced(content, init)| && Spliced(content, init)[at..at + |cuts[i].raw|] == cuts[i].raw
    ensures var at := Position(cuts, i);
      at + |cuts[i].raw| <= |Spliced(content, cuts)| &&
      Spliced(content, cuts)[at..at + |cuts[i].raw|] == cuts[i].raw
  {
    var last := |cuts| - 1;
    var at := Position(cuts, i);
    assert cuts[..last][..i] == cuts[..i];
    OffsetsAscend(cuts, |content|, i);
    EarlierSplicesEndBefore(cuts, i, last);
    EarlierBytesStay(content, cuts);
    SameSlice(Spliced(content, cuts), Spliced(content, cuts[..last]), at, at + |cuts[i].raw|, Position(cuts, last));
  }

  lemma SameSlice(a: seq<Byte>, b: seq<Byte>, from: nat, to: nat, shared: nat)
    requires from <= to <= shared <= |a| && shared <= |b| && a[..shared] == b[..shared]
    ensures a[from..to] == b[from..to]
  {
    assert a[from..to] == a[..shared][from..to] && b[from..to] == b[..shared][from..to];
  }

  lemma EarlierBytesStay(content: seq<Byte>, cuts: seq<Cut>)
    requires Ordered(cuts, |content|) && cuts != []
    ensures var last := |cuts| - 1; var p := Position(cuts, last);
      p <= |Spliced(content, cuts[..last])| && p <= |Spliced(content, cuts)| &&
      Spliced(content, cuts)[..p] == Spliced(content, cuts[..last])[..p]
  {
  }

  lemma EarlierSplicesEndBefore(cuts: seq<Cut>, i: nat, j: nat)
    requires i < j < |cuts| && cuts[i].offset < cuts[j].offset
    ensures Position(cuts, i) + |cuts[i].raw| <= Position(cuts, j)
  {
    assert cuts[..i + 1][..i] == cuts[..i];
    TotalRawGrows(cuts[..j], i + 1);
    assert cuts[..j][..i + 1] == cuts[..i + 1];
  }

  lemma {:induction false} TotalRawGrows(cuts: seq<Cut>, k: nat)
    requires k <= |cuts|
    ensures TotalRaw(cuts[..k]) <= TotalRaw(cuts)
  {
    if k < |cuts| {
      var init := cuts[..|cuts| - 1];
      TotalRawGrows(init, k);
      assert init[..k] == cuts[..k];
    } else {
      assert cuts[..k] == cuts;
    }
  }

  /** The bytes between two characters decode on their own. */
  lemma PiecesDecode(text: string, j: nat, k: nat)
    requires j <= k <= |text|
    ensures Offset(text, j) <= Offset(text, k) <= |Encode(text)|
    ensures Decode(Encode(text)[Offset(text, j)..Offset(text, k)]) == Some(text[j..k])
  {
    OffsetSplits(text, j, k);
    DecodeEncode(text[j..k]);
  }

  lemma PieceDecodes(text: string, start: int, end: int)
    requires IsBoundary(text, start) && IsBoundary(text, end) && start <= end
    ensures 0 <= start && end <= |Encode(text)| && Decode(Encode(text)[start..end]).Some?
  {
    var j :| 0 <= j <= |text| && start == Offset(text, j);
    var k :| 0 <= k <= |text| && end == Offset(text, k);
    if k < j {
      OffsetSplits(text, k, j);
    }
    PiecesDecode(text, j, k);
  }

  lemma OuterBoundaries(text: string)
    ensures IsBoundary(text, 0) && IsBoundary(text, |Encode(text)|)
  {
    assert text[..0] == [] && text[..|text|] == text;
    assert Offset(text, 0) == 0 && Offset(text, |text|) == |Encode(text)|;
  }

  /** Every piece between two splices decodes on its own. */
  lemma EveryPieceOfAnAcceptedFixtureDecodes(f: Fixture, i: nat)
    requires Accepted(f) && i < |f.splices|
    ensures var start := if i == 0 then 0 else Cuts(f)[i - 1].offset; var end := Cuts(f)[i].offset;
      && start <= end <= |Encode(f.content)|
      && Decode(Encode(f.content)[start..end]).Some?
      && Decode(Encode(f.content)[end..]).Some?
  {
    CutsAreOrdered(f);
    OuterBoundaries(f.content);
    var start, end := if i == 0 then 0 else Cuts(f)[i - 1].offset, Cuts(f)[i].offset;
    PieceDecodes(f.content, start, end);
    PieceDecodes(f.content, end, |Encode(f.content)|);
    assert Encode(f.content)[end..] == Encode(f.content)[end..|Encode(f.content)|];
  }
}
