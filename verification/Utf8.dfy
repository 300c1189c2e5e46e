/**
  UTF-8 as defined in section 3 of RFC 3629, and byte search, which together
  decide where a byte offset falls between characters.
 */
module Utf8 {

  import opened Options

  type Byte = b: int | 0 <= b < 256

  const BYTE_ORDER_MARK: seq<Byte> := [0xEF, 0xBB, 0xBF]

  function EncodeChar(c: char): (bytes: seq<Byte>)
    ensures 1 <= |bytes| <= 4
  {
    var n := c as int;
    if n < 0x80 then [n]
    else if n < 0x800 then [0xC0 + n / 64, 0x80 + n % 64]
    else if n < 0x1_0000 then [0xE0 + n / 4096, 0x80 + n / 64 % 64, 0x80 + n % 64]
    else [0xF0 + n / 262144, 0x80 + n / 4096 % 64, 0x80 + n / 64 % 64, 0x80 + n % 64]
  }

  function Encode(text: string): seq<Byte> {
    if text == [] then [] else EncodeChar(text[0]) + Encode(text[1..])
  }

  predicate IsTail(b: Byte) {
    0x80 <= b < 0xC0
  }

  /** The six payload bits of a tail byte. */
  function Low6(b: Byte): int {
    b - 0x80
  }

  /** A scalar value in [low, high) that is not a surrogate. */
  function Scalar(n: int, low: nat): Option<char> {
    if low <= n < 0xD800 || (low <= n && 0xE000 <= n < 0x11_0000) then Some(n as char) else None
  }

  /** The first character and the number of bytes it takes; overlong forms, surrogates and
      truncated sequences are errors. */
  function DecodeChar(bytes: seq<Byte>): (r: Option<(char, nat)>)
    requires bytes != []
    ensures r.Some? ==> 1 <= r.value.1 <= |bytes|
  {
    var b0: int := bytes[0];
    if b0 < 0x80 then Some((b0 as char, 1))
    else if 0xC0 <= b0 < 0xE0 && |bytes| >= 2 && IsTail(bytes[1]) then
      match Scalar((b0 - 0xC0) * 64 + Low6(bytes[1]), 0x80)
      case Some(c) => Some((c, 2))
      case None => None
    else if 0xE0 <= b0 < 0xF0 && |bytes| >= 3 && IsTail(bytes[1]) && IsTail(bytes[2]) then
      match Scalar((b0 - 0xE0) * 4096 + Low6(bytes[1]) * 64 + Low6(bytes[2]), 0x800)
      case Some(c) => Some((c, 3))
      case None => None
    else if 0xF0 <= b0 < 0xF8 && |bytes| >= 4 && IsTail(bytes[1]) && IsTail(bytes[2]) && IsTail(bytes[3]) then
      match Scalar((b0 - 0xF0) * 262144 + Low6(bytes[1]) * 4096 + Low6(bytes[2]) * 64 + Low6(bytes[3]), 0x1_0000)
      case Some(c) => Some((c, 4))
      case None => None
    else None
  }

  /** Strict decoding: None where a strict decoder raises. */
  function Decode(bytes: seq<Byte>): Option<string>
    decreases |bytes|
  {
    if bytes == [] then Some([])
    else match DecodeChar(bytes)
      case None => None
      case Some((c, n)) =>
        match Decode(bytes[n..])
        case None => None
        case Some(rest) => Some([c] + rest)
  }

  lemma DecodeEncodedChar(c: char, rest: seq<Byte>)
    ensures DecodeChar(EncodeChar(c) + rest) == Some((c, |EncodeChar(c)|))
  {
    var n := c as int;
    var e := EncodeChar(c);
    assert forall i :: 0 <= i < |e| ==> (e + rest)[i] == e[i];
    if 0x800 <= n < 0x1_0000 {
      assert n / 4096 * 64 + n / 64 % 64 == n / 64;
    } else if 0x1_0000 <= n {
      assert n / 262144 * 64 + n / 4096 % 64 == n / 4096;
      assert n / 4096 * 64 + n / 64 % 64 == n / 64;
    }
  }

  /** Strict decoding undoes encoding on every text. */
  lemma {:induction false} DecodeEncode(text: string)
    ensures Decode(Encode(text)) == Some(text)
  {
    if text != [] {
      var e := EncodeChar(text[0]);
      DecodeEncodedChar(text[0], Encode(text[1..]));
      assert (e + Encode(text[1..]))[|e|..] == Encode(text[1..]);
      DecodeEncode(text[1..]);
      assert [text[0]] + text[1..] == text;
    }
  }

  /** The digits of a number to the base 64. */
  lemma SixBits(high: nat, low: nat)
    requires low < 64
    ensures (high * 64 + low) / 64 == high && (high * 64 + low) % 64 == low
  {
  }

  lemma DecodedThree(b0: int, b1: int, b2: int, n: int)
    requires 0 <= b0 < 16 && 0 <= b1 < 64 && 0 <= b2 < 64 && n == b0 * 4096 + b1 * 64 + b2
    ensures n / 4096 == b0 && n / 64 % 64 == b1 && n % 64 == b2
  {
    SixBits(b0, b1);
    SixBits(b0 * 64 + b1, b2);
    assert n / 64 == b0 * 64 + b1;
  }

  lemma DecodedFour(b0: int, b1: int, b2: int, b3: int, n: int)
    requires 0 <= b0 < 8 && 0 <= b1 < 64 && 0 <= b2 < 64 && 0 <= b3 < 64
    requires n == b0 * 262144 + b1 * 4096 + b2 * 64 + b3
    ensures n / 262144 == b0 && n / 4096 % 64 == b1 && n / 64 % 64 == b2 && n % 64 == b3
  {
    SixBits(b0, b1);
    SixBits(b0 * 64 + b1, b2);
    SixBits((b0 * 64 + b1) * 64 + b2, b3);
    assert n / 64 == (b0 * 64 + b1) * 64 + b2 && n / 4096 == b0 * 64 + b1;
  }

  lemma DecodedCharIsEncoded(bytes: seq<Byte>)
    requires bytes != [] && DecodeChar(bytes).Some?
    ensures var (c, n) := DecodeChar(bytes).value; bytes[..n] == EncodeChar(c)
  {
    var (c, n) := DecodeChar(bytes).value;
    if n == 3 {
      DecodedThree(bytes[0] - 0xE0, Low6(bytes[1]), Low6(bytes[2]), c as int);
    } else if n == 4 {
      DecodedFour(bytes[0] - 0xF0, Low6(bytes[1]), Low6(bytes[2]), Low6(bytes[3]), c as int);
    } else if n == 2 {
      SixBits(bytes[0] - 0xC0, Low6(bytes[1]));
    }
  }

  /** Decoding is strict: the bytes a text is decoded from are its encoding and no others. */
  lemma {:induction false} DecodesExactlyTheEncoding(bytes: seq<Byte>, text: string)
    ensures Decode(bytes) == Some(text) <==> bytes == Encode(text)
    decreases |bytes|
  {
    DecodeEncode(text);
    if Decode(bytes) == Some(text) && bytes != [] {
      DecodedCharIsEncoded(bytes);
      var (c, n) := DecodeChar(bytes).value;
      DecodesExactlyTheEncoding(bytes[n..], text[1..]);
      assert bytes == bytes[..n] + bytes[n..] && text[0] == c;
    }
  }

  lemma {:induction false} EncodeConcat(a: string, b: string)
    ensures Encode(a + b) == Encode(a) + Encode(b)
  {
    if a == [] {
      assert a + b == b;
    } else {
      assert (a + b)[0] == a[0] && (a + b)[1..] == a[1..] + b;
      EncodeConcat(a[1..], b);
    }
  }

  lemma EncodeSnoc(text: string, k: nat)
    requires k < |text|
    ensures Encode(text[..k + 1]) == Encode(text[..k]) + EncodeChar(text[k])
  {
    assert text[..k + 1] == text[..k] + [text[k]];
    EncodeConcat(text[..k], [text[k]]);
    assert [text[k]][1..] == [];
  }

  // ----- character boundaries ---------------------------------------------------

  /** The byte offset of character k. */
  function Offset(text: string, k: nat): nat
    requires k <= |text|
  {
    |Encode(text[..k])|
  }

  predicate IsBoundary(text: string, offset: int) {
    exists k :: 0 <= k <= |text| && offset == Offset(text, k)
  }

  lemma OffsetSplits(text: string, j: nat, k: nat)
    requires j <= k <= |text|
    ensures Offset(text, j) <= Offset(text, k) <= |Encode(text)|
    ensures Encode(text)[Offset(text, j)..Offset(text, k)] == Encode(text[j..k])
    ensures j < k ==> Offset(text, j) < Offset(text, k)
  {
    assert text == text[..j] + text[j..k] + text[k..] && text[..k] == text[..j] + text[j..k];
    EncodeConcat(text[..j], text[j..k]);
    EncodeConcat(text[..k], text[k..]);
  }

  /** `character_boundaries`: every legal splice offset, ascending. */
  method CharacterBoundaries(text: string) returns (offsets: seq<nat>)
    ensures |offsets| == |text| + 1
    ensures forall k :: 0 <= k <= |text| ==> offsets[k] == Offset(text, k)
  {
    offsets := [0];
    var total := 0;
    for k := 0 to |text|
      invariant |offsets| == k + 1
      invariant total == Offset(text, k)
      invariant forall j :: 0 <= j <= k ==> offsets[j] == Offset(text, j)
    {
      total := total + |EncodeChar(text[k])|;
      EncodeSnoc(text, k);
      offsets := offsets + [total];
    }
  }

  /** An ASCII byte of the encoding is a whole character. */
  lemma {:induction false} AsciiByteIsACharacter(text: string, i: nat) returns (k: nat)
    requires i < |Encode(text)| && Encode(text)[i] < 0x80
    ensures k < |text| && Offset(text, k) == i && Offset(text, k + 1) == i + 1 && text[k] as int == Encode(text)[i]
  {
    var e := EncodeChar(text[0]);
    if i < |e| {
      k := 0;
      assert Encode(text)[i] == e[i];
    } else {
      var k' := AsciiByteIsACharacter(text[1..], i - |e|);
      k := k' + 1;
      assert text[..k] == [text[0]] + text[1..][..k - 1];
      EncodeConcat([text[0]], text[1..][..k - 1]);
      assert [text[0]][1..] == [];
    }
    EncodeSnoc(text, k);
  }

  // ----- byte search -------------------------------------------------------------

  predicate OccursAt(bytes: seq<Byte>, needle: seq<Byte>, i: int) {
    0 <= i && i + |needle| <= |bytes| && bytes[i..i + |needle|] == needle
  }

  /** `bytes.find(needle, start)`: the first occurrence at or after `start`. */
  function Find(bytes: seq<Byte>, needle: seq<Byte>, start: nat): (r: Option<nat>)
    ensures r.Some? ==> start <= r.value && OccursAt(bytes, needle, r.value)
    ensures r.Some? ==> forall i :: start <= i < r.value ==> !OccursAt(bytes, needle, i)
    ensures r.None? ==> forall i :: start <= i ==> !OccursAt(bytes, needle, i)
    decreases |bytes| - start
  {
    if start + |needle| > |bytes| then None
    else if bytes[start..start + |needle|] == needle then Some(start)
    else Find(bytes, needle, start + 1)
  }

  predicate IsTerminator(t: string) {
    t == "\n" || t == "\r\n" || t == "\r"
  }

  lemma TerminatorBytes(t: string)
    requires IsTerminator(t)
    ensures |Encode(t)| == |t|
    ensures forall i :: 0 <= i < |t| ==> Encode(t)[i] == t[i] as int < 0x80
  {
    assert Encode(t[1..]) == if |t| == 1 then [] else EncodeChar(t[1]) + Encode(t[1..][1..]);
    if |t| == 2 { assert t[1..][1..] == []; }
  }

  lemma OffsetsAreDistinct(text: string, j: nat, k: nat)
    requires j <= |text| && k <= |text| && Offset(text, j) == Offset(text, k)
    ensures j == k
  {
    if j < k { OffsetSplits(text, j, k); } else if k < j { OffsetSplits(text, k, j); }
  }

  /** Where a terminator's bytes occur, the terminator itself occurs, between characters. */
  lemma TerminatorOccursBetweenCharacters(text: string, t: string, i: nat) returns (k: nat)
    requires IsTerminator(t) && OccursAt(Encode(text), Encode(t), i)
    ensures k + |t| <= |text| && text[k..k + |t|] == t
    ensures Offset(text, k) == i && Offset(text, k + |t|) == i + |t|
  {
    TerminatorBytes(t);
    var bytes := Encode(text);
    var found := bytes[i..i + |t|];
    assert found == Encode(t) && found[0] == bytes[i];
    k := AsciiByteIsACharacter(text, i);
    assert text[k] == t[0];
    if |t| == 1 {
      assert text[k..k + 1] == t;
    } else {
      assert found[1] == bytes[i + 1];
      var k' := AsciiByteIsACharacter(text, i + 1);
      OffsetsAreDistinct(text, k', k + 1);
      assert text[k..k + 2] == [text[k], text[k + 1]] == t;
    }
  }
}
