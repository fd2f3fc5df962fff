/**
 The hex and escape forms of `bytea` (crates/nodus_executor/src/bytea.rs). Text is the sequence
 of its UTF-8 bytes.
 */
module Bytea {
  import opened Wrappers

  datatype Error = InvalidSyntax | InvalidHexDigit | OddDigits | InvalidEnd | InvalidSymbol

  const BACKSLASH: Byte := 92
  const NEWLINE: Byte := 10
  const PAD: Byte := 61

  /** `is_ascii_whitespace`. */
  predicate IsSpace(c: Byte) {
    c == 32 || c == 9 || c == 10 || c == 12 || c == 13
  }

  function NonSpace(s: Bytes): Bytes {
    if s == [] then [] else (if IsSpace(s[0]) then [] else [s[0]]) + NonSpace(s[1..])
  }

  lemma {:induction false} NonSpaceConcat(a: Bytes, b: Bytes)
    ensures NonSpace(a + b) == NonSpace(a) + NonSpace(b)
  {
    if a == [] {
      assert a + b == b;
    } else {
      assert (a + b)[1..] == a[1..] + b;
      NonSpaceConcat(a[1..], b);
    }
  }

  lemma {:induction false} NoSpaces(s: Bytes)
    requires forall i :: 0 <= i < |s| ==> !IsSpace(s[i])
    ensures NonSpace(s) == s
  {
    if s != [] { NoSpaces(s[1..]); }
  }

  function Prepend(out: Bytes, r: Result<Bytes, Error>): Result<Bytes, Error> {
    match r
    case Ok(rest) => Ok(out + rest)
    case Err(e) => Err(e)
  }

  lemma PrependTwice(a: Bytes, b: Bytes, r: Result<Bytes, Error>)
    ensures Prepend(a, Prepend(b, r)) == Prepend(a + b, r)
  {
    if r.Ok? { assert a + (b + r.value) == a + b + r.value; }
  }

  lemma PrependNothing(a: Bytes, r: Result<Bytes, Error>)
    ensures Prepend([], r) == r && Prepend(a, Ok([])) == Ok(a)
  {
    if r.Ok? { assert [] + r.value == r.value; }
    assert a + [] == a;
  }

  // -------------------------------------------------------------------------- hex

  function HexDigit(d: nat): Byte
    requires d < 16
  {
    if d < 10 then 48 + d else 87 + d
  }

  function HexValue(c: Byte): Option<nat> {
    if 48 <= c <= 57 then Some(c - 48)
    else if 97 <= c <= 102 then Some(c - 87)
    else if 65 <= c <= 70 then Some(c - 55)
    else None
  }

  /** Two digits for every byte. */
  function HexOf(bytes: Bytes): Bytes {
    if bytes == [] then [] else [HexDigit(bytes[0] / 16), HexDigit(bytes[0] % 16)] + HexOf(bytes[1..])
  }

  method Hex(bytes: Bytes) returns (out: Bytes)
    ensures out == HexOf(bytes)
  {
    hide HexDigit;
    out := [];
    for i := 0 to |bytes|
      invariant out + HexOf(bytes[i..]) == HexOf(bytes)
    {
      assert bytes[i..][1..] == bytes[i + 1..];
      var high, low := HexDigit(bytes[i] / 16), HexDigit(bytes[i] % 16);
      ghost var rest := HexOf(bytes[i + 1..]);
      assert out + ([high, low] + rest) == out + [high] + [low] + rest;
      out := out + [high];
      out := out + [low];
    }
  }

  /** What digit pairs stand for; the first bad pair decides the error. */
  function HexPairs(s: Bytes): Result<Bytes, Error> {
    if s == [] then Ok([])
    else if HexValue(s[0]).None? then Err(InvalidHexDigit)
    else if |s| == 1 then Err(OddDigits)
    else if HexValue(s[1]).None? then Err(InvalidHexDigit)
    else Prepend([PairByte(HexValue(s[0]).value, HexValue(s[1]).value)], HexPairs(s[2..]))
  }

  function PairByte(high: nat, low: nat): Byte {
    (16 * high + low) % 256
  }

  method DecodeHex(hex: Bytes) returns (r: Result<Bytes, Error>)
    ensures r == HexPairs(NonSpace(hex))
  {
    var s := NonSpace(hex);
    var out, i := [], 0;
    PrependNothing([], HexPairs(s));
    assert s[0..] == s;
    while i < |s|
      invariant i <= |s|
      invariant Prepend(out, HexPairs(s[i..])) == HexPairs(s)
      decreases |s| - i
    {
      var high := HexValue(s[i]);
      if high.None? { return Err(InvalidHexDigit); }
      if i + 1 == |s| { return Err(OddDigits); }
      var low := HexValue(s[i + 1]);
      if low.None? { return Err(InvalidHexDigit); }
      var b := PairByte(high.value, low.value);
      assert s[i..][2..] == s[i + 2..];
      PrependTwice(out, [b], HexPairs(s[i + 2..]));
      out := out + [b];
      i := i + 2;
    }
    PrependNothing(out, Ok([]));
    r := Ok(out);
  }

  lemma HexByteReads(b: Byte)
    ensures HexValue(HexDigit(b / 16)) == Some(b / 16) && HexValue(HexDigit(b % 16)) == Some(b % 16)
    ensures PairByte(b / 16, b % 16) == b
    ensures !IsSpace(HexDigit(b / 16)) && !IsSpace(HexDigit(b % 16))
  {
  }

  lemma {:induction false} HexReads(bytes: Bytes)
    ensures HexPairs(HexOf(bytes)) == Ok(bytes)
    ensures NonSpace(HexOf(bytes)) == HexOf(bytes)
  {
    if bytes != [] {
      HexReads(bytes[1..]);
      HexByteReads(bytes[0]);
      assert [bytes[0]] + bytes[1..] == bytes;
      var h := [HexDigit(bytes[0] / 16), HexDigit(bytes[0] % 16)];
      assert HexOf(bytes)[2..] == HexOf(bytes[1..]);
      NonSpaceConcat(h, HexOf(bytes[1..]));
      NoSpaces(h);
    }
  }

  // ----------------------------------------------------------------------- escape

  function EscapeByte(b: Byte): Bytes {
    if b == BACKSLASH then [BACKSLASH, BACKSLASH]
    else if 0x20 <= b <= 0x7e then [b]
    else [BACKSLASH, 48 + b / 64, 48 + b / 8 % 8, 48 + b % 8]
  }

  function EscapeOf(bytes: Bytes): Bytes {
    if bytes == [] then [] else EscapeByte(bytes[0]) + EscapeOf(bytes[1..])
  }

  method Escape(bytes: Bytes) returns (out: Bytes)
    ensures out == EscapeOf(bytes)
  {
    hide EscapeByte;
    out := [];
    for i := 0 to |bytes|
      invariant out + EscapeOf(bytes[i..]) == EscapeOf(bytes)
    {
      assert bytes[i..][1..] == bytes[i + 1..];
      assert out + (EscapeByte(bytes[i]) + EscapeOf(bytes[i + 1..])) == out + EscapeByte(bytes[i]) + EscapeOf(bytes[i + 1..]);
      out := out + EscapeByte(bytes[i]);
    }
  }

  predicate IsOctal(s: Bytes)
    requires |s| >= 4
  {
    48 <= s[1] <= 51 && 48 <= s[2] <= 55 && 48 <= s[3] <= 55
  }

  /** The byte that text starts with and how many characters write it. */
  function EscapeHead(s: Bytes): (r: Option<(Byte, nat)>)
    requires s != []
    ensures r.Some? ==> 1 <= r.value.1 <= |s|
  {
    if s[0] != BACKSLASH then Some((s[0], 1))
    else if |s| >= 2 && s[1] == BACKSLASH then Some((BACKSLASH, 2))
    else if |s| >= 4 && IsOctal(s) then Some(((s[1] - 48) * 64 + (s[2] - 48) * 8 + (s[3] - 48), 4))
    else None
  }

  function Unescape(s: Bytes): Result<Bytes, Error>
    decreases |s|
  {
    if s == [] then Ok([])
    else
      match EscapeHead(s)
      case None => Err(InvalidSyntax)
      case Some(head) => Prepend([head.0], Unescape(s[head.1..]))
  }

  predicate HexPrefixed(text: Bytes) {
    |text| >= 2 && text[0] == BACKSLASH && (text[1] == 120 || text[1] == 88)
  }

  function InputOf(text: Bytes): Result<Bytes, Error> {
    if HexPrefixed(text) then HexPairs(NonSpace(text[2..])) else Unescape(text)
  }

  method ParseInput(text: Bytes) returns (r: Result<Bytes, Error>)
    ensures r == InputOf(text)
  {
    hide EscapeHead, HexPairs;
    if HexPrefixed(text) {
      r := DecodeHex(text[2..]);
      return;
    }
    var out, i := [], 0;
    PrependNothing([], Unescape(text));
    assert text[0..] == text;
    while i < |text|
      invariant i <= |text|
      invariant Prepend(out, Unescape(text[i..])) == Unescape(text)
      decreases |text| - i
    {
      var head := EscapeHead(text[i..]);
      if head.None? { return Err(InvalidSyntax); }
      var (b, n) := head.value;
      assert text[i..][n..] == text[i + n..];
      PrependTwice(out, [b], Unescape(text[i + n..]));
      out := out + [b];
      i := i + n;
    }
    PrependNothing(out, Ok([]));
    r := Ok(out);
  }

  lemma EscapeByteReads(b: Byte, rest: Bytes)
    ensures EscapeHead(EscapeByte(b) + rest) == Some((b, |EscapeByte(b)|))
    ensures !HexPrefixed(EscapeByte(b) + rest)
  {
    var s := EscapeByte(b) + rest;
    if b == BACKSLASH {
      assert s[0] == BACKSLASH && s[1] == BACKSLASH;
    } else if 0x20 <= b <= 0x7e {
      assert s[0] == b;
    } else {
      OctalDigits(b);
      assert s[0] == BACKSLASH && s[1] == 48 + b / 64 && s[2] == 48 + b / 8 % 8 && s[3] == 48 + b % 8;
    }
  }

  lemma OctalDigits(b: Byte)
    ensures b / 64 < 4 && b / 8 % 8 < 8 && b % 8 < 8
    ensures (b / 64) * 64 + (b / 8 % 8) * 8 + b % 8 == b
  {
  }

  lemma {:induction false} EscapeReads(bytes: Bytes)
    ensures Unescape(EscapeOf(bytes)) == Ok(bytes) && !HexPrefixed(EscapeOf(bytes))
  {
    hide EscapeByte, EscapeHead, HexPrefixed;
    if bytes == [] {
      NothingPrefixed();
    } else {
      var e, rest := EscapeByte(bytes[0]), EscapeOf(bytes[1..]);
      EscapeReads(bytes[1..]);
      EscapeByteReads(bytes[0], rest);
      assert (e + rest)[|e|..] == rest && [bytes[0]] + bytes[1..] == bytes;
    }
  }

  lemma NothingPrefixed()
    ensures !HexPrefixed([])
  {
  }

  /** Escaped bytes read back as themselves. */
  lemma EscapeRoundTrip(bytes: Bytes)
    ensures InputOf(EscapeOf(bytes)) == Ok(bytes)
  {
    EscapeReads(bytes);
  }

  /** `hex_text`: what a `bytea` column prints. */
  function HexText(bytes: Bytes): Bytes {
    [BACKSLASH, 120] + HexOf(bytes)
  }

  /** `from_stored`. */
  function FromStored(text: Bytes): Bytes {
    if |text| >= 2 && text[..2] == [BACKSLASH, 120] && HexPairs(NonSpace(text[2..])).Ok?
    then HexPairs(NonSpace(text[2..])).value
    else text
  }

  /** Hex text reads back as itself, as input and from storage. */
  lemma HexRoundTrip(bytes: Bytes)
    ensures InputOf(HexText(bytes)) == Ok(bytes) && FromStored(HexText(bytes)) == bytes
  {
    HexReads(bytes);
    assert HexText(bytes)[2..] == HexOf(bytes);
  }
}
