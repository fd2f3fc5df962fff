/**
 Base64 (crates/nodus_executor/src/bytea.rs, `base64` and `decode_base64`): section 4 of
 RFC 4648, broken after 76 characters as section 6.8 of RFC 2045 asks.
 */
module Base64 {
  import opened Wrappers
  import opened Bytea
  import opened Arithmetic

  const LINE := 76

  /** The alphabet. */
  function Symbol(v: nat): Byte
    requires v < 64
  {
    if v < 26 then 65 + v else if v < 52 then 71 + v else if v < 62 then v - 4 else if v == 62 then 43 else 47
  }

  /** The place of a character in the alphabet. */
  function Value(c: Byte): (r: Option<nat>)
    ensures r.Some? ==> r.value < 64 && Symbol(r.value) == c
  {
    if 65 <= c <= 90 then Some(c - 65)
    else if 97 <= c <= 122 then Some(c - 71)
    else if 48 <= c <= 57 then Some(c + 4)
    else if c == 43 then Some(62)
    else if c == 47 then Some(63)
    else None
  }

  lemma SymbolReads(v: nat)
    requires v < 64
    ensures Value(Symbol(v)) == Some(v) && !IsSpace(Symbol(v)) && Symbol(v) != PAD
  {
  }

  // ---------------------------------------------------------------------- encoding

  /** The four characters of a group of one to three bytes. */
  function Quad(chunk: Bytes): (r: Bytes)
    requires 1 <= |chunk| <= 3
    ensures |r| == 4
  {
    var b0 := chunk[0];
    var b1: Byte, b2: Byte := if |chunk| >= 2 then chunk[1] else 0, if |chunk| >= 3 then chunk[2] else 0;
    [Symbol(b0 / 4), Symbol(b0 % 4 * 16 + b1 / 16),
     if |chunk| >= 2 then Symbol(b1 % 16 * 4 + b2 / 64) else PAD,
     if |chunk| >= 3 then Symbol(b2 % 64) else PAD]
  }

  function EncodeOf(bytes: Bytes): Bytes {
    if bytes == [] then []
    else if |bytes| <= 3 then Quad(bytes)
    else Quad(bytes[..3]) + EncodeOf(bytes[3..])
  }

  /** The characters after the last line break. */
  function Tail(s: Bytes): nat {
    if s == [] || s[|s| - 1] == NEWLINE then 0 else 1 + Tail(s[..|s| - 1])
  }

  /** No line is longer than 76 characters. */
  predicate ShortLines(s: Bytes) {
    s == [] || (ShortLines(s[..|s| - 1]) && Tail(s) <= LINE)
  }

  lemma InitSlice(s: Bytes, i: nat, j: nat)
    requires i <= j < |s|
    ensures s[..|s| - 1][i..j] == s[i..j]
  {
  }

  /** That is, any stretch of more than 76 characters has a line break in it. */
  lemma {:induction false} ShortLinesMeaning(s: Bytes, i: nat, j: nat)
    requires ShortLines(s) && i <= j <= |s| && NEWLINE !in s[i..j]
    ensures j - i <= LINE
  {
    if j < |s| {
      var init := s[..|s| - 1];
      InitSlice(s, i, j);
      ShortLinesMeaning(init, i, j);
    } else {
      TailReaches(s, i);
    }
  }

  lemma {:induction false} TailReaches(s: Bytes, i: nat)
    requires i <= |s| && NEWLINE !in s[i..]
    ensures Tail(s) >= |s| - i
  {
    if i < |s| {
      var n := |s| - 1;
      assert s[n] in s[i..];
      assert forall x :: x in s[..n][i..] ==> x in s[i..];
      TailReaches(s[..n], i);
    }
  }

  lemma PushLines(out: Bytes, c: Byte)
    requires ShortLines(out) && (c == NEWLINE || Tail(out) < LINE)
    ensures ShortLines(out + [c]) && Tail(out + [c]) == if c == NEWLINE then 0 else Tail(out) + 1
  {
    assert (out + [c])[..|out|] == out;
  }

  /** The bytes of a group as one 24-bit number. */
  function Group(chunk: Bytes): nat
    requires 1 <= |chunk| <= 3
  {
    var b0: int, b1: int, b2: int := chunk[0], if |chunk| >= 2 then chunk[1] else 0, if |chunk| >= 3 then chunk[2] else 0;
    b0 * 65536 + b1 * 256 + b2
  }

  lemma SixBits(b0: Byte, b1: Byte, b2: Byte)
    ensures var n := b0 * 65536 + b1 * 256 + b2;
            && n / 262144 % 64 == b0 / 4
            && n / 4096 % 64 == b0 % 4 * 16 + b1 / 16
            && n / 64 % 64 == b1 % 16 * 4 + b2 / 64
            && n % 64 == b2 % 64
  {
    var n := b0 * 65536 + b1 * 256 + b2;
    QuotientIs(n, 262144, b0 / 4, b0 % 4 * 65536 + b1 * 256 + b2);
    QuotientIs(n, 4096, b0 * 16 + b1 / 16, b1 % 16 * 256 + b2);
    QuotientIs(n, 64, b0 * 1024 + b1 * 4 + b2 / 64, b2 % 64);
    RemainderIs(b0 * 16 + b1 / 16, b0 / 4, b0 % 4 * 16 + b1 / 16);
    RemainderIs(b0 * 1024 + b1 * 4 + b2 / 64, b0 * 16 + b1 / 16, b1 % 16 * 4 + b2 / 64);
    RemainderIs(n, b0 * 1024 + b1 * 4 + b2 / 64, b2 % 64);
    RemainderIs(b0 / 4, 0, b0 / 4);
  }

  lemma QuotientIs(n: nat, d: nat, q: nat, r: nat)
    requires r < d && n == d * q + r
    ensures n / d == q
  {
    Distribute(q, 1, d);
    DivIs(n, d, q);
  }

  lemma RemainderIs(n: nat, q: nat, r: nat)
    requires r < 64 && n == 64 * q + r
    ensures n % 64 == r
  {
  }

  /** The i-th character of a group. */
  function CharOf(chunk: Bytes, n: nat, i: nat): Byte
    requires 1 <= |chunk| <= 3 && i < 4
  {
    if i > |chunk| then PAD
    else Symbol((if i == 0 then n / 262144 else if i == 1 then n / 4096 else if i == 2 then n / 64 else n) % 64)
  }

  lemma CharIs(chunk: Bytes, i: nat)
    requires 1 <= |chunk| <= 3 && i < 4
    ensures CharOf(chunk, Group(chunk), i) == Quad(chunk)[i] && Quad(chunk)[i] != NEWLINE
  {
    SixBits(chunk[0], if |chunk| >= 2 then chunk[1] else 0, if |chunk| >= 3 then chunk[2] else 0);
  }

  /** The four pushes of the inner loop. */
  method PushQuad(out: Bytes, chunk: Bytes) returns (r: Bytes)
    requires 1 <= |chunk| <= 3 && ShortLines(out) && Tail(out) + 4 <= LINE
    ensures r == out + Quad(chunk) && ShortLines(r) && Tail(r) == Tail(out) + 4
  {
    hide ShortLines, Tail, Quad, Group, CharOf;
    var n := Group(chunk);
    r := out;
    for i := 0 to 4
      invariant r == out + Quad(chunk)[..i] && ShortLines(r) && Tail(r) == Tail(out) + i
    {
      CharIs(chunk, i);
      var c := CharOf(chunk, n, i);
      PushLines(r, c);
      assert Quad(chunk)[..i + 1] == Quad(chunk)[..i] + [c];
      r := r + [c];
    }
    assert Quad(chunk)[..4] == Quad(chunk);
  }

  method Encode(bytes: Bytes) returns (out: Bytes)
    ensures NonSpace(out) == EncodeOf(bytes)
    ensures ShortLines(out)
  {
    hide Quad, NonSpace, EncodeOf, ShortLines;
    out := [];
    NothingYet(bytes);
    var line, i := 0, 0;
    while i < |bytes|
      invariant i <= |bytes| && line == Tail(out) && line % 4 == 0 && ShortLines(out)
      invariant NonSpace(out) + EncodeOf(bytes[i..]) == EncodeOf(bytes)
    {
      if line == LINE {
        PushLines(out, NEWLINE);
        BreakIsSpace(out);
        out := out + [NEWLINE];
        line := 0;
      }
      assert line <= LINE by { TailShort(out); }
      var end := if i + 3 <= |bytes| then i + 3 else |bytes|;
      QuadNext(bytes, i, end);
      QuadIsSolid(out, bytes[i..end]);
      out := PushQuad(out, bytes[i..end]);
      line := line + 4;
      i := end;
    }
    assert bytes[i..] == [] && NonSpace(out) + [] == NonSpace(out);
  }

  lemma TailShort(s: Bytes)
    requires ShortLines(s)
    ensures Tail(s) <= LINE
  {
  }

  lemma NothingYet(bytes: Bytes)
    ensures NonSpace([]) + EncodeOf(bytes[0..]) == EncodeOf(bytes) && EncodeOf([]) == [] && ShortLines([])
  {
    assert bytes[0..] == bytes && [] + EncodeOf(bytes) == EncodeOf(bytes);
  }

  lemma BreakIsSpace(out: Bytes)
    ensures NonSpace(out + [NEWLINE]) == NonSpace(out)
  {
    NonSpaceConcat(out, [NEWLINE]);
  }

  lemma QuadIsSolid(out: Bytes, chunk: Bytes)
    requires 1 <= |chunk| <= 3
    ensures NonSpace(out + Quad(chunk)) == NonSpace(out) + Quad(chunk)
    ensures NonSpace(Quad(chunk)) == Quad(chunk)
  {
    NonSpaceConcat(out, Quad(chunk));
    NoSpaces(Quad(chunk));
  }

  lemma QuadNext(bytes: Bytes, i: nat, end: nat)
    requires i < |bytes| && end == if i + 3 <= |bytes| then i + 3 else |bytes|
    ensures EncodeOf(bytes[i..]) == Quad(bytes[i..end]) + EncodeOf(bytes[end..])
  {
    var s := bytes[i..];
    if |s| <= 3 {
      assert bytes[end..] == [] && s == bytes[i..end];
    } else {
      assert s[..3] == bytes[i..end] && s[3..] == bytes[end..];
    }
  }

  // ---------------------------------------------------------------------- decoding

  const WORD := 0x1_0000_0000

  datatype State = State(out: Bytes, acc: nat, bits: nat, padding: nat, count: nat)

  /** The accumulator is 32 bits wide: shifting drops what does not fit. */
  function Shifted(acc: nat, v: nat): nat {
    (acc * 64 + v) % WORD
  }

  function Accept(st: State, v: nat): State {
    var acc, bits := Shifted(st.acc, v), st.bits + 6;
    if bits >= 8 then st.(acc := acc, bits := bits - 8, out := st.out + [acc / Pow2(bits - 8) % 256], count := st.count + 1)
    else st.(acc := acc, bits := bits, count := st.count + 1)
  }

  function Step(st: State, c: Byte): Result<State, Error> {
    if c == PAD then Ok(st.(padding := st.padding + 1, count := st.count + 1))
    else if st.padding > 0 then Err(InvalidEnd)
    else
      match Value(c)
      case None => Err(InvalidSymbol)
      case Some(v) => Ok(Accept(st, v))
  }

  function Run(st: State, s: Bytes): Result<State, Error>
    decreases |s|
  {
    if s == [] then Ok(st)
    else if IsSpace(s[0]) then Run(st, s[1..])
    else
      match Step(st, s[0])
      case Err(e) => Err(e)
      case Ok(next) => Run(next, s[1..])
  }

  function Finish(r: Result<State, Error>): Result<Bytes, Error> {
    match r
    case Err(e) => Err(e)
    case Ok(st) => if st.count % 4 != 0 || st.padding > 2 then Err(InvalidEnd) else Ok(st.out)
  }

  function DecodeOf(text: Bytes): Result<Bytes, Error> {
    Finish(Run(State([], 0, 0, 0, 0), text))
  }

  method Decode(text: Bytes) returns (r: Result<Bytes, Error>)
    ensures r == DecodeOf(text)
  {
    hide Step;
    var st := State([], 0, 0, 0, 0);
    assert text[0..] == text;
    for i := 0 to |text|
      invariant Run(st, text[i..]) == Run(State([], 0, 0, 0, 0), text)
    {
      assert text[i..][1..] == text[i + 1..];
      if IsSpace(text[i]) { continue; }
      var next := Step(st, text[i]);
      if next.Err? { return Err(next.error); }
      st := next.value;
    }
    r := if st.count % 4 != 0 || st.padding > 2 then Err(InvalidEnd) else Ok(st.out);
  }

  /** Line breaks and other white space do not matter. */
  lemma {:induction false} RunNonSpace(st: State, s: Bytes)
    ensures Run(st, s) == Run(st, NonSpace(s))
    decreases |s|
  {
    hide Step;
    if s != [] {
      if IsSpace(s[0]) {
        RunNonSpace(st, s[1..]);
        assert [] + NonSpace(s[1..]) == NonSpace(s[1..]);
      } else {
        var t := NonSpace(s);
        assert t[0] == s[0] && t[1..] == NonSpace(s[1..]);
        var next := Step(st, s[0]);
        if next.Ok? { RunNonSpace(next.value, s[1..]); }
      }
    }
  }

  // --------------------------------------------------------------------- round trip

  lemma Powers()
    ensures Pow2(0) == 1 && Pow2(2) == 4 && Pow2(4) == 16
  {
    assert Pow2(1) == 2 && Pow2(3) == 8;
  }

  // Only the last twelve bits of the accumulator are ever read.
  lemma ShiftedLow(acc: nat, v: nat)
    requires v < 64
    ensures Shifted(acc, v) % 4096 == acc % 64 * 64 + v
    ensures Shifted(acc, v) % 64 == v
  {
    var k, m := acc / 64, acc % 64;
    var x := 4096 * k + (m * 64 + v);
    assert acc * 64 + v == x;
    Truncated(x);
    Remainder(k, m * 64 + v);
    LowSix(Shifted(acc, v), m, v);
  }

  lemma LowSix(y: nat, m: nat, v: nat)
    requires v < 64 && y % 4096 == m * 64 + v
    ensures y % 64 == v
  {
    RemainderIs(y, 64 * (y / 4096) + m, v);
  }

  lemma Truncated(x: nat)
    ensures x % WORD % 4096 == x % 4096
  {
    var q := x / WORD;
    assert x == 4096 * (1048576 * q) + x % WORD;
  }

  lemma Remainder(k: nat, r: nat)
    requires r < 4096
    ensures (4096 * k + r) % 4096 == r
  {
  }

  lemma LowByte(acc: nat)
    ensures acc / 16 % 256 == acc % 4096 / 16
    ensures acc / 4 % 256 == acc % 4096 % 1024 / 4
    ensures acc % 256 == acc % 4096 % 256
  {
    var k, r := acc / 4096, acc % 4096;
    DropFour(k, r);
    DropTwo(4 * k + r / 1024, r % 1024);
    DropNone(16 * k + r / 256, r % 256);
  }

  lemma DropFour(k: nat, r: nat)
    requires r < 4096
    ensures (4096 * k + r) / 16 % 256 == r / 16
  {
    assert (4096 * k + r) / 16 == 256 * k + r / 16;
  }

  lemma DropTwo(k: nat, r: nat)
    requires r < 1024
    ensures (1024 * k + r) / 4 % 256 == r / 4
  {
    assert (1024 * k + r) / 4 == 256 * k + r / 4;
  }

  lemma DropNone(k: nat, r: nat)
    requires r < 256
    ensures (256 * k + r) % 256 == r
  {
  }

  /** The state after the characters of a full group, from any accumulator. */
  lemma RunSymbol(st: State, v: nat, rest: Bytes)
    requires v < 64 && st.padding == 0
    ensures Run(st, [Symbol(v)] + rest) == Run(Accept(st, v), rest)
  {
    SymbolReads(v);
    assert ([Symbol(v)] + rest)[1..] == rest;
  }

  // The first two characters of a group give its first byte.
  lemma TwoSymbols(out: Bytes, acc: nat, count: nat, b0: Byte, h: nat) returns (acc': nat)
    requires h < 16
    ensures Accept(Accept(State(out, acc, 0, 0, count), b0 / 4), b0 % 4 * 16 + h) == State(out + [b0], acc', 4, 0, count + 2)
    ensures acc' % 64 == b0 % 4 * 16 + h
  {
    hide Shifted, Pow2;
    var a1 := Shifted(acc, b0 / 4);
    acc' := Shifted(a1, b0 % 4 * 16 + h);
    ShiftedLow(acc, b0 / 4);
    ShiftedLow(a1, b0 % 4 * 16 + h);
    LowByte(acc');
    Powers();
    assert acc' % 4096 == b0 / 4 * 64 + b0 % 4 * 16 + h;
  }

  lemma SecondByte(m: nat, h: nat, l: nat, q: nat)
    requires m % 16 == h && l < 16 && q < 4
    ensures (m * 64 + (l * 4 + q)) % 1024 / 4 == h * 16 + l
  {
    var x := h * 16 + l;
    assert m * 64 + (l * 4 + q) == 1024 * (m / 16) + (4 * x + q);
    Below1024(m / 16, 4 * x + q);
    Quarter(x, q);
  }

  lemma Below1024(k: nat, r: nat)
    requires r < 1024
    ensures (1024 * k + r) % 1024 == r
  {
  }

  lemma Quarter(x: nat, q: nat)
    requires q < 4
    ensures (4 * x + q) / 4 == x
  {
  }

  lemma ThirdByte(m: nat, q: nat, r: nat)
    requires m % 4 == q && r < 64
    ensures (m * 64 + r) % 256 == q * 64 + r
  {
    assert m * 64 + r == 256 * (m / 4) + (64 * q + r);
    DropNone(m / 4, 64 * q + r);
  }

  // The third gives the second byte.
  lemma ThirdSymbol(out: Bytes, acc: nat, count: nat, h: nat, l: nat, q: nat) returns (acc': nat)
    requires h < 16 && l < 16 && q < 4 && acc % 64 % 16 == h
    ensures Accept(State(out, acc, 4, 0, count), l * 4 + q) == State(out + [h * 16 + l], acc', 2, 0, count + 1)
    ensures acc' % 64 == l * 4 + q
  {
    hide Shifted, Pow2;
    acc' := Shifted(acc, l * 4 + q);
    ShiftedLow(acc, l * 4 + q);
    LowByte(acc');
    SecondByte(acc % 64, h, l, q);
    Powers();
  }

  // The fourth gives the third byte.
  lemma FourthSymbol(out: Bytes, acc: nat, count: nat, q: nat, r: nat) returns (acc': nat)
    requires q < 4 && r < 64 && acc % 64 % 4 == q
    ensures Accept(State(out, acc, 2, 0, count), r) == State(out + [q * 64 + r], acc', 0, 0, count + 1)
  {
    hide Shifted, Pow2;
    acc' := Shifted(acc, r);
    ShiftedLow(acc, r);
    LowByte(acc');
    ThirdByte(acc % 64, q, r);
    Powers();
  }

  lemma RunTwo(out: Bytes, acc: nat, count: nat, b0: Byte, h: nat, rest: Bytes) returns (acc': nat)
    requires h < 16
    ensures Run(State(out, acc, 0, 0, count), [Symbol(b0 / 4), Symbol(b0 % 4 * 16 + h)] + rest) ==
              Run(State(out + [b0], acc', 4, 0, count + 2), rest)
    ensures acc' % 64 == b0 % 4 * 16 + h
  {
    hide Accept, Symbol, Run;
    var st := State(out, acc, 0, 0, count);
    var v0, v1 := b0 / 4, b0 % 4 * 16 + h;
    assert [Symbol(v0), Symbol(v1)] + rest == [Symbol(v0)] + ([Symbol(v1)] + rest);
    RunSymbol(st, v0, [Symbol(v1)] + rest);
    AcceptPadding(st, v0);
    RunSymbol(Accept(st, v0), v1, rest);
    acc' := TwoSymbols(out, acc, count, b0, h);
  }

  lemma AcceptPadding(st: State, v: nat)
    ensures Accept(st, v).padding == st.padding
  {
  }

  lemma RunThree(out: Bytes, acc: nat, count: nat, b0: Byte, b1: Byte, q: nat, rest: Bytes) returns (acc': nat)
    requires q < 4
    ensures Run(State(out, acc, 0, 0, count), [Symbol(b0 / 4), Symbol(b0 % 4 * 16 + b1 / 16), Symbol(b1 % 16 * 4 + q)] + rest) ==
              Run(State(out + [b0, b1], acc', 2, 0, count + 3), rest)
    ensures acc' % 64 == b1 % 16 * 4 + q
  {
    hide Accept, Symbol, Run;
    var v2 := b1 % 16 * 4 + q;
    var tail := [Symbol(v2)] + rest;
    assert [Symbol(b0 / 4), Symbol(b0 % 4 * 16 + b1 / 16), Symbol(v2)] + rest ==
      [Symbol(b0 / 4), Symbol(b0 % 4 * 16 + b1 / 16)] + tail;
    var a2 := RunTwo(out, acc, count, b0, b1 / 16, tail);
    RunSymbol(State(out + [b0], a2, 4, 0, count + 2), v2, rest);
    assert a2 % 64 % 16 == b1 / 16;
    acc' := ThirdSymbol(out + [b0], a2, count + 2, b1 / 16, b1 % 16, q);
    assert out + [b0] + [b1] == out + [b0, b1];
  }

  lemma RunPad(st: State, rest: Bytes)
    ensures Run(st, [PAD] + rest) == Run(st.(padding := st.padding + 1, count := st.count + 1), rest)
  {
    assert ([PAD] + rest)[1..] == rest;
  }

  lemma RunNothing(st: State)
    ensures Run(st, []) == Ok(st)
  {
  }

  lemma RunOne(out: Bytes, acc: nat, count: nat, b0: Byte)
    ensures Finish(Run(State(out, acc, 0, 0, count), Quad([b0]))) == if count % 4 == 0 then Ok(out + [b0]) else Err(InvalidEnd)
  {
    hide Symbol, Run;
    var a := RunTwo(out, acc, count, b0, 0, [PAD, PAD]);
    var st := State(out + [b0], a, 4, 0, count + 2);
    RunPad(st, [PAD]);
    RunPad(st.(padding := 1, count := count + 3), []);
    RunNothing(st.(padding := 2, count := count + 4));
    assert [PAD] + [PAD] == [PAD, PAD] && [PAD] + [] == [PAD];
    assert Quad([b0]) == [Symbol(b0 / 4), Symbol(b0 % 4 * 16 + 0)] + [PAD, PAD];
  }

  lemma RunPair(out: Bytes, acc: nat, count: nat, b0: Byte, b1: Byte)
    ensures Finish(Run(State(out, acc, 0, 0, count), Quad([b0, b1]))) == if count % 4 == 0 then Ok(out + [b0, b1]) else Err(InvalidEnd)
  {
    hide Symbol, Run;
    var a := RunThree(out, acc, count, b0, b1, 0, [PAD]);
    var st := State(out + [b0, b1], a, 2, 0, count + 3);
    RunPad(st, []);
    RunNothing(st.(padding := 1, count := count + 4));
    assert [PAD] + [] == [PAD];
    assert Quad([b0, b1]) == [Symbol(b0 / 4), Symbol(b0 % 4 * 16 + b1 / 16), Symbol(b1 % 16 * 4 + 0)] + [PAD];
  }

  lemma RunFull(out: Bytes, acc: nat, count: nat, b0: Byte, b1: Byte, b2: Byte, rest: Bytes) returns (acc': nat)
    ensures Run(State(out, acc, 0, 0, count), Quad([b0, b1, b2]) + rest) == Run(State(out + [b0, b1, b2], acc', 0, 0, count + 4), rest)
  {
    hide Symbol, Run, Accept;
    var tail := [Symbol(b2 % 64)] + rest;
    var head := [Symbol(b0 / 4), Symbol(b0 % 4 * 16 + b1 / 16), Symbol(b1 % 16 * 4 + b2 / 64)];
    assert Quad([b0, b1, b2]) + rest == head + tail;
    var a := RunThree(out, acc, count, b0, b1, b2 / 64, tail);
    RunSymbol(State(out + [b0, b1], a, 2, 0, count + 3), b2 % 64, rest);
    acc' := FourthSymbol(out + [b0, b1], a, count + 3, b2 / 64, b2 % 64);
    assert out + [b0, b1] + [b2] == out + [b0, b1, b2];
  }

  /** From any group boundary, whatever the accumulator still holds, the rest decodes. */
  lemma {:induction false} RunsBack(out: Bytes, acc: nat, count: nat, bytes: Bytes)
    requires count % 4 == 0
    ensures Finish(Run(State(out, acc, 0, 0, count), EncodeOf(bytes))) == Ok(out + bytes)
    decreases |bytes|
  {
    hide Run, Quad;
    if bytes == [] {
      RunNothing(State(out, acc, 0, 0, count));
      assert out + [] == out;
    } else if |bytes| == 1 {
      assert bytes == [bytes[0]];
      RunOne(out, acc, count, bytes[0]);
    } else if |bytes| == 2 {
      assert bytes == [bytes[0], bytes[1]];
      RunPair(out, acc, count, bytes[0], bytes[1]);
    } else {
      var group, rest := bytes[..3], bytes[3..];
      assert group == [bytes[0], bytes[1], bytes[2]] && bytes == group + rest;
      FullGroup(bytes);
      var a := RunFull(out, acc, count, bytes[0], bytes[1], bytes[2], EncodeOf(rest));
      RunsBack(out + group, a, count + 4, rest);
      assert out + group + rest == out + bytes;
    }
  }

  lemma FullGroup(bytes: Bytes)
    requires |bytes| >= 3
    ensures EncodeOf(bytes) == Quad(bytes[..3]) + EncodeOf(bytes[3..])
  {
    if |bytes| == 3 {
      assert bytes[..3] == bytes && bytes[3..] == [];
      assert Quad(bytes) + [] == Quad(bytes);
    }
  }

  /** Any text whose characters, line breaks aside, encode the bytes decodes to them. */
  lemma DecodesBack(text: Bytes, bytes: Bytes)
    requires NonSpace(text) == EncodeOf(bytes)
    ensures DecodeOf(text) == Ok(bytes)
  {
    hide Run;
    RunNonSpace(State([], 0, 0, 0, 0), text);
    RunsBack([], 0, 0, bytes);
    assert [] + bytes == bytes;
  }

  /** Encoding then decoding, by the two methods. */
  method RoundTrip(bytes: Bytes) returns (text: Bytes, r: Result<Bytes, Error>)
    ensures r == Ok(bytes) && ShortLines(text)
  {
    text := Encode(bytes);
    r := Decode(text);
    DecodesBack(text, bytes);
  }
}
