/**
 Reading what was printed: `parse(format(iv))` gives `iv` back, whatever the signs of its 64-bit
 parts, exactly when `iv` is `Printable`: floats hold its date, and its time is not the smallest.
 */
module IntervalRoundTrip {
  import opened Wrappers
  import opened Arithmetic
  import opened Intervals
  import opened Decimals
  import opened Floats
  import opened Words
  import opened IntervalText
  import opened IntervalParse

  // -------------------------------------------------------------- characters used

  predicate NumberChar(c: char) {
    IsDigit(c) || c == '-' || c == '+' || c == ':' || c == '.'
  }

  ghost predicate NumberChars(s: string) {
    forall i :: 0 <= i < |s| ==> NumberChar(s[i])
  }

  lemma PrintChars(x: int, before: bool)
    ensures NumberWord(x, before) != [] && NumberChars(NumberWord(x, before)) && ':' !in NumberWord(x, before)
  {
    DigitsRead(if x < 0 then -x else x);
  }

  lemma PaddedChars(x: int, width: nat)
    ensures Padded(x, width) != [] && NumberChars(Padded(x, width))
    ensures ':' !in Padded(x, width)
    ensures IsDigit(Padded(x, width)[|Padded(x, width)| - 1])
  {
    DigitsRead(if x < 0 then -x else x);
  }

  lemma {:induction false} TrimmedChars(s: string)
    requires NumberChars(s) && ':' !in s
    ensures NumberChars(TrimZeros(s)) && ':' !in TrimZeros(s)
  {
    if s != [] && s[|s| - 1] == '0' { TrimmedChars(s[..|s| - 1]); }
  }

  lemma SecondsChars(m: int)
    ensures NumberChars(SecondsText(m)) && ':' !in SecondsText(m) && SecondsText(m) != []
  {
    hide Padded, Quot, Rem, TrimZeros;
    PaddedChars(Quot(m, MICROS_PER_SECOND), 2);
    PaddedChars(Rem(m, MICROS_PER_SECOND), 6);
    TrimmedChars(Padded(Rem(m, MICROS_PER_SECOND), 6));
  }

  lemma ClockChars(m: int, before: bool)
    ensures NumberChars(ClockWord(m, before)) && ':' in ClockWord(m, before)
  {
    hide Padded, Quot, Rem, SecondsText;
    var a := Magnitude(m);
    PaddedChars(Quot(a, MICROS_PER_HOUR), 2);
    PaddedChars(Quot(Rem(a, MICROS_PER_HOUR), MICROS_PER_MINUTE), 2);
    SecondsChars(Rem(a, MICROS_PER_MINUTE));
    var hours := Padded(Quot(a, MICROS_PER_HOUR), 2);
    assert ClockBody(a)[|hours|] == ':';
  }

  // ------------------------------------------------------------- clocks read back

  lemma Pow10Sum(a: nat, b: nat)
    ensures Pow10(a) * Pow10(b) == Pow10(a + b)
  {
    if a > 0 {
      Pow10Sum(a - 1, b);
      Shift(Pow10(b), Pow10(a - 1), 0);
    }
  }

  lemma SixDigits()
    ensures Pow10(6) == MICROS_PER_SECOND
  {
    assert Pow10(1) == 10 && Pow10(2) == 100 && Pow10(3) == 1000 && Pow10(4) == 10_000 && Pow10(5) == 100_000;
  }

  // A decimal of `r` millionths is `r` millionths.
  lemma MillionthsValue(d: Decimal, r: nat)
    requires d.mantissa * MICROS_PER_SECOND == r * Pow10(d.scale)
    ensures d.Value() * 1_000_000.0 == r as real
  {
    var p := Pow10(d.scale);
    Quotient(d.mantissa as real, p as real);
    assert (r * p) as real == r as real * p as real;
    assert (d.Value() * 1_000_000.0) * p as real == (d.Value() * p as real) * 1_000_000.0;
    CancelScale(d.Value() * 1_000_000.0, r as real, p as real);
  }

  // `whole` seconds and a fraction of six digits, trimmed to `k`.
  lemma SecondsValue(whole: nat, t: string, fraction: nat)
    requires AllDigits(t) && |t| <= 6 && fraction == Number(t) * Pow10(6 - |t|)
    ensures (whole * Pow10(|t|) + Number(t)) * MICROS_PER_SECOND == (whole * MICROS_PER_SECOND + fraction) * Pow10(|t|)
  {
    Pow10Sum(6 - |t|, |t|);
    SixDigits();
    Rescale(whole, Number(t), Pow10(|t|), Pow10(6 - |t|), MICROS_PER_SECOND);
  }

  lemma Rescale(w: int, n: int, p: int, q: int, k: int)
    requires q * p == k
    ensures (w * p + n) * k == (w * k + n * q) * p
  {
    Distribute(w * p, n, k);
    Distribute(w * k, n * q, p);
    assert (n * q) * p == n * (q * p);
    assert (w * p) * k == (w * k) * p;
  }

  // The exact number the seconds of a clock denote.
  lemma SecondsDenote(r: nat) returns (d: Decimal)
    requires r < MICROS_PER_MINUTE
    ensures ParseDecimal(SecondsText(r)) == Some(d) && d.mantissa * MICROS_PER_SECOND == r * Pow10(d.scale)
  {
    hide Padded, TrimZeros, Number, ParseDecimal, AllDigits;
    QuotRem(r, MICROS_PER_SECOND);
    var whole, fraction := Quot(r, MICROS_PER_SECOND), Rem(r, MICROS_PER_SECOND);
    assert 0 <= whole < 60;
    var w := Padded(whole, 2);
    PaddedReads(whole, 2);
    if fraction == 0 {
      StripsSign(w);
      SignedDigitsRead(w, false, w);
      assert w + "" == w;
      d := Decimal(whole, 0);
      assert Pow10(0) == 1;
    } else {
      var f := Padded(fraction, 6);
      PaddedReads(fraction, 6);
      SixDigits();
      PaddedLength(fraction, 6);
      var t := TrimZeros(f);
      TrimZerosReads(f);
      PointReads(w, t);
      assert w + ("." + t) == w + "." + t;
      NumberConcat(w, t);
      SecondsValue(whole, t, fraction);
      d := Decimal(Number(w + t), |t|);
    }
  }

  /** The seconds of a clock read back exactly, whatever their fraction rounds to as a float. */
  lemma SecondsRead(r: nat)
    requires r < MICROS_PER_MINUTE
    ensures var x := ParseFloat(SecondsText(r));
            x.Some? && 0.0 <= x.value < 60.0 && Round(F64(x.value * MICROS_PER_SECOND as real)) == r
  {
    hide SecondsText, ParseDecimal, F64, Round, Decimal.Value, Pow10;
    var d := SecondsDenote(r);
    MillionthsValue(d, r);
    MillionthsSurvive(r, d.Value());
  }

  lemma ClockParts(m: nat)
    ensures var h, rest, s := Quot(m, MICROS_PER_HOUR), Rem(m, MICROS_PER_HOUR), Rem(m, MICROS_PER_MINUTE);
            var minutes := Quot(rest, MICROS_PER_MINUTE);
            && 0 <= h <= m && 0 <= minutes < 60 && 0 <= s < MICROS_PER_MINUTE
            && h * MICROS_PER_HOUR + minutes * MICROS_PER_MINUTE + s == m
  {
    hide Quot, Rem;
    QuotRem(m, MICROS_PER_HOUR);
    QuotRem(m, MICROS_PER_MINUTE);
    QuotRem(Rem(m, MICROS_PER_HOUR), MICROS_PER_MINUTE);
  }

  lemma PaddedReadsInt(n: nat)
    requires n <= MAX64
    ensures ParseInt(Padded(n, 2)) == Some(n)
  {
    hide Padded, Number, AllDigits;
    PaddedReads(n, 2);
    StripsSign(Padded(n, 2));
    SignedDigitsRead(Padded(n, 2), false, Padded(n, 2));
  }

  /** The body of a clock reads back as its microseconds. */
  lemma ClockBodyReads(m: nat, token: string, negative: bool)
    requires m <= MAX64 && StripSign(token) == (negative, ClockBody(m))
    ensures ParseClock(token) == Some(Signed(negative, m))
  {
    hide Padded, SecondsText, Quot, Rem, StripSign, SplitOn, ParseInt, ParseFloat, Round, F64;
    var h, rest, s := Quot(m, MICROS_PER_HOUR), Rem(m, MICROS_PER_HOUR), Rem(m, MICROS_PER_MINUTE);
    var minutes := Quot(rest, MICROS_PER_MINUTE);
    ClockParts(m);
    PaddedChars(h, 2);
    PaddedChars(minutes, 2);
    SecondsChars(s);
    assert ":" == [':'];
    SplitOnThree(Padded(h, 2), Padded(minutes, 2), SecondsText(s), ':');
    PaddedReadsInt(h);
    PaddedReadsInt(minutes);
    SecondsRead(s);
  }

  lemma ClockStripped(m: int, before: bool)
    requires m != MIN64
    ensures StripSign(ClockWord(m, before)) == (m < 0, ClockBody(Magnitude(m)))
  {
    hide Padded, Quot, Rem, SecondsText;
    var a := Magnitude(m);
    var body, word := ClockBody(a), ClockWord(m, before);
    FirstIsDigit(a);
    if m < 0 || before { assert word[1..] == body; } else { assert word == body; }
  }

  lemma FirstIsDigit(a: nat)
    ensures ClockBody(a) != [] && IsDigit(ClockBody(a)[0])
  {
    hide Padded, Rem, SecondsText;
    var h: nat := Quot(a, MICROS_PER_HOUR);
    PaddedReads(h, 2);
    assert ClockBody(a)[0] == Padded(h, 2)[0];
  }

  /** A clock reads back as its microseconds, sign included. */
  lemma ClockReads(m: int, before: bool)
    requires Fits64(m) && m != MIN64
    ensures ParseClock(ClockWord(m, before)) == Some(m)
  {
    hide ClockBody, StripSign, ParseClock, ClockWord;
    ClockStripped(m, before);
    ClockBodyReads(Magnitude(m), ClockWord(m, before), m < 0);
  }

  // ----------------------------------------------- the smallest time is unreadable

  // After a point comes a minus sign.
  lemma MinusAfterPoint(p: string, t: string)
    requires '.' !in p && t != [] && t[0] == '-'
    ensures ParseDecimal(p + "." + t).None?
  {
    var s := p + ['.'] + t;
    assert s == p + "." + t;
    var q := StripSign(p).1;
    assert '.' !in q;
    assert StripSign(s).1 == q + ['.'] + t by {
      if p == [] { assert s[0] == '.'; } else { assert s[0] == p[0] && s[1..] == p[1..] + ['.'] + t; }
    }
    IndexAt(q, '.', t);
    assert (q + ['.'] + t)[|q| + 1..] == t;
    assert !IsDigit(t[0]);
  }

  lemma {:induction false} TrimKeepsFirst(s: string)
    requires s != [] && s[0] == '-'
    ensures TrimZeros(s) != [] && TrimZeros(s)[0] == '-'
  {
    if s[|s| - 1] == '0' { TrimKeepsFirst(s[..|s| - 1]); }
  }

  lemma PaddedNoPoint(x: int, width: nat)
    ensures '.' !in Padded(x, width)
    ensures x < 0 ==> Padded(x, width)[0] == '-'
  {
    DigitsRead(if x < 0 then -x else x);
  }

  lemma NegativeSecondsFail(m: int)
    requires Rem(m, MICROS_PER_SECOND) < 0
    ensures ParseDecimal(SecondsText(m)).None?
  {
    hide Padded, Quot, Rem, TrimZeros, ParseDecimal;
    var p, f := Padded(Quot(m, MICROS_PER_SECOND), 2), Padded(Rem(m, MICROS_PER_SECOND), 6);
    PaddedNoPoint(Quot(m, MICROS_PER_SECOND), 2);
    PaddedNoPoint(Rem(m, MICROS_PER_SECOND), 6);
    PaddedChars(Rem(m, MICROS_PER_SECOND), 6);
    TrimKeepsFirst(f);
    assert p + ("." + TrimZeros(f)) == p + "." + TrimZeros(f);
    MinusAfterPoint(p, TrimZeros(f));
  }

  lemma SmallestParts()
    ensures Rem(Rem(MIN64, MICROS_PER_MINUTE), MICROS_PER_SECOND) < 0
  {
    assert Rem(MIN64, MICROS_PER_MINUTE) == -54_775_808;
  }

  lemma SmallestClockFails(before: bool)
    ensures ParseClock(ClockWord(MIN64, before)).None?
  {
    hide Padded, SecondsText, Quot, Rem, SplitOn, ParseInt, ParseDecimal, F64;
    var word, body := ClockWord(MIN64, before), ClockBody(MIN64);
    assert word[1..] == body;
    var h, rest, s := Quot(MIN64, MICROS_PER_HOUR), Rem(MIN64, MICROS_PER_HOUR), Rem(MIN64, MICROS_PER_MINUTE);
    var minutes := Quot(rest, MICROS_PER_MINUTE);
    PaddedChars(h, 2);
    PaddedChars(minutes, 2);
    SecondsChars(s);
    SplitOnThree(Padded(h, 2), Padded(minutes, 2), SecondsText(s), ':');
    SmallestParts();
    NegativeSecondsFail(s);
  }

  // ------------------------------------------------------------------- whole units

  lemma NothingLeft(n: int)
    ensures Trunc(n as real) == n && F64(n as real - n as real) == 0.0 && F64(0.0) == 0.0
    ensures F64(0.0 * DAYS_PER_MONTH as real) == 0.0 && F64(0.0 * MICROS_PER_DAY as real) == 0.0
    ensures Round(0.0) == 0
  {
    hide Ulp;
  }

  lemma AddWholeDays(iv: Interval, x: int)
    requires Fits64(iv.micros)
    ensures AddDays(iv, x as real) ==
              if Fits64(iv.days + Saturate(x)) then Some(iv.(days := iv.days + Saturate(x))) else None
  {
    hide Trunc, F64, Round;
    NothingLeft(x);
  }

  lemma AddWholeMonths(iv: Interval, n: int)
    requires Fits64(iv.days) && Fits64(iv.micros)
    ensures AddMonths(iv, n as real) ==
              if Fits64(iv.months + Saturate(n)) then Some(iv.(months := iv.months + Saturate(n))) else None
  {
    hide Trunc, F64, Round, AddDays;
    NothingLeft(n);
    var m := iv.months + Saturate(n);
    AddWholeDays(iv.(months := m), 0);
    assert iv.(months := m).(days := iv.days + Saturate(0)) == iv.(months := m);
  }

  /** The float of a product of a whole amount. */
  lemma ProductRounds(x: int, per: int)
    ensures Product(x as real, per) == Rounded(x * per) as real
  {
    hide F64, Rounded;
    assert x as real * per as real == (x * per) as real;
    WholeRounds(x * per);
  }

  lemma LowerIs(s: string)
    requires forall i :: 0 <= i < |s| ==> LowerChar(s[i]) == s[i]
    ensures Lower(s) == s
  {
  }

  lemma YearUnit(v: int)
    ensures UnitOf(Lower(UnitWord(v, "year"))) == Some(OfMonths(12)) && AllLetters(UnitWord(v, "year"))
  {
    var u := UnitWord(v, "year");
    assert u == "year" || u == "years";
    LowerIs(u);
  }

  lemma MonUnit(v: int)
    ensures UnitOf(Lower(UnitWord(v, "mon"))) == Some(OfMonths(1)) && AllLetters(UnitWord(v, "mon"))
  {
    var u := UnitWord(v, "mon");
    assert u == "mon" || u == "mons";
    LowerIs(u);
  }

  lemma DayUnitRead(v: int)
    ensures UnitOf(Lower(UnitWord(v, "day"))) == Some(OfDays(1)) && AllLetters(UnitWord(v, "day"))
  {
    var u := UnitWord(v, "day");
    assert u == "day" || u == "days";
    LowerIs(u);
  }

  // ---------------------------------------------------------- the words come through

  /** A word that reading leaves as it is. */
  ghost predicate Kept(w: string) {
    && IsWord(w) && WordTokens(w) == [w]
    && (forall i :: 0 <= i < |w| ==> LowerChar(w[i]) == w[i])
    && w[|w| - 1] != 'o'
  }

  ghost predicate AllKept(ws: seq<string>) {
    forall i :: 0 <= i < |ws| ==> Kept(ws[i])
  }

  lemma NumbersKept(w: string)
    requires w != [] && NumberChars(w)
    ensures Kept(w)
  {
    assert forall i :: 0 <= i < |w| ==> NumberChar(w[i]);
  }

  lemma LetterIsNoNumber(c: char)
    requires Alphabetic(c)
    ensures ParseDecimal([c]).None?
  {
    assert StripSign([c]) == (false, [c]);
    assert IndexOf([c], '.') == 1;
    assert [c][..1] == [c] && !IsDigit([c][0]);
  }

  lemma LettersKept(w: string)
    requires |w| >= 2 && AllLetters(w) && forall i :: 0 <= i < |w| ==> LowerChar(w[i]) == w[i]
    requires w[|w| - 1] != 'o'
    ensures Kept(w)
  {
    assert Alphabetic(w[1]);
    LetterIsNoNumber(w[0]);
    assert w[..1] == [w[0]];
  }

  lemma UnitsKept(v: int)
    ensures Kept(UnitWord(v, "year")) && Kept(UnitWord(v, "mon")) && Kept(UnitWord(v, "day"))
  {
    hide Kept;
    LettersKept(UnitWord(v, "year"));
    LettersKept(UnitWord(v, "mon"));
    LettersKept(UnitWord(v, "day"));
  }

  lemma KeptWords(ws: seq<string>)
    requires AllKept(ws)
    ensures AllWords(ws)
  {
    forall i | 0 <= i < |ws| ensures IsWord(ws[i]) { assert Kept(ws[i]); }
  }

  lemma {:induction false} TokensKept(ws: seq<string>)
    requires AllKept(ws) && AllWords(ws)
    ensures TokensOf(ws) == ws
  {
    hide WordTokens, IsWord;
    if ws != [] {
      var n := |ws| - 1;
      TokensKept(ws[..n]);
      assert Kept(ws[n]);
      assert ws == ws[..n] + [ws[n]];
    }
  }

  lemma TrimNothing(s: string)
    requires s != [] && !IsSpace(s[0]) && !IsSpace(s[|s| - 1])
    ensures Trim(s) == s
  {
  }

  lemma LastOf(s: string)
    requires s != [] && s[|s| - 1] != 'o'
    ensures !EndsWith(s, "ago")
  {
    if |s| >= 3 { assert s[|s| - 3..][2] == s[|s| - 1] && "ago"[2] == 'o'; }
  }

  lemma JoinIsLower(ws: seq<string>)
    requires AllKept(ws)
    ensures Lower(Join(ws)) == Join(ws)
  {
    var lower := c => LowerChar(c) == c;
    forall i, j | 0 <= i < |ws| && 0 <= j < |ws[i]| ensures lower(ws[i][j]) {
      assert Kept(ws[i]);
    }
    JoinChars(ws, lower);
    assert forall j :: 0 <= j < |Join(ws)| ==> lower(Join(ws)[j]);
    LowerIs(Join(ws));
  }

  lemma JoinEnds(ws: seq<string>)
    requires ws != [] && AllKept(ws) && NumberChar(ws[0][0])
    ensures AllWords(ws)
    ensures var s := Join(ws); s != [] && NumberChar(s[0]) && !IsSpace(s[|s| - 1]) && s[|s| - 1] != 'o'
  {
    assert Kept(ws[0]) && Kept(ws[|ws| - 1]);
    assert forall i :: 0 <= i < |ws| ==> Kept(ws[i]) && IsWord(ws[i]);
    JoinNonEmpty(ws);
  }

  /** Parsing joined words reads them as the tokens. */
  lemma ParseJoined(ws: seq<string>)
    requires ws != [] && AllKept(ws) && NumberChar(ws[0][0])
    ensures ParseText(Join(ws)) == ReadFrom(ws, 0, Interval(0, 0, 0))
  {
    hide Kept, Join, Lower, Trim, Split, TokensOf, ReadFrom, EndsWith, IsoResult;
    var s := Join(ws);
    JoinEnds(ws);
    TrimNothing(s);
    JoinIsLower(ws);
    LastOf(s);
    SplitJoin(ws);
    KeptWords(ws);
    TokensKept(ws);
  }

  // ------------------------------------------------------------------ part by part

  lemma NotYearMonth(value: int, before: bool)
    ensures YearMonth(NumberWord(value, before)).None?
  {
    var d := Digits(if value < 0 then -value else value);
    DigitsRead(if value < 0 then -value else value);
    StripsSign(d);
    var w := NumberWord(value, before);
    assert StripSign(w).1 == d by {
      if value < 0 { assert w == "-" + d; } else if before && value > 0 { assert w == "+" + d; } else { assert w == d; }
    }
    IndexOfNone(d, '-');
  }

  lemma NumberReads(value: int, before: bool)
    ensures ParseFloat(NumberWord(value, before)) == Some(Rounded(value) as real)
  {
    PrintReads(value, before && value > 0);
  }

  /** A part is read as the float nearest to its amount, of its unit. */
  lemma PartTaken(tokens: seq<string>, i: nat, iv: Interval, value: int, before: bool, unit: string, u: Unit)
    requires i + 1 < |tokens| && tokens[i] == NumberWord(value, before) && tokens[i + 1] == UnitWord(value, unit)
    requires UnitOf(Lower(UnitWord(value, unit))) == Some(u) && AllLetters(UnitWord(value, unit))
    ensures Take(tokens, i, iv) == Advance(AddUnit(iv, Rounded(value) as real, u), i + 2)
  {
    hide NumberWord, UnitWord, YearMonth, ParseFloat, AddUnit, UnitOf, AllLetters, ParseClock, Rounded;
    PrintChars(value, before);
    NotYearMonth(value, before);
    NumberReads(value, before);
  }

  ghost function Resume(tokens: seq<string>, i: nat, iv: Option<Interval>): Option<Interval>
    requires i <= |tokens|
  {
    match iv
    case None => None
    case Some(x) => ReadFrom(tokens, i, x)
  }

  /** The words of a part move the reader past them, or stop it. */
  lemma PartRead(pre: seq<string>, value: int, before: bool, unit: string, u: Unit, rest: seq<string>, iv: Interval, iv': Option<Interval>)
    requires UnitOf(Lower(UnitWord(value, unit))) == Some(u) && AllLetters(UnitWord(value, unit))
    requires iv' == if value == 0 then Some(iv) else AddUnit(iv, Rounded(value) as real, u)
    ensures var part := PartWords(value, unit, before);
            ReadFrom(pre + part + rest, |pre|, iv) == Resume(pre + part + rest, |pre + part|, iv')
  {
    hide NumberWord, UnitWord, AddUnit, UnitOf, Take, AllLetters, Rounded;
    if value != 0 {
      var part := PartWords(value, unit, before);
      var tokens := pre + part + rest;
      assert tokens[|pre|] == part[0] && tokens[|pre| + 1] == part[1];
      PartTaken(tokens, |pre|, iv, value, before, unit, u);
    }
  }

  lemma ClockTaken(tokens: seq<string>, i: nat, iv: Interval, micros: int, before: bool)
    requires i + 1 == |tokens| && tokens[i] == ClockWord(micros, before) && iv.micros == 0 && Fits64(micros)
    ensures ReadFrom(tokens, i, iv) == if micros == MIN64 then None else Some(iv.(micros := micros))
  {
    hide ClockWord, ParseClock, YearMonth, ParseFloat, AddNamed;
    ClockChars(micros, before);
    if micros == MIN64 { SmallestClockFails(before); } else { ClockReads(micros, before); }
  }

  // --------------------------------------------------------------------- its words

  lemma PartsKept(value: int, before: bool)
    ensures AllKept(PartWords(value, "year", before)) && AllKept(PartWords(value, "mon", before)) && AllKept(PartWords(value, "day", before))
    ensures value != 0 ==> NumberWord(value, before) != [] && NumberChar(NumberWord(value, before)[0])
  {
    hide Kept, NumberWord, UnitWord;
    PrintChars(value, before);
    NumbersKept(NumberWord(value, before));
    UnitsKept(value);
  }

  lemma ClockKept(micros: int, before: bool)
    ensures Kept(ClockWord(micros, before)) && NumberChar(ClockWord(micros, before)[0])
  {
    hide Kept, ClockWord;
    ClockChars(micros, before);
    NumbersKept(ClockWord(micros, before));
  }

  lemma FormatKept(iv: Interval)
    ensures FormatWords(iv) != [] && AllKept(FormatWords(iv)) && NumberChar(FormatWords(iv)[0][0])
  {
    hide Kept, NumberWord, UnitWord, ClockWord, BeforeAfter, DateBefore, Years, Mons, NumberChar;
    var b1 := BeforeAfter(Years(iv), false);
    var b2 := BeforeAfter(Mons(iv), b1);
    PartsKept(Years(iv), false);
    PartsKept(Mons(iv), b1);
    PartsKept(iv.days, b2);
    ClockKept(iv.micros, DateBefore(iv));
  }

  ghost predicate Fits(iv: Interval) {
    Fits64(iv.months) && Fits64(iv.days) && Fits64(iv.micros)
  }

  lemma MonthParts(iv: Interval)
    requires Fits64(iv.months)
    ensures Years(iv) * 12 + Mons(iv) == iv.months && Fits64(Years(iv) * 12) && -12 < Mons(iv) < 12
  {
    QuotRem(iv.months, 12);
  }

  // ------------------------------------------------- what the floats leave of a date

  /** The months read back from the years' and months' words: floats twice over, then clamped. */
  ghost function MonthsRead(iv: Interval): Option<int> {
    CheckedAdd(Saturate(Rounded(Rounded(Years(iv)) * 12)), Mons(iv))
  }

  ghost function DaysRead(iv: Interval): int {
    Saturate(Rounded(iv.days))
  }

  ghost function DateOf(iv: Interval): Option<Interval> {
    match MonthsRead(iv)
    case None => None
    case Some(months) => Some(Interval(months, DaysRead(iv), 0))
  }

  lemma YearsTaken(y: int)
    ensures var n := Saturate(Rounded(Rounded(y) * 12));
            (if y == 0 then Some(Interval(0, 0, 0)) else AddUnit(Interval(0, 0, 0), Rounded(y) as real, OfMonths(12))) ==
              Some(Interval(n, 0, 0))
  {
    hide AddMonths, Rounded, Product;
    ProductRounds(Rounded(y), 12);
    var n := Rounded(y) * 12;
    AddWholeMonths(Interval(0, 0, 0), Rounded(n));
    WholeRounds(0);
    assert y == 0 ==> n == 0;
    assert AddUnit(Interval(0, 0, 0), Rounded(y) as real, OfMonths(12)) == AddMonths(Interval(0, 0, 0), Rounded(n) as real);
  }

  lemma MonsTaken(months: int, m: int)
    requires Fits64(months) && -12 < m < 12
    ensures (if m == 0 then Some(Interval(months, 0, 0)) else AddUnit(Interval(months, 0, 0), Rounded(m) as real, OfMonths(1))) ==
              match CheckedAdd(months, m) case None => None case Some(x) => Some(Interval(x, 0, 0))
  {
    hide AddMonths, Rounded, Product;
    WholeRounds(m);
    ProductRounds(m, 1);
    AddWholeMonths(Interval(months, 0, 0), m);
  }

  lemma DaysTaken(months: int, d: int)
    ensures (if d == 0 then Some(Interval(months, 0, 0)) else AddUnit(Interval(months, 0, 0), Rounded(d) as real, OfDays(1))) ==
              Some(Interval(months, Saturate(Rounded(d)), 0))
  {
    hide AddDays, Rounded, Product;
    WholeRounds(d);
    WholeRounds(Rounded(d));
    ProductRounds(Rounded(d), 1);
    AddWholeDays(Interval(months, 0, 0), Rounded(d));
  }

  /** The date words are read as their floats. */
  lemma DateRead(iv: Interval, rest: seq<string>)
    requires Fits(iv)
    ensures ReadFrom(DateWords(iv) + rest, 0, Interval(0, 0, 0)) ==
              Resume(DateWords(iv) + rest, |DateWords(iv)|, DateOf(iv))
  {
    hide NumberWord, UnitWord, BeforeAfter, PartWords, ReadFrom, AddUnit, Lower, UnitOf, AllLetters, Years, Mons, Rounded, Saturate, CheckedAdd;
    var y, m, d := Years(iv), Mons(iv), iv.days;
    MonthParts(iv);
    var b1 := BeforeAfter(y, false);
    var b2 := BeforeAfter(m, b1);
    var yw, mw, dw := PartWords(y, "year", false), PartWords(m, "mon", b1), PartWords(d, "day", b2);
    var tokens := DateWords(iv) + rest;
    var n := Saturate(Rounded(Rounded(y) * 12));
    assert Fits64(n) by { SaturateFits(Rounded(Rounded(y) * 12)); }
    assert ReadFrom(tokens, 0, Interval(0, 0, 0)) == ReadFrom(tokens, |yw|, Interval(n, 0, 0)) by {
      YearUnit(y);
      YearsTaken(y);
      PartRead([], y, false, "year", OfMonths(12), mw + dw + rest, Interval(0, 0, 0), Some(Interval(n, 0, 0)));
      assert [] + yw + (mw + dw + rest) == tokens && [] + yw == yw;
    }
    var after := match MonthsRead(iv) case None => None case Some(x) => Some(Interval(x, 0, 0));
    assert ReadFrom(tokens, |yw|, Interval(n, 0, 0)) == Resume(tokens, |yw + mw|, after) by {
      MonUnit(m);
      MonsTaken(n, m);
      PartRead(yw, m, b1, "mon", OfMonths(1), dw + rest, Interval(n, 0, 0), after);
      assert yw + mw + (dw + rest) == tokens;
    }
    if after.Some? {
      DayUnitRead(d);
      DaysTaken(after.value.months, d);
      PartRead(yw + mw, d, b2, "day", OfDays(1), rest, after.value, DateOf(iv));
      assert yw + mw + dw + rest == tokens;
    }
  }

  lemma SaturateFits(x: int)
    ensures Fits64(Saturate(x))
  {
  }

  /**
   Days come back exactly when they have 53 significant bits; the largest day count, which rounds
   up, is clamped back to itself.
   */
  lemma DaysKept(iv: Interval)
    requires Fits64(iv.days)
    ensures DaysRead(iv) == iv.days <==> Representable(iv.days) || iv.days == MAX64
  {
    hide Rounded, Representable;
    WholeRounds(iv.days);
    LimitsRounded();
  }

  /** Months come back exactly when twelve times the whole years have 53 significant bits. */
  lemma MonthsKept(iv: Interval)
    requires Fits64(iv.months)
    ensures MonthsRead(iv) == Some(iv.months) <==> Representable(12 * Years(iv))
  {
    hide Rounded, Representable, Years, Mons;
    var y := Years(iv);
    MonthParts(iv);
    WholeRounds(Rounded(y) * 12);
    if Representable(12 * y) {
      FactorRepresentable(12, y);
      WholeRounds(y);
    }
  }

  // ---------------------------------------------------------------------- the theorem

  /** What reading its own text makes of an interval. */
  ghost function ReadBack(iv: Interval): Option<Interval> {
    if DateOf(iv).None? || iv.micros == MIN64 then None else Some(DateOf(iv).value.(micros := iv.micros))
  }

  lemma TextReadsBack(iv: Interval)
    requires Fits(iv)
    ensures ParseText(Join(FormatWords(iv))) == ReadBack(iv)
  {
    hide Kept, DateWords, ClockWord, DateBefore, ParseText, ReadFrom, Join, AllKept, Fits, MonthsRead, DaysRead;
    var words, date := FormatWords(iv), DateWords(iv);
    FormatKept(iv);
    ParseJoined(words);
    assert Fits64(iv.micros) by { FitsMicros(iv); }
    var clock := if date == [] || iv.micros != 0 then [ClockWord(iv.micros, DateBefore(iv))] else [];
    DateRead(iv, clock);
    if DateOf(iv).Some? {
      if clock == [] {
        NoMoreTokens(words, DateOf(iv).value);
      } else {
        ClockTaken(words, |date|, DateOf(iv).value, iv.micros, DateBefore(iv));
      }
    }
  }

  /** The intervals whose text reads back: a float holds the days and the months of the years. */
  predicate Printable(iv: Interval) {
    && Representable(12 * Years(iv))
    && (Representable(iv.days) || iv.days == MAX64)
    && iv.micros != MIN64
  }

  /**
   An interval of 64-bit parts reads back from its own text, whatever the mix of signs, exactly when
   it is printable.
   */
  lemma RoundTrip(iv: Interval)
    requires Fits(iv)
    ensures ParseText(Join(FormatWords(iv))) == Some(iv) <==> Printable(iv)
  {
    hide ParseText, Join, FormatWords, MonthsRead, DaysRead, Representable, Years;
    TextReadsBack(iv);
    MonthsKept(iv);
    DaysKept(iv);
  }

  /** Up to 2^53 months and days, only the smallest time part is lost. */
  lemma SmallIntervalsRoundTrip(iv: Interval)
    requires -TWO53 <= iv.months <= TWO53 && -TWO53 <= iv.days <= TWO53 && Fits64(iv.micros)
    ensures ParseText(Join(FormatWords(iv))) == Some(iv) <==> iv.micros != MIN64
  {
    hide ParseText, Join, FormatWords;
    QuotRem(iv.months, 12);
    RoundTrip(iv);
  }

  /** One day more than 2^53 days prints in full and reads as 2^53 days. */
  lemma FirstLostDay()
    ensures ParseText(Join(FormatWords(Interval(0, TWO53 + 1, 0)))) == Some(Interval(0, TWO53, 0))
  {
    hide ParseText, Join, FormatWords, Rounded;
    var iv := Interval(0, TWO53 + 1, 0);
    TextReadsBack(iv);
    FirstLost();
    WholeRounds(0);
  }

  lemma FitsMicros(iv: Interval)
    requires Fits(iv)
    ensures Fits64(iv.micros)
  {
  }

  lemma NoMoreTokens(tokens: seq<string>, iv: Interval)
    ensures ReadFrom(tokens, |tokens|, iv) == Some(iv)
  {
  }

  /** Reading the printed text, by the two methods. */
  method PrintAndRead(iv: Interval) returns (r: Option<Interval>)
    requires Fits(iv)
    ensures r == Some(iv) <==> Printable(iv)
  {
    var text := Format(iv);
    r := Parse(text);
    RoundTrip(iv);
  }
}
