/**
 What an ISO 8601 interval denotes (crates/nodus_executor/src/datetime.rs, `parse_iso_interval`):
 text put together from numbers and unit letters reads as its parts added in order. Whole amounts
 add up exactly; what fractions leave over is carried to the smaller units.
 */
module IsoIntervals {
  import opened Wrappers
  import opened Intervals
  import opened Decimals
  import opened Floats
  import opened IntervalParse
  import opened IntervalRoundTrip

  /** A number as it is written, and the letter of its unit. */
  datatype Piece = Piece(number: string, letter: char)

  ghost predicate IsoChars(s: string) {
    forall i :: 0 <= i < |s| ==> IsDigit(s[i]) || s[i] in ".-+"
  }

  ghost predicate IsPiece(p: Piece, inTime: bool) {
    IsoChars(p.number) && ParseFloat(p.number).Some? && IsoUnit(p.letter, inTime).Some?
  }

  ghost predicate AllPieces(pieces: seq<Piece>, inTime: bool) {
    forall i :: 0 <= i < |pieces| ==> IsPiece(pieces[i], inTime)
  }

  ghost function PieceText(p: Piece): string {
    p.number + [p.letter]
  }

  ghost function PiecesText(pieces: seq<Piece>): string {
    if pieces == [] then "" else PiecesText(pieces[..|pieces| - 1]) + PieceText(pieces[|pieces| - 1])
  }

  /** `PnYnMnWnDTnHnMnS`, in any order on either side of the `T`, without its `P`. */
  ghost function IsoText(date: seq<Piece>, time: seq<Piece>): string {
    PiecesText(date) + (if time == [] then "" else "T" + PiecesText(time))
  }

  ghost function UnitAt(letter: char, inTime: bool): Unit
    requires IsoUnit(letter, inTime).Some?
  {
    IsoUnit(letter, inTime).value
  }

  ghost function AddPiece(iv: Interval, p: Piece, inTime: bool): Option<Interval>
    requires IsPiece(p, inTime)
  {
    AddUnit(iv, ParseFloat(p.number).value, UnitAt(p.letter, inTime))
  }

  /** The pieces added one by one, each as the float it reads as. */
  ghost function AddPieces(iv: Option<Interval>, pieces: seq<Piece>, inTime: bool): Option<Interval>
    requires AllPieces(pieces, inTime)
  {
    if pieces == [] then iv
    else
      var n := |pieces| - 1;
      match AddPieces(iv, pieces[..n], inTime)
      case None => None
      case Some(x) => AddPiece(x, pieces[n], inTime)
  }

  // --------------------------------------------------------- one piece at a time

  lemma RunSnoc(text: string, c: char, st: Iso)
    requires IsoRun(text) == Some(st)
    ensures IsoRun(text + [c]) == IsoStep(st, c)
  {
    var whole := text + [c];
    assert whole[..|whole| - 1] == text;
  }

  lemma {:induction false} NumberGathered(text: string, s: string, st: Iso)
    requires IsoRun(text) == Some(st) && IsoChars(s)
    ensures IsoRun(text + s) == Some(st.(number := st.number + s))
  {
    hide IsoRun;
    if s == [] {
      assert text + s == text && st.number + s == st.number;
    } else {
      var n := |s| - 1;
      NumberGathered(text, s[..n], st);
      RunSnoc(text + s[..n], s[n], st.(number := st.number + s[..n]));
      assert text + s == text + s[..n] + [s[n]];
      assert st.number + s == st.number + s[..n] + [s[n]];
    }
  }

  lemma LetterEndsNumber(c: char, inTime: bool)
    requires IsoUnit(c, inTime).Some?
    ensures c !in "Tt" && !IsDigit(c) && c !in ".-+"
  {
  }

  ghost function Reached(added: Option<Interval>, inTime: bool): Option<Iso> {
    match added
    case None => None
    case Some(iv) => Some(Iso(iv, inTime, ""))
  }

  // The letter after a gathered number adds the amount.
  lemma LetterStep(p: Piece, st: Iso)
    requires st.number == p.number && IsPiece(p, st.inTime)
    ensures IsoStep(st, p.letter) == Reached(AddPiece(st.iv, p, st.inTime), st.inTime)
  {
    hide AddUnit, IsoUnit, ParseFloat, IsoChars;
    LetterEndsNumber(p.letter, st.inTime);
  }

  lemma PieceGathered(text: string, p: Piece, st: Iso)
    requires IsoRun(text) == Some(st) && st.number == "" && IsPiece(p, st.inTime)
    ensures IsoRun(text + PieceText(p)) == Reached(AddPiece(st.iv, p, st.inTime), st.inTime)
  {
    hide AddPiece, IsoStep, IsoRun, IsoChars, ParseFloat, IsoUnit, Reached;
    var s := p.number;
    NumberGathered(text, s, st);
    assert "" + s == s;
    LetterStep(p, st.(number := s));
    RunSnoc(text + s, p.letter, st.(number := s));
    assert text + PieceText(p) == text + s + [p.letter];
  }

  lemma {:induction false} PiecesGathered(text: string, pieces: seq<Piece>, st: Iso)
    requires IsoRun(text) == Some(st) && st.number == "" && AllPieces(pieces, st.inTime)
    ensures IsoRun(text + PiecesText(pieces)) == Reached(AddPieces(Some(st.iv), pieces, st.inTime), st.inTime)
  {
    hide AddPiece, IsPiece, IsoRun;
    if pieces == [] {
      assert text + PiecesText(pieces) == text;
    } else {
      var n := |pieces| - 1;
      PiecesGathered(text, pieces[..n], st);
      var before := text + PiecesText(pieces[..n]);
      assert text + PiecesText(pieces) == before + PieceText(pieces[n]);
      var added := AddPieces(Some(st.iv), pieces[..n], st.inTime);
      if added.None? {
        FailedDate(before + PieceText(pieces[n]), before);
      } else {
        PieceGathered(before, pieces[n], Iso(added.value, st.inTime, ""));
      }
    }
  }

  lemma TimeBegins(text: string, st: Iso)
    requires IsoRun(text) == Some(st)
    ensures IsoRun(text + "T") == Some(st.(inTime := true))
  {
    RunSnoc(text, 'T', st);
    assert text + "T" == text + ['T'];
  }

  lemma {:induction false} NoneStays(pieces: seq<Piece>)
    requires AllPieces(pieces, true)
    ensures AddPieces(None, pieces, true).None?
  {
    if pieces != [] { NoneStays(pieces[..|pieces| - 1]); }
  }

  // The state after the date.
  lemma DateGathered(date: seq<Piece>)
    requires AllPieces(date, false)
    ensures IsoRun(PiecesText(date)) == Reached(AddPieces(Some(Interval(0, 0, 0)), date, false), false)
  {
    hide AddPieces, PiecesText, AllPieces;
    assert "" + PiecesText(date) == PiecesText(date);
    PiecesGathered("", date, Iso(Interval(0, 0, 0), false, ""));
  }

  lemma FailedDate(text: string, d: string)
    requires d <= text && IsoRun(d).None?
    ensures IsoRun(text).None?
  {
    assert text[..|d|] == d;
    IsoFails(text, |d|);
  }

  /** Text built from numbers and unit letters reads as those amounts added in order. */
  lemma IsoReads(date: seq<Piece>, time: seq<Piece>)
    requires AllPieces(date, false) && AllPieces(time, true)
    ensures IsoResult(IsoText(date, time)) == AddPieces(AddPieces(Some(Interval(0, 0, 0)), date, false), time, true)
  {
    hide IsoRun, AddPieces, PiecesText, AllPieces;
    var d := PiecesText(date);
    DateGathered(date);
    var added := AddPieces(Some(Interval(0, 0, 0)), date, false);
    if added.None? {
      FailedDate(IsoText(date, time), d);
      NoneStays(time);
    } else if time == [] {
      assert IsoText(date, time) == d;
      assert AddPieces(added, time, true) == added by { NoPieces(added, time); }
    } else {
      TimeBegins(d, Iso(added.value, false, ""));
      assert IsoText(date, time) == (d + "T") + PiecesText(time);
      PiecesGathered(d + "T", time, Iso(added.value, true, ""));
    }
  }

  lemma NoPieces(iv: Option<Interval>, pieces: seq<Piece>)
    requires pieces == []
    ensures AllPieces(pieces, true) && AddPieces(iv, pieces, true) == iv
  {
  }

  // ------------------------------------------------------------- what fractions carry

  lemma NearAny(x: real)
    ensures -AbsReal(x) <= TWO53 as real * (F64(x) - x) <= AbsReal(x)
  {
    hide F64;
    if x < 0.0 {
      Odd(-x);
      Near(-x);
    } else {
      Near(x);
    }
  }

  lemma TruncNear(x: real)
    ensures -1.0 < x - Trunc(x) as real < 1.0 && AbsReal(Trunc(x) as real) <= AbsReal(x)
  {
  }

  lemma RoundNear(x: real)
    ensures -0.5 <= Round(x) as real - x <= 0.5
  {
  }

  // A fraction below one, scaled by `k`, both through floats.
  lemma ScaledFraction(f: real, k: real, a: real, b: real, h: real)
    requires -1.0 < f < 1.0 && 0.0 < k <= 86_400_000_000.0 && a == f * k && b == F64(f) * k && h == F64(b)
    ensures -3.0 * k <= TWO53 as real * (h - a) <= 3.0 * k && AbsReal(h) < k + 0.5
  {
    hide F64;
    NearAny(f);
    FractionProducts(f, F64(f), k, a, b);
    NearAny(b);
    RoundedTwice(a, b, h, k);
  }

  lemma FractionProducts(f: real, g: real, k: real, a: real, b: real)
    requires k > 0.0 && -1.0 < f < 1.0 && -1.0 <= TWO53 as real * (g - f) <= 1.0 && a == f * k && b == g * k
    ensures -k <= TWO53 as real * (b - a) <= k && -k < a < k
  {
    var e, u := TWO53 as real * (g - f), TWO53 as real * (f - g);
    Scaled(e, 1.0, k);
    Scaled(u, 1.0, k);
    assert e * k == TWO53 as real * (b - a) by { Regrouped(g, f, k); }
    assert u * k == TWO53 as real * (a - b) by { Regrouped(f, g, k); }
    StrictlyScaled(f, 1.0, k);
    StrictlyScaled(-1.0, f, k);
  }

  // `b` is near `a`, and `h` near `b`.
  lemma RoundedTwice(a: real, b: real, h: real, k: real)
    requires 0.0 < k <= 86_400_000_000.0 && -k < a < k && -k <= TWO53 as real * (b - a) <= k
    requires -AbsReal(b) <= TWO53 as real * (h - b) <= AbsReal(b)
    ensures -3.0 * k <= TWO53 as real * (h - a) <= 3.0 * k && AbsReal(h) < k + 0.5
  {
  }

  lemma Regrouped(x: real, y: real, k: real)
    ensures (TWO53 as real * (x - y)) * k == TWO53 as real * (x * k - y * k)
  {
    var c := TWO53 as real;
    assert (x - y) * k == x * k - y * k;
    assert (c * (x - y)) * k == c * ((x - y) * k);
  }

  lemma StrictlyScaled(a: real, b: real, k: real)
    requires k > 0.0 && a < b
    ensures a * k < b * k
  {
  }

  /** The time a fraction of a day turns into: at most a day, and right to half a microsecond and a little. */
  lemma DaysCarry(iv: Interval, days: real, iv': Interval)
    requires AddDays(iv, days) == Some(iv') && Fits64(Trunc(days))
    ensures iv'.months == iv.months && iv'.days == iv.days + Trunc(days)
    ensures -MICROS_PER_DAY <= iv'.micros - iv.micros <= MICROS_PER_DAY
    ensures var off := (iv'.days - iv.days) as real * 86_400_000_000.0 + (iv'.micros - iv.micros) as real - days * 86_400_000_000.0;
            -0.5001 <= off <= 0.5001
  {
    hide F64, Round, Trunc;
    var f := days - Trunc(days) as real;
    TruncNear(days);
    var k := MICROS_PER_DAY as real;
    var h := F64(F64(f) * k);
    ScaledFraction(f, k, f * k, F64(f) * k, h);
    RoundNear(h);
    assert -MICROS_PER_DAY <= Round(h) <= MICROS_PER_DAY;
  }

  /** The days and time a fraction of a month turns into: at most thirty days and a day. */
  lemma MonthsCarry(iv: Interval, months: real, iv': Interval)
    requires AddMonths(iv, months) == Some(iv') && Fits64(Trunc(months))
    ensures iv'.months == iv.months + Trunc(months)
    ensures -30 <= iv'.days - iv.days <= 30 && -MICROS_PER_DAY <= iv'.micros - iv.micros <= MICROS_PER_DAY
    ensures var off := (iv'.Span() - iv.Span()) as real - months * 2_592_000_000_000.0;
            -0.501 <= off <= 0.501
  {
    hide F64, Trunc, AddDays;
    var f := months - Trunc(months) as real;
    TruncNear(months);
    var k := DAYS_PER_MONTH as real;
    var d := F64(F64(f) * k);
    ScaledFraction(f, k, f * k, F64(f) * k, d);
    TruncNear(d);
    DaysCarry(iv.(months := iv.months + Trunc(months)), d, iv');
  }

  ghost function SpanOf(unit: Unit): real {
    match unit
    case OfMonths(_) => 2_592_000_000_000.0
    case OfDays(_) => 86_400_000_000.0
    case OfMicros(_) => 1.0
  }

  /** The scaled amount is not clamped to 64 bits. */
  ghost predicate Unclamped(scaled: real, unit: Unit) {
    if unit.OfMicros? then Fits64(Round(scaled)) else Fits64(Trunc(scaled))
  }

  /** What is added spans the amount, to half a microsecond and a little. */
  lemma ScaledSpans(iv: Interval, scaled: real, unit: Unit, iv': Interval)
    requires AddScaled(iv, scaled, unit) == Some(iv') && Unclamped(scaled, unit)
    ensures -0.501 <= (iv'.Span() - iv.Span()) as real - scaled * SpanOf(unit) <= 0.501
  {
    hide AddMonths, AddDays, Trunc, Round;
    match unit
    case OfMonths(_) => MonthsCarry(iv, scaled, iv');
    case OfDays(_) => DaysCarry(iv, scaled, iv');
    case OfMicros(_) => RoundNear(scaled);
  }

  ghost function ScaledOf(p: Piece, inTime: bool): real
    requires IsPiece(p, inTime)
  {
    Product(ParseFloat(p.number).value, Per(UnitAt(p.letter, inTime)))
  }

  ghost function PieceSpan(p: Piece, inTime: bool): real
    requires IsPiece(p, inTime)
  {
    ScaledOf(p, inTime) * SpanOf(UnitAt(p.letter, inTime))
  }

  /** The pieces' amounts in microseconds, a month counting thirty days. */
  ghost function SpanTotal(pieces: seq<Piece>, inTime: bool): real
    requires AllPieces(pieces, inTime)
  {
    if pieces == [] then 0.0
    else
      var n := |pieces| - 1;
      SpanTotal(pieces[..n], inTime) + PieceSpan(pieces[n], inTime)
  }

  ghost predicate PieceUnclamped(p: Piece, inTime: bool)
    requires IsPiece(p, inTime)
  {
    Unclamped(ScaledOf(p, inTime), UnitAt(p.letter, inTime))
  }

  ghost predicate AllUnclamped(pieces: seq<Piece>, inTime: bool)
    requires AllPieces(pieces, inTime)
  {
    forall i :: 0 <= i < |pieces| ==> PieceUnclamped(pieces[i], inTime)
  }

  lemma {:induction false} PiecesSpan(iv: Interval, pieces: seq<Piece>, inTime: bool, iv': Interval)
    requires AllPieces(pieces, inTime) && AllUnclamped(pieces, inTime) && AddPieces(Some(iv), pieces, inTime) == Some(iv')
    ensures -0.501 * |pieces| as real <= (iv'.Span() - iv.Span()) as real - SpanTotal(pieces, inTime) <= 0.501 * |pieces| as real
  {
    hide IsPiece, AddPiece, PieceUnclamped, PieceSpan, Interval.Span;
    if pieces != [] {
      var n := |pieces| - 1;
      assert AllPieces(pieces[..n], inTime) && AllUnclamped(pieces[..n], inTime);
      var mid := AddPieces(Some(iv), pieces[..n], inTime).value;
      PiecesSpan(iv, pieces[..n], inTime, mid);
      PieceSpans(mid, pieces[n], inTime, iv');
    }
  }

  lemma PieceSpans(iv: Interval, p: Piece, inTime: bool, iv': Interval)
    requires IsPiece(p, inTime) && AddPiece(iv, p, inTime) == Some(iv') && PieceUnclamped(p, inTime)
    ensures -0.501 <= (iv'.Span() - iv.Span()) as real - PieceSpan(p, inTime) <= 0.501
  {
    hide AddScaled, Unclamped, SpanOf, Product, Interval.Span, IsoUnit, ParseFloat, IsoChars;
    ScaledSpans(iv, ScaledOf(p, inTime), UnitAt(p.letter, inTime), iv');
  }

  /**
   Fractions lose nothing on their way down: the interval read spans the amounts together, to half a
   microsecond and a little for each.
   */
  lemma IsoSpans(date: seq<Piece>, time: seq<Piece>, iv: Interval)
    requires AllPieces(date, false) && AllPieces(time, true) && AllUnclamped(date, false) && AllUnclamped(time, true)
    requires IsoResult(IsoText(date, time)) == Some(iv)
    ensures var off := iv.Span() as real - SpanTotal(date, false) - SpanTotal(time, true);
            -0.501 * (|date| + |time|) as real <= off <= 0.501 * (|date| + |time|) as real
  {
    hide AddPieces, IsoText, IsoResult, AllPieces, AllUnclamped, SpanTotal;
    IsoReads(date, time);
    var zero := Interval(0, 0, 0);
    var mid := AddPieces(Some(zero), date, false);
    if mid.None? { NoneStays(time); }
    PiecesSpan(zero, date, false, mid.value);
    PiecesSpan(mid.value, time, true, iv);
  }

  // ----------------------------------------------------------- whole amounts, exactly

  datatype Part = Part(amount: int, letter: char)

  ghost predicate AllUnits(parts: seq<Part>, inTime: bool) {
    forall i :: 0 <= i < |parts| ==> IsoUnit(parts[i].letter, inTime).Some?
  }

  ghost function Written(parts: seq<Part>): (r: seq<Piece>)
    ensures |r| == |parts| && forall i :: 0 <= i < |r| ==> r[i] == Piece(Print(parts[i].amount), parts[i].letter)
  {
    seq(|parts|, i requires 0 <= i < |parts| => Piece(Print(parts[i].amount), parts[i].letter))
  }

  lemma PrintedNumber(x: int)
    ensures IsoChars(Print(x)) && ParseFloat(Print(x)) == Some(Rounded(x) as real)
  {
    hide IsoChars, ParseFloat, Print, Rounded;
    PrintedChars(x);
    PrintReads(x, false);
    assert "" + Print(x) == Print(x);
  }

  lemma PrintedChars(x: int)
    ensures IsoChars(Print(x))
  {
    hide Number;
    DigitsRead(if x < 0 then -x else x);
  }

  lemma WrittenPieces(parts: seq<Part>, inTime: bool)
    requires AllUnits(parts, inTime)
    ensures AllPieces(Written(parts), inTime)
  {
    hide IsoUnit, IsoChars, ParseFloat, Print, Rounded;
    forall i | 0 <= i < |parts| ensures IsPiece(Written(parts)[i], inTime) { PrintedNumber(parts[i].amount); }
  }

  ghost function Plus(a: Interval, b: Interval): Interval {
    Interval(a.months + b.months, a.days + b.days, a.micros + b.micros)
  }

  /** `n` months, days or microseconds, as the unit counts towards them. */
  ghost function Share(n: int, unit: Unit): Interval {
    match unit
    case OfMonths(_) => Interval(n, 0, 0)
    case OfDays(_) => Interval(0, n, 0)
    case OfMicros(_) => Interval(0, 0, n)
  }

  ghost function Worth(p: Part, inTime: bool): Interval
    requires IsoUnit(p.letter, inTime).Some?
  {
    Share(p.amount * Per(UnitAt(p.letter, inTime)), UnitAt(p.letter, inTime))
  }

  /** What the parts come to. */
  ghost function Total(parts: seq<Part>, inTime: bool): Interval
    requires AllUnits(parts, inTime)
  {
    if parts == [] then Interval(0, 0, 0)
    else
      var n := |parts| - 1;
      Plus(Total(parts[..n], inTime), Worth(parts[n], inTime))
  }

  /** Every part is a float once scaled, and no running total leaves 64 bits. */
  ghost predicate Held(iv: Interval, parts: seq<Part>, inTime: bool)
    requires AllUnits(parts, inTime)
  {
    if parts == [] then Fits(iv)
    else
      var n := |parts| - 1;
      var size := parts[n].amount * Per(UnitAt(parts[n].letter, inTime));
      && Held(iv, parts[..n], inTime)
      && Representable(size) && Fits64(size)
      && Fits(Plus(iv, Total(parts, inTime)))
  }

  lemma AddWholeMicros(iv: Interval, n: int)
    requires Fits64(n) && Fits64(iv.micros + n)
    ensures AddMicros(iv, n as real) == Some(iv.(micros := iv.micros + n))
  {
    assert Round(n as real) == n;
  }

  lemma UnitPositive(p: Part, inTime: bool)
    requires IsoUnit(p.letter, inTime).Some?
    ensures Per(UnitAt(p.letter, inTime)) > 0
  {
  }

  // The float product of a whole amount and its unit is the exact one.
  lemma SizeIsExact(n: int, per: int)
    requires per > 0 && Representable(n * per)
    ensures Product(Rounded(n) as real, per) == (n * per) as real
  {
    hide Product, Rounded, Representable;
    assert per * n == n * per;
    FactorRepresentable(per, n);
    WholeRounds(n);
    WholeRounds(n * per);
    ProductRounds(n, per);
  }

  lemma ShareAdded(iv: Interval, unit: Unit, n: int)
    requires Fits(iv) && Fits64(n) && Fits(Plus(iv, Share(n, unit)))
    ensures AddScaled(iv, n as real, unit) == Some(Plus(iv, Share(n, unit)))
  {
    hide AddMonths, AddDays, AddMicros;
    match unit
    case OfMonths(_) => AddWholeMonths(iv, n);
    case OfDays(_) => AddWholeDays(iv, n);
    case OfMicros(_) => AddWholeMicros(iv, n);
  }

  lemma PartAdded(iv: Interval, p: Part, inTime: bool)
    requires IsoUnit(p.letter, inTime).Some? && Fits(iv) && Fits(Plus(iv, Worth(p, inTime)))
    requires var size := p.amount * Per(UnitAt(p.letter, inTime)); Representable(size) && Fits64(size)
    ensures var piece := Piece(Print(p.amount), p.letter);
            IsPiece(piece, inTime) && AddPiece(iv, piece, inTime) == Some(Plus(iv, Worth(p, inTime)))
  {
    hide Product, Rounded, Representable, AddScaled, IsoUnit, Per, Share, Fits, Plus, IsoChars, ParseFloat, Print;
    UnitPositive(p, inTime);
    PrintedNumber(p.amount);
    var unit := UnitAt(p.letter, inTime);
    var size := p.amount * Per(unit);
    SizeIsExact(p.amount, Per(unit));
    ShareAdded(iv, unit, size);
  }

  lemma {:induction false} PartsAdded(iv: Interval, parts: seq<Part>, inTime: bool)
    requires AllUnits(parts, inTime) && Held(iv, parts, inTime)
    ensures AllPieces(Written(parts), inTime)
    ensures AddPieces(Some(iv), Written(parts), inTime) == Some(Plus(iv, Total(parts, inTime)))
    ensures Fits(Plus(iv, Total(parts, inTime)))
  {
    hide AddPiece, IsoUnit, Representable, Fits, Worth, Per, Print, IsPiece;
    WrittenPieces(parts, inTime);
    if parts == [] {
      assert Plus(iv, Interval(0, 0, 0)) == iv;
    } else {
      var n := |parts| - 1;
      PartsAdded(iv, parts[..n], inTime);
      assert Written(parts)[..n] == Written(parts[..n]);
      var before := Plus(iv, Total(parts[..n], inTime));
      assert Plus(before, Worth(parts[n], inTime)) == Plus(iv, Total(parts, inTime));
      PartAdded(before, parts[n], inTime);
    }
  }

  /** Amounts that floats hold read as their exact sum. */
  lemma IsoSums(date: seq<Part>, time: seq<Part>)
    requires AllUnits(date, false) && AllUnits(time, true)
    requires Held(Interval(0, 0, 0), date, false) && Held(Total(date, false), time, true)
    ensures IsoResult(IsoText(Written(date), Written(time))) == Some(Plus(Total(date, false), Total(time, true)))
  {
    hide AddPieces, IsoText, IsoResult, Held, Total, AllPieces, AllUnits, Written;
    PartsAdded(Interval(0, 0, 0), date, false);
    PartsAdded(Total(date, false), time, true);
    IsoReads(Written(date), Written(time));
  }
}
