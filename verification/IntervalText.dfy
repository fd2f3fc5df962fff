/**
 Printing intervals (crates/nodus_executor/src/datetime.rs, `Interval::format`).
 */
module IntervalText {
  import opened Intervals
  import opened Decimals
  import opened Words

  // --------------------------------------------------------------------- printing

  /** Two digits of seconds, and a fraction only where there is one, as short as it goes. */
  function SecondsText(micros: int): string {
    var fraction := Rem(micros, MICROS_PER_SECOND);
    Padded(Quot(micros, MICROS_PER_SECOND), 2) + if fraction != 0 then "." + TrimZeros(Padded(fraction, 6)) else ""
  }

  /** The magnitude as a 64-bit number: the smallest one has none, and stays as it is. */
  function Magnitude(micros: int): int {
    if micros == MIN64 then MIN64 else if micros < 0 then -micros else micros
  }

  function ClockBody(micros: int): string {
    Padded(Quot(micros, MICROS_PER_HOUR), 2) + ":" +
    (Padded(Quot(Rem(micros, MICROS_PER_HOUR), MICROS_PER_MINUTE), 2) + ":" + SecondsText(Rem(micros, MICROS_PER_MINUTE)))
  }

  function ClockWord(micros: int, before: bool): string {
    (if micros < 0 then "-" else if before then "+" else "") + ClockBody(Magnitude(micros))
  }

  function NumberWord(value: int, before: bool): string {
    (if before && value > 0 then "+" else "") + Print(value)
  }

  function UnitWord(value: int, unit: string): string {
    unit + if value != 1 then "s" else ""
  }

  /** A part is two words, and nothing when it is zero. */
  function PartWords(value: int, unit: string, before: bool): seq<string> {
    if value == 0 then [] else [NumberWord(value, before), UnitWord(value, unit)]
  }

  /** Whether the last part written was negative. */
  function BeforeAfter(value: int, before: bool): bool {
    if value == 0 then before else value < 0
  }

  function Years(iv: Interval): int { Quot(iv.months, 12) }

  function Mons(iv: Interval): int { Rem(iv.months, 12) }

  function DateWords(iv: Interval): seq<string> {
    var b1 := BeforeAfter(Years(iv), false);
    var b2 := BeforeAfter(Mons(iv), b1);
    PartWords(Years(iv), "year", false) + PartWords(Mons(iv), "mon", b1) + PartWords(iv.days, "day", b2)
  }

  function DateBefore(iv: Interval): bool {
    BeforeAfter(iv.days, BeforeAfter(Mons(iv), BeforeAfter(Years(iv), false)))
  }

  /** The words of an interval's text. */
  function FormatWords(iv: Interval): seq<string> {
    DateWords(iv) + if DateWords(iv) == [] || iv.micros != 0 then [ClockWord(iv.micros, DateBefore(iv))] else []
  }

  /** What `format` has written, and the two flags it keeps. */
  class Writer {
    var out: string
    var isZero: bool
    var isBefore: bool

    constructor ()
      ensures out == "" && isZero && !isBefore
    {
      out, isZero, isBefore := "", true, false;
    }

    /** The words written so far. */
    ghost predicate Wrote(ws: seq<string>)
      reads this
    {
      out == Join(ws) && (isZero <==> ws == [])
    }

    method Part(value: int, unit: string, ghost ws: seq<string>)
      requires Wrote(ws)
      modifies this
      ensures Wrote(ws + PartWords(value, unit, old(isBefore)))
      ensures isBefore == BeforeAfter(value, old(isBefore))
    {
      hide Join, Print;
      if value == 0 {
        assert ws + [] == ws;
        return;
      }
      ghost var number, last := NumberWord(value, isBefore), UnitWord(value, unit);
      JoinSnoc(ws, number);
      JoinSnoc(ws + [number], last);
      assert ws + [number, last] == ws + [number] + [last];
      if !isZero { out := out + " "; }
      ghost var start := out;
      if isBefore && value > 0 { out := out + "+"; }
      out := out + (Print(value) + " " + unit + if value != 1 then "s" else "");
      Regroup(start, if isBefore && value > 0 then "+" else "", Print(value), unit, if value != 1 then "s" else "");
      NoText(Join(ws), number);
      isBefore := value < 0;
      isZero := false;
    }

    method Clock(micros: int, ghost ws: seq<string>)
      requires Wrote(ws)
      modifies this
      ensures out == Join(ws + if ws == [] || micros != 0 then [ClockWord(micros, old(isBefore))] else [])
    {
      hide Join, ClockBody;
      if isZero || micros != 0 {
        JoinSnoc(ws, ClockWord(micros, isBefore));
        if !isZero { out := out + " "; }
        ghost var start := out;
        if micros < 0 { out := out + "-"; } else if isBefore { out := out + "+"; }
        var body := WriteClock(Magnitude(micros));
        out := out + body;
        RegroupClock(start, if micros < 0 then "-" else if isBefore then "+" else "", body);
        NoText(Join(ws), ClockWord(micros, isBefore));
      } else {
        assert ws + [] == ws;
      }
    }
  }

  method WriteClock(m: int) returns (s: string)
    ensures s == ClockBody(m)
  {
    hide Padded, SecondsText, Quot, Rem;
    var hours, minutes := Padded(Quot(m, MICROS_PER_HOUR), 2), Padded(Quot(Rem(m, MICROS_PER_HOUR), MICROS_PER_MINUTE), 2);
    var seconds := SecondsText(Rem(m, MICROS_PER_MINUTE));
    s := hours + ":" + minutes + ":";
    s := s + seconds;
    assert s == hours + ":" + (minutes + ":" + seconds);
  }

  lemma Regroup(start: string, plus: string, number: string, unit: string, plural: string)
    ensures start + plus + (number + " " + unit + plural) == start + (plus + number) + " " + (unit + plural)
    ensures plus == "" ==> start + plus == start
  {
  }

  lemma RegroupClock(start: string, sign: string, body: string)
    ensures start + sign + body == start + (sign + body)
    ensures sign == "" ==> start + sign == start
  {
  }

  lemma NoText(s: string, w: string)
    ensures "" + w == w && Join([]) == "" && s + " " + w == (s + " ") + w
  {
  }

  /** `format`. */
  method Format(iv: Interval) returns (text: string)
    ensures text == Join(FormatWords(iv))
  {
    var w := new Writer();
    w.Part(Quot(iv.months, 12), "year", []);
    assert [] + PartWords(Years(iv), "year", false) == PartWords(Years(iv), "year", false);
    w.Part(Rem(iv.months, 12), "mon", PartWords(Years(iv), "year", false));
    w.Part(iv.days, "day", PartWords(Years(iv), "year", false) + PartWords(Mons(iv), "mon", BeforeAfter(Years(iv), false)));
    w.Clock(iv.micros, DateWords(iv));
    text := w.out;
  }
}
