/**
 Reading intervals (crates/nodus_executor/src/datetime.rs, `Interval::parse`).
 */
module IntervalParse {
  import opened Wrappers
  import opened Intervals
  import opened Decimals
  import opened Floats
  import opened Words

  // ----------------------------------------------------------------------- units

  datatype Unit = OfMonths(months: int) | OfDays(days: int) | OfMicros(micros: int)

  function MonthUnit(u: string): Option<int> {
    if u in ["millennium", "millennia", "millenniums", "mil", "mils"] then Some(12_000)
    else if u in ["century", "centuries", "c", "cent"] then Some(1_200)
    else if u in ["decade", "decades", "dec", "decs"] then Some(120)
    else if u in ["year", "years", "y", "yr", "yrs"] then Some(12)
    else if u in ["month", "months", "mon", "mons"] then Some(1)
    else None
  }

  function DayUnit(u: string): Option<int> {
    if u in ["week", "weeks", "w"] then Some(7)
    else if u in ["day", "days", "d"] then Some(1)
    else None
  }

  function TimeUnit(u: string): Option<int> {
    if u in ["hour", "hours", "h", "hr", "hrs"] then Some(MICROS_PER_HOUR)
    else if u in ["minute", "minutes", "m", "min", "mins"] then Some(MICROS_PER_MINUTE)
    else if u in ["second", "seconds", "s", "sec", "secs"] then Some(MICROS_PER_SECOND)
    else if u in ["millisecond", "milliseconds", "ms", "msec", "msecs"] then Some(1_000)
    else if u in ["microsecond", "microseconds", "us", "usec", "usecs"] then Some(1)
    else None
  }

  function UnitOf(u: string): Option<Unit> {
    match MonthUnit(u)
    case Some(n) => Some(OfMonths(n))
    case None =>
      match DayUnit(u)
      case Some(n) => Some(OfDays(n))
      case None =>
        match TimeUnit(u)
        case Some(n) => Some(OfMicros(n))
        case None => None
  }

  /** `add_days`: whole days, and the rest as time. */
  function AddDays(iv: Interval, days: real): Option<Interval> {
    var whole := Trunc(days);
    match CheckedAdd(iv.days, Saturate(whole))
    case None => None
    case Some(d) => AddMicros(iv.(days := d), F64(F64(days - whole as real) * MICROS_PER_DAY as real))
  }

  function AddMicros(iv: Interval, micros: real): Option<Interval> {
    match CheckedAdd(iv.micros, Saturate(Round(micros)))
    case None => None
    case Some(m) => Some(iv.(micros := m))
  }

  function AddMonths(iv: Interval, months: real): Option<Interval> {
    var whole := Trunc(months);
    match CheckedAdd(iv.months, Saturate(whole))
    case None => None
    case Some(m) => AddDays(iv.(months := m), F64(F64(months - whole as real) * DAYS_PER_MONTH as real))
  }

  function Per(unit: Unit): int {
    match unit
    case OfMonths(per) => per
    case OfDays(per) => per
    case OfMicros(per) => per
  }

  /** The float product of an amount and what its unit is worth. */
  function Product(amount: real, per: int): real {
    F64(amount * per as real)
  }

  /** `scaled` months, days or microseconds, as the unit counts towards them. */
  function AddScaled(iv: Interval, scaled: real, unit: Unit): Option<Interval> {
    match unit
    case OfMonths(_) => AddMonths(iv, scaled)
    case OfDays(_) => AddDays(iv, scaled)
    case OfMicros(_) => AddMicros(iv, scaled)
  }

  /** `add_unit`: what a part leaves over goes to the next smaller one. */
  function AddUnit(iv: Interval, amount: real, unit: Unit): Option<Interval> {
    AddScaled(iv, Product(amount, Per(unit)), unit)
  }

  function AddNamed(iv: Interval, amount: real, name: string): Option<Interval> {
    match UnitOf(Lower(name))
    case None => None
    case Some(unit) => AddUnit(iv, amount, unit)
  }

  // ---------------------------------------------------------------------- tokens

  /** The first letter at or after `i`, or the length. */
  function LetterFrom(word: string, i: nat): (r: nat)
    requires i <= |word|
    ensures i <= r <= |word|
    ensures forall j :: i <= j < r ==> !Alphabetic(word[j])
    ensures r < |word| ==> Alphabetic(word[r])
    decreases |word| - i
  {
    if i == |word| || Alphabetic(word[i]) then i else LetterFrom(word, i + 1)
  }

  /** `10h` is two tokens, a number and a unit. */
  function WordTokens(word: string): seq<string>
    requires word != []
  {
    var at := LetterFrom(word, 1);
    if at < |word| && ParseFloat(word[..at]).Some? then [word[..at], word[at..]] else [word]
  }

  function TokensOf(words: seq<string>): seq<string>
    requires AllWords(words)
  {
    if words == [] then []
    else
      var n := |words| - 1;
      assert AllWords(words[..n]) && IsWord(words[n]);
      TokensOf(words[..n]) + WordTokens(words[n])
  }

  lemma {:induction false} SplitWords(s: string)
    ensures AllWords(Split(s))
    decreases |s|
  {
    if s != [] {
      if IsSpace(s[0]) {
        SplitWords(s[1..]);
      } else {
        SplitWords(s[WordEnd(s)..]);
      }
    }
  }

  // ------------------------------------------------------------ clocks, year-month

  /** A signed clock time of two or three parts, in microseconds. */
  function ParseClock(token: string): Option<int> {
    var (negative, body) := StripSign(token);
    var parts := SplitOn(body, ':');
    if !(2 <= |parts| <= 3) then None
    else
      var hours, minutes := ParseInt(parts[0]), ParseInt(parts[1]);
      var seconds := if |parts| == 3 then ParseFloat(parts[2]) else Some(0.0);
      if hours.None? || minutes.None? || seconds.None? then None
      else ClockOf(negative, hours.value, minutes.value, seconds.value)
  }

  function ClockOf(negative: bool, hours: int, minutes: int, seconds: real): Option<int> {
    if !(0 <= minutes < 60) || !(0.0 <= seconds < 60.0) then None
    else
      Some(Signed(negative,
                  hours * MICROS_PER_HOUR + minutes * MICROS_PER_MINUTE + Saturate(Round(F64(seconds * MICROS_PER_SECOND as real)))))
  }

  /** SQL's `Y-M` form, as months. */
  function YearMonth(token: string): Option<int> {
    var (negative, body) := StripSign(token);
    var dash := IndexOf(body, '-');
    if dash == |body| then None
    else
      var years, months := body[..dash], body[dash + 1..];
      if years == [] || months == [] || !AllDigits(years) || !AllDigits(months) then None
      else if !Fits64(Number(years)) || !Fits64(Number(months)) then None
      else Some(Signed(negative, Number(years)) * 12 + Signed(negative, Number(months)))
  }

  // --------------------------------------------------------------------- the loop

  predicate AllLetters(s: string) {
    forall i :: 0 <= i < |s| ==> Alphabetic(s[i])
  }

  /** What one round of the loop makes of the token at `i`, and how many tokens it takes. */
  function Take(tokens: seq<string>, i: nat, iv: Interval): (r: Option<(Interval, nat)>)
    requires i < |tokens|
    ensures r.Some? ==> i < r.value.1 <= |tokens|
  {
    var token := tokens[i];
    if ':' in token then
      match ParseClock(token)
      case None => None
      case Some(m) => Advance(WithMicros(iv, m), i + 1)
    else if YearMonth(token).Some? then Advance(WithMonths(iv, YearMonth(token).value), i + 1)
    else
      match ParseFloat(token)
      case None => None
      case Some(amount) =>
        if i + 1 < |tokens| && AllLetters(tokens[i + 1]) then Advance(AddNamed(iv, amount, tokens[i + 1]), i + 2)
        else if i + 1 < |tokens| && ':' in tokens[i + 1] then Advance(AddNamed(iv, amount, "day"), i + 1)
        else Advance(AddNamed(iv, amount, "second"), i + 1)
  }

  function Advance(iv: Option<Interval>, i: nat): Option<(Interval, nat)> {
    match iv
    case None => None
    case Some(x) => Some((x, i))
  }

  function WithMicros(iv: Interval, m: int): Option<Interval> {
    match CheckedAdd(iv.micros, m)
    case None => None
    case Some(x) => Some(iv.(micros := x))
  }

  function WithMonths(iv: Interval, m: int): Option<Interval> {
    match CheckedAdd(iv.months, m)
    case None => None
    case Some(x) => Some(iv.(months := x))
  }

  /** The tokens from `i` on, added to `iv`. */
  function ReadFrom(tokens: seq<string>, i: nat, iv: Interval): Option<Interval>
    requires i <= |tokens|
    decreases |tokens| - i
  {
    if i == |tokens| then Some(iv)
    else
      match Take(tokens, i, iv)
      case None => None
      case Some(next) => ReadFrom(tokens, next.1, next.0)
  }

  method ReadTokens(tokens: seq<string>) returns (r: Option<Interval>)
    ensures r == ReadFrom(tokens, 0, Interval(0, 0, 0))
  {
    hide Take;
    var iv, i := Interval(0, 0, 0), 0;
    while i < |tokens|
      invariant i <= |tokens|
      invariant ReadFrom(tokens, i, iv) == ReadFrom(tokens, 0, Interval(0, 0, 0))
      decreases |tokens| - i
    {
      var next := Take(tokens, i, iv);
      if next.None? { return None; }
      iv, i := next.value.0, next.value.1;
    }
    r := Some(iv);
  }

  method Tokenize(words: seq<string>) returns (tokens: seq<string>)
    requires AllWords(words)
    ensures tokens == TokensOf(words)
  {
    hide WordTokens;
    tokens := [];
    for k := 0 to |words|
      invariant tokens == TokensOf(words[..k])
    {
      assert words[..k + 1][..k] == words[..k];
      assert IsWord(words[k]);
      tokens := tokens + WordTokens(words[k]);
    }
    assert words[..|words|] == words;
  }

  // -------------------------------------------------------------------- ISO 8601

  datatype Iso = Iso(iv: Interval, inTime: bool, number: string)

  function IsoUnit(c: char, inTime: bool): Option<Unit> {
    if c in "Yy" && !inTime then Some(OfMonths(12))
    else if c in "Mm" && !inTime then Some(OfMonths(1))
    else if c in "Ww" && !inTime then Some(OfDays(7))
    else if c in "Dd" && !inTime then Some(OfDays(1))
    else if c in "Hh" && inTime then Some(OfMicros(MICROS_PER_HOUR))
    else if c in "Mm" && inTime then Some(OfMicros(MICROS_PER_MINUTE))
    else if c in "Ss" && inTime then Some(OfMicros(MICROS_PER_SECOND))
    else None
  }

  function IsoStep(st: Iso, c: char): Option<Iso> {
    if c in "Tt" then Some(st.(inTime := true))
    else if IsDigit(c) || c in ".-+" then Some(st.(number := st.number + [c]))
    else
      match ParseFloat(st.number)
      case None => None
      case Some(amount) =>
        match IsoUnit(c, st.inTime)
        case None => None
        case Some(unit) =>
          match AddUnit(st.iv, amount, unit)
          case None => None
          case Some(iv) => Some(Iso(iv, st.inTime, ""))
  }

  function IsoRun(text: string): Option<Iso> {
    if text == [] then Some(Iso(Interval(0, 0, 0), false, ""))
    else
      var n := |text| - 1;
      match IsoRun(text[..n])
      case None => None
      case Some(st) => IsoStep(st, text[n])
  }

  lemma {:induction false} IsoFails(text: string, k: nat)
    requires k <= |text| && IsoRun(text[..k]).None?
    ensures IsoRun(text).None?
    decreases |text| - k
  {
    if k < |text| {
      assert text[..k + 1][..k] == text[..k];
      IsoFails(text, k + 1);
    } else {
      assert text[..k] == text;
    }
  }

  function IsoResult(text: string): Option<Interval> {
    match IsoRun(text)
    case None => None
    case Some(st) => if st.number == "" then Some(st.iv) else None
  }

  method ParseIso(text: string) returns (r: Option<Interval>)
    ensures r == IsoResult(text)
  {
    hide IsoStep;
    var st := Iso(Interval(0, 0, 0), false, "");
    for k := 0 to |text|
      invariant IsoRun(text[..k]) == Some(st)
    {
      assert text[..k + 1][..k] == text[..k];
      var next := IsoStep(st, text[k]);
      if next.None? {
        IsoFails(text, k + 1);
        return None;
      }
      st := next.value;
    }
    assert text[..|text|] == text;
    r := if st.number == "" then Some(st.iv) else None;
  }

  // ------------------------------------------------------------------------ parse

  /** The words between the wrappings, and whether they end in `ago`. */
  function Unwrap(lower: string): (string, bool) {
    var ago := EndsWith(lower, "ago");
    var body := if ago then Trim(lower[..|lower| - 3]) else lower;
    (Trim(if body != [] && body[0] == '@' then body[1..] else body), ago)
  }

  /** The interval that `text` denotes, if any. */
  function ParseText(text: string): Option<Interval> {
    var trimmed := Trim(text);
    if trimmed != [] && (trimmed[0] == 'P' || trimmed[0] == 'p') then IsoResult(trimmed[1..])
    else
      var (body, ago) := Unwrap(Lower(trimmed));
      SplitWords(body);
      var tokens := TokensOf(Split(body));
      if tokens == [] then None
      else
        match ReadFrom(tokens, 0, Interval(0, 0, 0))
        case None => None
        case Some(iv) => Some(if ago then iv.Negate() else iv)
  }

  /** `Interval::parse`. */
  method Parse(text: string) returns (r: Option<Interval>)
    ensures r == ParseText(text)
  {
    hide ReadFrom, TokensOf, Trim, Unwrap, IsoResult;
    var trimmed := Trim(text);
    if trimmed != [] && (trimmed[0] == 'P' || trimmed[0] == 'p') {
      r := ParseIso(trimmed[1..]);
      return;
    }
    var (body, ago) := Unwrap(Lower(trimmed));
    SplitWords(body);
    var tokens := Tokenize(Split(body));
    if tokens == [] { return None; }
    r := ReadTokens(tokens);
    if r.Some? && ago { r := Some(r.value.Negate()); }
  }
}
