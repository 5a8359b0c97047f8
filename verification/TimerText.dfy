/**
 Timer texts and their persisted form (rust/crates/sutra-bpmn/src/timer.rs).

 A timer definition is one of three literal forms or an expression still to be resolved. A durable
 schedule row stores the kind and the specification text; reading the row back must give the same
 definition. Reading and writing RFC 3339 instants (section 5.6) belongs to a library and is a
 parameter here, with the laws used stated in `Lawful`.
 */
module TimerText {
  import opened Basics
  import opened Duration
  import opened Floats
  import opened Text
  import TimerCycle

  datatype Rejection = UnsupportedForm | Malformed(detail: Option<DurationError>)

  // ---- durations for timers ------------------------------------------------

  function FirstSeparator(s: string): (i: nat)
    ensures i <= |s|
    ensures forall j :: 0 <= j < i ==> !IsSeparator(s[j])
    ensures i < |s| ==> IsSeparator(s[i])
  {
    if s == "" || IsSeparator(s[0]) then 0 else 1 + FirstSeparator(s[1..])
  }

  function FirstCalendar(s: string): (c: Option<char>)
    ensures c.None? <==> forall i :: 0 <= i < |s| ==> !IsCalendarUnit(s[i])
  {
    if s == "" then None else if IsCalendarUnit(s[0]) then Some(Upper(s[0])) else FirstCalendar(s[1..])
  }

  /** The calendar unit standing in the date part, if any. */
  function CalendarComponent(input: string): Option<char> {
    match StripP(Trim(input))
    case None => None
    case Some(rest) => FirstCalendar(rest[..FirstSeparator(rest)])
  }

  function ParseTimerDuration(input: string): Result<nat, Rejection> {
    if CalendarComponent(input).Some? then Err(UnsupportedForm)
    else
      match ParseDuration(input)
      case Err(e) => Err(Malformed(Some(e)))
      case Ok(nanos) => Ok(nanos)
  }

  /** Starts with `P` and has a year or month unit before the first separator. */
  ghost predicate NamesCalendar(input: string) {
    var t := Trim(input);
    && t != "" && (t[0] == 'P' || t[0] == 'p')
    && exists i :: 1 <= i < |t| && t[i] in {'Y', 'y', 'M', 'm'} && forall j :: 1 <= j < i ==> t[j] != 'T' && t[j] != 't'
  }

  /** An unsupported form is exactly a calendar duration. */
  lemma UnsupportedIffCalendar(input: string)
    ensures ParseTimerDuration(input) == Err(UnsupportedForm) <==> NamesCalendar(input)
  {
    var t := Trim(input);
    if StripP(t).Some? {
      var rest := t[1..];
      var cut := rest[..FirstSeparator(rest)];
      if NamesCalendar(input) {
        var i :| 1 <= i < |t| && t[i] in {'Y', 'y', 'M', 'm'} && forall j :: 1 <= j < i ==> t[j] != 'T' && t[j] != 't';
        assert forall j :: 0 <= j < i - 1 ==> rest[j] == t[j + 1];
        assert cut[i - 1] == t[i];
      }
      if FirstCalendar(cut).Some? {
        var i :| 0 <= i < |cut| && IsCalendarUnit(cut[i]);
        assert t[i + 1] == cut[i] && forall j :: 1 <= j < i + 1 ==> t[j] == cut[j - 1];
      }
    }
  }

  /** A calendar unit stands before the first separator. */
  predicate EarlyCalendar(s: string) {
    s != "" && !IsSeparator(s[0]) && (IsCalendarUnit(s[0]) || EarlyCalendar(s[1..]))
  }

  lemma {:induction false} EarlyIff(s: string)
    ensures FirstCalendar(s[..FirstSeparator(s)]).Some? <==> EarlyCalendar(s)
  {
    if s != "" && !IsSeparator(s[0]) {
      EarlyIff(s[1..]);
      var cut := s[..FirstSeparator(s)];
      assert cut[0] == s[0] && cut[1..] == s[1..][..FirstSeparator(s[1..])];
    }
  }

  lemma StepEffect(st: Scan, c: char)
    ensures StepChar(F64, st, c) == Err(CalendarUnit) ==> !st.inTime && !IsSeparator(c) && IsCalendarUnit(c)
    ensures StepChar(F64, st, c).Ok? ==> StepChar(F64, st, c).value.inTime == (st.inTime || IsSeparator(c))
  {
  }

  /** The scanner complains of a calendar unit only before the separator. */
  lemma {:induction false} CalendarErrorIsEarly(st: Scan, chars: string)
    requires ScanAll(F64, st, chars) == Err(CalendarUnit)
    ensures !st.inTime && EarlyCalendar(chars)
    decreases |chars|
  {
    StepEffect(st, chars[0]);
    if StepChar(F64, st, chars[0]).Ok? {
      CalendarErrorIsEarly(StepChar(F64, st, chars[0]).value, chars[1..]);
    }
  }

  /** So the scanner's own calendar complaint never reaches a timer's caller. */
  lemma CalendarBranchUnreachable(input: string)
    ensures ParseTimerDuration(input) != Err(Malformed(Some(CalendarUnit)))
  {
    if ParseDuration(input) == Err(CalendarUnit) {
      var rest := StripP(Trim(input)).value;
      CalendarErrorIsEarly(START, rest);
      EarlyIff(rest);
    }
  }

  lemma {:induction false} TrimIdempotent(s: string)
    ensures Trim(Trim(s)) == Trim(s)
    ensures ParseTimerDuration(Trim(s)) == ParseTimerDuration(s)
  {
    TrimTrims(s);
    TrimOfTrimmed(Trim(s));
  }

  // ---- rendering a duration ------------------------------------------------

  function Padded(n: nat, width: nat): (s: string)
    ensures |s| == width && AllDigits(s)
  {
    if width == 0 then "" else Padded(n / 10, width - 1) + [DigitChar(n % 10)]
  }

  function DropZeros(s: string): (t: string)
    ensures t <= s
  {
    if s != "" && s[|s| - 1] == '0' then DropZeros(s[..|s| - 1]) else s
  }

  const BILLION: nat := 1000000000

  function RenderedNumber(nanos: nat): string {
    if nanos % BILLION == 0 then NatText(nanos / BILLION)
    else NatText(nanos / BILLION) + "." + DropZeros(Padded(nanos % BILLION, 9))
  }

  /** `PT<seconds>S`, with a fraction only when there is one. */
  function FormatDuration(nanos: nat): string {
    "PT" + RenderedNumber(nanos) + "S"
  }

  /** `x` with its point moved `k` places to the left. */
  function Shift(x: real, k: nat): real {
    if k == 0 then x else Shift(x, k - 1) / 10.0
  }

  function Pow10(n: nat): nat {
    if n == 0 then 1 else 10 * Pow10(n - 1)
  }

  lemma {:induction false} ShiftSum(x: real, y: real, k: nat)
    ensures Shift(x + y, k) == Shift(x, k) + Shift(y, k)
  {
    if k > 0 {
      ShiftSum(x, y, k - 1);
    }
  }

  lemma {:induction false} ShiftTen(x: real, k: nat)
    ensures Shift(10.0 * x, k + 1) == Shift(x, k)
  {
    if k > 0 {
      ShiftTen(x, k - 1);
    } else {
      assert Shift(10.0 * x, 0) == 10.0 * x;
    }
  }

  /** One more digit after the point adds its share. */
  lemma {:induction false} FractionSnoc(s: string, c: char)
    requires AllDigits(s) && IsDigit(c)
    ensures AllDigits(s + [c]) && Fraction(s + [c]) == Fraction(s) + Shift(DigitValue(c) as real, |s| + 1)
  {
    if s == "" {
      assert s + [c] == [c] && [c][1..] == "";
      assert Fraction("") == 0.0 && Shift(DigitValue(c) as real, 0) == DigitValue(c) as real;
    } else {
      FractionSnoc(s[1..], c);
      assert (s + [c])[0] == s[0] && (s + [c])[1..] == s[1..] + [c];
    }
  }

  lemma ShiftSplit(n: nat, k: nat)
    ensures Shift((n / 10) as real, k) + Shift((n % 10) as real, k + 1) == Shift(n as real, k + 1)
  {
    var q, r := (n / 10) as real, (n % 10) as real;
    assert n as real == 10.0 * q + r;
    ShiftTen(q, k);
    ShiftSum(10.0 * q, r, k + 1);
  }

  lemma {:induction false} PaddedFraction(n: nat, width: nat)
    requires n < Pow10(width)
    ensures Fraction(Padded(n, width)) == Shift(n as real, width)
  {
    if width > 0 {
      var front := Padded(n / 10, width - 1);
      PaddedFraction(n / 10, width - 1);
      FractionSnoc(front, DigitChar(n % 10));
      ShiftSplit(n, width - 1);
    }
  }

  lemma ZeroShift(k: nat)
    ensures Shift(0.0, k) == 0.0
  {
  }

  lemma {:induction false} DropZerosValue(s: string)
    requires AllDigits(s)
    ensures AllDigits(DropZeros(s)) && Fraction(DropZeros(s)) == Fraction(s)
  {
    if s != "" && s[|s| - 1] == '0' {
      var front := s[..|s| - 1];
      DropZerosValue(front);
      FractionSnoc(front, '0');
      ZeroShift(|s|);
      assert s == front + ['0'];
    }
  }

  lemma {:induction false} DotAfterDigits(a: string, b: string)
    requires AllDigits(a)
    ensures FirstDot(a + "." + b) == |a|
  {
    if a == "" {
      assert a + "." + b == "." + b;
    } else {
      DotAfterDigits(a[1..], b);
      assert (a + "." + b)[1..] == a[1..] + "." + b;
    }
  }

  lemma {:induction false} NoDotInDigits(a: string)
    requires AllDigits(a)
    ensures FirstDot(a) == |a|
  {
    if a != "" {
      NoDotInDigits(a[1..]);
    }
  }

  lemma {:induction false} DottedDigits(s: string)
    requires forall i :: 0 <= i < |s| ==> IsDigit(s[i]) || s[i] == '.'
    ensures Dotted(s) == s
  {
    if s != "" {
      DottedDigits(s[..|s| - 1]);
      assert s == s[..|s| - 1] + [s[|s| - 1]];
    }
  }

  // ---- the units -----------------------------------------------------------

  lemma UnitIsLetter(unit: char, inTime: bool)
    requires UnitSeconds(unit, inTime).Some?
    ensures !IsSpace(unit)
  {
  }

  lemma ComponentReads(c: Component, inTime: bool)
    requires NumberChars(c.number) && Dotted(c.number) == c.number && NumberOk(c.number) && UnitSeconds(c.unit, inTime).Some?
    ensures GoodComponent(F64, c, inTime) && GoodComponent(EXACT, c, inTime)
  {
    assert F64.read(c.number).Some? && EXACT.read(c.number).Some?;
  }

  /** The number times the unit is `total`, exactly. */
  ghost predicate WorthOf(n: nat, unit: char, inTime: bool, total: nat) {
    UnitSeconds(unit, inTime).Some? && TimesExactly(Finite(n as real), UnitSeconds(unit, inTime).value) == Finite(total as real)
  }

  /** A text of one component whose number is whole denotes exactly that many of its unit. */
  lemma WholeText(number: string, unit: char, inTime: bool, n: nat, total: nat, text: string, body: string)
    requires NumberChars(number) && Dotted(number) == number && NumberOk(number) && NumberValue(number) == n as real
    requires WorthOf(n, unit, inTime, total) && total as real <= TWO_53
    requires body == (if inTime then "T" else "") + number + [unit] && text in {['P'] + body, ['p'] + body}
    ensures ParseDuration(text) == Ok(total * BILLION)
  {
    var c := Component(number, unit);
    ComponentReads(c, inTime);
    assert EXACT.read(number) == Some(Finite(n as real));
    ComponentDenotes(EXACT, c, inTime, Finite(n as real), Finite(total as real));
    ComponentWrites(c, inTime, text, body);
    WholeTextIs(text, OneComponent(c, inTime), c, inTime, total);
  }

  lemma ComponentDenotes(ar: Arithmetic, c: Component, inTime: bool, x: Float, y: Float)
    requires GoodComponent(ar, c, inTime) && Dotted(c.number) == c.number && ar.read(c.number) == Some(x)
    requires ar.times(x, UnitSeconds(c.unit, inTime).value) == y && ar.plus(ZERO, y) == y
    ensures Good(ar, OneComponent(c, inTime)) && Denoted(ar, OneComponent(c, inTime)) == y
  {
    OneComponentReads(ar, c, inTime);
  }

  lemma ComponentWrites(c: Component, inTime: bool, text: string, body: string)
    requires GoodComponent(F64, c, inTime)
    requires body == (if inTime then "T" else "") + c.number + [c.unit] && text in {['P'] + body, ['p'] + body}
    ensures Writes(text, OneComponent(c, inTime))
  {
    OneComponentReads(F64, c, inTime);
    UnitIsLetter(c.unit, inTime);
    PrefixedText(text, body);
  }

  lemma WholeTextIs(text: string, w: Written, c: Component, inTime: bool, total: nat)
    requires w == OneComponent(c, inTime) && Writes(text, w) && Good(EXACT, w) && Denoted(EXACT, w) == Finite(total as real)
    requires total as real <= TWO_53 && WholeFloat(EXACT.read(Dotted(c.number)).value)
    ensures ParseDuration(text) == Ok(total * BILLION)
  {
    WholeTextsAreExact(text, w);
  }

  lemma NumeralReads(n: nat)
    ensures NumberChars(NatText(n)) && Dotted(NatText(n)) == NatText(n)
    ensures NumberOk(NatText(n)) && NumberValue(NatText(n)) == n as real
  {
    NatTextValue(n);
    PlainNumber(NatText(n));
    DottedDigits(NatText(n));
  }

  /** Weeks, days, hours, minutes and seconds of the same length, in either case. */
  lemma UnitsAgree(weeks: nat, p: char, w: char, d: char, h: char, m: char, s: char)
    requires weeks * 604800 <= 0x20_0000_0000_0000 && p in {'P', 'p'}
    requires w in {'W', 'w'} && d in {'D', 'd'} && h in {'H', 'h'} && m in {'M', 'm'} && s in {'S', 's'}
    ensures ParseDuration([p] + (NatText(weeks) + [w])) == Ok(weeks * 604800 * BILLION)
    ensures ParseDuration([p] + (NatText(weeks * 7) + [d])) == Ok(weeks * 604800 * BILLION)
    ensures ParseDuration([p] + ("T" + NatText(weeks * 168) + [h])) == Ok(weeks * 604800 * BILLION)
    ensures ParseDuration([p] + ("T" + NatText(weeks * 10080) + [m])) == Ok(weeks * 604800 * BILLION)
    ensures ParseDuration([p] + ("T" + NatText(weeks * 604800) + [s])) == Ok(weeks * 604800 * BILLION)
  {
    UnitsWorth(weeks, w, d, h, m, s);
    DateText(weeks, w, weeks * 604800, p);
    DateText(weeks * 7, d, weeks * 604800, p);
    TimeText(weeks * 168, h, weeks * 604800, p);
    TimeText(weeks * 10080, m, weeks * 604800, p);
    TimeText(weeks * 604800, s, weeks * 604800, p);
  }

  lemma UnitsWorth(weeks: nat, w: char, d: char, h: char, m: char, s: char)
    requires w in {'W', 'w'} && d in {'D', 'd'} && h in {'H', 'h'} && m in {'M', 'm'} && s in {'S', 's'}
    ensures WorthOf(weeks, w, false, weeks * 604800) && WorthOf(weeks * 7, d, false, weeks * 604800)
    ensures WorthOf(weeks * 168, h, true, weeks * 604800) && WorthOf(weeks * 10080, m, true, weeks * 604800)
    ensures WorthOf(weeks * 604800, s, true, weeks * 604800)
  {
    UnitsAre(w, d, h, m, s);
    UnitWorth(weeks, w, false, 604800.0, weeks * 604800);
    UnitWorth(weeks * 7, d, false, 86400.0, weeks * 604800);
    UnitWorth(weeks * 168, h, true, 3600.0, weeks * 604800);
    UnitWorth(weeks * 10080, m, true, 60.0, weeks * 604800);
    UnitWorth(weeks * 604800, s, true, 1.0, weeks * 604800);
  }

  lemma UnitWorth(n: nat, unit: char, inTime: bool, seconds: real, total: nat)
    requires UnitSeconds(unit, inTime) == Some(seconds) && n as real * seconds == total as real
    ensures WorthOf(n, unit, inTime, total)
  {
  }

  lemma UnitsAre(w: char, d: char, h: char, m: char, s: char)
    requires w in {'W', 'w'} && d in {'D', 'd'} && h in {'H', 'h'} && m in {'M', 'm'} && s in {'S', 's'}
    ensures UnitSeconds(w, false) == Some(604800.0) && UnitSeconds(d, false) == Some(86400.0)
    ensures UnitSeconds(h, true) == Some(3600.0) && UnitSeconds(m, true) == Some(60.0) && UnitSeconds(s, true) == Some(1.0)
  {
  }

  lemma DateText(n: nat, unit: char, total: nat, p: char)
    requires p in {'P', 'p'} && total <= 0x20_0000_0000_0000
    requires WorthOf(n, unit, false, total)
    ensures ParseDuration([p] + (NatText(n) + [unit])) == Ok(total * BILLION)
  {
    NumeralReads(n);
    var body := NatText(n) + [unit];
    assert "" + NatText(n) + [unit] == body;
    WholeText(NatText(n), unit, false, n, total, [p] + body, body);
  }

  lemma TimeText(n: nat, unit: char, total: nat, p: char)
    requires p in {'P', 'p'} && total <= 0x20_0000_0000_0000
    requires WorthOf(n, unit, true, total)
    ensures ParseDuration([p] + ("T" + NatText(n) + [unit])) == Ok(total * BILLION)
  {
    NumeralReads(n);
    var body := "T" + NatText(n) + [unit];
    WholeText(NatText(n), unit, true, n, total, [p] + body, body);
  }

  // ---- what a rendered duration reads back as ------------------------------

  /** `PT<number>S` denotes the number, rounded once. */
  lemma SecondsText(number: string, text: string, body: string)
    requires NumberChars(number) && Dotted(number) == number && NumberOk(number) && NumberValue(number) <= TWO_64
    requires text == "PT" + number + "S" && body == "T" + number + "S"
    ensures Trim(text) == text && ParseDuration(text) == Length(Round(BINARY64, NumberValue(number)))
  {
    assert text == ['P'] + body;
    PrefixedText(text, body);
    var w := WrittenSeconds(number);
    ReadsAs(text, body, w);
    RoundedOnce(NumberValue(number));
  }

  lemma PrefixedText(text: string, body: string)
    requires text in {['P'] + body, ['p'] + body} && body != "" && !IsSpace(body[|body| - 1])
    ensures Trim(text) == text && StripP(text) == Some(body)
  {
  }

  lemma ReadsAs(text: string, body: string, w: Written)
    requires StripP(Trim(text)) == Some(body) && RenderAll(w) == body
    requires Good(F64, w) && w.time != []
    ensures ParseDuration(text) == Length(Denoted(F64, w))
  {
    ParseWritten(text, w);
  }

  lemma RoundedOnce(v: Amount)
    requires v <= TWO_64
    ensures PlusF64(ZERO, TimesF64(Round(BINARY64, v), 1.0)) == Round(BINARY64, v)
  {
    RoundFinite(BINARY64, v);
    RoundIsFloat(BINARY64, v);
    RoundExact(BINARY64, Round(BINARY64, v).value);
  }

  /** `T<number>S` writes one component of that many seconds. */
  lemma WrittenSeconds(number: string) returns (w: Written)
    requires NumberChars(number) && Dotted(number) == number && NumberOk(number)
    ensures Good(F64, w) && w.time != []
    ensures RenderAll(w) == "T" + number + "S"
    ensures Denoted(F64, w) == PlusF64(ZERO, TimesF64(Round(BINARY64, NumberValue(number)), 1.0))
  {
    var c := Component(number, 'S');
    w := Written([], Some('T'), [c]);
    assert GoodComponent(F64, c, true);
    AddComponent(F64, ZERO, [], c, true);
    assert [] + [c] == [c];
    assert Render([]) == "";
    assert Weigh(F64, ZERO, [], false) == ZERO && Weigh(F64, ZERO, [], true) == ZERO;
  }

  /** The standard duration holds less than 2^64 seconds. */
  const MAX_NANOS: nat := 18446744073709551616 * BILLION

  function InSeconds(nanos: nat): Amount {
    nanos as real / 1000000000.0
  }

  lemma RenderedReadsAs(nanos: nat)
    requires nanos < MAX_NANOS
    ensures Trim(FormatDuration(nanos)) == FormatDuration(nanos) && CalendarComponent(FormatDuration(nanos)) == None
    ensures Round(BINARY64, InSeconds(nanos)).Finite?
    ensures ParseDuration(FormatDuration(nanos)) == Length(Round(BINARY64, InSeconds(nanos)))
  {
    RenderedSeconds(nanos);
    NumberReadsAs(RenderedNumber(nanos), FormatDuration(nanos));
    RoundFinite(BINARY64, InSeconds(nanos));
  }

  lemma NumberReadsAs(number: string, text: string)
    requires NumberChars(number) && Dotted(number) == number && NumberOk(number) && NumberValue(number) <= TWO_64
    requires text == "PT" + number + "S"
    ensures Trim(text) == text && CalendarComponent(text) == None
    ensures ParseDuration(text) == Length(Round(BINARY64, NumberValue(number)))
  {
    SecondsText(number, text, "T" + number + "S");
    NotCalendar(text, number + "S");
  }

  predicate ReadsBack(nanos: nat) {
    ParseTimerDuration(FormatDuration(nanos)) == Ok(nanos)
  }

  /** `seconds` is a float the source's duration can be made from, and `nanos` is what it becomes. */
  ghost predicate Makes(seconds: Amount, nanos: nat) {
    IsFloat(BINARY64, seconds) && seconds < TWO_64 && Nanos(seconds) == nanos
  }

  lemma AsClose(nanos: nat, s: Amount, y: Amount, g: Amount)
    requires s == InSeconds(nanos) && Distance(g, s) <= Distance(y, s) && Nanos(y) == nanos
    ensures Nanos(g) == nanos && Distance(g, s) <= 0.5 / 1000000000.0
  {
    HalfEvenIs(y * 1000000000.0, nanos);
    HalfEvenIs(g * 1000000000.0, nanos);
  }

  /** A duration reads back from its text exactly when some float of seconds makes it. */
  lemma ReadsBackIff(nanos: nat)
    requires nanos < MAX_NANOS
    ensures ReadsBack(nanos) <==> exists seconds: Amount :: Makes(seconds, nanos)
  {
    RenderedReadsAs(nanos);
    var s := InSeconds(nanos);
    var g := Round(BINARY64, s).value;
    RoundIsFloat(BINARY64, s);
    if ReadsBack(nanos) {
      assert Makes(g, nanos);
    }
    forall y: Amount | Makes(y, nanos)
      ensures ReadsBack(nanos)
    {
      RoundNearest(BINARY64, s, y);
      AsClose(nanos, s, y, g);
    }
  }

  const SHORT: nat := 8388608

  /** Every duration below 2^23 seconds, some 97 days, reads back to the nanosecond. */
  lemma ShortReadsBack(nanos: nat)
    requires nanos < SHORT * BILLION
    ensures ReadsBack(nanos)
  {
    var s := InSeconds(nanos);
    RoundShort(BINARY64, s);
    RoundIsFloat(BINARY64, s);
    NearMakes(nanos, s, Round(BINARY64, s).value);
    ReadsBackIff(nanos);
  }

  lemma NearMakes(nanos: nat, s: Amount, g: Amount)
    requires s == InSeconds(nanos) && s < 8388608.0 && IsFloat(BINARY64, g) && Distance(g, s) <= 0.5 / 1073741824.0
    ensures Makes(g, nanos)
  {
    HalfEvenIs(g * 1000000000.0, nanos);
  }

  /** So does every whole number of seconds up to 2^53. */
  lemma WholeReadsBack(seconds: nat)
    requires seconds <= 0x20_0000_0000_0000
    ensures ReadsBack(seconds * BILLION)
  {
    WholeIsFloat(BINARY64, seconds as real);
    WholeLength(seconds as real);
    ReadsBackIff(seconds * BILLION);
    assert Makes(seconds as real, seconds * BILLION);
  }

  /** One nanosecond past 2^23 seconds does not: the float nearest to it is another nanosecond's. */
  lemma LongDoesNot()
    ensures !ReadsBack(SHORT * BILLION + 1)
  {
    var nanos := SHORT * BILLION + 1;
    forall y: Amount
      ensures !Makes(y, nanos)
    {
      BetweenFloats(y);
    }
    ReadsBackIff(nanos);
  }

  lemma BetweenFloats(y: Amount)
    ensures !Makes(y, SHORT * BILLION + 1)
  {
    var m := 536870912.0 * y;
    if IsFloat(BINARY64, y) && 8388608.0 <= y < 16777216.0 {
      LongSpacing(BINARY64, y);
      assert Whole(m);
      assert m.Floor <= 4503599627370496 ==> m <= 4503599627370496.0;
      assert m.Floor >= 4503599627370497 ==> m >= 4503599627370497.0;
    }
    HalfEvenIs(y * 1000000000.0, SHORT * BILLION + 1);
  }

  /** All durations shorter than `seconds` read back exactly up to that bound. */
  lemma AllReadBackIff(seconds: nat)
    ensures (forall nanos :: 0 <= nanos < seconds * BILLION ==> ReadsBack(nanos)) <==> seconds <= SHORT
  {
    if seconds <= SHORT {
      forall nanos | 0 <= nanos < seconds * BILLION
        ensures ReadsBack(nanos)
      {
        ShortReadsBack(nanos);
      }
    } else {
      LongDoesNot();
    }
  }

  /** What a rendered number reads as: only digits and at most one point, worth the given nanoseconds. */
  lemma RenderedSeconds(nanos: nat)
    ensures NumberChars(RenderedNumber(nanos)) && Dotted(RenderedNumber(nanos)) == RenderedNumber(nanos)
    ensures NumberOk(RenderedNumber(nanos))
    ensures NumberValue(RenderedNumber(nanos)) == InSeconds(nanos)
  {
    var whole, part := NatText(nanos / BILLION), nanos % BILLION;
    NatTextValue(nanos / BILLION);
    SumOfParts(nanos);
    if part == 0 {
      PlainNumber(whole);
    } else {
      var frac := FractionText(part);
      PointNumber(whole, frac);
    }
    DottedDigits(RenderedNumber(nanos));
  }

  lemma {:induction false} DropZerosEnds(s: string)
    ensures DropZeros(s) != "" ==> DropZeros(s)[|DropZeros(s)| - 1] != '0'
  {
    if s != "" && s[|s| - 1] == '0' {
      DropZerosEnds(s[..|s| - 1]);
    }
  }

  /** A fraction is written only where there is one, in at most nine digits and without trailing zeros. */
  lemma RenderedShape(nanos: nat) returns (frac: string)
    ensures AllDigits(frac) && |frac| <= 9 && (frac == "" <==> nanos % BILLION == 0)
    ensures frac != "" ==> frac[|frac| - 1] != '0'
    ensures FormatDuration(nanos) == "PT" + NatText(nanos / BILLION) + (if frac == "" then "" else "." + frac) + "S"
  {
    var whole, part := NatText(nanos / BILLION), nanos % BILLION;
    if part == 0 {
      frac := "";
      assert whole + "" == whole;
    } else {
      frac := FractionText(part);
      assert frac != "" by {
        assert Fraction("") == 0.0;
      }
      DropZerosEnds(Padded(part, 9));
      assert whole + "." + frac == whole + ("." + frac);
    }
  }

  lemma PlainNumber(whole: string)
    requires whole != "" && AllDigits(whole)
    ensures NumberOk(whole) && NumberValue(whole) == DigitsValue(whole) as real
  {
    NoDotInDigits(whole);
    assert whole[..|whole|] == whole;
  }

  lemma FractionText(part: nat) returns (frac: string)
    requires part < BILLION
    ensures frac == DropZeros(Padded(part, 9))
    ensures AllDigits(frac) && Fraction(frac) == part as real / 1000000000.0
  {
    frac := DropZeros(Padded(part, 9));
    NinePlaces(part as real);
    PaddedFraction(part, 9);
    DropZerosValue(Padded(part, 9));
  }

  lemma NinePlaces(x: real)
    ensures Pow10(9) == BILLION && Shift(x, 9) == x / 1000000000.0
  {
    assert Pow10(3) == 1000 && Pow10(6) == 1000000;
    assert Shift(x, 1) == x / 10.0;
    assert Shift(x, 3) == x / 1000.0;
    assert Shift(x, 5) == x / 100000.0;
    assert Shift(x, 7) == x / 10000000.0;
  }

  lemma SumOfParts(nanos: nat)
    ensures (nanos / BILLION) as real + (nanos % BILLION) as real / 1000000000.0 == nanos as real / 1000000000.0
  {
  }

  lemma PointNumber(whole: string, frac: string)
    requires (whole != "" || frac != "") && AllDigits(whole) && AllDigits(frac)
    ensures NumberOk(whole + "." + frac)
    ensures NumberValue(whole + "." + frac) == DigitsValue(whole) as real + Fraction(frac)
  {
    DotAfterDigits(whole, frac);
    var s := whole + "." + frac;
    assert s[..|whole|] == whole && s[|whole| + 1..] == frac;
  }

  lemma NotCalendar(text: string, rest: string)
    requires text == "PT" + rest && Trim(text) == text
    ensures CalendarComponent(text) == None
  {
  }

  // ---- instants ------------------------------------------------------------

  /** The RFC 3339 library: reading an instant, and writing one in UTC when its year can be written. */
  datatype Codec = Codec(parse: string -> Option<int>, format: int -> Option<string>)

  /** A written instant reads back as itself, is free of slashes, and has no space at its ends. */
  ghost predicate Lawful(codec: Codec) {
    forall at, t :: codec.format(at) == Some(t) ==> t != "" && Trimmed(t) && '/' !in t && codec.parse(t) == Some(at)
  }

  function ParseInstant(codec: Codec, input: string): Result<int, Rejection> {
    var s := Trim(input);
    if s == "" then Err(Malformed(None))
    else
      match codec.parse(s)
      case None => Err(Malformed(None))
      case Some(at) => Ok(at)
  }

  /** An instant that cannot be written becomes the empty text. */
  function FormatInstant(codec: Codec, at: int): string {
    match codec.format(at)
    case None => ""
    case Some(t) => t
  }

  // ---- repeating intervals -------------------------------------------------

  datatype CycleSpec = CycleSpec(repeats: Option<nat>, startAt: Option<string>, interval: string)

  /** An unsigned 32-bit numeral: an optional plus sign and digits, in range. */
  function ParseU32(s: string): Option<nat> {
    var digits := if s != "" && s[0] == '+' then s[1..] else s;
    if digits != "" && AllDigits(digits) && DigitsValue(digits) < U32 then Some(DigitsValue(digits)) else None
  }

  function Split(s: string): (parts: seq<string>)
    ensures parts != []
    decreases |s|
  {
    if s == "" then [""]
    else if s[0] == '/' then [""] + Split(s[1..])
    else
      var parts := Split(s[1..]);
      [[s[0]] + parts[0]] + parts[1..]
  }

  function StripR(s: string): Option<string> {
    if s != "" && (s[0] == 'R' || s[0] == 'r') then Some(s[1..]) else None
  }

  function ParseCount(count: string): Result<Option<nat>, Rejection> {
    if count == "" then Ok(None)
    else
      match ParseU32(count)
      case None => Err(Malformed(None))
      case Some(n) => if n == 0 then Err(Malformed(None)) else Ok(Some(n))
  }

  function ParseStart(codec: Codec, parts: seq<string>): Result<Option<string>, Rejection>
    requires 1 <= |parts| <= 2
  {
    if |parts| == 1 then Ok(None)
    else
      match ParseInstant(codec, parts[0])
      case Err(e) => Err(e)
      case Ok(at) => Ok(Some(FormatInstant(codec, at)))
  }

  /** What stands between the slashes of a cycle. */
  function ReadParts(codec: Codec, parts: seq<string>): Result<CycleSpec, Rejection>
    requires parts != []
  {
    match ParseCount(parts[0])
    case Err(e) => Err(e)
    case Ok(repeats) =>
      if |parts| == 1 || |parts| > 3 then Err(Malformed(None))
      else
        match ParseStart(codec, parts[1..])
        case Err(e) => Err(e)
        case Ok(start) =>
          var interval := parts[|parts| - 1];
          match ParseTimerDuration(interval)
          case Err(e) => Err(e)
          case Ok(d) => if d == 0 then Err(Malformed(None)) else Ok(CycleSpec(repeats, start, Trim(interval)))
  }

  /** `R[n]/[start/]interval`. */
  function ParseCycle(codec: Codec, input: string): Result<CycleSpec, Rejection> {
    var s := Trim(input);
    if s == "" then Err(Malformed(None))
    else
      match StripR(s)
      case None => Err(UnsupportedForm)
      case Some(rest) => ReadParts(codec, Split(rest))
  }

  // ---- definitions and their persisted form --------------------------------

  datatype Form = DurationForm | DateForm | CycleForm

  datatype Definition =
    | DurationTimer(text: string)
    | DateTimer(text: string)
    | CycleTimer(spec: CycleSpec)
    | ExpressionTimer(form: Form, text: string)

  function KindOf(form: Form): string {
    match form
    case DurationForm => "DURATION"
    case DateForm => "DATE"
    case CycleForm => "CYCLE"
  }

  function KindStr(d: Definition): string {
    match d
    case DurationTimer(_) => KindOf(DurationForm)
    case DateTimer(_) => KindOf(DateForm)
    case CycleTimer(_) => KindOf(CycleForm)
    case ExpressionTimer(form, _) => KindOf(form)
  }

  function CycleText(c: CycleSpec): string {
    "R" + (if c.repeats.Some? then NatText(c.repeats.value) else "") + "/"
    + (if c.startAt.Some? then c.startAt.value + "/" else "") + c.interval
  }

  function SpecText(d: Definition): string {
    match d
    case DurationTimer(t) => t
    case DateTimer(t) => t
    case CycleTimer(c) => CycleText(c)
    case ExpressionTimer(_, t) => t
  }

  function FormOf(kind: string): Option<Form> {
    if kind == KindOf(DurationForm) then Some(DurationForm)
    else if kind == KindOf(DateForm) then Some(DateForm)
    else if kind == KindOf(CycleForm) then Some(CycleForm)
    else None
  }

  function ReadForm(codec: Codec, form: Form, spec: string): Result<Definition, Rejection> {
    match form
    case DurationForm =>
      (match ParseTimerDuration(spec)
       case Err(e) => Err(e)
       case Ok(_) => Ok(DurationTimer(spec)))
    case DateForm =>
      (match ParseInstant(codec, spec)
       case Err(e) => Err(e)
       case Ok(_) => Ok(DateTimer(spec)))
    case CycleForm =>
      (match ParseCycle(codec, spec)
       case Err(e) => Err(e)
       case Ok(c) => Ok(CycleTimer(c)))
  }

  function FromPersisted(codec: Codec, kind: string, spec: string): Result<Definition, Rejection> {
    match FormOf(kind)
    case None => Err(Malformed(None))
    case Some(form) => ReadForm(codec, form, spec)
  }

  /** The kinds a row may carry, and no other. */
  lemma KindIff(kind: string, form: Form)
    ensures FormOf(kind) == Some(form) <==>
            kind == match form case DurationForm => "DURATION" case DateForm => "DATE" case CycleForm => "CYCLE"
  {
    FormOfKind(form);
  }

  lemma FormOfKind(form: Form)
    ensures FormOf(KindOf(form)) == Some(form)
  {
    assert |KindOf(DurationForm)| == 8 && |KindOf(DateForm)| == 4 && |KindOf(CycleForm)| == 5;
  }

  ghost predicate Survives(codec: Codec, d: Definition) {
    FromPersisted(codec, KindStr(d), SpecText(d)) == Ok(d)
  }

  // ---- splitting -----------------------------------------------------------

  lemma {:induction false} SplitOne(s: string)
    requires '/' !in s
    ensures Split(s) == [s]
    decreases |s|
  {
    if s != "" {
      assert s == [s[0]] + s[1..];
      assert '/' !in s[1..] by {
        assert forall c :: c in s[1..] ==> c in s;
      }
      SplitOne(s[1..]);
    }
  }

  lemma {:induction false} SplitCons(a: string, b: string)
    requires '/' !in a
    ensures Split(a + "/" + b) == [a] + Split(b)
    decreases |a|
  {
    if a == "" {
      assert a + "/" + b == "/" + b;
      assert ("/" + b)[1..] == b;
    } else {
      var s := a + "/" + b;
      assert s[0] == a[0] && s[1..] == a[1..] + "/" + b;
      assert '/' !in a[1..] by {
        assert forall c :: c in a[1..] ==> c in a;
      }
      SplitCons(a[1..], b);
      assert a[0] in a;
      assert [a[0]] + a[1..] == a;
    }
  }

  lemma {:induction false} PartsHaveNoSlash(s: string, i: nat)
    requires i < |Split(s)|
    ensures '/' !in Split(s)[i]
    decreases |s|
  {
    if s != "" {
      if s[0] == '/' {
        if i > 0 {
          PartsHaveNoSlash(s[1..], i - 1);
        }
      } else {
        PartsHaveNoSlash(s[1..], i);
      }
    }
  }

  // ---- what is a cycle -----------------------------------------------------

  function Join(parts: seq<string>): string
    requires parts != []
  {
    if |parts| == 1 then parts[0] else parts[0] + "/" + Join(parts[1..])
  }

  lemma JoinSlash(rest: seq<string>)
    requires rest != []
    ensures Join([""] + rest) == "/" + Join(rest)
  {
    assert ([""] + rest)[1..] == rest;
    assert "" + "/" + Join(rest) == "/" + Join(rest);
  }

  lemma JoinChar(c: char, rest: seq<string>)
    requires rest != []
    ensures Join([[c] + rest[0]] + rest[1..]) == [c] + Join(rest)
  {
    var parts := [[c] + rest[0]] + rest[1..];
    assert parts[1..] == rest[1..];
    if |rest| > 1 {
      assert [c] + rest[0] + "/" + Join(rest[1..]) == [c] + (rest[0] + "/" + Join(rest[1..]));
    }
  }

  lemma {:induction false} JoinSplit(s: string)
    ensures Join(Split(s)) == s
    decreases |s|
  {
    if s != "" {
      JoinSplit(s[1..]);
      JoinSlash(Split(s[1..]));
      JoinChar(s[0], Split(s[1..]));
      assert s == [s[0]] + s[1..];
    }
  }

  /** A count: none, or a numeral, perhaps after a plus sign, from 1 to 2^32 - 1. */
  ghost predicate CountMeans(count: string, repeats: Option<nat>) {
    match repeats
    case None => count == ""
    case Some(n) =>
      && 1 <= n < 0x1_0000_0000
      && exists digits :: count in {digits, "+" + digits} && digits != "" && AllDigits(digits) && DigitsValue(digits) == n
  }

  lemma CountIff(count: string, repeats: Option<nat>)
    ensures ParseCount(count) == Ok(repeats) <==> CountMeans(count, repeats)
  {
    if count != "" {
      var digits := if count[0] == '+' then count[1..] else count;
      assert count[0] == '+' ==> count == "+" + digits;
      assert count in {digits, "+" + digits};
      if repeats.Some? && CountMeans(count, repeats) {
        var other :| count in {other, "+" + other} && other != "" && AllDigits(other) && DigitsValue(other) == repeats.value;
        assert count == "+" + other ==> count[1..] == other;
        assert count == other ==> IsDigit(count[0]);
        assert other == digits;
      }
    }
  }

  /** A start, if any: an instant the library reads, kept as the library writes it, or as nothing when it cannot. */
  ghost predicate StartMeans(codec: Codec, start: Option<string>, startAt: Option<string>) {
    match start
    case None => startAt == None
    case Some(s) =>
      && Trim(s) != "" && codec.parse(Trim(s)).Some?
      && var written := codec.format(codec.parse(Trim(s)).value);
         startAt == Some(if written == None then "" else written.value)
  }

  /** `R<count>/<start>/<interval>`, the start and its slash optional, read as the cycle `c`. */
  ghost predicate IsCycle(codec: Codec, body: string, count: string, start: Option<string>, interval: string, c: CycleSpec) {
    && body == count + "/" + (if start == None then interval else start.value + "/" + interval)
    && '/' !in count && '/' !in interval && (start.Some? ==> '/' !in start.value)
    && CountMeans(count, c.repeats) && StartMeans(codec, start, c.startAt)
    && c.interval == Trim(interval) && ParseTimerDuration(interval).Ok? && ParseTimerDuration(interval).value > 0
  }

  lemma StartIff(codec: Codec, start: Option<string>, interval: string, startAt: Option<string>)
    ensures ParseStart(codec, if start == None then [interval] else [start.value, interval]) == Ok(startAt) <==>
            StartMeans(codec, start, startAt)
  {
  }

  lemma PartsIff(codec: Codec, count: string, start: Option<string>, interval: string, parts: seq<string>, c: CycleSpec)
    requires parts == [count] + if start == None then [interval] else [start.value, interval]
    ensures ReadParts(codec, parts) == Ok(c) <==>
            && CountMeans(count, c.repeats) && StartMeans(codec, start, c.startAt)
            && c.interval == Trim(interval) && ParseTimerDuration(interval).Ok? && ParseTimerDuration(interval).value > 0
  {
    CountIff(count, c.repeats);
    StartIff(codec, start, interval, c.startAt);
    assert parts[1..] == if start == None then [interval] else [start.value, interval];
  }

  /** The texts accepted as cycles are exactly those, in either case of the `R` and with space around. */
  lemma CycleIff(codec: Codec, input: string, c: CycleSpec)
    ensures ParseCycle(codec, input) == Ok(c) <==>
            exists r, body, count, start, interval ::
              r in {'R', 'r'} && Trim(input) == [r] + body && IsCycle(codec, body, count, start, interval, c)
  {
    if ParseCycle(codec, input) == Ok(c) {
      var body := StripR(Trim(input)).value;
      var count, start, interval := ReadsAsCycle(codec, body, c);
      assert Trim(input) == [Trim(input)[0]] + body;
    }
    forall r, body, count, start, interval | r in {'R', 'r'} && Trim(input) == [r] + body && IsCycle(codec, body, count, start, interval, c)
      ensures ParseCycle(codec, input) == Ok(c)
    {
      CycleReads(codec, body, count, start, interval, c);
      assert StripR(Trim(input)) == Some(body);
    }
  }

  lemma ReadsAsCycle(codec: Codec, body: string, c: CycleSpec) returns (count: string, start: Option<string>, interval: string)
    requires ReadParts(codec, Split(body)) == Ok(c)
    ensures IsCycle(codec, body, count, start, interval, c)
  {
    var parts := Split(body);
    forall i | 0 <= i < |parts|
      ensures '/' !in parts[i]
    {
      PartsHaveNoSlash(body, i);
    }
    JoinSplit(body);
    count, interval := parts[0], parts[|parts| - 1];
    start := if |parts| == 2 then None else Some(parts[1]);
    JoinParts(parts);
    PartsIff(codec, count, start, interval, parts, c);
  }

  lemma JoinParts(parts: seq<string>)
    requires 2 <= |parts| <= 3
    ensures |parts| == 2 ==> Join(parts) == parts[0] + "/" + parts[1]
    ensures |parts| == 3 ==> Join(parts) == parts[0] + "/" + (parts[1] + "/" + parts[2])
  {
    assert parts[1..][1..] == parts[2..];
  }

  lemma CycleReads(codec: Codec, body: string, count: string, start: Option<string>, interval: string, c: CycleSpec)
    requires IsCycle(codec, body, count, start, interval, c)
    ensures ReadParts(codec, Split(body)) == Ok(c)
  {
    if start == None {
      SplitTwo(count, interval);
    } else {
      SplitThree(count, start.value, interval);
    }
    PartsIff(codec, count, start, interval, Split(body), c);
  }

  // ---- the round trip ------------------------------------------------------

  /** An interval as it may stand in a cycle: trimmed, free of slashes, positive. */
  ghost predicate GoodInterval(interval: string) {
    && interval != "" && Trimmed(interval) && '/' !in interval
    && ParseTimerDuration(interval).Ok? && ParseTimerDuration(interval).value > 0
  }

  /** What parsing guarantees of a cycle: a usable budget, a trimmed slash-free positive interval, a written start. */
  ghost predicate Wellformed(codec: Codec, c: CycleSpec) {
    && (c.repeats.Some? ==> 0 < c.repeats.value < U32)
    && GoodInterval(c.interval)
    && (c.startAt.Some? ==> exists at :: c.startAt.value == FormatInstant(codec, at))
  }

  lemma ParsedIsWellformed(codec: Codec, input: string, c: CycleSpec)
    requires ParseCycle(codec, input) == Ok(c)
    ensures Wellformed(codec, c)
  {
    var rest := StripR(Trim(input)).value;
    PartsHaveNoSlash(rest, |Split(rest)| - 1);
    PartsAreWellformed(codec, Split(rest), c);
  }

  lemma PartsAreWellformed(codec: Codec, parts: seq<string>, c: CycleSpec)
    requires parts != [] && '/' !in parts[|parts| - 1] && ReadParts(codec, parts) == Ok(c)
    ensures Wellformed(codec, c)
  {
    IntervalIsGood(parts[|parts| - 1]);
  }

  lemma IntervalIsGood(interval: string)
    requires '/' !in interval && ParseTimerDuration(interval).Ok? && ParseTimerDuration(interval).value > 0
    ensures GoodInterval(Trim(interval))
  {
    TrimIdempotent(interval);
    TrimTrims(interval);
    NothingFromEmpty();
  }

  lemma NothingFromEmpty()
    ensures ParseTimerDuration("") == Err(Malformed(Some(NotADuration)))
  {
  }

  lemma CountReadsBack(n: nat)
    requires 0 < n < U32
    ensures ParseCount(NatText(n)) == Ok(Some(n)) && '/' !in NatText(n)
  {
    NatTextValue(n);
    var t := NatText(n);
    assert IsDigit(t[0]);
    forall c | c in t
      ensures c != '/'
    {
      var i :| 0 <= i < |t| && t[i] == c;
    }
  }

  lemma CycleSplits(c: CycleSpec, count: string)
    requires count == if c.repeats.Some? then NatText(c.repeats.value) else ""
    requires '/' !in count && '/' !in c.interval && (c.startAt.Some? ==> '/' !in c.startAt.value)
    ensures Split(CycleText(c)[1..]) == [count] + (if c.startAt.Some? then [c.startAt.value] else []) + [c.interval]
  {
    var text := CycleText(c)[1..];
    if c.startAt.Some? {
      assert text == count + "/" + (c.startAt.value + "/" + c.interval);
      SplitThree(count, c.startAt.value, c.interval);
    } else {
      assert text == count + "/" + c.interval;
      SplitTwo(count, c.interval);
    }
  }

  lemma SplitTwo(a: string, b: string)
    requires '/' !in a && '/' !in b
    ensures Split(a + "/" + b) == [a, b]
  {
    SplitOne(b);
    SplitCons(a, b);
  }

  lemma SplitThree(a: string, b: string, c: string)
    requires '/' !in a && '/' !in b && '/' !in c
    ensures Split(a + "/" + (b + "/" + c)) == [a, b, c]
  {
    SplitTwo(b, c);
    SplitCons(a, b + "/" + c);
  }

  lemma CycleTextTrimmed(c: CycleSpec)
    requires c.interval != "" && Trimmed(c.interval)
    ensures Trim(CycleText(c)) == CycleText(c) && StripR(CycleText(c)) == Some(CycleText(c)[1..])
  {
  }

  /** A well-formed cycle reads back from its text exactly when it has no start or a start that could be written. */
  lemma CycleRoundTrip(codec: Codec, c: CycleSpec)
    requires Lawful(codec) && Wellformed(codec, c)
    ensures c.startAt != Some("") ==> ParseCycle(codec, CycleText(c)) == Ok(c)
    ensures c.startAt == Some("") ==> ParseCycle(codec, CycleText(c)).Err?
  {
    var count := if c.repeats.Some? then NatText(c.repeats.value) else "";
    if c.repeats.Some? {
      CountReadsBack(c.repeats.value);
    }
    StartReadsBack(codec, c);
    CycleTextTrimmed(c);
    CycleSplits(c, count);
    PartsReadBack(codec, c, count, Split(CycleText(c)[1..]));
  }

  lemma PartsReadBack(codec: Codec, c: CycleSpec, count: string, parts: seq<string>)
    requires ParseCount(count) == Ok(c.repeats) && GoodInterval(c.interval)
    requires parts == [count] + (if c.startAt.Some? then [c.startAt.value] else []) + [c.interval]
    requires c.startAt.Some? && c.startAt != Some("") ==> ParseStart(codec, [c.startAt.value, c.interval]) == Ok(c.startAt)
    requires c.startAt == Some("") ==> ParseStart(codec, ["", c.interval]).Err?
    ensures c.startAt != Some("") ==> ReadParts(codec, parts) == Ok(c)
    ensures c.startAt == Some("") ==> ReadParts(codec, parts).Err?
  {
    TrimOfTrimmed(c.interval);
    assert parts[1..] == (if c.startAt.Some? then [c.startAt.value] else []) + [c.interval];
  }

  lemma StartReadsBack(codec: Codec, c: CycleSpec)
    requires Lawful(codec) && Wellformed(codec, c)
    ensures c.startAt.Some? ==> '/' !in c.startAt.value
    ensures c.startAt.Some? && c.startAt != Some("") ==> ParseStart(codec, [c.startAt.value, c.interval]) == Ok(c.startAt)
    ensures c.startAt == Some("") ==> ParseStart(codec, ["", c.interval]).Err?
  {
  }

  /**
   A parsed cycle survives persistence, except one whose anchored start normalises to an instant that cannot
   be written: that one does not.
   */
  lemma ParsedCycleSurvives(codec: Codec, input: string, c: CycleSpec)
    requires Lawful(codec) && ParseCycle(codec, input) == Ok(c)
    ensures Survives(codec, CycleTimer(c)) <==> c.startAt != Some("")
  {
    ParsedIsWellformed(codec, input, c);
    CycleSurvives(codec, c);
  }

  /** The literal definitions the parsers build. */
  ghost predicate Built(codec: Codec, d: Definition) {
    match d
    case DurationTimer(t) => ParseTimerDuration(t).Ok?
    case DateTimer(t) => ParseInstant(codec, t).Ok?
    case CycleTimer(c) => exists input :: ParseCycle(codec, input) == Ok(c)
    case ExpressionTimer(_, _) => false
  }

  /** Every literal definition survives persistence, except a cycle whose start was lost. */
  lemma BuiltSurvives(codec: Codec, d: Definition)
    requires Lawful(codec) && Built(codec, d)
    ensures Survives(codec, d) <==> !(d.CycleTimer? && d.spec.startAt == Some(""))
  {
    if d.CycleTimer? {
      var input :| ParseCycle(codec, input) == Ok(d.spec);
      ParsedCycleSurvives(codec, input, d.spec);
    }
  }

  lemma CycleSurvives(codec: Codec, c: CycleSpec)
    requires Lawful(codec) && Wellformed(codec, c)
    ensures Survives(codec, CycleTimer(c)) <==> c.startAt != Some("")
  {
    CycleRoundTrip(codec, c);
    CyclePersisted(codec, c);
  }

  lemma CyclePersisted(codec: Codec, c: CycleSpec)
    ensures Survives(codec, CycleTimer(c)) <==> ParseCycle(codec, CycleText(c)) == Ok(c)
  {
    FormOfKind(CycleForm);
  }

  /** The start text is lost exactly for an anchor outside what the library can write. */
  lemma StartLostIff(codec: Codec, input: string)
    requires Lawful(codec) && ParseCycle(codec, input).Ok?
    ensures ParseCycle(codec, input).value.startAt == Some("") <==>
              var parts := Split(StripR(Trim(input)).value);
              |parts| == 3 && codec.format(ParseInstant(codec, parts[1]).value).None?
  {
    StartLostParts(codec, Split(StripR(Trim(input)).value));
  }

  lemma StartLostParts(codec: Codec, parts: seq<string>)
    requires Lawful(codec) && parts != [] && ReadParts(codec, parts).Ok?
    ensures ReadParts(codec, parts).value.startAt == Some("") <==>
              |parts| == 3 && ParseInstant(codec, parts[1]).Ok? && codec.format(ParseInstant(codec, parts[1]).value).None?
    ensures |parts| == 3 ==> ParseInstant(codec, parts[1]).Ok?
  {
  }

  lemma AnchoredText(start: string, interval: string, text: string)
    requires '/' !in start && GoodInterval(interval) && text == "R/" + start + "/" + interval
    ensures Trim(text) == text && StripR(text) == Some(text[1..]) && Split(text[1..]) == ["", start, interval]
  {
    assert text[1..] == "" + "/" + (start + "/" + interval);
    SplitThree("", start, interval);
    TrimOfTrimmed(text);
  }

  /** An anchored start the library reads but cannot write: the cycle is accepted, its start is gone, and it does not survive. */
  lemma LostStart(codec: Codec, start: string, at: int, interval: string, text: string)
    requires Lawful(codec) && codec.parse(start) == Some(at) && codec.format(at) == None
    requires start != "" && Trimmed(start) && '/' !in start
    requires GoodInterval(interval) && text == "R/" + start + "/" + interval
    ensures ParseCycle(codec, text) == Ok(CycleSpec(None, Some(""), interval))
    ensures !Survives(codec, CycleTimer(CycleSpec(None, Some(""), interval)))
  {
    AnchoredText(start, interval, text);
    TrimOfTrimmed(start);
    TrimOfTrimmed(interval);
    assert ["", start, interval][1..] == [start, interval];
    ParsedCycleSurvives(codec, text, CycleSpec(None, Some(""), interval));
  }

  /** Such an interval is any whole number of seconds, as the source renders it. */
  lemma RenderedInterval(seconds: nat)
    requires 0 < seconds <= 0x20_0000_0000_0000
    ensures GoodInterval(FormatDuration(seconds * BILLION))
  {
    WholeReadsBack(seconds);
    RenderedSeconds(seconds * BILLION);
    NumberHasNoSlash(RenderedNumber(seconds * BILLION), FormatDuration(seconds * BILLION));
  }

  lemma NumberHasNoSlash(number: string, text: string)
    requires NumberChars(number) && text == "PT" + number + "S"
    ensures text != "" && Trimmed(text) && '/' !in text
  {
    assert forall i :: 0 <= i < |text| ==> text[i] != '/';
  }

  // ---- resolved expressions ------------------------------------------------

  /** A days-and-time duration: signed, below 2^63 seconds. */
  type Span = n: int | -0x8000_0000_0000_0001 * BILLION < n < 0x8000_0000_0000_0000 * BILLION

  /** The results of a timer expression the resolver tells apart. */
  datatype FeelValue = FeelText(text: string) | FeelSpan(nanos: Span) | FeelMoment(at: int, zoned: bool) | FeelOther

  function ResolveDuration(v: FeelValue): Option<Definition> {
    match v
    case FeelText(s) => if ParseTimerDuration(s).Ok? then Some(DurationTimer(Trim(s))) else None
    case FeelSpan(n) => if n >= 0 then Some(DurationTimer(FormatDuration(n))) else None
    case FeelMoment(_, _) => None
    case FeelOther => None
  }

  function ResolveInstant(codec: Codec, v: FeelValue): Option<int> {
    match v
    case FeelText(s) => if ParseInstant(codec, s).Ok? then Some(ParseInstant(codec, s).value) else None
    case FeelMoment(at, zoned) => if zoned then Some(at) else None
    case FeelSpan(_) => None
    case FeelOther => None
  }

  /** The literal definition an expression's result stands for. */
  function Resolve(codec: Codec, form: Form, v: FeelValue): Option<Definition> {
    match form
    case DurationForm => ResolveDuration(v)
    case DateForm =>
      var at := ResolveInstant(codec, v);
      if at.Some? then Some(DateTimer(FormatInstant(codec, at.value))) else None
    case CycleForm =>
      if v.FeelText? && ParseCycle(codec, v.text).Ok? then Some(CycleTimer(ParseCycle(codec, v.text).value)) else None
  }

  /** The instant a resolved definition had to write down, if any, could be written. */
  ghost predicate Writable(d: Definition) {
    match d
    case DateTimer(t) => t != ""
    case CycleTimer(c) => c.startAt != Some("")
    case DurationTimer(_) => true
    case ExpressionTimer(_, _) => false
  }

  lemma SpanParses(nanos: nat)
    requires nanos < 0x8000_0000_0000_0000 * BILLION
    ensures ParseTimerDuration(FormatDuration(nanos)).Ok?
  {
    var s := InSeconds(nanos);
    RenderedReadsAs(nanos);
    RoundBelow(s);
  }

  lemma RoundBelow(s: Amount)
    requires s < 9223372036854775808.0 && Round(BINARY64, s).Finite?
    ensures Round(BINARY64, s).value < TWO_64
  {
    WholeIsFloat(BINARY64, 0.0);
    RoundNearest(BINARY64, s, 0.0);
  }

  /** A resolved definition is of the form asked for and survives persistence exactly when its instant could be written. */
  lemma ResolvedSurvives(codec: Codec, form: Form, v: FeelValue)
    requires Lawful(codec) && Resolve(codec, form, v).Some?
    ensures KindStr(Resolve(codec, form, v).value) == KindOf(form)
    ensures Survives(codec, Resolve(codec, form, v).value) <==> Writable(Resolve(codec, form, v).value)
  {
    var d := Resolve(codec, form, v).value;
    match form
    case DurationForm =>
      if v.FeelText? {
        TrimIdempotent(v.text);
      } else {
        SpanParses(v.nanos);
      }
    case DateForm =>
      var at := ResolveInstant(codec, v).value;
      if codec.format(at).Some? {
        TrimOfTrimmed(d.text);
      }
      assert Trim("") == "";
    case CycleForm =>
      ParsedCycleSurvives(codec, v.text, d.spec);
  }

  // ---- due instants and budgets --------------------------------------------

  function TotalFires(d: Definition): Option<nat> {
    match d
    case DurationTimer(_) => Some(1)
    case DateTimer(_) => Some(1)
    case CycleTimer(c) => c.repeats
    case ExpressionTimer(form, _) => if form == CycleForm then None else Some(1)
  }

  function FirstDueAt(codec: Codec, d: Definition, now: int): Result<int, Rejection> {
    match d
    case DurationTimer(t) => (match ParseTimerDuration(t) case Err(e) => Err(e) case Ok(n) => Ok(now + n))
    case DateTimer(t) => ParseInstant(codec, t)
    case CycleTimer(c) =>
      if c.startAt.Some? then ParseInstant(codec, c.startAt.value)
      else (match ParseTimerDuration(c.interval) case Err(e) => Err(e) case Ok(n) => Ok(now + n))
    case ExpressionTimer(_, _) => Err(Malformed(None))
  }

  /** The literal text of a timer's own instant. */
  ghost predicate NamesInstant(codec: Codec, text: string, at: int) {
    Trim(text) != "" && codec.parse(Trim(text)) == Some(at)
  }

  /** A timer is first due its length after it is armed, or at the instant it names, however it is armed. */
  lemma FirstDueIff(codec: Codec, d: Definition, now: int, at: int)
    ensures d.DurationTimer? ==>
              (FirstDueAt(codec, d, now) == Ok(at) <==> at >= now && ParseTimerDuration(d.text) == Ok(at - now))
    ensures d.CycleTimer? && d.spec.startAt == None ==>
              (FirstDueAt(codec, d, now) == Ok(at) <==> at >= now && ParseTimerDuration(d.spec.interval) == Ok(at - now))
    ensures d.DateTimer? ==> (FirstDueAt(codec, d, now) == Ok(at) <==> NamesInstant(codec, d.text, at))
    ensures d.CycleTimer? && d.spec.startAt.Some? ==>
              (FirstDueAt(codec, d, now) == Ok(at) <==> NamesInstant(codec, d.spec.startAt.value, at))
    ensures d.ExpressionTimer? ==> FirstDueAt(codec, d, now).Err?
  {
  }

  /** A duration or a date fires once. */
  lemma FiresOnce(d: Definition, interval: nat, first: int, fires: seq<TimerCycle.Fire>)
    requires (d.DurationTimer? || d.DateTimer?) && TimerCycle.IsChain(interval, first, TotalFires(d), fires)
    ensures |fires| == 1
  {
    TimerCycle.AtMostN(interval, first, 1, fires);
  }

  /** A duration given as text is due that long after it is armed. */
  lemma ResolvedTextDue(codec: Codec, text: string, now: int)
    ensures Resolve(codec, DurationForm, FeelText(text)).Some? <==> ParseTimerDuration(text).Ok?
    ensures ParseTimerDuration(text).Ok? ==>
              FirstDueAt(codec, Resolve(codec, DurationForm, FeelText(text)).value, now) == Ok(now + ParseTimerDuration(text).value)
  {
    TrimIdempotent(text);
  }

  /** One given as a span is due that long after, exactly when the span reads back from its text; a negative one is refused. */
  lemma ResolvedSpanDue(codec: Codec, nanos: Span, now: int)
    ensures Resolve(codec, DurationForm, FeelSpan(nanos)).Some? <==> nanos >= 0
    ensures nanos >= 0 ==>
              (FirstDueAt(codec, Resolve(codec, DurationForm, FeelSpan(nanos)).value, now) == Ok(now + nanos) <==> ReadsBack(nanos))
  {
    if nanos >= 0 {
      DurationDue(codec, FormatDuration(nanos), now, nanos);
    }
  }

  lemma DurationDue(codec: Codec, text: string, now: int, nanos: nat)
    ensures FirstDueAt(codec, DurationTimer(text), now) == Ok(now + nanos) <==> ParseTimerDuration(text) == Ok(nanos)
  {
  }

  /** The instant a value stands for, when it carries its own zone. */
  ghost predicate StandsFor(codec: Codec, v: FeelValue, at: int) {
    v == FeelMoment(at, true) || (v.FeelText? && NamesInstant(codec, v.text, at))
  }

  /** A resolved date is due at the very instant, when the library can write it. */
  lemma ResolvedDateDue(codec: Codec, v: FeelValue, now: int, at: int)
    requires Lawful(codec)
    ensures Resolve(codec, DateForm, v).Some? <==> exists x :: StandsFor(codec, v, x)
    ensures StandsFor(codec, v, at) && codec.format(at).Some? ==>
              Resolve(codec, DateForm, v).Some? && FirstDueAt(codec, Resolve(codec, DateForm, v).value, now) == Ok(at)
  {
    if ResolveInstant(codec, v).Some? {
      assert StandsFor(codec, v, ResolveInstant(codec, v).value);
    }
    if StandsFor(codec, v, at) && codec.format(at).Some? {
      TrimOfTrimmed(codec.format(at).value);
    }
  }

  /** A resolved cycle is the one its text says. */
  lemma ResolvedCycleIs(codec: Codec, v: FeelValue, c: CycleSpec)
    ensures Resolve(codec, CycleForm, v) == Some(CycleTimer(c)) <==> v.FeelText? && ParseCycle(codec, v.text) == Ok(c)
    ensures Resolve(codec, CycleForm, v).Some? ==> Resolve(codec, CycleForm, v).value.CycleTimer?
  {
  }

  /** A well-formed cycle has a first due instant unless its start was lost; an unanchored one is due after it is armed. */
  lemma CycleFirstDue(codec: Codec, c: CycleSpec, now: int)
    requires Lawful(codec) && Wellformed(codec, c)
    ensures FirstDueAt(codec, CycleTimer(c), now).Ok? <==> c.startAt != Some("")
    ensures c.startAt == None ==> FirstDueAt(codec, CycleTimer(c), now).value > now
  {
  }

  /** Advancing a cycle as it is stored: its interval is read again at every fire. */
  method AdvanceSpec(c: CycleSpec, firedDue: int, remaining: Option<nat>, now: int)
    returns (r: Result<TimerCycle.Advance, Rejection>)
    ensures r.Ok? <==> ParseTimerDuration(c.interval).Ok?
    ensures r.Err? ==> r.error == ParseTimerDuration(c.interval).error
    ensures r.Ok? ==> TimerCycle.Advances(ParseTimerDuration(c.interval).value, firedDue, remaining, now, r.value)
  {
    var interval := ParseTimerDuration(c.interval);
    if interval.Err? {
      return Err(interval.error);
    }
    var next := TimerCycle.AdvanceCycle(interval.value, firedDue, remaining, now);
    return Ok(next);
  }

  /** However late its fires are, a cycle read from `R<n>/...` fires at most n times and never after its n-th slot. */
  lemma CycleKeepsBudget(codec: Codec, input: string, c: CycleSpec, now: int, fires: seq<TimerCycle.Fire>)
    requires Lawful(codec) && ParseCycle(codec, input) == Ok(c) && c.startAt != Some("") && c.repeats.Some?
    ensures ParseTimerDuration(c.interval).Ok? && FirstDueAt(codec, CycleTimer(c), now).Ok?
    ensures var interval, first := ParseTimerDuration(c.interval).value, FirstDueAt(codec, CycleTimer(c), now).value;
            TimerCycle.IsChain(interval, first, TotalFires(CycleTimer(c)), fires) ==>
              |fires| <= c.repeats.value && TimerCycle.WithinSlots(interval, first, c.repeats.value, fires)
  {
    ParsedIsWellformed(codec, input, c);
    CycleFirstDue(codec, c, now);
    var interval, first := ParseTimerDuration(c.interval).value, FirstDueAt(codec, CycleTimer(c), now).value;
    if TimerCycle.IsChain(interval, first, c.repeats, fires) {
      TimerCycle.AtMostN(interval, first, c.repeats.value, fires);
    }
  }
}
