/**
 ISO-8601 duration parsing (rust/crates/sutra-bpmn/src/duration.rs, and the duration half of
 rust/crates/sutra-bpmn/src/timer.rs).

 What is accepted, and the value given to it, are pinned down by a grammar: section 4.4.3 of ISO 8601:2004
 restricted to exact lengths, with the liberties the parser takes. The numbers are 64-bit floats; the scanner
 and the grammar are compared for any arithmetic, then used with that one.
 */
module Duration {
  import opened Basics
  import opened Floats
  import opened Text

  /** `Overflows` is a length the source's conversion to a standard duration panics on. */
  datatype DurationError =
    | NotADuration
    | NoComponents
    | TwoSeparators
    | NumberBeforeSeparator
    | BadNumber
    | CalendarUnit
    | UnexpectedUnit
    | DanglingNumber
    | NotFinite
    | Overflows

  // ---- numbers -------------------------------------------------------------

  function FirstDot(s: string): (i: nat)
    ensures i <= |s|
  {
    if s == "" || s[0] == '.' then 0 else 1 + FirstDot(s[1..])
  }

  /** What the float parser accepts among digits and dots: at least one digit, at most one dot. */
  predicate NumberOk(s: string) {
    var d := FirstDot(s);
    && AllDigits(s[..d])
    && (d < |s| ==> AllDigits(s[d + 1..]))
    && (d > 0 || d + 1 < |s|)
  }

  ghost predicate OnePointAtMost(s: string) {
    forall i, j :: 0 <= i < j < |s| ==> s[i] != '.' || s[j] != '.'
  }

  lemma {:induction false} FirstDotIs(s: string)
    ensures forall i :: 0 <= i < FirstDot(s) ==> s[i] != '.'
    ensures FirstDot(s) < |s| ==> s[FirstDot(s)] == '.'
  {
    if s != "" && s[0] != '.' {
      FirstDotIs(s[1..]);
      assert forall i :: 1 <= i < |s| ==> s[i] == s[1..][i - 1];
    }
  }

  /** A number is digits with at most one point among them, and at least one digit. */
  lemma NumberIff(s: string)
    ensures NumberOk(s) <==>
            && (forall i :: 0 <= i < |s| ==> IsDigit(s[i]) || s[i] == '.')
            && (exists i :: 0 <= i < |s| && IsDigit(s[i])) && OnePointAtMost(s)
  {
    var d := FirstDot(s);
    FirstDotIs(s);
    if NumberOk(s) {
      assert forall i :: 0 <= i < d ==> s[i] == s[..d][i];
      assert forall i :: d < i < |s| ==> s[i] == s[d + 1..][i - d - 1];
      assert IsDigit(s[if d > 0 then 0 else 1]);
    }
    if (forall i :: 0 <= i < |s| ==> IsDigit(s[i]) || s[i] == '.') && OnePointAtMost(s) {
      assert AllDigits(s[..d]);
      assert d < |s| ==> AllDigits(s[d + 1..]);
    }
  }

  /** The value of digits read after the point. */
  function Fraction(s: string): Amount
    requires AllDigits(s)
  {
    if s == "" then 0.0 else (DigitValue(s[0]) as real + Fraction(s[1..])) / 10.0
  }

  function NumberValue(s: string): Amount
    requires NumberOk(s)
  {
    var d := FirstDot(s);
    DigitsValue(s[..d]) as real + if d < |s| then Fraction(s[d + 1..]) else 0.0
  }

  // ---- units ---------------------------------------------------------------

  function Upper(c: char): char {
    if 'a' <= c <= 'z' then (c as int - 'a' as int + 'A' as int) as char else c
  }

  predicate IsSeparator(c: char) {
    c == 'T' || c == 't'
  }

  predicate IsNumberChar(c: char) {
    IsDigit(c) || c == '.' || c == ','
  }

  /** The seconds in a unit, by the part of the duration the unit stands in. */
  function UnitSeconds(unit: char, inTime: bool): Option<Amount> {
    match (Upper(unit), inTime)
    case ('W', false) => Some(604800.0)
    case ('D', false) => Some(86400.0)
    case ('H', true) => Some(3600.0)
    case ('M', true) => Some(60.0)
    case ('S', true) => Some(1.0)
    case _ => None
  }

  predicate IsCalendarUnit(c: char) {
    Upper(c) == 'Y' || Upper(c) == 'M'
  }

  // ---- the character machine -----------------------------------------------

  /** Reading a number, multiplying it by a unit, adding to a total. The machine does not depend on how these round. */
  datatype Arithmetic = Arithmetic(
    read: string -> Option<Float>,
    times: (Float, Amount) -> Float,
    plus: (Float, Float) -> Float)

  function ReadF64(s: string): Option<Float> {
    if NumberOk(s) then Some(Round(BINARY64, NumberValue(s))) else None
  }

  function TimesF64(x: Float, unit: Amount): Float {
    match x
    case Infinite => Infinite
    case Finite(v) => Round(BINARY64, v * unit)
  }

  function PlusF64(x: Float, y: Float): Float {
    if x.Infinite? || y.Infinite? then Infinite else Round(BINARY64, x.value + y.value)
  }

  const F64: Arithmetic := Arithmetic(ReadF64, TimesF64, PlusF64)

  const ZERO := Finite(0.0)

  datatype Scan = Scan(total: Float, inTime: bool, saw: bool, number: string)

  const START := Scan(ZERO, false, false, "")

  function StepChar(ar: Arithmetic, st: Scan, c: char): Result<Scan, DurationError> {
    if IsSeparator(c) then
      if st.inTime then Err(TwoSeparators)
      else if st.number != "" then Err(NumberBeforeSeparator)
      else Ok(st.(inTime := true))
    else if IsNumberChar(c) then Ok(st.(number := st.number + [if c == ',' then '.' else c]))
    else if ar.read(st.number).None? then Err(BadNumber)
    else
      match UnitSeconds(c, st.inTime)
      case Some(unit) => Ok(Scan(ar.plus(st.total, ar.times(ar.read(st.number).value, unit)), st.inTime, true, ""))
      case None => Err(if IsCalendarUnit(c) && !st.inTime then CalendarUnit else UnexpectedUnit)
  }

  function ScanAll(ar: Arithmetic, st: Scan, chars: string): Result<Scan, DurationError>
    decreases |chars|
  {
    if chars == "" then Ok(st)
    else
      match StepChar(ar, st, chars[0])
      case Err(e) => Err(e)
      case Ok(st') => ScanAll(ar, st', chars[1..])
  }

  /** Seconds to the nearest nanosecond, ties to even. */
  function Nanos(seconds: Amount): nat {
    HalfEven(seconds * 1000000000.0)
  }

  /** The length a total stands for, in nanoseconds. */
  function Length(total: Float): Result<nat, DurationError> {
    match total
    case Infinite => Err(NotFinite)
    case Finite(seconds) => if seconds >= TWO_64 then Err(Overflows) else Ok(Nanos(seconds))
  }

  /** A length is a finite sum below 2^64 seconds, to the nearest nanosecond; of two equally near, the even one. */
  lemma LengthIs(total: Float, nanos: nat)
    ensures Length(total) == Ok(nanos) <==>
            && total.Finite? && total.value < TWO_64
            && var apart := Distance(total.value * 1000000000.0, nanos as real);
               apart < 0.5 || (apart == 0.5 && nanos % 2 == 0)
    ensures Length(total) == Err(NotFinite) <==> total == Infinite
    ensures Length(total) == Err(Overflows) <==> total.Finite? && total.value >= TWO_64
  {
    if total.Finite? {
      HalfEvenIs(total.value * 1000000000.0, nanos);
    }
  }

  function Finish(st: Scan): Result<nat, DurationError> {
    if st.number != "" then Err(DanglingNumber)
    else if !st.saw then Err(NoComponents)
    else Length(st.total)
  }

  function StripP(s: string): Option<string> {
    if s != "" && (s[0] == 'P' || s[0] == 'p') then Some(s[1..]) else None
  }

  /** The length in nanoseconds a text denotes, or why it denotes none. */
  function ParseDuration(input: string): Result<nat, DurationError> {
    match StripP(Trim(input))
    case None => Err(NotADuration)
    case Some(rest) =>
      if rest == "" then Err(NoComponents)
      else
        match ScanAll(F64, START, rest)
        case Err(e) => Err(e)
        case Ok(st) => Finish(st)
  }

  /** One character of the source's loop. */
  method TakeChar(ar: Arithmetic, st: Scan, c: char) returns (r: Result<Scan, DurationError>)
    ensures r == StepChar(ar, st, c)
  {
    var total, inTime, saw, number := st.total, st.inTime, st.saw, st.number;
    if IsSeparator(c) {
      if inTime {
        return Err(TwoSeparators);
      }
      if number != "" {
        return Err(NumberBeforeSeparator);
      }
      inTime := true;
    } else if IsNumberChar(c) {
      number := number + [if c == ',' then '.' else c];
    } else {
      var value := ar.read(number);
      if value == None {
        return Err(BadNumber);
      }
      number, saw := "", true;
      var unit := UnitSeconds(c, inTime);
      if unit == None {
        return Err(if IsCalendarUnit(c) && !inTime then CalendarUnit else UnexpectedUnit);
      }
      total := ar.plus(total, ar.times(value.value, unit.value));
    }
    return Ok(Scan(total, inTime, saw, number));
  }

  /** The source's loop over the characters. */
  method ParseIso8601Duration(input: string) returns (r: Result<nat, DurationError>)
    ensures r == ParseDuration(input)
  {
    var stripped := StripP(Trim(input));
    if stripped == None {
      return Err(NotADuration);
    }
    var rest := stripped.value;
    if rest == "" {
      return Err(NoComponents);
    }
    var st := START;
    for i := 0 to |rest|
      invariant ScanAll(F64, START, rest) == ScanAll(F64, st, rest[i..])
    {
      assert rest[i..][0] == rest[i] && rest[i..][1..] == rest[i + 1..];
      var next := TakeChar(F64, st, rest[i]);
      if next.Err? {
        return Err(next.error);
      }
      st := next.value;
    }
    assert rest[|rest|..] == "";
    if st.number != "" {
      return Err(DanglingNumber);
    }
    if !st.saw {
      return Err(NoComponents);
    }
    if st.total == Infinite {
      return Err(NotFinite);
    }
    if st.total.value >= TWO_64 {
      return Err(Overflows);
    }
    return Ok(Nanos(st.total.value));
  }

  // ---- the grammar ---------------------------------------------------------

  /** A number as written and the unit after it. */
  datatype Component = Component(number: string, unit: char)

  /** Date components, then optionally a separator and time components. */
  datatype Written = Written(date: seq<Component>, sep: Option<char>, time: seq<Component>)

  /** The number with its decimal comma, if it has one, as a point. */
  function Dotted(s: string): (t: string)
    ensures |t| == |s| && forall i :: 0 <= i < |s| ==> t[i] == if s[i] == ',' then '.' else s[i]
  {
    if s == "" then "" else Dotted(s[..|s| - 1]) + [if s[|s| - 1] == ',' then '.' else s[|s| - 1]]
  }

  ghost predicate NumberChars(s: string) {
    forall i :: 0 <= i < |s| ==> IsNumberChar(s[i])
  }

  ghost predicate GoodComponent(ar: Arithmetic, c: Component, inTime: bool) {
    && NumberChars(c.number) && ar.read(Dotted(c.number)).Some?
    && UnitSeconds(c.unit, inTime).Some?
  }

  ghost predicate GoodComponents(ar: Arithmetic, cs: seq<Component>, inTime: bool) {
    forall i :: 0 <= i < |cs| ==> GoodComponent(ar, cs[i], inTime)
  }

  ghost predicate Good(ar: Arithmetic, w: Written) {
    && GoodComponents(ar, w.date, false) && GoodComponents(ar, w.time, true)
    && (w.sep.Some? ==> IsSeparator(w.sep.value))
    && (w.sep.None? ==> w.time == [])
  }

  function Render(cs: seq<Component>): string {
    if cs == [] then "" else Render(cs[..|cs| - 1]) + cs[|cs| - 1].number + [cs[|cs| - 1].unit]
  }

  function RenderAll(w: Written): string {
    Render(w.date) + (if w.sep.Some? then [w.sep.value] else "") + Render(w.time)
  }

  ghost function Seconds(ar: Arithmetic, c: Component, inTime: bool): Float
    requires GoodComponent(ar, c, inTime)
  {
    ar.times(ar.read(Dotted(c.number)).value, UnitSeconds(c.unit, inTime).value)
  }

  /** The components' seconds added to `start` one after the other. */
  ghost function Weigh(ar: Arithmetic, start: Float, cs: seq<Component>, inTime: bool): Float
    requires GoodComponents(ar, cs, inTime)
  {
    if cs == [] then start else ar.plus(Weigh(ar, start, cs[..|cs| - 1], inTime), Seconds(ar, cs[|cs| - 1], inTime))
  }

  /** The weighted sum of the components, from left to right. */
  ghost function Denoted(ar: Arithmetic, w: Written): Float
    requires Good(ar, w)
  {
    Weigh(ar, Weigh(ar, ZERO, w.date, false), w.time, true)
  }

  // ---- the machine reads the grammar ---------------------------------------

  /** Scan state `st` has read exactly `w` and then the number characters `raw`. */
  ghost predicate HasRead(ar: Arithmetic, st: Scan, w: Written, raw: string) {
    && Good(ar, w) && NumberChars(raw)
    && st.inTime == w.sep.Some?
    && st.saw == (w.date != [] || w.time != [])
    && st.number == Dotted(raw)
    && st.total == Denoted(ar, w)
  }

  /** What has been read once the machine takes character `c`. */
  ghost function Take(w: Written, raw: string, c: char): (Written, string) {
    if IsSeparator(c) then (w.(sep := Some(c)), raw)
    else if IsNumberChar(c) then (w, raw + [c])
    else if w.sep.Some? then (w.(time := w.time + [Component(raw, c)]), "")
    else (w.(date := w.date + [Component(raw, c)]), "")
  }

  lemma TakeStep(ar: Arithmetic, st: Scan, w: Written, raw: string, c: char)
    requires HasRead(ar, st, w, raw)
    requires StepChar(ar, st, c).Ok?
    ensures HasRead(ar, StepChar(ar, st, c).value, Take(w, raw, c).0, Take(w, raw, c).1)
    ensures RenderAll(Take(w, raw, c).0) + Take(w, raw, c).1 == RenderAll(w) + raw + [c]
  {
    if IsSeparator(c) {
      ReadSeparator(ar, st, w, raw, c);
    } else if IsNumberChar(c) {
      ReadNumberChar(ar, st, w, raw, c);
    } else {
      ReadUnit(ar, st, w, raw, c);
    }
  }

  lemma ReadSeparator(ar: Arithmetic, st: Scan, w: Written, raw: string, c: char)
    requires HasRead(ar, st, w, raw) && IsSeparator(c) && StepChar(ar, st, c).Ok?
    ensures HasRead(ar, StepChar(ar, st, c).value, Take(w, raw, c).0, Take(w, raw, c).1)
    ensures RenderAll(Take(w, raw, c).0) + Take(w, raw, c).1 == RenderAll(w) + raw + [c]
  {
  }

  lemma ReadNumberChar(ar: Arithmetic, st: Scan, w: Written, raw: string, c: char)
    requires HasRead(ar, st, w, raw) && IsNumberChar(c) && StepChar(ar, st, c).Ok?
    ensures HasRead(ar, StepChar(ar, st, c).value, Take(w, raw, c).0, Take(w, raw, c).1)
    ensures RenderAll(Take(w, raw, c).0) + Take(w, raw, c).1 == RenderAll(w) + raw + [c]
  {
    TakeNumberChar(w, raw, c);
  }

  lemma ReadUnit(ar: Arithmetic, st: Scan, w: Written, raw: string, c: char)
    requires HasRead(ar, st, w, raw) && !IsSeparator(c) && !IsNumberChar(c) && StepChar(ar, st, c).Ok?
    ensures HasRead(ar, StepChar(ar, st, c).value, Take(w, raw, c).0, Take(w, raw, c).1)
    ensures RenderAll(Take(w, raw, c).0) + Take(w, raw, c).1 == RenderAll(w) + raw + [c]
  {
    assert GoodComponent(ar, Component(raw, c), w.sep.Some?);
    if w.sep.Some? {
      AddComponent(ar, Weigh(ar, ZERO, w.date, false), w.time, Component(raw, c), true);
    } else {
      AddComponent(ar, ZERO, w.date, Component(raw, c), false);
    }
    TakeUnit(w, raw, c);
  }

  lemma TakeNumberChar(w: Written, raw: string, c: char)
    requires IsNumberChar(c) && NumberChars(raw)
    ensures NumberChars(raw + [c]) && Dotted(raw + [c]) == Dotted(raw) + [if c == ',' then '.' else c]
    ensures RenderAll(w) + (raw + [c]) == RenderAll(w) + raw + [c]
  {
  }

  lemma TakeUnit(w: Written, raw: string, c: char)
    requires w.sep.None? ==> w.time == []
    requires w.sep.Some? ==> Render(w.time + [Component(raw, c)]) == Render(w.time) + (raw + [c])
    requires w.sep.None? ==> Render(w.date + [Component(raw, c)]) == Render(w.date) + (raw + [c])
    ensures RenderAll(if w.sep.Some? then w.(time := w.time + [Component(raw, c)]) else w.(date := w.date + [Component(raw, c)])) + ""
         == RenderAll(w) + raw + [c]
  {
  }

  lemma AddComponent(ar: Arithmetic, start: Float, cs: seq<Component>, c: Component, inTime: bool)
    requires GoodComponents(ar, cs, inTime) && GoodComponent(ar, c, inTime)
    ensures GoodComponents(ar, cs + [c], inTime)
    ensures Render(cs + [c]) == Render(cs) + (c.number + [c.unit])
    ensures Weigh(ar, start, cs + [c], inTime) == ar.plus(Weigh(ar, start, cs, inTime), Seconds(ar, c, inTime))
  {
  }

  lemma Snoc(base: string, chars: string)
    requires chars != ""
    ensures base + [chars[0]] + chars[1..] == base + chars
  {
  }

  /** Everything the machine reads without complaint has the shape of the grammar. */
  lemma {:induction false} ScanIsSound(ar: Arithmetic, st: Scan, w: Written, raw: string, chars: string) returns (w': Written, raw': string)
    requires HasRead(ar, st, w, raw)
    requires ScanAll(ar, st, chars).Ok?
    ensures HasRead(ar, ScanAll(ar, st, chars).value, w', raw')
    ensures RenderAll(w') + raw' == RenderAll(w) + raw + chars
    decreases |chars|
  {
    if chars == "" {
      w', raw' := w, raw;
    } else {
      TakeStep(ar, st, w, raw, chars[0]);
      var next := Take(w, raw, chars[0]);
      w', raw' := ScanIsSound(ar, StepChar(ar, st, chars[0]).value, next.0, next.1, chars[1..]);
      Snoc(RenderAll(w) + raw, chars);
    }
  }

  lemma {:induction false} ScanConcat(ar: Arithmetic, st: Scan, a: string, b: string)
    requires ScanAll(ar, st, a).Ok?
    ensures ScanAll(ar, st, a + b) == ScanAll(ar, ScanAll(ar, st, a).value, b)
    decreases |a|
  {
    if a == "" {
      assert a + b == b;
    } else {
      assert (a + b)[0] == a[0] && (a + b)[1..] == a[1..] + b;
      ScanConcat(ar, StepChar(ar, st, a[0]).value, a[1..], b);
    }
  }

  lemma {:induction false} ScanNumber(ar: Arithmetic, st: Scan, raw: string)
    requires NumberChars(raw)
    ensures ScanAll(ar, st, raw) == Ok(st.(number := st.number + Dotted(raw)))
  {
    if raw == "" {
      assert st.number + "" == st.number;
    } else {
      var front, last := raw[..|raw| - 1], raw[|raw| - 1];
      ScanNumber(ar, st, front);
      assert raw == front + [last];
      ScanConcat(ar, st, front, [last]);
      var mid := st.(number := st.number + Dotted(front));
      assert [last][1..] == "";
      assert mid.number + [if last == ',' then '.' else last] == st.number + Dotted(raw);
    }
  }

  /** Reading `a` and then `b`. */
  lemma ScanThen(ar: Arithmetic, st: Scan, a: string, mid: Scan, b: string, both: string, end: Scan)
    requires ScanAll(ar, st, a) == Ok(mid) && ScanAll(ar, mid, b) == Ok(end) && both == a + b
    ensures ScanAll(ar, st, both) == Ok(end)
  {
    ScanConcat(ar, st, a, b);
  }

  lemma ScanComponent(ar: Arithmetic, st: Scan, c: Component, text: string, end: Scan)
    requires st.number == "" && GoodComponent(ar, c, st.inTime)
    requires text == c.number + [c.unit] && end == After(ar, st, c)
    ensures ScanAll(ar, st, text) == Ok(end)
  {
    var mid := st.(number := Dotted(c.number));
    ScanNumber(ar, st, c.number);
    assert "" + Dotted(c.number) == Dotted(c.number);
    ScanUnit(ar, mid, c);
    ScanThen(ar, st, c.number, mid, [c.unit], text, end);
  }

  lemma ScanUnit(ar: Arithmetic, st: Scan, c: Component)
    requires GoodComponent(ar, c, st.inTime) && st.number == Dotted(c.number)
    ensures ScanAll(ar, st, [c.unit]) == Ok(After(ar, st, c))
  {
    UnitStep(ar, st, c);
    ScanOne(ar, st, c.unit);
  }

  /** The state once a component has been read. */
  ghost function After(ar: Arithmetic, st: Scan, c: Component): Scan
    requires GoodComponent(ar, c, st.inTime)
  {
    Scan(ar.plus(st.total, Seconds(ar, c, st.inTime)), st.inTime, true, "")
  }

  lemma UnitStep(ar: Arithmetic, st: Scan, c: Component)
    requires GoodComponent(ar, c, st.inTime) && st.number == Dotted(c.number)
    ensures StepChar(ar, st, c.unit) == Ok(After(ar, st, c))
  {
  }

  lemma ScanOne(ar: Arithmetic, st: Scan, c: char)
    ensures ScanAll(ar, st, [c]) == StepChar(ar, st, c)
  {
  }

  /** Reading one more component after `text`. */
  lemma ScanOneMore(ar: Arithmetic, st: Scan, text: string, mid: Scan, c: Component, longer: string, end: Scan)
    requires ScanAll(ar, st, text) == Ok(mid) && mid.number == "" && GoodComponent(ar, c, mid.inTime)
    requires longer == text + (c.number + [c.unit]) && end == After(ar, mid, c)
    ensures ScanAll(ar, st, longer) == Ok(end)
  {
    var more := c.number + [c.unit];
    ScanComponent(ar, mid, c, more, end);
    ScanThen(ar, st, text, mid, more, longer, end);
  }

  /** The state once `cs` have been read from `st`. */
  ghost function AfterAll(ar: Arithmetic, st: Scan, cs: seq<Component>): Scan
    requires GoodComponents(ar, cs, st.inTime)
  {
    Scan(Weigh(ar, st.total, cs, st.inTime), st.inTime, st.saw || cs != [], "")
  }

  lemma AfterStep(ar: Arithmetic, st: Scan, cs: seq<Component>)
    requires cs != [] && GoodComponents(ar, cs, st.inTime)
    ensures GoodComponents(ar, cs[..|cs| - 1], st.inTime) && GoodComponent(ar, cs[|cs| - 1], st.inTime)
    ensures AfterAll(ar, st, cs) == After(ar, AfterAll(ar, st, cs[..|cs| - 1]), cs[|cs| - 1])
  {
  }

  lemma {:induction false} ScanComponents(ar: Arithmetic, st: Scan, cs: seq<Component>)
    requires st.number == "" && GoodComponents(ar, cs, st.inTime)
    ensures ScanAll(ar, st, Render(cs)) == Ok(AfterAll(ar, st, cs))
  {
    if cs == [] {
      assert Render(cs) == "";
    } else {
      var front, last := cs[..|cs| - 1], cs[|cs| - 1];
      AfterStep(ar, st, cs);
      ScanComponents(ar, st, front);
      var longer := Render(front) + (last.number + [last.unit]);
      assert Render(cs) == longer;
      ScanOneMore(ar, st, Render(front), AfterAll(ar, st, front), last, longer, AfterAll(ar, st, cs));
    }
  }

  lemma ScanIsComplete(ar: Arithmetic, w: Written)
    requires Good(ar, w)
    ensures ScanAll(ar, START, RenderAll(w)) == Ok(Scan(Denoted(ar, w), w.sep.Some?, w.date != [] || w.time != [], ""))
  {
    var mid := AfterAll(ar, START, w.date);
    ScanComponents(ar, START, w.date);
    if w.sep.Some? {
      var tail := [w.sep.value] + Render(w.time);
      SeparatorFirst(Render(w.date), w.sep.value, Render(w.time));
      ScanTime(ar, mid, w.sep.value, w.time);
      ScanThen(ar, START, Render(w.date), mid, tail, RenderAll(w), AfterAll(ar, mid.(inTime := true), w.time));
    } else {
      assert RenderAll(w) == Render(w.date);
    }
  }

  lemma SeparatorFirst(a: string, c: char, b: string)
    ensures a + [c] + b == a + ([c] + b)
  {
  }

  lemma ScanTime(ar: Arithmetic, st: Scan, sep: char, time: seq<Component>)
    requires !st.inTime && st.number == "" && IsSeparator(sep) && GoodComponents(ar, time, true)
    ensures ScanAll(ar, st, [sep] + Render(time)) == Ok(AfterAll(ar, st.(inTime := true), time))
  {
    var text := [sep] + Render(time);
    assert text[0] == sep && text[1..] == Render(time);
    ScanComponents(ar, st.(inTime := true), time);
  }

  /** `input` is `P` and the written components, at least one. */
  ghost predicate Writes(input: string, w: Written) {
    && Good(F64, w) && (w.date != [] || w.time != [])
    && StripP(Trim(input)) == Some(RenderAll(w))
  }

  /** A text that writes components denotes their weighted sum, where that is a length. */
  lemma ParseWritten(input: string, w: Written)
    requires Writes(input, w)
    ensures ParseDuration(input) == Length(Denoted(F64, w))
  {
    ScanIsComplete(F64, w);
    assert ScanAll(F64, START, "") == Ok(START);
  }

  /** The scan itself never refuses a length. */
  lemma {:induction false} ScanKeepsLengths(ar: Arithmetic, st: Scan, chars: string)
    ensures ScanAll(ar, st, chars).Err? ==> ScanAll(ar, st, chars).error !in {NotFinite, Overflows}
    decreases |chars|
  {
    if chars != "" && StepChar(ar, st, chars[0]).Ok? {
      ScanKeepsLengths(ar, StepChar(ar, st, chars[0]).value, chars[1..]);
    }
  }

  /** And only such texts are accepted, or refused for their length. */
  lemma ParseAccepts(input: string) returns (w: Written)
    requires ParseDuration(input).Ok? || ParseDuration(input).error in {NotFinite, Overflows}
    ensures Writes(input, w) && ParseDuration(input) == Length(Denoted(F64, w))
  {
    var rest := StripP(Trim(input)).value;
    ScanKeepsLengths(F64, START, rest);
    var empty := Written([], None, []);
    assert RenderAll(empty) == "";
    assert HasRead(F64, START, empty, "");
    var raw;
    w, raw := ScanIsSound(F64, START, empty, "", rest);
    assert raw == "";
    assert RenderAll(w) == RenderAll(w) + raw;
    assert RenderAll(empty) + "" + rest == rest;
  }

  // ---- why a text is refused -----------------------------------------------

  /** After the components `w` and the number `raw`, character `c` is refused for reason `e`. */
  ghost predicate Refuses(ar: Arithmetic, e: DurationError, w: Written, raw: string, c: char) {
    match e
    case TwoSeparators => c in {'T', 't'} && w.sep.Some?
    case NumberBeforeSeparator => c in {'T', 't'} && w.sep.None? && raw != ""
    case BadNumber => IsUnitChar(c) && ar.read(Dotted(raw)).None?
    case CalendarUnit => ar.read(Dotted(raw)).Some? && w.sep.None? && c in {'Y', 'y', 'M', 'm'}
    case UnexpectedUnit =>
      && IsUnitChar(c) && ar.read(Dotted(raw)).Some? && !(w.sep.None? && c in {'Y', 'y', 'M', 'm'})
      && !(w.sep.None? && c in {'W', 'w', 'D', 'd'}) && !(w.sep.Some? && c in {'H', 'h', 'M', 'm', 'S', 's'})
    case _ => false
  }

  ghost predicate IsUnitChar(c: char) {
    c !in {'T', 't', '.', ','} && !IsDigit(c)
  }

  lemma RefusedStep(ar: Arithmetic, st: Scan, w: Written, raw: string, c: char, e: DurationError)
    requires HasRead(ar, st, w, raw) && StepChar(ar, st, c) == Err(e)
    ensures Refuses(ar, e, w, raw, c)
  {
  }

  /** The scan stops at the first character refused, after the part of the text that reads well. */
  lemma {:induction false} ScanRefused(ar: Arithmetic, st: Scan, w: Written, raw: string, chars: string, e: DurationError)
    returns (i: nat, w': Written, raw': string)
    requires HasRead(ar, st, w, raw) && ScanAll(ar, st, chars) == Err(e)
    ensures i < |chars| && Good(ar, w') && NumberChars(raw') && Refuses(ar, e, w', raw', chars[i])
    ensures RenderAll(w') + raw' == RenderAll(w) + raw + chars[..i]
    decreases |chars|
  {
    if StepChar(ar, st, chars[0]).Err? {
      RefusedStep(ar, st, w, raw, chars[0], e);
      i, w', raw' := 0, w, raw;
    } else {
      TakeStep(ar, st, w, raw, chars[0]);
      var next, n := Take(w, raw, chars[0]), 0;
      n, w', raw' := ScanRefused(ar, StepChar(ar, st, chars[0]).value, next.0, next.1, chars[1..], e);
      i := n + 1;
      PrefixSnoc(RenderAll(w) + raw, chars, n);
    }
  }

  lemma PrefixSnoc(base: string, chars: string, n: nat)
    requires n < |chars|
    ensures base + [chars[0]] + chars[1..][..n] == base + chars[..n + 1]
  {
  }

  /** Why a text that starts with `P` is refused: for a character, for its end, for having no component, or for its length. */
  lemma RefusedFor(input: string, rest: string, e: DurationError) returns (i: nat, w: Written, raw: string)
    requires StripP(Trim(input)) == Some(rest) && ParseDuration(input) == Err(e)
    ensures i <= |rest| && Good(F64, w) && NumberChars(raw) && RenderAll(w) + raw == rest[..i]
    ensures if i < |rest| then Refuses(F64, e, w, raw, rest[i])
            else if raw != "" then e == DanglingNumber
            else if w.date == [] && w.time == [] then e == NoComponents
            else Length(Denoted(F64, w)) == Err(e)
  {
    var empty := Written([], None, []);
    assert RenderAll(empty) == "";
    assert HasRead(F64, START, empty, "");
    if rest == "" {
      i, w, raw := 0, empty, "";
    } else if ScanAll(F64, START, rest).Err? {
      i, w, raw := ScanRefused(F64, START, empty, "", rest, e);
      assert RenderAll(empty) + "" + rest[..i] == rest[..i];
    } else {
      w, raw := ScanIsSound(F64, START, empty, "", rest);
      i := |rest|;
      assert RenderAll(empty) + "" + rest == rest == rest[..i];
    }
  }

  // ---- where the floats are exact ------------------------------------------

  function ReadExactly(s: string): Option<Float> {
    if NumberOk(s) then Some(Finite(NumberValue(s))) else None
  }

  function TimesExactly(x: Float, unit: Amount): Float {
    match x
    case Infinite => Infinite
    case Finite(v) => Finite(v * unit)
  }

  function PlusExactly(x: Float, y: Float): Float {
    if x.Infinite? || y.Infinite? then Infinite else Finite(x.value + y.value)
  }

  /** Arithmetic that does not round. */
  const EXACT: Arithmetic := Arithmetic(ReadExactly, TimesExactly, PlusExactly)

  ghost predicate IsUnit(u: Amount) {
    u == 604800.0 || u == 86400.0 || u == 3600.0 || u == 60.0 || u == 1.0
  }

  ghost predicate WholeFloat(x: Float) {
    x.Finite? && Whole(x.value)
  }

  ghost predicate Small(x: Float) {
    WholeFloat(x) && x.value <= TWO_53
  }

  /** `ex` keeps whole numbers whole and does not shrink them, and `ar` agrees with it wherever the result is small. */
  ghost predicate ExactWhenSmall(ar: Arithmetic, ex: Arithmetic) {
    && (forall s :: ex.read(s).Some? <==> ar.read(s).Some?)
    && (forall s :: ex.read(s).Some? && Small(ex.read(s).value) ==> ar.read(s) == ex.read(s))
    && (forall x, u :: WholeFloat(x) && IsUnit(u) ==>
          WholeFloat(ex.times(x, u)) && (Small(ex.times(x, u)) ==> Small(x) && ar.times(x, u) == ex.times(x, u)))
    && (forall x, y :: WholeFloat(x) && WholeFloat(y) ==>
          WholeFloat(ex.plus(x, y)) && (Small(ex.plus(x, y)) ==> Small(x) && Small(y) && ar.plus(x, y) == ex.plus(x, y)))
  }

  lemma RoundWhole(x: Amount)
    requires Whole(x) && x <= TWO_53
    ensures Round(BINARY64, x) == Finite(x)
  {
    WholeIsFloat(BINARY64, x);
    RoundExact(BINARY64, x);
  }

  lemma PlusWhole(x: Amount, y: Amount)
    requires Whole(x) && Whole(y)
    ensures Whole(x + y)
  {
    assert x + y == (x.Floor + y.Floor) as real;
  }

  lemma {:induction false} TimesWhole(v: Amount, k: nat, u: Amount, product: Amount)
    requires Whole(v) && u == k as real && product == v * u
    ensures Whole(product) && (k > 0 ==> v <= product)
    decreases k
  {
    if k == 0 {
      assert product == 0.0;
    } else {
      var before := v * (u - 1.0);
      assert product == before + v;
      TimesWhole(v, k - 1, u - 1.0, before);
      PlusWhole(before, v);
    }
  }

  lemma F64IsExactWhenSmall()
    ensures ExactWhenSmall(F64, EXACT)
  {
    forall s | ReadExactly(s).Some? && Small(ReadExactly(s).value)
      ensures ReadF64(s) == ReadExactly(s)
    {
      RoundWhole(NumberValue(s));
    }
    forall x, u | WholeFloat(x) && IsUnit(u)
      ensures WholeFloat(TimesExactly(x, u))
      ensures Small(TimesExactly(x, u)) ==> Small(x) && TimesF64(x, u) == TimesExactly(x, u)
    {
      TimesWhole(x.value, u.Floor, u, x.value * u);
      if x.value * u <= TWO_53 {
        RoundWhole(x.value * u);
      }
    }
    forall x, y | WholeFloat(x) && WholeFloat(y)
      ensures WholeFloat(PlusExactly(x, y))
      ensures Small(PlusExactly(x, y)) ==> Small(x) && Small(y) && PlusF64(x, y) == PlusExactly(x, y)
    {
      PlusWhole(x.value, y.value);
      if x.value + y.value <= TWO_53 {
        RoundWhole(x.value + y.value);
      }
    }
  }

  /** The components name whole numbers of their units. */
  ghost predicate WholeNumbers(ex: Arithmetic, cs: seq<Component>, inTime: bool) {
    GoodComponents(ex, cs, inTime) && forall i :: 0 <= i < |cs| ==> WholeFloat(ex.read(Dotted(cs[i].number)).value)
  }

  lemma UnitIsUnit(c: char, inTime: bool)
    requires UnitSeconds(c, inTime).Some?
    ensures IsUnit(UnitSeconds(c, inTime).value)
  {
  }

  lemma {:induction false} Agree(ar: Arithmetic, ex: Arithmetic, start: Float, cs: seq<Component>, inTime: bool)
    requires ExactWhenSmall(ar, ex) && WholeNumbers(ex, cs, inTime) && WholeFloat(start)
    ensures GoodComponents(ar, cs, inTime) && WholeFloat(Weigh(ex, start, cs, inTime))
    ensures Small(Weigh(ex, start, cs, inTime)) ==>
            Small(start) && Weigh(ar, start, cs, inTime) == Weigh(ex, start, cs, inTime)
  {
    if cs != [] {
      var front, c := cs[..|cs| - 1], cs[|cs| - 1];
      Agree(ar, ex, start, front, inTime);
      UnitIsUnit(c.unit, inTime);
      var x, u := ex.read(Dotted(c.number)).value, UnitSeconds(c.unit, inTime).value;
      var sum := Weigh(ex, start, front, inTime);
      assert WholeFloat(ex.times(x, u)) && WholeFloat(ex.plus(sum, ex.times(x, u)));
    }
  }

  lemma WholeLength(seconds: Amount)
    requires Whole(seconds) && seconds <= TWO_53
    ensures Length(Finite(seconds)) == Ok(seconds.Floor * 1000000000)
  {
    HalfEvenIs(seconds * 1000000000.0, seconds.Floor * 1000000000);
  }

  /** A text of whole numbers worth at most 2^53 seconds denotes exactly that many, whatever is rounded on the way. */
  lemma WholeTextsAreExact(input: string, w: Written)
    requires Writes(input, w) && WholeNumbers(EXACT, w.date, false) && WholeNumbers(EXACT, w.time, true)
    requires Small(Denoted(EXACT, w))
    ensures ParseDuration(input) == Ok(Denoted(EXACT, w).value.Floor * 1000000000)
  {
    F64IsExactWhenSmall();
    Agree(F64, EXACT, ZERO, w.date, false);
    Agree(F64, EXACT, Weigh(EXACT, ZERO, w.date, false), w.time, true);
    ParseWritten(input, w);
    WholeLength(Denoted(EXACT, w).value);
  }

  // ---- the units -----------------------------------------------------------

  /** A text of one component. */
  function OneComponent(c: Component, inTime: bool): Written {
    if inTime then Written([], Some('T'), [c]) else Written([c], None, [])
  }

  lemma OneComponentReads(ar: Arithmetic, c: Component, inTime: bool)
    requires GoodComponent(ar, c, inTime)
    ensures var w := OneComponent(c, inTime);
            && Good(ar, w) && RenderAll(w) == (if inTime then "T" else "") + c.number + [c.unit]
            && Denoted(ar, w) == ar.plus(ZERO, Seconds(ar, c, inTime))
  {
    OneListed(ar, c, inTime);
    var text := c.number + [c.unit];
    if inTime {
      assert "" + "T" + text == "T" + c.number + [c.unit];
    } else {
      assert text + "" + "" == "" + c.number + [c.unit];
    }
  }

  lemma OneListed(ar: Arithmetic, c: Component, inTime: bool)
    requires GoodComponent(ar, c, inTime)
    ensures GoodComponents(ar, [c], inTime) && Render([c]) == c.number + [c.unit] && Render([]) == ""
    ensures Weigh(ar, ZERO, [c], inTime) == ar.plus(ZERO, Seconds(ar, c, inTime))
  {
    AddComponent(ar, ZERO, [], c, inTime);
    assert [] + [c] == [c] && "" + (c.number + [c.unit]) == c.number + [c.unit];
  }
}
