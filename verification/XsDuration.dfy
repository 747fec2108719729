/** Parsing `cacheDuration` (crates/gamlastan-mdq/src/transform.rs), over exact
    numbers. */
module XsDuration {
  import opened Wrappers
  import opened Decimals

  /** `Duration` holds fewer than 2^64 seconds. */
  const SECONDS_LIMIT: real := 18446744073709551616.0

  function Power10(n: nat): (p: nat)
    ensures p > 0
  {
    if n == 0 then 1 else 10 * Power10(n - 1)
  }

  function DotAt(s: string): (i: nat)
    ensures i <= |s| && '.' !in s[..i] && (i < |s| ==> s[i] == '.')
  {
    if s == "" || s[0] == '.' then 0
    else
      var i := 1 + DotAt(s[1..]);
      assert s[..i] == [s[0]] + s[1..][..i - 1];
      i
  }

  /** `str::parse::<f64>` on digits and dots: at most one dot, at least one digit. */
  function ParseNumber(s: string): Option<real> {
    var i := DotAt(s);
    var whole := s[..i];
    var fraction := if i < |s| then s[i + 1..] else "";
    if whole + fraction == "" || !Digits(whole) || !Digits(fraction) then None
    else Some(NumberValue(whole, fraction))
  }

  function NumberValue(whole: string, fraction: string): (r: real)
    requires Digits(whole) && Digits(fraction)
    ensures r >= 0.0
  {
    NatOf(whole) as real + NatOf(fraction) as real / Power10(|fraction|) as real
  }

  function UnitSeconds(inTime: bool, unit: char): Option<real> {
    if !inTime && unit == 'Y' then Some(365.0 * 86400.0)
    else if !inTime && unit == 'M' then Some(30.0 * 86400.0)
    else if !inTime && unit == 'D' then Some(86400.0)
    else if inTime && unit == 'H' then Some(3600.0)
    else if inTime && unit == 'M' then Some(60.0)
    else if inTime && unit == 'S' then Some(1.0)
    else None
  }

  /** What a number with its unit stands for. */
  function Component(num: string, inTime: bool, unit: char): Option<real> {
    match (ParseNumber(num), UnitSeconds(inTime, unit))
    case (Some(value), Some(seconds)) => Some(Scaled(value, seconds))
    case _ => None
  }

  function Scaled(value: real, seconds: real): real {
    value * seconds
  }

  // ---- The scanner, for any meaning of number-unit pairs ---------------------------

  type Meaning = (string, bool, char) -> Option<real>

  datatype Scanner = Scanner(secs: real, inTime: bool, num: string, saw: bool)

  predicate NumberChar(c: char) {
    Digit(c) || c == '.'
  }

  function ScanChar(m: Meaning, st: Scanner, c: char): Option<Scanner> {
    if c == 'T' then
      if st.inTime || st.num != "" then None else Some(st.(inTime := true))
    else if NumberChar(c) then Some(st.(num := st.num + [c]))
    else if st.num == "" then None
    else match m(st.num, st.inTime, c)
      case Some(v) => Some(Scanner(st.secs + v, st.inTime, "", true))
      case None => None
  }

  function ScanAll(m: Meaning, st: Scanner, s: string): Option<Scanner>
    decreases |s|
  {
    if s == "" then Some(st)
    else match ScanChar(m, st, s[0])
      case Some(next) => ScanAll(m, next, s[1..])
      case None => None
  }

  function Finish(st: Option<Scanner>): Option<real> {
    if st.None? || st.value.num != "" || !st.value.saw || st.value.secs < 0.0 || st.value.secs >= SECONDS_LIMIT then None
    else Some(st.value.secs)
  }

  const NEW_SCAN := Scanner(0.0, false, "", false)

  function Parsed(m: Meaning, s: string): Option<real> {
    if s == "" || s[0] != 'P' then None else Finish(ScanAll(m, NEW_SCAN, s[1..]))
  }

  /** A number with its unit, in seconds. */
  method ReadComponent(num: string, inTime: bool, unit: char) returns (r: Option<real>)
    ensures r == Component(num, inTime, unit)
  {
    var value := ParseNumber(num);
    if value.None? {
      return None;
    }
    var unitSecs := UnitSeconds(inTime, unit);
    if unitSecs.None? {
      return None;
    }
    r := Some(Scaled(value.value, unitSecs.value));
  }

  /** The body of the loop: the four variables after one more character, or none
      when it is refused. */
  method ScanOne(secs: real, inTime: bool, num: string, saw: bool, c: char) returns (next: Option<Scanner>)
    ensures next == ScanChar(Component, Scanner(secs, inTime, num, saw), c)
  {
    if c == 'T' {
      if inTime || num != "" {
        return None;
      }
      return Some(Scanner(secs, true, num, saw));
    }
    if NumberChar(c) {
      return Some(Scanner(secs, inTime, num + [c], saw));
    }
    if num == "" {
      return None;
    }
    var value := ReadComponent(num, inTime, c);
    if value.None? {
      return None;
    }
    next := Some(Scanner(secs + value.value, inTime, "", true));
  }

  method ParseXsDuration(s: string) returns (r: Option<real>)
    ensures r == Parsed(Component, s)
  {
    if s == "" || s[0] != 'P' {
      return None;
    }
    var secs, inTime, num, saw := 0.0, false, "", false;
    var i := 1;
    while i < |s|
      invariant 1 <= i <= |s|
      invariant Parsed(Component, s) == Finish(ScanAll(Component, Scanner(secs, inTime, num, saw), s[i..]))
    {
      var next := ScanOne(secs, inTime, num, saw, s[i]);
      ScanNext(Component, Scanner(secs, inTime, num, saw), s, i);
      if next.None? {
        return None;
      }
      secs, inTime, num, saw := next.value.secs, next.value.inTime, next.value.num, next.value.saw;
      i := i + 1;
    }
    assert s[i..] == "";
    if num != "" || !saw || secs < 0.0 || secs >= SECONDS_LIMIT {
      return None;
    }
    r := Some(secs);
  }

  lemma ScanNext(m: Meaning, st: Scanner, s: string, i: nat)
    requires i < |s|
    ensures ScanAll(m, st, s[i..])
            == match ScanChar(m, st, s[i]) case Some(next) => ScanAll(m, next, s[i + 1..]) case None => None
  {
    assert s[i..][1..] == s[i + 1..];
  }

  // ---- The language ----------------------------------------------------------------

  datatype Part = Part(num: string, unit: char)

  predicate ValidPart(m: Meaning, p: Part, inTime: bool) {
    && p.num != "" && (forall c :: c in p.num ==> NumberChar(c))
    && p.unit != 'T' && !NumberChar(p.unit) && m(p.num, inTime, p.unit).Some?
  }

  predicate ValidParts(m: Meaning, parts: seq<Part>, inTime: bool) {
    parts == [] || (ValidPart(m, parts[0], inTime) && ValidParts(m, parts[1..], inTime))
  }

  function Print(parts: seq<Part>): string {
    if parts == [] then "" else parts[0].num + ([parts[0].unit] + Print(parts[1..]))
  }

  function Total(m: Meaning, parts: seq<Part>, inTime: bool): real
    requires ValidParts(m, parts, inTime)
  {
    if parts == [] then 0.0
    else m(parts[0].num, inTime, parts[0].unit).value + Total(m, parts[1..], inTime)
  }

  /** Date parts, and after at most one `T` the time parts. */
  datatype Duration = Duration(date: seq<Part>, time: Option<seq<Part>>)
  {
    predicate Valid(m: Meaning) {
      && ValidParts(m, date, false) && (time.Some? ==> ValidParts(m, time.value, true))
      && (date != [] || (time.Some? && time.value != []))
    }

    function Text(): string {
      ['P'] + (Print(date) + TimeText(time))
    }

    function Seconds(m: Meaning): real
      requires Valid(m)
    {
      Total(m, date, false) + if time.Some? then Total(m, time.value, true) else 0.0
    }
  }

  function TimeText(time: Option<seq<Part>>): string {
    if time.Some? then ['T'] + Print(time.value) else ""
  }

  lemma {:induction false} NumberScans(m: Meaning, st: Scanner, num: string, rest: string)
    requires forall c :: c in num ==> NumberChar(c)
    ensures ScanAll(m, st, num + rest) == ScanAll(m, st.(num := st.num + num), rest)
    decreases |num|
  {
    if num == "" {
      assert num + rest == rest && st.num + num == st.num;
    } else {
      assert num[0] in num && (num + rest)[1..] == num[1..] + rest;
      NumberScans(m, st.(num := st.num + [num[0]]), num[1..], rest);
      assert st.num + [num[0]] + num[1..] == st.num + num;
    }
  }

  lemma PartScans(m: Meaning, st: Scanner, p: Part, text: string, rest: string)
    requires st.num == "" && ValidPart(m, p, st.inTime) && text == p.num + ([p.unit] + rest)
    ensures ScanAll(m, st, text)
            == ScanAll(m, Scanner(st.secs + m(p.num, st.inTime, p.unit).value, st.inTime, "", true), rest)
  {
    NumberThen(m, st, p.num, [p.unit] + rest, text);
    UnitScans(m, st.(num := p.num), p.unit, rest);
  }

  lemma NumberThen(m: Meaning, st: Scanner, num: string, tail: string, text: string)
    requires st.num == "" && (forall c :: c in num ==> NumberChar(c)) && text == num + tail
    ensures ScanAll(m, st, text) == ScanAll(m, st.(num := num), tail)
  {
    NumberScans(m, st, num, tail);
    assert st.num + num == num;
  }

  lemma UnitScans(m: Meaning, st: Scanner, unit: char, rest: string)
    requires st.num != "" && unit != 'T' && !NumberChar(unit) && m(st.num, st.inTime, unit).Some?
    ensures ScanAll(m, st, [unit] + rest)
            == ScanAll(m, Scanner(st.secs + m(st.num, st.inTime, unit).value, st.inTime, "", true), rest)
  {
    ScanCons(m, st, unit, rest);
  }

  lemma ScanCons(m: Meaning, st: Scanner, c: char, rest: string)
    ensures ScanAll(m, st, [c] + rest)
            == match ScanChar(m, st, c) case Some(next) => ScanAll(m, next, rest) case None => None
  {
    assert ([c] + rest)[1..] == rest;
  }

  lemma {:induction false} PartsScan(m: Meaning, st: Scanner, parts: seq<Part>, rest: string)
    requires st.num == "" && ValidParts(m, parts, st.inTime)
    ensures ScanAll(m, st, Print(parts) + rest)
            == ScanAll(m, Scanner(st.secs + Total(m, parts, st.inTime), st.inTime, "", st.saw || parts != []), rest)
    decreases |parts|
  {
    if parts == [] {
      assert Print(parts) + rest == rest;
    } else {
      var p, more := parts[0], Print(parts[1..]) + rest;
      assert Print(parts) + rest == p.num + ([p.unit] + more);
      PartScans(m, st, p, Print(parts) + rest, more);
      PartsScan(m, Scanner(st.secs + m(p.num, st.inTime, p.unit).value, st.inTime, "", true), parts[1..], rest);
    }
  }

  lemma TimeScans(m: Meaning, st: Scanner, time: seq<Part>)
    requires st.num == "" && !st.inTime && ValidParts(m, time, true)
    ensures ScanAll(m, st, ['T'] + Print(time))
            == Some(Scanner(st.secs + Total(m, time, true), true, "", st.saw || time != []))
  {
    assert (['T'] + Print(time))[1..] == Print(time) == Print(time) + "";
    PartsScan(m, st.(inTime := true), time, "");
  }

  /** Every printed duration parses to its total number of seconds. */
  lemma PrintedParses(m: Meaning, d: Duration)
    requires d.Valid(m)
    ensures Parsed(m, d.Text()) == if 0.0 <= d.Seconds(m) < SECONDS_LIMIT then Some(d.Seconds(m)) else None
  {
    assert d.Text()[1..] == Print(d.date) + TimeText(d.time);
    PartsScan(m, NEW_SCAN, d.date, TimeText(d.time));
    if d.time.Some? {
      TimeScans(m, Scanner(0.0 + Total(m, d.date, false), false, "", d.date != []), d.time.value);
    }
  }

  /** Reads parts up to a `T` or the end, the number so far being `num`. */
  function ReadParts(s: string, num: string): (seq<Part>, Option<string>)
    decreases |s|
  {
    if s == "" then ([], None)
    else if s[0] == 'T' then ([], Some(s[1..]))
    else if NumberChar(s[0]) then ReadParts(s[1..], num + [s[0]])
    else
      var (parts, rest) := ReadParts(s[1..], "");
      ([Part(num, s[0])] + parts, rest)
  }

  function RestText(rest: Option<string>): string {
    if rest.Some? then ['T'] + rest.value else ""
  }

  /** What an accepting scan has read. */
  ghost predicate Explains(m: Meaning, st: Scanner, s: string, parts: seq<Part>, rest: Option<string>) {
    && ValidParts(m, parts, st.inTime)
    && st.num + s == Print(parts) + RestText(rest)
    && (st.inTime ==> rest.None?)
    && var end := Scanner(st.secs + Total(m, parts, st.inTime), st.inTime || rest.Some?, "", st.saw || parts != []);
       ScanAll(m, st, s) == if rest.Some? then ScanAll(m, end, rest.value) else Some(end)
  }

  lemma {:induction false} ScanReads(m: Meaning, st: Scanner, s: string)
    requires ScanAll(m, st, s).Some? && ScanAll(m, st, s).value.num == ""
    requires forall c :: c in st.num ==> NumberChar(c)
    ensures Explains(m, st, s, ReadParts(s, st.num).0, ReadParts(s, st.num).1)
    decreases |s|
  {
    if s == "" {
      assert st.num + s == Print([]) + "";
    } else {
      var c := s[0];
      var next := ScanChar(m, st, c).value;
      assert s == [c] + s[1..];
      if c == 'T' {
        assert st.num + s == Print([]) + (['T'] + s[1..]);
      } else if NumberChar(c) {
        ScanReads(m, next, s[1..]);
        OneDigitMore(m, st, s, ReadParts(s[1..], next.num).0, ReadParts(s[1..], next.num).1);
      } else {
        ScanReads(m, next, s[1..]);
        OnePartMore(m, st, s, ReadParts(s[1..], "").0, ReadParts(s[1..], "").1);
      }
    }
  }

  lemma OneDigitMore(m: Meaning, st: Scanner, s: string, parts: seq<Part>, rest: Option<string>)
    requires s != "" && NumberChar(s[0])
    requires Explains(m, st.(num := st.num + [s[0]]), s[1..], parts, rest)
    ensures Explains(m, st, s, parts, rest)
  {
    DigitScans(m, st, s);
    DigitText(st.num, s);
  }

  lemma DigitScans(m: Meaning, st: Scanner, s: string)
    requires s != "" && NumberChar(s[0])
    ensures ScanAll(m, st, s) == ScanAll(m, st.(num := st.num + [s[0]]), s[1..])
  {
  }

  lemma DigitText(num: string, s: string)
    requires s != ""
    ensures num + s == (num + [s[0]]) + s[1..]
  {
  }

  lemma OnePartMore(m: Meaning, st: Scanner, s: string, more: seq<Part>, rest: Option<string>)
    requires s != "" && s[0] != 'T' && !NumberChar(s[0]) && ScanChar(m, st, s[0]).Some?
    requires forall c :: c in st.num ==> NumberChar(c)
    requires Explains(m, ScanChar(m, st, s[0]).value, s[1..], more, rest)
    ensures Explains(m, st, s, [Part(st.num, s[0])] + more, rest)
  {
    var p := Part(st.num, s[0]);
    var parts := [p] + more;
    var next := ScanChar(m, st, s[0]).value;
    assert parts[1..] == more && parts[0] == p && s == [s[0]] + s[1..];
    ScanCons(m, st, s[0], s[1..]);
    assert Total(m, parts, st.inTime) == m(p.num, st.inTime, p.unit).value + Total(m, more, st.inTime);
    JoinText(st.num, s[0], s[1..], Print(more), RestText(rest));
  }

  lemma JoinText(num: string, unit: char, tail: string, more: string, rest: string)
    requires "" + tail == more + rest
    ensures num + ([unit] + tail) == num + ([unit] + more) + rest
  {
    assert "" + tail == tail;
    assert num + ([unit] + (more + rest)) == num + ([unit] + more) + rest;
  }

  /** The one reading of a text as number-unit pairs around at most one `T`. */
  function ReadingOf(s: string): Duration {
    var (date, rest) := ReadParts(if s == "" then "" else s[1..], "");
    Duration(date, if rest.Some? then Some(ReadParts(rest.value, "").0) else None)
  }

  /** The parser accepts exactly the printed durations whose total fits, with
      that total: number-unit pairs, date units before and time units after at
      most one `T`, at least one pair and no dangling number.  Order and repeats
      within each half are free, and a trailing `T` is allowed. */
  lemma ParserMeaning(s: string, v: real)
    ensures Parsed(Component, s) == Some(v) <==>
            exists d: Duration :: d.Valid(Component) && d.Text() == s && d.Seconds(Component) == v && 0.0 <= v < 18446744073709551616.0
  {
    if exists d: Duration :: d.Valid(Component) && d.Text() == s && d.Seconds(Component) == v && 0.0 <= v < SECONDS_LIMIT {
      var d: Duration :| d.Valid(Component) && d.Text() == s && d.Seconds(Component) == v && 0.0 <= v < SECONDS_LIMIT;
      PrintedParses(Component, d);
    }
    if Parsed(Component, s) == Some(v) {
      Reading(Component, s, v);
    }
  }

  lemma Reading(m: Meaning, s: string, v: real)
    requires Parsed(m, s) == Some(v)
    ensures var d := ReadingOf(s); d.Valid(m) && d.Text() == s && d.Seconds(m) == v && 0.0 <= v < SECONDS_LIMIT
  {
    var body := s[1..];
    assert s == ['P'] + body && NEW_SCAN.num + body == body;
    ScanReads(m, NEW_SCAN, body);
    var (date, rest) := ReadParts(body, "");
    if rest.Some? {
      var st := Scanner(0.0 + Total(m, date, false), true, "", date != []);
      ScanReads(m, st, rest.value);
      var time := ReadParts(rest.value, "").0;
      assert "" + rest.value == rest.value == Print(time) + "" == Print(time);
    }
  }

  // ---- Numbers in decimal print ---------------------------------------------------------

  /** A number of units: the whole part, and the digits after the point if any. */
  datatype Amount = Amount(whole: nat, fraction: string, unit: char)
  {
    predicate Valid(inTime: bool) {
      Digits(fraction) && UnitSeconds(inTime, unit).Some?
    }

    function Text(): string {
      Decimal(whole) + if fraction == "" then "" else ['.'] + fraction
    }

    function Number(): (r: real)
      requires Digits(fraction)
      ensures r >= 0.0
    {
      whole as real + NatOf(fraction) as real / Power10(|fraction|) as real
    }
  }

  predicate Amounts(xs: seq<Amount>, inTime: bool) {
    xs == [] || (xs[0].Valid(inTime) && Amounts(xs[1..], inTime))
  }

  function PartsOf(xs: seq<Amount>): seq<Part> {
    if xs == [] then [] else [Part(xs[0].Text(), xs[0].unit)] + PartsOf(xs[1..])
  }

  function SecondsOf(xs: seq<Amount>, inTime: bool): (r: real)
    requires Amounts(xs, inTime)
    ensures r >= 0.0
  {
    if xs == [] then 0.0
    else
      NonNegative(xs[0].Number(), UnitSeconds(inTime, xs[0].unit).value);
      Scaled(xs[0].Number(), UnitSeconds(inTime, xs[0].unit).value) + SecondsOf(xs[1..], inTime)
  }

  lemma NonNegative(x: real, y: real)
    requires x >= 0.0 && y >= 0.0
    ensures Scaled(x, y) >= 0.0
  {
  }

  lemma {:induction false} DotAtIndex(s: string, i: nat)
    requires i <= |s| && (forall k :: 0 <= k < i ==> s[k] != '.') && (i < |s| ==> s[i] == '.')
    ensures DotAt(s) == i
  {
    if i > 0 {
      DotAtIndex(s[1..], i - 1);
    }
  }

  lemma DotAtIs(s: string, i: nat)
    requires i <= |s| && '.' !in s[..i] && (i < |s| ==> s[i] == '.')
    ensures DotAt(s) == i
  {
    forall k | 0 <= k < i
      ensures s[k] != '.'
    {
      assert s[..i][k] in s[..i];
    }
    DotAtIndex(s, i);
  }

  lemma DigitsHaveNoDot(s: string)
    requires Digits(s)
    ensures forall c :: c in s ==> c != '.' && NumberChar(c)
  {
    forall c | c in s
      ensures c != '.' && NumberChar(c)
    {
      assert Digit(c);
    }
  }

  /** The number parser reads digits with at most one point inside as what they
      say. */
  lemma NumberReads(whole: string, fraction: string)
    requires Digits(whole) && Digits(fraction) && whole != ""
    ensures ParseNumber(whole + (['.'] + fraction)) == Some(NumberValue(whole, fraction))
    ensures ParseNumber(whole) == Some(NumberValue(whole, ""))
  {
    var s := whole + (['.'] + fraction);
    DigitsHaveNoDot(whole);
    assert s[..|whole|] == whole && s[|whole|] == '.' && s[|whole| + 1..] == fraction;
    DotAtIs(s, |whole|);
    assert whole[..|whole|] == whole;
    DotAtIs(whole, |whole|);
    NoEmptyNumber(whole, fraction);
    NoEmptyNumber(whole, "");
  }

  lemma NoEmptyNumber(whole: string, fraction: string)
    requires whole != ""
    ensures whole + fraction != ""
  {
    assert |whole + fraction| > 0;
  }

  lemma AmountText(a: Amount)
    requires Digits(a.fraction)
    ensures ParseNumber(a.Text()) == Some(a.Number())
    ensures a.Text() != "" && forall c :: c in a.Text() ==> NumberChar(c)
  {
    DecimalReads(a.whole);
    NumberReads(Decimal(a.whole), a.fraction);
    DigitsHaveNoDot(Decimal(a.whole));
    DigitsHaveNoDot(a.fraction);
    if a.fraction == "" {
      assert a.Text() == Decimal(a.whole);
    }
  }

  lemma AmountReads(a: Amount, inTime: bool)
    requires a.Valid(inTime)
    ensures ValidPart(Component, Part(a.Text(), a.unit), inTime)
    ensures Component(a.Text(), inTime, a.unit) == Some(Scaled(a.Number(), UnitSeconds(inTime, a.unit).value))
  {
    AmountText(a);
  }

  lemma {:induction false} AmountsRead(xs: seq<Amount>, inTime: bool)
    requires Amounts(xs, inTime)
    ensures ValidParts(Component, PartsOf(xs), inTime)
    ensures Total(Component, PartsOf(xs), inTime) == SecondsOf(xs, inTime)
  {
    if xs != [] {
      AmountReads(xs[0], inTime);
      AmountsRead(xs[1..], inTime);
      TotalCons(Part(xs[0].Text(), xs[0].unit), PartsOf(xs[1..]), inTime);
    }
  }

  lemma TotalCons(p: Part, more: seq<Part>, inTime: bool)
    requires ValidPart(Component, p, inTime) && ValidParts(Component, more, inTime)
    ensures ValidParts(Component, [p] + more, inTime)
    ensures Total(Component, [p] + more, inTime) == Component(p.num, inTime, p.unit).value + Total(Component, more, inTime)
  {
    assert ([p] + more)[1..] == more;
  }

  function DurationOf(date: seq<Amount>, time: Option<seq<Amount>>): Duration {
    Duration(PartsOf(date), match time case Some(t) => Some(PartsOf(t)) case None => None)
  }

  function TotalOf(date: seq<Amount>, time: Option<seq<Amount>>): (r: real)
    requires Amounts(date, false) && (time.Some? ==> Amounts(time.value, true))
    ensures r >= 0.0
  {
    SecondsOf(date, false) + match time case Some(t) => SecondsOf(t, true) case None => 0.0
  }

  lemma DurationOfValid(date: seq<Amount>, time: Option<seq<Amount>>)
    requires Amounts(date, false) && (time.Some? ==> Amounts(time.value, true))
    requires date != [] || (time.Some? && time.value != [])
    ensures DurationOf(date, time).Valid(Component)
    ensures DurationOf(date, time).Seconds(Component) == TotalOf(date, time)
  {
    AmountsRead(date, false);
    if time.Some? {
      AmountsRead(time.value, true);
    }
  }

  /** Numbers in decimal print, with any digits after a point, parse to the sum of
      number times unit. */
  lemma DecimalDurationParses(date: seq<Amount>, time: Option<seq<Amount>>)
    requires Amounts(date, false) && (time.Some? ==> Amounts(time.value, true))
    requires date != [] || (time.Some? && time.value != [])
    ensures Parsed(Component, DurationOf(date, time).Text())
            == if TotalOf(date, time) < SECONDS_LIMIT then Some(TotalOf(date, time)) else None
  {
    DurationOfValid(date, time);
    PrintedParses(Component, DurationOf(date, time));
  }

  // ---- What numbers and units stand for ---------------------------------------------------

  /** The units, in seconds: years of 365 days and months of 30 days before the
      `T`, hours, minutes and seconds after it. */
  lemma UnitsExactly(inTime: bool, unit: char, seconds: real)
    ensures UnitSeconds(inTime, unit) == Some(seconds) <==>
            || (!inTime && unit == 'Y' && seconds == 31536000.0)
            || (!inTime && unit == 'M' && seconds == 2592000.0)
            || (!inTime && unit == 'D' && seconds == 86400.0)
            || (inTime && unit == 'H' && seconds == 3600.0)
            || (inTime && unit == 'M' && seconds == 60.0)
            || (inTime && unit == 'S' && seconds == 1.0)
  {
  }

  /** `P1Y2M3DT4H5M6S` and its like: all six fields, with any numbers. */
  lemma AllFields(y: nat, o: nat, d: nat, h: nat, m: nat, s: nat)
    requires 31536000 * y + 2592000 * o + 86400 * d + 3600 * h + 60 * m + s < 18446744073709551616
    ensures Parsed(Component, DurationOf([Amount(y, "", 'Y'), Amount(o, "", 'M'), Amount(d, "", 'D')],
                                         Some([Amount(h, "", 'H'), Amount(m, "", 'M'), Amount(s, "", 'S')])).Text())
            == Some((31536000 * y + 2592000 * o + 86400 * d + 3600 * h + 60 * m + s) as real)
  {
    var date := [Amount(y, "", 'Y'), Amount(o, "", 'M'), Amount(d, "", 'D')];
    var time := [Amount(h, "", 'H'), Amount(m, "", 'M'), Amount(s, "", 'S')];
    ThreeAmounts(date[0], date[1], date[2], false);
    ThreeAmounts(time[0], time[1], time[2], true);
    WholeAmount(date[0]);
    WholeAmount(date[1]);
    WholeAmount(date[2]);
    WholeAmount(time[0]);
    WholeAmount(time[1]);
    WholeAmount(time[2]);
    DecimalDurationParses(date, Some(time));
  }

  lemma ThreeAmounts(a: Amount, b: Amount, c: Amount, inTime: bool)
    requires a.Valid(inTime) && b.Valid(inTime) && c.Valid(inTime)
    ensures Amounts([a, b, c], inTime)
    ensures SecondsOf([a, b, c], inTime)
            == Scaled(a.Number(), UnitSeconds(inTime, a.unit).value) + Scaled(b.Number(), UnitSeconds(inTime, b.unit).value)
               + Scaled(c.Number(), UnitSeconds(inTime, c.unit).value)
  {
    OneAmount(c, [], inTime);
    OneAmount(b, [c], inTime);
    OneAmount(a, [b, c], inTime);
    assert [a] + [b, c] == [a, b, c] && [b] + [c] == [b, c] && [c] + [] == [c];
  }

  lemma OneAmount(a: Amount, more: seq<Amount>, inTime: bool)
    requires a.Valid(inTime) && Amounts(more, inTime)
    ensures Amounts([a] + more, inTime)
    ensures SecondsOf([a] + more, inTime) == Scaled(a.Number(), UnitSeconds(inTime, a.unit).value) + SecondsOf(more, inTime)
  {
    assert ([a] + more)[1..] == more;
  }

  lemma WholeAmount(a: Amount)
    requires a.fraction == ""
    ensures Digits(a.fraction) && a.Number() == a.whole as real
  {
  }

  /** Digits with at most one point in, before or after them. */
  predicate NumberText(s: string, whole: string, fraction: string) {
    Digits(whole) && Digits(fraction) && whole + fraction != ""
    && (s == whole + (['.'] + fraction) || (fraction == "" && s == whole))
  }

  /** The number parser accepts exactly these texts, with the number they say. */
  lemma NumberExactly(s: string, v: real)
    ensures ParseNumber(s) == Some(v) <==>
            exists whole, fraction :: NumberText(s, whole, fraction) && v == NumberValue(whole, fraction)
  {
    if ParseNumber(s) == Some(v) {
      var whole, fraction := TextFound(s);
    }
    forall whole, fraction | NumberText(s, whole, fraction) && v == NumberValue(whole, fraction)
      ensures ParseNumber(s) == Some(v)
    {
      TextReads(s, whole, fraction);
    }
  }

  lemma TextFound(s: string) returns (whole: string, fraction: string)
    requires ParseNumber(s).Some?
    ensures NumberText(s, whole, fraction) && ParseNumber(s) == Some(NumberValue(whole, fraction))
  {
    var i := DotAt(s);
    whole, fraction := s[..i], if i < |s| then s[i + 1..] else "";
    if i < |s| {
      assert s == whole + (['.'] + fraction);
    } else {
      assert s == whole;
    }
  }

  lemma TextReads(s: string, whole: string, fraction: string)
    requires NumberText(s, whole, fraction)
    ensures ParseNumber(s) == Some(NumberValue(whole, fraction))
  {
    DigitsHaveNoDot(whole);
    if s == whole {
      assert s[..|whole|] == whole;
      DotAtIs(s, |whole|);
      assert whole + "" == whole;
    } else {
      assert s[..|whole|] == whole && s[|whole|] == '.' && s[|whole| + 1..] == fraction;
      DotAtIs(s, |whole|);
    }
  }

  /** The point divides by a power of ten. */
  lemma PointDivides(whole: string, fraction: string)
    requires Digits(whole) && Digits(fraction)
    ensures Digits(whole + fraction)
    ensures NumberValue(whole, fraction) == Ratio(NatOf(whole + fraction), Power10(|fraction|))
  {
    DigitsJoin(whole, fraction);
    Pointed(NatOf(whole), NatOf(fraction), Power10(|fraction|), NatOf(whole + fraction));
  }

  function Ratio(n: nat, d: nat): real
    requires d > 0
  {
    n as real / d as real
  }

  lemma Pointed(w: nat, f: nat, p: nat, n: nat)
    requires p > 0 && n == w * p + f
    ensures w as real + f as real / p as real == Ratio(n, p)
  {
    var q, r := f as real / p as real, n as real / p as real;
    Divided(f as real, p as real);
    Divided(n as real, p as real);
    Distributes(w as real, q, p as real);
    Product(w, p);
    Cancelled(w as real + q, r, p as real);
  }

  lemma Cancelled(x: real, y: real, p: real)
    requires p > 0.0 && x * p == y * p
    ensures x == y
  {
    assert (x - y) * p == 0.0;
  }

  lemma Divided(f: real, p: real)
    requires p > 0.0
    ensures f / p * p == f
  {
  }

  lemma Product(a: int, b: int)
    ensures (a * b) as real == a as real * b as real
  {
  }

  lemma Distributes(x: real, y: real, z: real)
    ensures (x + y) * z == x * z + y * z
  {
  }

  lemma {:induction false} DigitsJoin(a: string, b: string)
    requires Digits(a) && Digits(b)
    ensures Digits(a + b) && NatOf(a + b) == NatOf(a) * Power10(|b|) + NatOf(b)
    decreases |b|
  {
    if b == "" {
      assert a + b == a;
    } else {
      var front, last := b[..|b| - 1], b[|b| - 1];
      DigitsJoin(a, front);
      assert (a + b)[..|a + b| - 1] == a + front && (a + b)[|a + b| - 1] == last;
      Regroups(NatOf(a), Power10(|front|), NatOf(front), last as int - '0' as int);
    }
  }

  lemma Regroups(a: int, p: int, f: int, d: int)
    ensures (a * p + f) * 10 + d == a * (10 * p) + (f * 10 + d)
  {
  }

  lemma PrintOfThreeHundredThousand()
    ensures Decimal(300000) == "300000"
  {
    assert Decimal(3) == "3";
    assert Decimal(30) == "30";
    assert Decimal(300) == "300";
    assert Decimal(3000) == "3000";
    assert Decimal(30000) == "30000";
  }

  /** A long duration that is accepted. */
  lemma LongDuration()
    ensures Parsed(Component, "P300000Y") == Some(9460800000000.0)
  {
    var years := Amount(300000, "", 'Y');
    PrintOfThreeHundredThousand();
    assert years.Text() == "300000" && years.Number() == 300000.0;
    assert PartsOf([years]) == [Part("300000", 'Y')];
    assert Print([Part("300000", 'Y')]) == "300000" + (['Y'] + "");
    assert DurationOf([years], None).Text() == "P300000Y";
    assert SecondsOf([years], false) == 9460800000000.0;
    DecimalDurationParses([years], None);
  }

  // ---- The durations of XML Schema ---------------------------------------------------------

  predicate WholeText(s: string) {
    s != "" && Digits(s)
  }

  /** Digits, with digits on both sides of a point if there is one. */
  predicate SecondsText(s: string) {
    var i := DotAt(s);
    WholeText(s[..i]) && (i < |s| ==> WholeText(s[i + 1..]))
  }

  /** Position of a unit in its half. */
  function Rank(unit: char, inTime: bool): Option<nat> {
    if inTime then
      if unit == 'H' then Some(0) else if unit == 'M' then Some(1) else if unit == 'S' then Some(2) else None
    else
      if unit == 'Y' then Some(0) else if unit == 'M' then Some(1) else if unit == 'D' then Some(2) else None
  }

  /** Units from `least` on strictly in order, and whole numbers except for
      seconds. */
  predicate SchemaParts(parts: seq<Part>, inTime: bool, least: nat) {
    parts == []
    || (var p, rank := parts[0], Rank(parts[0].unit, inTime);
        && rank.Some? && rank.value >= least
        && (if inTime && p.unit == 'S' then SecondsText(p.num) else WholeText(p.num))
        && SchemaParts(parts[1..], inTime, rank.value + 1))
  }

  /** The form of section 3.2.6 of XML Schema Part 2, without a sign: something
      must be there, and a `T` only if a time follows. */
  predicate SchemaForm(d: Duration) {
    && SchemaParts(d.date, false, 0)
    && (d.time.Some? ==> d.time.value != [] && SchemaParts(d.time.value, true, 0))
    && (d.date != [] || d.time.Some?)
  }

  ghost predicate SchemaText(s: string) {
    exists d: Duration :: SchemaForm(d) && d.Text() == s
  }

  predicate PlainPart(p: Part) {
    && p.num != "" && (forall c :: c in p.num ==> NumberChar(c))
    && p.unit != 'T' && !NumberChar(p.unit)
  }

  predicate PlainDuration(d: Duration) {
    && (forall p :: p in d.date ==> PlainPart(p))
    && (d.time.Some? ==> forall p :: p in d.time.value ==> PlainPart(p))
  }

  lemma {:induction false} NumberIsRead(num: string, tail: string, before: string)
    requires forall c :: c in num ==> NumberChar(c)
    ensures ReadParts(num + tail, before) == ReadParts(tail, before + num)
    decreases |num|
  {
    if num == "" {
      assert num + tail == tail && before + num == before;
    } else {
      assert num[0] in num && (num + tail)[1..] == num[1..] + tail;
      assert !(num[0] == 'T');
      NumberIsRead(num[1..], tail, before + [num[0]]);
      assert before + [num[0]] + num[1..] == before + num;
    }
  }

  lemma PartIsRead(p: Part, rest: string)
    requires PlainPart(p)
    ensures ReadParts(p.num + ([p.unit] + rest), "") == ([p] + ReadParts(rest, "").0, ReadParts(rest, "").1)
  {
    NumberIsRead(p.num, [p.unit] + rest, "");
    assert "" + p.num == p.num;
    assert ([p.unit] + rest)[1..] == rest;
  }

  lemma RestIsRead(rest: Option<string>)
    ensures ReadParts(RestText(rest), "") == ([], rest)
  {
    if rest.Some? {
      assert RestText(rest)[1..] == rest.value;
    }
  }

  lemma PrintSplits(parts: seq<Part>, tail: string)
    requires parts != []
    ensures Print(parts) + tail == parts[0].num + ([parts[0].unit] + (Print(parts[1..]) + tail))
  {
  }

  lemma {:induction false} PrintIsRead(parts: seq<Part>, rest: Option<string>)
    requires forall p :: p in parts ==> PlainPart(p)
    ensures ReadParts(Print(parts) + RestText(rest), "") == (parts, rest)
  {
    if parts == [] {
      assert Print(parts) + RestText(rest) == RestText(rest);
      RestIsRead(rest);
    } else {
      PrintSplits(parts, RestText(rest));
      PartIsRead(parts[0], Print(parts[1..]) + RestText(rest));
      PrintIsRead(parts[1..], rest);
      assert parts == [parts[0]] + parts[1..];
    }
  }

  /** A text has one reading. */
  lemma ReadingUnique(d: Duration)
    requires PlainDuration(d)
    ensures ReadingOf(d.Text()) == d
  {
    var rest := if d.time.Some? then Some(Print(d.time.value)) else None;
    assert d.Text()[1..] == Print(d.date) + RestText(rest);
    PrintIsRead(d.date, rest);
    if d.time.Some? {
      PrintIsRead(d.time.value, None);
      assert Print(d.time.value) + "" == Print(d.time.value);
    }
  }

  lemma SchemaNumber(s: string)
    ensures WholeText(s) ==> SecondsText(s)
    ensures SecondsText(s) ==> s != "" && ParseNumber(s).Some? && ParseNumber(s).value >= 0.0 && forall c :: c in s ==> NumberChar(c)
  {
    var i := DotAt(s);
    if WholeText(s) {
      DigitsHaveNoDot(s);
      assert s[..|s|] == s;
      DotAtIs(s, |s|);
    }
    if SecondsText(s) {
      DigitsHaveNoDot(s[..i]);
      if i < |s| {
        DigitsHaveNoDot(s[i + 1..]);
        assert s == s[..i] + ([s[i]] + s[i + 1..]);
        NumberReads(s[..i], s[i + 1..]);
      } else {
        assert s[..i] == s;
        NumberReads(s, "");
      }
    }
  }

  lemma {:induction false} SchemaPartsValid(parts: seq<Part>, inTime: bool, least: nat)
    requires SchemaParts(parts, inTime, least)
    ensures ValidParts(Component, parts, inTime) && Total(Component, parts, inTime) >= 0.0
    ensures forall p :: p in parts ==> PlainPart(p)
  {
    if parts != [] {
      var p := parts[0];
      SchemaNumber(p.num);
      SchemaPartsValid(parts[1..], inTime, Rank(p.unit, inTime).value + 1);
      NonNegative(ParseNumber(p.num).value, UnitSeconds(inTime, p.unit).value);
      assert parts == [p] + parts[1..];
    }
  }

  lemma SchemaFormValid(d: Duration)
    requires SchemaForm(d)
    ensures d.Valid(Component) && PlainDuration(d) && d.Seconds(Component) >= 0.0
  {
    SchemaPartsValid(d.date, false, 0);
    if d.time.Some? {
      SchemaPartsValid(d.time.value, true, 0);
    }
  }

  /** Every schema duration whose total fits is accepted, with that total. */
  lemma SchemaDurationsAccepted(d: Duration)
    requires SchemaForm(d)
    ensures d.Valid(Component)
    ensures Parsed(Component, d.Text()) == if d.Seconds(Component) < SECONDS_LIMIT then Some(d.Seconds(Component)) else None
  {
    SchemaFormValid(d);
    PrintedParses(Component, d);
  }

  /** A text is a schema duration exactly when its reading has the schema form and
      prints as that text; for an accepted text the form alone decides. */
  lemma SchemaExactly(s: string)
    ensures SchemaText(s) <==> SchemaForm(ReadingOf(s)) && ReadingOf(s).Text() == s
    ensures Parsed(Component, s).Some? ==> (SchemaText(s) <==> SchemaForm(ReadingOf(s)))
  {
    if SchemaText(s) {
      var d: Duration :| SchemaForm(d) && d.Text() == s;
      SchemaFormValid(d);
      ReadingUnique(d);
    }
    if Parsed(Component, s).Some? {
      Reading(Component, s, Parsed(Component, s).value);
    }
  }

  lemma NotSchema(d: Duration)
    requires PlainDuration(d) && !SchemaForm(d)
    ensures !SchemaText(d.Text())
  {
    ReadingUnique(d);
    SchemaExactly(d.Text());
  }

  /** Accepted with this value, although no schema duration. */
  ghost predicate Lax(s: string, v: real) {
    Parsed(Component, s) == Some(v) && !SchemaText(s)
  }

  lemma OneOf(unit: char)
    ensures UnitSeconds(false, unit).Some? ==>
              ValidPart(Component, Part("1", unit), false)
              && Component("1", false, unit) == Some(Scaled(1.0, UnitSeconds(false, unit).value))
  {
    assert Decimal(1) == ['1'];
    if UnitSeconds(false, unit).Some? {
      AmountReads(Amount(1, "", unit), false);
      assert Amount(1, "", unit).Text() == "1" && Amount(1, "", unit).Number() == 1.0;
    }
  }

  lemma TwoPartsTotal(p: Part, q: Part)
    requires ValidPart(Component, p, false) && ValidPart(Component, q, false)
    ensures ValidParts(Component, [p, q], false)
    ensures Total(Component, [p, q], false) == Component(p.num, false, p.unit).value + Component(q.num, false, q.unit).value
  {
    TotalCons(q, [], false);
    TotalCons(p, [q], false);
    assert [q] + [] == [q] && [p] + [q] == [p, q];
  }

  lemma TwoPartsText(p: Part, q: Part)
    ensures Duration([p, q], None).Text() == ['P'] + p.num + [p.unit] + q.num + [q.unit]
  {
    assert [p, q][1..] == [q] && [q][1..] == [];
    assert Print([q]) == q.num + ([q.unit] + "");
    assert Print([p, q]) == p.num + ([p.unit] + Print([q]));
  }

  lemma TwoPartsPlain(p: Part, q: Part)
    requires PlainPart(p) && PlainPart(q)
    ensures PlainDuration(Duration([p, q], None))
  {
    assert forall x :: x in [p, q] ==> x == p || x == q;
  }

  lemma TwoOnes(u: char, w: char)
    requires UnitSeconds(false, u).Some? && UnitSeconds(false, w).Some?
    requires !SchemaParts([Part("1", u), Part("1", w)], false, 0)
    requires UnitSeconds(false, u).value + UnitSeconds(false, w).value < SECONDS_LIMIT
    ensures Lax(['P', '1', u, '1', w], UnitSeconds(false, u).value + UnitSeconds(false, w).value)
  {
    var p, q := Part("1", u), Part("1", w);
    var d := Duration([p, q], None);
    OneOf(u);
    OneOf(w);
    TwoPartsTotal(p, q);
    TwoPartsText(p, q);
    TwoPartsPlain(p, q);
    assert d.Text() == ['P', '1', u, '1', w];
    PrintedParses(Component, d);
    NotSchema(d);
  }

  /** Units out of order. */
  lemma DayBeforeYear()
    ensures Lax("P1D1Y", 31622400.0)
  {
    var p, q := Part("1", 'D'), Part("1", 'Y');
    assert [p, q][1..] == [q] && Rank('D', false) == Some(2) && Rank('Y', false) == Some(0);
    assert !SchemaParts([q], false, 3);
    TwoOnes('D', 'Y');
  }

  /** A unit repeated. */
  lemma DayTwice()
    ensures Lax("P1D1D", 172800.0)
  {
    var p, q := Part("1", 'D'), Part("1", 'D');
    assert [p, q][1..] == [q] && Rank('D', false) == Some(2);
    assert !SchemaParts([q], false, 3);
    TwoOnes('D', 'D');
  }

  /** A `T` with nothing after it. */
  lemma EmptyTime()
    ensures Lax("P1DT", 86400.0)
  {
    var p := Part("1", 'D');
    var d := Duration([p], Some([]));
    OneOf('D');
    assert [p][1..] == [] && Print([p]) == "1" + (['D'] + "");
    assert d.Text() == "P1DT";
    assert Total(Component, [p], false) == 86400.0;
    PrintedParses(Component, d);
    NotSchema(d);
  }

  /** In general a trailing `T` changes nothing. */
  lemma TrailingTimeMark(m: Meaning, date: seq<Part>)
    requires ValidParts(m, date, false) && date != []
    ensures Parsed(m, Duration(date, Some([])).Text()) == Parsed(m, Duration(date, None).Text())
    ensures Duration(date, Some([])).Text() == Duration(date, None).Text() + ['T']
  {
    PrintedParses(m, Duration(date, Some([])));
    PrintedParses(m, Duration(date, None));
    assert ['T'] + Print([]) == ['T'];
    assert ['P'] + (Print(date) + ['T']) == ['P'] + (Print(date) + "") + ['T'];
  }
}
