/** What every bank parser produces and the conversions they share: the
    extracted transaction record, the parts of `time.Now()` the parsers read,
    `strconv.Atoi` on date fields, `strconv.ParseFloat` on comma-grouped
    amounts, the year-boundary rule for dates printed without a year, and the
    ROC (Minguo) year offset. */
module Statement {
  import opened Wrappers
  import opened Text
  import opened Calendar
  import opened LinePattern

  /** A transaction extracted from a statement. The amount is the exact
      value of the printed digits; category and card suffix are never filled
      in by the parsers and stay empty. */
  datatype Transaction = Transaction(date: Date, description: string, amount: nat, currency: string,
                                     category: string, cardLast4: string)

  /** The current year and month (1..12), read by the parsers from the clock. */
  datatype Clock = Clock(year: int, month: int)

  const Currency: string := "TWD"

  // ---------------------------------------------------------------------
  // Numbers

  /** `v, _ := strconv.Atoi(s)` on an unsigned digit string: its value, and
      0 when `s` is empty or holds a non-digit (the error is discarded). */
  function Atoi(s: string): nat {
    if |s| > 0 && AllDigits(s) then DecimalValue(s) else 0
  }

  lemma AtoiPadded(n: nat, w: nat)
    requires 1 <= w && n < Pow10(w)
    ensures Atoi(PadDecimal(n, w)) == n
  {
    PadDecimalRoundTrip(n, w);
  }

  /** 2^1024 - 2^970: the halfway point between the largest finite float64,
      (2^53 - 1) * 2^971, and 2^1024. Round-to-nearest-even takes every
      integer from here on to infinity, which `strconv.ParseFloat` reports as
      a range error. */
  const FloatOverflowBound: nat := 179769313486231580793728971405303415079934132710037826936173778980444968292764750946649017977587207096330286416692887910946555547851940402630657488671505820681908902000708383676273854845817711531764475730270069855571366959622842914819860834936475292719074168444365510704342711559699508093042880177904174497792

  /** `strconv.ParseFloat(strings.ReplaceAll(group, ",", ""), 64)` for an
      amount group: the value of the digits once the commas are removed;
      `None` (the parse error that makes a parser skip the line) when no
      digit remains, something other than a digit remains, or the value
      overflows float64. */
  function ParseAmount(group: string): (r: Option<nat>)
    ensures r.Some? ==> r.value < FloatOverflowBound
  {
    var digits := RemoveChar(group, ',');
    if |digits| == 0 || !AllDigits(digits) then None
    else if DecimalValue(digits) < FloatOverflowBound then Some(DecimalValue(digits))
    else None
  }

  /** A printed amount parses back to the number it shows. */
  lemma AmountRoundTrip(n: nat)
    requires n < FloatOverflowBound
    ensures ParseAmount(ShowDecimal(n)) == Some(n)
  {
    RemoveCharAbsent(ShowDecimal(n), ',');
    DecimalRoundTrip(n);
  }

  /** Thousands separators (or commas anywhere) do not change the amount. */
  lemma CommasIgnored(a: string, b: string)
    ensures ParseAmount(a + "," + b) == ParseAmount(a + b)
  {
    RemoveCharAppend(a + ",", b, ',');
    RemoveCharAppend(a, ",", ',');
    RemoveCharAppend(a, b, ',');
    RemoveCharOnly(",", ',');
    assert RemoveChar(a + "," + b, ',') == RemoveChar(a + b, ',');
  }

  /** A group of commas only has no number in it. */
  lemma OnlyCommas(group: string)
    requires forall k :: 0 <= k < |group| ==> group[k] == ','
    ensures ParseAmount(group) == None
  {
    RemoveCharOnly(group, ',');
  }

  /** A value too large for float64 is a parse error. */
  lemma AmountOverflow(n: nat)
    requires n >= FloatOverflowBound
    ensures ParseAmount(ShowDecimal(n)) == None
  {
    RemoveCharAbsent(ShowDecimal(n), ',');
    DecimalRoundTrip(n);
  }

  // ---------------------------------------------------------------------
  // Years

  /** The year of a statement date printed without one: the current year,
      unless the month lies later in the year than the current month, in
      which case the purchase was made last year. */
  function ImpliedYear(clock: Clock, month: int): int {
    if month > clock.month then clock.year - 1 else clock.year
  }

  /** The implied (year, month) is the latest one with that month that is not
      after the current month: it lies in the twelve months ending with the
      current one, and no other year does. */
  lemma ImpliedYearRecent(clock: Clock, month: int, y: int)
    requires 1 <= month <= 12 && 1 <= clock.month <= 12
    ensures var now := 12 * clock.year + clock.month;
      var dated := 12 * ImpliedYear(clock, month) + month;
      now - 12 < dated <= now
    ensures var now := 12 * clock.year + clock.month;
      now - 12 < 12 * y + month <= now ==> y == ImpliedYear(clock, month)
  {
  }

  /** Years of the Republic of China era count from 1912, so ROC year 1 is
      1912. */
  const RocOffset: int := 1911

  /** The Gregorian year of an ROC year: the era's years run one to one
      with the Gregorian ones, starting from 1912. */
  function RocToGregorian(rocYear: int): (y: int)
    ensures rocYear >= 1 <==> y >= 1912
  {
    rocYear + RocOffset
  }

  /** A zero-padded ROC year field reads back as the Gregorian year of the
      number it prints. */
  lemma RocFieldYear(rocYear: nat, w: nat)
    requires 1 <= w && rocYear < Pow10(w)
    ensures RocToGregorian(Atoi(PadDecimal(rocYear, w))) == rocYear + 1911
  {
    AtoiPadded(rocYear, w);
  }

  /** The conversions the Fubon tests list, read from three-digit fields. */
  lemma RocExamples()
    ensures RocToGregorian(Atoi(PadDecimal(100, 3))) == 2011
    ensures RocToGregorian(Atoi(PadDecimal(110, 3))) == 2021
    ensures RocToGregorian(Atoi(PadDecimal(114, 3))) == 2025
    ensures RocToGregorian(Atoi(PadDecimal(115, 3))) == 2026
  {
    RocFieldYear(100, 3);
    RocFieldYear(110, 3);
    RocFieldYear(114, 3);
    RocFieldYear(115, 3);
  }

  // ---------------------------------------------------------------------
  // Date tokens

  /** A token that fits a layout has its slashes exactly where the layout has
      them, and therefore as many. */
  lemma {:induction false} SameSlashes(t: string, layout: Layout)
    requires |t| == |layout|
    requires forall k :: 0 <= k < |t| ==> (t[k] == '/' <==> layout[k] == '/')
    ensures CountChar(t, '/') == CountChar(layout, '/')
    decreases |t|
  {
    if |t| > 0 {
      assert t[0] == '/' <==> layout[0] == '/';
      SameSlashes(t[1..], layout[1..]);
    }
  }

  /** The date group of a found match has as many slashes as its layout. */
  lemma TokenSlashes(line: string, layouts: seq<Layout>)
    requires FindStringSubmatch(line, layouts).Some?
    ensures var m := FindStringSubmatch(line, layouts).value;
      m.alt < |layouts| && CountChar(DateGroup(line, m), '/') == CountChar(layouts[m.alt], '/')
  {
    MatchGroups(line, layouts);
    var m := FindStringSubmatch(line, layouts).value;
    var t := DateGroup(line, m);
    var layout := layouts[m.alt];
    forall k | 0 <= k < |t|
      ensures t[k] == '/' <==> layout[k] == '/'
    {
      assert SlotMatches(layout[k], t[k]);
    }
    SameSlashes(t, layout);
  }

  lemma LayoutSlashes()
    ensures CountChar(MonthDay, '/') == 1
    ensures CountChar(YearMonthDay, '/') == 2
    ensures CountChar(RocYearMonthDay, '/') == 2
  {
  }

  /** The date a month/day token stands for: the implied year, and
      `time.Date`'s normalisation of out-of-range months and days. */
  function MonthDayDate(clock: Clock, monthText: string, dayText: string): Date {
    var month := Atoi(monthText);
    MakeDate(ImpliedYear(clock, month), month, Atoi(dayText))
  }

  /** The transaction a matched line yields once its date is known: the
      trimmed description and the parsed amount in TWD, or nothing when the
      amount does not parse. */
  function Emit(line: string, m: Match, date: Date): Option<Transaction> {
    match ParseAmount(AmountGroup(line, m))
    case None => None
    case Some(amount) => Some(Transaction(date, TrimSpace(DescGroup(line, m)), amount, Currency, "", ""))
  }

  /** What every emitted transaction satisfies. */
  ghost predicate WellFormed(t: Transaction) {
    && Valid(t.date)
    && t.currency == Currency
    && Trimmed(t.description)
    && t.amount < FloatOverflowBound
    && t.category == "" && t.cardLast4 == ""
  }

  lemma EmitWellFormed(line: string, m: Match, date: Date)
    requires Valid(date)
    ensures Emit(line, m, date).Some? <==> ParseAmount(AmountGroup(line, m)).Some?
    ensures Emit(line, m, date).Some? ==> WellFormed(Emit(line, m, date).value)
  {
    match ParseAmount(AmountGroup(line, m))
    case None =>
    case Some(amount) =>
      var desc := TrimSpace(DescGroup(line, m));
      assert Emit(line, m, date) == Some(Transaction(date, desc, amount, Currency, "", ""));
  }
}
