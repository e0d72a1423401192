/** The round trips: every bank parser reads the lines its statements
    print back into the transactions they describe, and the Fubon parser
    misreads a Gregorian full date. */
module BankRoundTrips {
  import opened Wrappers
  import opened Text
  import opened Calendar
  import opened LinePattern
  import opened Statement
  import opened BankParsers
  import opened BankLines

  /** Cathay reads `MM/DD desc amount` back, dated in the implied year. */
  lemma CathayRoundTrip(month: nat, day: nat, desc: string, amount: string, clock: Clock)
    requires month < 100 && day < 100
    requires PlainDescription(desc) && AmountToken(amount)
    ensures ParseLine(Cathay, LineText(MonthDayText(month, day), desc, amount), clock)
      == Expected(MakeDate(ImpliedYear(clock, month), month, day), desc, amount)
  {
    CathayRoundTripAt(LineText(MonthDayText(month, day), desc, amount), month, day, desc, amount, clock);
  }

  lemma CathayRoundTripAt(line: string, month: nat, day: nat, desc: string, amount: string, clock: Clock)
    requires month < 100 && day < 100
    requires PlainDescription(desc) && AmountToken(amount)
    requires line == LineText(MonthDayText(month, day), desc, amount)
    ensures ParseLine(Cathay, line, clock)
      == Expected(MakeDate(ImpliedYear(clock, month), month, day), desc, amount)
  {
    PrintedMonthDay(month, day, desc, amount, CathayLayouts, 0);
    CathayReads(line, month, day, desc, amount, clock);
  }

  /** Taishin reads `YYYY/MM/DD desc amount` back with the printed year. */
  lemma TaishinFullDateRoundTrip(year: nat, month: nat, day: nat, desc: string, amount: string, clock: Clock)
    requires year < 10000 && month < 100 && day < 100
    requires PlainDescription(desc) && AmountToken(amount)
    ensures ParseLine(Taishin, LineText(YearDateText(year, 4, month, day), desc, amount), clock)
      == Expected(MakeDate(year, month, day), desc, amount)
  {
    TaishinFullDateRoundTripAt(LineText(YearDateText(year, 4, month, day), desc, amount), year, month, day, desc, amount, clock);
  }

  lemma TaishinFullDateRoundTripAt(line: string, year: nat, month: nat, day: nat, desc: string, amount: string, clock: Clock)
    requires year < 10000 && month < 100 && day < 100
    requires PlainDescription(desc) && AmountToken(amount)
    requires line == LineText(YearDateText(year, 4, month, day), desc, amount)
    ensures ParseLine(Taishin, line, clock)
      == Expected(MakeDate(year, month, day), desc, amount)
  {
    PrintedYearDate(year, 4, month, day, desc, amount, TaishinLayouts, 0);
    TaishinFullDateReads(line, year, month, day, desc, amount, clock);
  }

  /** Taishin reads `MM/DD desc amount` back, dated in the implied year. */
  lemma TaishinMonthDayRoundTrip(month: nat, day: nat, desc: string, amount: string, clock: Clock)
    requires month < 100 && day < 100
    requires PlainDescription(desc) && AmountToken(amount)
    ensures ParseLine(Taishin, LineText(MonthDayText(month, day), desc, amount), clock)
      == Expected(MakeDate(ImpliedYear(clock, month), month, day), desc, amount)
  {
    TaishinMonthDayRoundTripAt(LineText(MonthDayText(month, day), desc, amount), month, day, desc, amount, clock);
  }

  lemma TaishinMonthDayRoundTripAt(line: string, month: nat, day: nat, desc: string, amount: string, clock: Clock)
    requires month < 100 && day < 100
    requires PlainDescription(desc) && AmountToken(amount)
    requires line == LineText(MonthDayText(month, day), desc, amount)
    ensures ParseLine(Taishin, line, clock)
      == Expected(MakeDate(ImpliedYear(clock, month), month, day), desc, amount)
  {
    MonthDayNotFullDate(month, day, desc, amount);
    PrintedMonthDay(month, day, desc, amount, TaishinLayouts, 1);
    TaishinMonthDayReads(line, month, day, desc, amount, clock);
  }

  /** Fubon reads `YYY/MM/DD desc amount` with an ROC year back, 1911 years
      later. */
  lemma FubonRocRoundTrip(rocYear: nat, month: nat, day: nat, desc: string, amount: string, clock: Clock)
    requires rocYear < 1000 && month < 100 && day < 100
    requires PlainDescription(desc) && AmountToken(amount)
    ensures ParseLine(Fubon, LineText(YearDateText(rocYear, 3, month, day), desc, amount), clock)
      == Expected(MakeDate(rocYear + 1911, month, day), desc, amount)
  {
    FubonRocRoundTripAt(LineText(YearDateText(rocYear, 3, month, day), desc, amount), rocYear, month, day, desc, amount, clock);
  }

  lemma FubonRocRoundTripAt(line: string, rocYear: nat, month: nat, day: nat, desc: string, amount: string, clock: Clock)
    requires rocYear < 1000 && month < 100 && day < 100
    requires PlainDescription(desc) && AmountToken(amount)
    requires line == LineText(YearDateText(rocYear, 3, month, day), desc, amount)
    ensures ParseLine(Fubon, line, clock)
      == Expected(MakeDate(rocYear + 1911, month, day), desc, amount)
  {
    PrintedYearDate(rocYear, 3, month, day, desc, amount, FubonRocLayouts, 0);
    FubonRocReads(line, rocYear, month, day, desc, amount, clock);
  }

  /** Fubon reads `MM/DD desc amount` back, dated in the implied year, as
      long as the description holds no slash (an ROC date further on would
      be taken first). */
  lemma FubonMonthDayRoundTrip(month: nat, day: nat, desc: string, amount: string, clock: Clock)
    requires month < 100 && day < 100
    requires PlainDescription(desc) && AmountToken(amount) && '/' !in desc
    ensures ParseLine(Fubon, LineText(MonthDayText(month, day), desc, amount), clock)
      == Expected(MakeDate(ImpliedYear(clock, month), month, day), desc, amount)
  {
    FubonMonthDayRoundTripAt(LineText(MonthDayText(month, day), desc, amount), month, day, desc, amount, clock);
  }

  lemma FubonMonthDayRoundTripAt(line: string, month: nat, day: nat, desc: string, amount: string, clock: Clock)
    requires month < 100 && day < 100
    requires PlainDescription(desc) && AmountToken(amount) && '/' !in desc
    requires line == LineText(MonthDayText(month, day), desc, amount)
    ensures ParseLine(Fubon, line, clock)
      == Expected(MakeDate(ImpliedYear(clock, month), month, day), desc, amount)
  {
    MonthDayNoRocDate(month, day, desc, amount);
    PrintedMonthDay(month, day, desc, amount, FubonSimpleLayouts, 0);
    FubonMonthDayReads(line, month, day, desc, amount, clock);
  }

  /** A month/day line does not start with a full date: its fifth
      character is a digit where `YYYY/MM/DD` has a slash. */
  lemma MonthDayNotFullDate(month: nat, day: nat, desc: string, amount: string)
    requires month < 100 && day < 100
    ensures !DateTokenAt(LineText(MonthDayText(month, day), desc, amount), 0, YearMonthDay)
  {
    var token := MonthDayText(month, day);
    var line := LineText(token, desc, amount);
    MonthDayTextShape(month, day);
    assert line[4] == token[4];
    assert !SlotMatches(YearMonthDay[4], line[0 + 4]);
  }

  /** A month/day line whose description has no slash holds no ROC date. */
  lemma MonthDayNoRocDate(month: nat, day: nat, desc: string, amount: string)
    requires month < 100 && day < 100 && '/' !in desc && AmountToken(amount)
    ensures FindStringSubmatch(LineText(MonthDayText(month, day), desc, amount), FubonRocLayouts) == None
  {
    var token := MonthDayText(month, day);
    MonthDayTextShape(month, day);
    NoLaterSlash(token, desc, amount);
    NoSlashFromNoMatch(LineText(token, desc, amount), FubonRocLayouts, 3);
  }

  /** In a printed month/day line whose description has no slash, the date's
      slash is the only one. */
  lemma NoLaterSlash(token: string, desc: string, amount: string)
    requires |token| == 5 && AllDigits(token[3..]) && '/' !in desc && AmountToken(amount)
    ensures var line := LineText(token, desc, amount);
      forall x :: 3 <= x < |line| ==> line[x] != '/'
  {
    var line := LineText(token, desc, amount);
    AmountTokenChars(amount);
    forall x | 3 <= x < |line|
      ensures line[x] != '/'
    {
      if x < 5 {
        assert line[x] == token[3..][x - 3];
      } else if 6 <= x < 6 + |desc| {
        assert line[x] == desc[x - 6];
      } else if 7 + |desc| <= x {
        assert line[x] == amount[x - 7 - |desc|];
      }
    }
  }

  /** A Gregorian `YYYY/MM/DD` line given to the Fubon parser is read as an
      ROC date starting at the year's second digit: for a year printed as
      digit `c` then `r` (year 1000c + r), the transaction is dated r + 1911,
      so 2025 becomes 1936. */
  lemma FubonReadsFourDigitYearAsRoc(c: char, r: nat, month: nat, day: nat, desc: string, amount: string, clock: Clock)
    requires IsDigit(c) && r < 1000 && month < 100 && day < 100
    requires PlainDescription(desc) && AmountToken(amount)
    ensures Atoi([c] + PadDecimal(r, 3)) == 1000 * DigitValue(c) + r
    ensures ParseLine(Fubon, LineText([c] + YearDateText(r, 3, month, day), desc, amount), clock)
      == Expected(MakeDate(r + 1911, month, day), desc, amount)
  {
    FourDigitYear(c, r);
    FubonReadsFourDigitYearAsRocAt(LineText([c] + YearDateText(r, 3, month, day), desc, amount), c, r, month, day, desc, amount, clock);
  }

  /** The year a digit followed by three zero-padded digits stands for. */
  lemma FourDigitYear(c: char, r: nat)
    requires IsDigit(c) && r < 1000
    ensures Atoi([c] + PadDecimal(r, 3)) == 1000 * DigitValue(c) + r
  {
    DecimalValueAppend([c], PadDecimal(r, 3));
    PadDecimalRoundTrip(r, 3);
  }

  lemma FubonReadsFourDigitYearAsRocAt(line: string, c: char, r: nat, month: nat, day: nat, desc: string, amount: string, clock: Clock)
    requires IsDigit(c) && r < 1000 && month < 100 && day < 100
    requires PlainDescription(desc) && AmountToken(amount)
    requires line == LineText([c] + YearDateText(r, 3, month, day), desc, amount)
    ensures ParseLine(Fubon, line, clock) == Expected(MakeDate(r + 1911, month, day), desc, amount)
  {
    RocDateAfterDigit(line, c, r, month, day, desc, amount);
    FubonRocReads(line, r, month, day, desc, amount, clock);
  }

  /** The search for an ROC date in a line that starts with one more digit
      skips that digit and matches the rest. */
  lemma RocDateAfterDigit(line: string, c: char, r: nat, month: nat, day: nat, desc: string, amount: string)
    requires IsDigit(c) && r < 1000 && month < 100 && day < 100
    requires PlainDescription(desc) && AmountToken(amount)
    requires line == LineText([c] + YearDateText(r, 3, month, day), desc, amount)
    ensures var m := FindStringSubmatch(line, FubonRocLayouts);
      && TrimSpace(line) == line
      && m.Some?
      && DateGroup(line, m.value) == YearDateText(r, 3, month, day)
      && TrimSpace(DescGroup(line, m.value)) == desc
      && AmountGroup(line, m.value) == amount
  {
    RocDateAfterDigitIn(c, r, month, day, desc, amount, FubonRocLayouts);
  }

  /** The same, for any single-layout list holding the ROC layout. */
  lemma RocDateAfterDigitIn(c: char, r: nat, month: nat, day: nat, desc: string, amount: string, layouts: seq<Layout>)
    requires IsDigit(c) && r < 1000 && month < 100 && day < 100
    requires PlainDescription(desc) && AmountToken(amount)
    requires |layouts| == 1 && layouts[0] == RocYearMonthDay
    ensures var line := LineText([c] + YearDateText(r, 3, month, day), desc, amount);
      var m := FindStringSubmatch(line, layouts);
      && TrimSpace(line) == line
      && m.Some?
      && DateGroup(line, m.value) == YearDateText(r, 3, month, day)
      && TrimSpace(DescGroup(line, m.value)) == desc
      && AmountGroup(line, m.value) == amount
  {
    YearDateTextShape(r, 3, month, day);
    NoRocDateAtDigit(c, YearDateText(r, 3, month, day), desc, amount, layouts);
    PrintedMatchAfterOne(c, YearDateText(r, 3, month, day), desc, amount, layouts, 0);
  }

  /** Four digits before the first slash do not fit `YYY/MM/DD`. */
  lemma NoRocDateAtDigit(c: char, token: string, desc: string, amount: string, layouts: seq<Layout>)
    requires |token| == 9 && IsDigit(token[2])
    requires |layouts| == 1 && layouts[0] == RocYearMonthDay
    ensures forall a :: 0 <= a < |layouts| ==> !DateTokenAt(LineText([c] + token, desc, amount), 0, layouts[a])
  {
    var line := LineText([c] + token, desc, amount);
    assert line[3] == token[2];
    NoTokenAtNonSlash(line, 0, RocYearMonthDay, 3);
  }
}
