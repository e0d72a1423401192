/** What the bank parsers make of the lines a statement actually prints:
    a zero-padded date, one space, the merchant description, one space and
    the amount. Each parser reads such a line back into the transaction it
    describes; this module proves that for every bank and date format, and
    shows where a format the parser does not expect is misread. */
module BankLines {
  import opened Wrappers
  import opened Text
  import opened Calendar
  import opened LinePattern
  import opened Statement
  import opened BankParsers

  // ---------------------------------------------------------------------
  // Printed lines

  function MonthDayText(month: nat, day: nat): string
    requires month < 100 && day < 100
  {
    PadDecimal(month, 2) + "/" + PadDecimal(day, 2)
  }

  /** A date with a `width`-digit year in front (4 for Gregorian years, 3
      for ROC years). */
  function YearDateText(year: nat, width: nat, month: nat, day: nat): string
    requires year < Pow10(width) && month < 100 && day < 100
  {
    PadDecimal(year, width) + "/" + MonthDayText(month, day)
  }

  function LineText(date: string, desc: string, amount: string): string {
    date + " " + desc + " " + amount
  }

  /** The transaction a printed line stands for: none when its amount is
      unreadable. */
  function Expected(date: Date, desc: string, amount: string): Option<Transaction> {
    match ParseAmount(amount)
    case None => None
    case Some(n) => Some(Transaction(date, desc, n, Currency, "", ""))
  }

  // ---------------------------------------------------------------------
  // Printed dates fit their layouts and split into their fields

  lemma DigitsNoSlash(s: string)
    requires AllDigits(s)
    ensures '/' !in s
  {
    assert forall k :: 0 <= k < |s| ==> s[k] != '/';
  }

  lemma MonthDayTextShape(month: nat, day: nat)
    requires month < 100 && day < 100
    ensures var t := MonthDayText(month, day);
      && |t| == |MonthDay| && DateTokenAt(t, 0, MonthDay)
      && IsDigit(t[0]) && IsDigit(t[4])
      && Split(t, '/') == [PadDecimal(month, 2), PadDecimal(day, 2)]
  {
    var a := PadDecimal(month, 2);
    var b := PadDecimal(day, 2);
    var t := a + "/" + b;
    assert t == [a[0], a[1], '/', b[0], b[1]];
    assert IsDigit(a[0]) && IsDigit(a[1]) && IsDigit(b[0]) && IsDigit(b[1]);
    DigitsNoSlash(a);
    DigitsNoSlash(b);
    SplitAppend(a, '/', b);
    assert t == a + ['/'] + b;
    SplitNoSeparator(a, '/');
    SplitNoSeparator(b, '/');
  }

  lemma YearDateTextShape(year: nat, width: nat, month: nat, day: nat)
    requires width == 3 || width == 4
    requires year < Pow10(width) && month < 100 && day < 100
    ensures var t := YearDateText(year, width, month, day);
      var layout := if width == 4 then YearMonthDay else RocYearMonthDay;
      && |t| == |layout| && DateTokenAt(t, 0, layout)
      && IsDigit(t[0]) && IsDigit(t[width - 1]) && t[width] == '/'
      && Split(t, '/') == [PadDecimal(year, width), PadDecimal(month, 2), PadDecimal(day, 2)]
  {
    var y := PadDecimal(year, width);
    var md := MonthDayText(month, day);
    MonthDayTextShape(month, day);
    if width == 4 {
      FullYearFits(y, md);
    } else {
      RocYearFits(y, md);
    }
    YearDateSplit(y, md);
  }

  lemma FullYearFits(y: string, md: string)
    requires |y| == 4 && AllDigits(y) && |md| == |MonthDay| && DateTokenAt(md, 0, MonthDay)
    ensures var t := y + "/" + md; |t| == |YearMonthDay| && DateTokenAt(t, 0, YearMonthDay)
  {
    var t := y + "/" + md;
    forall k | 0 <= k < |YearMonthDay|
      ensures SlotMatches(YearMonthDay[k], t[0 + k])
    {
      if k < 4 {
        assert t[k] == y[k] && YearMonthDay[k] == 'd';
      } else if k > 4 {
        assert t[k] == md[k - 5] && YearMonthDay[k] == MonthDay[k - 5];
        assert SlotMatches(MonthDay[k - 5], md[0 + (k - 5)]);
      }
    }
  }

  lemma RocYearFits(y: string, md: string)
    requires |y| == 3 && AllDigits(y) && |md| == |MonthDay| && DateTokenAt(md, 0, MonthDay)
    ensures var t := y + "/" + md; |t| == |RocYearMonthDay| && DateTokenAt(t, 0, RocYearMonthDay)
  {
    var t := y + "/" + md;
    forall k | 0 <= k < |RocYearMonthDay|
      ensures SlotMatches(RocYearMonthDay[k], t[0 + k])
    {
      if k < 3 {
        assert t[k] == y[k] && RocYearMonthDay[k] == 'd';
      } else if k > 3 {
        assert t[k] == md[k - 4] && RocYearMonthDay[k] == MonthDay[k - 4];
        assert SlotMatches(MonthDay[k - 4], md[0 + (k - 4)]);
      }
    }
  }

  lemma YearDateSplit(y: string, md: string)
    requires AllDigits(y) && |Split(md, '/')| == 2
    ensures Split(y + "/" + md, '/') == [y] + Split(md, '/')
  {
    DigitsNoSlash(y);
    SplitAppend(y, '/', md);
    assert y + "/" + md == y + ['/'] + md;
    SplitNoSeparator(y, '/');
  }

  /** The fields the parsers read from a printed month/day. */
  lemma MonthDayFields(month: nat, day: nat)
    requires month < 100 && day < 100
    ensures var t := MonthDayText(month, day); var parts := Split(t, '/');
      && CountChar(t, '/') == 1 && |parts| == 2
      && Atoi(parts[0]) == month && Atoi(parts[1]) == day
  {
    MonthDayTextShape(month, day);
    AtoiPadded(month, 2);
    AtoiPadded(day, 2);
  }

  /** The fields the parsers read from a printed date with a year. */
  lemma YearDateFields(year: nat, width: nat, month: nat, day: nat)
    requires width == 3 || width == 4
    requires year < Pow10(width) && month < 100 && day < 100
    ensures var t := YearDateText(year, width, month, day); var parts := Split(t, '/');
      && CountChar(t, '/') == 2 && |parts| == 3
      && Atoi(parts[0]) == year && Atoi(parts[1]) == month && Atoi(parts[2]) == day
  {
    YearDateTextShape(year, width, month, day);
    AtoiPadded(year, width);
    AtoiPadded(month, 2);
    AtoiPadded(day, 2);
  }

  // ---------------------------------------------------------------------
  // What the search finds in a printed line

  /** A printed line, possibly after a prefix where no layout fits, is
      matched at its date, with the description and amount as printed. */
  lemma PrintedMatch(pre: string, token: string, desc: string, amount: string, layouts: seq<Layout>, alt: nat)
    requires alt < |layouts| && |token| == |layouts[alt]|
    requires DateTokenAt(token, 0, layouts[alt])
    requires forall p, a :: 0 <= p < |pre| && 0 <= a < |layouts| ==>
      !DateTokenAt(LineText(pre + token, desc, amount), p, layouts[a])
    requires forall a :: 0 <= a < alt ==> !DateTokenAt(LineText(pre + token, desc, amount), |pre|, layouts[a])
    requires PlainDescription(desc) && AmountToken(amount)
    ensures var line := LineText(pre + token, desc, amount);
      var r := FindStringSubmatch(line, layouts);
      && r.Some? && r.value.alt == alt
      && DateGroup(line, r.value) == token
      && TrimSpace(DescGroup(line, r.value)) == desc
      && AmountGroup(line, r.value) == amount
  {
    assert LineText(pre + token, desc, amount) == pre + token + " " + desc + " " + amount;
    PlainLine(pre, token, desc, amount, layouts, alt);
    var line := LineText(pre + token, desc, amount);
    PlainMatchGroups(pre, token, desc, amount, FindStringSubmatch(line, layouts).value);
    TrimSpaceOfTrimmed(desc);
  }

  /** `PrintedMatch` for a line that starts with its date. */
  lemma PrintedMatchAtStart(token: string, desc: string, amount: string, layouts: seq<Layout>, alt: nat)
    requires alt < |layouts| && |token| == |layouts[alt]|
    requires DateTokenAt(token, 0, layouts[alt])
    requires forall a :: 0 <= a < alt ==> !DateTokenAt(LineText(token, desc, amount), 0, layouts[a])
    requires |token| > 0 && IsDigit(token[0])
    requires PlainDescription(desc) && AmountToken(amount)
    ensures var line := LineText(token, desc, amount);
      var r := FindStringSubmatch(line, layouts);
      && TrimSpace(line) == line
      && r.Some? && r.value.alt == alt
      && DateGroup(line, r.value) == token
      && TrimSpace(DescGroup(line, r.value)) == desc
      && AmountGroup(line, r.value) == amount
  {
    var line := LineText(token, desc, amount);
    assert "" + token == token;
    assert LineText("" + token, desc, amount) == line;
    PrintedMatch("", token, desc, amount, layouts, alt);
    PrintedTrimmed(token, desc, amount);
  }

  /** What the search finds in a printed `MM/DD desc amount` line, given
      that no earlier alternative fits at its start. */
  lemma PrintedMonthDay(month: nat, day: nat, desc: string, amount: string, layouts: seq<Layout>, alt: nat)
    requires month < 100 && day < 100 && PlainDescription(desc) && AmountToken(amount)
    requires alt < |layouts| && layouts[alt] == MonthDay
    requires forall a :: 0 <= a < alt ==>
      !DateTokenAt(LineText(MonthDayText(month, day), desc, amount), 0, layouts[a])
    ensures var line := LineText(MonthDayText(month, day), desc, amount);
      var r := FindStringSubmatch(line, layouts);
      && TrimSpace(line) == line
      && r.Some? && r.value.alt == alt
      && DateGroup(line, r.value) == MonthDayText(month, day)
      && TrimSpace(DescGroup(line, r.value)) == desc
      && AmountGroup(line, r.value) == amount
  {
    MonthDayTextShape(month, day);
    PrintedMatchAtStart(MonthDayText(month, day), desc, amount, layouts, alt);
  }

  /** What the search finds in a printed `YYYY/MM/DD` or `YYY/MM/DD` line. */
  lemma PrintedYearDate(year: nat, width: nat, month: nat, day: nat, desc: string, amount: string,
                        layouts: seq<Layout>, alt: nat)
    requires width == 3 || width == 4
    requires year < Pow10(width) && month < 100 && day < 100 && PlainDescription(desc) && AmountToken(amount)
    requires alt < |layouts| && layouts[alt] == (if width == 4 then YearMonthDay else RocYearMonthDay)
    requires forall a :: 0 <= a < alt ==>
      !DateTokenAt(LineText(YearDateText(year, width, month, day), desc, amount), 0, layouts[a])
    ensures var line := LineText(YearDateText(year, width, month, day), desc, amount);
      var r := FindStringSubmatch(line, layouts);
      && TrimSpace(line) == line
      && r.Some? && r.value.alt == alt
      && DateGroup(line, r.value) == YearDateText(year, width, month, day)
      && TrimSpace(DescGroup(line, r.value)) == desc
      && AmountGroup(line, r.value) == amount
  {
    YearDateTextShape(year, width, month, day);
    PrintedMatchAtStart(YearDateText(year, width, month, day), desc, amount, layouts, alt);
  }

  /** `PrintedMatch` for a line with one digit before its date, at which no
      date of any layout starts. */
  lemma PrintedMatchAfterOne(c: char, token: string, desc: string, amount: string, layouts: seq<Layout>, alt: nat)
    requires alt < |layouts| && |token| == |layouts[alt]|
    requires DateTokenAt(token, 0, layouts[alt])
    requires forall a :: 0 <= a < |layouts| ==> !DateTokenAt(LineText([c] + token, desc, amount), 0, layouts[a])
    requires forall a :: 0 <= a < alt ==> !DateTokenAt(LineText([c] + token, desc, amount), 1, layouts[a])
    requires IsDigit(c) && PlainDescription(desc) && AmountToken(amount)
    ensures var line := LineText([c] + token, desc, amount);
      var r := FindStringSubmatch(line, layouts);
      && TrimSpace(line) == line
      && r.Some? && r.value.alt == alt
      && DateGroup(line, r.value) == token
      && TrimSpace(DescGroup(line, r.value)) == desc
      && AmountGroup(line, r.value) == amount
  {
    PrintedMatch([c], token, desc, amount, layouts, alt);
    PrintedTrimmed([c] + token, desc, amount);
  }

  /** The groups of the match `PlainLine` describes. */
  lemma PlainMatchGroups(pre: string, token: string, desc: string, amount: string, m: Match)
    requires var h := |pre| + |token|;
      m.start == |pre| && m.dateEnd == h && m.descStart == h + 1 && m.descEnd == h + 1 + |desc|
      && m.amountStart == h + 2 + |desc| && m.amountEnd == h + 2 + |desc| + |amount|
    ensures var line := pre + token + " " + desc + " " + amount;
      && DateGroup(line, m) == token
      && DescGroup(line, m) == desc
      && AmountGroup(line, m) == amount
  {
    var line := pre + token + " " + desc + " " + amount;
    assert line[m.start..m.dateEnd] == token;
    assert line[m.descStart..m.descEnd] == desc;
    assert line[m.amountStart..m.amountEnd] == amount;
  }

  /** A printed line starting with a digit is already trimmed. */
  lemma PrintedTrimmed(date: string, desc: string, amount: string)
    requires |date| > 0 && IsDigit(date[0]) && AmountToken(amount)
    ensures TrimSpace(LineText(date, desc, amount)) == LineText(date, desc, amount)
  {
    var line := LineText(date, desc, amount);
    AmountTokenChars(amount);
    assert line[0] == date[0];
    assert line[|line| - 1] == amount[|amount| - 1];
    TrimSpaceOfTrimmed(line);
  }

  // ---------------------------------------------------------------------
  // From the groups to the transaction

  lemma CathayFromGroups(line: string, m: Match, month: nat, day: nat, desc: string, amount: string, clock: Clock)
    requires month < 100 && day < 100
    requires DateGroup(line, m) == MonthDayText(month, day)
    requires TrimSpace(DescGroup(line, m)) == desc && AmountGroup(line, m) == amount
    ensures CathayMatch(line, m, clock) == Expected(MakeDate(ImpliedYear(clock, month), month, day), desc, amount)
  {
    MonthDayFields(month, day);
  }

  lemma TaishinMonthDayFromGroups(line: string, m: Match, month: nat, day: nat, desc: string, amount: string, clock: Clock)
    requires month < 100 && day < 100
    requires DateGroup(line, m) == MonthDayText(month, day)
    requires TrimSpace(DescGroup(line, m)) == desc && AmountGroup(line, m) == amount
    requires CountChar(DateGroup(line, m), '/') == 1
    ensures TaishinMatch(line, m, clock) == Expected(MakeDate(ImpliedYear(clock, month), month, day), desc, amount)
  {
    MonthDayFields(month, day);
  }

  lemma FubonMonthDayFromGroups(line: string, m: Match, month: nat, day: nat, desc: string, amount: string, clock: Clock)
    requires month < 100 && day < 100
    requires DateGroup(line, m) == MonthDayText(month, day)
    requires TrimSpace(DescGroup(line, m)) == desc && AmountGroup(line, m) == amount
    requires CountChar(DateGroup(line, m), '/') == 1
    ensures FubonSimpleMatch(line, m, clock) == Expected(MakeDate(ImpliedYear(clock, month), month, day), desc, amount)
  {
    MonthDayFields(month, day);
  }

  lemma FullDateFromGroups(line: string, m: Match, year: nat, month: nat, day: nat, desc: string, amount: string, clock: Clock)
    requires year < 10000 && month < 100 && day < 100
    requires DateGroup(line, m) == YearDateText(year, 4, month, day)
    requires TrimSpace(DescGroup(line, m)) == desc && AmountGroup(line, m) == amount
    ensures CountChar(DateGroup(line, m), '/') == 2
    ensures TaishinMatch(line, m, clock) == Expected(MakeDate(year, month, day), desc, amount)
  {
    YearDateFields(year, 4, month, day);
  }

  /** The fields Fubon reads from a printed ROC date. */
  lemma RocFields(rocYear: nat, month: nat, day: nat)
    requires rocYear < 1000 && month < 100 && day < 100
    ensures var t := YearDateText(rocYear, 3, month, day); var parts := Split(t, '/');
      && CountChar(t, '/') == 2 && |parts| == 3
      && RocToGregorian(Atoi(parts[0])) == rocYear + 1911 && Atoi(parts[1]) == month && Atoi(parts[2]) == day
  {
    assert Pow10(3) == 1000;
    YearDateFields(rocYear, 3, month, day);
  }

  /** Once the groups are known, a match emits the expected transaction. */
  lemma EmitExpected(line: string, m: Match, date: Date, desc: string, amount: string)
    requires TrimSpace(DescGroup(line, m)) == desc && AmountGroup(line, m) == amount
    ensures Emit(line, m, date) == Expected(date, desc, amount)
  {
  }

  lemma RocFromGroups(line: string, m: Match, rocYear: nat, month: nat, day: nat, desc: string, amount: string)
    requires rocYear < 1000 && month < 100 && day < 100
    requires DateGroup(line, m) == YearDateText(rocYear, 3, month, day)
    requires TrimSpace(DescGroup(line, m)) == desc && AmountGroup(line, m) == amount
    ensures CountChar(DateGroup(line, m), '/') == 2
    ensures FubonRocMatch(line, m) == Expected(MakeDate(rocYear + 1911, month, day), desc, amount)
  {
    RocFields(rocYear, month, day);
    var parts := Split(DateGroup(line, m), '/');
    var date := MakeDate(rocYear + 1911, month, day);
    assert MakeDate(RocToGregorian(Atoi(parts[0])), Atoi(parts[1]), Atoi(parts[2])) == date;
    EmitExpected(line, m, date, desc, amount);
  }

  // ---------------------------------------------------------------------
  // From a found match to the parsed line

  lemma CathayReads(line: string, month: nat, day: nat, desc: string, amount: string, clock: Clock)
    requires TrimSpace(line) == line && FindStringSubmatch(line, CathayLayouts).Some?
    requires month < 100 && day < 100
    requires DateGroup(line, FindStringSubmatch(line, CathayLayouts).value) == MonthDayText(month, day)
    requires TrimSpace(DescGroup(line, FindStringSubmatch(line, CathayLayouts).value)) == desc
    requires AmountGroup(line, FindStringSubmatch(line, CathayLayouts).value) == amount
    ensures ParseLine(Cathay, line, clock) == Expected(MakeDate(ImpliedYear(clock, month), month, day), desc, amount)
  {
    CathayFromGroups(line, FindStringSubmatch(line, CathayLayouts).value, month, day, desc, amount, clock);
  }

  lemma TaishinFullDateReads(line: string, year: nat, month: nat, day: nat, desc: string, amount: string, clock: Clock)
    requires TrimSpace(line) == line && FindStringSubmatch(line, TaishinLayouts).Some?
    requires year < 10000 && month < 100 && day < 100
    requires DateGroup(line, FindStringSubmatch(line, TaishinLayouts).value) == YearDateText(year, 4, month, day)
    requires TrimSpace(DescGroup(line, FindStringSubmatch(line, TaishinLayouts).value)) == desc
    requires AmountGroup(line, FindStringSubmatch(line, TaishinLayouts).value) == amount
    ensures ParseLine(Taishin, line, clock) == Expected(MakeDate(year, month, day), desc, amount)
  {
    FullDateFromGroups(line, FindStringSubmatch(line, TaishinLayouts).value, year, month, day, desc, amount, clock);
  }

  lemma TaishinMonthDayReads(line: string, month: nat, day: nat, desc: string, amount: string, clock: Clock)
    requires TrimSpace(line) == line && FindStringSubmatch(line, TaishinLayouts).Some?
    requires month < 100 && day < 100
    requires DateGroup(line, FindStringSubmatch(line, TaishinLayouts).value) == MonthDayText(month, day)
    requires TrimSpace(DescGroup(line, FindStringSubmatch(line, TaishinLayouts).value)) == desc
    requires AmountGroup(line, FindStringSubmatch(line, TaishinLayouts).value) == amount
    ensures ParseLine(Taishin, line, clock) == Expected(MakeDate(ImpliedYear(clock, month), month, day), desc, amount)
  {
    MonthDayFields(month, day);
    TaishinMonthDayFromGroups(line, FindStringSubmatch(line, TaishinLayouts).value, month, day, desc, amount, clock);
  }

  lemma FubonRocReads(line: string, rocYear: nat, month: nat, day: nat, desc: string, amount: string, clock: Clock)
    requires TrimSpace(line) == line && FindStringSubmatch(line, FubonRocLayouts).Some?
    requires rocYear < 1000 && month < 100 && day < 100
    requires DateGroup(line, FindStringSubmatch(line, FubonRocLayouts).value) == YearDateText(rocYear, 3, month, day)
    requires TrimSpace(DescGroup(line, FindStringSubmatch(line, FubonRocLayouts).value)) == desc
    requires AmountGroup(line, FindStringSubmatch(line, FubonRocLayouts).value) == amount
    ensures ParseLine(Fubon, line, clock) == Expected(MakeDate(rocYear + 1911, month, day), desc, amount)
  {
    RocFromGroups(line, FindStringSubmatch(line, FubonRocLayouts).value, rocYear, month, day, desc, amount);
  }

  lemma FubonMonthDayReads(line: string, month: nat, day: nat, desc: string, amount: string, clock: Clock)
    requires TrimSpace(line) == line && FindStringSubmatch(line, FubonRocLayouts) == None
    requires FindStringSubmatch(line, FubonSimpleLayouts).Some?
    requires month < 100 && day < 100
    requires DateGroup(line, FindStringSubmatch(line, FubonSimpleLayouts).value) == MonthDayText(month, day)
    requires TrimSpace(DescGroup(line, FindStringSubmatch(line, FubonSimpleLayouts).value)) == desc
    requires AmountGroup(line, FindStringSubmatch(line, FubonSimpleLayouts).value) == amount
    ensures ParseLine(Fubon, line, clock) == Expected(MakeDate(ImpliedYear(clock, month), month, day), desc, amount)
  {
    MonthDayFields(month, day);
    FubonMonthDayFromGroups(line, FindStringSubmatch(line, FubonSimpleLayouts).value, month, day, desc, amount, clock);
  }
}
