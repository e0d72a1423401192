/** The three bank statement parsers. Each recognises its statements by
    keywords, splits the extracted text into lines, trims each line, looks
    for `date description amount` with its own date layouts, and turns every
    match whose amount parses into a TWD transaction; lines that do not match
    and amounts that do not parse are skipped, never reported. */
module BankParsers {
  import opened Wrappers
  import opened Text
  import opened Calendar
  import opened LinePattern
  import opened Statement

  datatype Bank = Cathay | Taishin | Fubon

  /** `BankName`: the name a result is labelled with, which is also the
      first keyword `CanParse` looks for. */
  function BankName(b: Bank): (r: string)
    ensures r == Keywords(b)[0]
    ensures CanParse(b, r)
  {
    CanParseKeyword(b, "", 0, "");
    assert "" + Keywords(b)[0] + "" == Keywords(b)[0];
    match b
    case Cathay => "國泰世華"
    case Taishin => "台新銀行"
    case Fubon => "富邦銀行"
  }

  function Keywords(b: Bank): seq<string> {
    match b
    case Cathay => ["國泰世華", "CATHAY", "國泰銀行"]
    case Taishin => ["台新銀行", "台新國際商業銀行", "TAISHIN", "TSB"]
    case Fubon => ["富邦銀行", "台北富邦", "FUBON", "富邦金控"]
  }

  /** Whether some keyword occurs in the text, checked keyword by keyword. */
  function AnyContained(content: string, keys: seq<string>): (r: bool)
    ensures r <==> exists k :: 0 <= k < |keys| && Contains(content, keys[k])
  {
    if |keys| == 0 then false
    else Contains(content, keys[0]) || AnyContained(content, keys[1..])
  }

  /** `CanParse`: the text mentions one of the bank's keywords. */
  predicate CanParse(b: Bank, content: string) {
    AnyContained(content, Keywords(b))
  }

  /** A statement that names the bank anywhere is accepted, and a text
      shorter than every keyword is not. */
  lemma CanParseKeyword(b: Bank, before: string, k: nat, after: string)
    requires k < |Keywords(b)|
    ensures CanParse(b, before + Keywords(b)[k] + after)
  {
    ContainsInfix(before, Keywords(b)[k], after);
  }

  lemma CannotParseEmpty(b: Bank)
    ensures !CanParse(b, "")
  {
    forall k | 0 <= k < |Keywords(b)|
      ensures !Contains("", Keywords(b)[k])
    {
      NotContainsInShorter("", Keywords(b)[k]);
    }
  }

  // ---------------------------------------------------------------------
  // One line

  const CathayLayouts: seq<Layout> := [MonthDay]
  const TaishinLayouts: seq<Layout> := [YearMonthDay, MonthDay]
  const FubonRocLayouts: seq<Layout> := [RocYearMonthDay]
  const FubonSimpleLayouts: seq<Layout> := [MonthDay]

  /** Cathay: `MM/DD` dates only, in the implied year. */
  function CathayLine(line: string, clock: Clock): (r: Option<Transaction>)
    ensures r.Some? ==> WellFormed(r.value)
  {
    match FindStringSubmatch(line, CathayLayouts)
    case None => None
    case Some(m) => CathayMatch(line, m, clock)
  }

  /** The transaction of a Cathay match. The two-field check on the date
      token always passes for a match, so only an unreadable amount drops it. */
  function CathayMatch(line: string, m: Match, clock: Clock): (r: Option<Transaction>)
    ensures r.Some? ==> WellFormed(r.value)
  {
    var parts := Split(DateGroup(line, m), '/');
    if |parts| != 2 then None
    else
      var date := MonthDayDate(clock, parts[0], parts[1]);
      EmitWellFormed(line, m, date);
      Emit(line, m, date)
  }

  /** Taishin: `YYYY/MM/DD` or `MM/DD`. */
  function TaishinLine(line: string, clock: Clock): (r: Option<Transaction>)
    ensures r.Some? ==> WellFormed(r.value)
  {
    match FindStringSubmatch(line, TaishinLayouts)
    case None => None
    case Some(m) =>
      TokenSlashes(line, TaishinLayouts);
      LayoutSlashes();
      TaishinMatch(line, m, clock)
  }

  /** The transaction of a Taishin match, told apart by the number of
      slashes in the token: a full date is taken as written, a month and day
      get the implied year. */
  function TaishinMatch(line: string, m: Match, clock: Clock): (r: Option<Transaction>)
    requires CountChar(DateGroup(line, m), '/') in {1, 2}
    ensures r.Some? ==> WellFormed(r.value)
  {
    var token := DateGroup(line, m);
    var parts := Split(token, '/');
    var date :=
      if CountChar(token, '/') == 2 then MakeDate(Atoi(parts[0]), Atoi(parts[1]), Atoi(parts[2]))
      else MonthDayDate(clock, parts[0], parts[1]);
    EmitWellFormed(line, m, date);
    Emit(line, m, date)
  }

  /** Fubon: an ROC date `YYY/MM/DD` first; only a line without one is tried
      as `MM/DD`. A line whose ROC match has an unreadable amount is skipped
      without the second try. */
  function FubonLine(line: string, clock: Clock): (r: Option<Transaction>)
    ensures r.Some? ==> WellFormed(r.value)
  {
    match FindStringSubmatch(line, FubonRocLayouts)
    case Some(m) =>
      TokenSlashes(line, FubonRocLayouts);
      LayoutSlashes();
      FubonRocMatch(line, m)
    case None =>
      match FindStringSubmatch(line, FubonSimpleLayouts)
      case None => None
      case Some(m) =>
        TokenSlashes(line, FubonSimpleLayouts);
        LayoutSlashes();
        FubonSimpleMatch(line, m, clock)
  }

  /** The transaction of an ROC-dated Fubon match: the year plus 1911. */
  function FubonRocMatch(line: string, m: Match): (r: Option<Transaction>)
    requires CountChar(DateGroup(line, m), '/') == 2
    ensures r.Some? ==> WellFormed(r.value)
  {
    var parts := Split(DateGroup(line, m), '/');
    var date := MakeDate(RocToGregorian(Atoi(parts[0])), Atoi(parts[1]), Atoi(parts[2]));
    EmitWellFormed(line, m, date);
    Emit(line, m, date)
  }

  function FubonSimpleMatch(line: string, m: Match, clock: Clock): (r: Option<Transaction>)
    requires CountChar(DateGroup(line, m), '/') == 1
    ensures r.Some? ==> WellFormed(r.value)
  {
    var parts := Split(DateGroup(line, m), '/');
    var date := MonthDayDate(clock, parts[0], parts[1]);
    EmitWellFormed(line, m, date);
    Emit(line, m, date)
  }

  /** One raw line of a statement, trimmed first. */
  function ParseLine(b: Bank, raw: string, clock: Clock): (r: Option<Transaction>)
    ensures r.Some? ==> WellFormed(r.value)
  {
    var line := TrimSpace(raw);
    match b
    case Cathay => CathayLine(line, clock)
    case Taishin => TaishinLine(line, clock)
    case Fubon => FubonLine(line, clock)
  }

  // ---------------------------------------------------------------------
  // A whole statement

  /** The transactions of the lines, in line order. */
  function ParseLines(b: Bank, lines: seq<string>, clock: Clock): (r: seq<Transaction>)
    ensures |r| <= |lines|
    ensures forall k :: 0 <= k < |r| ==> WellFormed(r[k])
  {
    if |lines| == 0 then []
    else
      Keep(ParseLine(b, lines[0], clock), ParseLines(b, lines[1..], clock))
  }

  /** A line's transaction, if it has one, ahead of the later lines' ones. */
  function Keep(first: Option<Transaction>, rest: seq<Transaction>): (r: seq<Transaction>)
    requires first.Some? ==> WellFormed(first.value)
    requires forall k :: 0 <= k < |rest| ==> WellFormed(rest[k])
    ensures |r| <= |rest| + 1
    ensures forall k :: 0 <= k < |r| ==> WellFormed(r[k])
  {
    if first.None? then rest else [first.value] + rest
  }

  lemma KeepAppend(first: Option<Transaction>, rest: seq<Transaction>, more: seq<Transaction>)
    requires first.Some? ==> WellFormed(first.value)
    requires forall k :: 0 <= k < |rest| ==> WellFormed(rest[k])
    requires forall k :: 0 <= k < |more| ==> WellFormed(more[k])
    ensures Keep(first, rest) + more == Keep(first, rest + more)
  {
    if first.Some? {
      assert [first.value] + rest + more == [first.value] + (rest + more);
    }
  }

  /** `Parse`: the transactions of the text's lines. It never fails. */
  function Parse(b: Bank, content: string, clock: Clock): (r: seq<Transaction>)
    ensures |r| <= CountChar(content, '\n') + 1
    ensures forall k :: 0 <= k < |r| ==> WellFormed(r[k])
  {
    ParseLines(b, Split(content, '\n'), clock)
  }

  /** Line by line: the transactions of consecutive lines are the
      transactions of each part, concatenated. */
  lemma {:induction false} ParseLinesAppend(b: Bank, xs: seq<string>, ys: seq<string>, clock: Clock)
    ensures ParseLines(b, xs + ys, clock) == ParseLines(b, xs, clock) + ParseLines(b, ys, clock)
    decreases |xs|
  {
    if |xs| > 0 {
      assert (xs + ys)[0] == xs[0];
      assert (xs + ys)[1..] == xs[1..] + ys;
      ParseLinesAppend(b, xs[1..], ys, clock);
      KeepAppend(ParseLine(b, xs[0], clock), ParseLines(b, xs[1..], clock), ParseLines(b, ys, clock));
    } else {
      assert xs + ys == ys;
    }
  }

  /** Two texts joined by a line break parse to the two results in order. */
  lemma ParseConcat(b: Bank, a: string, c: string, clock: Clock)
    ensures Parse(b, a + "\n" + c, clock) == Parse(b, a, clock) + Parse(b, c, clock)
  {
    SplitAppend(a, '\n', c);
    assert a + "\n" + c == a + ['\n'] + c;
    ParseLinesAppend(b, Split(a, '\n'), Split(c, '\n'), clock);
  }

  lemma ParseSingleLine(b: Bank, line: string, clock: Clock)
    requires '\n' !in line
    ensures Parse(b, line, clock) == match ParseLine(b, line, clock) case None => [] case Some(t) => [t]
  {
    SplitNoSeparator(line, '\n');
  }

  /** A line without a `/` holds no date and yields nothing. */
  lemma NoSlashNoTransaction(b: Bank, raw: string, clock: Clock)
    requires '/' !in raw
    ensures ParseLine(b, raw, clock) == None
  {
    var line := TrimSpace(raw);
    TrimSpaceChars(raw, '/');
    match b
    case Cathay => CathayNoSlash(line, clock);
    case Taishin => TaishinNoSlash(line, clock);
    case Fubon => FubonNoSlash(line, clock);
  }

  lemma CathayNoSlash(line: string, clock: Clock)
    requires '/' !in line
    ensures CathayLine(line, clock) == None
  {
    NoSlashNoMatch(line, CathayLayouts);
  }

  lemma TaishinNoSlash(line: string, clock: Clock)
    requires '/' !in line
    ensures TaishinLine(line, clock) == None
  {
    NoSlashNoMatch(line, TaishinLayouts);
  }

  lemma FubonNoSlash(line: string, clock: Clock)
    requires '/' !in line
    ensures FubonLine(line, clock) == None
  {
    NoSlashNoMatch(line, FubonRocLayouts);
    NoSlashNoMatch(line, FubonSimpleLayouts);
  }

  /** An empty text has no transactions. */
  lemma ParseEmpty(b: Bank, clock: Clock)
    ensures Parse(b, "", clock) == []
  {
    NoSlashNoTransaction(b, "", clock);
  }

  /** Lines without dates contribute nothing. */
  lemma {:induction false} ParseLinesNoDates(b: Bank, lines: seq<string>, clock: Clock)
    requires forall k :: 0 <= k < |lines| ==> '/' !in lines[k]
    ensures ParseLines(b, lines, clock) == []
    decreases |lines|
  {
    if |lines| > 0 {
      NoSlashNoTransaction(b, lines[0], clock);
      ParseLinesNoDates(b, lines[1..], clock);
    }
  }
}
