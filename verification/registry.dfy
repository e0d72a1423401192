/** The parser registry of the PDF package: file-name rules that supply
    passwords, the password-attempt loop around text extraction, and the
    choice of the first registered bank parser that recognises the text.

    Text extraction itself (opening the file and decoding the PDF) is an
    oracle: `extract(password)` is the text of the document at the path in
    question when that password opens it, and `None` when the attempt
    fails. */
module Registry {
  import opened Wrappers
  import opened Text
  import opened Glob
  import opened Statement
  import opened BankParsers

  /** One entry of the file-name rule list: a glob over file names, the
      bank it names, and the password to try for matching files. */
  datatype FileNameRule = FileNameRule(nameRule: string, bank: string, password: string)

  /** The registered parsers in registration order, and the loaded rules. */
  datatype ParserRegistry = ParserRegistry(parsers: seq<Bank>, rules: seq<FileNameRule>)

  function NewParserRegistry(): ParserRegistry {
    ParserRegistry([], [])
  }

  /** `RegisterParser` appends: registration order is priority order. */
  function RegisterParser(reg: ParserRegistry, b: Bank): ParserRegistry {
    reg.(parsers := reg.parsers + [b])
  }

  // ---------------------------------------------------------------------
  // Passwords from file names

  /** The passwords of the rules whose pattern matches the file name, in
      rule order, repeats kept. */
  function PasswordsFor(rules: seq<FileNameRule>, filename: string): (r: seq<string>)
    ensures |r| <= |rules|
  {
    if |rules| == 0 then []
    else RulePassword(rules[0], filename) + PasswordsFor(rules[1..], filename)
  }

  /** What one rule contributes: its password when its pattern, turned into
      a regular expression, matches the file name. */
  function RulePassword(rule: FileNameRule, filename: string): (r: seq<string>)
    ensures |r| <= 1
  {
    if RuleMatches(rule.nameRule, filename) then [rule.password] else []
  }

  function GetPasswordsForFile(reg: ParserRegistry, filename: string): seq<string> {
    PasswordsFor(reg.rules, filename)
  }

  /** The passwords of a rule list are those of its parts, in order. */
  lemma {:induction false} PasswordsForAppend(a: seq<FileNameRule>, b: seq<FileNameRule>, filename: string)
    ensures PasswordsFor(a + b, filename) == PasswordsFor(a, filename) + PasswordsFor(b, filename)
    decreases |a|
  {
    if |a| == 0 {
      assert a + b == b;
    } else {
      assert (a + b)[0] == a[0];
      assert (a + b)[1..] == a[1..] + b;
      PasswordsForAppend(a[1..], b, filename);
      ConcatAssoc(RulePassword(a[0], filename), PasswordsFor(a[1..], filename), PasswordsFor(b, filename));
    }
  }

  /** A single rule contributes its password exactly when its glob matches
      the whole file name. With `PasswordsForAppend` this determines the
      password list of every rule list. */
  lemma PasswordsForOne(rule: FileNameRule, filename: string)
    ensures PasswordsFor([rule], filename) == if GlobMatches(rule.nameRule, filename) then [rule.password] else []
  {
    GlobRegexMeaning(rule.nameRule, filename);
    assert [rule][1..] == [];
  }

  /** No password comes back exactly when no rule matches. */
  lemma {:induction false} PasswordsForEmpty(rules: seq<FileNameRule>, filename: string)
    ensures PasswordsFor(rules, filename) == [] <==>
      forall k :: 0 <= k < |rules| ==> !GlobMatches(rules[k].nameRule, filename)
    decreases |rules|
  {
    if |rules| > 0 {
      GlobRegexMeaning(rules[0].nameRule, filename);
      PasswordsForEmpty(rules[1..], filename);
      assert forall k :: 1 <= k < |rules| ==> rules[k] == rules[1..][k - 1];
    }
  }

  /** A file name that starts with the literal `lit` and has no newline
      after it: what the rule `lit*` accepts. */
  predicate HasPrefix(lit: string, name: string) {
    |lit| <= |name| && name[..|lit|] == lit && NoNewline(name[|lit|..])
  }

  /** Two prefix rules contribute their passwords in rule order, each when
      the name starts with its literal. */
  lemma TwoPrefixRules(r0: FileNameRule, r1: FileNameRule, lit0: string, lit1: string, name: string)
    requires PrefixRule(r0, lit0) && PrefixRule(r1, lit1)
    ensures PasswordsFor([r0, r1], name) ==
      (if HasPrefix(lit0, name) then [r0.password] else []) + (if HasPrefix(lit1, name) then [r1.password] else [])
  {
    assert [r0, r1] == [r0] + [r1];
    PasswordsForAppend([r0], [r1], name);
    PasswordsForOne(r0, name);
    PasswordsForOne(r1, name);
    PrefixGlob(lit0, name);
    PrefixGlob(lit1, name);
  }

  /** The source's example: a Cathay and a Taishin statement rule. */
  const CathayRule: FileNameRule := FileNameRule(CathayPrefix + "*", "國泰", "password1")
  const TaishinRule: FileNameRule := FileNameRule(TaishinPrefix + "*", "台新", "password2")

  const CathayPrefix: string := "信用卡電子帳單消費明細"
  const TaishinPrefix: string := "TSB_Creditcard_Estatement"

  /** The rule `lit*` with a wildcard-free literal. */
  predicate PrefixRule(r: FileNameRule, lit: string) {
    '*' !in lit && '?' !in lit && r.nameRule == lit + "*"
  }

  lemma ExampleRulesArePrefixRules()
    ensures PrefixRule(CathayRule, CathayPrefix) && PrefixRule(TaishinRule, TaishinPrefix)
    ensures |CathayPrefix| > 0 && |TaishinPrefix| > 0 && CathayPrefix[0] != TaishinPrefix[0]
  {
  }

  /** A name made of the first rule's literal and a newline-free rest, not
      starting like the second literal, gets the first password only. */
  lemma FirstRuleOnly(r0: FileNameRule, r1: FileNameRule, lit0: string, lit1: string, rest: string)
    requires PrefixRule(r0, lit0) && PrefixRule(r1, lit1) && '\n' !in rest
    requires |lit0| > 0 && |lit1| > 0 && lit0[0] != lit1[0]
    ensures PasswordsFor([r0, r1], lit0 + rest) == [r0.password]
  {
    var name := lit0 + rest;
    TwoPrefixRules(r0, r1, lit0, lit1, name);
    assert name[..|lit0|] == lit0 && name[|lit0|..] == rest;
    assert name[0] == lit0[0];
  }

  /** The same with the literal of the second rule. */
  lemma SecondRuleOnly(r0: FileNameRule, r1: FileNameRule, lit0: string, lit1: string, rest: string)
    requires PrefixRule(r0, lit0) && PrefixRule(r1, lit1) && '\n' !in rest
    requires |lit0| > 0 && |lit1| > 0 && lit0[0] != lit1[0]
    ensures PasswordsFor([r0, r1], lit1 + rest) == [r1.password]
  {
    var name := lit1 + rest;
    TwoPrefixRules(r0, r1, lit0, lit1, name);
    assert name[..|lit1|] == lit1 && name[|lit1|..] == rest;
    assert name[0] == lit1[0];
  }

  /** A name that starts with neither literal's first character gets none. */
  lemma NoRule(r0: FileNameRule, r1: FileNameRule, lit0: string, lit1: string, name: string)
    requires PrefixRule(r0, lit0) && PrefixRule(r1, lit1)
    requires |lit0| > 0 && |lit1| > 0 && |name| > 0 && name[0] != lit0[0] && name[0] != lit1[0]
    ensures PasswordsFor([r0, r1], name) == []
  {
    TwoPrefixRules(r0, r1, lit0, lit1, name);
  }

  lemma CathayFilePasswords()
    ensures PasswordsFor([CathayRule, TaishinRule], CathayPrefix + "_11412.pdf") == ["password1"]
  {
    ExampleRulesArePrefixRules();
    FirstRuleOnly(CathayRule, TaishinRule, CathayPrefix, TaishinPrefix, "_11412.pdf");
  }

  lemma TaishinFilePasswords()
    ensures PasswordsFor([CathayRule, TaishinRule], TaishinPrefix + "_202512.pdf") == ["password2"]
  {
    ExampleRulesArePrefixRules();
    SecondRuleOnly(CathayRule, TaishinRule, CathayPrefix, TaishinPrefix, "_202512.pdf");
  }

  lemma UnknownFilePasswords()
    ensures PasswordsFor([CathayRule, TaishinRule], "unknown_file.pdf") == []
  {
    ExampleRulesArePrefixRules();
    NoRule(CathayRule, TaishinRule, CathayPrefix, TaishinPrefix, "unknown_file.pdf");
  }

  // ---------------------------------------------------------------------
  // The attempt loop

  const AllPasswordsFailed: string := "all passwords failed or PDF is corrupted"

  /** The passwords `ExtractText` tries, in order: none, then each candidate. */
  function Attempts(passwords: seq<string>): seq<string> {
    [""] + passwords
  }

  /** The index of the first element of `xs` that satisfies `p`. */
  function FirstIndex<T>(xs: seq<T>, p: T -> bool): (r: Option<nat>)
    ensures r.Some? ==> r.value < |xs| && p(xs[r.value])
    ensures r.Some? ==> forall j :: 0 <= j < r.value ==> !p(xs[j])
    ensures r.None? <==> forall j :: 0 <= j < |xs| ==> !p(xs[j])
  {
    if |xs| == 0 then None
    else if p(xs[0]) then Some(0)
    else
      match FirstIndex(xs[1..], p)
      case None =>
        assert forall j :: 1 <= j < |xs| ==> xs[j] == xs[1..][j - 1];
        None
      case Some(k) =>
        assert forall j :: 1 <= j < k + 1 ==> xs[j] == xs[1..][j - 1];
        Some(k + 1)
  }

  /** Appending elements does not move a first index already found. */
  lemma {:induction false} FirstIndexPrefix<T>(xs: seq<T>, more: seq<T>, p: T -> bool)
    requires FirstIndex(xs, p).Some?
    ensures FirstIndex(xs + more, p) == FirstIndex(xs, p)
    decreases |xs|
  {
    assert (xs + more)[0] == xs[0];
    if !p(xs[0]) {
      assert (xs + more)[1..] == xs[1..] + more;
      FirstIndexPrefix(xs[1..], more, p);
    }
  }

  /** The index of the first attempt that opens the document. */
  function FirstOpening(extract: string -> Option<string>, attempts: seq<string>): (r: Option<nat>)
    ensures r.Some? ==> r.value < |attempts| && extract(attempts[r.value]).Some?
    ensures r.Some? ==> forall j :: 0 <= j < r.value ==> extract(attempts[j]).None?
    ensures r.None? <==> forall j :: 0 <= j < |attempts| ==> extract(attempts[j]).None?
  {
    FirstIndex(attempts, a => extract(a).Some?)
  }

  /** `ExtractText`: the text of the first attempt that opens the document,
      or the one error when none does. */
  function ExtractText(extract: string -> Option<string>, passwords: seq<string>): (r: Result<string>)
    ensures r.Err? <==> extract("").None? && forall j :: 0 <= j < |passwords| ==> extract(passwords[j]).None?
    ensures r.Err? ==> r.msg == AllPasswordsFailed
    ensures extract("").Some? ==> r == Ok(extract("").value)
    ensures r.Ok? ==> exists k :: 0 <= k < |passwords| + 1 && FirstOpening(extract, Attempts(passwords)) == Some(k)
                                 && r.value == extract(Attempts(passwords)[k]).value
  {
    var attempts := Attempts(passwords);
    assert forall j :: 0 <= j < |passwords| ==> passwords[j] == attempts[j + 1];
    match FirstOpening(extract, attempts)
    case None => Err(AllPasswordsFailed)
    case Some(k) => Ok(extract(attempts[k]).value)
  }

  /** Once an attempt succeeds the later candidates play no part: more of
      them change nothing. */
  lemma ExtractTextStops(extract: string -> Option<string>, passwords: seq<string>, more: seq<string>)
    requires ExtractText(extract, passwords).Ok?
    ensures ExtractText(extract, passwords + more) == ExtractText(extract, passwords)
  {
    var a := Attempts(passwords);
    assert Attempts(passwords + more) == a + more;
    ExtractTextFirst(extract, passwords);
    ExtractTextFirst(extract, passwords + more);
    FirstOpeningPrefix(extract, a, more);
    var k := FirstOpening(extract, a).value;
    assert (a + more)[k] == a[k];
  }

  lemma ExtractTextFirst(extract: string -> Option<string>, passwords: seq<string>)
    ensures var a := Attempts(passwords);
      ExtractText(extract, passwords) ==
        match FirstOpening(extract, a) case None => Err(AllPasswordsFailed) case Some(k) => Ok(extract(a[k]).value)
  {
  }

  lemma FirstOpeningPrefix(extract: string -> Option<string>, attempts: seq<string>, more: seq<string>)
    requires FirstOpening(extract, attempts).Some?
    ensures FirstOpening(extract, attempts + more) == FirstOpening(extract, attempts)
  {
    FirstIndexPrefix(attempts, more, a => extract(a).Some?);
  }

  // ---------------------------------------------------------------------
  // Choosing the parser

  const NoSuitableParser: string := "no suitable parser found for this PDF"

  /** The position of the first registered parser that recognises the text. */
  function SelectParser(parsers: seq<Bank>, content: string): (r: Option<nat>)
    ensures r.Some? ==> r.value < |parsers| && CanParse(parsers[r.value], content)
    ensures r.Some? ==> forall j :: 0 <= j < r.value ==> !CanParse(parsers[j], content)
    ensures r.None? <==> forall j :: 0 <= j < |parsers| ==> !CanParse(parsers[j], content)
  {
    FirstIndex(parsers, b => CanParse(b, content))
  }

  /** What a successful `Parse` returns: the transactions and the name of
      the bank whose parser produced them. */
  datatype Parsed = Parsed(transactions: seq<Transaction>, bank: string)

  /** `Parse`: extract the text, then hand it to the first parser that
      recognises it. The bank parsers never fail, so the source's
      "parser error" branch cannot be taken and has no counterpart here. */
  function Parse(reg: ParserRegistry, extract: string -> Option<string>, passwords: seq<string>, clock: Clock): (r: Result<Parsed>)
    ensures ExtractText(extract, passwords).Err? ==> r == Err(AllPasswordsFailed)
    ensures r == Err(NoSuitableParser) <==>
      && ExtractText(extract, passwords).Ok?
      && forall j :: 0 <= j < |reg.parsers| ==> !CanParse(reg.parsers[j], ExtractText(extract, passwords).value)
    ensures r.Err? ==> r.msg == AllPasswordsFailed || r.msg == NoSuitableParser
    ensures r.Ok? ==>
      var content := ExtractText(extract, passwords).value;
      exists k :: 0 <= k < |reg.parsers| && SelectParser(reg.parsers, content) == Some(k)
        && r.value == Parsed(BankParsers.Parse(reg.parsers[k], content, clock), BankName(reg.parsers[k]))
  {
    match ExtractText(extract, passwords)
    case Err(e) => Err(e)
    case Ok(content) =>
      match SelectParser(reg.parsers, content)
      case None => Err(NoSuitableParser)
      case Some(k) => Ok(Parsed(BankParsers.Parse(reg.parsers[k], content, clock), BankName(reg.parsers[k])))
  }

  /** A parser registered later never takes text an earlier one accepts. */
  lemma RegisterKeepsEarlier(parsers: seq<Bank>, b: Bank, content: string)
    requires SelectParser(parsers, content).Some?
    ensures SelectParser(parsers + [b], content) == SelectParser(parsers, content)
  {
    FirstIndexPrefix(parsers, [b], b => CanParse(b, content));
  }

  // ---------------------------------------------------------------------
  // File names

  /** `getFilename`: the part of the path after its last `/`, the whole
      path when it has none. (`strings.Split` never returns an empty list,
      so the source's fallback to the whole path is never taken.) */
  function GetFilename(path: string): (r: string)
    ensures '/' !in r
    ensures |r| <= |path| && path[|path| - |r|..] == r
    ensures |r| < |path| ==> path[|path| - |r| - 1] == '/'
  {
    var parts := Split(path, '/');
    SplitLast(path, '/');
    parts[|parts| - 1]
  }

  /** The three properties above pin the file name down: it is the longest
      slash-free suffix. */
  lemma GetFilenameJoin(dir: string, name: string)
    requires '/' !in name
    ensures GetFilename(dir + "/" + name) == name
  {
    var path := dir + "/" + name;
    assert path[|path| - |name| - 1] == '/';
    assert path[|path| - |name|..] == name;
  }

  lemma GetFilenameNoSlash(path: string)
    requires '/' !in path
    ensures GetFilename(path) == path
  {
  }

  /** The file names of the source's examples. */
  lemma GetFilenameOfPath()
    ensures GetFilename("/path/to/file.pdf") == "file.pdf"
    ensures GetFilename("/a/b/c/d/test.pdf") == "test.pdf"
  {
    var p := "/path/to" + "/" + "file.pdf";
    assert p == "/path/to/file.pdf";
    GetFilenameJoin("/path/to", "file.pdf");
    var q := "/a/b/c/d" + "/" + "test.pdf";
    assert q == "/a/b/c/d/test.pdf";
    GetFilenameJoin("/a/b/c/d", "test.pdf");
  }

  lemma GetFilenameOfName()
    ensures GetFilename("file.pdf") == "file.pdf"
    ensures GetFilename("") == ""
  {
    GetFilenameNoSlash("file.pdf");
    GetFilenameNoSlash("");
  }

  /** `ParseWithAutoPassword`: the passwords come from the rules matching
      the file name of the path. */
  function ParseWithAutoPassword(reg: ParserRegistry, extract: string -> Option<string>, pdfPath: string, clock: Clock): Result<Parsed> {
    Parse(reg, extract, GetPasswordsForFile(reg, GetFilename(pdfPath)), clock)
  }

  /** A rule whose pattern matches the file name and whose password opens
      the document is enough for the extraction to succeed. */
  lemma AutoPasswordOpens(reg: ParserRegistry, extract: string -> Option<string>, dir: string, name: string,
                          k: nat, clock: Clock)
    requires '/' !in name
    requires k < |reg.rules| && GlobMatches(reg.rules[k].nameRule, name)
    requires extract(reg.rules[k].password).Some?
    ensures ParseWithAutoPassword(reg, extract, dir + "/" + name, clock) != Err(AllPasswordsFailed)
  {
    GetFilenameJoin(dir, name);
    var rules := reg.rules;
    assert rules == rules[..k] + [rules[k]] + rules[k + 1..];
    PasswordsForAppend(rules[..k] + [rules[k]], rules[k + 1..], name);
    PasswordsForAppend(rules[..k], [rules[k]], name);
    PasswordsForOne(rules[k], name);
    var pw := PasswordsFor(rules, name);
    var i := |PasswordsFor(rules[..k], name)|;
    assert pw[i] == rules[k].password;
  }
}
