/** The registry the upload service uses: the three bank parsers registered
    in the order Cathay, Taishin, Fubon, and no file-name rules. */
module BankRegistry {
  import opened Wrappers
  import opened Text
  import opened Glob
  import opened Statement
  import opened BankParsers
  import opened Registry

  /** `RegisterAllParsers`: the three parsers, appended in priority order. */
  function RegisterAllParsers(reg: ParserRegistry): (r: ParserRegistry)
    ensures r.parsers == reg.parsers + [Cathay, Taishin, Fubon] && r.rules == reg.rules
  {
    RegisterParser(RegisterParser(RegisterParser(reg, Cathay), Taishin), Fubon)
  }

  /** The registry the upload service builds; having no rules, it gives
      no password for any file name. */
  function NewRegistryWithAllParsers(): (r: ParserRegistry)
    ensures r.parsers == [Cathay, Taishin, Fubon]
    ensures forall filename :: GetPasswordsForFile(r, filename) == []
  {
    RegisterAllParsers(NewParserRegistry())
  }

  /** Which bank a text is attributed to: the first of Cathay, Taishin and
      Fubon whose markers it contains, and the "no suitable parser" error
      when it contains none of the ten markers. */
  lemma AllParsersChoose(extract: string -> Option<string>, passwords: seq<string>, content: string, clock: Clock)
    requires ExtractText(extract, passwords) == Ok(content)
    ensures var r := Registry.Parse(NewRegistryWithAllParsers(), extract, passwords, clock);
      && (CanParse(Cathay, content) ==>
            r == Ok(Parsed(BankParsers.Parse(Cathay, content, clock), BankName(Cathay))))
      && (!CanParse(Cathay, content) && CanParse(Taishin, content) ==>
            r == Ok(Parsed(BankParsers.Parse(Taishin, content, clock), BankName(Taishin))))
      && (!CanParse(Cathay, content) && !CanParse(Taishin, content) && CanParse(Fubon, content) ==>
            r == Ok(Parsed(BankParsers.Parse(Fubon, content, clock), BankName(Fubon))))
      && (!CanParse(Cathay, content) && !CanParse(Taishin, content) && !CanParse(Fubon, content) ==>
            r == Err(NoSuitableParser))
  {
    var parsers := NewRegistryWithAllParsers().parsers;
    var k := SelectParser(parsers, content);
    assert parsers[0] == Cathay && parsers[1] == Taishin && parsers[2] == Fubon;
    if k.Some? {
      assert k.value == 0 || k.value == 1 || k.value == 2;
    }
  }

  /** A text naming both Cathay and Taishin is read as a Cathay statement. */
  lemma CathayBeforeTaishin(extract: string -> Option<string>, passwords: seq<string>,
                            a: string, b: string, c: string, clock: Clock)
    requires ExtractText(extract, passwords) == Ok(a + "國泰銀行" + b + "TSB" + c)
    ensures Registry.Parse(NewRegistryWithAllParsers(), extract, passwords, clock).Ok?
    ensures Registry.Parse(NewRegistryWithAllParsers(), extract, passwords, clock).value.bank == "國泰世華"
  {
    var content := a + "國泰銀行" + b + "TSB" + c;
    assert content == a + Keywords(Cathay)[2] + (b + "TSB" + c);
    CanParseKeyword(Cathay, a, 2, b + "TSB" + c);
    AllParsersChoose(extract, passwords, content, clock);
  }

  /** With no markers at all the upload gets the "no suitable parser" error. */
  lemma NoMarkerNoParser(extract: string -> Option<string>, passwords: seq<string>, content: string, clock: Clock)
    requires ExtractText(extract, passwords) == Ok(content)
    requires forall b: Bank, k :: 0 <= k < |Keywords(b)| ==> !Contains(content, Keywords(b)[k])
    ensures Registry.Parse(NewRegistryWithAllParsers(), extract, passwords, clock) == Err(NoSuitableParser)
  {
    AllParsersChoose(extract, passwords, content, clock);
  }
}
