/** The upload service: parsing an uploaded statement with the user's stored
    passwords and the file-name rules, flagging rows already in the ledger,
    and importing the rest.

    The password service's answer, the PDF text extractor, the category
    lookup and the database's verdict on each insert are parameters. */
module UploadService {
  import opened Wrappers
  import opened Calendar
  import opened Statement
  import opened BankParsers
  import opened Registry
  import opened BankRegistry
  import opened TransactionService

  /** A parsed row as shown to the user, with its duplicate flag. */
  datatype ParsedTransaction = ParsedTransaction(date: Date, description: string, amount: nat, currency: string,
                                                 category: string, cardLast4: string, isDuplicate: bool)

  /** The outcome of parsing one file; `error` is empty on success. */
  datatype UploadResult = UploadResult(filename: string, bank: string, transactions: seq<ParsedTransaction>,
                                       totalAmount: nat, error: string)

  /** The ledger after an import, how many rows it added, and its error. */
  datatype Imported = Imported(ledger: Ledger, count: nat, error: Option<string>)

  const PdfImportSource: string := "pdf_import"
  const PasswordsFailedPrefix: string := "failed to get passwords: "
  const ImportFailedPrefix: string := "failed to import transaction: "

  // ---------------------------------------------------------------------
  // File names

  /** `path` without its trailing slashes. */
  function TrimTrailingSlashes(path: string): (r: string)
    ensures |r| <= |path| && path[..|r|] == r
    ensures r == "" || r[|r| - 1] != '/'
    ensures forall k :: |r| <= k < |path| ==> path[k] == '/'
  {
    if |path| == 0 || path[|path| - 1] != '/' then path else TrimTrailingSlashes(path[..|path| - 1])
  }

  /** Go's `filepath.Base` on slash-separated paths: "." for the empty path,
      "/" for a path of slashes only, and otherwise the last element, with
      trailing slashes ignored. */
  function Base(path: string): (r: string)
    ensures r != ""
    ensures path == "" ==> r == "."
    ensures path != "" && (forall k :: 0 <= k < |path| ==> path[k] == '/') ==> r == "/"
    ensures (exists k :: 0 <= k < |path| && path[k] != '/') ==>
      '/' !in r && exists i :: LastElementAt(path, r, i)
  {
    if path == "" then "."
    else
      var t := TrimTrailingSlashes(path);
      if t == "" then "/"
      else
        var r := GetFilename(t);
        assert path[|t| - |r|..|t|] == t[|t| - |r|..];
        assert LastElementAt(path, r, |t| - |r|);
        r
  }

  /** `name` stands at `i` in `path`, after a slash or at the start, with
      nothing but slashes after it. */
  predicate LastElementAt(path: string, name: string, i: int) {
    && 0 <= i <= |path| - |name| && path[i..i + |name|] == name && (i == 0 || path[i - 1] == '/')
    && forall k :: i + |name| <= k < |path| ==> path[k] == '/'
  }

  /** On a path that does not end in a slash, `filepath.Base` and the
      registry's `getFilename` agree. */
  lemma BaseIsGetFilename(path: string)
    requires path != "" && path[|path| - 1] != '/'
    ensures Base(path) == GetFilename(path)
  {
    assert TrimTrailingSlashes(path) == path;
  }

  /** A trailing slash does not change the base name. */
  lemma BaseIgnoresTrailingSlash(path: string)
    requires exists k :: 0 <= k < |path| && path[k] != '/'
    ensures Base(path + "/") == Base(path)
  {
    var p := path + "/";
    assert p[..|p| - 1] == path;
    assert TrimTrailingSlashes(p) == TrimTrailingSlashes(path);
  }

  // ---------------------------------------------------------------------
  // Parsing

  /** `checkDuplicate`: the ledger holds a record of this user with the
      same date, amount and description; category and source play no part. */
  predicate IsDuplicate(l: Ledger, userId: nat, t: Transaction) {
    exists id :: id in l.records && SameEntry(l.records[id], userId, t)
  }

  predicate SameEntry(x: Record, userId: nat, t: Transaction) {
    x.userId == userId && x.date == t.date && x.amount == t.amount as real && x.description == t.description
  }

  /** The parsed row a flagged row was made from. */
  function Untag(p: ParsedTransaction): Transaction {
    Transaction(p.date, p.description, p.amount, p.currency, p.category, p.cardLast4)
  }

  function Tag(l: Ledger, userId: nat, t: Transaction): ParsedTransaction {
    ParsedTransaction(t.date, t.description, t.amount, t.currency, t.category, t.cardLast4, IsDuplicate(l, userId, t))
  }

  /** The parsed rows one for one, each copied unchanged and flagged when
      the ledger already holds it. */
  function TagAll(l: Ledger, userId: nat, ts: seq<Transaction>): (r: seq<ParsedTransaction>)
    ensures |r| == |ts|
    ensures forall k :: 0 <= k < |ts| ==> Untag(r[k]) == ts[k]
    ensures forall k :: 0 <= k < |ts| ==> (r[k].isDuplicate <==> IsDuplicate(l, userId, ts[k]))
  {
    seq(|ts|, k requires 0 <= k < |ts| => Tag(l, userId, ts[k]))
  }

  function Total(ts: seq<Transaction>): nat {
    if |ts| == 0 then 0 else ts[0].amount + Total(ts[1..])
  }

  function ParsedTotal(ps: seq<ParsedTransaction>): nat {
    if |ps| == 0 then 0 else ps[0].amount + ParsedTotal(ps[1..])
  }

  /** The total shown counts every parsed row, duplicates included. */
  lemma {:induction false} TotalCountsDuplicates(l: Ledger, userId: nat, ts: seq<Transaction>)
    ensures ParsedTotal(TagAll(l, userId, ts)) == Total(ts)
    decreases |ts|
  {
    if |ts| > 0 {
      TotalCountsDuplicates(l, userId, ts[1..]);
      var r := TagAll(l, userId, ts);
      assert r[1..] == TagAll(l, userId, ts[1..]);
      assert r[0].amount == Untag(r[0]).amount == ts[0].amount;
    }
  }

  /** The passwords tried on an upload: the user's own, then those of the
      file-name rules matching the file's base name. */
  function Candidates(reg: ParserRegistry, filePath: string, userPasswords: seq<string>): (r: seq<string>)
    ensures |r| >= |userPasswords| && r[..|userPasswords|] == userPasswords
    ensures r[|userPasswords|..] == GetPasswordsForFile(reg, Base(filePath))
  {
    userPasswords + GetPasswordsForFile(reg, Base(filePath))
  }

  /** `ParsePDF`. A failure to fetch the user's passwords is an error of the
      call; a failure of the registry is reported inside the result. */
  function ParsePDF(l: Ledger, reg: ParserRegistry, extract: string -> Option<string>, userId: nat, filePath: string,
                    userPasswords: Result<seq<string>>, clock: Clock): (r: Result<UploadResult>)
    ensures userPasswords.Err? ==> r == Err(PasswordsFailedPrefix + userPasswords.msg)
    ensures userPasswords.Ok? ==> r.Ok? && r.value.filename == Base(filePath)
    ensures r.Ok? ==>
      var parsed := Registry.Parse(reg, extract, Candidates(reg, filePath, userPasswords.value), clock);
      && (r.value.error == "" <==> parsed.Ok?)
      && (parsed.Err? ==> r.value == UploadResult(Base(filePath), "", [], 0, parsed.msg))
      && (parsed.Ok? ==>
            && r.value.bank == parsed.value.bank
            && r.value.transactions == TagAll(l, userId, parsed.value.transactions)
            && r.value.totalAmount == Total(parsed.value.transactions))
  {
    match userPasswords
    case Err(e) => Err(PasswordsFailedPrefix + e)
    case Ok(own) =>
      var filename := Base(filePath);
      match Registry.Parse(reg, extract, Candidates(reg, filePath, own), clock)
      case Err(e) => Ok(UploadResult(filename, "", [], 0, e))
      case Ok(parsed) =>
        Ok(UploadResult(filename, parsed.bank, TagAll(l, userId, parsed.transactions), Total(parsed.transactions), ""))
  }

  /** When one of the user's own passwords (or none) opens the file, the
      rule passwords are never tried. */
  lemma UserPasswordsFirst(reg: ParserRegistry, extract: string -> Option<string>, filePath: string,
                           userPasswords: seq<string>, clock: Clock)
    requires ExtractText(extract, userPasswords).Ok?
    ensures Registry.Parse(reg, extract, Candidates(reg, filePath, userPasswords), clock)
         == Registry.Parse(reg, extract, userPasswords, clock)
  {
    ExtractTextStops(extract, userPasswords, GetPasswordsForFile(reg, Base(filePath)));
  }

  /** The service's registry has no rules, so the candidates are exactly the
      user's passwords. */
  lemma ServiceCandidates(filePath: string, userPasswords: seq<string>)
    ensures Candidates(NewRegistryWithAllParsers(), filePath, userPasswords) == userPasswords
  {
    assert GetPasswordsForFile(NewRegistryWithAllParsers(), Base(filePath)) == [];
  }

  /** `ParseMultiplePDFs`: one result per path, in order; a password-fetch
      error becomes that file's result. */
  function ParseMultiplePDFs(l: Ledger, reg: ParserRegistry, files: string -> (string -> Option<string>), userId: nat,
                             paths: seq<string>, passwordsFor: string -> Result<seq<string>>, clock: Clock): (r: seq<UploadResult>)
    ensures |r| == |paths|
    ensures forall i :: 0 <= i < |paths| ==> r[i].filename == Base(paths[i])
    ensures forall i :: 0 <= i < |paths| && passwordsFor(paths[i]).Err? ==>
      r[i] == UploadResult(Base(paths[i]), "", [], 0, PasswordsFailedPrefix + passwordsFor(paths[i]).msg)
    ensures forall i :: 0 <= i < |paths| && passwordsFor(paths[i]).Ok? ==>
      r[i] == ParsePDF(l, reg, files(paths[i]), userId, paths[i], passwordsFor(paths[i]), clock).value
  {
    seq(|paths|, i requires 0 <= i < |paths| => ParseOne(l, reg, files, userId, paths[i], passwordsFor, clock))
  }

  function ParseOne(l: Ledger, reg: ParserRegistry, files: string -> (string -> Option<string>), userId: nat,
                    path: string, passwordsFor: string -> Result<seq<string>>, clock: Clock): UploadResult
  {
    match ParsePDF(l, reg, files(path), userId, path, passwordsFor(path), clock)
    case Ok(result) => result
    case Err(e) => UploadResult(Base(path), "", [], 0, e)
  }

  // ---------------------------------------------------------------------
  // Importing

  /** The rows an import persists: those not flagged as duplicates. */
  function Fresh(ps: seq<ParsedTransaction>): (r: seq<ParsedTransaction>)
    ensures |r| <= |ps|
  {
    if |ps| == 0 then []
    else (if ps[0].isDuplicate then [] else [ps[0]]) + Fresh(ps[1..])
  }

  /** The record an import writes for a row. */
  function NewRecord(l: Ledger, userId: nat, p: ParsedTransaction, lookup: string -> Option<nat>): Record {
    var category := if p.category != "" then lookup(p.category) else None;
    Record(l.nextId, userId, category, p.amount as real, Expense, p.description, p.date, PdfImportSource)
  }

  /** `ImportTransactions`: the unflagged rows in order, each as an expense
      from a PDF import; the first refused insert stops the import. */
  function ImportTransactions(l: Ledger, userId: nat, ps: seq<ParsedTransaction>,
                              lookup: string -> Option<nat>, reject: Record -> Option<string>): (r: Imported)
    ensures r.count <= |Fresh(ps)|
    ensures r.error.None? ==> r.count == |Fresh(ps)|
    ensures r.error.Some? ==> r.count < |Fresh(ps)| && |ImportFailedPrefix| <= |r.error.value|
                              && r.error.value[..|ImportFailedPrefix|] == ImportFailedPrefix
    ensures r.ledger.nextId == l.nextId + r.count
    ensures forall id :: id in l.records && id < l.nextId ==> id in r.ledger.records && r.ledger.records[id] == l.records[id]
    ensures forall id :: id in r.ledger.records ==>
      || (id in l.records && r.ledger.records[id] == l.records[id])
      || (var x := r.ledger.records[id];
          l.nextId <= id < r.ledger.nextId && x.userId == userId && x.kind == Expense && x.source == PdfImportSource)
    decreases |ps|
  {
    if |ps| == 0 then Imported(l, 0, None)
    else if ps[0].isDuplicate then ImportTransactions(l, userId, ps[1..], lookup, reject)
    else
      var x := NewRecord(l, userId, ps[0], lookup);
      match reject(x)
      case Some(e) => Imported(l, 0, Some(ImportFailedPrefix + e))
      case None =>
        var rest := ImportTransactions(Ledger(l.records[x.id := x], l.nextId + 1), userId, ps[1..], lookup, reject);
        Imported(rest.ledger, rest.count + 1, rest.error)
  }

  /** Importing a list is importing its parts in turn, unless the first part
      fails: then its inserts stay and the second part is never attempted. */
  lemma {:induction false} ImportAppend(l: Ledger, userId: nat, a: seq<ParsedTransaction>, b: seq<ParsedTransaction>,
                                        lookup: string -> Option<nat>, reject: Record -> Option<string>)
    ensures ImportsInTurn(l, userId, a, b, lookup, reject)
    decreases |a|
  {
    if |a| == 0 {
      assert a + b == b;
    } else if a[0].isDuplicate {
      ImportAppend(l, userId, a[1..], b, lookup, reject);
      DuplicateStep(l, userId, a, b, lookup, reject);
    } else {
      var x := NewRecord(l, userId, a[0], lookup);
      if reject(x).None? {
        ImportAppend(Ledger(l.records[x.id := x], l.nextId + 1), userId, a[1..], b, lookup, reject);
        InsertStep(l, userId, a, b, lookup, reject);
      } else {
        assert (a + b)[0] == a[0];
      }
    }
  }

  /** Importing `a + b` is importing `a`, then `b` unless `a` failed. */
  ghost predicate ImportsInTurn(l: Ledger, userId: nat, a: seq<ParsedTransaction>, b: seq<ParsedTransaction>,
                                lookup: string -> Option<nat>, reject: Record -> Option<string>) {
    var first := ImportTransactions(l, userId, a, lookup, reject);
    var second := ImportTransactions(first.ledger, userId, b, lookup, reject);
    ImportTransactions(l, userId, a + b, lookup, reject) ==
      if first.error.Some? then first else Imported(second.ledger, first.count + second.count, second.error)
  }

  lemma DuplicateStep(l: Ledger, userId: nat, a: seq<ParsedTransaction>, b: seq<ParsedTransaction>,
                      lookup: string -> Option<nat>, reject: Record -> Option<string>)
    requires |a| > 0 && a[0].isDuplicate
    requires ImportsInTurn(l, userId, a[1..], b, lookup, reject)
    ensures ImportsInTurn(l, userId, a, b, lookup, reject)
  {
    assert (a + b)[0] == a[0];
    assert (a + b)[1..] == a[1..] + b;
  }

  lemma InsertStep(l: Ledger, userId: nat, a: seq<ParsedTransaction>, b: seq<ParsedTransaction>,
                   lookup: string -> Option<nat>, reject: Record -> Option<string>)
    requires |a| > 0 && !a[0].isDuplicate
    requires var x := NewRecord(l, userId, a[0], lookup);
      reject(x).None? && ImportsInTurn(Ledger(l.records[x.id := x], l.nextId + 1), userId, a[1..], b, lookup, reject)
    ensures ImportsInTurn(l, userId, a, b, lookup, reject)
  {
    assert (a + b)[0] == a[0];
    assert (a + b)[1..] == a[1..] + b;
  }

  /** After a complete import every unflagged row is a duplicate. */
  lemma {:induction false} ImportedAreDuplicates(l: Ledger, userId: nat, ps: seq<ParsedTransaction>,
                                                 lookup: string -> Option<nat>, reject: Record -> Option<string>)
    requires ImportTransactions(l, userId, ps, lookup, reject).error.None?
    ensures var after := ImportTransactions(l, userId, ps, lookup, reject).ledger;
      forall k :: 0 <= k < |ps| && !ps[k].isDuplicate ==> IsDuplicate(after, userId, Untag(ps[k]))
    decreases |ps|
  {
    if |ps| > 0 {
      var after := ImportTransactions(l, userId, ps, lookup, reject).ledger;
      assert forall k :: 1 <= k < |ps| ==> ps[k] == ps[1..][k - 1];
      if ps[0].isDuplicate {
        ImportedAreDuplicates(l, userId, ps[1..], lookup, reject);
      } else {
        var x := NewRecord(l, userId, ps[0], lookup);
        var l1 := Ledger(l.records[x.id := x], l.nextId + 1);
        ImportedAreDuplicates(l1, userId, ps[1..], lookup, reject);
        assert after.records[x.id] == x;
        assert SameEntry(after.records[x.id], userId, Untag(ps[0]));
      }
    }
  }

  /** An import of rows all flagged as duplicates writes nothing. */
  lemma {:induction false} ImportOnlyDuplicates(l: Ledger, userId: nat, ps: seq<ParsedTransaction>,
                                                lookup: string -> Option<nat>, reject: Record -> Option<string>)
    requires forall k :: 0 <= k < |ps| ==> ps[k].isDuplicate
    ensures ImportTransactions(l, userId, ps, lookup, reject) == Imported(l, 0, None)
    decreases |ps|
  {
    if |ps| > 0 {
      ImportOnlyDuplicates(l, userId, ps[1..], lookup, reject);
    }
  }

  /** Parse, import, parse again: the second parse flags every row, so a
      second import persists nothing. */
  lemma ReimportPersistsNothing(l: Ledger, userId: nat, ts: seq<Transaction>,
                                lookup: string -> Option<nat>, reject: Record -> Option<string>)
    requires TransactionService.Valid(l)
    requires ImportTransactions(l, userId, TagAll(l, userId, ts), lookup, reject).error.None?
    ensures var after := ImportTransactions(l, userId, TagAll(l, userId, ts), lookup, reject).ledger;
      && (forall k :: 0 <= k < |ts| ==> TagAll(after, userId, ts)[k].isDuplicate)
      && ImportTransactions(after, userId, TagAll(after, userId, ts), lookup, reject) == Imported(after, 0, None)
  {
    var ps := TagAll(l, userId, ts);
    var after := ImportTransactions(l, userId, ps, lookup, reject).ledger;
    ImportedAreDuplicates(l, userId, ps, lookup, reject);
    forall k | 0 <= k < |ts|
      ensures IsDuplicate(after, userId, ts[k])
    {
      assert Untag(ps[k]) == ts[k];
      if ps[k].isDuplicate {
        var id :| id in l.records && SameEntry(l.records[id], userId, ts[k]);
        assert id in after.records && after.records[id] == l.records[id];
      }
    }
    ImportOnlyDuplicates(after, userId, TagAll(after, userId, ts), lookup, reject);
  }
}
