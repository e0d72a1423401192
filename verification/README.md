# BillingNote statement ingestion, in Dafny

BillingNote is a personal bookkeeping application. Its Go backend turns
credit-card statement PDFs from three Taiwanese banks (Cathay United, Taishin
and Fubon) into ledger transactions. This project models that pipeline and the
small rule sets around it as pure functions over immutable data, and proves
what each step promises.

- **Parser registry** (`Registry`, `Glob`). File-name rules are globs that
  are translated into anchored regular expressions and yield PDF password
  candidates. The document is opened with the empty password first and then
  with each candidate in order. The first registered parser whose keywords
  occur in the text is chosen. The model also covers the base-name helper.
- **Bank parsers** (`BankParsers`, `LinePattern`, `Statement`, `Calendar`,
  `BankLines`, `BankRoundTrips`, `BankRegistry`):
  - the keyword detectors;
  - the statement-line expression `(DATE)\s+(.+?)\s+([\d,]+)` under Go's
    leftmost-first `FindStringSubmatch`;
  - comma-stripped amounts;
  - the year-boundary rule for `MM/DD` dates and ROC years (+1911);
  - `time.Date` normalisation of out-of-range months and days.

  Each parser is proved to read back the lines a statement prints. The model
  keeps the Fubon quirk of reading a four-digit year as an ROC year: in
  `2025/12/25 x 100` the ROC pattern finds `025/12/25`, which gives 1936.
- **Upload service** (`UploadService`):
  - the order of password candidates;
  - the duplicate flag;
  - the total, which counts duplicates;
  - the import, which skips flagged rows and stops at the first failed insert;
  - the fact that re-importing the same data persists nothing.
- **PDF password store** (`PdfPasswordService`): an upsert per (user,
  priority), listing and decryption in priority order, deletion, and batch
  setting.
- **Transaction service** (`TransactionService`): create validation and
  defaults, the ownership checks, the partial-update merge, and the list
  filter override.
- **Auth middleware** (`Auth`): the `Bearer <token>` header test and
  `GetUserID`.
- **AES key handling** (`AesKey`): the key padded or truncated to 32 bytes,
  and the nonce-length guard in `Decrypt`.
- **Frontend validators** (`Validation`): the e-mail pattern under
  JavaScript's `\s`, the password length in UTF-16 code units, and the
  positive-number test including NaN and the infinities.

The following effects are parameters:
- the PDF text extractor, a function from password to optional text;
- the encryptor, the decryptor and the base64 decoder;
- the JWT validator;
- the clock, as a current year and month;
- database write failures and the category-name lookup.

Stores are values:
- the transaction ledger is a map from id to record plus the next id;
- the password table is a sequence of rows plus the next id.

## Model

Some functions only compute and are stated through the lemmas about them,
which the rows below cite:
`Registry.ParseWithAutoPassword` (parser.go:177-183) through
`Registry.AutoPasswordOpens`, `Registry.PasswordsFor` and `Registry.Parse`;
`UploadService.IsDuplicate` (upload_service.go:144-151) through
`UploadService.TagAll`, `UploadService.ImportedAreDuplicates` and
`UploadService.ReimportPersistsNothing`;
`BankParsers.CanParse` (cathay.go:26-35 and its Taishin and Fubon twins) through
`BankParsers.AnyContained`, `BankParsers.CanParseKeyword` and
`BankParsers.CannotParseEmpty`;
`Statement.Atoi` (cathay.go:57-58) through `Statement.AtoiPadded` and
`Statement.RocFieldYear`;
`Statement.ImpliedYear` (cathay.go:60-64) through `Statement.ImpliedYearRecent`;
`Statement.Emit` (cathay.go:68-83) through `Statement.EmitWellFormed` and the
`BankLines` and `BankRoundTrips` rows.

| member | source | states |
|---|---|---|
| Glob.GlobRegexMeaning | backend/internal/pdf/parser.go:95-102 | the translated regex matches a name exactly when the glob does: `*` any run (not crossing a newline), `?` one character, everything else literally, and the whole name must be covered |
| Glob.GlobToRegexReads | backend/internal/pdf/parser.go:95-102 | after QuoteMeta and the two replacements, the regex reads as `^`, one atom per glob character (a wildcard for `*`/`?`, a literal otherwise) and `$` |
| Glob.FirstReplacement | backend/internal/pdf/parser.go:97-99 | replacing `\*` by `.*` in the quoted glob turns exactly the glob's stars into `.*` and leaves every other quoted character as it was |
| Glob.SecondReplacement | backend/internal/pdf/parser.go:100 | replacing `\?` by `.` afterwards turns exactly the glob's question marks into `.`; no `.*` produced by the first step is disturbed |
| Glob.GlobAtomsMeaning | backend/internal/pdf/parser.go:101 | the anchored atom sequence matches a suffix of the input exactly when the glob matches that whole suffix |
| Glob.LiteralGlob | backend/internal/pdf/parser_test.go:10-65 | a glob without `*` or `?` matches only itself, so `.`, `[`, `]` and `(` are literal |
| Glob.PrefixGlob | backend/internal/pdf/parser_test.go:10-65 | `lit*` matches exactly the names that start with `lit` (the rest not containing a newline) |
| Glob.StarExamples | backend/internal/pdf/parser_test.go:10-65 | `abc*` matches `abcdef` and `abc` but not `xabc` |
| Glob.QuestionExamples | backend/internal/pdf/parser_test.go:10-65 | `a?c` matches `abc` but neither `ac` nor `abbc` |
| Registry.PasswordsFor | backend/internal/pdf/parser.go:79-92 | at most one password per rule |
| Registry.PasswordsForAppend | backend/internal/pdf/parser.go:82-89 | rules are consulted in order: the passwords for `a + b` are those for `a` followed by those for `b` |
| Registry.PasswordsForOne | backend/internal/pdf/parser.go:84-88 | a single rule contributes its password exactly when its glob matches the file name |
| Registry.PasswordsForEmpty | backend/internal/pdf/parser.go:79-92 | the list is empty exactly when no rule's glob matches |
| Registry.TwoPrefixRules | backend/internal/pdf/parser_test.go:84-119 | with two prefix rules, each contributes its password exactly when the name starts with its prefix, in rule order, keeping repeats |
| Registry.FirstRuleOnly | backend/internal/pdf/parser_test.go:84-119 | a name starting with the first prefix only gets the first rule's password |
| Registry.SecondRuleOnly | backend/internal/pdf/parser_test.go:84-119 | a name starting with the second prefix only gets the second rule's password |
| Registry.NoRule | backend/internal/pdf/parser_test.go:84-119 | a name starting with neither prefix gets no password |
| Registry.CathayFilePasswords | backend/internal/pdf/parser_test.go:98-100 | the Cathay statement file name yields `password1` |
| Registry.TaishinFilePasswords | backend/internal/pdf/parser_test.go:103-105 | the Taishin statement file name yields `password2` |
| Registry.UnknownFilePasswords | backend/internal/pdf/parser_test.go:108-110 | `unknown_file.pdf` yields no password |
| Registry.FirstOpening | backend/internal/pdf/parser.go:105-119 | the attempt that succeeds is the first one that succeeds; none is reported exactly when every attempt fails |
| Registry.ExtractText | backend/internal/pdf/parser.go:105-122 | the empty password is tried first; the text is that of the first successful attempt; it fails with "all passwords failed or PDF is corrupted" exactly when the empty password and every candidate fail |
| Registry.ExtractTextStops | backend/internal/pdf/parser.go:113-118 | once an attempt succeeds, candidates appended after it change nothing |
| Registry.SelectParser | backend/internal/pdf/parser.go:163-164 | the chosen parser accepts the text and every earlier one rejects it; none is chosen exactly when all reject it |
| Registry.Parse | backend/internal/pdf/parser.go:155-174 | an extraction error is returned unchanged; "no suitable parser found for this PDF" exactly when the text was extracted and no parser accepts it; otherwise the first accepting parser's transactions tagged with its bank name |
| Registry.RegisterKeepsEarlier | backend/internal/pdf/parser.go:60-62 | registering another parser never changes which parser an already-accepted text goes to |
| Registry.GetFilename | backend/internal/pdf/parser.go:185-191 | the result has no `/` and is the path's suffix after its last `/` (the whole path when there is none) |
| Registry.GetFilenameJoin | backend/internal/pdf/parser.go:185-191 | the base name of `dir/name` is `name` |
| Registry.GetFilenameNoSlash | backend/internal/pdf/parser_test.go:121-136 | a path without `/` is returned unchanged |
| Registry.GetFilenameOfPath | backend/internal/pdf/parser_test.go:126-128 | `/path/to/file.pdf` gives `file.pdf` and `/a/b/c/d/test.pdf` gives `test.pdf` |
| Registry.GetFilenameOfName | backend/internal/pdf/parser_test.go:127-129 | `file.pdf` gives `file.pdf` and the empty path gives the empty name |
| Registry.AutoPasswordOpens | backend/internal/pdf/parser.go:177-183 | when a rule matching the file's base name carries a password that opens the document, auto-password parsing does not fail for passwords |
| BankParsers.BankName | backend/internal/pdf/bank_parsers/cathay.go:20-35 | the bank's name is the first keyword its `CanParse` looks for, so a text consisting of the name is accepted |
| BankParsers.AnyContained | backend/internal/pdf/bank_parsers/cathay.go:28-34 | true exactly when some keyword occurs in the text |
| BankParsers.CanParseKeyword | backend/internal/pdf/bank_parsers/cathay.go:26-35 | a text containing any of the bank's keywords anywhere is accepted |
| BankParsers.CannotParseEmpty | backend/internal/pdf/bank_parsers/cathay_test.go:16-57 | no bank accepts the empty text |
| BankParsers.CathayLine | backend/internal/pdf/bank_parsers/cathay.go:49-85 | a transaction read from a line has a valid date, TWD currency, a trimmed description, an in-range amount and empty category and card |
| BankParsers.TaishinLine | backend/internal/pdf/bank_parsers/taishin.go:48-88 | the same, for the Taishin full-date and month/day alternation |
| BankParsers.FubonLine | backend/internal/pdf/bank_parsers/fubon.go:49-106 | the same, for the Fubon ROC pattern and its month/day fallback |
| BankParsers.TaishinMatch | backend/internal/pdf/bank_parsers/taishin.go:53-73 | a date token with two slashes is read as year/month/day and one with a single slash as month/day; either way the transaction is well formed |
| BankParsers.FubonRocMatch | backend/internal/pdf/bank_parsers/fubon.go:55-77 | an ROC-dated match gives a well-formed transaction |
| BankParsers.ParseLine | backend/internal/pdf/bank_parsers/cathay.go:50-51 | every line, trimmed, yields at most one well-formed transaction |
| BankParsers.ParseLines | backend/internal/pdf/bank_parsers/cathay.go:49-86 | never more transactions than lines, all well formed |
| BankParsers.Parse | backend/internal/pdf/bank_parsers/cathay.go:38-89 | at most one transaction per newline-separated line, all well formed, with no error case |
| BankParsers.ParseLinesAppend | backend/internal/pdf/bank_parsers/cathay.go:49-86 | output follows line order: parsing `xs + ys` is parsing `xs` then `ys` |
| BankParsers.ParseConcat | backend/internal/pdf/bank_parsers/cathay.go:46-49 | parsing two texts joined by a newline is parsing each and concatenating |
| BankParsers.ParseSingleLine | backend/internal/pdf/bank_parsers/cathay.go:46-86 | a text without a newline yields exactly what its one line yields |
| BankParsers.NoSlashNoTransaction | backend/internal/pdf/bank_parsers/cathay.go:51-53 | a line without `/` contains no date token and yields nothing, for every bank |
| BankParsers.ParseEmpty | backend/internal/pdf/bank_parsers/cathay_test.go:93-99 | the empty text yields no transactions |
| BankParsers.ParseLinesNoDates | backend/internal/pdf/bank_parsers/cathay.go:49-86 | lines without `/` yield nothing |
| LinePattern.LeftmostFirst | backend/internal/pdf/bank_parsers/cathay.go:44-51 | the search returns a genuine match of the expression, finds one whenever one exists, and returns the one a backtracking matcher prefers (leftmost start, earlier alternative, longer first `\s+`, shorter lazy description, longer amount) |
| LinePattern.FindFromSpec | backend/internal/pdf/bank_parsers/cathay.go:51 | the same from any start position onwards |
| LinePattern.MatchAltsSpec | backend/internal/pdf/bank_parsers/taishin.go:43 | at one position the first date alternative that leads to a match wins, and its match is preferred over every match of later alternatives |
| LinePattern.MatchWithSound | backend/internal/pdf/bank_parsers/cathay.go:44 | the match built for one alternative at one position really matches the expression |
| LinePattern.MatchWithBest | backend/internal/pdf/bank_parsers/cathay.go:44 | it exists whenever any match at that position and alternative exists, and is preferred over all of them |
| LinePattern.PreferredUnique | backend/internal/pdf/bank_parsers/cathay.go:44 | the preference order is antisymmetric, so the preferred match is unique |
| LinePattern.MatchGroups | backend/internal/pdf/bank_parsers/cathay.go:53 | a found match has a date group of its layout's shape, a non-empty description without newline and a non-empty `[\d,]` amount |
| LinePattern.PlainLine | backend/internal/pdf/bank_parsers/cathay.go:44 | in `date desc amount` with single spaces, no earlier date token and a description without a split point, the groups are exactly the printed date, description and amount |
| LinePattern.NoSlashNoMatch | backend/internal/pdf/bank_parsers/cathay.go:44 | when every layout contains `/`, a string without `/` has no match |
| Statement.ParseAmount | backend/internal/pdf/bank_parsers/cathay.go:72-76 | a parsed amount is below the float64 overflow bound |
| Statement.AmountRoundTrip | backend/internal/pdf/bank_parsers/cathay.go:72-73 | a printed decimal amount parses back to its value |
| Statement.CommasIgnored | backend/internal/pdf/bank_parsers/cathay.go:72 | commas anywhere in the amount token do not change its value |
| Statement.OnlyCommas | backend/internal/pdf/bank_parsers/cathay.go:73-76 | a token of commas only does not parse, so the line is skipped |
| Statement.AmountOverflow | backend/internal/pdf/bank_parsers/cathay.go:73-76 | a token whose value rounds to infinity does not parse either |
| Statement.AtoiPadded | backend/internal/pdf/bank_parsers/cathay.go:57-58 | a zero-padded date field reads back as its number |
| Statement.ImpliedYearRecent | backend/internal/pdf/bank_parsers/cathay.go:60-64 | a month/day date is placed in the twelve months ending with the current month, and no other year does that |
| Statement.RocToGregorian | backend/internal/pdf/bank_parsers/fubon.go:60-61 | the ROC era starts in 1912: a year is ROC year 1 or later exactly when its Gregorian year is 1912 or later |
| Statement.RocFieldYear | backend/internal/pdf/bank_parsers/fubon.go:56-61 | a zero-padded ROC year field of any width reads back as the Gregorian year of the number it prints, that number plus 1911 |
| Statement.RocExamples | backend/internal/pdf/bank_parsers/fubon_test.go:110-127 | the ROC fields 100, 110, 114 and 115 read as the years 2011, 2021, 2025 and 2026 |
| Statement.TokenSlashes | backend/internal/pdf/bank_parsers/taishin.go:56 | the matched date token has as many slashes as the layout that matched it, so the slash count tells which alternative matched |
| Statement.EmitWellFormed | backend/internal/pdf/bank_parsers/cathay.go:68-83 | a matched line yields a transaction exactly when its amount parses, and the transaction is well formed |
| Calendar.MakeDate | backend/internal/pdf/bank_parsers/cathay.go:66 | `time.Date` always yields a valid calendar date |
| Calendar.MakeDateValid | backend/internal/pdf/bank_parsers/cathay.go:66 | a date that is already valid is kept as it is |
| Calendar.MakeDateIdempotent | backend/internal/pdf/bank_parsers/cathay.go:66 | normalising a normalised date changes nothing |
| Calendar.MonthCarry | backend/internal/pdf/bank_parsers/cathay.go:66 | twelve extra months are one extra year |
| Calendar.DayZero | backend/internal/pdf/bank_parsers/cathay.go:66 | day 0 is the last day of the previous month |
| Calendar.DayOverflow | backend/internal/pdf/bank_parsers/cathay.go:66 | the day after a month's last day is the first of the next month |
| Calendar.CalendarExamples | backend/internal/pdf/bank_parsers/cathay.go:66 | `10/32` is November 1, and `2/30` of a leap year and `2/29` of a common year both become March 1 |
| Calendar.MonthExamples | backend/internal/pdf/bank_parsers/cathay.go:66 | month 13 is January of the next year, and day 0 of month 0 is November 30 of the year before |
| BankLines.CathayReads | backend/internal/pdf/bank_parsers/cathay.go:55-83 | a matched `MM/DD` line gives the date in the implied year, the trimmed description and the parsed amount |
| BankLines.TaishinFullDateReads | backend/internal/pdf/bank_parsers/taishin.go:56-62 | a matched `YYYY/MM/DD` line uses its own year |
| BankLines.TaishinMonthDayReads | backend/internal/pdf/bank_parsers/taishin.go:63-73 | a matched `MM/DD` line uses the implied year |
| BankLines.FubonRocReads | backend/internal/pdf/bank_parsers/fubon.go:53-77 | a matched ROC line uses the ROC year plus 1911 |
| BankLines.FubonMonthDayReads | backend/internal/pdf/bank_parsers/fubon.go:80-105 | a line without an ROC match falls back to `MM/DD` in the implied year |
| BankRoundTrips.CathayRoundTrip | backend/internal/pdf/bank_parsers/cathay.go:44-83 | a printed `MM/DD desc amount` line is read back as that date in the implied year, that description and that amount (none when the amount does not parse) |
| BankRoundTrips.TaishinFullDateRoundTrip | backend/internal/pdf/bank_parsers/taishin.go:43-62 | a printed `YYYY/MM/DD desc amount` line is read back with its explicit year |
| BankRoundTrips.TaishinMonthDayRoundTrip | backend/internal/pdf/bank_parsers/taishin.go:63-80 | a printed `MM/DD desc amount` line is read back with the implied year |
| BankRoundTrips.FubonRocRoundTrip | backend/internal/pdf/bank_parsers/fubon.go:53-77 | a printed `RRR/MM/DD desc amount` line is read back with year RRR + 1911 |
| BankRoundTrips.FubonMonthDayRoundTrip | backend/internal/pdf/bank_parsers/fubon.go:80-105 | a printed `MM/DD desc amount` line (description without `/`) is read back with the implied year |
| BankRoundTrips.MonthDayNotFullDate | backend/internal/pdf/bank_parsers/taishin.go:43 | a month/day line does not start with a full-date token, so the alternation falls to `MM/DD` |
| BankRoundTrips.MonthDayNoRocDate | backend/internal/pdf/bank_parsers/fubon.go:53-54 | a month/day line has no ROC match, so Fubon tries the fallback |
| BankRoundTrips.FubonReadsFourDigitYearAsRoc | backend/internal/pdf/bank_parsers/fubon.go:43-62 | a line with a four-digit year is read by Fubon as the ROC year of its last three digits, plus 1911, not as the printed year |
| BankRoundTrips.RocDateAfterDigit | backend/internal/pdf/bank_parsers/fubon.go:43 | in such a line the ROC pattern matches starting one character in, with the printed description and amount |
| BankRegistry.RegisterAllParsers | backend/internal/pdf/bank_parsers/registry.go:8-12 | appends Cathay, Taishin and Fubon in that order and leaves the rules alone |
| BankRegistry.NewRegistryWithAllParsers | backend/internal/pdf/bank_parsers/registry.go:15-19 | holds exactly the three parsers and no rules, so no file name gets a rule password |
| BankRegistry.AllParsersChoose | backend/internal/pdf/bank_parsers/registry.go:9-11 | the extracted text goes to Cathay if it names Cathay, else Taishin, else Fubon, else "no suitable parser" |
| BankRegistry.CathayBeforeTaishin | backend/internal/pdf/bank_parsers/registry.go:9-10 | a text containing both `國泰銀行` and `TSB` is attributed to `國泰世華` |
| BankRegistry.NoMarkerNoParser | backend/internal/pdf/parser.go:173 | a text with none of the ten keywords gets "no suitable parser found for this PDF" |
| Sorting.SortByElements | backend/internal/services/pdf_password_service.go:67 | sorting by priority is a permutation |
| Sorting.SortBySorted | backend/internal/services/pdf_password_service.go:67 | the result is in ascending key order |
| PdfPasswordService.FindSlot | backend/internal/services/pdf_password_service.go:41 | finds the first row of the (user, priority) slot, or reports that none exists |
| PdfPasswordService.SetPassword | backend/internal/services/pdf_password_service.go:32-62 | an encryption failure returns its error and leaves the store unchanged; otherwise no error, and the store grows by at most one row |
| PdfPasswordService.SetPasswordWrites | backend/internal/services/pdf_password_service.go:39-61 | afterwards the slot holds the new ciphertext and label, under the existing id when there was one and a fresh id otherwise |
| PdfPasswordService.SetPasswordKeepsOthers | backend/internal/services/pdf_password_service.go:39-61 | every other (user, priority) slot is unchanged |
| PdfPasswordService.SetPasswordValid | backend/internal/services/pdf_password_service.go:39-61 | at most one row per slot and ids below the next id are preserved |
| PdfPasswordService.UserRows | backend/internal/services/pdf_password_service.go:67 | keeps exactly the user's rows |
| PdfPasswordService.ByPriority | backend/internal/services/pdf_password_service.go:67 | the user's rows, each once, in ascending priority |
| PdfPasswordService.ResponsesOfSorted | backend/internal/models/pdf_password.go:43-52 | the responses of priority-sorted rows are in priority order and are exactly the responses of those rows |
| PdfPasswordService.GetPasswords | backend/internal/services/pdf_password_service.go:65-78 | the responses are in ascending priority, each the plaintext-free response of one of the user's rows, and every row of the user is answered; there is one response per row, and the responses are a permutation of the responses of the user's rows |
| PdfPasswordService.ResponsesPermutation | backend/internal/services/pdf_password_service.go:72-75 | rows that are a permutation of each other are answered by a permutation of the same responses |
| PdfPasswordService.Plaintext | backend/internal/services/pdf_password_service.go:89-97 | a row with an empty ciphertext, or one that fails to decrypt, yields nothing; a row that decrypts to `t` yields exactly `[t]` |
| PdfPasswordService.DecryptAll | backend/internal/services/pdf_password_service.go:88-98 | never more plaintexts than rows |
| PdfPasswordService.DecryptAllSound | backend/internal/services/pdf_password_service.go:88-98 | a string comes out exactly when some row has a non-empty ciphertext that decrypts to it |
| PdfPasswordService.GetDecryptedPasswords | backend/internal/services/pdf_password_service.go:81-101 | never more plaintexts than the user has entries; a string is returned exactly when one of the user's entries has a non-empty ciphertext that decrypts to it, so empty and undecryptable entries are skipped and no other user's password appears |
| PdfPasswordService.DecryptAllAppend | backend/internal/services/pdf_password_service.go:89-98 | rows are processed one after the other, in order |
| PdfPasswordService.DecryptAllComplete | backend/internal/services/pdf_password_service.go:89-98 | when every row has a ciphertext that decrypts, the result is each row's plaintext, in row order |
| PdfPasswordService.DecryptAllOrder | backend/internal/services/pdf_password_service.go:89-98 | of two decryptable rows, the earlier one's plaintext comes first |
| PdfPasswordService.DecryptedInPriorityOrder | backend/internal/services/pdf_password_service.go:81-101 | of two of the user's decryptable entries, the lower priority's plaintext comes first |
| PdfPasswordService.RemoveSlot | backend/internal/services/pdf_password_service.go:105 | removes exactly the rows of the slot, and removes something exactly when the slot was occupied |
| PdfPasswordService.DeletePassword | backend/internal/services/pdf_password_service.go:104-113 | "password not found" exactly when the slot is empty, with the store unchanged; afterwards the slot is empty |
| PdfPasswordService.RemoveSlotKeeps | backend/internal/services/pdf_password_service.go:105 | every other slot keeps its row |
| PdfPasswordService.DeleteKeepsOthers | backend/internal/services/pdf_password_service.go:104-113 | deleting one slot leaves every other slot's entry unchanged |
| PdfPasswordService.DeleteValid | backend/internal/services/pdf_password_service.go:104-113 | deletion preserves the store invariant |
| PdfPasswordService.ApplyInputs | backend/internal/services/pdf_password_service.go:122-129 | an error is the encryption error of some non-empty input; when every non-empty input encrypts, there is no error |
| PdfPasswordService.SetMultiplePasswords | backend/internal/services/pdf_password_service.go:116-132 | the inputs are applied in some ascending-priority permutation of themselves |
| PdfPasswordService.ApplyInputsAppend | backend/internal/services/pdf_password_service.go:122-129 | it stops at the first failure, keeping earlier writes; otherwise it continues from the store reached so far |
| PdfPasswordService.ApplyInputsKeepsSlot | backend/internal/services/pdf_password_service.go:122-125 | a slot that no non-empty input names is untouched; empty passwords are skipped |
| PdfPasswordService.ApplyInputsLastWins | backend/internal/services/pdf_password_service.go:122-129 | when all succeed, each slot holds the last non-empty input for its priority |
| PdfPasswordService.ApplyInputsValid | backend/internal/services/pdf_password_service.go:116-132 | batch setting preserves the store invariant |
| TransactionService.CreateTransaction | backend/internal/services/transaction_service.go:45-74 | the amount is checked first, then the type, then the insert; an error leaves the ledger unchanged; success exactly when amount > 0, the type is income or expense and the insert succeeds; the new record copies the request, with source `manual` when none is given |
| TransactionService.CreateValid | backend/internal/services/transaction_service.go:59-71 | creating keeps every record under its own id, uses a fresh id and keeps all earlier records |
| TransactionService.CreateThenGet | backend/internal/services/transaction_service.go:76-87 | the creator can read the new record back and anyone else gets "unauthorized access to transaction" |
| TransactionService.GetTransaction | backend/internal/services/transaction_service.go:76-87 | the record exactly when it exists and belongs to the caller; "transaction not found" exactly when it is missing; "unauthorized access" exactly when someone else owns it |
| TransactionService.ListFilter | backend/internal/services/transaction_service.go:89-92 | the filter's user becomes the caller and nothing else in it changes |
| TransactionService.Merge | backend/internal/services/transaction_service.go:104-122 | each field is overwritten only when supplied (amount > 0, non-empty type or description, non-nil category, non-zero date); id, user and source are kept; a non-empty invalid type is an error |
| TransactionService.UpdateTransaction | backend/internal/services/transaction_service.go:94-129 | a missing or foreign record returns the lookup error; any error leaves the ledger unchanged; success writes the merged record under its id |
| TransactionService.UpdateNothing | backend/internal/services/transaction_service.go:104-122 | an update with nothing supplied keeps the record |
| TransactionService.MergeIdempotent | backend/internal/services/transaction_service.go:104-122 | applying the same update twice is applying it once |
| TransactionService.UpdateSucceeds | backend/internal/services/transaction_service.go:94-129 | an update succeeds exactly when the caller owns an existing record, any supplied type is valid, and the write succeeds |
| TransactionService.UpdateValid | backend/internal/services/transaction_service.go:94-129 | the set of ids is unchanged and every other record is unchanged |
| TransactionService.DeleteTransaction | backend/internal/services/transaction_service.go:131-142 | the lookup error for a missing or foreign record; success exactly when the caller owns it and the delete succeeds, removing exactly that id |
| TransactionService.DeleteThenGet | backend/internal/services/transaction_service.go:131-142 | after a delete the record is not found and every other record reads as before |
| TransactionService.DeleteValid | backend/internal/services/transaction_service.go:131-142 | deletion preserves the ledger invariant |
| UploadService.Base | backend/internal/services/upload_service.go:96 | `filepath.Base`: `.` for the empty path, `/` for a path of slashes only, and otherwise the last non-empty element, which contains no `/` |
| UploadService.BaseIsGetFilename | backend/internal/services/upload_service.go:96 | for a non-empty path not ending in `/`, it agrees with the registry's base-name helper |
| UploadService.BaseIgnoresTrailingSlash | backend/internal/services/upload_service.go:96 | a trailing slash does not change the base name |
| UploadService.TagAll | backend/internal/services/upload_service.go:118-132 | one result per parsed transaction, in order, copying every field, flagged exactly when the store holds the same user, date, amount and description |
| UploadService.TotalCountsDuplicates | backend/internal/services/upload_service.go:119-133 | the total is the sum of all parsed amounts, duplicates included |
| UploadService.Candidates | backend/internal/services/upload_service.go:99-106 | the user's passwords come first, followed by the rule passwords for the file's base name |
| UploadService.ParsePDF | backend/internal/services/upload_service.go:95-141 | a password-service failure is an error with the "failed to get passwords: " prefix; otherwise a result named after the base name that carries the registry's error text alone, or the bank, the tagged transactions and the total |
| UploadService.UserPasswordsFirst | backend/internal/services/upload_service.go:104-109 | when a stored password opens the file, rule passwords make no difference |
| UploadService.ServiceCandidates | backend/internal/services/upload_service.go:105-106 | with the service's registry, which has no rules, the candidates are just the user's passwords |
| UploadService.ParseMultiplePDFs | backend/internal/services/upload_service.go:189-205 | one result per path, in order, named after the path's base name; a password failure becomes that result's error text; otherwise the path's own parse |
| UploadService.Fresh | backend/internal/services/upload_service.go:157-160 | the entries not flagged as duplicates |
| UploadService.ImportTransactions | backend/internal/services/upload_service.go:154-186 | without error, every unflagged entry is persisted and counted; with one, the count so far and a "failed to import transaction: " message; earlier records are kept and every new record is the user's `expense` with source `pdf_import` |
| UploadService.ImportAppend | backend/internal/services/upload_service.go:157-183 | a failure stops the import with the inserts before it kept; otherwise the import continues from the ledger reached so far |
| UploadService.ImportedAreDuplicates | backend/internal/services/upload_service.go:162-169 | after a successful import every unflagged entry is a duplicate of a stored record |
| UploadService.ImportOnlyDuplicates | backend/internal/services/upload_service.go:157-160 | a list of flagged entries imports nothing and changes nothing |
| UploadService.ReimportPersistsNothing | backend/internal/services/upload_service.go:144-169 | after importing, re-tagging the same transactions flags all of them, and a second import persists nothing |
| Auth.Authenticate | backend/internal/middleware/auth.go:13-40 | an empty header gives "authorization header required"; a header that does not split on spaces into `Bearer` and one token gives "invalid authorization header format"; a rejected token gives "invalid or expired token"; otherwise the handler runs with the claims' user id and e-mail in the context |
| Auth.BearerFormatMeaning | backend/internal/middleware/auth.go:21-22 | the format test holds exactly for `Bearer`, one space and a space-free (possibly empty) token, and the token is the rest of the header |
| Auth.SchemeFormat | backend/internal/middleware/auth.go:21-22 | the same characterisation for any space-free scheme word |
| Auth.SchemeSplit | backend/internal/middleware/auth.go:21 | splitting `word token` on spaces gives the two words back |
| Auth.AuthenticateToken | backend/internal/middleware/auth.go:28-40 | a well-formed header hands exactly its token to the validator, and the outcome follows the validator |
| Auth.EmptyTokenIsValidated | backend/internal/middleware/auth_test.go:147-157 | `Bearer ` passes the format test, and its empty token is rejected by the validator |
| Auth.WrongSchemeRejected | backend/internal/middleware/auth_test.go:69-97 | a non-empty header not starting with `Bearer ` is rejected for its format |
| Auth.ExtraSpaceRejected | backend/internal/middleware/auth.go:21-26 | a second space after the scheme makes the format invalid |
| Auth.GetUserID | backend/internal/middleware/auth.go:44-50 | `(0, false)` when no user id is stored, otherwise the stored id and true |
| Auth.AdmittedUserId | backend/internal/middleware/auth_test.go:185-205 | behind the middleware the handler reads the token's user id |
| AesKey.Utf8Char | backend/pkg/crypto/aes.go:20 | one to four bytes per character, a single byte equal to the code point exactly for ASCII |
| AesKey.Utf8Ascii | backend/pkg/crypto/aes.go:20 | an ASCII key's bytes are its characters |
| AesKey.NormalizeKey | backend/pkg/crypto/aes.go:22-30 | always 32 bytes: a shorter key is followed by zero bytes, a longer key is cut to its first 32 |
| AesKey.NewAesKey | backend/pkg/crypto/aes.go:19-33 | defined for every key string, the empty one included, and always 32 bytes |
| AesKey.NormalizeIdempotent | backend/pkg/crypto/aes.go:22-30 | normalising twice is normalising once |
| AesKey.NormalizeFullKey | backend/pkg/crypto/aes.go:28-30 | a 32-byte key is used as it is |
| AesKey.TrailingZerosCollide | backend/pkg/crypto/aes.go:23-27 | a short key and that key with zero bytes appended give the same cipher key |
| AesKey.LongKeysCollide | backend/pkg/crypto/aes.go:28-30 | keys that agree on their first 32 bytes give the same cipher key |
| AesKey.Decrypt | backend/pkg/crypto/aes.go:57-84 | a decoding error is returned; data shorter than the 12-byte nonce gives "ciphertext too short"; otherwise the rest is opened under the leading 12 bytes |
| AesKey.ThreeBytesTooShort | backend/pkg/crypto/aes_test.go:97-121 | three decoded bytes are refused before any opening |
| Validation.IsValidEmail | frontend/src/utils/validation.ts:1-4 | true exactly when the text is in the language of `^[^\s@]+@[^\s@]+\.[^\s@]+$` |
| Validation.EmailRule | frontend/src/utils/validation.ts:2 | that language is: no white space, exactly one `@` and not first, and a `.` after it that is neither right after the `@` nor last |
| Validation.EmailAccepted | frontend/src/utils/validation.test.ts:5-8 | `test@example.com` and `user.name@domain.co.uk` are accepted |
| Validation.NoAtRejected | frontend/src/utils/validation.ts:2 | a text without `@` is rejected |
| Validation.AtAtEdgeRejected | frontend/src/utils/validation.ts:2 | an `@` first or last is rejected |
| Validation.DomainWithoutDotRejected | frontend/src/utils/validation.ts:2 | a domain without `.` is rejected |
| Validation.EmailRejected | frontend/src/utils/validation.test.ts:10-16 | `invalid`, `test@`, `@example.com` and `test@example` are rejected |
| Validation.IsValidPassword | frontend/src/utils/validation.ts:6-8 | six characters always pass and fewer than three never do |
| Validation.PasswordBmp | frontend/src/utils/validation.ts:7 | within the Basic Multilingual Plane, valid exactly when at least six characters long |
| Validation.ThreeAstralCharactersPass | frontend/src/utils/validation.ts:7 | three characters beyond U+FFFF count as six code units and pass |
| Validation.PasswordExamples | frontend/src/utils/validation.test.ts:18-29 | `123456` and `longpassword` pass; `12345`, `abc` and the empty password do not |
| Validation.IsPositiveNumber | frontend/src/utils/validation.ts:10-12 | NaN is not positive and a finite number is positive exactly when it is greater than zero |
| Validation.PositiveOrNegated | frontend/src/utils/validation.ts:11 | at most one of a number and its negation is positive, and exactly one unless it is zero or NaN |
| Validation.PositiveExamples | frontend/src/utils/validation.test.ts:31-42 | 1 and 100.5 are positive; 0, -1 and -100.5 are not |
| Text.TrimSpace | backend/internal/pdf/bank_parsers/cathay.go:50 | the input is the result with Unicode white space around it, and the result neither starts nor ends with white space |
| Text.TrimSpaceIdempotent | backend/internal/pdf/bank_parsers/cathay.go:69 | trimming a trimmed line changes nothing |
| Text.Split | backend/internal/pdf/bank_parsers/cathay.go:46 | one more part than separators, no separator in any part, and joining the parts with the separator gives the input back |
| Text.SplitJoin | backend/internal/middleware/auth.go:21 | splitting separator-free parts joined by the separator gives the parts back |
| Text.SplitAppend | backend/internal/pdf/bank_parsers/cathay.go:46 | splitting around a separator is splitting each side |
| Text.RemoveChar | backend/internal/pdf/bank_parsers/cathay.go:72 | the result has no comma left and is no longer than the input |
| Text.RemoveCharKeeps | backend/internal/pdf/bank_parsers/cathay.go:72 | every other character keeps its count |

## Left out

- PDF decoding (`extractTextFromPDF`: file open, pdfcpu, passwords) is the `extract` parameter, a function from password to optional text.
- `LoadFileNameRules` reads JSON from a file. The rules are a given sequence.
- `NewParserRegistry` and `RegisterParser` are plain constructors (`Registry.NewParserRegistry`, `Registry.RegisterParser`) without contracts of their own. What registration order means is stated by `Registry.RegisterKeepsEarlier` and `BankRegistry.RegisterAllParsers`.
- `Registry.Parse` has no "parser error" branch (parser.go:165-168). The three parsers never return an error, so that branch is dead.
- `getFilename`'s fallback `return path` (parser.go:190) is unreachable: `strings.Split` always returns at least one part.
- The `fmt.Printf` logging in `ExtractText` and elsewhere is left out.
- The database layer is abstract:
  - the transaction store is a map from id to record plus the next id;
  - the password table is a sequence of rows plus the next id;
  - a refused write is the `fault` parameter (`reject` in the import);
  - the category-name lookup is a partial function. Its query filters on a `user_id` column that the category model lacks (models/category.go:5-12).
- Failed reads and failed row writes inside `SetPassword` and `DeletePassword` are not modelled. Their only error paths are the encryption failure and "password not found". The same holds for listing errors in `GetPasswords` and `GetDecryptedPasswords`.
- PdfPasswordService.SetMultiplePasswords: Go's `sort.Slice` is not stable. The contract only says that some ascending-priority permutation of the inputs is applied. It does not say which input wins among several with the same priority. The function itself sorts stably.
- Cryptography is left out: AES-GCM sealing and opening, the random nonce, base64, JWT generation and validation, and bcrypt. They are parameters (`encrypt`, `decrypt`, `decode`, `open`, `validate`).
- HTTP and gin are left out:
  - `c.JSON`/`c.Abort` are the `Err` value of `Auth.Authenticate`, and `c.Next` is its `Ok` context;
  - handlers, routing, configuration and `SaveUploadedFile` are left out.
- Amounts are modelled as follows:
  - parsed amounts are exact naturals, and `ParseFloat` is modelled only for its overflow bound;
  - rounding of values above 2^53 is not modelled;
  - ledger amounts are unrounded reals;
  - the upload total is the exact natural sum, without float64 rounding.
- Statement.ParseAmount: amount tokens hold only digits and commas, so the signs, exponents and hexadecimal forms that `ParseFloat` also accepts never arise.
- `time.Now()` is the `clock` parameter, a year and month. Time zones and the time of day are not modelled. Go's zero `time.Time` in an update request is the date 1-01-01.
- `Atoi` is modelled only on the digit-only fields the date layouts admit. Signs and overflow cannot occur there.
- The round-trip lemmas (`BankRoundTrips.*`) require a description that is single-space separated and cannot end where an amount token begins (`PlainDescription`). Other descriptions are covered by `LinePattern.LeftmostFirst`, not by a closed-form reading.
- BankRoundTrips.FubonMonthDayRoundTrip: requires the description to contain no `/`. Otherwise the ROC pattern can match inside the description, and then the `MM/DD` fallback is never tried (fubon.go:53-78).
- The literal test headers of the auth tests (`InvalidFormat`, `Basic ...`, `Bearer` alone) are covered by the general `Auth.WrongSchemeRejected`, `Auth.ExtraSpaceRejected` and `Auth.BearerFormatMeaning`, not restated one by one.
- Validation.IsValidPassword: its contract gives only bounds on the character count. The exact rule is the UTF-16 length, stated by `Validation.PasswordBmp` and `Validation.ThreeAstralCharactersPass`.
- `isValidDate` depends on JavaScript's `Date` parsing and is left out. So are the statistics queries of the transaction repository, pagination and SQL building.
