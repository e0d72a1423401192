/** The authentication middleware: the `Authorization` header must be
    `Bearer <token>`, the token must pass the validator, and then the
    claims' user id and e-mail are put into the request context before the
    handler runs. The JWT validator is a parameter. */
module Auth {
  import opened Wrappers
  import opened Text

  datatype Claims = Claims(userId: nat, email: string)

  /** The two request-context entries the middleware writes. */
  datatype Context = Context(userId: Option<nat>, userEmail: Option<string>)

  const HeaderRequired: string := "authorization header required"
  const InvalidFormat: string := "invalid authorization header format"
  const InvalidToken: string := "invalid or expired token"

  const Bearer: string := "Bearer"

  /** The format test: splitting on single spaces gives exactly two parts,
      the first of them `Bearer`. */
  predicate BearerFormat(header: string) {
    var parts := Split(header, ' ');
    |parts| == 2 && parts[0] == Bearer
  }

  /** `AuthMiddleware`: the context the handler runs with, or the message
      of the 401 answer, in which case the handler does not run. */
  function Authenticate(ctx: Context, header: string, validate: string -> Result<Claims>): (r: Result<Context>)
    ensures header == "" ==> r == Err(HeaderRequired)
    ensures header != "" && !BearerFormat(header) ==> r == Err(InvalidFormat)
    ensures header != "" && BearerFormat(header) && validate(Split(header, ' ')[1]).Err? ==> r == Err(InvalidToken)
    ensures r.Ok? <==> BearerFormat(header) && validate(Split(header, ' ')[1]).Ok?
    ensures r.Ok? ==>
      var claims := validate(Split(header, ' ')[1]).value;
      r.value == Context(Some(claims.userId), Some(claims.email))
  {
    if header == "" then Err(HeaderRequired)
    else
      var parts := Split(header, ' ');
      if |parts| != 2 || parts[0] != Bearer then Err(InvalidFormat)
      else
        match validate(parts[1])
        case Err(_) => Err(InvalidToken)
        case Ok(claims) => Ok(ctx.(userId := Some(claims.userId), userEmail := Some(claims.email)))
  }

  /** The format test in plain terms: the header is `Bearer`, one space, and
      a token with no space in it (possibly empty); the token is the second
      part. */
  lemma BearerFormatMeaning(header: string)
    ensures BearerFormat(header) <==> |header| >= 7 && header[..7] == Bearer + " " && ' ' !in header[7..]
    ensures BearerFormat(header) ==> Split(header, ' ')[1] == header[7..]
  {
    SchemeFormat(header, Bearer);
  }

  /** The same for any space-free scheme word. */
  lemma SchemeFormat(header: string, word: string)
    requires ' ' !in word
    ensures var parts := Split(header, ' ');
      (|parts| == 2 && parts[0] == word) <==>
        |header| > |word| && header[..|word| + 1] == word + " " && ' ' !in header[|word| + 1..]
    ensures var parts := Split(header, ' ');
      |parts| == 2 && parts[0] == word ==> parts[1] == header[|word| + 1..]
  {
    var parts := Split(header, ' ');
    if |header| > |word| && header[..|word| + 1] == word + " " && ' ' !in header[|word| + 1..] {
      assert header == word + [' '] + header[|word| + 1..];
      SchemeSplit(word, header[|word| + 1..]);
    }
    if |parts| == 2 && parts[0] == word {
      assert Join(parts, ' ') == parts[0] + [' '] + Join(parts[1..], ' ');
      assert parts[1..] == [parts[1]];
      assert header == word + [' '] + parts[1];
    }
  }

  /** The parts of `<word> <token>` for a word and a token without spaces. */
  lemma SchemeSplit(word: string, token: string)
    requires ' ' !in word && ' ' !in token
    ensures Split(word + [' '] + token, ' ') == [word, token]
  {
    SplitAppend(word, ' ', token);
    SplitNoSeparator(word, ' ');
    SplitNoSeparator(token, ' ');
  }

  /** A well-formed header hands exactly its token to the validator. */
  lemma AuthenticateToken(ctx: Context, token: string, validate: string -> Result<Claims>)
    requires ' ' !in token
    ensures var r := Authenticate(ctx, Bearer + " " + token, validate);
      && (validate(token).Err? ==> r == Err(InvalidToken))
      && (validate(token).Ok? ==> r == Ok(Context(Some(validate(token).value.userId), Some(validate(token).value.email))))
  {
    SchemeSplit(Bearer, token);
  }

  /** `Bearer ` with nothing after it passes the format test and sends the
      empty token to the validator. */
  lemma EmptyTokenIsValidated(ctx: Context, validate: string -> Result<Claims>)
    requires validate("").Err?
    ensures Authenticate(ctx, "Bearer ", validate) == Err(InvalidToken)
  {
    AuthenticateToken(ctx, "", validate);
    assert Bearer + " " + "" == "Bearer ";
  }

  /** A header is rejected for its format when it does not start with
      `Bearer` and one space. */
  lemma WrongSchemeRejected(ctx: Context, header: string, validate: string -> Result<Claims>)
    requires header != ""
    requires |header| < 7 || header[..7] != Bearer + " "
    ensures Authenticate(ctx, header, validate) == Err(InvalidFormat)
  {
    BearerFormatMeaning(header);
  }

  /** A second space anywhere after the scheme makes the format invalid. */
  lemma ExtraSpaceRejected(ctx: Context, token: string, i: nat, validate: string -> Result<Claims>)
    requires i < |token| && token[i] == ' '
    ensures Authenticate(ctx, Bearer + " " + token, validate) == Err(InvalidFormat)
  {
    var header := Bearer + " " + token;
    assert header[7..] == token;
    BearerFormatMeaning(header);
  }

  /** `GetUserID`: the stored user id, or 0 and false when none is stored. */
  function GetUserID(ctx: Context): (r: (nat, bool))
    ensures r.1 <==> ctx.userId.Some?
    ensures r.0 == if ctx.userId.Some? then ctx.userId.value else 0
  {
    match ctx.userId
    case None => (0, false)
    case Some(id) => (id, true)
  }

  /** Behind the middleware, the handler reads the id of the token's claims. */
  lemma AdmittedUserId(ctx: Context, header: string, validate: string -> Result<Claims>)
    requires Authenticate(ctx, header, validate).Ok?
    ensures GetUserID(Authenticate(ctx, header, validate).value) == (validate(Split(header, ' ')[1]).value.userId, true)
  {
  }
}
