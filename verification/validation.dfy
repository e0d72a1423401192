/** The frontend's form validators: the e-mail pattern, the minimum password
    length and the positive-number test, with JavaScript's string and number
    semantics made explicit. */
module Validation {

  // ---------------------------------------------------------------------
  // E-mail

  /** JavaScript's `\s`: the WhiteSpace and LineTerminator characters of
      ECMAScript, which include U+FEFF and the Unicode space separators but
      not U+0085. */
  predicate IsJsSpace(c: char) {
    var n := c as int;
    || n == 0x09 || n == 0x0A || n == 0x0B || n == 0x0C || n == 0x0D || n == 0x20
    || n == 0xA0 || n == 0x1680 || (0x2000 <= n <= 0x200A) || n == 0x2028 || n == 0x2029
    || n == 0x202F || n == 0x205F || n == 0x3000 || n == 0xFEFF
  }

  /** A run matched by `[^\s@]+` (apart from being non-empty). */
  predicate PlainRun(s: string) {
    forall k :: 0 <= k < |s| ==> s[k] != '@' && !IsJsSpace(s[k])
  }

  /** `s` splits as `local@name.tld` at the `@` at `at` and the `.` at `dot`,
      each of the three runs non-empty and matched by `[^\s@]+`. */
  predicate EmailSplit(s: string, at: int, dot: int) {
    && 0 < at && at + 1 < dot && dot + 1 < |s|
    && s[at] == '@' && s[dot] == '.'
    && PlainRun(s[..at]) && PlainRun(s[at + 1..dot]) && PlainRun(s[dot + 1..])
  }

  /** The language of `^[^\s@]+@[^\s@]+\.[^\s@]+$`. */
  ghost predicate MatchesEmailPattern(s: string) {
    exists at, dot :: EmailSplit(s, at, dot)
  }

  /** `isValidEmail`, decided by the rule the pattern amounts to: no
      whitespace, exactly one `@` and not first, and a `.` after it that is
      neither right after the `@` nor last. */
  function IsValidEmail(email: string): (r: bool)
    ensures r <==> MatchesEmailPattern(email)
  {
    var r := && (forall k :: 0 <= k < |email| ==> !IsJsSpace(email[k]))
             && exists at :: 0 < at < |email| && email[at] == '@' && OnlyAt(email, at) && DotAfter(email, at);
    EmailRule(email);
    r
  }

  predicate OnlyAt(s: string, at: int) {
    forall k :: 0 <= k < |s| && s[k] == '@' ==> k == at
  }

  predicate DotAfter(s: string, at: int) {
    exists dot :: 0 <= at + 1 < dot < |s| - 1 && s[dot] == '.'
  }

  lemma EmailRule(s: string)
    ensures MatchesEmailPattern(s) <==>
      && (forall k :: 0 <= k < |s| ==> !IsJsSpace(s[k]))
      && exists at :: 0 < at < |s| && s[at] == '@' && OnlyAt(s, at) && DotAfter(s, at)
  {
    if MatchesEmailPattern(s) {
      var at, dot :| EmailSplit(s, at, dot);
      SplitRuns(s, at, dot);
    }
    if (forall k :: 0 <= k < |s| ==> !IsJsSpace(s[k])) && exists at :: 0 < at < |s| && s[at] == '@' && OnlyAt(s, at) && DotAfter(s, at) {
      var at :| 0 < at < |s| && s[at] == '@' && OnlyAt(s, at) && DotAfter(s, at);
      var dot :| at + 1 < dot < |s| - 1 && s[dot] == '.';
      RunsSplit(s, at, dot);
    }
  }

  /** Each character of a matching split is in a run or is the `@` or `.`. */
  lemma SplitRuns(s: string, at: int, dot: int)
    requires EmailSplit(s, at, dot)
    ensures forall k :: 0 <= k < |s| ==> !IsJsSpace(s[k])
    ensures OnlyAt(s, at) && DotAfter(s, at)
  {
    forall k | 0 <= k < |s|
      ensures !IsJsSpace(s[k]) && (s[k] == '@' ==> k == at)
    {
      if k < at {
        assert s[k] == s[..at][k];
      } else if at < k < dot {
        assert s[k] == s[at + 1..dot][k - at - 1];
      } else if dot < k {
        assert s[k] == s[dot + 1..][k - dot - 1];
      }
    }
  }

  lemma RunsSplit(s: string, at: int, dot: int)
    requires forall k :: 0 <= k < |s| ==> !IsJsSpace(s[k])
    requires 0 < at && at + 1 < dot < |s| - 1 && s[at] == '@' && s[dot] == '.' && OnlyAt(s, at)
    ensures EmailSplit(s, at, dot)
  {
    var local, name, tld := s[..at], s[at + 1..dot], s[dot + 1..];
    assert forall k :: 0 <= k < |local| ==> local[k] == s[k];
    assert forall k :: 0 <= k < |name| ==> name[k] == s[at + 1 + k];
    assert forall k :: 0 <= k < |tld| ==> tld[k] == s[dot + 1 + k];
  }

  /** The accepted examples. */
  lemma EmailAccepted()
    ensures IsValidEmail("test@example.com")
    ensures IsValidEmail("user.name@domain.co.uk")
  {
    PlainAddressAccepted();
    DottedAddressAccepted();
  }

  lemma PlainAddressAccepted()
    ensures IsValidEmail("test@example.com")
  {
    var s := "test@example.com";
    assert s[..4] == "test" && s[5..12] == "example" && s[13..] == "com";
    assert EmailSplit(s, 4, 12);
  }

  lemma DottedAddressAccepted()
    ensures IsValidEmail("user.name@domain.co.uk")
  {
    var s := "user.name@domain.co.uk";
    assert s[..9] == "user.name" && s[10..16] == "domain" && s[17..] == "co.uk";
    assert EmailSplit(s, 9, 16);
  }

  /** Without an `@` nothing matches. */
  lemma NoAtRejected(s: string)
    requires '@' !in s
    ensures !IsValidEmail(s)
  {
  }

  /** An `@` first or last is rejected. */
  lemma AtAtEdgeRejected(s: string)
    requires |s| > 0 && (s[0] == '@' || s[|s| - 1] == '@')
    ensures !IsValidEmail(s)
  {
  }

  /** A domain without a dot is rejected. */
  lemma DomainWithoutDotRejected(local: string, domain: string)
    requires '.' !in domain
    ensures !IsValidEmail(local + "@" + domain)
  {
    var s := local + "@" + domain;
    if MatchesEmailPattern(s) {
      var at, dot :| EmailSplit(s, at, dot);
      DotInDomain(local, domain, at, dot);
    }
  }

  /** In a matching `local@domain`, the pattern's `.` lies in the domain. */
  lemma DotInDomain(local: string, domain: string, at: int, dot: int)
    requires EmailSplit(local + "@" + domain, at, dot)
    ensures '.' in domain
  {
    var s := local + "@" + domain;
    SplitRuns(s, at, dot);
    assert s[|local|] == '@';
    assert s[dot] == domain[dot - |local| - 1];
  }

  /** The rejected examples. */
  lemma EmailRejected()
    ensures !IsValidEmail("invalid")
    ensures !IsValidEmail("test@")
    ensures !IsValidEmail("@example.com")
    ensures !IsValidEmail("test@example")
  {
    NoAtRejected("invalid");
    AtAtEdgeRejected("test@");
    AtAtEdgeRejected("@example.com");
    DomainWithoutDotRejected("test", "example");
    assert "test" + "@" + "example" == "test@example";
  }

  // ---------------------------------------------------------------------
  // Password

  /** A string's `length` in JavaScript: UTF-16 code units, two for each
      character beyond U+FFFF. */
  function Utf16Length(s: string): (n: nat)
    ensures |s| <= n <= 2 * |s|
  {
    if |s| == 0 then 0 else (if s[0] as int > 0xFFFF then 2 else 1) + Utf16Length(s[1..])
  }

  /** `isValidPassword`: at least six UTF-16 code units. */
  function IsValidPassword(password: string): (r: bool)
    ensures |password| >= 6 ==> r
    ensures |password| < 3 ==> !r
  {
    Utf16Length(password) >= 6
  }

  /** For characters up to U+FFFF, the length is the number of characters. */
  lemma {:induction false} BmpLength(s: string)
    requires forall k :: 0 <= k < |s| ==> s[k] as int <= 0xFFFF
    ensures Utf16Length(s) == |s|
    decreases |s|
  {
    if |s| > 0 {
      assert forall k :: 0 <= k < |s| - 1 ==> s[1..][k] == s[k + 1];
      BmpLength(s[1..]);
    }
  }

  /** Within the Basic Multilingual Plane the rule is six characters. */
  lemma PasswordBmp(password: string)
    requires forall k :: 0 <= k < |password| ==> password[k] as int <= 0xFFFF
    ensures IsValidPassword(password) <==> |password| >= 6
  {
    BmpLength(password);
  }

  /** Three characters beyond U+FFFF are six code units, and pass. */
  lemma ThreeAstralCharactersPass(a: char, b: char, c: char)
    requires a as int > 0xFFFF && b as int > 0xFFFF && c as int > 0xFFFF
    ensures IsValidPassword([a, b, c])
  {
    assert [a, b, c][1..] == [b, c];
    assert [b, c][1..] == [c];
    assert Utf16Length([c]) == 2;
    assert Utf16Length([b, c]) == 4;
  }

  lemma PasswordExamples()
    ensures IsValidPassword("123456") && IsValidPassword("longpassword")
    ensures !IsValidPassword("12345") && !IsValidPassword("abc") && !IsValidPassword("")
  {
    PasswordBmp("12345");
    PasswordBmp("abc");
  }

  // ---------------------------------------------------------------------
  // Positive numbers

  /** A JavaScript number. */
  datatype Number = Finite(value: real) | NaN | Infinity | NegInfinity

  /** JavaScript's unary minus. */
  function Negate(x: Number): Number {
    match x
    case Finite(v) => Finite(-v)
    case NaN => NaN
    case Infinity => NegInfinity
    case NegInfinity => Infinity
  }

  /** `isPositiveNumber`: `value > 0`, which is false for NaN. */
  function IsPositiveNumber(x: Number): (r: bool)
    ensures x.NaN? ==> !r
    ensures x.Finite? ==> (r <==> x.value > 0.0)
  {
    match x
    case Finite(v) => v > 0.0
    case Infinity => true
    case _ => false
  }

  /** Of a number and its negation at most one is positive, and exactly one
      unless the number is zero or NaN. */
  lemma PositiveOrNegated(x: Number)
    ensures !(IsPositiveNumber(x) && IsPositiveNumber(Negate(x)))
    ensures x != Finite(0.0) && !x.NaN? ==> IsPositiveNumber(x) || IsPositiveNumber(Negate(x))
  {
  }

  lemma PositiveExamples()
    ensures IsPositiveNumber(Finite(1.0)) && IsPositiveNumber(Finite(100.5))
    ensures !IsPositiveNumber(Finite(0.0)) && !IsPositiveNumber(Finite(-1.0)) && !IsPositiveNumber(Finite(-100.5))
  {
  }
}
