/** The string primitives the Go and TypeScript sources rely on: character
    classes of the regexp engines, `strings.TrimSpace`, `strings.Split`,
    `strings.Contains`, `strings.ReplaceAll` with a one-character needle, and
    decimal digit strings as read by `strconv.Atoi` / `strconv.ParseFloat`. */
module Text {

  predicate IsDigit(c: char) {
    '0' <= c <= '9'
  }

  /** Go RE2's `\s`, which is ASCII only: `[\t\n\f\r ]` (no vertical tab). */
  predicate IsRegexSpace(c: char) {
    c == ' ' || ('\t' <= c <= '\r' && c != '\U{000B}')
  }

  /** Go's `unicode.IsSpace`, used by `strings.TrimSpace`. Unlike `\s` it
      includes the vertical tab, NEL, NBSP and the Unicode space separators
      such as the ideographic space U+3000. */
  predicate IsUnicodeSpace(c: char) {
    || c == '\t' || c == '\n' || c == '\U{000B}' || c == '\U{000C}' || c == '\r' || c == ' '
    || c == '\U{0085}' || c == '\U{00A0}' || c == '\U{1680}'
    || ('\U{2000}' <= c <= '\U{200A}')
    || c == '\U{2028}' || c == '\U{2029}' || c == '\U{202F}' || c == '\U{205F}'
    || c == '\U{3000}'
  }

  lemma RegexSpaceIsUnicodeSpace(c: char)
    ensures IsRegexSpace(c) ==> IsUnicodeSpace(c)
  {
  }

  ghost predicate AllUnicodeSpace(s: string) {
    forall k :: 0 <= k < |s| ==> IsUnicodeSpace(s[k])
  }

  function TrimLeft(s: string): (r: string)
    ensures |r| <= |s| && r == s[|s| - |r|..]
    ensures AllUnicodeSpace(s[..|s| - |r|])
    ensures r == [] || !IsUnicodeSpace(r[0])
  {
    if |s| > 0 && IsUnicodeSpace(s[0]) then
      var r := TrimLeft(s[1..]);
      TrimLeftStep(s, r);
      r
    else s
  }

  /** Dropping one more leading space keeps `r` a suffix after spaces only. */
  lemma TrimLeftStep(s: string, r: string)
    requires |s| > 0 && IsUnicodeSpace(s[0])
    requires |r| <= |s| - 1 && r == s[1..][|s| - 1 - |r|..] && AllUnicodeSpace(s[1..][..|s| - 1 - |r|])
    ensures r == s[|s| - |r|..] && AllUnicodeSpace(s[..|s| - |r|])
  {
    var n := |s| - |r|;
    assert s[1..][n - 1..] == s[n..];
    forall k | 0 <= k < n
      ensures IsUnicodeSpace(s[..n][k])
    {
      if k > 0 {
        assert s[..n][k] == s[1..][..n - 1][k - 1];
      }
    }
  }

  function TrimRight(s: string): (r: string)
    ensures |r| <= |s| && r == s[..|r|]
    ensures AllUnicodeSpace(s[|r|..])
    ensures r == [] || !IsUnicodeSpace(r[|r| - 1])
  {
    if |s| > 0 && IsUnicodeSpace(s[|s| - 1]) then
      var r := TrimRight(s[..|s| - 1]);
      assert s[|r|..] == s[..|s| - 1][|r|..] + [s[|s| - 1]];
      r
    else s
  }

  /** No white space at either end. */
  predicate Trimmed(s: string) {
    s == [] || (!IsUnicodeSpace(s[0]) && !IsUnicodeSpace(s[|s| - 1]))
  }

  /** `strings.TrimSpace`: drop leading and trailing Unicode white space. */
  function TrimSpace(s: string): (r: string)
    ensures exists a, b :: s == a + r + b && AllUnicodeSpace(a) && AllUnicodeSpace(b)
    ensures Trimmed(r)
  {
    TrimSpaceParts(s);
    TrimRight(TrimLeft(s))
  }

  lemma TrimSpaceParts(s: string)
    ensures var r := TrimRight(TrimLeft(s));
      (exists a, b :: s == a + r + b && AllUnicodeSpace(a) && AllUnicodeSpace(b)) && Trimmed(r)
  {
    var l := TrimLeft(s);
    var r := TrimRight(l);
    TrimmedParts(s, l, r);
    TrimmedPrefix(l, r);
  }

  /** Right-trimming a left-trimmed string leaves it trimmed at both ends. */
  lemma TrimmedPrefix(l: string, r: string)
    requires l == [] || !IsUnicodeSpace(l[0])
    requires |r| <= |l| && r == l[..|r|]
    requires r == [] || !IsUnicodeSpace(r[|r| - 1])
    ensures Trimmed(r)
  {
    if r != [] {
      assert r[0] == l[0];
    }
  }

  /** What `TrimSpace` removes is white space on either side. */
  lemma TrimmedParts(s: string, l: string, r: string)
    requires |l| <= |s| && l == s[|s| - |l|..] && |r| <= |l| && r == l[..|r|]
    requires AllUnicodeSpace(s[..|s| - |l|]) && AllUnicodeSpace(l[|r|..])
    ensures exists a, b :: s == a + r + b && AllUnicodeSpace(a) && AllUnicodeSpace(b)
  {
    SuffixPrefix(s, l, r);
    var a, b := s[..|s| - |l|], l[|r|..];
    assert s == a + r + b && AllUnicodeSpace(a) && AllUnicodeSpace(b);
  }

  /** A prefix `r` of a suffix `l` of `s` splits `s` into three parts. */
  lemma SuffixPrefix(s: string, l: string, r: string)
    requires |l| <= |s| && l == s[|s| - |l|..] && |r| <= |l| && r == l[..|r|]
    ensures s == s[..|s| - |l|] + r + l[|r|..]
  {
    var a, b := s[..|s| - |l|], l[|r|..];
    SplitAt(s, |s| - |l|);
    SplitAt(l, |r|);
    assert s == a + (r + b);
    ConcatAssoc(a, r, b);
  }

  lemma ConcatAssoc<T>(a: seq<T>, b: seq<T>, c: seq<T>)
    ensures a + (b + c) == a + b + c
  {
  }

  lemma SplitAt(s: string, n: nat)
    requires n <= |s|
    ensures s == s[..n] + s[n..]
  {
  }

  /** Trimming only removes characters. */
  lemma TrimSpaceChars(s: string, c: char)
    requires c !in s
    ensures c !in TrimSpace(s)
  {
    var r := TrimSpace(s);
    var a, b :| s == a + r + b && AllUnicodeSpace(a) && AllUnicodeSpace(b);
    forall k | 0 <= k < |r|
      ensures r[k] != c
    {
      assert r[k] == s[|a| + k];
    }
  }

  /** A string that already has no white space at either end is its own trim. */
  lemma {:induction false} TrimSpaceOfTrimmed(s: string)
    requires Trimmed(s)
    ensures TrimSpace(s) == s
  {
    assert TrimLeft(s) == s;
    assert TrimRight(s) == s;
  }

  /** Trimming is idempotent. */
  lemma TrimSpaceIdempotent(s: string)
    ensures TrimSpace(TrimSpace(s)) == TrimSpace(s)
  {
    TrimSpaceOfTrimmed(TrimSpace(s));
  }

  // ---------------------------------------------------------------------
  // strings.Split / strings.Join with a one-character separator

  function Join(parts: seq<string>, sep: char): string
  {
    if |parts| == 0 then ""
    else if |parts| == 1 then parts[0]
    else parts[0] + [sep] + Join(parts[1..], sep)
  }

  /** `strings.Count(s, string(c))`. */
  function CountChar(s: string, c: char): nat {
    if |s| == 0 then 0 else (if s[0] == c then 1 else 0) + CountChar(s[1..], c)
  }

  /** `strings.Split(s, sep)`: the maximal separator-free pieces, always at
      least one (so `Split("", sep) == [""]`), one more than there are
      separators. */
  function Split(s: string, sep: char): (parts: seq<string>)
    ensures |parts| == CountChar(s, sep) + 1
    ensures forall k :: 0 <= k < |parts| ==> sep !in parts[k]
    ensures Join(parts, sep) == s
    decreases |s|
  {
    if |s| == 0 then [""]
    else
      var rest := Split(s[1..], sep);
      if s[0] == sep then
        assert s == [] + [sep] + Join(rest, sep);
        [""] + rest
      else
        var parts := [[s[0]] + rest[0]] + rest[1..];
        assert parts[1..] == rest[1..];
        parts
  }

  /** A separator-free string is a single piece. */
  lemma SplitNoSeparator(s: string, sep: char)
    requires sep !in s
    ensures Split(s, sep) == [s]
  {
    if |s| > 0 {
      SplitNoSeparator(s[1..], sep);
    }
  }

  /** Splitting at a separator splits the pieces: the pieces of `a + sep + b`
      are the pieces of `a` followed by the pieces of `b`. */
  lemma {:induction false} SplitAppend(a: string, sep: char, b: string)
    ensures Split(a + [sep] + b, sep) == Split(a, sep) + Split(b, sep)
    decreases |a|
  {
    var s := a + [sep] + b;
    if |a| == 0 {
      assert s[1..] == b;
    } else {
      assert s[1..] == a[1..] + [sep] + b;
      SplitAppend(a[1..], sep, b);
    }
  }

  /** Joining separator-free pieces and splitting again gives the pieces back. */
  lemma {:induction false} SplitJoin(parts: seq<string>, sep: char)
    requires |parts| >= 1
    requires forall k :: 0 <= k < |parts| ==> sep !in parts[k]
    ensures Split(Join(parts, sep), sep) == parts
    decreases |parts|
  {
    if |parts| == 1 {
      SplitNoSeparator(parts[0], sep);
    } else {
      SplitJoin(parts[1..], sep);
      SplitNoSeparator(parts[0], sep);
      SplitAppend(parts[0], sep, Join(parts[1..], sep));
      assert parts == [parts[0]] + parts[1..];
    }
  }

  /** The last piece of a split is what follows the last separator. */
  lemma {:induction false} JoinLast(parts: seq<string>, sep: char)
    requires |parts| >= 2
    ensures Join(parts, sep) == Join(parts[..|parts| - 1], sep) + [sep] + parts[|parts| - 1]
    decreases |parts|
  {
    if |parts| == 2 {
      assert parts[..1] == [parts[0]];
    } else {
      JoinLast(parts[1..], sep);
      assert parts[1..][..|parts| - 2] == parts[..|parts| - 1][1..];
    }
  }

  /** A string ends with the last piece of its split, right after a
      separator when there is more than one piece. */
  lemma SplitLast(s: string, sep: char)
    ensures var parts := Split(s, sep);
      var last := parts[|parts| - 1];
      && |last| <= |s| && s[|s| - |last|..] == last
      && (|last| < |s| ==> s[|s| - |last| - 1] == sep)
  {
    var parts := Split(s, sep);
    if |parts| >= 2 {
      JoinLast(parts, sep);
    }
  }

  // ---------------------------------------------------------------------
  // strings.Contains

  predicate OccursAt(s: string, key: string, i: nat) {
    i + |key| <= |s| && s[i..i + |key|] == key
  }

  predicate Contains(s: string, key: string) {
    exists i: nat | i <= |s| - |key| :: OccursAt(s, key, i)
  }

  /** A key is found wherever it occurs. */
  lemma ContainsInfix(a: string, key: string, b: string)
    ensures Contains(a + key + b, key)
  {
    var s := a + key + b;
    assert OccursAt(s, key, |a|);
  }

  lemma NotContainsInShorter(s: string, key: string)
    requires |s| < |key|
    ensures !Contains(s, key)
  {
  }

  // ---------------------------------------------------------------------
  // strings.ReplaceAll(s, string(c), "")

  function RemoveChar(s: string, c: char): (r: string)
    ensures c !in r
    ensures |r| <= |s|
  {
    if |s| == 0 then ""
    else if s[0] == c then RemoveChar(s[1..], c)
    else [s[0]] + RemoveChar(s[1..], c)
  }

  /** Every other character is kept, as often as it occurs. */
  lemma {:induction false} RemoveCharKeeps(s: string, c: char)
    ensures forall x :: x != c ==> multiset(RemoveChar(s, c))[x] == multiset(s)[x]
  {
    if |s| > 0 {
      RemoveCharKeeps(s[1..], c);
      assert s == [s[0]] + s[1..];
    }
  }

  lemma {:induction false} RemoveCharAppend(a: string, b: string, c: char)
    ensures RemoveChar(a + b, c) == RemoveChar(a, c) + RemoveChar(b, c)
    decreases |a|
  {
    if |a| > 0 {
      assert (a + b)[0] == a[0];
      assert (a + b)[1..] == a[1..] + b;
      RemoveCharAppend(a[1..], b, c);
      if a[0] == c {
        assert RemoveChar(a + b, c) == RemoveChar(a[1..] + b, c);
      } else {
        assert RemoveChar(a + b, c) == [a[0]] + RemoveChar(a[1..] + b, c);
        assert RemoveChar(a, c) == [a[0]] + RemoveChar(a[1..], c);
      }
    } else {
      assert a + b == b;
    }
  }

  lemma {:induction false} RemoveCharAbsent(s: string, c: char)
    requires c !in s
    ensures RemoveChar(s, c) == s
    decreases |s|
  {
    if |s| > 0 {
      RemoveCharAbsent(s[1..], c);
    }
  }

  lemma {:induction false} RemoveCharOnly(s: string, c: char)
    requires forall k :: 0 <= k < |s| ==> s[k] == c
    ensures RemoveChar(s, c) == ""
    decreases |s|
  {
    if |s| > 0 {
      RemoveCharOnly(s[1..], c);
    }
  }

  // ---------------------------------------------------------------------
  // Decimal digit strings

  predicate AllDigits(s: string) {
    forall k :: 0 <= k < |s| ==> IsDigit(s[k])
  }

  function DigitValue(c: char): nat
    requires IsDigit(c)
  {
    c as int - '0' as int
  }

  function Digit(d: nat): (c: char)
    requires d < 10
    ensures IsDigit(c) && DigitValue(c) == d
  {
    ('0' as int + d) as char
  }

  function Pow10(n: nat): (p: nat)
    ensures p >= 1
  {
    if n == 0 then 1 else 10 * Pow10(n - 1)
  }

  /** The value of a digit string, most significant digit first (what
      `strconv.Atoi` and `strconv.ParseFloat` yield for such a string). */
  function DecimalValue(s: string): (n: nat)
    requires AllDigits(s)
    ensures n < Pow10(|s|)
  {
    if |s| == 0 then 0
    else 10 * DecimalValue(s[..|s| - 1]) + DigitValue(s[|s| - 1])
  }

  lemma {:induction false} DecimalValueAppend(a: string, b: string)
    requires AllDigits(a) && AllDigits(b)
    ensures AllDigits(a + b)
    ensures DecimalValue(a + b) == DecimalValue(a) * Pow10(|b|) + DecimalValue(b)
    decreases |b|
  {
    if |b| > 0 {
      var ab := a + b;
      var b' := b[..|b| - 1];
      var last := DigitValue(b[|b| - 1]);
      assert ab[..|ab| - 1] == a + b';
      assert ab[|ab| - 1] == b[|b| - 1];
      DecimalValueAppend(a, b');
      assert DecimalValue(ab) == 10 * DecimalValue(a + b') + last;
      assert DecimalValue(b) == 10 * DecimalValue(b') + last;
      assert Pow10(|b|) == 10 * Pow10(|b'|);
      ShiftDigit(DecimalValue(a), Pow10(|b'|), DecimalValue(b'), last);
    } else {
      assert a + b == a;
    }
  }

  lemma ShiftDigit(x: int, p: int, y: int, d: int)
    ensures 10 * (x * p + y) + d == x * (10 * p) + (10 * y + d)
  {
  }

  /** `n` written with exactly `w` digits, zero-padded on the left (as a
      statement prints `07` for July or `025` for a three-digit year). */
  function PadDecimal(n: nat, w: nat): (s: string)
    requires n < Pow10(w)
    ensures |s| == w && AllDigits(s)
  {
    if w == 0 then "" else PadDecimal(n / 10, w - 1) + [Digit(n % 10)]
  }

  /** Reading a padded rendering back gives the number. */
  lemma {:induction false} PadDecimalRoundTrip(n: nat, w: nat)
    requires n < Pow10(w)
    ensures DecimalValue(PadDecimal(n, w)) == n
  {
    if w > 0 {
      PadDecimalRoundTrip(n / 10, w - 1);
      var s := PadDecimal(n, w);
      assert s[..|s| - 1] == PadDecimal(n / 10, w - 1);
    }
  }

  /** The shortest decimal rendering of a natural number. */
  function ShowDecimal(n: nat): (s: string)
    ensures |s| >= 1 && AllDigits(s)
  {
    if n < 10 then [Digit(n)] else ShowDecimal(n / 10) + [Digit(n % 10)]
  }

  /** Reading back a rendered number gives the number. */
  lemma {:induction false} DecimalRoundTrip(n: nat)
    ensures DecimalValue(ShowDecimal(n)) == n
  {
    if n >= 10 {
      DecimalRoundTrip(n / 10);
      var s := ShowDecimal(n);
      assert s[..|s| - 1] == ShowDecimal(n / 10);
    }
  }
}
