/** Filename rules: the translation of a glob pattern into a Go regular
    expression (`globToRegex`, backend/internal/pdf/parser.go) and the meaning
    of that expression under `regexp.MatchString`.

    The translation is modelled as the string rewriting the source performs
    (`regexp.QuoteMeta`, then two `strings.ReplaceAll`, then the anchors).
    The produced text is read back with a reader for the small regular
    expression fragment it lives in, and that fragment gets Go's semantics
    (`.` never matches a newline, `^`/`$` are the text boundaries). The main
    theorem connects the whole pipeline to a direct definition of glob
    matching. */
module Glob {
  import opened Wrappers

  // ---------------------------------------------------------------------
  // The rewriting done by globToRegex

  /** The characters `regexp.QuoteMeta` escapes. */
  predicate IsRegexMeta(c: char) {
    c in "\\.+*?()|[]{}^$"
  }

  function QuoteMetaChar(c: char): string {
    if IsRegexMeta(c) then ['\\', c] else [c]
  }

  function QuoteMeta(s: string): string {
    if |s| == 0 then "" else QuoteMetaChar(s[0]) + QuoteMeta(s[1..])
  }

  /** `strings.ReplaceAll` with a non-empty needle: leftmost, non-overlapping. */
  function ReplaceAll(s: string, needle: string, repl: string): string
    requires |needle| > 0
    decreases |s|
  {
    if |s| == 0 then ""
    else if |needle| <= |s| && s[..|needle|] == needle then repl + ReplaceAll(s[|needle|..], needle, repl)
    else [s[0]] + ReplaceAll(s[1..], needle, repl)
  }

  function GlobToRegex(glob: string): string {
    var quoted := QuoteMeta(glob);
    var stars := ReplaceAll(quoted, "\\*", ".*");
    "^" + ReplaceAll(stars, "\\?", ".") + "$"
  }

  // ---------------------------------------------------------------------
  // The regular-expression fragment and its Go semantics

  datatype Atom =
    | Lit(c: char)   // a literal character (possibly escaped)
    | AnyChar        // `.`
    | AnyRun         // `.*`
    | BeginText      // `^`
    | EndText        // `$`

  /** Reads the fragment: escaped metacharacters, `.`, `.*`, `^`, `$` and
      plain characters. Anything else is outside the fragment (`None`). */
  function ReadRegex(r: string): Option<seq<Atom>>
    decreases |r|
  {
    if |r| == 0 then Some([])
    else if r[0] == '\\' then
      if |r| >= 2 && IsRegexMeta(r[1]) then
        match ReadRegex(r[2..])
        case Some(rest) => Some([Lit(r[1])] + rest)
        case None => None
      else None
    else if r[0] == '.' then
      if |r| >= 2 && r[1] == '*' then
        match ReadRegex(r[2..])
        case Some(rest) => Some([AnyRun] + rest)
        case None => None
      else
        match ReadRegex(r[1..])
        case Some(rest) => Some([AnyChar] + rest)
        case None => None
    else if IsRegexMeta(r[0]) && r[0] != '^' && r[0] != '$' then None
    else
      match ReadRegex(r[1..])
      case Some(rest) => Some([PlainAtom(r[0])] + rest)
      case None => None
  }

  function PlainAtom(c: char): Atom {
    if c == '^' then BeginText else if c == '$' then EndText else Lit(c)
  }

  /** The atoms match some stretch of `s` that starts at position `i`. */
  predicate MatchAt(atoms: seq<Atom>, s: string, i: nat)
    requires i <= |s|
    decreases |atoms|, |s| - i
  {
    if |atoms| == 0 then true
    else match atoms[0]
      case Lit(c) => i < |s| && s[i] == c && MatchAt(atoms[1..], s, i + 1)
      case AnyChar => i < |s| && s[i] != '\n' && MatchAt(atoms[1..], s, i + 1)
      case AnyRun =>
        MatchAt(atoms[1..], s, i) || (i < |s| && s[i] != '\n' && MatchAt(atoms, s, i + 1))
      case BeginText => i == 0 && MatchAt(atoms[1..], s, i)
      case EndText => i == |s| && MatchAt(atoms[1..], s, i)
  }

  /** `regexp.MatchString`: an unanchored search for a match anywhere. */
  predicate MatchString(pattern: string, s: string) {
    match ReadRegex(pattern)
    case Some(atoms) => exists i: nat | i <= |s| :: MatchAt(atoms, s, i)
    case None => false
  }

  // ---------------------------------------------------------------------
  // Globs, directly

  predicate NoNewline(s: string) {
    '\n' !in s
  }

  /** What a glob means: `*` is any run of characters (none included), `?`
      is exactly one, everything else stands for itself, and the whole name
      must be covered. The wildcards inherit `.`'s refusal of a newline. */
  predicate GlobMatches(glob: string, name: string)
    decreases |glob|
  {
    if |glob| == 0 then |name| == 0
    else if glob[0] == '*' then
      exists k: nat | k <= |name| :: NoNewline(name[..k]) && GlobMatches(glob[1..], name[k..])
    else if glob[0] == '?' then
      |name| > 0 && name[0] != '\n' && GlobMatches(glob[1..], name[1..])
    else
      |name| > 0 && name[0] == glob[0] && GlobMatches(glob[1..], name[1..])
  }

  function GlobAtom(c: char): Atom {
    if c == '*' then AnyRun else if c == '?' then AnyChar else Lit(c)
  }

  function GlobAtoms(glob: string): (atoms: seq<Atom>)
    ensures |atoms| == |glob|
  {
    if |glob| == 0 then [] else [GlobAtom(glob[0])] + GlobAtoms(glob[1..])
  }

  // ---------------------------------------------------------------------
  // The rewriting, one glob character at a time

  /** The text one glob character turns into after both replacements. */
  function Unit(c: char): string {
    if c == '*' then ".*" else if c == '?' then "." else QuoteMetaChar(c)
  }

  function Encode(glob: string): string {
    if |glob| == 0 then "" else Unit(glob[0]) + Encode(glob[1..])
  }

  /** The text after the first replacement only. */
  function StarUnit(c: char): string {
    if c == '*' then ".*" else QuoteMetaChar(c)
  }

  function StarEncode(glob: string): string {
    if |glob| == 0 then "" else StarUnit(glob[0]) + StarEncode(glob[1..])
  }

  predicate StartsWithChar(s: string, c: char) {
    |s| > 0 && s[0] == c
  }

  lemma ReplaceAllHead(c: char, rest: string, needle: string, repl: string)
    requires |needle| > 0 && c != needle[0]
    ensures ReplaceAll([c] + rest, needle, repl) == [c] + ReplaceAll(rest, needle, repl)
  {
    assert ([c] + rest)[1..] == rest;
  }

  lemma ReplaceAllHit(rest: string, needle: string, repl: string)
    requires |needle| > 0
    ensures ReplaceAll(needle + rest, needle, repl) == repl + ReplaceAll(rest, needle, repl)
  {
    assert (needle + rest)[..|needle|] == needle;
    assert (needle + rest)[|needle|..] == rest;
  }

  lemma ReplaceAllEscape(c: char, rest: string, needle: string, repl: string)
    requires |needle| == 2 && needle[0] == '\\' && c != needle[1]
    ensures ReplaceAll(['\\', c] + rest, needle, repl) == ['\\'] + ReplaceAll([c] + rest, needle, repl)
  {
    var s := ['\\', c] + rest;
    assert s[..2] != needle by { assert s[1] == c; }
    assert s[1..] == [c] + rest;
  }

  lemma QuoteMetaStart(glob: string)
    ensures !StartsWithChar(QuoteMeta(glob), '*') && !StartsWithChar(QuoteMeta(glob), '?')
  {
  }

  lemma StarEncodeStart(glob: string)
    ensures !StartsWithChar(StarEncode(glob), '?') && !StartsWithChar(StarEncode(glob), '*')
  {
  }

  lemma EncodeStart(glob: string)
    ensures !StartsWithChar(Encode(glob) + "$", '*')
  {
  }

  /** A lone backslash not followed by the needle's second character is kept. */
  lemma ReplaceAllBackslash(rest: string, needle: string, repl: string)
    requires |needle| == 2 && needle[0] == '\\' && !StartsWithChar(rest, needle[1])
    ensures ReplaceAll(['\\'] + rest, needle, repl) == ['\\'] + ReplaceAll(rest, needle, repl)
  {
    var s := ['\\'] + rest;
    if |rest| > 0 {
      assert s[..2] != needle by { assert s[1] == rest[0]; }
    }
    assert s[1..] == rest;
  }

  lemma FirstUnit(c: char, rest: string)
    requires !StartsWithChar(rest, '*')
    ensures ReplaceAll(QuoteMetaChar(c) + rest, "\\*", ".*") == StarUnit(c) + ReplaceAll(rest, "\\*", ".*")
  {
    if c == '*' {
      ReplaceAllHit(rest, "\\*", ".*");
    } else if IsRegexMeta(c) {
      FirstUnitMeta(c, rest);
    } else {
      ReplaceAllHead(c, rest, "\\*", ".*");
    }
  }

  /** A quoted metacharacter other than `*` passes the first replacement. */
  lemma FirstUnitMeta(c: char, rest: string)
    requires c != '*' && !StartsWithChar(rest, '*')
    ensures ReplaceAll(['\\', c] + rest, "\\*", ".*") == ['\\', c] + ReplaceAll(rest, "\\*", ".*")
  {
    ReplaceAllEscape(c, rest, "\\*", ".*");
    if c == '\\' {
      ReplaceAllBackslash(rest, "\\*", ".*");
    } else {
      ReplaceAllHead(c, rest, "\\*", ".*");
    }
    assert ['\\', c] + rest == ['\\'] + ([c] + rest);
  }

  /** The `\*` replacement acts on each quoted character separately. */
  lemma {:induction false} FirstReplacement(glob: string)
    ensures ReplaceAll(QuoteMeta(glob), "\\*", ".*") == StarEncode(glob)
    decreases |glob|
  {
    if |glob| > 0 {
      FirstReplacement(glob[1..]);
      QuoteMetaStart(glob[1..]);
      FirstUnit(glob[0], QuoteMeta(glob[1..]));
    }
  }

  lemma SecondUnitStar(rest: string)
    requires !StartsWithChar(rest, '?')
    ensures ReplaceAll(".*" + rest, "\\?", ".") == ".*" + ReplaceAll(rest, "\\?", ".")
  {
    assert ".*" + rest == ['.'] + (['*'] + rest);
    ReplaceAllHead('.', ['*'] + rest, "\\?", ".");
    ReplaceAllHead('*', rest, "\\?", ".");
  }

  lemma SecondUnitMeta(c: char, rest: string)
    requires IsRegexMeta(c) && c != '*' && c != '?'
    requires !StartsWithChar(rest, '?')
    ensures ReplaceAll(['\\', c] + rest, "\\?", ".") == ['\\', c] + ReplaceAll(rest, "\\?", ".")
  {
    ReplaceAllEscape(c, rest, "\\?", ".");
    if c == '\\' {
      ReplaceAllBackslash(rest, "\\?", ".");
    } else {
      ReplaceAllHead(c, rest, "\\?", ".");
    }
  }

  lemma SecondUnit(c: char, rest: string)
    requires !StartsWithChar(rest, '?')
    ensures ReplaceAll(StarUnit(c) + rest, "\\?", ".") == Unit(c) + ReplaceAll(rest, "\\?", ".")
  {
    if c == '*' {
      SecondUnitStar(rest);
    } else if c == '?' {
      ReplaceAllHit(rest, "\\?", ".");
    } else if IsRegexMeta(c) {
      SecondUnitMeta(c, rest);
    } else {
      ReplaceAllHead(c, rest, "\\?", ".");
    }
  }

  /** The `\?` replacement acts on each unit of the first pass separately. */
  lemma {:induction false} SecondReplacement(glob: string)
    ensures ReplaceAll(StarEncode(glob), "\\?", ".") == Encode(glob)
    decreases |glob|
  {
    if |glob| > 0 {
      SecondReplacement(glob[1..]);
      StarEncodeStart(glob[1..]);
      SecondUnit(glob[0], StarEncode(glob[1..]));
    }
  }

  /** Reading the encoded glob back yields one atom per glob character. */
  lemma {:induction false} ReadEncode(glob: string)
    ensures ReadRegex(Encode(glob) + "$") == Some(GlobAtoms(glob) + [EndText])
    decreases |glob|
  {
    if |glob| == 0 {
      assert Encode(glob) + "$" == "$";
      var d := "$";
      assert d[0] == '$' && d[0] != '\\' && d[0] != '.';
      assert d[1..] == [];
      assert ReadRegex(d[1..]) == Some([]);
      assert ReadRegex(d) == (match ReadRegex(d[1..])
                              case Some(rest) => Some([PlainAtom(d[0])] + rest)
                              case None => None);
      assert [EndText] + [] == [EndText];
      assert GlobAtoms(glob) + [EndText] == [EndText];
    } else {
      var c := glob[0];
      var tail := Encode(glob[1..]) + "$";
      ReadEncode(glob[1..]);
      EncodeStart(glob[1..]);
      var r := Encode(glob) + "$";
      assert r == Unit(c) + tail;
      assert GlobAtoms(glob) + [EndText] == [GlobAtom(c)] + (GlobAtoms(glob[1..]) + [EndText]);
      if c == '*' {
        assert r[2..] == tail;
      } else if c == '?' {
        assert r[1..] == tail;
      } else if IsRegexMeta(c) {
        assert r[2..] == tail;
      } else {
        assert r[1..] == tail;
      }
    }
  }

  /** The regular expression built for a glob is, read back, the glob's own
      atoms between the text anchors: every non-wildcard character,
      metacharacters included, became a literal. */
  lemma GlobToRegexReads(glob: string)
    ensures ReadRegex(GlobToRegex(glob)) == Some([BeginText] + GlobAtoms(glob) + [EndText])
  {
    FirstReplacement(glob);
    SecondReplacement(glob);
    ReadEncode(glob);
    var r := GlobToRegex(glob);
    assert r == "^" + (Encode(glob) + "$");
    assert r[1..] == Encode(glob) + "$";
    assert [BeginText] + GlobAtoms(glob) + [EndText] == [BeginText] + (GlobAtoms(glob) + [EndText]);
  }

  // ---------------------------------------------------------------------
  // Semantics of the glob's atoms

  /** A run absorbed by `.*` ends anywhere up to the first newline. */
  lemma {:induction false} AnyRunMatch(atoms: seq<Atom>, s: string, i: nat)
    requires i <= |s|
    ensures MatchAt([AnyRun] + atoms, s, i) <==>
      exists k: nat | i <= k <= |s| :: NoNewline(s[i..k]) && MatchAt(atoms, s, k)
    decreases |s| - i
  {
    var a := [AnyRun] + atoms;
    assert a[1..] == atoms;
    if i < |s| {
      AnyRunMatch(atoms, s, i + 1);
      if MatchAt(a, s, i) {
        if !MatchAt(atoms, s, i) {
          var k: nat :| i + 1 <= k <= |s| && NoNewline(s[i + 1..k]) && MatchAt(atoms, s, k);
          assert s[i..k] == [s[i]] + s[i + 1..k];
        } else {
          assert NoNewline(s[i..i]);
        }
      }
      if exists k: nat | i <= k <= |s| :: NoNewline(s[i..k]) && MatchAt(atoms, s, k) {
        var k: nat :| i <= k <= |s| && NoNewline(s[i..k]) && MatchAt(atoms, s, k);
        if k > i {
          assert s[i] == s[i..k][0];
          assert s[i + 1..k] == s[i..k][1..];
        }
      }
    } else {
      assert NoNewline(s[i..i]);
    }
  }

  /** The glob's atoms, followed by the end anchor, match from position `i`
      exactly when the glob matches the rest of the name. */
  lemma {:induction false} GlobAtomsMeaning(glob: string, s: string, i: nat)
    requires i <= |s|
    ensures MatchAt(GlobAtoms(glob) + [EndText], s, i) <==> GlobMatches(glob, s[i..])
    decreases |glob|, |s| - i
  {
    var atoms := GlobAtoms(glob) + [EndText];
    if |glob| == 0 {
      assert atoms == [EndText];
      assert atoms[1..] == [];
    } else {
      var c := glob[0];
      var rest := GlobAtoms(glob[1..]) + [EndText];
      assert atoms == [GlobAtom(c)] + rest;
      assert atoms[1..] == rest;
      if c == '*' {
        AnyRunMatch(rest, s, i);
        forall k: nat | i <= k <= |s|
          ensures MatchAt(rest, s, k) <==> GlobMatches(glob[1..], s[k..])
        {
          GlobAtomsMeaning(glob[1..], s, k);
        }
        StarAtomMeaning(glob, rest, s, i);
      } else {
        if i < |s| {
          GlobAtomsMeaning(glob[1..], s, i + 1);
          assert s[i..][1..] == s[i + 1..];
        }
      }
    }
  }

  /** A leading `*` means the same in both readings once the rest does at
      every later position. */
  lemma StarAtomMeaning(glob: string, rest: seq<Atom>, s: string, i: nat)
    requires i <= |s| && |glob| > 0 && glob[0] == '*'
    requires forall k: nat | i <= k <= |s| :: MatchAt(rest, s, k) <==> GlobMatches(glob[1..], s[k..])
    ensures MatchAt([AnyRun] + rest, s, i) <==> GlobMatches(glob, s[i..])
  {
    if MatchAt([AnyRun] + rest, s, i) {
      StarAtomSound(glob, rest, s, i);
    }
    if GlobMatches(glob, s[i..]) {
      StarAtomComplete(glob, rest, s, i);
    }
  }

  lemma StarAtomSound(glob: string, rest: seq<Atom>, s: string, i: nat)
    requires i <= |s| && |glob| > 0 && glob[0] == '*'
    requires forall k: nat | i <= k <= |s| :: MatchAt(rest, s, k) ==> GlobMatches(glob[1..], s[k..])
    requires MatchAt([AnyRun] + rest, s, i)
    ensures GlobMatches(glob, s[i..])
  {
    AnyRunMatch(rest, s, i);
    var k: nat :| i <= k <= |s| && NoNewline(s[i..k]) && MatchAt(rest, s, k);
    StarRunToGlob(glob, rest, s, i, k);
  }

  lemma StarAtomComplete(glob: string, rest: seq<Atom>, s: string, i: nat)
    requires i <= |s| && |glob| > 0 && glob[0] == '*'
    requires forall k: nat | i <= k <= |s| :: GlobMatches(glob[1..], s[k..]) ==> MatchAt(rest, s, k)
    requires GlobMatches(glob, s[i..])
    ensures MatchAt([AnyRun] + rest, s, i)
  {
    var t := s[i..];
    var j: nat :| j <= |t| && NoNewline(t[..j]) && GlobMatches(glob[1..], t[j..]);
    assert t[j..] == s[i + j..];
    assert MatchAt(rest, s, i + j);
    GlobToStarRun(glob, rest, s, i, j);
    AnyRunMatch(rest, s, i);
  }

  lemma StarRunToGlob(glob: string, rest: seq<Atom>, s: string, i: nat, k: nat)
    requires i <= k <= |s| && |glob| > 0 && glob[0] == '*'
    requires NoNewline(s[i..k]) && GlobMatches(glob[1..], s[k..])
    ensures GlobMatches(glob, s[i..])
  {
    var t := s[i..];
    assert t[..k - i] == s[i..k];
    assert t[k - i..] == s[k..];
  }

  lemma GlobToStarRun(glob: string, rest: seq<Atom>, s: string, i: nat, j: nat)
    requires i <= |s| && j <= |s| - i
    requires NoNewline(s[i..][..j]) && MatchAt(rest, s, i + j)
    ensures exists k: nat | i <= k <= |s| :: NoNewline(s[i..k]) && MatchAt(rest, s, k)
  {
    assert s[i..][..j] == s[i..i + j];
  }

  /** The main theorem: `regexp.MatchString(globToRegex(glob), name)` holds
      exactly when the glob matches the whole name. */
  lemma GlobRegexMeaning(glob: string, name: string)
    ensures MatchString(GlobToRegex(glob), name) <==> GlobMatches(glob, name)
  {
    GlobToRegexReads(glob);
    var atoms := [BeginText] + GlobAtoms(glob) + [EndText];
    assert atoms[1..] == GlobAtoms(glob) + [EndText];
    GlobAtomsMeaning(glob, name, 0);
    assert name[0..] == name;
    if MatchString(GlobToRegex(glob), name) {
      var i: nat :| i <= |name| && MatchAt(atoms, name, i);
    }
    if GlobMatches(glob, name) {
      assert MatchAt(atoms, name, 0);
    }
  }

  /** The translation that `GetPasswordsForFile` applies to a rule. */
  predicate RuleMatches(nameRule: string, filename: string) {
    MatchString(GlobToRegex(nameRule), filename)
  }

  // ---------------------------------------------------------------------
  // Consequences

  /** A pattern without wildcards matches exactly the name it spells. */
  lemma {:induction false} LiteralGlob(glob: string, name: string)
    requires '*' !in glob && '?' !in glob
    ensures GlobMatches(glob, name) <==> name == glob
    decreases |glob|
  {
    if |glob| > 0 {
      assert glob[0] != '*' && glob[0] != '?';
      LiteralGlob(glob[1..], if |name| > 0 then name[1..] else name);
      if |name| > 0 {
        assert name == [name[0]] + name[1..];
        assert glob == [glob[0]] + glob[1..];
      }
    }
  }

  /** `lit*` matches the names that start with `lit` and have no newline after it. */
  lemma {:induction false} PrefixGlob(lit: string, name: string)
    requires '*' !in lit && '?' !in lit
    ensures GlobMatches(lit + "*", name) <==>
      (|lit| <= |name| && name[..|lit|] == lit && NoNewline(name[|lit|..]))
    decreases |lit|
  {
    if |lit| == 0 {
      assert lit + "*" == "*";
      StarGlob(name);
    } else {
      var g := lit + "*";
      assert g[0] == lit[0];
      assert g[1..] == lit[1..] + "*";
      if |name| > 0 {
        PrefixGlob(lit[1..], name[1..]);
        PrefixStep(lit, name);
      }
    }
  }

  /** `*` alone matches the names without a newline. */
  lemma StarGlob(name: string)
    ensures GlobMatches("*", name) <==> NoNewline(name)
  {
    assert "*"[1..] == "";
    if GlobMatches("*", name) {
      var k: nat :| k <= |name| && NoNewline(name[..k]) && GlobMatches("", name[k..]);
      assert name[..k] == name;
    }
    if NoNewline(name) {
      assert name[..|name|] == name;
      assert GlobMatches("", name[|name|..]);
    }
  }

  /** The prefix condition for `lit` and `name` in terms of their tails. */
  lemma PrefixStep(lit: string, name: string)
    requires |lit| > 0 && |name| > 0
    ensures (|lit| <= |name| && name[..|lit|] == lit && NoNewline(name[|lit|..])) <==>
      (name[0] == lit[0] && |lit[1..]| <= |name[1..]| && name[1..][..|lit[1..]|] == lit[1..] && NoNewline(name[1..][|lit[1..]|..]))
  {
    assert lit == [lit[0]] + lit[1..];
    if |lit| <= |name| {
      assert name[..|lit|] == [name[0]] + name[1..][..|lit| - 1];
      assert name[|lit|..] == name[1..][|lit| - 1..];
    }
  }

  lemma StarExamples()
    ensures GlobMatches("abc*", "abcdef")
    ensures GlobMatches("abc*", "abc")
    ensures !GlobMatches("abc*", "xabc")
  {
    PrefixGlob("abc", "abcdef");
    PrefixGlob("abc", "abc");
    PrefixGlob("abc", "xabc");
    assert "abc" + "*" == "abc*";
  }

  lemma QuestionExamples()
    ensures GlobMatches("a?c", "abc")
    ensures !GlobMatches("a?c", "ac")
    ensures !GlobMatches("a?c", "abbc")
  {
    assert "a?c"[1..] == "?c";
    assert "?c"[1..] == "c";
    assert "abc"[1..] == "bc";
    assert "bc"[1..] == "c";
    assert "ac"[1..] == "c";
    assert "c"[1..] == "";
    assert "abbc"[1..] == "bbc";
    assert "bbc"[1..] == "bc";
    assert GlobMatches("c", "c");
    assert !GlobMatches("c", "");
    assert !GlobMatches("c", "bc");
  }
}
