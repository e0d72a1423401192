/** The statement-line regular expression shared by the three bank parsers,
    `(DATE)\s+(.+?)\s+([\d,]+)`, where DATE is an alternation of fixed digit
    layouts (`\d{2}/\d{2}`, `\d{4}/\d{2}/\d{2}`, `\d{3}/\d{2}/\d{2}`), under
    Go's `FindStringSubmatch`: unanchored, at most one match, leftmost start,
    and among the matches at that start the one a backtracking matcher tries
    first (earlier alternative, longer first `\s+`, shorter lazy `.+?`,
    longer second `\s+`, longer `[\d,]+`).

    `FindStringSubmatch` below is a direct search. `IsMatch` says what any
    match of the expression is, `PreferredOver` is the backtracking priority,
    and `LeftmostFirst` proves the search returns the most preferred match
    and finds one whenever one exists. */
module LinePattern {
  import opened Wrappers
  import opened Text

  /** A date layout: `d` is a `\d` slot, every other character is literal. */
  type Layout = string

  const MonthDay: Layout := "dd/dd"
  const YearMonthDay: Layout := "dddd/dd/dd"
  const RocYearMonthDay: Layout := "ddd/dd/dd"

  predicate SlotMatches(slot: char, c: char) {
    if slot == 'd' then IsDigit(c) else c == slot
  }

  predicate DateTokenAt(s: string, p: nat, layout: Layout) {
    p + |layout| <= |s| && forall k {:trigger layout[k]} | 0 <= k < |layout| :: SlotMatches(layout[k], s[p + k])
  }

  /** `[\d,]` */
  predicate IsAmountChar(c: char) {
    IsDigit(c) || c == ','
  }

  // ---------------------------------------------------------------------
  // Maximal runs

  ghost predicate AllSpace(s: string, a: nat, b: nat)
    requires a <= b <= |s|
  {
    forall k {:trigger IsRegexSpace(s[k])} :: a <= k < b ==> IsRegexSpace(s[k])
  }

  ghost predicate AllAmount(s: string, a: nat, b: nat)
    requires a <= b <= |s|
  {
    forall k {:trigger IsAmountChar(s[k])} :: a <= k < b ==> IsAmountChar(s[k])
  }

  predicate IsNewline(c: char) {
    c == '\n'
  }

  ghost predicate NoNewlineIn(s: string, a: nat, b: nat)
    requires a <= b <= |s|
  {
    forall k {:trigger IsNewline(s[k])} :: a <= k < b ==> !IsNewline(s[k])
  }

  /** Length of the run of `\s` characters starting at `i`. */
  function SpaceRun(s: string, i: nat): (w: nat)
    requires i <= |s|
    ensures i + w <= |s|
    decreases |s| - i
  {
    if i < |s| && IsRegexSpace(s[i]) then 1 + SpaceRun(s, i + 1) else 0
  }

  /** `SpaceRun` measures the maximal run: all spaces, then a non-space or
      the end of the text. */
  lemma {:induction false} SpaceRunSpec(s: string, i: nat)
    requires i <= |s|
    ensures AllSpace(s, i, i + SpaceRun(s, i))
    ensures i + SpaceRun(s, i) == |s| || !IsRegexSpace(s[i + SpaceRun(s, i)])
    decreases |s| - i
  {
    if i < |s| && IsRegexSpace(s[i]) {
      SpaceRunSpec(s, i + 1);
    }
  }

  /** Length of the run of `[\d,]` characters starting at `i`. */
  function AmountRun(s: string, i: nat): (w: nat)
    requires i <= |s|
    ensures i + w <= |s|
    decreases |s| - i
  {
    if i < |s| && IsAmountChar(s[i]) then 1 + AmountRun(s, i + 1) else 0
  }

  /** `AmountRun` measures the maximal run of digits and commas. */
  lemma {:induction false} AmountRunSpec(s: string, i: nat)
    requires i <= |s|
    ensures AllAmount(s, i, i + AmountRun(s, i))
    ensures i + AmountRun(s, i) == |s| || !IsAmountChar(s[i + AmountRun(s, i)])
    decreases |s| - i
  {
    if i < |s| && IsAmountChar(s[i]) {
      AmountRunSpec(s, i + 1);
    }
  }

  lemma {:induction false} SpaceRunBound(s: string, a: nat, b: nat)
    requires a <= b <= |s| && AllSpace(s, a, b)
    ensures b <= a + SpaceRun(s, a)
    decreases b - a
  {
    if a < b {
      assert IsRegexSpace(s[a]);
      SpaceRunBound(s, a + 1, b);
    }
  }

  /** Any position inside an all-space stretch holds a space. */
  lemma SpaceInside(s: string, a: nat, b: nat, k: nat)
    ensures a <= k < b <= |s| && AllSpace(s, a, b) ==> IsRegexSpace(s[k])
  {
  }

  lemma NoNewlineShrink(s: string, a: nat, b: nat, c: nat)
    ensures a <= b <= c <= |s| && NoNewlineIn(s, a, c) ==> NoNewlineIn(s, b, c)
  {
  }

  /** A run of spaces that stops at a non-space is the maximal run. */
  lemma SpaceRunExact(s: string, a: nat, b: nat)
    requires a <= b <= |s| && AllSpace(s, a, b)
    requires b == |s| || !IsRegexSpace(s[b])
    ensures b == a + SpaceRun(s, a)
  {
    SpaceRunBound(s, a, b);
    SpaceRunSpec(s, a);
    SpaceInside(s, a, a + SpaceRun(s, a), b);
  }

  lemma {:induction false} AmountRunBound(s: string, a: nat, b: nat)
    requires a <= b <= |s| && AllAmount(s, a, b)
    ensures b <= a + AmountRun(s, a)
    decreases b - a
  {
    if a < b {
      assert IsAmountChar(s[a]);
      AmountRunBound(s, a + 1, b);
    }
  }

  // ---------------------------------------------------------------------
  // The search

  /** Position `t` can end the lazy description: a `\s` run starts there and
      is followed by a `[\d,]` character. */
  predicate Cut(s: string, t: nat) {
    t < |s| && IsRegexSpace(s[t]) && t + SpaceRun(s, t) < |s| && IsAmountChar(s[t + SpaceRun(s, t)])
  }

  /** The shortest description: the first cut at or after `t`, where the
      description so far is `s[..t]` from its start and `.` refuses `\n`. */
  function DescEndFrom(s: string, t: nat): (r: Option<nat>)
    requires 1 <= t <= |s|
    ensures r.Some? ==> t <= r.value < |s|
    decreases |s| - t
  {
    if IsNewline(s[t - 1]) then None
    else if Cut(s, t) then Some(t)
    else if t == |s| then None
    else DescEndFrom(s, t + 1)
  }

  /** `DescEndFrom` finds the first cut reachable without crossing a
      newline, and reports none only when there is no such cut. */
  lemma {:induction false} DescEndFromSpec(s: string, t: nat)
    requires 1 <= t <= |s|
    ensures var r := DescEndFrom(s, t);
      r.Some? ==> Cut(s, r.value) && NoNewlineIn(s, t - 1, r.value)
    ensures var r := DescEndFrom(s, t);
      r.Some? ==> forall t' :: t <= t' < r.value ==> !Cut(s, t')
    ensures DescEndFrom(s, t).None? ==>
      forall t' :: t <= t' <= |s| && NoNewlineIn(s, t - 1, t') ==> !Cut(s, t')
    decreases |s| - t
  {
    if !IsNewline(s[t - 1]) && !Cut(s, t) && t < |s| {
      DescEndFromSpec(s, t + 1);
      forall t' | t + 1 <= t' <= |s| && NoNewlineIn(s, t - 1, t')
        ensures NoNewlineIn(s, t, t')
      {
        NoNewlineShrink(s, t - 1, t, t');
      }
    }
  }

  /** The last position in `[lo, hi)` holding something other than `\n`. */
  function LastNonNewline(s: string, lo: nat, hi: nat): (r: Option<nat>)
    requires hi <= |s|
    ensures r.Some? ==> lo <= r.value < hi
    decreases hi
  {
    if hi <= lo then None
    else if !IsNewline(s[hi - 1]) then Some(hi - 1)
    else LastNonNewline(s, lo, hi - 1)
  }

  /** `LastNonNewline` finds the last position that is not a newline, and
      none only when every position in range is one. */
  lemma {:induction false} LastNonNewlineSpec(s: string, lo: nat, hi: nat)
    requires hi <= |s|
    ensures var r := LastNonNewline(s, lo, hi);
      r.Some? ==> !IsNewline(s[r.value]) && forall d :: r.value < d < hi ==> IsNewline(s[d])
    ensures LastNonNewline(s, lo, hi).None? ==> forall d :: lo <= d < hi ==> IsNewline(s[d])
    decreases hi
  {
    if lo < hi && IsNewline(s[hi - 1]) {
      LastNonNewlineSpec(s, lo, hi - 1);
    }
  }

  /** Where the groups of one match sit: the date token is
      `s[start..dateEnd]`, the description `s[descStart..descEnd]` and the
      amount `s[amountStart..amountEnd]`. */
  datatype Match = Match(alt: nat, start: nat, dateEnd: nat, descStart: nat, descEnd: nat,
                         amountStart: nat, amountEnd: nat)

  /** The first match at `p` with date alternative `alt` in backtracking
      order, if any. */
  function MatchWith(s: string, p: nat, layout: Layout, alt: nat): Option<Match> {
    if DateTokenAt(s, p, layout) then AfterDate(s, p, p + |layout|, alt) else None
  }

  /** The rest of the expression once the date token ends at `i`: the
      greedy first `\s+` takes the whole run up to `q`; the lazy description
      then ends at the first cut. When there is none, giving back characters
      of the run can still succeed: the description is then one white-space
      character and the amount starts right after the run. */
  function AfterDate(s: string, p: nat, i: nat, alt: nat): Option<Match>
    requires i <= |s|
  {
    var q := i + SpaceRun(s, i);
    if q == i || q == |s| then None
    else match DescEndFrom(s, q + 1)
      case Some(t) => Some(Primary(s, p, i, q, t, alt))
      case None => GiveBack(s, p, i, q, alt)
  }

  function Primary(s: string, p: nat, i: nat, q: nat, t: nat, alt: nat): Match
    requires t <= |s|
  {
    var u := t + SpaceRun(s, t);
    Match(alt, p, i, q, t, u, u + AmountRun(s, u))
  }

  function GiveBack(s: string, p: nat, i: nat, q: nat, alt: nat): Option<Match>
    requires i < q < |s|
  {
    if !IsAmountChar(s[q]) then None
    else match LastNonNewline(s, i + 1, q - 1)
      case Some(d) => Some(Match(alt, p, i, d, d + 1, q, q + AmountRun(s, q)))
      case None => None
  }

  /** The alternation: the first alternative, from `alt` on, that matches at `p`. */
  function MatchAlts(s: string, p: nat, layouts: seq<Layout>, alt: nat): Option<Match>
    requires alt <= |layouts|
    decreases |layouts| - alt
  {
    if alt == |layouts| then None
    else match MatchWith(s, p, layouts[alt], alt)
      case Some(m) => Some(m)
      case None => MatchAlts(s, p, layouts, alt + 1)
  }

  function FindFrom(s: string, layouts: seq<Layout>, p: nat): Option<Match>
    requires p <= |s|
    decreases |s| - p
  {
    match MatchAlts(s, p, layouts, 0)
    case Some(m) => Some(m)
    case None => if p == |s| then None else FindFrom(s, layouts, p + 1)
  }

  /** `regexp.FindStringSubmatch` for the statement-line expression. */
  function FindStringSubmatch(s: string, layouts: seq<Layout>): Option<Match> {
    FindFrom(s, layouts, 0)
  }

  function DateGroup(s: string, m: Match): string {
    if m.start <= m.dateEnd <= |s| then s[m.start..m.dateEnd] else ""
  }

  function DescGroup(s: string, m: Match): string {
    if m.descStart <= m.descEnd <= |s| then s[m.descStart..m.descEnd] else ""
  }

  function AmountGroup(s: string, m: Match): string {
    if m.amountStart <= m.amountEnd <= |s| then s[m.amountStart..m.amountEnd] else ""
  }

  // ---------------------------------------------------------------------
  // What a match is, and which one the matcher prefers

  /** `m` describes a match of `(layouts[0]|layouts[1]|…)\s+(.+?)\s+([\d,]+)` in `s`. */
  ghost predicate IsMatch(s: string, layouts: seq<Layout>, m: Match) {
    && m.alt < |layouts|
    && DateTokenAt(s, m.start, layouts[m.alt])
    && m.dateEnd == m.start + |layouts[m.alt]|
    && m.dateEnd < m.descStart < m.descEnd < m.amountStart < m.amountEnd <= |s|
    && AllSpace(s, m.dateEnd, m.descStart)
    && NoNewlineIn(s, m.descStart, m.descEnd)
    && AllSpace(s, m.descEnd, m.amountStart)
    && AllAmount(s, m.amountStart, m.amountEnd)
  }

  /** Leftmost-first priority: `m` is tried no later than `m'`. */
  predicate PreferredOver(m: Match, m': Match) {
    || m.start < m'.start
    || (m.start == m'.start && m.alt < m'.alt)
    || (m.start == m'.start && m.alt == m'.alt && m.descStart > m'.descStart)
    || (m.start == m'.start && m.alt == m'.alt && m.descStart == m'.descStart && m.descEnd < m'.descEnd)
    || (m.start == m'.start && m.alt == m'.alt && m.descStart == m'.descStart && m.descEnd == m'.descEnd
        && m.amountStart > m'.amountStart)
    || (m.start == m'.start && m.alt == m'.alt && m.descStart == m'.descStart && m.descEnd == m'.descEnd
        && m.amountStart == m'.amountStart && m.amountEnd >= m'.amountEnd)
  }

  /** The field comparisons that make one match preferred over another
      with the same start and alternative. */
  lemma PreferredByFields(m: Match, m': Match)
    requires m.start == m'.start && m.alt == m'.alt && m.descStart >= m'.descStart
    requires m.descStart == m'.descStart ==> m.descEnd <= m'.descEnd
    requires m.descStart == m'.descStart && m.descEnd == m'.descEnd ==>
      m.amountStart == m'.amountStart && m.amountEnd >= m'.amountEnd
    ensures PreferredOver(m, m')
  {
  }

  /** Every match ends its description at a cut, and its amount starts where
      the space run after the description ends. */
  lemma MatchShape(s: string, layouts: seq<Layout>, m: Match)
    requires IsMatch(s, layouts, m)
    ensures Cut(s, m.descEnd)
    ensures m.amountStart == m.descEnd + SpaceRun(s, m.descEnd)
    ensures m.descStart <= m.dateEnd + SpaceRun(s, m.dateEnd)
    ensures m.amountEnd <= m.amountStart + AmountRun(s, m.amountStart)
  {
    assert IsAmountChar(s[m.amountStart]);
    SpaceRunExact(s, m.descEnd, m.amountStart);
    SpaceRunBound(s, m.dateEnd, m.descStart);
    AmountRunBound(s, m.amountStart, m.amountEnd);
  }

  lemma PrimarySound(s: string, layouts: seq<Layout>, alt: nat, p: nat, t: nat)
    requires alt < |layouts| && DateTokenAt(s, p, layouts[alt])
    requires var i := p + |layouts[alt]|; var q := i + SpaceRun(s, i);
      i < q < |s| && DescEndFrom(s, q + 1) == Some(t)
    ensures var i := p + |layouts[alt]|;
      IsMatch(s, layouts, Primary(s, p, i, i + SpaceRun(s, i), t, alt))
  {
    var i := p + |layouts[alt]|;
    var q := i + SpaceRun(s, i);
    SpaceRunSpec(s, i);
    DescEndFromSpec(s, q + 1);
    assert IsRegexSpace(s[t]);
    SpaceRunSpec(s, t);
    var u := t + SpaceRun(s, t);
    assert IsAmountChar(s[u]);
    AmountRunSpec(s, u);
  }

  lemma GiveBackSound(s: string, layouts: seq<Layout>, alt: nat, p: nat)
    requires alt < |layouts| && DateTokenAt(s, p, layouts[alt])
    requires var i := p + |layouts[alt]|; var q := i + SpaceRun(s, i);
      i < q < |s| && GiveBack(s, p, i, q, alt).Some?
    ensures var i := p + |layouts[alt]|;
      IsMatch(s, layouts, GiveBack(s, p, i, i + SpaceRun(s, i), alt).value)
  {
    var i := p + |layouts[alt]|;
    var q := i + SpaceRun(s, i);
    SpaceRunSpec(s, i);
    LastNonNewlineSpec(s, i + 1, q - 1);
    AmountRunSpec(s, q);
    var d := LastNonNewline(s, i + 1, q - 1).value;
    assert AllSpace(s, d + 1, q);
  }

  lemma MatchWithSound(s: string, p: nat, layouts: seq<Layout>, alt: nat)
    requires alt < |layouts| && MatchWith(s, p, layouts[alt], alt).Some?
    ensures var m := MatchWith(s, p, layouts[alt], alt).value;
      IsMatch(s, layouts, m) && m.start == p && m.alt == alt
  {
    var i := p + |layouts[alt]|;
    var q := i + SpaceRun(s, i);
    if DescEndFrom(s, q + 1).Some? {
      PrimarySound(s, layouts, alt, p, DescEndFrom(s, q + 1).value);
    } else {
      GiveBackSound(s, layouts, alt, p);
    }
  }

  /** The first space run of any match ends before the text does, and the
      description cannot start after it. */
  lemma FirstRunOfMatch(s: string, layouts: seq<Layout>, m': Match)
    requires IsMatch(s, layouts, m')
    ensures var q := m'.dateEnd + SpaceRun(s, m'.dateEnd);
      m'.descStart <= q < |s|
  {
    var q := m'.dateEnd + SpaceRun(s, m'.dateEnd);
    SpaceRunBound(s, m'.dateEnd, m'.descStart);
    SpaceRunSpec(s, m'.dateEnd);
    assert IsAmountChar(s[m'.amountStart]);
    SpaceInside(s, m'.dateEnd, q, m'.amountStart);
  }

  /** When a cut follows the whole first run, the primary match is
      preferred over every match with the same start and alternative. */
  lemma PrimaryPreferred(s: string, layouts: seq<Layout>, m': Match, t: nat)
    requires IsMatch(s, layouts, m')
    requires var q := m'.dateEnd + SpaceRun(s, m'.dateEnd);
      q < |s| && DescEndFrom(s, q + 1) == Some(t)
    ensures var q := m'.dateEnd + SpaceRun(s, m'.dateEnd);
      PreferredOver(Primary(s, m'.start, m'.dateEnd, q, t, m'.alt), m')
  {
    var q := m'.dateEnd + SpaceRun(s, m'.dateEnd);
    var u := t + SpaceRun(s, t);
    var m := Match(m'.alt, m'.start, m'.dateEnd, q, t, u, u + AmountRun(s, u));
    assert m'.descStart <= q by {
      FirstRunOfMatch(s, layouts, m');
    }
    if m'.descStart == q {
      FirstCutNoLater(s, layouts, m', t);
    }
    if t == m'.descEnd {
      SameCutSameAmount(s, layouts, m');
    }
    PreferredByFields(m, m');
    assert Primary(s, m'.start, m'.dateEnd, q, t, m'.alt) == m;
  }

  /** A description that starts where `m'`'s does ends at the first cut no
      later than `m'`'s. */
  lemma FirstCutNoLater(s: string, layouts: seq<Layout>, m': Match, t: nat)
    requires IsMatch(s, layouts, m')
    requires m'.descStart < |s| && DescEndFrom(s, m'.descStart + 1) == Some(t)
    ensures t <= m'.descEnd
  {
    MatchShape(s, layouts, m');
    DescEndFromSpec(s, m'.descStart + 1);
    assert NoNewlineIn(s, m'.descStart, m'.descEnd);
  }

  /** A description ending where `m'`'s does is followed by `m'`'s amount,
      read to its longest. */
  lemma SameCutSameAmount(s: string, layouts: seq<Layout>, m': Match)
    requires IsMatch(s, layouts, m')
    ensures var u := m'.descEnd + SpaceRun(s, m'.descEnd);
      u == m'.amountStart && m'.amountEnd <= u + AmountRun(s, u)
  {
    MatchShape(s, layouts, m');
  }

  /** When no cut follows the whole first run, every match gives back part
      of that run: its description lies inside the run and its amount starts
      right after it. */
  lemma FallbackShape(s: string, layouts: seq<Layout>, m': Match, q: nat)
    requires IsMatch(s, layouts, m')
    requires q == m'.dateEnd + SpaceRun(s, m'.dateEnd) && q < |s|
    requires DescEndFrom(s, q + 1).None?
    ensures m'.descStart + 1 < q && m'.descEnd < q && m'.amountStart == q
    ensures !IsNewline(s[m'.descStart]) && IsAmountChar(s[q])
  {
    MatchShape(s, layouts, m');
    FirstRunOfMatch(s, layouts, m');
    DescEndFromSpec(s, q + 1);
    SpaceRunSpec(s, m'.dateEnd);
    var t' := m'.descEnd;
    NoNewlineShrink(s, m'.descStart, q, t');
    assert t' < q;
    assert AllSpace(s, t', q);
    SpaceRunExact(s, t', q);
  }

  /** When no cut follows the whole first run, giving back succeeds and is
      preferred over every match with the same start and alternative. */
  lemma GiveBackPreferred(s: string, layouts: seq<Layout>, m': Match)
    requires IsMatch(s, layouts, m')
    requires var q := m'.dateEnd + SpaceRun(s, m'.dateEnd);
      q < |s| && DescEndFrom(s, q + 1).None?
    ensures var q := m'.dateEnd + SpaceRun(s, m'.dateEnd);
      m'.dateEnd < q && GiveBack(s, m'.start, m'.dateEnd, q, m'.alt).Some?
    ensures var q := m'.dateEnd + SpaceRun(s, m'.dateEnd);
      m'.dateEnd < q && PreferredOver(GiveBack(s, m'.start, m'.dateEnd, q, m'.alt).value, m')
  {
    var q := m'.dateEnd + SpaceRun(s, m'.dateEnd);
    FallbackShape(s, layouts, m', q);
    LastNonNewlineSpec(s, m'.dateEnd + 1, q - 1);
    var b := LastNonNewline(s, m'.dateEnd + 1, q - 1);
    assert b.Some? && b.value >= m'.descStart;
    var d := b.value;
    var m := Match(m'.alt, m'.start, m'.dateEnd, d, d + 1, q, q + AmountRun(s, q));
    assert GiveBack(s, m'.start, m'.dateEnd, q, m'.alt) == Some(m);
    MatchShape(s, layouts, m');
    PreferredByFields(m, m');
  }

  /** Every match at `p` with alternative `alt` is found, and none is
      preferred over the one returned. */
  lemma MatchWithBest(s: string, p: nat, layouts: seq<Layout>, alt: nat, m': Match)
    requires IsMatch(s, layouts, m') && m'.start == p && m'.alt == alt
    ensures MatchWith(s, p, layouts[alt], alt).Some?
    ensures PreferredOver(MatchWith(s, p, layouts[alt], alt).value, m')
  {
    assert MatchWith(s, p, layouts[alt], alt) == AfterDate(s, p, m'.dateEnd, alt);
    AfterDateBest(s, layouts, m');
  }

  /** The rest of the expression after the date token of a match `m'`
      finds a match at least as preferred as `m'`. */
  lemma AfterDateBest(s: string, layouts: seq<Layout>, m': Match)
    requires IsMatch(s, layouts, m')
    ensures AfterDate(s, m'.start, m'.dateEnd, m'.alt).Some?
    ensures PreferredOver(AfterDate(s, m'.start, m'.dateEnd, m'.alt).value, m')
  {
    FirstRunOfMatch(s, layouts, m');
    var i := m'.dateEnd;
    var q := i + SpaceRun(s, i);
    assert i < q < |s|;
    if DescEndFrom(s, q + 1).Some? {
      var t := DescEndFrom(s, q + 1).value;
      assert AfterDate(s, m'.start, i, m'.alt) == Some(Primary(s, m'.start, i, q, t, m'.alt));
      PrimaryPreferred(s, layouts, m', t);
    } else {
      assert AfterDate(s, m'.start, i, m'.alt) == GiveBack(s, m'.start, i, q, m'.alt);
      GiveBackPreferred(s, layouts, m');
    }
  }

  lemma MatchAltsSpec(s: string, p: nat, layouts: seq<Layout>, alt: nat)
    requires alt <= |layouts|
    ensures var r := MatchAlts(s, p, layouts, alt);
      r.Some? ==> IsMatch(s, layouts, r.value) && r.value.start == p && r.value.alt >= alt
    ensures var r := MatchAlts(s, p, layouts, alt);
      forall m' :: IsMatch(s, layouts, m') && m'.start == p && m'.alt >= alt ==>
        r.Some? && PreferredOver(r.value, m')
    decreases |layouts| - alt
  {
    if alt < |layouts| {
      MatchAltsSpec(s, p, layouts, alt + 1);
      var r := MatchWith(s, p, layouts[alt], alt);
      if r.Some? {
        MatchWithSound(s, p, layouts, alt);
      }
      forall m' | IsMatch(s, layouts, m') && m'.start == p && m'.alt == alt
        ensures r.Some? && PreferredOver(r.value, m')
      {
        MatchWithBest(s, p, layouts, alt, m');
      }
    }
  }

  lemma {:induction false} FindFromSpec(s: string, layouts: seq<Layout>, p: nat)
    requires p <= |s|
    ensures var r := FindFrom(s, layouts, p);
      r.Some? ==> IsMatch(s, layouts, r.value) && r.value.start >= p
    ensures var r := FindFrom(s, layouts, p);
      forall m' :: IsMatch(s, layouts, m') && m'.start >= p ==> r.Some? && PreferredOver(r.value, m')
    decreases |s| - p
  {
    MatchAltsSpec(s, p, layouts, 0);
    if MatchAlts(s, p, layouts, 0).None? && p < |s| {
      FindFromSpec(s, layouts, p + 1);
    }
  }

  /** The search returns exactly the match Go's leftmost-first matcher
      reports, and reports none only when the expression matches nowhere. */
  lemma LeftmostFirst(s: string, layouts: seq<Layout>)
    ensures var r := FindStringSubmatch(s, layouts);
      r.Some? ==> IsMatch(s, layouts, r.value)
    ensures var r := FindStringSubmatch(s, layouts);
      forall m' :: IsMatch(s, layouts, m') ==> r.Some? && PreferredOver(r.value, m')
  {
    FindFromSpec(s, layouts, 0);
  }

  /** The groups of any found match: the date group fits its layout, the
      description is non-empty and newline-free, and the amount group is a
      non-empty run of digits and commas. */
  lemma MatchGroups(s: string, layouts: seq<Layout>)
    requires FindStringSubmatch(s, layouts).Some?
    ensures var m := FindStringSubmatch(s, layouts).value;
      var date := DateGroup(s, m); var desc := DescGroup(s, m); var amount := AmountGroup(s, m);
      && m.alt < |layouts|
      && |date| == |layouts[m.alt]| && DateTokenAt(date, 0, layouts[m.alt])
      && |desc| > 0 && '\n' !in desc
      && |amount| > 0 && (forall k :: 0 <= k < |amount| ==> IsAmountChar(amount[k]))
  {
    LeftmostFirst(s, layouts);
    var m := FindStringSubmatch(s, layouts).value;
    var date := DateGroup(s, m);
    var desc := DescGroup(s, m);
    var amount := AmountGroup(s, m);
    var layout := layouts[m.alt];
    forall k | 0 <= k < |layout|
      ensures SlotMatches(layout[k], date[k])
    {
      assert date[k] == s[m.start + k];
    }
    forall k | 0 <= k < |desc|
      ensures desc[k] != '\n'
    {
      assert desc[k] == s[m.descStart + k];
      assert !IsNewline(s[m.descStart + k]);
    }
    forall k | 0 <= k < |amount|
      ensures IsAmountChar(amount[k])
    {
      assert amount[k] == s[m.amountStart + k];
    }
  }

  /** Preference is antisymmetric, so the preferred match is unique. */
  lemma PreferredUnique(m: Match, m': Match)
    requires PreferredOver(m, m') && PreferredOver(m', m)
    requires m.dateEnd == m'.dateEnd
    ensures m == m'
  {
  }

  // ---------------------------------------------------------------------
  // Lines of the form `<date> <description> <amount>`

  /** A description that the lazy group reproduces exactly and that trimming
      leaves alone: non-empty, no newline, no white space at either end,
      and no digit or comma directly after a `\s` character (where the
      lazy group would stop early). */
  ghost predicate PlainDescription(desc: string) {
    && |desc| > 0
    && '\n' !in desc
    && !IsUnicodeSpace(desc[0]) && !IsUnicodeSpace(desc[|desc| - 1])
    && forall i, j :: 0 <= i && j == i + 1 && j < |desc| && IsRegexSpace(desc[i]) ==> !IsAmountChar(desc[j])
  }

  /** A non-empty run of digits and commas, as printed in the amount
      column. Stated recursively, so that it gives the solver no quantifier
      to instantiate until `AmountTokenChars` is called. */
  ghost predicate AmountToken(amount: string) {
    |amount| > 0 && AmountChars(amount)
  }

  ghost predicate AmountChars(s: string) {
    |s| == 0 || (IsAmountChar(s[0]) && AmountChars(s[1..]))
  }

  lemma {:induction false} AmountTokenChars(s: string)
    requires AmountChars(s)
    ensures forall k :: 0 <= k < |s| ==> IsAmountChar(s[k])
  {
    if |s| > 0 {
      AmountTokenChars(s[1..]);
      forall k | 0 < k < |s|
        ensures IsAmountChar(s[k])
      {
        assert s[k] == s[1..][k - 1];
      }
    }
  }

  /** The characters of `token + " " + desc + " " + amount`, by position. */
  lemma PlainLineChars(token: string, desc: string, amount: string)
    ensures var line := token + " " + desc + " " + amount;
      var n := |token|; var e := n + 1 + |desc|;
      && |line| == e + 1 + |amount|
      && (forall k :: 0 <= k < n ==> line[k] == token[k])
      && line[n] == ' '
      && (forall k :: 0 <= k < |desc| ==> line[n + 1 + k] == desc[k])
      && line[e] == ' '
      && (forall k :: 0 <= k < |amount| ==> line[e + 1 + k] == amount[k])
  {
  }

  /** No cut falls strictly inside a plain description. */
  lemma NoCutInDescription(token: string, desc: string, amount: string)
    requires PlainDescription(desc)
    ensures var line := token + " " + desc + " " + amount;
      var n := |token|;
      forall t :: n + 2 <= t < n + 1 + |desc| ==> !Cut(line, t)
  {
    forall t | |token| + 2 <= t < |token| + 1 + |desc|
      ensures !Cut(token + " " + desc + " " + amount, t)
    {
      NoCutAt(token, desc, amount, t);
    }
  }

  lemma NoCutAt(token: string, desc: string, amount: string, t: nat)
    requires PlainDescription(desc)
    requires |token| + 2 <= t < |token| + 1 + |desc|
    ensures !Cut(token + " " + desc + " " + amount, t)
  {
    PlainLineChars(token, desc, amount);
    NoCutInside(token + " " + desc + " " + amount, desc, |token| + 1, t);
  }

  /** No cut falls strictly inside a plain description placed at `off`. */
  lemma NoCutInside(line: string, desc: string, off: nat, t: nat)
    requires PlainDescription(desc)
    requires off + |desc| <= |line| && forall k :: 0 <= k < |desc| ==> line[off + k] == desc[k]
    requires off + 1 <= t < off + |desc|
    ensures !Cut(line, t)
  {
    if IsRegexSpace(line[t]) {
      var u := t + SpaceRun(line, t);
      SpaceRunSpec(line, t);
      var last := off + |desc| - 1;
      assert line[last] == desc[|desc| - 1];
      RegexSpaceIsUnicodeSpace(desc[|desc| - 1]);
      SpaceInside(line, t, u, last);
      assert t < u <= last;
      SpaceInside(line, t, u, u - 1);
      assert line[u] == desc[u - off] && line[u - 1] == desc[u - off - 1];
      PlainSpaceThenText(desc, u - off - 1);
    }
  }

  /** In a plain description a space is never followed by an amount character. */
  lemma PlainSpaceThenText(desc: string, i: nat)
    requires PlainDescription(desc) && i + 1 < |desc| && IsRegexSpace(desc[i])
    ensures !IsAmountChar(desc[i + 1])
  {
    var j := i + 1;
    assert IsRegexSpace(desc[i]) && j == i + 1;
  }

  lemma PlainFirstRun(token: string, desc: string, amount: string)
    requires PlainDescription(desc)
    ensures SpaceRun(token + " " + desc + " " + amount, |token|) == 1
  {
    var line := token + " " + desc + " " + amount;
    PlainLineChars(token, desc, amount);
    RegexSpaceIsUnicodeSpace(desc[0]);
    assert !IsRegexSpace(line[|token| + 1]);
    SpaceRunExact(line, |token|, |token| + 1);
  }

  lemma PlainAmount(token: string, desc: string, amount: string)
    requires AmountToken(amount)
    ensures var line := token + " " + desc + " " + amount;
      var e := |token| + 1 + |desc|;
      Cut(line, e) && SpaceRun(line, e) == 1 && AmountRun(line, e + 1) == |amount|
  {
    var line := token + " " + desc + " " + amount;
    var e := |token| + 1 + |desc|;
    AmountTail(token, desc, amount);
    SpaceRunExact(line, e, e + 1);
    AmountRunExactEnd(line, e + 1);
  }

  /** After the description come one space and the amount's characters, up
      to the end of the line. */
  lemma AmountTail(token: string, desc: string, amount: string)
    requires AmountToken(amount)
    ensures var line := token + " " + desc + " " + amount;
      var e := |token| + 1 + |desc|;
      && e + 1 < |line| && line[e] == ' ' && AllSpace(line, e, e + 1)
      && IsAmountChar(line[e + 1]) && AllAmount(line, e + 1, |line|)
  {
    var line := token + " " + desc + " " + amount;
    var e := |token| + 1 + |desc|;
    AmountTokenChars(amount);
    assert line[e] == ' ';
    forall k | e + 1 <= k < |line|
      ensures IsAmountChar(line[k])
    {
      assert line[k] == amount[k - e - 1];
    }
  }

  lemma PlainDescEnd(token: string, desc: string, amount: string)
    requires PlainDescription(desc) && AmountToken(amount)
    ensures var line := token + " " + desc + " " + amount;
      DescEndFrom(line, |token| + 2) == Some(|token| + 1 + |desc|)
  {
    PlainDescEndAt(token + " " + desc + " " + amount, token, desc, amount);
  }

  lemma PlainDescEndAt(line: string, token: string, desc: string, amount: string)
    requires PlainDescription(desc) && AmountToken(amount)
    requires line == token + " " + desc + " " + amount
    ensures DescEndFrom(line, |token| + 2) == Some(|token| + 1 + |desc|)
  {
    PlainAmount(token, desc, amount);
    NoCutInDescription(token, desc, amount);
    DescriptionNoNewline(token, desc, amount);
    DescEndFirstCut(line, |token| + 2, |token| + 1 + |desc|);
  }

  lemma DescriptionNoNewline(token: string, desc: string, amount: string)
    requires '\n' !in desc
    ensures var line := token + " " + desc + " " + amount;
      NoNewlineIn(line, |token| + 1, |token| + 1 + |desc|)
  {
    var line := token + " " + desc + " " + amount;
    var n := |token|;
    forall k | n + 1 <= k < n + 1 + |desc|
      ensures !IsNewline(line[k])
    {
      assert line[k] == desc[k - n - 1];
    }
  }

  /** A line `pre + token + " " + desc + " " + amount`, where no date layout
      fits anywhere inside `pre` and `token` fits alternative `alt` (and no
      earlier one), is matched at the token, with the three groups exactly
      the three parts. */
  lemma PlainLine(pre: string, token: string, desc: string, amount: string, layouts: seq<Layout>, alt: nat)
    requires alt < |layouts| && |token| == |layouts[alt]|
    requires DateTokenAt(token, 0, layouts[alt])
    requires var line := pre + token + " " + desc + " " + amount;
      forall p, a :: 0 <= p < |pre| && 0 <= a < |layouts| ==> !DateTokenAt(line, p, layouts[a])
    requires var line := pre + token + " " + desc + " " + amount;
      forall a :: 0 <= a < alt ==> !DateTokenAt(line, |pre|, layouts[a])
    requires PlainDescription(desc) && AmountToken(amount)
    ensures var line := pre + token + " " + desc + " " + amount;
      var h := |pre| + |token|;
      FindStringSubmatch(line, layouts) ==
        Some(Match(alt, |pre|, h, h + 1, h + 1 + |desc|, h + 2 + |desc|, |line|))
  {
    var head := pre + token;
    var line := head + " " + desc + " " + amount;
    assert line == pre + token + " " + desc + " " + amount;
    var h := |head|;
    var e := h + 1 + |desc|;
    TokenInLine(pre, token, desc, amount, layouts[alt]);
    PlainMatchAt(head, desc, amount, |pre|, layouts[alt], alt);
    MatchAltsFirst(line, |pre|, layouts, 0, alt);
    forall p | 0 <= p < |pre|
      ensures MatchAlts(line, p, layouts, 0).None?
    {
      MatchAltsNone(line, p, layouts, 0);
    }
    FindFromSkip(line, layouts, 0, |pre|);
  }

  lemma TokenInLine(pre: string, token: string, desc: string, amount: string, layout: Layout)
    requires |token| == |layout| && DateTokenAt(token, 0, layout)
    ensures DateTokenAt((pre + token) + " " + desc + " " + amount, |pre|, layout)
  {
    var head := pre + token;
    var line := head + " " + desc + " " + amount;
    forall k | 0 <= k < |layout|
      ensures SlotMatches(layout[k], line[|pre| + k])
    {
      assert line[|pre| + k] == head[|pre| + k] == token[k];
    }
  }

  /** A date token ending where `head` ends, followed by one space, a plain
      description, one space and an amount, is matched by the primary path. */
  lemma PlainMatchAt(head: string, desc: string, amount: string, p: nat, layout: Layout, alt: nat)
    requires p + |layout| == |head|
    requires DateTokenAt(head + " " + desc + " " + amount, p, layout)
    requires PlainDescription(desc) && AmountToken(amount)
    ensures var line := head + " " + desc + " " + amount;
      var h := |head|; var e := h + 1 + |desc|;
      MatchWith(line, p, layout, alt) == Some(Match(alt, p, h, h + 1, e, e + 1, |line|))
  {
    var line := head + " " + desc + " " + amount;
    var h := |head|;
    var e := h + 1 + |desc|;
    PlainLineChars(head, desc, amount);
    PlainFirstRun(head, desc, amount);
    PlainDescEnd(head, desc, amount);
    PlainAmount(head, desc, amount);
    assert Primary(line, p, h, h + 1, e, alt) == Match(alt, p, h, h + 1, e, e + 1, |line|);
  }

  /** Positions where no date layout fits are skipped by the search. */
  lemma {:induction false} FindFromSkip(s: string, layouts: seq<Layout>, p: nat, q: nat)
    requires p <= q <= |s|
    requires forall p' :: p <= p' < q ==> MatchAlts(s, p', layouts, 0).None?
    ensures FindFrom(s, layouts, p) == FindFrom(s, layouts, q)
    decreases q - p
  {
    if p < q {
      FindFromSkip(s, layouts, p + 1, q);
    }
  }

  lemma {:induction false} MatchAltsNone(s: string, p: nat, layouts: seq<Layout>, from: nat)
    requires from <= |layouts|
    requires forall a :: from <= a < |layouts| ==> !DateTokenAt(s, p, layouts[a])
    ensures MatchAlts(s, p, layouts, from) == None
    decreases |layouts| - from
  {
    if from < |layouts| {
      MatchAltsNone(s, p, layouts, from + 1);
    }
  }

  lemma {:induction false} DescEndFirstCut(s: string, t: nat, e: nat)
    requires 1 <= t <= e < |s|
    requires NoNewlineIn(s, t - 1, e) && Cut(s, e)
    requires forall t' :: t <= t' < e ==> !Cut(s, t')
    ensures DescEndFrom(s, t) == Some(e)
    decreases e - t
  {
    if t < e {
      DescEndFirstCut(s, t + 1, e);
    }
  }

  lemma AmountRunExactEnd(s: string, a: nat)
    requires a <= |s| && AllAmount(s, a, |s|)
    ensures a + AmountRun(s, a) == |s|
  {
    AmountRunBound(s, a, |s|);
  }

  lemma {:induction false} MatchAltsFirst(s: string, p: nat, layouts: seq<Layout>, from: nat, alt: nat)
    requires from <= alt < |layouts|
    requires forall a :: from <= a < alt ==> !DateTokenAt(s, p, layouts[a])
    requires MatchWith(s, p, layouts[alt], alt).Some?
    ensures MatchAlts(s, p, layouts, from) == MatchWith(s, p, layouts[alt], alt)
    decreases alt - from
  {
    if from < alt {
      MatchAltsFirst(s, p, layouts, from + 1, alt);
    }
  }

  /** Each slot of a token matches its character. */
  lemma TokenSlot(s: string, p: nat, layout: Layout, k: nat)
    requires DateTokenAt(s, p, layout) && k < |layout|
    ensures p + k < |s| && s[p + k] in s && SlotMatches(layout[k], s[p + k])
  {
    assert p + |layout| <= |s|;
    assert SlotMatches(layout[k], s[p + k]);
  }

  /** A date layout with a slash at offset `k` finds no token in a string
      without a slash. */
  lemma NoTokenWithoutSlash(s: string, p: nat, layout: Layout, k: nat)
    requires k < |layout| && layout[k] == '/' && '/' !in s
    ensures !DateTokenAt(s, p, layout)
  {
    if DateTokenAt(s, p, layout) {
      TokenSlot(s, p, layout, k);
    }
  }

  /** No token starts at `p` if the layout's slash at offset `k` meets
      another character. */
  lemma NoTokenAtNonSlash(s: string, p: nat, layout: Layout, k: nat)
    requires k < |layout| && layout[k] == '/'
    requires p + k < |s| && s[p + k] != '/'
    ensures !DateTokenAt(s, p, layout)
  {
    if DateTokenAt(s, p, layout) {
      TokenSlot(s, p, layout, k);
    }
  }

  /** A layout with a slash at offset `k` finds no token in a string that
      has no slash from position `k` on. */
  lemma NoTokenSlashFrom(s: string, p: nat, layout: Layout, k: nat)
    requires k < |layout| && layout[k] == '/'
    requires forall x :: k <= x < |s| ==> s[x] != '/'
    ensures !DateTokenAt(s, p, layout)
  {
    if DateTokenAt(s, p, layout) {
      TokenSlot(s, p, layout, k);
    }
  }

  /** When every layout has a slash at offset `k` and the string has none
      from `k` on, nothing matches. */
  lemma {:induction false} NoSlashFromNoMatch(s: string, layouts: seq<Layout>, k: nat)
    requires forall x :: k <= x < |s| ==> s[x] != '/'
    requires forall a :: 0 <= a < |layouts| ==> k < |layouts[a]| && layouts[a][k] == '/'
    ensures FindStringSubmatch(s, layouts) == None
  {
    LeftmostFirst(s, layouts);
    if FindStringSubmatch(s, layouts).Some? {
      var m := FindStringSubmatch(s, layouts).value;
      NoTokenSlashFrom(s, m.start, layouts[m.alt], k);
    }
  }

  /** A line without a `/` has no match for any of the date layouts. */
  lemma {:induction false} NoSlashNoMatch(s: string, layouts: seq<Layout>)
    requires '/' !in s
    requires forall a :: 0 <= a < |layouts| ==> '/' in layouts[a]
    ensures FindStringSubmatch(s, layouts) == None
  {
    LeftmostFirst(s, layouts);
    if FindStringSubmatch(s, layouts).Some? {
      var m := FindStringSubmatch(s, layouts).value;
      var layout := layouts[m.alt];
      var k :| 0 <= k < |layout| && layout[k] == '/';
      NoTokenWithoutSlash(s, m.start, layout, k);
    }
  }
}
