/** The three regular expressions of autoui/lib/doc_function.py, written out
    as explicit searches over a single-line description:

      ` *::type (.+) endtype:: *`     the widget directive
      ` *::values (.+) endvalues:: *` the choices directive
      `\. Defaults to (.+)\.$`        the trailing default clause

    `re.search` finds the leftmost start; at that start the first match in
    backtracking order takes every leading blank, the longest group `.+`
    (so the group ends at the LAST closing token of the line), and every
    trailing blank. `re.sub(.., "", ..)` removes every non-overlapping match
    from left to right. A description is taken to hold no line break, so
    `.` matches every character and `$` is the end of the string. */
module Directives {
  import opened Wrappers
  import opened Text

  /** The two literal tokens of a directive's pattern: the opening token
      with the blank that follows it, and the closing token with the blank
      that precedes it. */
  datatype Tokens = Tokens(open: string, close: string)

  /** A directive: both opening tokens start with a colon, which is not a
      blank, so the leading ` *` of the pattern ends where the token begins. */
  type Directive = t: Tokens | t.open != [] && t.open[0] == ':' witness Tokens(":", "")

  /** The widget directive ` *::type (.+) endtype:: *`. */
  const TypeDirective: Directive := Tokens("::type ", " endtype::")

  /** The choices directive ` *::values (.+) endvalues:: *`. */
  const ValuesDirective: Directive := Tokens("::values ", " endvalues::")

  /** One match: the whole match is `d[start..end]`, the captured group
      `d[groupStart..groupEnd]`. */
  datatype Match = Match(start: nat, groupStart: nat, groupEnd: nat, end: nat)

  /** `m` is a match of the directive's pattern in `d` (any match, not only
      the one Python reports). */
  predicate IsMatch(d: string, dir: Directive, m: Match)
  {
    && m.start + |dir.open| <= m.groupStart
    && m.groupStart < m.groupEnd
    && m.groupEnd + |dir.close| <= m.end <= |d|
    && SpacesBetween(d, m.start, m.groupStart - |dir.open|)
    && IsAt(d, m.groupStart - |dir.open|, dir.open)
    && IsAt(d, m.groupEnd, dir.close)
    && SpacesBetween(d, m.groupEnd + |dir.close|, m.end)
  }

  /** `m` comes before `m'` in the order Python's regex engine tries them:
      leftmost start, then the longest group, then the most trailing blanks. */
  predicate PreferredOver(m: Match, m': Match)
  {
    m.start < m'.start
    || (m.start == m'.start && m'.groupEnd < m.groupEnd)
    || (m.start == m'.start && m'.groupEnd == m.groupEnd && m'.end <= m.end)
  }

  /** The last index at or after `lo` where `lit` occurs. */
  function LastAt(d: string, lo: nat, lit: string): (r: Option<nat>)
    ensures r.Some? ==> lo <= r.value && IsAt(d, r.value, lit)
    ensures r.Some? ==> forall q :: lo <= q && IsAt(d, q, lit) ==> q <= r.value
    ensures r.None? ==> forall q :: lo <= q ==> !IsAt(d, q, lit)
    decreases |d| + 1 - lo
  {
    if lo > |d| then None
    else match LastAt(d, lo + 1, lit)
      case Some(q) => Some(q)
      case None => if IsAt(d, lo, lit) then Some(lo) else None
  }

  /** The match Python's engine reports when it tries start position `s`. */
  function MatchAt(d: string, dir: Directive, s: nat): (r: Option<Match>)
    requires s <= |d|
    ensures r.Some? ==> r.value.start == s && IsMatch(d, dir, r.value)
    ensures r.Some? ==> forall m' :: IsMatch(d, dir, m') && m'.start == s ==> PreferredOver(r.value, m')
    ensures r.None? ==> forall m' :: IsMatch(d, dir, m') ==> m'.start != s
  {
    var p := SkipSpaces(d, s);
    if IsAt(d, p, dir.open) then MatchAfterOpen(d, dir, s)
    else
      NoMatchWithoutOpen(d, dir, s);
      None
  }

  /** `MatchAt` once the opening token has been found after the blanks. */
  function MatchAfterOpen(d: string, dir: Directive, s: nat): (r: Option<Match>)
    requires s <= |d|
    requires IsAt(d, SkipSpaces(d, s), dir.open)
    ensures r.Some? ==> r.value.start == s && IsMatch(d, dir, r.value)
    ensures r.Some? ==> forall m' :: IsMatch(d, dir, m') && m'.start == s ==> PreferredOver(r.value, m')
    ensures r.None? ==> forall m' :: IsMatch(d, dir, m') ==> m'.start != s
  {
    var g := SkipSpaces(d, s) + |dir.open|;
    match LastAt(d, g + 1, dir.close)
    case None =>
      NoMatchWithoutClose(d, dir, s);
      None
    case Some(c) =>
      assert forall q :: c < q ==> !IsAt(d, q, dir.close);
      BestMatchAt(d, dir, s, c);
      Some(Match(s, g, c, SkipSpaces(d, c + |dir.close|)))
  }

  /** Every match that starts at `s` opens right after the blank run at `s`. */
  lemma OpenAfterBlanks(d: string, dir: Directive, m: Match)
    requires IsMatch(d, dir, m)
    ensures m.start <= |d|
    ensures SkipSpaces(d, m.start) == m.groupStart - |dir.open|
  {
    var p := m.groupStart - |dir.open|;
    ColonAtOpen(d, dir, p);
    SkipSpacesUnique(d, m.start, p);
  }

  /** Both opening tokens start with a colon, which is not a blank. */
  lemma ColonAtOpen(d: string, dir: Directive, p: nat)
    requires IsAt(d, p, dir.open)
    ensures p < |d| && d[p] == ':'
  {
    assert d[p] == d[p..p + |dir.open|][0];
  }

  lemma NoMatchWithoutOpen(d: string, dir: Directive, s: nat)
    requires s <= |d|
    requires !IsAt(d, SkipSpaces(d, s), dir.open)
    ensures forall m' :: IsMatch(d, dir, m') ==> m'.start != s
  {
    forall m' | IsMatch(d, dir, m') && m'.start == s
      ensures false
    {
      OpenAfterBlanks(d, dir, m');
    }
  }

  lemma NoMatchWithoutClose(d: string, dir: Directive, s: nat)
    requires s <= |d|
    requires IsAt(d, SkipSpaces(d, s), dir.open)
    requires LastAt(d, SkipSpaces(d, s) + |dir.open| + 1, dir.close).None?
    ensures forall m' :: IsMatch(d, dir, m') ==> m'.start != s
  {
    forall m' | IsMatch(d, dir, m') && m'.start == s
      ensures false
    {
      OpenAfterBlanks(d, dir, m');
    }
  }

  lemma BestMatchAt(d: string, dir: Directive, s: nat, c: nat)
    requires s <= |d|
    requires IsAt(d, SkipSpaces(d, s), dir.open)
    requires SkipSpaces(d, s) + |dir.open| < c && IsAt(d, c, dir.close)
    requires forall q :: c < q ==> !IsAt(d, q, dir.close)
    ensures var m := Match(s, SkipSpaces(d, s) + |dir.open|, c, SkipSpaces(d, c + |dir.close|));
      && IsMatch(d, dir, m)
      && forall m' :: IsMatch(d, dir, m') && m'.start == s ==> PreferredOver(m, m')
  {
    MatchFromBlanks(d, dir, s, c);
    BestMatchPreferred(d, dir, Match(s, SkipSpaces(d, s) + |dir.open|, c, SkipSpaces(d, c + |dir.close|)));
  }

  /** The match that takes every blank before the opening token and after
      the closing token at `c`. */
  lemma MatchFromBlanks(d: string, dir: Directive, s: nat, c: nat)
    requires s <= |d|
    requires IsAt(d, SkipSpaces(d, s), dir.open)
    requires SkipSpaces(d, s) + |dir.open| < c && IsAt(d, c, dir.close)
    ensures c + |dir.close| <= |d|
    ensures IsMatch(d, dir, Match(s, SkipSpaces(d, s) + |dir.open|, c, SkipSpaces(d, c + |dir.close|)))
  {
    MatchFromParts(d, dir, s, SkipSpaces(d, s), c, SkipSpaces(d, c + |dir.close|));
  }

  /** A match assembled from its blanks, its opening and its closing token. */
  lemma MatchFromParts(d: string, dir: Directive, s: nat, o: nat, c: nat, e: nat)
    requires IsAt(d, o, dir.open) && s <= o && SpacesBetween(d, s, o)
    requires o + |dir.open| < c && IsAt(d, c, dir.close)
    requires c + |dir.close| <= e <= |d| && SpacesBetween(d, c + |dir.close|, e)
    ensures IsMatch(d, dir, Match(s, o + |dir.open|, c, e))
  {
  }

  lemma BestMatchPreferred(d: string, dir: Directive, m: Match)
    requires m.start <= |d| && m.groupStart == SkipSpaces(d, m.start) + |dir.open|
    requires m.groupStart < m.groupEnd && forall q :: m.groupEnd < q ==> !IsAt(d, q, dir.close)
    requires m.groupEnd + |dir.close| <= |d| && m.end == SkipSpaces(d, m.groupEnd + |dir.close|)
    ensures forall m' :: IsMatch(d, dir, m') && m'.start == m.start ==> PreferredOver(m, m')
  {
    forall m' | IsMatch(d, dir, m') && m'.start == m.start
      ensures PreferredOver(m, m')
    {
      BestMatchBeats(d, dir, m, m');
    }
  }

  /** Any other match at the same start opens at the same place, closes no
      later, and takes no more trailing blanks. */
  lemma BestMatchBeats(d: string, dir: Directive, m: Match, m': Match)
    requires m.start <= |d| && m.groupStart == SkipSpaces(d, m.start) + |dir.open|
    requires m.groupStart < m.groupEnd && forall q :: m.groupEnd < q ==> !IsAt(d, q, dir.close)
    requires m.groupEnd + |dir.close| <= |d| && m.end == SkipSpaces(d, m.groupEnd + |dir.close|)
    requires IsMatch(d, dir, m') && m'.start == m.start
    ensures PreferredOver(m, m')
  {
    OpenAfterBlanks(d, dir, m');
  }

  /** `re.search` from position `from` on: the preferred match among those
      starting at or after `from`. */
  function FindFrom(d: string, dir: Directive, from: nat): (r: Option<Match>)
    requires from <= |d|
    ensures r.Some? ==> from <= r.value.start && IsMatch(d, dir, r.value)
    ensures r.Some? ==> forall m' :: IsMatch(d, dir, m') && from <= m'.start ==> PreferredOver(r.value, m')
    ensures r.None? ==> forall m' :: IsMatch(d, dir, m') ==> m'.start < from
    decreases |d| - from
  {
    match MatchAt(d, dir, from)
    case Some(m) => Some(m)
    case None =>
      if from == |d| then
        assert forall m' :: IsMatch(d, dir, m') ==> m'.start < |d|;
        None
      else FindFrom(d, dir, from + 1)
  }

  /** `m` is the match `re.search` reports: a match preferred over every other. */
  ghost predicate IsReportedMatch(d: string, dir: Directive, m: Match)
  {
    IsMatch(d, dir, m) && forall m' :: IsMatch(d, dir, m') ==> PreferredOver(m, m')
  }

  /** `re.search(pattern, d)`. */
  function Search(d: string, dir: Directive): (r: Option<Match>)
    ensures r.Some? <==> exists m :: IsMatch(d, dir, m)
    ensures r.Some? ==> IsMatch(d, dir, r.value)
    ensures r.Some? ==> forall m' :: IsMatch(d, dir, m') ==> PreferredOver(r.value, m')
  {
    FindFrom(d, dir, 0)
  }

  /** `re.sub(pattern, "", d[from..])` as Python performs it: remove the match
      found from `from` on, then go on searching after it. */
  function SubFrom(d: string, dir: Directive, from: nat): string
    requires from <= |d|
    decreases |d| - from
  {
    match FindFrom(d, dir, from)
    case None => d[from..]
    case Some(m) => d[from..m.start] + SubFrom(d, dir, m.end)
  }

  /** `re.sub(pattern, "", d)`. */
  function Sub(d: string, dir: Directive): string
  {
    SubFrom(d, dir, 0)
  }

  /** Because the group runs to the last closing token of the line, nothing
      can match after the first match: `re.sub` cuts out exactly the match
      `re.search` reports and leaves the rest of the text as it was. */
  lemma {:induction false} SubRemovesFirstMatch(d: string, dir: Directive)
    ensures Search(d, dir).None? ==> Sub(d, dir) == d
    ensures Search(d, dir).Some? ==>
      var m := Search(d, dir).value;
      Sub(d, dir) == d[..m.start] + d[m.end..]
  {
    var r := FindFrom(d, dir, 0);
    assert Search(d, dir) == r;
    if r.Some? {
      var m := r.value;
      NothingAfterMatch(d, dir, m);
      assert SubFrom(d, dir, m.end) == d[m.end..];
      assert SubFrom(d, dir, 0) == d[0..m.start] + SubFrom(d, dir, m.end);
    } else {
      assert SubFrom(d, dir, 0) == d[0..];
    }
  }

  /** Nothing matches after the preferred match: a later closing token would
      have given the preferred match a longer group. */
  lemma NothingAfterMatch(d: string, dir: Directive, m: Match)
    requires IsMatch(d, dir, m)
    requires forall m' :: IsMatch(d, dir, m') ==> PreferredOver(m, m')
    ensures FindFrom(d, dir, m.end).None?
  {
    var r := FindFrom(d, dir, m.end);
    if r.Some? {
      var later := r.value;
      assert IsAt(d, later.groupEnd, dir.close);
      var longer := ExtendToClose(d, dir, m, later.groupEnd);
      assert false;
    }
  }

  lemma ExtendToClose(d: string, dir: Directive, m: Match, c: nat) returns (longer: Match)
    requires IsMatch(d, dir, m)
    requires m.groupEnd < c && IsAt(d, c, dir.close)
    ensures IsMatch(d, dir, longer)
    ensures longer.start == m.start && longer.groupEnd == c
  {
    longer := Match(m.start, m.groupStart, c, SkipSpaces(d, c + |dir.close|));
    assert SpacesBetween(d, longer.start, longer.groupStart - |dir.open|);
    assert IsAt(d, longer.groupStart - |dir.open|, dir.open);
  }

  /** The directive is gone once `re.sub` has run: what is left of the
      description holds no further match of the same pattern. */
  lemma {:induction false} NoDirectiveLeft(d: string, dir: Directive)
    ensures Search(Sub(d, dir), dir).None?
  {
    SubRemovesFirstMatch(d, dir);
    var r := Search(d, dir);
    if r.Some? {
      var rest := d[..r.value.start] + d[r.value.end..];
      assert Sub(d, dir) == rest;
      var r2 := Search(rest, dir);
      if r2.Some? {
        var better := MatchLeftAfterCut(d, dir, r.value, r2.value);
        assert false;
      }
    }
  }

  /** A match left in the text once the match `m` is cut out of it betrays
      a match of the whole text that the engine would have preferred to `m`. */
  lemma MatchLeftAfterCut(d: string, dir: Directive, m: Match, m2: Match) returns (better: Match)
    requires IsMatch(d, dir, m)
    requires IsMatch(d[..m.start] + d[m.end..], dir, m2)
    ensures IsMatch(d, dir, better) && !PreferredOver(m, better)
  {
    if m2.groupStart <= m.start {
      better := OpenLeftBeforeCut(d, dir, m, m2);
    } else {
      better := CloseLeftAfterCut(d, dir, m, m2.groupEnd);
    }
  }

  /** The opening token lies before the cut: it opened an earlier match. */
  lemma OpenLeftBeforeCut(d: string, dir: Directive, m: Match, m2: Match) returns (earlier: Match)
    requires IsMatch(d, dir, m)
    requires IsMatch(d[..m.start] + d[m.end..], dir, m2)
    requires m2.groupStart <= m.start
    ensures IsMatch(d, dir, earlier) && earlier.start < m.start
  {
    var o := m2.groupStart - |dir.open|;
    SliceBeforeCut(d, m.start, m.end, o, o + |dir.open|);
    earlier := OpenBefore(d, dir, m, o);
  }

  /** The closing token lies after the cut: the cut group was not the longest. */
  lemma CloseLeftAfterCut(d: string, dir: Directive, m: Match, c: nat) returns (longer: Match)
    requires IsMatch(d, dir, m)
    requires m.start < c && IsAt(d[..m.start] + d[m.end..], c, dir.close)
    ensures IsMatch(d, dir, longer) && longer.start == m.start && m.groupEnd < longer.groupEnd
  {
    IsAtAfterCut(d, m.start, m.end, c, dir.close);
    longer := ExtendToClose(d, dir, m, c - m.start + m.end);
  }

  /** Text after the cut `d[s..e]` is the text after `e` in `d`. */
  lemma SliceAfterCut(d: string, s: nat, e: nat, i: nat, j: nat)
    requires s <= e <= |d| && s <= i <= j <= s + |d| - e
    ensures (d[..s] + d[e..])[i..j] == d[i - s + e..j - s + e]
  {
    var rest := d[..s] + d[e..];
    assert rest[s..] == d[e..];
    assert rest[i..j] == rest[s..][i - s..j - s];
  }

  /** A token found after the cut is found in `d`, shifted by the cut's length. */
  lemma IsAtAfterCut(d: string, s: nat, e: nat, i: nat, lit: string)
    requires s <= e <= |d| && s <= i
    requires IsAt(d[..s] + d[e..], i, lit)
    ensures IsAt(d, i - s + e, lit)
  {
    SliceAfterCut(d, s, e, i, i + |lit|);
  }

  /** Text before the cut `d[s..e]` is unchanged. */
  lemma SliceBeforeCut(d: string, s: nat, e: nat, i: nat, j: nat)
    requires s <= e <= |d| && i <= j <= s
    ensures (d[..s] + d[e..])[i..j] == d[i..j]
  {
    var rest := d[..s] + d[e..];
    assert rest[..s] == d[..s];
    assert rest[i..j] == rest[..s][i..j];
  }

  /** An opening token before a match, with the match's closing token, is an
      earlier match. */
  lemma OpenBefore(d: string, dir: Directive, m: Match, o: nat) returns (earlier: Match)
    requires IsMatch(d, dir, m)
    requires o + |dir.open| <= m.start && IsAt(d, o, dir.open)
    ensures IsMatch(d, dir, earlier) && earlier.start == o
  {
    earlier := Match(o, o + |dir.open|, m.groupEnd, m.end);
    assert IsAt(d, m.groupEnd, dir.close);
  }

  /** The trailing default clause `. Defaults to X.` starts at `s`. */
  predicate IsDefaultsClause(d: string, s: nat)
  {
    IsAt(d, s, DefaultsMarker) && s + |DefaultsMarker| + 1 < |d| && d[|d| - 1] == '.'
  }

  const DefaultsMarker: string := ". Defaults to "

  /** The leftmost start of a default clause at or after `from`. */
  function FindDefaultsFrom(d: string, from: nat): (r: Option<nat>)
    ensures r.Some? ==> from <= r.value && IsDefaultsClause(d, r.value)
    ensures r.Some? ==> forall s :: from <= s && IsDefaultsClause(d, s) ==> r.value <= s
    ensures r.None? ==> forall s :: from <= s ==> !IsDefaultsClause(d, s)
    decreases |d| + 1 - from
  {
    if from > |d| then None
    else if IsDefaultsClause(d, from) then Some(from)
    else FindDefaultsFrom(d, from + 1)
  }

  /** `re.sub(r"\. Defaults to (.+)\.$", "", d)`: a match always runs to the
      end of the text, so one removal is all there is. */
  function StripDefaults(d: string): (r: string)
  {
    match FindDefaultsFrom(d, 0)
    case None => d
    case Some(s) => d[..s]
  }

  /** A description written as `base. Defaults to x.` loses exactly its
      default clause, provided `base` holds no ". Defaults to " of its own;
      earlier sentences are kept as they are. */
  lemma StripDefaultsClause(base: string, x: string)
    requires forall s: nat :: s + |DefaultsMarker| <= |base| ==> !IsAt(base, s, DefaultsMarker)
    requires x != []
    ensures StripDefaults(base + DefaultsMarker + x + ".") == base
  {
    var d := base + DefaultsMarker + x + ".";
    assert d[..|base|] == base;
    assert d[|base|..|base| + |DefaultsMarker|] == DefaultsMarker;
    assert IsDefaultsClause(d, |base|);
    forall s: nat | s < |base| ensures !IsDefaultsClause(d, s) {
      if s + |DefaultsMarker| <= |base| {
        assert !IsAt(base, s, DefaultsMarker);
        assert base[s..s + |DefaultsMarker|] == d[s..s + |DefaultsMarker|];
      } else {
        // A marker at `s` would cover the full stop that opens the real
        // marker, but no later character of the marker is a full stop.
        var k := |base| - s;
        assert d[|base|] == '.' != DefaultsMarker[k];
      }
    }
  }

  /** A two-sentence description keeps its earlier sentences when the
      default clause is stripped. */
  lemma StripDefaultsTwoSentences()
    ensures StripDefaults("Path. Must exist. Defaults to x.") == "Path. Must exist"
  {
    var base := "Path. Must exist";
    forall s: nat | s + |DefaultsMarker| <= |base| ensures !IsAt(base, s, DefaultsMarker) {
      assert base[s] != '.' == DefaultsMarker[0];
    }
    assert base + DefaultsMarker + "x" + "." == "Path. Must exist. Defaults to x.";
    StripDefaultsClause(base, "x");
  }

  /** Stripping twice strips no more: what is left before the leftmost
      clause holds no clause of its own. */
  lemma StripDefaultsIdempotent(d: string)
    ensures StripDefaults(StripDefaults(d)) == StripDefaults(d)
  {
    var r := FindDefaultsFrom(d, 0);
    if r.Some? {
      var s := r.value;
      var e := d[..s];
      forall t: nat | IsDefaultsClause(e, t)
        ensures false
      {
        assert e[t..t + |DefaultsMarker|] == d[t..t + |DefaultsMarker|];
        assert IsDefaultsClause(d, t);
      }
      assert FindDefaultsFrom(e, 0).None?;
    }
  }

  /** A description without a colon holds no directive at all. */
  lemma NoColonNoDirective(d: string, dir: Directive)
    requires ':' !in d
    ensures Search(d, dir).None?
  {
  }

  /** The match `re.search` reports is the one preferred over all others. */
  lemma SearchFindsPreferred(d: string, dir: Directive, m: Match)
    requires IsMatch(d, dir, m)
    requires forall m' :: IsMatch(d, dir, m') ==> PreferredOver(m, m')
    ensures Search(d, dir) == Some(m)
  {
    var r := Search(d, dir).value;
    assert r.start == m.start && r.groupEnd == m.groupEnd && r.end == m.end;
    OpenAfterBlanks(d, dir, m);
    OpenAfterBlanks(d, dir, r);
    assert r.groupStart == m.groupStart;
  }

  /** A match whose opening token occurs nowhere else, whose closing token is
      the last one in the text and that cannot take a blank more on either
      side is the one `re.search` reports. */
  lemma ReportedWhenTokensUnique(d: string, dir: Directive, m: Match)
    requires IsMatch(d, dir, m)
    requires forall q: nat :: IsAt(d, q, dir.open) ==> q == m.groupStart - |dir.open|
    requires forall c: nat :: IsAt(d, c, dir.close) ==> c <= m.groupEnd
    requires m.start == 0 || d[m.start - 1] != ' '
    requires m.end == |d| || d[m.end] != ' '
    ensures IsReportedMatch(d, dir, m)
  {
    forall m' | IsMatch(d, dir, m')
      ensures PreferredOver(m, m')
    {
      if m'.start < m.start {
        assert d[m.start - 1] == ' ';
      }
    }
  }
}
