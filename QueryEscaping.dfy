/**
 * Escaping of the Lucene query text before it is sent as a query-string query
 * (EsSearchApiService.escape and EsSearchApiService.escapeCustomFields).
 */
module QueryEscaping {
  import opened JavaLang

  // ================================================================ escape

  /** What `escape` appends for one character. */
  function EscapeChar(c: char): string
  {
    if c == '/' then ['\\', '/'] else [c]
  }

  /** The text `escape` builds: every slash gets one backslash in front of it. */
  function Escaped(s: string): string
  {
    if s == [] then [] else EscapeChar(s[0]) + Escaped(s[1..])
  }

  lemma {:induction false} EscapedAppend(s: string, c: char)
    ensures Escaped(s + [c]) == Escaped(s) + EscapeChar(c)
  {
    if s == [] {
      assert [c][1..] == [];
    } else {
      assert (s + [c])[1..] == s[1..] + [c];
      EscapedAppend(s[1..], c);
    }
  }

  /** `escape`: appends each character to a StringBuilder, a backslash first when it is a slash. */
  method Escape(s: string) returns (r: string)
    ensures r == Escaped(s)
  {
    r := [];
    for i := 0 to |s|
      invariant r == Escaped(s[..i])
    {
      var c := s[i];
      if c == '/' {
        r := r + ['\\'];
      }
      r := r + [c];
      assert s[..i + 1] == s[..i] + [c];
      EscapedAppend(s[..i], c);
    }
    assert s[..|s|] == s;
  }

  /** Exactly one character is added per slash. */
  lemma {:induction false} EscapedLength(s: string)
    ensures |Escaped(s)| == |s| + multiset(s)['/']
  {
    if s != [] {
      EscapedLength(s[1..]);
      assert s == [s[0]] + s[1..];
      assert multiset(s) == multiset([s[0]]) + multiset(s[1..]);
    }
  }

  /** Every slash of the output has a backslash just before it. */
  lemma {:induction false} SlashesAreEscaped(s: string)
    ensures forall i :: 0 <= i < |Escaped(s)| && Escaped(s)[i] == '/' ==> i > 0 && Escaped(s)[i - 1] == '\\'
  {
    if s != [] {
      SlashesAreEscaped(s[1..]);
      var head := EscapeChar(s[0]);
      var r := Escaped(s);
      forall i | 0 <= i < |r| && r[i] == '/'
        ensures i > 0 && r[i - 1] == '\\'
      {
        if i >= |head| {
          assert r[i] == Escaped(s[1..])[i - |head|];
        }
      }
    }
  }

  /** Removes the backslash in front of every escaped slash, reading from the left. */
  function Unescaped(t: string): string
  {
    if |t| >= 2 && t[0] == '\\' && t[1] == '/' then ['/'] + Unescaped(t[2..])
    else if t == [] then []
    else [t[0]] + Unescaped(t[1..])
  }

  /** Removing the inserted backslashes gives the input back: no other character is added, dropped or moved. */
  lemma {:induction false} UnescapeEscaped(s: string)
    ensures Unescaped(Escaped(s)) == s
  {
    if s != [] {
      var rest := Escaped(s[1..]);
      UnescapeEscaped(s[1..]);
      var t := Escaped(s);
      if s[0] == '/' {
        assert t == ['\\', '/'] + rest;
        assert t[2..] == rest;
      } else {
        assert t == [s[0]] + rest;
        assert t[1..] == rest;
        if rest != [] {
          assert rest[0] != '/';
        }
      }
    }
  }

  // ================================================================ escapeCustomFields

  /*
   * The pattern `custom_fields[A-Za-z\\/]*?\s.*?:` is matched by an explicit scanner.
   * The run of name characters is lazy, but a whitespace character is never a name
   * character, so the only way to go on is to stop exactly where the run ends; the
   * lazy `.*?:` then ends at the first colon, provided no line terminator comes first.
   */

  const Marker: string := "custom_fields"

  /** The literal `custom_fields` starts at index `p`. */
  predicate MarkerAt(s: string, p: nat)
  {
    p + |Marker| <= |s| && s[p..p + |Marker|] == Marker
  }

  /** The class `[A-Za-z\\/]`. */
  predicate IsNameChar(c: char)
  {
    'A' <= c <= 'Z' || 'a' <= c <= 'z' || c == '\\' || c == '/'
  }

  /** The class `\s`: space, tab, line feed, vertical tab, form feed, carriage return. */
  predicate IsWhitespace(c: char)
  {
    c == ' ' || c == '\t' || c == '\n' || c == '\U{B}' || c == '\U{C}' || c == '\r'
  }

  /** The characters `.` does not match. */
  predicate IsLineTerminator(c: char)
  {
    c == '\n' || c == '\r' || c == '\U{85}' || c == '\U{2028}' || c == '\U{2029}'
  }

  /** The end of the run of name characters that starts at `i`. */
  function NameRunEnd(s: string, i: nat): (k: nat)
    requires i <= |s|
    ensures i <= k <= |s|
    ensures forall j :: i <= j < k ==> IsNameChar(s[j])
    ensures k < |s| ==> !IsNameChar(s[k])
    decreases |s| - i
  {
    if i < |s| && IsNameChar(s[i]) then NameRunEnd(s, i + 1) else i
  }

  /** The first colon at or after `i`, unless a line terminator or the end of the text comes first. */
  function ColonFrom(s: string, i: nat): (j: Option<nat>)
    requires i <= |s|
    ensures j.Some? ==> i <= j.value < |s| && s[j.value] == ':'
    ensures j.Some? ==> forall t :: i <= t < j.value ==> s[t] != ':' && !IsLineTerminator(s[t])
    decreases |s| - i
  {
    if i == |s| || IsLineTerminator(s[i]) then None
    else if s[i] == ':' then Some(i)
    else ColonFrom(s, i + 1)
  }

  /** When no colon is found, every later colon has a line terminator before it. */
  lemma {:induction false} NoColonFrom(s: string, i: nat)
    requires i <= |s| && ColonFrom(s, i).None?
    ensures forall t :: i <= t < |s| && s[t] == ':' ==> exists u :: i <= u < t && IsLineTerminator(s[u])
    decreases |s| - i
  {
    if i < |s| && !IsLineTerminator(s[i]) {
      NoColonFrom(s, i + 1);
    }
  }

  /** The end of the match that starts at `p`, if the pattern matches there. */
  function MatchAt(s: string, p: nat): (e: Option<nat>)
    ensures e.Some? ==> p + |Marker| < e.value <= |s|
  {
    if MarkerAt(s, p) then
      var k := NameRunEnd(s, p + |Marker|);
      if k < |s| && IsWhitespace(s[k]) then
        match ColonFrom(s, k + 1)
        case None => None
        case Some(j) => Some(j + 1)
      else None
    else None
  }

  /** s[p..e] is a word of the pattern's language, ignoring laziness. */
  ghost predicate SpanMatches(s: string, p: nat, e: nat)
  {
    && p + |Marker| < e <= |s|
    && MarkerAt(s, p)
    && s[e - 1] == ':'
    && exists k :: p + |Marker| <= k < e - 1 && IsWhitespace(s[k])
         && (forall j :: p + |Marker| <= j < k ==> IsNameChar(s[j]))
         && (forall j :: k < j < e - 1 ==> !IsLineTerminator(s[j]))
  }

  /**
   * The scanner agrees with the regular expression: it reports a match at `p` exactly
   * when some span starting at `p` is in the pattern's language, and then the shortest
   * one, which is the one the lazy quantifiers select.
   */
  lemma MatchAtIsShortestSpan(s: string, p: nat)
    ensures MatchAt(s, p).Some? ==>
      SpanMatches(s, p, MatchAt(s, p).value) && forall e: nat :: e < MatchAt(s, p).value ==> !SpanMatches(s, p, e)
    ensures MatchAt(s, p).None? ==> forall e: nat :: !SpanMatches(s, p, e)
  {
    if MarkerAt(s, p) {
      var k := NameRunEnd(s, p + |Marker|);
      if k < |s| && IsWhitespace(s[k]) {
        match ColonFrom(s, k + 1)
        case None =>
          NoColonFrom(s, k + 1);
          forall e: nat | SpanMatches(s, p, e)
            ensures false
          {
            SpanShape(s, p, e);
          }
        case Some(j) =>
          assert SpanMatches(s, p, j + 1);
          forall e: nat | e < j + 1 && SpanMatches(s, p, e)
            ensures false
          {
            SpanShape(s, p, e);
          }
      } else {
        forall e: nat | SpanMatches(s, p, e)
          ensures false
        {
          SpanShape(s, p, e);
        }
      }
    }
  }

  /** In any span of the pattern's language the whitespace sits where the run of name characters ends. */
  lemma SpanShape(s: string, p: nat, e: nat)
    requires SpanMatches(s, p, e)
    ensures var k := NameRunEnd(s, p + |Marker|);
      && k < e - 1 && IsWhitespace(s[k]) && s[e - 1] == ':'
      && forall j :: k < j < e - 1 ==> !IsLineTerminator(s[j])
  {
    var m := |Marker|;
    var k := NameRunEnd(s, p + m);
    var k' :| p + m <= k' < e - 1 && IsWhitespace(s[k'])
      && (forall j :: p + m <= j < k' ==> IsNameChar(s[j]))
      && (forall j :: k' < j < e - 1 ==> !IsLineTerminator(s[j]));
    assert k' == k;
  }

  /** Matcher.find() resumed at `pos`: the leftmost match starting at or after `pos`. */
  function FindFrom(s: string, pos: nat): (m: Option<(nat, nat)>)
    requires pos <= |s|
    ensures m.Some? ==> pos <= m.value.0 && m.value.0 + |Marker| < m.value.1 <= |s|
    decreases |s| - pos
  {
    if pos == |s| then None
    else
      match MatchAt(s, pos)
      case Some(e) => Some((pos, e))
      case None => FindFrom(s, pos + 1)
  }

  /** `m` is the match with the leftmost start at or after `pos`, or None when there is no match there. */
  ghost predicate IsLeftmost(s: string, pos: nat, m: Option<(nat, nat)>)
  {
    match m
    case None => forall q :: pos <= q ==> MatchAt(s, q).None?
    case Some((a, e)) => MatchAt(s, a) == Some(e) && forall q :: pos <= q < a ==> MatchAt(s, q).None?
  }

  /** find() reports the match with the leftmost start, and none when the pattern matches nowhere. */
  lemma {:induction false} FindFromIsLeftmost(s: string, pos: nat)
    requires pos <= |s|
    ensures IsLeftmost(s, pos, FindFrom(s, pos))
    decreases |s| - pos
  {
    if pos == |s| {
      assert forall q :: pos <= q ==> !MarkerAt(s, q);
    } else if MatchAt(s, pos).None? {
      FindFromIsLeftmost(s, pos + 1);
    }
  }

  /** The matches successive calls of find() report, each search resuming where the previous match ended. */
  function MatchesFrom(s: string, pos: nat): (ms: seq<(nat, nat)>)
    requires pos <= |s|
    ensures forall i :: 0 <= i < |ms| ==> pos <= ms[i].0 < ms[i].1 <= |s|
    decreases |s| - pos
  {
    match FindFrom(s, pos)
    case None => []
    case Some((a, e)) => [(a, e)] + MatchesFrom(s, e)
  }

  /** Successive matches are ordered and do not overlap. */
  lemma {:induction false} MatchesAreDisjoint(s: string, pos: nat)
    requires pos <= |s|
    ensures forall i, j :: 0 <= i < j < |MatchesFrom(s, pos)| ==> MatchesFrom(s, pos)[i].1 <= MatchesFrom(s, pos)[j].0
    decreases |s| - pos
  {
    match FindFrom(s, pos)
    case None =>
    case Some((a, e)) =>
      MatchesAreDisjoint(s, e);
  }

  /** Position `i` lies inside one of the matches find() reports from `pos` on. */
  ghost predicate InsideMatchFrom(s: string, pos: nat, i: nat)
    requires pos <= |s|
  {
    exists m :: m in MatchesFrom(s, pos) && m.0 <= i < m.1
  }

  /** Position `i` lies inside one of the matches find() reports over the whole text. */
  ghost predicate InsideMatch(s: string, i: nat)
  {
    InsideMatchFrom(s, 0, i)
  }

  /** What `replaceAll(" ", "\\\\ ")` makes of one character. */
  function SpaceEscaped(c: char): string
  {
    if c == ' ' then "\\ " else [c]
  }

  /** `replaceAll(" ", "\\\\ ")`: a backslash before every space, other characters (tabs included) kept. */
  function EscapeSpaces(t: string): (r: string)
    ensures |r| >= |t|
  {
    if t == [] then [] else SpaceEscaped(t[0]) + EscapeSpaces(t[1..])
  }

  /** The text escapeCustomFields returns: unmatched text copied, each match with its spaces escaped. */
  function ScanFrom(s: string, pos: nat): string
    requires pos <= |s|
    decreases |s| - pos
  {
    match FindFrom(s, pos)
    case None => s[pos..]
    case Some((a, e)) => s[pos..a] + EscapeSpaces(s[a..e]) + ScanFrom(s, e)
  }

  function CustomFieldsEscaped(s: string): string
  {
    ScanFrom(s, 0)
  }

  /**
   * `escapeCustomFields`: splices each match, spaces escaped, into the working string.
   * The matcher keeps reading the ORIGINAL string, so each match's bounds are shifted by
   * the characters added so far (`offset`).
   */
  method EscapeCustomFields(s: string) returns (escaped: string)
    ensures escaped == CustomFieldsEscaped(s)
  {
    escaped := s;
    var matcherPos: nat := 0;
    var offset: int := 0;
    ghost var done: string := [];   // the finished part of `escaped`, before the matcher's position
    ghost var whole := CustomFieldsEscaped(s);
    var m := FindFrom(s, matcherPos);
    while m.Some?
      invariant matcherPos <= |s|
      invariant m == FindFrom(s, matcherPos)
      invariant |done| == matcherPos + offset
      invariant escaped == done + s[matcherPos..]
      invariant whole == done + ScanFrom(s, matcherPos)
      decreases |s| - matcherPos
    {
      var a, e := m.value.0, m.value.1;
      var start := a + offset;
      var end := e + offset;
      ghost var next := done + s[matcherPos..a] + EscapeSpaces(s[a..e]);
      SpliceStep(s, matcherPos, done, a, e, escaped, start, end);
      ScanAdvance(s, matcherPos, done, a, e, whole);
      var substring := escaped[start..end];
      var startString := escaped[..start];
      var endString := escaped[end..];
      var middleString := EscapeSpaces(substring);
      offset := offset + |middleString| - |substring|;
      escaped := startString + middleString + endString;
      assert escaped == next + s[e..];
      done := next;
      matcherPos := e;
      m := FindFrom(s, matcherPos);
    }
    FinishScan(s, matcherPos, done, escaped, whole);
  }

  /** When find() fails, the rest of the text is copied: the working string is the final text. */
  lemma FinishScan(s: string, pos: nat, done: string, escaped: string, whole: string)
    requires pos <= |s| && FindFrom(s, pos).None?
    requires escaped == done + s[pos..] && whole == done + ScanFrom(s, pos)
    ensures escaped == whole
  {
    ScanStep(s, pos);
  }

  /**
   * One splice of the loop: cutting the match out of the working string, at its
   * bounds shifted by the finished text, and putting it back escaped, finishes
   * the text up to the match's end.
   */
  lemma SpliceStep(s: string, pos: nat, done: string, a: nat, e: nat, w: string, start: int, end: int)
    requires pos <= a <= e <= |s|
    requires w == done + s[pos..]
    requires start == |done| + (a - pos) && end == |done| + (e - pos)
    ensures 0 <= start <= end <= |w|
    ensures w[start..end] == s[a..e]
    ensures w[..start] + EscapeSpaces(s[a..e]) + w[end..] == (done + s[pos..a] + EscapeSpaces(s[a..e])) + s[e..]
  {
    SpliceSlices(done, s[pos..], a - pos, e - pos);
    SliceOfSuffix(s, pos, a, e);
  }

  /** The text finished by one splice is a prefix of the final text, the scan going on from the match's end. */
  lemma ScanAdvance(s: string, pos: nat, done: string, a: nat, e: nat, whole: string)
    requires pos <= |s| && FindFrom(s, pos) == Some((a, e))
    requires whole == done + ScanFrom(s, pos)
    ensures whole == (done + s[pos..a] + EscapeSpaces(s[a..e])) + ScanFrom(s, e)
  {
    ScanStep(s, pos);
    Regroup(done, s[pos..a], EscapeSpaces(s[a..e]), ScanFrom(s, e));
  }

  /** One step of the scan: the text up to the next match, the escaped match, then the rest. */
  lemma ScanStep(s: string, pos: nat)
    requires pos <= |s|
    ensures FindFrom(s, pos).None? ==> ScanFrom(s, pos) == s[pos..]
    ensures FindFrom(s, pos).Some? ==>
      var (a, e) := FindFrom(s, pos).value;
      ScanFrom(s, pos) == s[pos..a] + EscapeSpaces(s[a..e]) + ScanFrom(s, e)
  {
  }

  lemma Regroup(w: string, x: string, y: string, z: string)
    ensures w + (x + y + z) == (w + x + y) + z
  {
  }

  lemma SliceOfSuffix(s: string, p: nat, a: nat, e: nat)
    requires p <= a <= e <= |s|
    ensures s[p..][a - p..e - p] == s[a..e]
    ensures s[p..][..a - p] == s[p..a]
    ensures s[p..][e - p..] == s[e..]
  {
  }

  /** Slicing `done + rest` at positions inside `rest`. */
  lemma SpliceSlices(done: string, rest: string, i: nat, j: nat)
    requires i <= j <= |rest|
    ensures (done + rest)[|done| + i..|done| + j] == rest[i..j]
    ensures (done + rest)[..|done| + i] == done + rest[..i]
    ensures (done + rest)[|done| + j..] == rest[j..]
  {
  }

  // ---------------------------------------------------------------- what the result looks like

  /** Each flagged space becomes an escaped space; every other character is copied. */
  function Expand(t: string, flags: seq<bool>): string
    requires |flags| == |t|
  {
    if t == [] then [] else (if flags[0] then SpaceEscaped(t[0]) else [t[0]]) + Expand(t[1..], flags[1..])
  }

  /** `n` copies of the flag `b`. */
  function Flags(n: nat, b: bool): (f: seq<bool>)
    ensures |f| == n
    ensures forall i :: 0 <= i < n ==> f[i] == b
  {
    seq(n, _ => b)
  }

  /** For each position from `pos` on, whether it lies inside a match. */
  function Coverage(s: string, pos: nat): (c: seq<bool>)
    requires pos <= |s|
    ensures |c| == |s| - pos
    decreases |s| - pos
  {
    match FindFrom(s, pos)
    case None => Flags(|s| - pos, false)
    case Some((a, e)) => Flags(a - pos, false) + Flags(e - a, true) + Coverage(s, e)
  }

  lemma {:induction false} ExpandAppend(a: string, f: seq<bool>, b: string, g: seq<bool>)
    requires |f| == |a| && |g| == |b|
    ensures Expand(a + b, f + g) == Expand(a, f) + Expand(b, g)
  {
    if a != [] {
      assert (a + b)[1..] == a[1..] + b;
      assert (f + g)[1..] == f[1..] + g;
      ExpandAppend(a[1..], f[1..], b, g);
    } else {
      assert a + b == b && f + g == g;
    }
  }

  lemma {:induction false} ExpandUnflagged(t: string)
    ensures Expand(t, Flags(|t|, false)) == t
  {
    if t != [] {
      assert Flags(|t|, false)[1..] == Flags(|t| - 1, false);
      ExpandUnflagged(t[1..]);
    }
  }

  lemma {:induction false} ExpandFlagged(t: string)
    ensures Expand(t, Flags(|t|, true)) == EscapeSpaces(t)
  {
    if t != [] {
      assert Flags(|t|, true)[1..] == Flags(|t| - 1, true);
      ExpandFlagged(t[1..]);
    }
  }

  /** Unflagged text, then flagged text, then the rest: the first copied, the second escaped. */
  lemma ExpandSplit(x: string, y: string, z: string, c: seq<bool>)
    requires |c| == |z|
    ensures Expand(x + y + z, Flags(|x|, false) + Flags(|y|, true) + c) == x + EscapeSpaces(y) + Expand(z, c)
  {
    var f1, f2 := Flags(|x|, false), Flags(|y|, true);
    ExpandAppend(x + y, f1 + f2, z, c);
    ExpandAppend(x, f1, y, f2);
    ExpandUnflagged(x);
    ExpandFlagged(y);
  }

  lemma SliceSplit(s: string, p: nat, a: nat, e: nat)
    requires p <= a <= e <= |s|
    ensures s[p..] == s[p..a] + s[a..e] + s[e..]
  {
  }

  /** One step of the scan, on its parts: copied text `x`, a match `y`, and the rest `z` already expanded. */
  lemma StepIsExpand(x: string, y: string, z: string, c: seq<bool>, scanned: string, scan: string, cov: seq<bool>, t: string)
    requires |c| == |z| && scanned == Expand(z, c)
    requires scan == x + EscapeSpaces(y) + scanned
    requires cov == Flags(|x|, false) + Flags(|y|, true) + c
    requires t == x + y + z
    ensures |cov| == |t| && scan == Expand(t, cov)
  {
    ExpandSplit(x, y, z, c);
  }

  lemma {:induction false} ScanIsExpand(s: string, pos: nat)
    requires pos <= |s|
    ensures ScanFrom(s, pos) == Expand(s[pos..], Coverage(s, pos))
    decreases |s| - pos
  {
    match FindFrom(s, pos)
    case None =>
      ExpandUnflagged(s[pos..]);
    case Some((a, e)) =>
      ScanIsExpand(s, e);
      SliceSplit(s, pos, a, e);
      StepIsExpand(s[pos..a], s[a..e], s[e..], Coverage(s, e), ScanFrom(s, e), ScanFrom(s, pos), Coverage(s, pos), s[pos..]);
  }

  lemma {:induction false} CoverageIsInsideMatch(s: string, pos: nat, i: nat)
    requires pos <= i < |s|
    ensures Coverage(s, pos)[i - pos] <==> InsideMatchFrom(s, pos, i)
    decreases |s| - pos
  {
    match FindFrom(s, pos)
    case None =>
    case Some((a, e)) =>
      var ms := MatchesFrom(s, pos);
      assert ms == [(a, e)] + MatchesFrom(s, e);
      if i < e {
        forall m | m in MatchesFrom(s, e)
          ensures !(m.0 <= i < m.1)
        {
        }
        if a <= i {
          assert (a, e) in ms;
        }
      } else {
        CoverageIsInsideMatch(s, e, i);
        assert Coverage(s, pos)[i - pos] == Coverage(s, e)[i - e];
        forall m | m in MatchesFrom(s, e) && m.0 <= i < m.1
          ensures m in ms
        {
        }
      }
  }

  /**
   * escapeCustomFields escapes exactly the spaces that lie inside a match of the pattern:
   * every character outside the matches, and every non-space character inside them
   * (tabs included), is copied unchanged and in order.
   */
  lemma CustomFieldsEscapedIsLocal(s: string)
    ensures CustomFieldsEscaped(s) == Expand(s, Coverage(s, 0))
    ensures forall i :: 0 <= i < |s| ==> (Coverage(s, 0)[i] <==> InsideMatch(s, i))
  {
    assert CustomFieldsEscaped(s) == Expand(s, Coverage(s, 0)) by {
      ScanIsExpand(s, 0);
      assert s[0..] == s;
    }
    forall i | 0 <= i < |s|
      ensures Coverage(s, 0)[i] <==> InsideMatch(s, i)
    {
      CoveredIsInside(s, i);
    }
  }

  lemma CoveredIsInside(s: string, i: nat)
    requires i < |s|
    ensures Coverage(s, 0)[i] <==> InsideMatch(s, i)
  {
    CoverageIsInsideMatch(s, 0, i);
  }

  /** A text in which `custom_fields` never occurs passes through unchanged. */
  lemma NoMarkerUnchanged(s: string)
    requires forall p: nat :: !MarkerAt(s, p)
    ensures CustomFieldsEscaped(s) == s
  {
    FindFromIsLeftmost(s, 0);
    assert FindFrom(s, 0).None?;
    assert s[0..] == s;
  }

  /** Query normalisation as getSearchHits applies it: slashes first, then custom-field spaces. */
  function NormalizedQuery(q: string): string
  {
    CustomFieldsEscaped(Escaped(q))
  }
}
