/**
 * The java.lang.String operations the search service calls: case mapping,
 * case-insensitive comparison, trim and split. Case mapping covers the ASCII
 * letters only.
 */
module JavaText {
  import opened JavaLang

  // ---------------------------------------------------------------- case

  function ToLowerChar(c: char): char
  {
    if 'A' <= c <= 'Z' then (c as int - 'A' as int + 'a' as int) as char else c
  }

  function ToUpperChar(c: char): char
  {
    if 'a' <= c <= 'z' then (c as int - 'a' as int + 'A' as int) as char else c
  }

  /** String.toLowerCase, restricted to ASCII letters. */
  function ToLower(s: string): (r: string)
    ensures |r| == |s|
    ensures forall i :: 0 <= i < |s| ==> r[i] == ToLowerChar(s[i])
  {
    seq(|s|, i requires 0 <= i < |s| => ToLowerChar(s[i]))
  }

  /** String.equalsIgnoreCase: same length, and each pair of characters equal after upper- or lower-casing. */
  predicate EqualsIgnoreCase(a: string, b: string)
  {
    |a| == |b| &&
    forall i :: 0 <= i < |a| ==>
      a[i] == b[i] || ToUpperChar(a[i]) == ToUpperChar(b[i]) || ToLowerChar(a[i]) == ToLowerChar(b[i])
  }

  /** Comparing ignoring case is comparing the lower-cased forms. */
  lemma EqualsIgnoreCaseIsLowerEquality(a: string, b: string)
    ensures EqualsIgnoreCase(a, b) <==> ToLower(a) == ToLower(b)
  {
    if ToLower(a) == ToLower(b) {
      assert |a| == |b|;
      forall i | 0 <= i < |a|
        ensures ToLowerChar(a[i]) == ToLowerChar(b[i])
      {
        assert ToLower(a)[i] == ToLower(b)[i];
      }
    }
    if EqualsIgnoreCase(a, b) {
      forall i | 0 <= i < |a|
        ensures ToLower(a)[i] == ToLower(b)[i]
      {
        assert a[i] == b[i] || ToUpperChar(a[i]) == ToUpperChar(b[i]) || ToLowerChar(a[i]) == ToLowerChar(b[i]);
      }
    }
  }

  // ---------------------------------------------------------------- trim

  /** The index of the first character at or after `i` above U+0020, or |s|: where String.trim starts. */
  function FirstVisible(s: string, i: nat): (k: nat)
    requires i <= |s|
    ensures i <= k <= |s|
    ensures forall j :: i <= j < k ==> s[j] <= ' '
    ensures k < |s| ==> s[k] > ' '
    decreases |s| - i
  {
    if i < |s| && s[i] <= ' ' then FirstVisible(s, i + 1) else i
  }

  /** The end of the text between `a` and `e` once its blank suffix is cut: where String.trim stops. */
  function EndVisible(s: string, a: nat, e: nat): (k: nat)
    requires a <= e <= |s|
    ensures a <= k <= e
    ensures forall j :: k <= j < e ==> s[j] <= ' '
    ensures k > a ==> s[k - 1] > ' '
    decreases e - a
  {
    if e > a && s[e - 1] <= ' ' then EndVisible(s, a, e - 1) else e
  }

  /** `t` is the slice of `s` starting at `a`, and every character of `s` outside it is blank. */
  predicate BlankBordered(s: string, a: int, t: string)
  {
    0 <= a <= |s| - |t| && t == s[a..a + |t|] &&
    forall j :: 0 <= j < |s| && (j < a || a + |t| <= j) ==> s[j] <= ' '
  }

  /** String.trim: the contiguous slice left once a blank prefix and a blank suffix are cut. */
  function Trim(s: string): (t: string)
    ensures |t| <= |s|
    ensures t == [] || (t[0] > ' ' && t[|t| - 1] > ' ')
    ensures exists a :: BlankBordered(s, a, t)
  {
    var a := FirstVisible(s, 0);
    var e := EndVisible(s, a, |s|);
    assert BlankBordered(s, a, s[a..e]);
    s[a..e]
  }

  /**
   * Trimming removes only blanks: every visible character stays, in place
   * relative to the cut prefix.
   */
  lemma TrimKeepsVisible(s: string)
    ensures forall i :: 0 <= i < |s| && s[i] > ' ' ==>
      FirstVisible(s, 0) <= i < FirstVisible(s, 0) + |Trim(s)| && Trim(s)[i - FirstVisible(s, 0)] == s[i]
  {
    var a := FirstVisible(s, 0);
    var e := EndVisible(s, a, |s|);
    var t := Trim(s);
    assert t == s[a..e];
    forall i | 0 <= i < |s| && s[i] > ' '
      ensures a <= i < a + |t| && t[i - a] == s[i]
    {
      VisibleInSlice(s, a, e, t, i);
    }
  }

  /** A visible character lies inside the slice between the blank prefix and the blank suffix. */
  lemma VisibleInSlice(s: string, a: nat, e: nat, t: string, i: nat)
    requires a == FirstVisible(s, 0) && e == EndVisible(s, a, |s|) && t == s[a..e]
    requires i < |s| && s[i] > ' '
    ensures a <= i < a + |t| && t[i - a] == s[i]
  {
  }

  /** A string that neither starts nor ends with a blank is left unchanged. */
  lemma TrimWithoutBlankEnds(s: string)
    requires s != [] && s[0] > ' ' && s[|s| - 1] > ' '
    ensures Trim(s) == s
  {
    assert FirstVisible(s, 0) == 0;
    assert EndVisible(s, 0, |s|) == |s|;
  }

  // ---------------------------------------------------------------- split

  /** The separator occurs in `s` starting at index `i`. */
  predicate OccursAt(s: string, sep: string, i: nat)
  {
    i + |sep| <= |s| && s[i..i + |sep|] == sep
  }

  /** String.indexOf(sep, from): the leftmost occurrence at or after `from`. */
  function IndexOf(s: string, sep: string, from: nat): (r: Option<nat>)
    requires from <= |s|
    ensures r.Some? ==> from <= r.value && OccursAt(s, sep, r.value)
    ensures r.Some? ==> forall j :: from <= j < r.value ==> !OccursAt(s, sep, j)
    ensures r.None? ==> forall j :: from <= j ==> !OccursAt(s, sep, j)
    decreases |s| - from
  {
    if from + |sep| > |s| then None
    else if OccursAt(s, sep, from) then Some(from)
    else IndexOf(s, sep, from + 1)
  }

  /** The text between successive leftmost, non-overlapping occurrences of `sep`. */
  function Pieces(s: string, sep: string): (ps: seq<string>)
    requires |sep| > 0
    ensures |ps| >= 1
    decreases |s|
  {
    match IndexOf(s, sep, 0)
    case None => [s]
    case Some(i) => [s[..i]] + Pieces(s[i + |sep|..], sep)
  }

  /** Puts the separator back between the pieces. */
  function Join(ps: seq<string>, sep: string): string
  {
    if |ps| == 0 then []
    else if |ps| == 1 then ps[0]
    else ps[0] + sep + Join(ps[1..], sep)
  }

  /** Removes empty strings from the end, as split with a zero limit does. */
  function DropTrailingEmpty(ps: seq<string>): (r: seq<string>)
    ensures |r| <= |ps| && r == ps[..|r|]
    ensures r == [] || r[|r| - 1] != []
    ensures forall i :: |r| <= i < |ps| ==> ps[i] == []
  {
    if ps != [] && ps[|ps| - 1] == [] then DropTrailingEmpty(ps[..|ps| - 1]) else ps
  }

  /**
   * String.split(sep) with a separator free of regular-expression metacharacters:
   * the whole string when the separator does not occur, otherwise the pieces
   * without their trailing empty strings.
   */
  function Split(s: string, sep: string): seq<string>
    requires |sep| > 0
  {
    if IndexOf(s, sep, 0).None? then [s] else DropTrailingEmpty(Pieces(s, sep))
  }

  /** Splitting and joining back gives the original string. */
  lemma {:induction false} JoinPieces(s: string, sep: string)
    requires |sep| > 0
    ensures Join(Pieces(s, sep), sep) == s
    decreases |s|
  {
    match IndexOf(s, sep, 0)
    case None =>
    case Some(i) =>
      var rest := s[i + |sep|..];
      var ps := Pieces(s, sep);
      JoinPieces(rest, sep);
      assert ps == [s[..i]] + Pieces(rest, sep);
      assert ps[1..] == Pieces(rest, sep);
      assert Join(ps, sep) == s[..i] + sep + Join(Pieces(rest, sep), sep);
      assert s[i..i + |sep|] == sep;
      assert s == s[..i] + s[i..i + |sep|] + rest;
  }

  /** No piece contains the separator. */
  lemma {:induction false} PiecesAreSeparatorFree(s: string, sep: string)
    requires |sep| > 0
    ensures forall k :: 0 <= k < |Pieces(s, sep)| ==> IndexOf(Pieces(s, sep)[k], sep, 0).None?
    decreases |s|
  {
    match IndexOf(s, sep, 0)
    case None =>
    case Some(i) =>
      PiecesAreSeparatorFree(s[i + |sep|..], sep);
      var head := s[..i];
      if IndexOf(head, sep, 0).Some? {
        var j := IndexOf(head, sep, 0).value;
        OccursInPrefix(s, sep, i, j);
      }
  }

  /** An occurrence in a prefix is an occurrence in the whole string. */
  lemma OccursInPrefix(s: string, sep: string, i: nat, j: nat)
    requires i <= |s| && OccursAt(s[..i], sep, j)
    ensures OccursAt(s, sep, j)
  {
    assert forall t :: j <= t < j + |sep| ==> s[t] == s[..i][t];
    assert s[j..j + |sep|] == s[..i][j..j + |sep|];
  }

  /** Every part split returns is free of the separator; what split drops is empty. */
  lemma SplitParts(s: string, sep: string)
    requires |sep| > 0
    ensures forall k :: 0 <= k < |Split(s, sep)| ==> IndexOf(Split(s, sep)[k], sep, 0).None?
    ensures IndexOf(s, sep, 0).Some? ==>
      var ps := Pieces(s, sep);
      Split(s, sep) == ps[..|Split(s, sep)|] && forall k :: |Split(s, sep)| <= k < |ps| ==> ps[k] == []
  {
    PiecesAreSeparatorFree(s, sep);
  }

  /** A string none of whose characters occurs in the separator contains no occurrence of it. */
  lemma SeparatorFree(s: string, sep: string)
    requires |sep| > 0
    requires forall i :: 0 <= i < |s| ==> s[i] !in sep
    ensures IndexOf(s, sep, 0).None?
  {
    forall j: nat | j < |s|
      ensures !OccursAt(s, sep, j)
    {
      assert s[j] !in sep;
    }
  }

  /** `a` + separator + `b` splits back into `a` and `b` when neither shares a character with the separator. */
  lemma SplitAround(a: string, sep: string, b: string)
    requires |sep| > 0 && b != []
    requires forall i :: 0 <= i < |a| ==> a[i] !in sep
    requires forall i :: 0 <= i < |b| ==> b[i] !in sep
    ensures Split(a + sep + b, sep) == [a, b]
  {
    var s := a + sep + b;
    forall j: nat | j < |a|
      ensures !OccursAt(s, sep, j)
    {
      assert s[j] == a[j];
    }
    assert s[|a|..|a| + |sep|] == sep;
    assert OccursAt(s, sep, |a|);
    assert IndexOf(s, sep, 0) == Some(|a|);
    assert s[|a| + |sep|..] == b;
    assert s[..|a|] == a;
    SeparatorFree(b, sep);
    assert Pieces(b, sep) == [b];
    assert Pieces(s, sep) == [a, b];
  }

  /**
   * The same split when only the first occurrence is known: `a` ends where the
   * separator first occurs and `b` holds none.
   */
  lemma SplitAtFirst(a: string, sep: string, b: string)
    requires |sep| > 0 && b != []
    requires IndexOf(a + sep + b, sep, 0) == Some(|a|)
    requires IndexOf(b, sep, 0).None?
    ensures Split(a + sep + b, sep) == [a, b]
  {
    var s := a + sep + b;
    assert s[|a| + |sep|..] == b;
    assert s[..|a|] == a;
    assert Pieces(b, sep) == [b];
    assert Pieces(s, sep) == [a, b];
  }

  /**
   * Blank-padded parts split apart: a separator of two characters or more that
   * starts with a blank first occurs after the padded first part.
   */
  lemma SplitPadded(x: string, sep: string, y: string)
    requires |sep| >= 2 && sep[0] == ' ' && x != [] && y != []
    requires forall i :: 0 <= i < |x| ==> x[i] > ' ' && x[i] !in sep
    requires forall i :: 0 <= i < |y| ==> y[i] > ' ' && y[i] !in sep
    ensures Split([' '] + x + sep + (y + [' ']), sep) == [[' '] + x, y + [' ']]
  {
    var a, b := [' '] + x, y + [' '];
    PaddedFirstOccurrence(x, sep, b);
    PaddedTailFree(y, sep);
    SplitAtFirst(a, sep, b);
  }

  /** The separator does not occur inside a blank followed by separator-free text. */
  lemma PaddedFirstOccurrence(x: string, sep: string, b: string)
    requires |sep| >= 2 && x != []
    requires forall i :: 0 <= i < |x| ==> x[i] > ' ' && x[i] !in sep
    ensures IndexOf([' '] + x + sep + b, sep, 0) == Some(1 + |x|)
  {
    var s := [' '] + x + sep + b;
    forall j: nat | j < 1 + |x|
      ensures !OccursAt(s, sep, j)
    {
      if j == 0 {
        assert s[0..|sep|][1] == x[0];
      } else {
        assert s[j..j + |sep|][0] == x[j - 1];
      }
    }
    assert s[1 + |x|..1 + |x| + |sep|] == sep;
    assert OccursAt(s, sep, 1 + |x|);
  }

  /** Separator-free text followed by one blank holds no separator of two characters or more. */
  lemma PaddedTailFree(y: string, sep: string)
    requires |sep| >= 2
    requires forall i :: 0 <= i < |y| ==> y[i] !in sep
    ensures IndexOf(y + [' '], sep, 0).None?
  {
    var b := y + [' '];
    forall j: nat | j < |b|
      ensures !OccursAt(b, sep, j)
    {
      if j + |sep| <= |b| {
        assert b[j..j + |sep|][0] == y[j];
        assert y[j] !in sep;
      }
    }
  }

  /** One blank before visible text is trimmed away. */
  lemma TrimLeadingBlank(x: string)
    requires forall i :: 0 <= i < |x| ==> x[i] > ' '
    ensures Trim([' '] + x) == x
  {
    var s := [' '] + x;
    assert FirstVisible(s, 1) == 1;
    assert FirstVisible(s, 0) == 1;
    assert EndVisible(s, 1, |s|) == |s|;
    assert s[1..] == x;
  }

  /** One blank after visible text is trimmed away. */
  lemma TrimTrailingBlank(y: string)
    requires y != []
    requires forall i :: 0 <= i < |y| ==> y[i] > ' '
    ensures Trim(y + [' ']) == y
  {
    var s := y + [' '];
    assert FirstVisible(s, 0) == 0;
    assert EndVisible(s, 0, |y|) == |y|;
    assert EndVisible(s, 0, |s|) == |y|;
    assert s[0..|y|] == y;
  }
}
