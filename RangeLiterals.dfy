/**
 * Decoding of the range literals a Liferay range facet declares, such as
 * `[20140603200000 TO 20140603220000]`, into the numeric bounds of an
 * Elasticsearch range aggregation.
 */
module RangeLiterals {
  import opened JavaLang
  import opened JavaText
  import opened SearchModel

  /**
   * fetchFromToValuesInRange: drops the first and last character of the literal
   * and splits what is left on the TO separator. `Success(None)` is the null the
   * caller skips; a one-character literal makes substring(1, 0) throw.
   */
  function FetchFromToValues(literal: Option<string>, to: string): (r: Result<Option<seq<string>>>)
    requires |to| > 0
    ensures r == Success(None) <==> literal.None? || literal.value == []
    ensures r.Error? <==> literal.Some? && |literal.value| == 1
    ensures r.Error? ==> r.failure == StringIndexOutOfBounds
  {
    if literal.None? || literal.value == [] then Success(None)
    else if |literal.value| == 1 then Error(StringIndexOutOfBounds)
    else Success(Some(Split(literal.value[1..|literal.value| - 1], to)))
  }

  /**
   * One iteration of the ranges loop: the bounds the literal adds, none for a
   * skipped literal, or the exception raised. Java evaluates the two
   * parseDouble arguments left to right, so the first part is parsed before
   * the second is indexed.
   */
  function RangeOf(literal: Option<string>, ext: Externals): Result<Option<(Double, Double)>>
    requires |ext.toSeparator| > 0
  {
    match FetchFromToValues(literal, ext.toSeparator)
    case Error(e) => Error(e)
    case Success(None) => Success(None)
    case Success(Some(parts)) =>
      if |parts| == 0 then Error(ArrayIndexOutOfBounds)
      else
        match ext.parseDouble(Trim(parts[0]))
        case None => Error(NumberFormat)
        case Some(from) =>
          if |parts| == 1 then Error(ArrayIndexOutOfBounds)
          else
            match ext.parseDouble(Trim(parts[1]))
            case None => Error(NumberFormat)
            case Some(to) => Success(Some((from, to)))
  }

  /** The outcome of each literal of the ranges array, in array order. */
  function Outcomes(literals: seq<Option<string>>, ext: Externals): (os: seq<Result<Option<(Double, Double)>>>)
    requires |ext.toSeparator| > 0
    ensures |os| == |literals|
    ensures forall i :: 0 <= i < |literals| ==> os[i] == RangeOf(literals[i], ext)
  {
    seq(|literals|, i requires 0 <= i < |literals| => RangeOf(literals[i], ext))
  }

  /** The bounds a loop over these outcomes adds, in order, or the first exception raised. */
  function Accumulated<T>(outcomes: seq<Result<Option<T>>>): Result<seq<T>>
  {
    if outcomes == [] then Success([])
    else
      match Accumulated(outcomes[..|outcomes| - 1])
      case Error(e) => Error(e)
      case Success(bounds) =>
        match outcomes[|outcomes| - 1]
        case Error(e) => Error(e)
        case Success(None) => Success(bounds)
        case Success(Some(b)) => Success(bounds + [b])
  }

  /** The bounds the whole ranges array adds, in array order, or the first exception raised. */
  function RangeBounds(literals: seq<Option<string>>, ext: Externals): Result<seq<(Double, Double)>>
    requires |ext.toSeparator| > 0
  {
    Accumulated(Outcomes(literals, ext))
  }

  /** Once a prefix of the outcomes holds an exception, the rest are never reached. */
  lemma {:induction false} ErrorIsFinal<T>(outcomes: seq<Result<Option<T>>>, i: nat)
    requires i <= |outcomes|
    requires Accumulated(outcomes[..i]).Error?
    ensures Accumulated(outcomes) == Accumulated(outcomes[..i])
    decreases |outcomes| - i
  {
    if i < |outcomes| {
      assert outcomes[..i + 1][..i] == outcomes[..i];
      ErrorIsFinal(outcomes, i + 1);
    } else {
      assert outcomes[..i] == outcomes;
    }
  }

  /**
   * The ranges loop of handleFacetQueries: each literal's bounds are added to
   * the range aggregation in turn, and the first exception leaves the loop.
   */
  method AddRanges(literals: seq<Option<string>>, ext: Externals) returns (r: Result<seq<(Double, Double)>>)
    requires |ext.toSeparator| > 0
    ensures r == RangeBounds(literals, ext)
  {
    ghost var outcomes := Outcomes(literals, ext);
    var ranges: seq<(Double, Double)> := [];
    for i := 0 to |literals|
      invariant Accumulated(outcomes[..i]) == Success(ranges)
    {
      assert outcomes[..i + 1][..i] == outcomes[..i];
      match RangeOf(literals[i], ext)
      case Error(e) =>
        ErrorIsFinal(outcomes, i + 1);
        return Error(e);
      case Success(None) =>
      case Success(Some(b)) =>
        ranges := ranges + [b];
    }
    assert outcomes[..|literals|] == outcomes;
    return Success(ranges);
  }

  /** A loop over outcomes completes exactly when none of them is an exception. */
  lemma {:induction false} AccumulatedSucceeds<T>(outcomes: seq<Result<Option<T>>>)
    ensures Accumulated(outcomes).Success? <==> forall i :: 0 <= i < |outcomes| ==> outcomes[i].Success?
    decreases |outcomes|
  {
    if outcomes != [] {
      var init := outcomes[..|outcomes| - 1];
      AccumulatedSucceeds(init);
      assert forall i :: 0 <= i < |init| ==> init[i] == outcomes[i];
    }
  }

  /** A loop over outcomes that throws, throws the first exception among them. */
  lemma {:induction false} AccumulatedFirstFailure<T>(outcomes: seq<Result<Option<T>>>)
    requires Accumulated(outcomes).Error?
    ensures exists i :: 0 <= i < |outcomes| && outcomes[i] == Error(Accumulated(outcomes).failure) &&
                        forall j :: 0 <= j < i ==> outcomes[j].Success?
    decreases |outcomes|
  {
    var init := outcomes[..|outcomes| - 1];
    var n := |outcomes| - 1;
    if Accumulated(init).Error? {
      AccumulatedFirstFailure(init);
      var i :| 0 <= i < |init| && init[i] == Error(Accumulated(init).failure) &&
        forall j :: 0 <= j < i ==> init[j].Success?;
      assert outcomes[i] == init[i];
      assert forall j :: 0 <= j < i ==> outcomes[j] == init[j];
    } else {
      AccumulatedSucceeds(init);
      assert forall j :: 0 <= j < n ==> outcomes[j] == init[j];
    }
  }

  /** When every outcome is a pair of bounds, the loop adds them all, in order. */
  lemma {:induction false} AccumulatedInOrder<T>(outcomes: seq<Result<Option<T>>>)
    requires forall i :: 0 <= i < |outcomes| ==> outcomes[i].Success? && outcomes[i].value.Some?
    ensures Accumulated(outcomes).Success?
    ensures |Accumulated(outcomes).value| == |outcomes|
    ensures forall i :: 0 <= i < |outcomes| ==> Accumulated(outcomes).value[i] == outcomes[i].value.value
    decreases |outcomes|
  {
    if outcomes != [] {
      var init := outcomes[..|outcomes| - 1];
      assert forall i :: 0 <= i < |init| ==> init[i] == outcomes[i];
      AccumulatedInOrder(init);
      var bounds := Accumulated(init).value;
      var b := outcomes[|outcomes| - 1].value.value;
      assert Accumulated(outcomes) == Success(bounds + [b]);
      forall i | 0 <= i < |outcomes|
        ensures (bounds + [b])[i] == outcomes[i].value.value
      {
        if i < |init| {
          assert init[i] == outcomes[i];
        }
      }
    }
  }

  // ---------------------------------------------------------------- properties

  /** A literal `[a TO b]` decodes to its two parts when neither shares a character with the separator. */
  lemma FetchSplitsAroundSeparator(open: char, a: string, b: string, close: char, to: string)
    requires |to| > 0 && b != []
    requires forall i :: 0 <= i < |a| ==> a[i] !in to
    requires forall i :: 0 <= i < |b| ==> b[i] !in to
    ensures FetchFromToValues(Some([open] + a + to + b + [close]), to) == Success(Some([a, b]))
  {
    var literal := [open] + a + to + b + [close];
    assert literal[1..|literal| - 1] == a + to + b;
    SplitAround(a, to, b);
  }

  /** A well-formed literal with two numeric bounds yields exactly those bounds. */
  lemma RangeOfWellFormed(open: char, a: string, b: string, close: char, ext: Externals, from: Double, to: Double)
    requires |ext.toSeparator| > 0 && b != []
    requires forall i :: 0 <= i < |a| ==> a[i] !in ext.toSeparator
    requires forall i :: 0 <= i < |b| ==> b[i] !in ext.toSeparator
    requires ext.parseDouble(Trim(a)) == Some(from) && ext.parseDouble(Trim(b)) == Some(to)
    ensures RangeOf(Some([open] + a + ext.toSeparator + b + [close]), ext) == Success(Some((from, to)))
  {
    FetchSplitsAroundSeparator(open, a, b, close, ext.toSeparator);
  }

  /** The blank-padded literal splits into its two padded parts. */
  lemma FetchSplitsPadded(open: char, x: string, y: string, close: char, to: string)
    requires |to| >= 2 && to[0] == ' ' && x != [] && y != []
    requires forall i :: 0 <= i < |x| ==> x[i] > ' ' && x[i] !in to
    requires forall i :: 0 <= i < |y| ==> y[i] > ' ' && y[i] !in to
    ensures FetchFromToValues(Some([open, ' '] + x + to + y + [' ', close]), to) == Success(Some([[' '] + x, y + [' ']]))
  {
    var literal := [open, ' '] + x + to + y + [' ', close];
    assert literal[1..|literal| - 1] == [' '] + x + to + (y + [' ']);
    SplitPadded(x, to, y);
  }

  /**
   * A literal padded with one blank inside each bracket, as in `[ 1 TO 2 ]`,
   * yields the same bounds: the separator, of two characters or more and
   * starting with a blank, first occurs after the lower bound, and trim drops
   * the padding before parseDouble sees the bounds.
   */
  lemma RangeOfPadded(open: char, x: string, y: string, close: char, ext: Externals, from: Double, to: Double)
    requires |ext.toSeparator| >= 2 && ext.toSeparator[0] == ' '
    requires x != [] && y != []
    requires forall i :: 0 <= i < |x| ==> x[i] > ' ' && x[i] !in ext.toSeparator
    requires forall i :: 0 <= i < |y| ==> y[i] > ' ' && y[i] !in ext.toSeparator
    requires ext.parseDouble(x) == Some(from) && ext.parseDouble(y) == Some(to)
    ensures RangeOf(Some([open, ' '] + x + ext.toSeparator + y + [' ', close]), ext) == Success(Some((from, to)))
  {
    FetchSplitsPadded(open, x, y, close, ext.toSeparator);
    TrimLeadingBlank(x);
    TrimTrailingBlank(y);
  }

  /**
   * A literal without the separator is not skipped: it throws, with a
   * NumberFormatException if its text is not a number and an
   * ArrayIndexOutOfBoundsException otherwise.
   */
  lemma RangeOfWithoutSeparator(open: char, a: string, close: char, ext: Externals)
    requires |ext.toSeparator| > 0
    requires IndexOf(a, ext.toSeparator, 0).None?
    ensures RangeOf(Some([open] + a + [close]), ext) ==
      if ext.parseDouble(Trim(a)).None? then Error(NumberFormat) else Error(ArrayIndexOutOfBounds)
  {
    var literal := [open] + a + [close];
    assert literal[1..|literal| - 1] == a;
  }

  /** The ranges loop succeeds exactly when every literal decodes or is skipped. */
  lemma RangeBoundsSucceeds(literals: seq<Option<string>>, ext: Externals)
    requires |ext.toSeparator| > 0
    ensures RangeBounds(literals, ext).Success? <==> forall i :: 0 <= i < |literals| ==> RangeOf(literals[i], ext).Success?
  {
    AccumulatedSucceeds(Outcomes(literals, ext));
  }

  /** When the loop throws, it throws what the first failing literal raises. */
  lemma RangeBoundsFirstFailure(literals: seq<Option<string>>, ext: Externals)
    requires |ext.toSeparator| > 0
    requires RangeBounds(literals, ext).Error?
    ensures exists i :: 0 <= i < |literals| && RangeOf(literals[i], ext) == Error(RangeBounds(literals, ext).failure) &&
                        forall j :: 0 <= j < i ==> RangeOf(literals[j], ext).Success?
  {
    AccumulatedFirstFailure(Outcomes(literals, ext));
  }

  /** When every literal decodes, the aggregation gets one range per literal, in array order. */
  lemma RangeBoundsInOrder(literals: seq<Option<string>>, ext: Externals)
    requires |ext.toSeparator| > 0
    requires forall i :: 0 <= i < |literals| ==> RangeOf(literals[i], ext).Success? && RangeOf(literals[i], ext).value.Some?
    ensures RangeBounds(literals, ext).Success?
    ensures |RangeBounds(literals, ext).value| == |literals|
    ensures forall i :: 0 <= i < |literals| ==> RangeBounds(literals, ext).value[i] == RangeOf(literals[i], ext).value.value
  {
    AccumulatedInOrder(Outcomes(literals, ext));
  }

  /** Null and empty literals add no range. */
  lemma {:induction false} BlankLiteralsAddNothing(literals: seq<Option<string>>, ext: Externals)
    requires |ext.toSeparator| > 0
    requires forall i :: 0 <= i < |literals| ==> literals[i].None? || literals[i].value == []
    ensures RangeBounds(literals, ext) == Success([])
    decreases |literals|
  {
    if literals != [] {
      var init := literals[..|literals| - 1];
      BlankLiteralsAddNothing(init, ext);
      assert Outcomes(literals, ext)[..|init|] == Outcomes(init, ext);
    }
  }

  /**
   * A literal whose lower bound is not a number makes the loop throw a
   * NumberFormatException once every earlier literal has gone through, even
   * though its upper bound may be valid.
   */
  lemma NonNumericBoundThrows(literals: seq<Option<string>>, open: char, c: string, d: string, close: char, ext: Externals)
    requires |ext.toSeparator| > 0 && d != []
    requires forall i :: 0 <= i < |literals| ==> RangeOf(literals[i], ext).Success?
    requires forall i :: 0 <= i < |c| ==> c[i] !in ext.toSeparator
    requires forall i :: 0 <= i < |d| ==> d[i] !in ext.toSeparator
    requires ext.parseDouble(Trim(c)) == None
    ensures RangeBounds(literals + [Some([open] + c + ext.toSeparator + d + [close])], ext) == Error(NumberFormat)
  {
    var all := literals + [Some([open] + c + ext.toSeparator + d + [close])];
    FetchSplitsAroundSeparator(open, c, d, close, ext.toSeparator);
    AccumulatedThrowsAtEnd(Outcomes(all, ext), NumberFormat);
  }

  /** Outcomes that all succeed, then an exception: the loop throws that exception. */
  lemma AccumulatedThrowsAtEnd<T>(outcomes: seq<Result<Option<T>>>, e: Failure)
    requires outcomes != [] && outcomes[|outcomes| - 1] == Error(e)
    requires forall i :: 0 <= i < |outcomes| - 1 ==> outcomes[i].Success?
    ensures Accumulated(outcomes) == Error(e)
  {
    var init := outcomes[..|outcomes| - 1];
    assert forall i :: 0 <= i < |init| ==> init[i] == outcomes[i];
    AccumulatedSucceeds(init);
  }
}
