/**
 * Conversion of the aggregations of an Elasticsearch response into the term
 * counts of Liferay facet collectors.
 */
module FacetResults {
  import opened JavaLang
  import opened JavaText
  import opened JavaUtil
  import opened SearchModel

  /** Putting one more entry into a HashMap is the last step of LastWins. */
  lemma LastWinsStep<K, V>(entries: seq<(K, V)>, i: nat)
    requires i < |entries|
    ensures LastWins(entries[..i + 1]) == LastWins(entries[..i])[entries[i].0 := entries[i].1]
  {
    assert entries[..i + 1][..i] == entries[..i];
  }

  // ---------------------------------------------------------------- terms

  /** The entries parseESFacet puts: each bucket's key lower-cased, its count cast to int. */
  function LoweredEntries(buckets: seq<TermsBucket>): (es: seq<(string, int)>)
    ensures |es| == |buckets|
    ensures forall i :: 0 <= i < |buckets| ==> es[i] == (ToLower(buckets[i].key), LongToInt(buckets[i].docCount))
  {
    seq(|buckets|, i requires 0 <= i < |buckets| => (ToLower(buckets[i].key), LongToInt(buckets[i].docCount)))
  }

  /** The entries a multi-value facet's collector gets: each bucket's key, its count cast to int. */
  function TermEntries(buckets: seq<TermsBucket>): (es: seq<(string, int)>)
    ensures |es| == |buckets|
    ensures forall i :: 0 <= i < |buckets| ==> es[i] == (buckets[i].key, LongToInt(buckets[i].docCount))
  {
    seq(|buckets|, i requires 0 <= i < |buckets| => (buckets[i].key, LongToInt(buckets[i].docCount)))
  }

  /**
   * parseESFacet: the bucket counts of a terms aggregation by lower-cased key.
   * An aggregation of another kind fails the cast to Terms.
   */
  method ParseESFacet(agg: Aggregation) returns (r: Result<map<string, int>>)
    ensures agg.TermsResult? ==> r == Success(LastWins(LoweredEntries(agg.termsBuckets)))
    ensures !agg.TermsResult? ==> r == Error(ClassCast)
  {
    if !agg.TermsResult? {
      return Error(ClassCast);
    }
    var buckets := agg.termsBuckets;
    var entries := LoweredEntries(buckets);
    var counts: map<string, int> := map[];
    for i := 0 to |buckets|
      invariant counts == LastWins(entries[..i])
    {
      LastWinsStep(entries, i);
      counts := counts[ToLower(buckets[i].key) := LongToInt(buckets[i].docCount)];
    }
    assert entries[..|buckets|] == entries;
    return Success(counts);
  }

  /** The counts of a multi-value facet's terms buckets, a later duplicate key overwriting. */
  method CollectTermCounts(buckets: seq<TermsBucket>) returns (counts: map<string, int>)
    ensures counts == LastWins(TermEntries(buckets))
  {
    var entries := TermEntries(buckets);
    counts := map[];
    for i := 0 to |buckets|
      invariant counts == LastWins(entries[..i])
    {
      LastWinsStep(entries, i);
      counts := counts[buckets[i].key := LongToInt(buckets[i].docCount)];
    }
    assert entries[..|buckets|] == entries;
  }

  /** A term's count is that of the last bucket under that key. */
  lemma TermCountOfLastBucket(buckets: seq<TermsBucket>, i: nat)
    requires i < |buckets|
    requires forall j :: i < j < |buckets| ==> buckets[j].key != buckets[i].key
    ensures LastWins(TermEntries(buckets))[buckets[i].key] == LongToInt(buckets[i].docCount)
  {
    LastWinsValue(TermEntries(buckets), i);
  }

  /** A multi-value facet's collector has exactly the bucket keys as terms. */
  lemma TermCountKeys(buckets: seq<TermsBucket>)
    ensures LastWins(TermEntries(buckets)).Keys == set i | 0 <= i < |buckets| :: buckets[i].key
  {
    var es := TermEntries(buckets);
    assert (set i | 0 <= i < |es| :: es[i].0) == set i | 0 <= i < |buckets| :: buckets[i].key;
  }

  // ---------------------------------------------------------------- asset entries

  /**
   * fetchEntryClassnames: the class names an asset-entries facet declares, as
   * a set; none when the values array is missing.
   */
  method FetchEntryClassnames(values: Option<seq<string>>) returns (names: set<string>)
    ensures values.None? ==> names == {}
    ensures values.Some? ==> names == set v | v in values.value
  {
    names := {};
    if values.Some? {
      var vs := values.value;
      for z := 0 to |vs|
        invariant names == set v | v in vs[..z]
      {
        assert vs[..z + 1] == vs[..z] + [vs[z]];
        names := names + {vs[z]};
      }
      assert vs[..|vs|] == vs;
    }
  }

  /** The count an asset-entries collector gives a declared class name: that of its lower-cased form, or 0. */
  function AssetCount(name: string, lowered: map<string, int>): int
  {
    if ToLower(name) in lowered then lowered[ToLower(name)] else 0
  }

  /** The asset-entry loop of collectFacetResults: one count per declared class name. */
  method CountAssetEntries(names: set<string>, lowered: map<string, int>) returns (results: map<string, int>)
    ensures results.Keys == names
    ensures forall c :: c in names ==> results[c] == AssetCount(c, lowered)
  {
    results := map[];
    var rest := names;
    while rest != {}
      invariant rest <= names
      invariant results.Keys == names - rest
      invariant forall c :: c in results ==> results[c] == AssetCount(c, lowered)
      decreases |rest|
    {
      var c :| c in rest;
      if ToLower(c) in lowered {
        results := results[c := lowered[ToLower(c)]];
      } else {
        results := results[c := 0];
      }
      rest := rest - {c};
    }
  }

  /** The asset-entry counts, given the declared names and the lower-cased bucket counts. */
  function AssetCounts(names: set<string>, lowered: map<string, int>): (m: map<string, int>)
    ensures m.Keys == names
  {
    map c | c in names :: AssetCount(c, lowered)
  }

  /**
   * A declared class name gets the count of the last bucket whose key equals it
   * ignoring case: Elasticsearch returns the terms lower-cased.
   */
  lemma AssetCountOfLastMatchingBucket(buckets: seq<TermsBucket>, name: string, i: nat)
    requires i < |buckets| && EqualsIgnoreCase(buckets[i].key, name)
    requires forall j :: i < j < |buckets| ==> !EqualsIgnoreCase(buckets[j].key, name)
    ensures AssetCount(name, LastWins(LoweredEntries(buckets))) == LongToInt(buckets[i].docCount)
  {
    var es := LoweredEntries(buckets);
    EqualsIgnoreCaseIsLowerEquality(buckets[i].key, name);
    forall j | i < j < |buckets|
      ensures es[j].0 != es[i].0
    {
      EqualsIgnoreCaseIsLowerEquality(buckets[j].key, name);
    }
    LastWinsValue(es, i);
  }

  /** A declared class name that matches no bucket, ignoring case, gets 0. */
  lemma AssetCountWithoutMatch(buckets: seq<TermsBucket>, name: string)
    requires forall j :: 0 <= j < |buckets| ==> !EqualsIgnoreCase(buckets[j].key, name)
    ensures AssetCount(name, LastWins(LoweredEntries(buckets))) == 0
  {
    var es := LoweredEntries(buckets);
    forall j | 0 <= j < |es|
      ensures es[j].0 != ToLower(name)
    {
      EqualsIgnoreCaseIsLowerEquality(buckets[j].key, name);
    }
  }

  /** Two declared names that differ only in case get the same count. */
  lemma AssetCountIgnoresCase(a: string, b: string, lowered: map<string, int>)
    requires EqualsIgnoreCase(a, b)
    ensures AssetCount(a, lowered) == AssetCount(b, lowered)
  {
    EqualsIgnoreCaseIsLowerEquality(a, b);
  }

  // ---------------------------------------------------------------- ranges

  /**
   * buildRangeTerm: the label of a range bucket, built from its bounds cast to
   * long. The cast cannot throw NumberFormatException, so the label is always
   * `toRange` of two longs and the fallback on the bounds' text is never taken.
   */
  function BuildRangeTerm(bucket: RangeBucket, ext: Externals): (term: string)
    ensures exists from, to :: IsLong(from) && IsLong(to) && term == ext.toRange(from, to)
  {
    var from := DoubleToLong(bucket.from);
    var to := DoubleToLong(bucket.to);
    assert IsLong(from) && IsLong(to);
    ext.toRange(from, to)
  }

  /** `n` is a value of Java's long type. */
  predicate IsLong(n: int)
  {
    LONG_MIN <= n <= LONG_MAX
  }

  /** `n` is what rounding `x` toward zero gives. */
  predicate TruncatesTo(x: real, n: int)
  {
    (0 <= n && n as real <= x < n as real + 1.0) || (n <= 0 && n as real - 1.0 < x <= n as real)
  }

  /** A bucket whose bounds are whole numbers in the long range is labelled by exactly those numbers. */
  lemma RangeTermOfWholeBounds(from: int, to: int, count: int, ext: Externals)
    requires LONG_MIN <= from <= LONG_MAX && LONG_MIN <= to <= LONG_MAX
    ensures BuildRangeTerm(RangeBucket(Finite(from as real), Finite(to as real), count), ext) == ext.toRange(from, to)
  {
    assert TruncateTowardZero(from as real) == from;
    assert TruncateTowardZero(to as real) == to;
  }

  /**
   * Fractional bounds are truncated toward zero, not rendered: any bounds that
   * round toward zero to the longs `n` and `m` give the label of `n` and `m`,
   * so buckets that differ only below the unit share a label.
   */
  lemma RangeTermTruncates(x: real, y: real, n: int, m: int, count: int, ext: Externals)
    requires IsLong(n) && IsLong(m)
    requires TruncatesTo(x, n) && TruncatesTo(y, m)
    ensures BuildRangeTerm(RangeBucket(Finite(x), Finite(y), count), ext) == ext.toRange(n, m)
  {
    TruncationIsUnique(x, n);
    TruncationIsUnique(y, m);
  }

  /** Rounding toward zero has a single result. */
  lemma TruncationIsUnique(x: real, n: int)
    requires TruncatesTo(x, n)
    ensures TruncateTowardZero(x) == n
  {
  }

  /** The entries a range facet's collector gets: each bucket's label, its count cast to int. */
  function RangeEntries(buckets: seq<RangeBucket>, ext: Externals): (es: seq<(string, int)>)
    ensures |es| == |buckets|
    ensures forall i :: 0 <= i < |buckets| ==> es[i] == (BuildRangeTerm(buckets[i], ext), LongToInt(buckets[i].docCount))
  {
    seq(|buckets|, i requires 0 <= i < |buckets| => (BuildRangeTerm(buckets[i], ext), LongToInt(buckets[i].docCount)))
  }

  /** The counts of a range facet's buckets by label, a later duplicate label overwriting. */
  method CollectRangeCounts(buckets: seq<RangeBucket>, ext: Externals) returns (counts: map<string, int>)
    ensures counts == LastWins(RangeEntries(buckets, ext))
  {
    var entries := RangeEntries(buckets, ext);
    counts := map[];
    for i := 0 to |buckets|
      invariant counts == LastWins(entries[..i])
    {
      LastWinsStep(entries, i);
      counts := counts[BuildRangeTerm(buckets[i], ext) := LongToInt(buckets[i].docCount)];
    }
    assert entries[..|buckets|] == entries;
  }

  /** A range label's count is that of the last bucket with that label. */
  lemma RangeCountOfLastBucket(buckets: seq<RangeBucket>, ext: Externals, i: nat)
    requires i < |buckets|
    requires forall j :: i < j < |buckets| ==> BuildRangeTerm(buckets[j], ext) != BuildRangeTerm(buckets[i], ext)
    ensures LastWins(RangeEntries(buckets, ext))[BuildRangeTerm(buckets[i], ext)] == LongToInt(buckets[i].docCount)
  {
    LastWinsValue(RangeEntries(buckets, ext), i);
  }

  // ---------------------------------------------------------------- collection

  /**
   * The term counts collectFacetResults gives a non-static facet whose
   * aggregation it found, null for facets of other classes, or the ClassCast
   * raised when the aggregation is not of the kind the facet reads.
   */
  function FacetResultsFor(facet: Facet, agg: Aggregation, ext: Externals): (r: Result<Option<map<string, int>>>)
    ensures r.Error? <==> ((facet.AssetEntries? || facet.MultiValue?) && !agg.TermsResult?) || (facet.Range? && !agg.RangeResult?)
    ensures r.Error? ==> r.failure == ClassCast
    ensures r.Success? ==> (r.value.Some? <==> facet.AssetEntries? || facet.MultiValue? || facet.Range?)
  {
    match facet
    case AssetEntries(_, _, values) =>
      if !agg.TermsResult? then Error(ClassCast)
      else
        var names := if values.None? then {} else set v | v in values.value;
        Success(Some(AssetCounts(names, LastWins(LoweredEntries(agg.termsBuckets)))))
    case MultiValue(_, _) =>
      if !agg.TermsResult? then Error(ClassCast) else Success(Some(LastWins(TermEntries(agg.termsBuckets))))
    case Range(_, _) =>
      if !agg.RangeResult? then Error(ClassCast) else Success(Some(LastWins(RangeEntries(agg.rangeBuckets, ext))))
    case Other(_) => Success(None)
    case Static => Success(None)
  }

  /** An asset-entries collector has exactly the declared class names as terms; none when none are declared. */
  lemma AssetResultsKeys(field: string, maxTerms: Option<int>, values: Option<seq<string>>, buckets: seq<TermsBucket>, ext: Externals)
    ensures var r := FacetResultsFor(AssetEntries(field, maxTerms, values), TermsResult(buckets), ext);
      r.Success? && r.value.Some? &&
      forall c :: c in r.value.value <==> values.Some? && c in values.value
  {
  }

  /**
   * The collectors the facet loop of collectFacetResults sets, by facet name,
   * and the exception that stopped it, if any. A null aggregation map throws
   * at the first non-static facet.
   */
  function Collected(facets: seq<(string, Facet)>, aggs: Option<map<string, Aggregation>>, ext: Externals): Partial<map<string, FacetCollector>>
  {
    if facets == [] then Partial(map[], None)
    else
      var before := Collected(facets[..|facets| - 1], aggs, ext);
      if before.thrown.Some? then before
      else
        match EntryOutcome(facets[|facets| - 1], aggs, ext)
        case Error(e) => Partial(before.reached, Some(e))
        case Success(None) => before
        case Success(Some(c)) => Partial(before.reached[c.fieldName := c], None)
  }

  /**
   * What the loop body does with one facet-map entry: nothing for a static
   * facet or a name without aggregation, a NullPointerException without an
   * aggregation map, and otherwise the collector named after the entry, unless
   * reading its aggregation throws.
   */
  function EntryOutcome(entry: (string, Facet), aggs: Option<map<string, Aggregation>>, ext: Externals): (r: Result<Option<FacetCollector>>)
    ensures r.Success? && r.value.Some? ==> r.value.value.fieldName == entry.0
    ensures r.Error? <==> !entry.1.Static? && (aggs.None? || (entry.0 in aggs.value && FacetResultsFor(entry.1, aggs.value[entry.0], ext).Error?))
  {
    var (key, facet) := entry;
    if facet.Static? then Success(None)
    else if aggs.None? then Error(NullPointer)
    else if key !in aggs.value then Success(None)
    else
      match FacetResultsFor(facet, aggs.value[key], ext)
      case Error(e) => Error(e)
      case Success(results) => Success(Some(FacetCollector(key, results)))
  }

  /** Once the loop has thrown on a prefix of the facets, the rest are never reached. */
  lemma {:induction false} CollectedThrownIsFinal(facets: seq<(string, Facet)>, i: nat, aggs: Option<map<string, Aggregation>>, ext: Externals)
    requires i <= |facets|
    requires Collected(facets[..i], aggs, ext).thrown.Some?
    ensures Collected(facets, aggs, ext) == Collected(facets[..i], aggs, ext)
    decreases |facets| - i
  {
    if i < |facets| {
      assert facets[..i + 1][..i] == facets[..i];
      CollectedThrownIsFinal(facets, i + 1, aggs, ext);
    } else {
      assert facets[..i] == facets;
    }
  }

  /**
   * The collector of one facet, as the loop body builds it: the aggregation is
   * cast and read before the collector is set, so a failed cast sets none.
   */
  method CollectFacet(key: string, facet: Facet, agg: Aggregation, ext: Externals)
    returns (r: Result<Option<map<string, int>>>)
    ensures r == FacetResultsFor(facet, agg, ext)
  {
    match facet
    case AssetEntries(_, _, values) =>
      var lowered := ParseESFacet(agg);
      if lowered.Error? {
        return Error(lowered.failure);
      }
      var names := FetchEntryClassnames(values);
      var counts := CountAssetEntries(names, lowered.value);
      assert counts == AssetCounts(names, lowered.value);
      return Success(Some(counts));
    case MultiValue(_, _) =>
      if !agg.TermsResult? {
        return Error(ClassCast);
      }
      var counts := CollectTermCounts(agg.termsBuckets);
      return Success(Some(counts));
    case Range(_, _) =>
      if !agg.RangeResult? {
        return Error(ClassCast);
      }
      var counts := CollectRangeCounts(agg.rangeBuckets, ext);
      return Success(Some(counts));
    case Other(_) =>
      return Success(None);
    case Static =>
      return Success(None);
  }

  /** Setting a key after merging two maps is merging with the key set in the second. */
  lemma MergeThenSet<K, V>(m: map<K, V>, r: map<K, V>, k: K, v: V)
    ensures (m + r)[k := v] == m + r[k := v]
  {
  }

  /** The loop body of collectFacetResults for one entry, before the collector is stored. */
  method CollectEntry(entry: (string, Facet), aggs: Option<map<string, Aggregation>>, ext: Externals)
    returns (r: Result<Option<FacetCollector>>)
    ensures r == EntryOutcome(entry, aggs, ext)
  {
    var (key, facet) := entry;
    if facet.Static? {
      return Success(None);
    }
    if aggs.None? {
      return Error(NullPointer);
    }
    if key !in aggs.value {
      return Success(None);
    }
    var results := CollectFacet(key, facet, aggs.value[key], ext);
    if results.Error? {
      return Error(results.failure);
    }
    return Success(Some(FacetCollector(key, results.value)));
  }

  /**
   * collectFacetResults: sets the collector of every non-static facet whose
   * name has an aggregation in the response. A null facet map throws at once;
   * an exception leaves the collectors set so far.
   */
  method CollectFacetResults(ctx: SearchContext, response: SearchResponse, ext: Externals)
    returns (thrown: Option<Failure>)
    modifies ctx
    ensures ctx.facets.None? ==> thrown == Some(NullPointer) && ctx.collectors == old(ctx.collectors)
    ensures ctx.facets.Some? ==>
      var c := Collected(ctx.facets.value, response.aggregations, ext);
      ctx.collectors == old(ctx.collectors) + c.reached && thrown == c.thrown
  {
    if ctx.facets.None? {
      return Some(NullPointer);
    }
    var facets := ctx.facets.value;
    var aggs := response.aggregations;
    for i := 0 to |facets|
      invariant Collected(facets[..i], aggs, ext).thrown.None?
      invariant ctx.collectors == old(ctx.collectors) + Collected(facets[..i], aggs, ext).reached
    {
      assert facets[..i + 1][..i] == facets[..i];
      var outcome := CollectEntry(facets[i], aggs, ext);
      match outcome
      case Error(e) =>
        CollectedThrownIsFinal(facets, i + 1, aggs, ext);
        return Some(e);
      case Success(None) =>
      case Success(Some(c)) =>
        MergeThenSet(old(ctx.collectors), Collected(facets[..i], aggs, ext).reached, c.fieldName, c);
        ctx.collectors := ctx.collectors[c.fieldName := c];
    }
    assert facets[..|facets|] == facets;
    return None;
  }

  // ---------------------------------------------------------------- properties

  /** No two entries of the facet map share a name. */
  predicate DistinctKeys(facets: seq<(string, Facet)>)
  {
    forall i, j :: 0 <= i < j < |facets| ==> facets[i].0 != facets[j].0
  }

  /**
   * The loop completes exactly when the aggregation map is present (or every
   * facet is static) and no found aggregation is of the wrong kind.
   */
  lemma {:induction false} CollectedCompletes(facets: seq<(string, Facet)>, aggs: Option<map<string, Aggregation>>, ext: Externals)
    ensures Collected(facets, aggs, ext).thrown.None? <==>
      forall i :: 0 <= i < |facets| && !facets[i].1.Static? ==>
        aggs.Some? && (facets[i].0 in aggs.value ==> FacetResultsFor(facets[i].1, aggs.value[facets[i].0], ext).Success?)
    decreases |facets|
  {
    if facets != [] {
      var init := facets[..|facets| - 1];
      CollectedCompletes(init, aggs, ext);
      assert forall i :: 0 <= i < |init| ==> init[i] == facets[i];
    }
  }

  /**
   * When the loop completes, a facet gets a collector exactly when it is not
   * static and its name has an aggregation; that collector is named after the
   * facet and holds the counts read from that aggregation.
   */
  lemma {:induction false} CollectedCollectors(facets: seq<(string, Facet)>, aggs: map<string, Aggregation>, ext: Externals)
    requires DistinctKeys(facets)
    requires Collected(facets, Some(aggs), ext).thrown.None?
    ensures forall i :: 0 <= i < |facets| ==>
      (facets[i].0 in Collected(facets, Some(aggs), ext).reached <==> !facets[i].1.Static? && facets[i].0 in aggs)
    ensures forall i :: 0 <= i < |facets| && facets[i].0 in Collected(facets, Some(aggs), ext).reached ==>
      FacetResultsFor(facets[i].1, aggs[facets[i].0], ext).Success? &&
      Collected(facets, Some(aggs), ext).reached[facets[i].0] ==
        FacetCollector(facets[i].0, FacetResultsFor(facets[i].1, aggs[facets[i].0], ext).value)
    ensures forall k :: k in Collected(facets, Some(aggs), ext).reached ==> exists i :: 0 <= i < |facets| && facets[i].0 == k
    decreases |facets|
  {
    if facets != [] {
      var init := facets[..|facets| - 1];
      assert DistinctKeys(init);
      CollectedCollectors(init, aggs, ext);
      assert forall i :: 0 <= i < |init| ==> init[i] == facets[i];
    }
  }

  /**
   * The aggregation of a multi-value facet is named after its field, but its
   * results are looked up under the facet's name: a facet whose name is not its
   * field name gets no collector even when its aggregation came back.
   */
  lemma FieldNamedAggregationIsMissed(name: string, field: string, maxTerms: Option<int>, agg: Aggregation, ext: Externals)
    requires name != field
    ensures Collected([(name, MultiValue(field, maxTerms))], Some(map[field := agg]), ext) == Partial(map[], None)
  {
    assert [(name, MultiValue(field, maxTerms))][..0] == [];
  }
}
