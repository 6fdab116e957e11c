/**
 * The Elasticsearch request the service assembles: a query string, paging,
 * field sorts, and one aggregation per non-static Liferay facet.
 */
module FacetRequests {
  import opened JavaLang
  import opened JavaUtil
  import opened SearchModel
  import opened RangeLiterals

  datatype SortOrder = Asc | Desc

  /** A field sort, with the type to assume for indices that do not map the field. */
  datatype SortRequest = FieldSort(field: string, unmappedType: string, order: SortOrder)

  /** An aggregation of the request, under the name its results come back with. */
  datatype AggregationRequest =
    | TermsAggregation(name: string, field: string, size: Option<int>)
    | RangeAggregation(name: string, field: string, ranges: seq<(Double, Double)>)

  /** An Elasticsearch SearchRequestBuilder, as the service fills it in. */
  class SearchRequestBuilder {
    const index: string
    const query: string
    var from: Option<int>
    var size: Option<int>
    var sorts: seq<SortRequest>
    var aggregations: seq<AggregationRequest>

    /** prepareSearch(index).setQuery(queryStringQuery(query)). */
    constructor (index: string, query: string)
      ensures this.index == index && this.query == query
      ensures from == None && size == None && sorts == [] && aggregations == []
    {
      this.index := index;
      this.query := query;
      from := None;
      size := None;
      sorts := [];
      aggregations := [];
    }

    method SetFrom(n: int)
      modifies this
      ensures from == Some(n)
      ensures size == old(size) && sorts == old(sorts) && aggregations == old(aggregations)
    {
      from := Some(n);
    }

    method SetSize(n: int)
      modifies this
      ensures size == Some(n)
      ensures from == old(from) && sorts == old(sorts) && aggregations == old(aggregations)
    {
      size := Some(n);
    }

    method AddSort(s: SortRequest)
      modifies this
      ensures sorts == old(sorts) + [s]
      ensures from == old(from) && size == old(size) && aggregations == old(aggregations)
    {
      sorts := sorts + [s];
    }

    method AddAggregation(a: AggregationRequest)
      modifies this
      ensures aggregations == old(aggregations) + [a]
      ensures from == old(from) && size == old(size) && sorts == old(sorts)
    {
      aggregations := aggregations + [a];
    }
  }

  // ---------------------------------------------------------------- sorts

  /** getSort: a field sort on the sort's field, descending exactly when the sort is reversed. */
  function GetSort(sort: Sort): (r: SortRequest)
    requires sort.fieldName.Some?
    ensures r.field == sort.fieldName.value && r.unmappedType == "long"
    ensures r.order == Desc <==> sort.reverse
  {
    FieldSort(sort.fieldName.value, "long", if sort.reverse then Desc else Asc)
  }

  /** A Liferay sort the service turns into a field sort: not null, and with a field name. */
  predicate Usable(sort: Option<Sort>)
  {
    sort.Some? && sort.value.fieldName.Some?
  }

  /** The field sorts the sort loop of getSearchHits adds, in array order. */
  function SortsOf(sorts: seq<Option<Sort>>): seq<SortRequest>
  {
    if sorts == [] then []
    else
      var last := sorts[|sorts| - 1];
      SortsOf(sorts[..|sorts| - 1]) + if Usable(last) then [GetSort(last.value)] else []
  }

  /** The sorts added are those of the usable entries, one each, in array order; the others are skipped. */
  lemma {:induction false} SortsOfSelectsUsable(sorts: seq<Option<Sort>>)
    ensures |SortsOf(sorts)| == |Positions(sorts, Usable)|
    ensures forall k :: 0 <= k < |SortsOf(sorts)| ==>
      SortsOf(sorts)[k] == GetSort(sorts[Positions(sorts, Usable)[k]].value)
    decreases |sorts|
  {
    if sorts != [] {
      var init := sorts[..|sorts| - 1];
      SortsOfSelectsUsable(init);
      var ps := Positions(init, Usable);
      forall k | 0 <= k < |ps|
        ensures init[ps[k]] == sorts[ps[k]]
      {
      }
    }
  }

  // ---------------------------------------------------------------- facets

  /** A facet that handleFacetQueries builds an aggregation for. */
  predicate Aggregating(facet: Facet)
  {
    facet.MultiValue? || facet.AssetEntries? || facet.Range?
  }

  /** A facet-map entry whose facet is aggregating. */
  predicate AggregatingEntry(entry: (string, Facet))
  {
    Aggregating(entry.1)
  }

  /**
   * The aggregation handleFacetQueries adds for one facet. A multi-value facet
   * (asset-entry facets included) gets a terms aggregation named after and
   * targeted at its field, sized only when maxTerms is configured; a range
   * facet gets a range aggregation named after its field but targeted at the
   * modified-date field, which throws when one of its literals does.
   */
  function FacetAggregation(facet: Facet, ext: Externals): (r: Result<Option<AggregationRequest>>)
    requires |ext.toSeparator| > 0
    ensures r.Success? ==> (r.value.Some? <==> Aggregating(facet))
    ensures r.Error? ==> facet.Range? && facet.ranges.Some? && RangeBounds(facet.ranges.value, ext).Error?
    ensures (facet.MultiValue? || facet.AssetEntries?) ==>
      r == Success(Some(TermsAggregation(facet.fieldName, facet.fieldName, facet.maxTerms)))
    ensures facet.Range? ==> (r.Error? <==> facet.ranges.Some? && RangeBounds(facet.ranges.value, ext).Error?)
    ensures facet.Range? && r.Error? ==> r.failure == RangeBounds(facet.ranges.value, ext).failure
    ensures facet.Range? && r.Success? ==>
      r.value.Some? && r.value.value.RangeAggregation? &&
      r.value.value.name == facet.fieldName && r.value.value.field == ext.modifiedDateField &&
      r.value.value.ranges == (if facet.ranges.None? then [] else RangeBounds(facet.ranges.value, ext).value)
  {
    match facet
    case Static => Success(None)
    case Other(_) => Success(None)
    case MultiValue(field, maxTerms) => Success(Some(TermsAggregation(field, field, maxTerms)))
    case AssetEntries(field, maxTerms, _) => Success(Some(TermsAggregation(field, field, maxTerms)))
    case Range(field, ranges) =>
      var bounds := if ranges.None? then Success([]) else RangeBounds(ranges.value, ext);
      match bounds
      case Error(e) => Error(e)
      case Success(bs) => Success(Some(RangeAggregation(field, ext.modifiedDateField, bs)))
  }

  /** A range facet whose literals all decode gets one range per literal, in array order. */
  lemma RangeFacetRanges(field: string, literals: seq<Option<string>>, ext: Externals)
    requires |ext.toSeparator| > 0
    requires forall i :: 0 <= i < |literals| ==> RangeOf(literals[i], ext).Success? && RangeOf(literals[i], ext).value.Some?
    ensures FacetAggregation(Range(field, Some(literals)), ext).Success?
    ensures var a := FacetAggregation(Range(field, Some(literals)), ext).value.value;
      |a.ranges| == |literals| &&
      forall i :: 0 <= i < |literals| ==> a.ranges[i] == RangeOf(literals[i], ext).value.value
  {
    RangeBoundsInOrder(literals, ext);
  }

  /** The aggregations the facet loop adds, in facet order, and the exception that stopped it, if any. */
  function Handled(facets: seq<(string, Facet)>, ext: Externals): Partial<seq<AggregationRequest>>
    requires |ext.toSeparator| > 0
  {
    if facets == [] then Partial([], None)
    else
      var before := Handled(facets[..|facets| - 1], ext);
      if before.thrown.Some? then before
      else
        match FacetAggregation(facets[|facets| - 1].1, ext)
        case Error(e) => Partial(before.reached, Some(e))
        case Success(None) => before
        case Success(Some(a)) => Partial(before.reached + [a], None)
  }

  /** Once the loop has thrown on a prefix of the facets, the rest are never reached. */
  lemma {:induction false} ThrownIsFinal(facets: seq<(string, Facet)>, i: nat, ext: Externals)
    requires |ext.toSeparator| > 0
    requires i <= |facets|
    requires Handled(facets[..i], ext).thrown.Some?
    ensures Handled(facets, ext) == Handled(facets[..i], ext)
    decreases |facets| - i
  {
    if i < |facets| {
      assert facets[..i + 1][..i] == facets[..i];
      ThrownIsFinal(facets, i + 1, ext);
    } else {
      assert facets[..i] == facets;
    }
  }

  /**
   * A range facet with a literal that does not decode makes the facet loop
   * throw that literal's exception, once every earlier facet has gone through:
   * the literal is not skipped.
   */
  lemma MalformedRangeFacetThrows(facets: seq<(string, Facet)>, i: nat, ext: Externals)
    requires |ext.toSeparator| > 0
    requires i < |facets| && facets[i].1.Range? && facets[i].1.ranges.Some?
    requires RangeBounds(facets[i].1.ranges.value, ext).Error?
    requires forall j :: 0 <= j < i ==> FacetAggregation(facets[j].1, ext).Success?
    ensures Handled(facets, ext).thrown == Some(RangeBounds(facets[i].1.ranges.value, ext).failure)
  {
    var init := facets[..i];
    assert forall j :: 0 <= j < |init| ==> init[j] == facets[j];
    HandledCompletes(init, ext);
    assert facets[..i + 1][..i] == init;
    ThrownIsFinal(facets, i + 1, ext);
  }

  /**
   * handleFacetQueries: adds each non-static facet's aggregation to the
   * request in turn; an exception leaves the aggregations added so far.
   */
  method HandleFacetQueries(facets: seq<(string, Facet)>, builder: SearchRequestBuilder, ext: Externals)
    returns (thrown: Option<Failure>)
    requires |ext.toSeparator| > 0
    modifies builder
    ensures builder.aggregations == old(builder.aggregations) + Handled(facets, ext).reached
    ensures thrown == Handled(facets, ext).thrown
    ensures builder.from == old(builder.from) && builder.size == old(builder.size) && builder.sorts == old(builder.sorts)
  {
    for i := 0 to |facets|
      invariant Handled(facets[..i], ext).thrown.None?
      invariant builder.aggregations == old(builder.aggregations) + Handled(facets[..i], ext).reached
      invariant builder.from == old(builder.from) && builder.size == old(builder.size) && builder.sorts == old(builder.sorts)
    {
      assert facets[..i + 1][..i] == facets[..i];
      match facets[i].1
      case MultiValue(field, maxTerms) =>
        builder.AddAggregation(TermsAggregation(field, field, maxTerms));
      case AssetEntries(field, maxTerms, _) =>
        builder.AddAggregation(TermsAggregation(field, field, maxTerms));
      case Range(field, ranges) =>
        var bounds: Result<seq<(Double, Double)>> := Success([]);
        if ranges.Some? {
          bounds := AddRanges(ranges.value, ext);
        }
        if bounds.Error? {
          ThrownIsFinal(facets, i + 1, ext);
          return Some(bounds.failure);
        }
        builder.AddAggregation(RangeAggregation(field, ext.modifiedDateField, bounds.value));
      case Static =>
      case Other(_) =>
    }
    assert facets[..|facets|] == facets;
    return None;
  }

  /** The facet loop completes exactly when no facet's aggregation throws. */
  lemma {:induction false} HandledCompletes(facets: seq<(string, Facet)>, ext: Externals)
    requires |ext.toSeparator| > 0
    ensures Handled(facets, ext).thrown.None? <==>
      forall i :: 0 <= i < |facets| ==> FacetAggregation(facets[i].1, ext).Success?
    decreases |facets|
  {
    if facets != [] {
      var init := facets[..|facets| - 1];
      HandledCompletes(init, ext);
      assert forall i :: 0 <= i < |init| ==> init[i] == facets[i];
    }
  }

  /**
   * When the loop completes, the request holds one aggregation per aggregating
   * facet, in facet order: static facets and facets of other classes add none.
   */
  lemma {:induction false} HandledFollowsFacets(facets: seq<(string, Facet)>, ext: Externals)
    requires |ext.toSeparator| > 0
    requires Handled(facets, ext).thrown.None?
    ensures |Handled(facets, ext).reached| == |Positions(facets, AggregatingEntry)|
    ensures forall k :: 0 <= k < |Handled(facets, ext).reached| ==>
      FacetAggregation(facets[Positions(facets, AggregatingEntry)[k]].1, ext) == Success(Some(Handled(facets, ext).reached[k]))
    decreases |facets|
  {
    if facets != [] {
      var init := facets[..|facets| - 1];
      HandledFollowsFacets(init, ext);
      var ps := Positions(init, AggregatingEntry);
      forall k | 0 <= k < |ps|
        ensures init[ps[k]] == facets[ps[k]]
      {
      }
    }
  }
}
