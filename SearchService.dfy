/**
 * EsSearchApiService.getSearchHits: turns a Liferay search into an
 * Elasticsearch request and the engine's response back into Liferay hits.
 * The engine is not modelled: its response is an input.
 */
module SearchService {
  import opened JavaLang
  import opened SearchModel
  import opened QueryEscaping
  import opened FacetRequests
  import opened FacetResults
  import opened Documents

  /** The exception handleFacetQueries raises for the context's facets, if any. */
  function FacetRequestFailure(facets: Option<seq<(string, Facet)>>, ext: Externals): Option<Failure>
    requires |ext.toSeparator| > 0
  {
    if facets.None? then None else Handled(facets.value, ext).thrown
  }

  /** The exception collectFacetResults raises, if any: a null facet map is dereferenced there. */
  function CollectionFailure(facets: Option<seq<(string, Facet)>>, response: SearchResponse, ext: Externals): Option<Failure>
  {
    if facets.None? then Some(NullPointer) else Collected(facets.value, response.aggregations, ext).thrown
  }

  /** Neither the facet requests nor the facet collection throw, so getHits is reached. */
  predicate ReachesHits(facets: Option<seq<(string, Facet)>>, response: SearchResponse, ext: Externals)
    requires |ext.toSeparator| > 0
  {
    FacetRequestFailure(facets, ext).None? && CollectionFailure(facets, response, ext).None?
  }

  /** The sort loop of getSearchHits: the usable sorts become field sorts, in order. */
  method AddSorts(sorts: seq<Option<Sort>>, builder: SearchRequestBuilder)
    modifies builder
    ensures builder.sorts == old(builder.sorts) + SortsOf(sorts)
    ensures builder.from == old(builder.from) && builder.size == old(builder.size)
    ensures builder.aggregations == old(builder.aggregations)
  {
    for i := 0 to |sorts|
      invariant builder.sorts == old(builder.sorts) + SortsOf(sorts[..i])
      invariant builder.from == old(builder.from) && builder.size == old(builder.size)
      invariant builder.aggregations == old(builder.aggregations)
    {
      assert sorts[..i + 1][..i] == sorts[..i];
      var sort := sorts[i];
      if sort.Some? && sort.value.fieldName.Some? {
        builder.AddSort(GetSort(sort.value));
      }
    }
    assert sorts[..|sorts|] == sorts;
  }

  /**
   * getSearchHits(searchContext, query). The query text is escaped, then its
   * custom-field clauses; every non-static facet adds an aggregation; paging is
   * `from` = start and `size` = end whether or not there are sorts; the usable
   * sorts are added in order. The response then fills the facet collectors and
   * the hits. An exception at any step ends the call, including the one
   * getDocuments raises when malformed hits outnumber the kept documents.
   */
  method GetSearchHits(ctx: SearchContext, queryText: string, index: string, response: SearchResponse, ext: Externals)
    returns (r: Result<Hits>, builder: SearchRequestBuilder)
    requires |ext.toSeparator| > 0
    modifies ctx
    ensures fresh(builder)
    ensures builder.index == index && builder.query == NormalizedQuery(queryText)
    ensures builder.aggregations == if ctx.facets.None? then [] else Handled(ctx.facets.value, ext).reached
    ensures FacetRequestFailure(ctx.facets, ext).Some? ==>
      r == Error(FacetRequestFailure(ctx.facets, ext).value) &&
      builder.from.None? && builder.size.None? && builder.sorts == [] && ctx.collectors == old(ctx.collectors)
    ensures FacetRequestFailure(ctx.facets, ext).None? ==>
      builder.from == Some(ctx.start) && builder.size == Some(ctx.end) &&
      builder.sorts == (if ctx.sorts.None? then [] else SortsOf(ctx.sorts.value))
    ensures FacetRequestFailure(ctx.facets, ext).None? && ctx.facets.Some? ==>
      ctx.collectors == old(ctx.collectors) + Collected(ctx.facets.value, response.aggregations, ext).reached
    ensures ctx.facets.None? ==> ctx.collectors == old(ctx.collectors)
    ensures FacetRequestFailure(ctx.facets, ext).None? && CollectionFailure(ctx.facets, response, ext).Some? ==>
      r == Error(CollectionFailure(ctx.facets, response, ext).value)
    ensures ReachesHits(ctx.facets, response, ext) && DocumentsOf(response.hits, ctx.entryClassNames).Error? ==>
      r == Error(NegativeArraySize)
    ensures ReachesHits(ctx.facets, response, ext) && DocumentsOf(response.hits, ctx.entryClassNames).Success? ==>
      r.Success? &&
      r.value.docs == DocumentsOf(response.hits, ctx.entryClassNames).value &&
      |r.value.scores| == |response.hits.hits| &&
      (forall i :: 0 <= i < |response.hits.hits| ==> r.value.scores[i] == response.hits.hits[i].score) &&
      r.value.query == queryText &&
      r.value.queryTerms == QueryTerms(ctx.keywords) &&
      r.value.length == LongToInt(response.hits.totalHits)
  {
    var queryString := Escape(queryText);
    queryString := EscapeCustomFields(queryString);
    builder := new SearchRequestBuilder(index, queryString);

    if ctx.facets.Some? {
      var thrown := HandleFacetQueries(ctx.facets.value, builder, ext);
      if thrown.Some? {
        return Error(thrown.value), builder;
      }
    }

    builder.SetFrom(ctx.start);
    builder.SetSize(ctx.end);
    if ctx.sorts.Some? && |ctx.sorts.value| > 0 {
      AddSorts(ctx.sorts.value, builder);
    }

    var thrown := CollectFacetResults(ctx, response, ext);
    if thrown.Some? {
      return Error(thrown.value), builder;
    }
    r := GetHits(queryText, response, ctx);
  }
}
