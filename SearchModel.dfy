/**
 * The Liferay and Elasticsearch values the search service reads and writes,
 * reduced to the parts it actually touches.
 */
module SearchModel {
  import opened JavaLang

  /** A Liferay Sort. The sort array itself may hold nulls. */
  datatype Sort = Sort(fieldName: Option<string>, reverse: bool)

  /**
   * A Liferay facet, by class, with the configuration entries the service reads.
   * AssetEntriesFacet is a MultiValueFacet in Liferay, so it also carries maxTerms.
   * `Other` is a non-static facet of any other class; `Static` is any facet whose
   * isStatic() is true, whatever its class.
   */
  datatype Facet =
    | Static
    | MultiValue(fieldName: string, maxTerms: Option<int>)
    | AssetEntries(fieldName: string, maxTerms: Option<int>, values: Option<seq<string>>)
    | Range(fieldName: string, ranges: Option<seq<Option<string>>>)
    | Other(fieldName: string)

  /** The `_source` of a hit: JSON that fails to parse, or its keys and string values in iteration order. */
  datatype Source = Malformed | Parsed(fields: seq<(string, string)>)

  datatype SearchHit = SearchHit(source: Source, score: real)

  /** The hits of a response: the engine's total count and the page of hits returned. */
  datatype SearchHits = SearchHits(totalHits: int, hits: seq<SearchHit>)

  datatype TermsBucket = TermsBucket(key: string, docCount: int)

  datatype RangeBucket = RangeBucket(from: Double, to: Double, docCount: int)

  /** An aggregation result, as the terms or range aggregation the request asked for. */
  datatype Aggregation =
    | TermsResult(termsBuckets: seq<TermsBucket>)
    | RangeResult(rangeBuckets: seq<RangeBucket>)

  /** The engine's answer. `aggregations` is null when the request asked for none. */
  datatype SearchResponse = SearchResponse(hits: SearchHits, aggregations: Option<map<string, Aggregation>>)

  /** A Liferay Document: its fields by name; adding a field replaces one of the same name. */
  type Document = map<string, string>

  /**
   * The Liferay Hits the service returns: the documents kept, one score per raw
   * hit, the text of the query, the query terms (null without keywords) and the
   * total hit count narrowed to int. The search time, read from the clock, is
   * not modelled.
   */
  datatype Hits = Hits(docs: seq<Document>, scores: seq<real>, query: string, queryTerms: Option<seq<string>>, length: int)

  /** ElasticSearchQueryFacetCollector: a facet's name and its term counts (null for other facet classes). */
  datatype FacetCollector = FacetCollector(fieldName: string, results: Option<map<string, int>>)

  /**
   * What the service takes from outside EsSearchApiService.java: two constants of
   * `Constant`, `Ranges.toRange` and the JDK's Double.parseDouble.
   * `toSeparator` is Constant.ELASTIC_SEARCH_TO, used as a literal split separator;
   * `parseDouble` answers None where Double.parseDouble throws NumberFormatException.
   */
  datatype Externals = Externals(
    toSeparator: string,
    modifiedDateField: string,
    parseDouble: string -> Option<Double>,
    toRange: (int, int) -> string)

  /**
   * A Liferay SearchContext. The facet objects' collectors, which the service sets
   * one facet at a time, are kept here by facet name.
   */
  class SearchContext {
    const start: int
    const end: int
    const sorts: Option<seq<Option<Sort>>>
    const facets: Option<seq<(string, Facet)>>
    const keywords: Option<string>
    const entryClassNames: seq<string>
    var collectors: map<string, FacetCollector>

    constructor (start: int, end: int, sorts: Option<seq<Option<Sort>>>, facets: Option<seq<(string, Facet)>>,
                 keywords: Option<string>, entryClassNames: seq<string>)
      ensures this.start == start && this.end == end && this.sorts == sorts && this.facets == facets
      ensures this.keywords == keywords && this.entryClassNames == entryClassNames
      ensures collectors == map[]
    {
      this.start := start;
      this.end := end;
      this.sorts := sorts;
      this.facets := facets;
      this.keywords := keywords;
      this.entryClassNames := entryClassNames;
      collectors := map[];
    }
  }
}
