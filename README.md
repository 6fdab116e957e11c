# liferay-elasticsearch search service, modelled in Dafny

`EsSearchApiService` connects Liferay search to Elasticsearch. It handles one
search in these steps:

1. It escapes the Lucene query text.
   - `escape` puts a backslash before every `/`.
   - `escapeCustomFields` puts a backslash before every space inside each
     `custom_fields… :` clause.
2. It builds a `SearchRequestBuilder` for the escaped text:
   - paging: `from` and `size`;
   - one field sort per usable Liferay `Sort`;
   - one aggregation per non-static facet. Multi-value and asset-entry
     facets get a terms aggregation. A range facet gets a range aggregation
     whose bounds come from its `[from TO to]` literals.
3. Once the engine has answered, it sets a facet collector on every facet
   whose aggregation came back:
   - multi-value facets get term counts;
   - range facets get range-label counts;
   - asset-entry facets get counts for the declared class names, looked up
     against the lower-cased bucket keys.
4. It maps the hits back to a Liferay `Hits`. Documents are filtered by
   `entryClassName` and malformed hits are skipped. Scores, query terms and
   the total count are filled in as well.

The model follows the Java code. These are the pieces:

| module | what it holds |
|---|---|
| `JavaLang` | Java values the service relies on: null as `Option`, its exceptions as the `Failure` datatype, `double` values, the `(long)` and `(int)` casts |
| `JavaText` | `String` operations: `toLowerCase`, `equalsIgnoreCase`, `trim`, and `split` with a literal separator |
| `JavaUtil` | a `HashMap` filled by successive `put` calls, where the last entry per key wins |
| `SearchModel` | the Liferay and Elasticsearch values, with the `SearchContext` as a class whose facet collectors are updated in place |
| `QueryEscaping` | `escape` and `escapeCustomFields`, with the regular expression written out as an explicit scanner |
| `RangeLiterals` | `fetchFromToValuesInRange` and the loop that decodes range literals |
| `FacetRequests` | the request builder as a class, `getSort`, the sort loop and `handleFacetQueries` |
| `FacetResults` | `parseESFacet`, `fetchEntryClassnames`, `buildRangeTerm` and `collectFacetResults` |
| `Documents` | `getDocuments`, `getScores` and `getHits` |
| `SearchService` | `getSearchHits` wiring the steps together |

**Exceptions.**
- Every exception the Java code can raise by itself is a value of `Failure`.
- A loop that can throw is specified by a function returning `Partial`: the state the loop reached, plus the exception that ended it, if any.
- The methods stop at the same point, so the state they leave matches that function.

**Edge cases of the code.** The model keeps these behaviours of the code as they are:
- A range literal that does not decode is not skipped; it ends `handleFacetQueries` with an exception.
  - Without the `TO` separator, it throws `NumberFormatException` at `parseDouble`, or `ArrayIndexOutOfBoundsException` at `fromTovalues[1]` when its text is a number.
  - When the split leaves no part at all, as for `[ TO ]` with the separator ` TO `, it throws `ArrayIndexOutOfBoundsException` at `fromTovalues[0]`.
  - A bound that is not a number throws `NumberFormatException`.
  - A one-character literal throws `StringIndexOutOfBoundsException` at `substring`.
- The comment in `buildRangeTerm` (:378, :384) expects bounds that cannot be cast to long to fall back to their text. The `(long)` cast of a double never throws, so fractional bounds are truncated toward zero instead. With `toRange` taken as a total function (see "Left out"), the fallback is never reached.
- Aggregations are named after the facet's field name (:251, :260). Results are looked up under the facet-map key (:299).
- A response without aggregations makes `collectFacetResults` throw at the first non-static facet.
- The catch block at :223-225 skips a malformed hit, but the array size at :230 subtracts the skipped hits again (see "Findings").

All paths below are relative to the repository root. `EsSearchApiService.java` stands for
`smile-liferay-elasticsearch-web/src/main/java/fr/smile/liferay/web/elasticsearch/api/EsSearchApiService.java`
in the prose. The table cells spell it out.

## Model

| member | source | states |
|---|---|---|
| JavaLang.DoubleToLong | smile-liferay-elasticsearch-web/src/main/java/fr/smile/liferay/web/elasticsearch/api/EsSearchApiService.java:380-381 | the `(long)` cast of a bucket bound: NaN gives 0, a finite value in the long range is truncated toward zero, and infinities and finite values beyond the range saturate to the nearest long bound |
| JavaLang.LongToInt | smile-liferay-elasticsearch-web/src/main/java/fr/smile/liferay/web/elasticsearch/api/EsSearchApiService.java:338 | the `(int)` cast of a doc count: the result is an int congruent to the long modulo 2^32, and equal to it when it already fits |
| JavaText.ToLower | smile-liferay-elasticsearch-web/src/main/java/fr/smile/liferay/web/elasticsearch/api/EsSearchApiService.java:474 | lower-casing keeps the length and maps each character independently |
| JavaText.EqualsIgnoreCaseIsLowerEquality | smile-liferay-elasticsearch-web/src/main/java/fr/smile/liferay/web/elasticsearch/api/EsSearchApiService.java:321 | `equalsIgnoreCase` holds exactly when the lower-cased forms are equal, both directions |
| JavaText.Trim | smile-liferay-elasticsearch-web/src/main/java/fr/smile/liferay/web/elasticsearch/api/EsSearchApiService.java:276-277 | a trimmed bound is the contiguous slice of the text left once a prefix and a suffix of characters at or below U+0020 are cut, and it neither starts nor ends with such a character |
| JavaText.TrimKeepsVisible | smile-liferay-elasticsearch-web/src/main/java/fr/smile/liferay/web/elasticsearch/api/EsSearchApiService.java:276-277 | every visible character stays in the trimmed text, at its position less the cut prefix |
| JavaText.TrimWithoutBlankEnds | smile-liferay-elasticsearch-web/src/main/java/fr/smile/liferay/web/elasticsearch/api/EsSearchApiService.java:276-277 | a text that neither starts nor ends with a blank is left unchanged |
| JavaText.JoinPieces | smile-liferay-elasticsearch-web/src/main/java/fr/smile/liferay/web/elasticsearch/api/EsSearchApiService.java:416 | joining the pieces of a split with the separator gives the original string back |
| JavaText.SplitParts | smile-liferay-elasticsearch-web/src/main/java/fr/smile/liferay/web/elasticsearch/api/EsSearchApiService.java:416 | no part returned by `split` contains the separator; when the separator occurs, `split` returns the pieces between occurrences in order, dropping only trailing empty ones |
| JavaText.SplitAround | smile-liferay-elasticsearch-web/src/main/java/fr/smile/liferay/web/elasticsearch/api/EsSearchApiService.java:416 | `a + sep + b`, with neither part sharing a character with the separator and `b` non-empty, splits into exactly `[a, b]` |
| JavaText.SplitAtFirst | smile-liferay-elasticsearch-web/src/main/java/fr/smile/liferay/web/elasticsearch/api/EsSearchApiService.java:416 | `a + sep + b` splits into `[a, b]` when the separator first occurs right after `a` and not at all in a non-empty `b` |
| JavaText.SplitPadded | smile-liferay-elasticsearch-web/src/main/java/fr/smile/liferay/web/elasticsearch/api/EsSearchApiService.java:416 | with blank-padded bounds and a separator of two or more characters starting with a blank, the first occurrence is the one between the bounds |
| JavaUtil.LastWins | smile-liferay-elasticsearch-web/src/main/java/fr/smile/liferay/web/elasticsearch/api/EsSearchApiService.java:472-475 | the keys of a HashMap filled by `put` are exactly the keys put |
| JavaUtil.LastWinsValue | smile-liferay-elasticsearch-web/src/main/java/fr/smile/liferay/web/elasticsearch/api/EsSearchApiService.java:472-475 | each key maps to the value of its last `put` |
| QueryEscaping.Escape | smile-liferay-elasticsearch-web/src/main/java/fr/smile/liferay/web/elasticsearch/api/EsSearchApiService.java:426-439 | the StringBuilder loop builds the escaped text: a backslash before each slash, everything else appended as read |
| QueryEscaping.EscapedLength | smile-liferay-elasticsearch-web/src/main/java/fr/smile/liferay/web/elasticsearch/api/EsSearchApiService.java:426-439 | the output is longer than the input by exactly the number of slashes |
| QueryEscaping.SlashesAreEscaped | smile-liferay-elasticsearch-web/src/main/java/fr/smile/liferay/web/elasticsearch/api/EsSearchApiService.java:431-435 | every slash of the output has a backslash right before it |
| QueryEscaping.UnescapeEscaped | smile-liferay-elasticsearch-web/src/main/java/fr/smile/liferay/web/elasticsearch/api/EsSearchApiService.java:426-439 | removing the inserted backslashes gives the input back: no character is added, dropped or moved otherwise |
| QueryEscaping.MatchAtIsShortestSpan | smile-liferay-elasticsearch-web/src/main/java/fr/smile/liferay/web/elasticsearch/api/EsSearchApiService.java:448 | the scanner matches at a position exactly when a span there belongs to the language of `custom_fields[A-Za-z\\/]*?\s.*?:`, and then ends at the shortest such span, the one the lazy quantifiers select |
| QueryEscaping.FindFromIsLeftmost | smile-liferay-elasticsearch-web/src/main/java/fr/smile/liferay/web/elasticsearch/api/EsSearchApiService.java:450 | `find()` reports the match with the leftmost start after the previous one, and reports none when the pattern matches nowhere further on |
| QueryEscaping.MatchesAreDisjoint | smile-liferay-elasticsearch-web/src/main/java/fr/smile/liferay/web/elasticsearch/api/EsSearchApiService.java:450 | successive matches are ordered and do not overlap |
| QueryEscaping.EscapeCustomFields | smile-liferay-elasticsearch-web/src/main/java/fr/smile/liferay/web/elasticsearch/api/EsSearchApiService.java:446-461 | the splice loop shifts each match found in the original string by the running offset. Its result is the unmatched text copied, with each match put back with its spaces escaped |
| QueryEscaping.CustomFieldsEscapedIsLocal | smile-liferay-elasticsearch-web/src/main/java/fr/smile/liferay/web/elasticsearch/api/EsSearchApiService.java:446-461 | the result escapes exactly the spaces at positions inside a match. Every other character, tabs inside a match included, is copied unchanged and in order |
| QueryEscaping.NoMarkerUnchanged | smile-liferay-elasticsearch-web/src/main/java/fr/smile/liferay/web/elasticsearch/api/EsSearchApiService.java:446-461 | a text in which `custom_fields` never occurs is returned unchanged |
| RangeLiterals.FetchFromToValues | smile-liferay-elasticsearch-web/src/main/java/fr/smile/liferay/web/elasticsearch/api/EsSearchApiService.java:413-419 | null exactly for a null or empty literal; it throws `StringIndexOutOfBoundsException` exactly for a one-character literal |
| RangeLiterals.AddRanges | smile-liferay-elasticsearch-web/src/main/java/fr/smile/liferay/web/elasticsearch/api/EsSearchApiService.java:270-281 | the ranges loop adds each literal's bounds in turn and stops at the first exception |
| RangeLiterals.RangeBoundsSucceeds | smile-liferay-elasticsearch-web/src/main/java/fr/smile/liferay/web/elasticsearch/api/EsSearchApiService.java:271-280 | the loop completes exactly when every literal decodes or is skipped |
| RangeLiterals.RangeBoundsFirstFailure | smile-liferay-elasticsearch-web/src/main/java/fr/smile/liferay/web/elasticsearch/api/EsSearchApiService.java:271-280 | when the loop throws, it throws what the first failing literal raises, and every earlier literal went through |
| RangeLiterals.RangeBoundsInOrder | smile-liferay-elasticsearch-web/src/main/java/fr/smile/liferay/web/elasticsearch/api/EsSearchApiService.java:271-280 | when every literal decodes, the aggregation gets one range per literal, in array order |
| RangeLiterals.BlankLiteralsAddNothing | smile-liferay-elasticsearch-web/src/main/java/fr/smile/liferay/web/elasticsearch/api/EsSearchApiService.java:273-274 | null and empty literals are skipped and add no range |
| RangeLiterals.FetchSplitsAroundSeparator | smile-liferay-elasticsearch-web/src/main/java/fr/smile/liferay/web/elasticsearch/api/EsSearchApiService.java:416 | a literal `[a TO b]` decodes to exactly its two parts |
| RangeLiterals.RangeOfWellFormed | smile-liferay-elasticsearch-web/src/main/java/fr/smile/liferay/web/elasticsearch/api/EsSearchApiService.java:273-278 | a well-formed literal with numeric bounds adds exactly those bounds |
| RangeLiterals.FetchSplitsPadded | smile-liferay-elasticsearch-web/src/main/java/fr/smile/liferay/web/elasticsearch/api/EsSearchApiService.java:416 | a literal padded with one blank inside each bracket, `[ a TO b ]`, splits into `" a"` and `"b "` |
| RangeLiterals.RangeOfPadded | smile-liferay-elasticsearch-web/src/main/java/fr/smile/liferay/web/elasticsearch/api/EsSearchApiService.java:273-278 | the padded literal adds the same bounds as the unpadded one, because trim drops the padding before parsing |
| RangeLiterals.RangeOfWithoutSeparator | smile-liferay-elasticsearch-web/src/main/java/fr/smile/liferay/web/elasticsearch/api/EsSearchApiService.java:273-278 | a literal without the separator is not skipped. It throws `NumberFormatException` if its text is not a number and `ArrayIndexOutOfBoundsException` otherwise |
| RangeLiterals.NonNumericBoundThrows | smile-liferay-elasticsearch-web/src/main/java/fr/smile/liferay/web/elasticsearch/api/EsSearchApiService.java:276 | a literal whose lower bound is not a number makes the loop throw `NumberFormatException` once every earlier literal has gone through |
| FacetRequests.SearchRequestBuilder.constructor | smile-liferay-elasticsearch-web/src/main/java/fr/smile/liferay/web/elasticsearch/api/EsSearchApiService.java:113-116 | the request starts with the index and the escaped query, and no paging, sort or aggregation |
| FacetRequests.SearchRequestBuilder.SetFrom | smile-liferay-elasticsearch-web/src/main/java/fr/smile/liferay/web/elasticsearch/api/EsSearchApiService.java:124 | sets `from` and nothing else |
| FacetRequests.SearchRequestBuilder.SetSize | smile-liferay-elasticsearch-web/src/main/java/fr/smile/liferay/web/elasticsearch/api/EsSearchApiService.java:125 | sets `size` and nothing else |
| FacetRequests.SearchRequestBuilder.AddSort | smile-liferay-elasticsearch-web/src/main/java/fr/smile/liferay/web/elasticsearch/api/EsSearchApiService.java:128 | appends one sort and changes nothing else |
| FacetRequests.SearchRequestBuilder.AddAggregation | smile-liferay-elasticsearch-web/src/main/java/fr/smile/liferay/web/elasticsearch/api/EsSearchApiService.java:257 | appends one aggregation and changes nothing else |
| FacetRequests.GetSort | smile-liferay-elasticsearch-web/src/main/java/fr/smile/liferay/web/elasticsearch/api/EsSearchApiService.java:169-176 | a field sort on the sort's field with unmapped type `long`, descending exactly when the sort is reversed |
| FacetRequests.SortsOfSelectsUsable | smile-liferay-elasticsearch-web/src/main/java/fr/smile/liferay/web/elasticsearch/api/EsSearchApiService.java:126-130 | one field sort per non-null sort with a field name, in array order; the others are skipped |
| FacetRequests.FacetAggregation | smile-liferay-elasticsearch-web/src/main/java/fr/smile/liferay/web/elasticsearch/api/EsSearchApiService.java:246-283 | an aggregation is built exactly for multi-value, asset-entry and range facets. A terms aggregation is named after and targets the facet's field, and is sized only when maxTerms is set. A range aggregation is named after the field and targets the modified-date field. It fails exactly when its literals fail to decode, with their first exception. Otherwise its ranges are exactly the decoded bounds, and there are none when the ranges array is missing |
| FacetRequests.RangeFacetRanges | smile-liferay-elasticsearch-web/src/main/java/fr/smile/liferay/web/elasticsearch/api/EsSearchApiService.java:258-282 | a range facet whose literals all decode gets one range per literal, in array order |
| FacetRequests.HandleFacetQueries | smile-liferay-elasticsearch-web/src/main/java/fr/smile/liferay/web/elasticsearch/api/EsSearchApiService.java:243-286 | the facet loop appends to the request the aggregations `Handled` describes and throws what it throws. Paging and sorts are left untouched |
| FacetRequests.HandledCompletes | smile-liferay-elasticsearch-web/src/main/java/fr/smile/liferay/web/elasticsearch/api/EsSearchApiService.java:245-285 | the facet loop completes exactly when no facet's aggregation throws |
| FacetRequests.MalformedRangeFacetThrows | smile-liferay-elasticsearch-web/src/main/java/fr/smile/liferay/web/elasticsearch/api/EsSearchApiService.java:268-281 | a range facet with a literal that does not decode makes the facet loop throw that literal's exception, once every earlier facet has gone through |
| FacetRequests.HandledFollowsFacets | smile-liferay-elasticsearch-web/src/main/java/fr/smile/liferay/web/elasticsearch/api/EsSearchApiService.java:245-285 | a completed loop adds one aggregation per aggregating facet, in facet order. Static facets and facets of other classes add none |
| FacetResults.ParseESFacet | smile-liferay-elasticsearch-web/src/main/java/fr/smile/liferay/web/elasticsearch/api/EsSearchApiService.java:469-478 | the counts of a terms aggregation under lower-cased keys, a later bucket overwriting; another kind of aggregation fails the cast |
| FacetResults.CollectTermCounts | smile-liferay-elasticsearch-web/src/main/java/fr/smile/liferay/web/elasticsearch/api/EsSearchApiService.java:334-344 | the bucket loop of a multi-value facet puts each key with its count cast to int |
| FacetResults.TermCountKeys | smile-liferay-elasticsearch-web/src/main/java/fr/smile/liferay/web/elasticsearch/api/EsSearchApiService.java:337-338 | the terms of a multi-value collector are exactly the bucket keys |
| FacetResults.TermCountOfLastBucket | smile-liferay-elasticsearch-web/src/main/java/fr/smile/liferay/web/elasticsearch/api/EsSearchApiService.java:337-338 | a term's count is that of the last bucket with that key |
| FacetResults.FetchEntryClassnames | smile-liferay-elasticsearch-web/src/main/java/fr/smile/liferay/web/elasticsearch/api/EsSearchApiService.java:395-405 | the set of declared class names; empty when the values array is missing |
| FacetResults.CountAssetEntries | smile-liferay-elasticsearch-web/src/main/java/fr/smile/liferay/web/elasticsearch/api/EsSearchApiService.java:319-331 | exactly the declared names get a count: that of their lower-cased form, or 0 |
| FacetResults.AssetCountOfLastMatchingBucket | smile-liferay-elasticsearch-web/src/main/java/fr/smile/liferay/web/elasticsearch/api/EsSearchApiService.java:321-322 | a declared name gets the count of the last bucket whose key equals it ignoring case |
| FacetResults.AssetCountWithoutMatch | smile-liferay-elasticsearch-web/src/main/java/fr/smile/liferay/web/elasticsearch/api/EsSearchApiService.java:321-324 | a declared name that matches no bucket ignoring case gets 0 |
| FacetResults.AssetCountIgnoresCase | smile-liferay-elasticsearch-web/src/main/java/fr/smile/liferay/web/elasticsearch/api/EsSearchApiService.java:321-322 | two declared names that differ only in case get the same count |
| FacetResults.AssetResultsKeys | smile-liferay-elasticsearch-web/src/main/java/fr/smile/liferay/web/elasticsearch/api/EsSearchApiService.java:312-331 | an asset-entry collector's terms are exactly the declared class names, and there are none when none are declared |
| FacetResults.BuildRangeTerm | smile-liferay-elasticsearch-web/src/main/java/fr/smile/liferay/web/elasticsearch/api/EsSearchApiService.java:377-387 | the label is always `toRange` of two longs: the text fallback of the catch branch is never taken |
| FacetResults.RangeTermOfWholeBounds | smile-liferay-elasticsearch-web/src/main/java/fr/smile/liferay/web/elasticsearch/api/EsSearchApiService.java:377-387 | a bucket whose bounds are whole numbers within the long range is labelled by exactly those numbers |
| FacetResults.RangeTermTruncates | smile-liferay-elasticsearch-web/src/main/java/fr/smile/liferay/web/elasticsearch/api/EsSearchApiService.java:380-382 | any bounds that round toward zero to the longs n and m give the label of n and m, so fractional parts are dropped and buckets that differ only below the unit share a label |
| FacetResults.CollectRangeCounts | smile-liferay-elasticsearch-web/src/main/java/fr/smile/liferay/web/elasticsearch/api/EsSearchApiService.java:346-355 | the bucket loop of a range facet puts each bucket's label with its count cast to int |
| FacetResults.RangeCountOfLastBucket | smile-liferay-elasticsearch-web/src/main/java/fr/smile/liferay/web/elasticsearch/api/EsSearchApiService.java:348-349 | a label's count is that of the last bucket with that label |
| FacetResults.FacetResultsFor | smile-liferay-elasticsearch-web/src/main/java/fr/smile/liferay/web/elasticsearch/api/EsSearchApiService.java:312-356 | reading an aggregation throws `ClassCastException` exactly when its kind does not match the facet's. Otherwise the counts are non-null exactly for the three facet classes read |
| FacetResults.CollectFacet | smile-liferay-elasticsearch-web/src/main/java/fr/smile/liferay/web/elasticsearch/api/EsSearchApiService.java:312-356 | the per-class branches compute the counts `FacetResultsFor` describes |
| FacetResults.EntryOutcome | smile-liferay-elasticsearch-web/src/main/java/fr/smile/liferay/web/elasticsearch/api/EsSearchApiService.java:297-362 | a collector is named after the facet-map key. A facet entry throws exactly when it is not static and either the aggregation map is null or its found aggregation fails to read |
| FacetResults.CollectEntry | smile-liferay-elasticsearch-web/src/main/java/fr/smile/liferay/web/elasticsearch/api/EsSearchApiService.java:297-362 | the loop body does for one facet entry what `EntryOutcome` describes |
| FacetResults.CollectFacetResults | smile-liferay-elasticsearch-web/src/main/java/fr/smile/liferay/web/elasticsearch/api/EsSearchApiService.java:294-369 | a null facet map throws at once. Otherwise the collectors `Collected` describes are set and it throws what it throws; collectors set before an exception stay |
| FacetResults.CollectedCompletes | smile-liferay-elasticsearch-web/src/main/java/fr/smile/liferay/web/elasticsearch/api/EsSearchApiService.java:296-368 | collection completes exactly when every non-static facet finds an aggregation map and any aggregation under its key reads without a cast failure |
| FacetResults.CollectedCollectors | smile-liferay-elasticsearch-web/src/main/java/fr/smile/liferay/web/elasticsearch/api/EsSearchApiService.java:296-368 | after a completed loop a facet has a collector exactly when it is not static and its key has an aggregation. That collector holds the counts read from that aggregation, and no other key gets one |
| FacetResults.FieldNamedAggregationIsMissed | smile-liferay-elasticsearch-web/src/main/java/fr/smile/liferay/web/elasticsearch/api/EsSearchApiService.java:250-251 | an aggregation is named after the field but looked up under the facet key, so a facet whose key differs from its field gets no collector |
| Documents.ReadFields | smile-liferay-elasticsearch-web/src/main/java/fr/smile/liferay/web/elasticsearch/api/EsSearchApiService.java:209-219 | the field loop builds the document from every field, and the class name from the last `entryClassName` key, ignoring case |
| Documents.ClassNameOfIsLastMatch | smile-liferay-elasticsearch-web/src/main/java/fr/smile/liferay/web/elasticsearch/api/EsSearchApiService.java:211-218 | the class name is null exactly when no key matches, and otherwise the value of the last matching key |
| Documents.ReadHits | smile-liferay-elasticsearch-web/src/main/java/fr/smile/liferay/web/elasticsearch/api/EsSearchApiService.java:203-227 | the hit loop keeps the kept hits' documents in order and counts the malformed hits |
| Documents.GetDocuments | smile-liferay-elasticsearch-web/src/main/java/fr/smile/liferay/web/elasticsearch/api/EsSearchApiService.java:200-235 | getDocuments as written: empty when the engine reports no hit, otherwise the kept documents, or `NegativeArraySizeException` when the malformed hits outnumber them |
| Documents.KeptFollowsHits | smile-liferay-elasticsearch-web/src/main/java/fr/smile/liferay/web/elasticsearch/api/EsSearchApiService.java:205-222 | one document per hit that parses and declares a requested class, in hit order, holding that hit's fields |
| Documents.HitAccounting | smile-liferay-elasticsearch-web/src/main/java/fr/smile/liferay/web/elasticsearch/api/EsSearchApiService.java:205-227 | kept documents and malformed hits are disjoint parts of the page. Together they make up the whole page exactly when every hit is malformed or requested |
| Documents.UnrequestedHitDropped | smile-liferay-elasticsearch-web/src/main/java/fr/smile/liferay/web/elasticsearch/api/EsSearchApiService.java:211-222 | a hit declaring no class adds no document, and neither does one whose last `entryClassName` field, matched ignoring case, holds a class not requested, whatever earlier such fields hold |
| Documents.OneMalformedHitThrows | smile-liferay-elasticsearch-web/src/main/java/fr/smile/liferay/web/elasticsearch/api/EsSearchApiService.java:230 | one malformed hit and no kept document make getDocuments throw |
| Documents.DocumentsIntendedKeepsAll | smile-liferay-elasticsearch-web/src/main/java/fr/smile/liferay/web/elasticsearch/api/EsSearchApiService.java:200-235 | when the engine reports hits and the array is sized as the list, every kept document is returned in hit order, holding its hit's fields, whatever the number of malformed hits; the result agrees with getDocuments wherever that does not throw |
| Documents.GetDocumentsIntended | smile-liferay-elasticsearch-web/src/main/java/fr/smile/liferay/web/elasticsearch/api/EsSearchApiService.java:200-235 | getDocuments with the array sized as the list: no document when the engine reports no hit, otherwise the kept documents, and never an exception |
| Documents.GetScores | smile-liferay-elasticsearch-web/src/main/java/fr/smile/liferay/web/elasticsearch/api/EsSearchApiService.java:184-191 | a new array with one score per raw hit, in hit order, malformed hits included |
| Documents.QueryTerms | smile-liferay-elasticsearch-web/src/main/java/fr/smile/liferay/web/elasticsearch/api/EsSearchApiService.java:155-157 | query terms are null exactly when the keywords are, and no term contains a space |
| Documents.TwoKeywords | smile-liferay-elasticsearch-web/src/main/java/fr/smile/liferay/web/elasticsearch/api/EsSearchApiService.java:156 | two words separated by one space give exactly those two terms |
| Documents.GetHits | smile-liferay-elasticsearch-web/src/main/java/fr/smile/liferay/web/elasticsearch/api/EsSearchApiService.java:147-162 | getHits as written: the `NegativeArraySizeException` of getDocuments ends the call exactly when getDocuments throws it. Otherwise the Hits carries getDocuments' documents, one score per raw hit with that hit's score, the query, the query terms and the total hit count cast to int |
| Documents.GetHitsIntended | smile-liferay-elasticsearch-web/src/main/java/fr/smile/liferay/web/elasticsearch/api/EsSearchApiService.java:147-162 | getHits over the corrected getDocuments: it never throws, and the Hits carries every kept document along with the same scores, query, query terms and length |
| Documents.FillHits | smile-liferay-elasticsearch-web/src/main/java/fr/smile/liferay/web/elasticsearch/api/EsSearchApiService.java:151-159 | after the documents: one score per raw hit in hit order, the query, the query terms and the total hit count cast to int |
| SearchService.AddSorts | smile-liferay-elasticsearch-web/src/main/java/fr/smile/liferay/web/elasticsearch/api/EsSearchApiService.java:126-130 | the sort loop appends the usable sorts in order and leaves paging and aggregations untouched |
| SearchService.GetSearchHits | smile-liferay-elasticsearch-web/src/main/java/fr/smile/liferay/web/elasticsearch/api/EsSearchApiService.java:109-138 | the query is `escape` then `escapeCustomFields` of the text. If the facet loop throws, the request has no paging and the collectors are untouched. Otherwise `from` is start and `size` is end, whether or not there are sorts, the usable sorts follow in order, and the collectors are set. A null facet map throws `NullPointerException` and leaves the collectors untouched. A collection failure ends the call; then getDocuments' `NegativeArraySizeException` ends it when getDocuments throws. Otherwise the result carries getDocuments' documents, each hit's score in order, the query, the query terms and the total hit count cast to int |

## Left out

- Running the request and waiting for the engine (`execute().actionGet()`): the response is an input value.
- JSON parsing of hits and of the facet configuration. A hit is either malformed or a sequence of key and value pairs in iteration order. A facet's configuration is reduced to the fields the service reads.
- `Double.parseDouble`, `Ranges.toRange`, `Constant.ELASTIC_SEARCH_TO` and `Constant.ELASTIC_SEARCH_INNERFIELD_MDATE`. Their definitions lie outside `EsSearchApiService.java` (`Ranges` and `Constant` elsewhere in the repository, `parseDouble` in the JDK) and are not modelled, so they are parameters (`Externals`). `parseDouble` answers None where Java throws. `toRange` is a total function, so it cannot throw. `split` treats its argument as a regular expression, but the separator is modelled as a literal string: the model assumes `Constant.ELASTIC_SEARCH_TO` holds no regex metacharacters.
- Floating point: a `double` is a real, an infinity or NaN, and rounding is not modelled.
- Documents.GetScores: scores are reals, and the `Float` boxing of Elasticsearch's float scores is not modelled.
- The search time, read from the system clock, and `hits.setStart(hits.getStart())`, which changes nothing.
- Logging, Spring wiring, `ElasticsearchClient` and `ConnexionSettings`: transport and configuration plumbing.
- The overload `getSearchHits(query, sorts, start, end)`: it only fills a fresh Liferay `SearchContext` and calls the modelled overload.
- The iteration order of the facet map, the response's aggregation map and the asset-entry class-name set is unknown. The facet map is modelled as a sequence of entries, in the order the loop visits them. The class names are counted in an arbitrary order; the resulting map does not depend on it.
- Null `entryClassNames`: `ArrayUtil.contains` on a null array answers false, like an empty sequence, so it is modelled as empty.
- A null `SearchHits` (guarded at `:202`) is not modelled; the response always carries hits.
- Argument checks inside the Elasticsearch builders are not modelled: for example a negative `size`, or the exception `setSize` or `addRange` may raise.
- JavaText.ToLower: only ASCII letters are mapped. Java's `toLowerCase` also maps other letters and depends on the locale. `equalsIgnoreCase` is modelled the same way.
- JavaText.Trim: characters are Unicode scalar values, not UTF-16 code units; the same goes for `substring` and `split`.
- FacetResults.BuildRangeTerm: the `NumberFormatException` catch branch and its text fallback are not modelled. The cast of a double to long never throws that exception, and `toRange`, defined outside `EsSearchApiService.java` and taken as a total function (see the Externals line), is assumed not to throw it either.

## Findings

| source | as written | input that shows it | evidently intended | confidence | as-written member | corrected member |
|---|---|---|---|---|---|---|
| smile-liferay-elasticsearch-web/src/main/java/fr/smile/liferay/web/elasticsearch/api/EsSearchApiService.java:230 | the result array is sized `documentsList.size() - failedJsonCount` | a response with `totalHits` 1 whose only hit has malformed JSON: size 0 - 1 is negative, so `NegativeArraySizeException` | an array sized as the list of kept documents, so a malformed hit is only skipped, as the catch block at :223-225 means | high; not executed | Documents.OneMalformedHitThrows | Documents.DocumentsIntendedKeepsAll, Documents.GetHitsIntended |
