/**
 * Mapping of the hits of an Elasticsearch response back to Liferay documents,
 * scores and the Hits object.
 */
module Documents {
  import opened JavaLang
  import opened JavaText
  import opened JavaUtil
  import opened SearchModel

  const EntryClassName := "entryClassName"

  /** A field whose key names the entry class, ignoring case. */
  predicate NamesClass(field: (string, string))
  {
    EqualsIgnoreCase(field.0, EntryClassName)
  }

  /** The class name a parsed hit declares: the value of its last field whose key is entryClassName ignoring case. */
  function ClassNameOf(fields: seq<(string, string)>): Option<string>
  {
    if fields == [] then None
    else if NamesClass(fields[|fields| - 1]) then Some(fields[|fields| - 1].1)
    else ClassNameOf(fields[..|fields| - 1])
  }

  /**
   * The field loop of getDocuments for one parsed hit: each field is added to
   * the document, and the class name is remembered whenever its key matches.
   */
  method ReadFields(fields: seq<(string, string)>) returns (document: Document, className: Option<string>)
    ensures document == LastWins(fields)
    ensures className == ClassNameOf(fields)
  {
    document := map[];
    className := None;
    for i := 0 to |fields|
      invariant document == LastWins(fields[..i])
      invariant className == ClassNameOf(fields[..i])
    {
      assert fields[..i + 1][..i] == fields[..i];
      var (key, value) := fields[i];
      document := document[key := value];
      if EqualsIgnoreCase(key, EntryClassName) {
        className := Some(value);
      }
    }
    assert fields[..|fields|] == fields;
  }

  /** Field `i` names the class, and no later field does. */
  predicate LastClassField(fields: seq<(string, string)>, i: int)
  {
    0 <= i < |fields| && NamesClass(fields[i]) && forall j :: i < j < |fields| ==> !NamesClass(fields[j])
  }

  /** The class name is the value of the last matching field, and is null when no field matches. */
  lemma {:induction false} ClassNameOfIsLastMatch(fields: seq<(string, string)>)
    ensures ClassNameOf(fields).None? <==> forall i :: 0 <= i < |fields| ==> !NamesClass(fields[i])
    ensures ClassNameOf(fields).Some? ==>
              exists i :: LastClassField(fields, i) && fields[i].1 == ClassNameOf(fields).value
    decreases |fields|
  {
    if fields != [] {
      var n := |fields| - 1;
      var init := fields[..n];
      ClassNameOfIsLastMatch(init);
      assert forall i :: 0 <= i < n ==> init[i] == fields[i];
      if NamesClass(fields[n]) {
        assert LastClassField(fields, n);
      } else if ClassNameOf(init).Some? {
        var i :| LastClassField(init, i) && init[i].1 == ClassNameOf(init).value;
        assert LastClassField(fields, i);
      }
    }
  }

  /** A hit getDocuments keeps: well-formed JSON whose class name is one of the requested types. */
  predicate KeptHit(hit: SearchHit, types: seq<string>)
  {
    hit.source.Parsed? && ClassNameOf(hit.source.fields).Some? && ClassNameOf(hit.source.fields).value in types
  }

  /** The documents of the kept hits, in hit order. */
  function Kept(hits: seq<SearchHit>, types: seq<string>): seq<Document>
  {
    if hits == [] then []
    else
      var last := hits[|hits| - 1];
      Kept(hits[..|hits| - 1], types) + if KeptHit(last, types) then [LastWins(last.source.fields)] else []
  }

  /** The number of hits whose JSON fails to parse. */
  function MalformedCount(hits: seq<SearchHit>): nat
  {
    if hits == [] then 0
    else MalformedCount(hits[..|hits| - 1]) + if hits[|hits| - 1].source.Malformed? then 1 else 0
  }

  /**
   * What getDocuments returns: nothing when the engine reports no hit;
   * otherwise the kept documents, in an array sized as their count minus the
   * malformed hits, which throws once the malformed hits outnumber them.
   */
  function DocumentsOf(hits: SearchHits, types: seq<string>): Result<seq<Document>>
  {
    if hits.totalHits <= 0 then Success([])
    else if |Kept(hits.hits, types)| - MalformedCount(hits.hits) < 0 then Error(NegativeArraySize)
    else Success(Kept(hits.hits, types))
  }

  /**
   * The hit loop of getDocuments: reads each hit in turn, counting and
   * skipping those whose JSON is malformed, and keeps the documents whose
   * class is requested.
   */
  method ReadHits(hits: seq<SearchHit>, types: seq<string>) returns (documents: seq<Document>, failedJsonCount: nat)
    ensures documents == Kept(hits, types)
    ensures failedJsonCount == MalformedCount(hits)
  {
    failedJsonCount := 0;
    documents := [];
    for i := 0 to |hits|
      invariant documents == Kept(hits[..i], types)
      invariant failedJsonCount == MalformedCount(hits[..i])
    {
      assert hits[..i + 1][..i] == hits[..i];
      match hits[i].source
      case Malformed =>
        failedJsonCount := failedJsonCount + 1;
      case Parsed(fields) =>
        var document, className := ReadFields(fields);
        if className.Some? && className.value in types {
          documents := documents + [document];
        }
    }
    assert hits[..|hits|] == hits;
  }

  /**
   * getDocuments as written: nothing when the engine reports no hit; otherwise
   * the kept documents, copied into an array sized as their count minus the
   * malformed hits.
   */
  method GetDocuments(hits: SearchHits, types: seq<string>) returns (r: Result<seq<Document>>)
    ensures r == DocumentsOf(hits, types)
  {
    if hits.totalHits <= 0 {
      return Success([]);
    }
    var documents, failedJsonCount := ReadHits(hits.hits, types);
    if |documents| - failedJsonCount < 0 {
      return Error(NegativeArraySize);
    }
    return Success(documents);
  }

  /** The documents kept are those of the kept hits, one each, in hit order. */
  lemma {:induction false} KeptFollowsHits(hits: seq<SearchHit>, types: seq<string>, keep: SearchHit -> bool)
    requires forall h :: keep(h) == KeptHit(h, types)
    ensures |Kept(hits, types)| == |Positions(hits, keep)|
    ensures forall k :: 0 <= k < |Kept(hits, types)| ==>
      KeptHit(hits[Positions(hits, keep)[k]], types) &&
      Kept(hits, types)[k] == LastWins(hits[Positions(hits, keep)[k]].source.fields)
    decreases |hits|
  {
    if hits != [] {
      var init := hits[..|hits| - 1];
      KeptFollowsHits(init, types, keep);
      var ps := Positions(init, keep);
      forall k | 0 <= k < |ps|
        ensures init[ps[k]] == hits[ps[k]]
      {
      }
    }
  }

  /** Kept documents and malformed hits are disjoint parts of the page of hits. */
  lemma {:induction false} HitAccounting(hits: seq<SearchHit>, types: seq<string>)
    ensures |Kept(hits, types)| + MalformedCount(hits) <= |hits|
    ensures |Kept(hits, types)| + MalformedCount(hits) == |hits| <==>
      forall i :: 0 <= i < |hits| ==> hits[i].source.Malformed? || KeptHit(hits[i], types)
    decreases |hits|
  {
    if hits != [] {
      var init := hits[..|hits| - 1];
      HitAccounting(init, types);
      assert forall i :: 0 <= i < |init| ==> init[i] == hits[i];
    }
  }

  /**
   * A hit declaring no entry class is dropped, and so is one whose last
   * entry-class field holds a class not requested, whatever earlier fields say.
   */
  lemma UnrequestedHitDropped(hits: seq<SearchHit>, fields: seq<(string, string)>, score: real, types: seq<string>)
    requires (forall i :: 0 <= i < |fields| ==> !NamesClass(fields[i])) ||
             exists i :: LastClassField(fields, i) && fields[i].1 !in types
    ensures Kept(hits + [SearchHit(Parsed(fields), score)], types) == Kept(hits, types)
  {
    var all := hits + [SearchHit(Parsed(fields), score)];
    assert all[..|all| - 1] == hits;
    ClassNameOfIsLastMatch(fields);
    if ClassNameOf(fields).Some? {
      var i :| LastClassField(fields, i) && fields[i].1 !in types;
      var j :| LastClassField(fields, j) && fields[j].1 == ClassNameOf(fields).value;
      assert i == j;
    }
  }

  // ---------------------------------------------------------------- finding

  /** One malformed hit and no kept document: the engine reported a hit, and getDocuments throws. */
  lemma OneMalformedHitThrows(types: seq<string>, score: real)
    ensures DocumentsOf(SearchHits(1, [SearchHit(Malformed, score)]), types) == Error(NegativeArraySize)
  {
    var hits := [SearchHit(Malformed, score)];
    assert hits[..0] == [];
    assert Kept(hits, types) == [];
    assert MalformedCount(hits) == 1;
  }

  /** The array getDocuments evidently means to return: sized as the kept documents. */
  function DocumentsIntended(hits: SearchHits, types: seq<string>): seq<Document>
  {
    if hits.totalHits <= 0 then [] else Kept(hits.hits, types)
  }

  /**
   * With the array sized as the list, malformed hits are only skipped: the
   * result is every kept document whatever their number, and it agrees with
   * getDocuments wherever that does not throw.
   */
  lemma DocumentsIntendedKeepsAll(hits: SearchHits, types: seq<string>, keep: SearchHit -> bool)
    requires forall h :: keep(h) == KeptHit(h, types)
    requires hits.totalHits > 0
    ensures |DocumentsIntended(hits, types)| == |Positions(hits.hits, keep)|
    ensures forall k :: 0 <= k < |DocumentsIntended(hits, types)| ==>
      KeptHit(hits.hits[Positions(hits.hits, keep)[k]], types) &&
      DocumentsIntended(hits, types)[k] == LastWins(hits.hits[Positions(hits.hits, keep)[k]].source.fields)
    ensures DocumentsOf(hits, types).Success? ==> DocumentsOf(hits, types).value == DocumentsIntended(hits, types)
  {
    KeptFollowsHits(hits.hits, types, keep);
  }

  /** getDocuments with the array sized as the list of kept documents. */
  method GetDocumentsIntended(hits: SearchHits, types: seq<string>) returns (docs: seq<Document>)
    ensures docs == DocumentsIntended(hits, types)
  {
    if hits.totalHits <= 0 {
      return [];
    }
    var failedJsonCount;
    docs, failedJsonCount := ReadHits(hits.hits, types);
  }

  // ---------------------------------------------------------------- scores and hits

  /** getScores: one score per raw hit, in hit order, malformed hits included. */
  method GetScores(hits: SearchHits) returns (scores: array<real>)
    ensures fresh(scores)
    ensures scores.Length == |hits.hits|
    ensures forall i :: 0 <= i < scores.Length ==> scores[i] == hits.hits[i].score
  {
    scores := new real[|hits.hits|];
    for i := 0 to scores.Length
      invariant forall j :: 0 <= j < i ==> scores[j] == hits.hits[j].score
    {
      scores[i] := hits.hits[i].score;
    }
  }

  /** The query terms of the Hits: the keywords split on a space, or null without keywords. */
  function QueryTerms(keywords: Option<string>): (terms: Option<seq<string>>)
    ensures keywords.None? <==> terms.None?
    ensures terms.Some? ==> forall k :: 0 <= k < |terms.value| ==> IndexOf(terms.value[k], " ", 0).None?
  {
    if keywords.None? then None
    else
      SplitParts(keywords.value, " ");
      Some(Split(keywords.value, " "))
  }

  /** Two words separated by one space give two query terms. */
  lemma TwoKeywords(a: string, b: string)
    requires b != []
    requires forall i :: 0 <= i < |a| ==> a[i] != ' '
    requires forall i :: 0 <= i < |b| ==> b[i] != ' '
    ensures QueryTerms(Some(a + " " + b)) == Some([a, b])
  {
    SplitAround(a, " ", b);
  }

  /**
   * getHits: the documents from getDocuments, then the scores of all hits, the
   * query, the query terms and the total hit count cast to int. The exception
   * getDocuments raises when malformed hits outnumber the kept documents ends
   * the call.
   */
  method GetHits(query: string, response: SearchResponse, ctx: SearchContext) returns (r: Result<Hits>)
    ensures r.Error? <==> DocumentsOf(response.hits, ctx.entryClassNames).Error?
    ensures r.Error? ==> r.failure == NegativeArraySize
    ensures r.Success? ==>
      r.value.docs == DocumentsOf(response.hits, ctx.entryClassNames).value &&
      |r.value.scores| == |response.hits.hits| &&
      (forall i :: 0 <= i < |response.hits.hits| ==> r.value.scores[i] == response.hits.hits[i].score) &&
      r.value.query == query &&
      r.value.queryTerms == QueryTerms(ctx.keywords) &&
      r.value.length == LongToInt(response.hits.totalHits)
  {
    var docs := GetDocuments(response.hits, ctx.entryClassNames);
    if docs.Error? {
      return Error(docs.failure);
    }
    var hits := FillHits(query, docs.value, response, ctx);
    return Success(hits);
  }

  /**
   * getHits with getDocuments' array sized as the list of kept documents: it
   * never throws, and every kept document reaches the Hits.
   */
  method GetHitsIntended(query: string, response: SearchResponse, ctx: SearchContext) returns (r: Hits)
    ensures r.docs == DocumentsIntended(response.hits, ctx.entryClassNames)
    ensures |r.scores| == |response.hits.hits|
    ensures forall i :: 0 <= i < |response.hits.hits| ==> r.scores[i] == response.hits.hits[i].score
    ensures r.query == query
    ensures r.queryTerms == QueryTerms(ctx.keywords)
    ensures r.length == LongToInt(response.hits.totalHits)
  {
    var docs := GetDocumentsIntended(response.hits, ctx.entryClassNames);
    r := FillHits(query, docs, response, ctx);
  }

  /** The rest of getHits once the documents are read: scores, query, query terms and length. */
  method FillHits(query: string, docs: seq<Document>, response: SearchResponse, ctx: SearchContext) returns (r: Hits)
    ensures r.docs == docs
    ensures |r.scores| == |response.hits.hits|
    ensures forall i :: 0 <= i < |response.hits.hits| ==> r.scores[i] == response.hits.hits[i].score
    ensures r.query == query
    ensures r.queryTerms == QueryTerms(ctx.keywords)
    ensures r.length == LongToInt(response.hits.totalHits)
  {
    var scores := GetScores(response.hits);
    var terms: Option<seq<string>> := None;
    if ctx.keywords.Some? {
      terms := QueryTerms(ctx.keywords);
    }
    return Hits(docs, scores[..], query, terms, LongToInt(response.hits.totalHits));
  }
}
