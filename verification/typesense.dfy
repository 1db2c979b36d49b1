/** `TypesenseAdapter`: a write-and-search index. Staged documents carry a
    running `index`, the collection is rebuilt by `clear`, and `search`
    returns the best page by descending index. */
module Typesense {
  import opened Common

  const MaxPortionSize := 500

  /** A document of the `knowledge` collection. */
  datatype TDoc = TDoc(filename: string, text: string, index: nat)

  datatype SchemaField = SchemaField(name: string, fieldType: string, facet: bool)
  datatype Schema = Schema(name: string, fields: seq<SchemaField>, defaultSortingField: string)

  const KnowledgeSchema := Schema(
    "knowledge",
    [SchemaField("filename", "string", false), SchemaField("text", "string", true), SchemaField("index", "float", false)],
    "index")

  /** The order `search` asks for. */
  const SortBy := "index:desc"

  /** The server's default page size; `search` does not set one. */
  const PerPage := 10

  /** The collection is sorted on the field the search orders by, and that
      field is a declared numeric field. */
  lemma SchemaSortsByIndex()
    ensures KnowledgeSchema.defaultSortingField == "index" && SortBy == KnowledgeSchema.defaultSortingField + ":desc"
    ensures exists i :: (0 <= i < |KnowledgeSchema.fields|
      && KnowledgeSchema.fields[i].name == "index" && KnowledgeSchema.fields[i].fieldType == "float")
  {
    assert KnowledgeSchema.fields[2].name == "index";
  }

  // -------------------------------------------------------------------
  // Staging
  // -------------------------------------------------------------------

  /** Staging notes one after another from counter value `start`: the
      portion grows by one document per note, indexed by the counter. */
  function Stage(portion: seq<TDoc>, start: nat, notes: seq<Rec>): (r: (seq<TDoc>, nat))
    decreases |notes|
  {
    if notes == [] then (portion, start)
    else
      var last := notes[|notes| - 1];
      var (p, next) := Stage(portion, start, notes[..|notes| - 1]);
      (p + [TDoc(last.title, last.content, next)], next + 1)
  }

  /** Staged documents get consecutive indexes starting at the counter, in
      staging order, and the counter ends one past the last. */
  lemma {:induction false} StageIndexesConsecutive(portion: seq<TDoc>, start: nat, notes: seq<Rec>)
    ensures var (p, next) := Stage(portion, start, notes);
      && next == start + |notes|
      && |p| == |portion| + |notes|
      && p[..|portion|] == portion
      && forall k :: 0 <= k < |notes| ==>
           p[|portion| + k] == TDoc(notes[k].title, notes[k].content, start + k)
    decreases |notes|
  {
    if notes != [] {
      StageIndexesConsecutive(portion, start, notes[..|notes| - 1]);
    }
  }

  // -------------------------------------------------------------------
  // Search
  // -------------------------------------------------------------------

  predicate IndexDescending(s: seq<TDoc>) {
    forall i, j :: 0 <= i < j < |s| ==> s[i].index >= s[j].index
  }

  function InsertDesc(x: TDoc, s: seq<TDoc>): (r: seq<TDoc>)
    ensures multiset(r) == multiset(s) + multiset{x}
  {
    if s == [] then [x]
    else if x.index >= s[0].index then [x] + s
    else
      assert s == [s[0]] + s[1..];
      [s[0]] + InsertDesc(x, s[1..])
  }

  /** No document of `s` has an index above `b`. */
  predicate AllAtMost(b: int, s: seq<TDoc>) {
    forall k :: 0 <= k < |s| ==> s[k].index <= b
  }

  lemma {:induction false} InsertDescSorted(x: TDoc, s: seq<TDoc>)
    requires IndexDescending(s)
    ensures IndexDescending(InsertDesc(x, s))
  {
    if s != [] {
      if x.index >= s[0].index {
        forall k | 0 <= k < |s| ensures s[k].index <= x.index {
          if k > 0 {
            assert s[0].index >= s[k].index;
          }
        }
        ConsDescending(x, s);
      } else {
        var t := s[1..];
        assert IndexDescending(t) by {
          forall i, j | 0 <= i < j < |t| ensures t[i].index >= t[j].index {
            assert t[i] == s[i + 1] && t[j] == s[j + 1];
          }
        }
        InsertDescSorted(x, t);
        forall k | 0 <= k < |t| ensures t[k].index <= s[0].index {
          assert t[k] == s[k + 1];
        }
        InsertDescBound(x, t, s[0].index);
        ConsDescending(s[0], InsertDesc(x, t));
      }
    }
  }

  /** Inserting keeps every index at most `b` when `x` and `s` do. */
  lemma InsertDescBound(x: TDoc, s: seq<TDoc>, b: int)
    requires AllAtMost(b, s) && x.index <= b
    ensures AllAtMost(b, InsertDesc(x, s))
  {
    var r := InsertDesc(x, s);
    forall k | 0 <= k < |r| ensures r[k].index <= b {
      assert r[k] in multiset(r);
      if r[k] != x {
        assert r[k] in multiset(s);
        var j :| 0 <= j < |s| && s[j] == r[k];
      }
    }
  }

  /** A document above every index of a descending list starts a
      descending list. */
  lemma ConsDescending(y: TDoc, t: seq<TDoc>)
    requires IndexDescending(t) && AllAtMost(y.index, t)
    ensures IndexDescending([y] + t)
  {
    var s := [y] + t;
    forall i, j | 0 <= i < j < |s| ensures s[i].index >= s[j].index {
      assert s[j] == t[j - 1];
      if i > 0 {
        assert s[i] == t[i - 1];
      }
    }
  }

  function SortByIndexDesc(s: seq<TDoc>): (r: seq<TDoc>)
    ensures IndexDescending(r)
    ensures multiset(r) == multiset(s)
  {
    if s == [] then []
    else
      assert s == [s[0]] + s[1..];
      InsertDescSorted(s[0], SortByIndexDesc(s[1..]));
      InsertDesc(s[0], SortByIndexDesc(s[1..]))
  }

  datatype SearchResult = SearchResult(results: seq<Rec>, count: nat)

  /** `search`: the server selects the documents whose file name matches the
      query (`matchesQuery` stands for its text matching) and returns the
      first page of them by descending index; `found` counts all of them.
      The query is the optional file name, sent as `'q': None` when absent;
      the content term and the page number are not sent. */
  /** The documents whose file name the query matches, in stored order. */
  function Found(docs: seq<TDoc>, fileName: Option<string>, matchesQuery: (Option<string>, string) -> bool): seq<TDoc> {
    Filter(docs, (d: TDoc) => matchesQuery(fileName, d.filename))
  }

  function SearchIndex(collection: Option<seq<TDoc>>, fileName: Option<string>, matchesQuery: (Option<string>, string) -> bool): (r: Result<SearchResult>)
    ensures collection.None? <==> r == Err(NoSuchCollection)
    ensures r.Ok? ==>
      var found := Found(collection.value, fileName, matchesQuery);
      && r.value.count == |found|
      && |r.value.results| == if |found| < PerPage then |found| else PerPage
  {
    match collection
    case None => Err(NoSuchCollection)
    case Some(docs) =>
      var found := Found(docs, fileName, matchesQuery);
      var ranked := SortByIndexDesc(found);
      assert |ranked| == |found| by {
        assert |multiset(ranked)| == |multiset(found)|;
      }
      var top := if |ranked| < PerPage then ranked else ranked[..PerPage];
      Ok(SearchResult(seq(|top|, k requires 0 <= k < |top| => Rec(top[k].filename, top[k].text)), |found|))
  }

  /** Every result is a matching document as {title: filename, content:
      text}, and the results run from the highest index down. */
  lemma SearchResultsRanked(docs: seq<TDoc>, fileName: Option<string>, matchesQuery: (Option<string>, string) -> bool)
    ensures var r := SearchIndex(Some(docs), fileName, matchesQuery).value;
      var ranked := SortByIndexDesc(Found(docs, fileName, matchesQuery));
      && |r.results| <= |ranked|
      && (forall k :: 0 <= k < |r.results| ==> r.results[k] == Rec(ranked[k].filename, ranked[k].text))
      && (forall k :: 0 <= k < |r.results| ==> ranked[k] in docs && matchesQuery(fileName, ranked[k].filename))
      && IndexDescending(ranked)
  {
    var found := Found(docs, fileName, matchesQuery);
    var ranked := SortByIndexDesc(found);
    assert |multiset(ranked)| == |multiset(found)|;
    forall k | 0 <= k < |ranked| ensures ranked[k] in docs && matchesQuery(fileName, ranked[k].filename) {
      assert ranked[k] in multiset(found);
      assert ranked[k] in found;
    }
  }

  // -------------------------------------------------------------------
  // The adapter
  // -------------------------------------------------------------------

  class TypesenseAdapter {
    /** The running document index (per adapter: the first `+=` copies the
        class-level 0 into the instance). */
    var index: nat
    var portion: seq<TDoc>
    /** The server's `knowledge` collection, `None` when it does not exist. */
    var collection: Option<seq<TDoc>>

    constructor (existing: Option<seq<TDoc>>)
      ensures index == 0 && portion == [] && collection == existing
    {
      index := 0;
      portion := [];
      collection := existing;
    }

    /** A failure deleting the collection is ignored; it is recreated empty
        from the schema either way. */
    method Clear()
      modifies this
      ensures collection == Some([])
      ensures index == old(index) && portion == old(portion)
    {
      collection := Some([]);
    }

    method AddToPortion(fileName: string, fileContent: string)
      modifies this
      ensures portion == old(portion) + [TDoc(fileName, fileContent, old(index))]
      ensures index == old(index) + 1 && collection == old(collection)
    {
      portion := portion + [TDoc(fileName, fileContent, index)];
      index := index + 1;
    }

    /** The whole portion in one import; a missing collection raises and
        keeps the portion. */
    method Commit() returns (r: Result<()>)
      modifies this
      ensures old(collection).None? ==> r == Err(NoSuchCollection) && portion == old(portion) && collection == old(collection)
      ensures old(collection).Some? ==> r.Ok? && collection == Some(old(collection).value + old(portion)) && portion == []
      ensures index == old(index)
    {
      if collection.None? {
        return Err(NoSuchCollection);
      }
      collection := Some(collection.value + portion);
      portion := [];
      r := Ok(());
    }

    method Search(fileName: Option<string>, fileContent: Option<string>, pageNumber: int, matchesQuery: (Option<string>, string) -> bool)
      returns (r: Result<SearchResult>)
      ensures r == SearchIndex(collection, fileName, matchesQuery)
    {
      r := SearchIndex(collection, fileName, matchesQuery);
    }
  }
}
