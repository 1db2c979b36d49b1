/** The REST API of `note/views_api.py`: search, and get, create, edit and
    delete of one note, each guarded as the views do before the storage
    adapter is called. The adapter's `get` is a parameter; the lemmas
    instantiate it with the relational store. Percent-decoding of the title
    in the URL is not modelled: titles arrive decoded. */
module ViewsApi {
  import opened Common
  import opened Models
  import opened Serializers
  import Relational
  import Paginator
  import Views

  // -------------------------------------------------------------------
  // NoteSearchView
  // -------------------------------------------------------------------

  /** The arguments `search` is called with. */
  datatype SearchCall = SearchCall(operator: string, countOnPage: nat, pageNumber: int, fields: seq<string>,
                                   fileName: Option<string>, fileContent: Option<string>)

  /** The query is looked for in titles when searching by title or by all,
      in contents when searching by content or by all; `all` columns
      returns titles and contents, any other choice that one column. The
      page size has passed the serializer's `min_value=1`. */
  function SearchArguments(p: SearchParams, query: string): (r: SearchCall)
    requires p.countOnPage >= 1
    ensures r.fileName == Some(query) <==> p.searchBy == "title" || p.searchBy == "all"
    ensures r.fileName.None? <==> p.searchBy != "title" && p.searchBy != "all"
    ensures r.fileContent == Some(query) <==> p.searchBy == "content" || p.searchBy == "all"
    ensures r.fileContent.None? <==> p.searchBy != "content" && p.searchBy != "all"
    ensures p.fields == "all" ==> r.fields == ["title", "content"]
    ensures p.fields != "all" ==> r.fields == [p.fields]
    ensures r.operator == p.operator && r.countOnPage == p.countOnPage && r.pageNumber == p.pageNumber
  {
    SearchCall(p.operator, p.countOnPage, p.pageNumber,
               if p.fields == "all" then ["title", "content"] else [p.fields],
               if p.searchBy in {"title", "all"} then Some(query) else None,
               if p.searchBy in {"content", "all"} then Some(query) else None)
  }

  /** The response body of a search. */
  datatype SearchResponse = SearchResponse(results: seq<Relational.Hit>, source: string, countOnPage: int,
                                           pageNumber: int, pages: nat, count: nat)

  datatype SearchReply =
    | SearchRefused(fields: seq<string>)   // 400 with the invalid parameters
    | SearchFailed(error: Error)           // the adapter raised
    | SearchOk(response: SearchResponse)   // 200

  /** `NoteSearchView.get`: validate the query string, call `search` of the
      storage resolved for `source`, and echo the page parameters beside
      the adapter's results and counts. */
  function ApiSearch(raw: SearchInput, query: string, source: string,
                     search: SearchCall -> Result<Relational.SearchPage>): (r: SearchReply)
    ensures ValidateSearch(raw).Rejected? ==> r == SearchRefused(ValidateSearch(raw).fields)
    ensures r.SearchOk? ==> ValidateSearch(raw).Valid? && search(SearchArguments(ValidateSearch(raw).data, query)).Ok?
    ensures r.SearchOk? ==>
      var p := ValidateSearch(raw).data;
      var page := search(SearchArguments(p, query)).value;
      r.response == SearchResponse(page.hits, source, p.countOnPage, p.pageNumber, page.numPages, page.count)
    ensures r.SearchFailed? <==> ValidateSearch(raw).Valid? && search(SearchArguments(ValidateSearch(raw).data, query)).Err?
  {
    match ValidateSearch(raw)
    case Rejected(fields) => SearchRefused(fields)
    case Valid(p) =>
      match search(SearchArguments(p, query))
      case Err(e) => SearchFailed(e)
      case Ok(page) => SearchOk(SearchResponse(page.hits, source, p.countOnPage, p.pageNumber, page.numPages, page.count))
  }

  /** The relational adapter's `search` on one storage. */
  function RelationalSearch(rows: seq<Note>, scope: Relational.Scope, urlOf: string -> string): (r: SearchCall -> Result<Relational.SearchPage>)
    ensures forall c: SearchCall :: r(c).Ok? ==> c.countOnPage > 0 && |r(c).value.hits| <= c.countOnPage
    ensures forall c: SearchCall :: c.pageNumber < 1 ==> r(c) == Err(InvalidPage)
    ensures forall c: SearchCall :: c.pageNumber >= 1 && c.countOnPage == 0 ==> r(c) == Err(DivisionByZero)
  {
    (c: SearchCall) => Relational.SearchResult(rows, scope, c.operator, c.countOnPage, c.pageNumber, c.fields, c.fileName, c.fileContent, urlOf)
  }

  /** A request with no parameters asks for page 0, which the relational
      store's paginator refuses: the default search never answers. */
  lemma DefaultSearchFails(rows: seq<Note>, scope: Relational.Scope, urlOf: string -> string, query: string, source: string)
    ensures ApiSearch(SearchInput(None, None, None, None, None), query, source, RelationalSearch(rows, scope, urlOf)).SearchFailed?
  {
    SearchDefaults();
    var c := SearchArguments(SearchParams("title", "or", 10, 0, "all"), query);
    assert Relational.SearchRows(rows, scope, c.operator, 10, 0, c.fileName, c.fileContent).Err?;
  }

  /** Searching the relational store returns at most one page of notes
      that match the query as the parameters ask, with the count of all
      matches and the page count the paginator gives. */
  lemma RelationalSearchMeaning(rows: seq<Note>, scope: Relational.Scope, urlOf: string -> string, raw: SearchInput,
                                query: string, source: string)
    requires ApiSearch(raw, query, source, RelationalSearch(rows, scope, urlOf)).SearchOk?
    ensures var p := ValidateSearch(raw).data;
      var c := SearchArguments(p, query);
      var response := ApiSearch(raw, query, source, RelationalSearch(rows, scope, urlOf)).response;
      var matches := Relational.SearchMatches(rows, scope, p.operator, c.fileName, c.fileContent);
      && 1 <= response.countOnPage <= 100
      && |response.results| <= response.countOnPage
      && response.count == |matches|
      && response.pages == Paginator.NumPages(|matches|, response.countOnPage)
      && response.source == source
  {
    SearchDomains(raw);
  }

  /** Returning contents alone (`fields=content`) fails as soon as
      anything matches, since the adapter builds each URL from the title. */
  lemma ContentFieldSearchFails(rows: seq<Note>, scope: Relational.Scope, urlOf: string -> string, raw: SearchInput,
                                query: string, source: string)
    requires ValidateSearch(raw).Valid? && ValidateSearch(raw).data.fields == "content"
    requires var p := ValidateSearch(raw).data;
      var c := SearchArguments(p, query);
      Relational.SearchRows(rows, scope, p.operator, p.countOnPage, p.pageNumber, c.fileName, c.fileContent).Ok? &&
      Relational.SearchRows(rows, scope, p.operator, p.countOnPage, p.pageNumber, c.fileName, c.fileContent).value != []
    ensures ApiSearch(raw, query, source, RelationalSearch(rows, scope, urlOf)) == SearchFailed(MissingKey)
  {
    SearchDomains(raw);
  }

  // -------------------------------------------------------------------
  // NoteView
  // -------------------------------------------------------------------

  /** A note as `get` returns it, with the source the storage resolved to. */
  datatype NoteData = NoteData(title: string, content: string, source: string)

  /** `NoteView.get`: 404 when the storage has no such note. */
  function ApiGet(title: string, source: string, get: string -> Option<Rec>): (r: Result<NoteData>)
    ensures r.Err? <==> get(title).None?
    ensures r.Err? ==> r.error == NotFound
    ensures r.Ok? ==> r.value == NoteData(get(title).value.title, get(title).value.content, source)
  {
    match get(title)
    case None => Err(NotFound)
    case Some(n) => Ok(NoteData(n.title, n.content, source))
  }

  /** On the relational store, the API returns the note under the title it
      was asked for. */
  lemma ApiGetRelational(rows: seq<Note>, scope: Relational.Scope, title: string, source: string)
    requires ApiGet(title, source, t => Relational.Lookup(rows, scope, t)).Ok?
    ensures ApiGet(title, source, t => Relational.Lookup(rows, scope, t)).value.title == title
  {
  }

  /** `NoteView.post`: the body is validated first (400), then a reserved
      title is refused (400), then an existing title (422); otherwise the
      trimmed content is added with 204. */
  function ApiPost(title: string, content: Option<string>, get: string -> Option<Rec>): (r: Views.Reply)
    ensures ValidateAdd(content).Rejected? ==> r == Views.Reply(400, Views.NoCall)
    ensures ValidateAdd(content).Valid? && Views.Reserved(title) ==> r == Views.Reply(400, Views.NoCall)
    ensures r.call.AddCall? <==> ValidateAdd(content).Valid? && !Views.Reserved(title) && get(title).None?
    ensures r.call.AddCall? ==> r == Views.Reply(204, Views.AddCall(title, Strip(content.value)))
    ensures ValidateAdd(content).Valid? && !Views.Reserved(title) && get(title).Some? ==> r == Views.Reply(422, Views.NoCall)
  {
    match ValidateAdd(content)
    case Rejected(_) => Views.Reply(400, Views.NoCall)
    case Valid(c) =>
      if Views.Reserved(title) then Views.Reply(400, Views.NoCall)
      else if get(title).Some? then Views.Reply(422, Views.NoCall)
      else Views.Reply(204, Views.AddCall(title, c))
  }

  /** A note the API creates in a storage is then returned by `get` of that
      storage with the trimmed content. */
  lemma ApiPostThenGet(rows: seq<Note>, storage: string, title: string, content: Option<string>)
    requires WellFormedTable(rows)
    requires ApiPost(title, content, t => Relational.Lookup(rows, Relational.InStorage(storage), t)).call.AddCall?
    requires Relational.AddRow(rows, storage, title, Strip(content.value)).Ok?
    ensures Relational.Lookup(Relational.AddRow(rows, storage, title, Strip(content.value)).value,
                              Relational.InStorage(storage), title) == Some(Rec(title, Strip(content.value)))
  {
    Relational.AddThenGet(rows, Relational.InStorage(storage), storage, title, Strip(content.value), title);
  }

  /** The 422 check looks in one storage but the title column is unique
      across the table: a title held by another storage passes the check
      and then fails in `add`. */
  lemma PostPassesGuardYetColumnRefuses(rows: seq<Note>, storage: string, title: string, content: Option<string>, i: nat)
    requires ValidateAdd(content).Valid? && !Views.Reserved(title)
    requires i < |rows| && rows[i].title == title && rows[i].storage != storage
    requires WellFormedTable(rows)
    ensures ApiPost(title, content, t => Relational.Lookup(rows, Relational.InStorage(storage), t)).call.AddCall?
    ensures Relational.AddRow(rows, storage, title, Strip(content.value)) == Err(DuplicateTitle)
  {
    forall j | 0 <= j < |rows| && rows[j].title == title
      ensures !Relational.InScope(rows[j], Relational.InStorage(storage))
    {
      assert j == i;
    }
    assert Relational.TitleTaken(rows, title);
  }

  /** `NoteView.delete`: a reserved title is refused (400), a missing note
      is 404, otherwise the note is deleted with 204. */
  function ApiDelete(title: string, get: string -> Option<Rec>): (r: Views.Reply)
    ensures Views.Reserved(title) ==> r == Views.Reply(400, Views.NoCall)
    ensures r.call.DeleteCall? <==> !Views.Reserved(title) && get(title).Some?
    ensures r.call.DeleteCall? ==> r == Views.Reply(204, Views.DeleteCall(title))
    ensures !Views.Reserved(title) && get(title).None? ==> r == Views.Reply(404, Views.NoCall)
  {
    if Views.Reserved(title) then Views.Reply(400, Views.NoCall)
    else if get(title).None? then Views.Reply(404, Views.NoCall)
    else Views.Reply(204, Views.DeleteCall(title))
  }

  /** A delete the API lets through succeeds on the relational store and
      leaves the title absent. */
  lemma ApiDeleteRelational(rows: seq<Note>, scope: Relational.Scope, title: string)
    requires WellFormedTable(rows)
    requires ApiDelete(title, t => Relational.Lookup(rows, scope, t)).call.DeleteCall?
    ensures Relational.DeleteRow(rows, scope, title).Ok?
    ensures Relational.Lookup(Relational.DeleteRow(rows, scope, title).value, scope, title).None?
  {
    Relational.DeleteEffect(rows, scope, title, title);
  }

  /** The guards of `NoteView.put` once the new title and content have been
      read from the validated data: a reserved title or a reserved
      non-empty new title is refused (400), a missing note is 404, a rename
      onto another existing note is 422, otherwise `edit` runs with 204. */
  function PutWith(title: string, newTitle: Option<string>, newContent: Option<string>,
                   get: string -> Option<Rec>): (r: Views.Reply)
    ensures r.call.EditCall? <==>
      && !Views.Reserved(title) && !(Truthy(newTitle) && Views.Reserved(newTitle.value)) && get(title).Some?
      && !(Truthy(newTitle) && newTitle.value != title && get(newTitle.value).Some?)
    ensures r.call.EditCall? ==> r == Views.Reply(204, Views.EditCall(title, newTitle, newContent))
    ensures Views.Reserved(title) || (Truthy(newTitle) && Views.Reserved(newTitle.value)) ==> r == Views.Reply(400, Views.NoCall)
    ensures !r.call.EditCall? ==> r.call == Views.NoCall && r.status in {400, 404, 422}
  {
    if Views.Reserved(title) then Views.Reply(400, Views.NoCall)
    else if Truthy(newTitle) && Views.Reserved(newTitle.value) then Views.Reply(400, Views.NoCall)
    else if get(title).None? then Views.Reply(404, Views.NoCall)
    else if Truthy(newTitle) && newTitle.value != title && get(newTitle.value).Some? then Views.Reply(422, Views.NoCall)
    else Views.Reply(204, Views.EditCall(title, newTitle, newContent))
  }

  function Get(data: map<string, string>, key: string): Option<string> {
    if key in data then Some(data[key]) else None
  }

  /** `NoteView.put` as written: the new title and content are read from
      the validated data under the request's names, `new_title` and
      `new_content`. */
  function ApiPutAsWritten(title: string, newTitle: Option<string>, newContent: Option<string>,
                           get: string -> Option<Rec>): (r: Views.Reply)
    ensures r.call.EditCall? ==> r == Views.Reply(204, Views.EditCall(title, None, None))
    ensures !Views.Reserved(title) && get(title).Some? && ValidateApiEdit(newTitle, newContent).Valid? ==> r.call.EditCall?
  {
    match ValidateApiEdit(newTitle, newContent)
    case Rejected(_) => Views.Reply(400, Views.NoCall)
    case Valid(data) => PutWith(title, Get(data, "new_title"), Get(data, "new_content"), get)
  }

  /** As written, the validated data never holds `new_title` or
      `new_content` (the serializer stores them as `title` and `content`),
      so an accepted edit always calls `edit(title, None, None)`, even for a
      reserved new title, and on the relational store that edit changes
      nothing and reports nothing. */
  lemma ApiPutAsWrittenIgnoresBody(rows: seq<Note>, scope: Relational.Scope, title: string,
                                   newTitle: Option<string>, newContent: Option<string>)
    requires WellFormedTable(rows)
    requires ValidateApiEdit(newTitle, newContent).Valid? && !Views.Reserved(title)
    requires Relational.Lookup(rows, scope, title).Some?
    ensures ApiPutAsWritten(title, newTitle, newContent, t => Relational.Lookup(rows, scope, t))
      == Views.Reply(204, Views.EditCall(title, None, None))
    ensures Relational.EditRow(rows, scope, title, None, None) == Ok(Relational.EditOutcome(rows, []))
  {
    ApiEditKeys(newTitle, newContent);
    var data := ValidateApiEdit(newTitle, newContent).data;
    assert Get(data, "new_title") == None && Get(data, "new_content") == None;
    Relational.EditNothing(rows, scope, title);
  }

  /** `NoteView.put` reading the validated data under the names the
      serializer stores them with, `title` and `content`. */
  function ApiPut(title: string, newTitle: Option<string>, newContent: Option<string>,
                  get: string -> Option<Rec>): (r: Views.Reply)
    ensures ValidateApiEdit(newTitle, newContent).Rejected? ==> r == Views.Reply(400, Views.NoCall)
  {
    match ValidateApiEdit(newTitle, newContent)
    case Rejected(_) => Views.Reply(400, Views.NoCall)
    case Valid(data) => PutWith(title, Get(data, "title"), Get(data, "content"), get)
  }

  /** Read under the stored names, the edit carries the trimmed new title
      and content the request gave, and a reserved new title is refused. */
  lemma ApiPutCarriesBody(title: string, newTitle: Option<string>, newContent: Option<string>, get: string -> Option<Rec>)
    requires ValidateApiEdit(newTitle, newContent).Valid?
    ensures var r := ApiPut(title, newTitle, newContent, get);
      var t := if newTitle.Some? then Some(Strip(newTitle.value)) else None;
      var c := if newContent.Some? then Some(Strip(newContent.value)) else None;
      && (r.call.EditCall? ==> r == Views.Reply(204, Views.EditCall(title, t, c)))
      && (newTitle.Some? && Views.Reserved(Strip(newTitle.value)) ==> r == Views.Reply(400, Views.NoCall))
      && (!Views.Reserved(title) && get(title).Some? && newTitle.None? ==> r == Views.Reply(204, Views.EditCall(title, None, c)))
  {
    ApiEditKeys(newTitle, newContent);
    if newTitle.Some? {
      assert CharField(newTitle, None).Value?;
    }
  }

  /** On the relational store, an edit the corrected view lets through
      leaves the note under its new title with its new content. */
  lemma ApiPutRelational(rows: seq<Note>, scope: Relational.Scope, title: string, newTitle: Option<string>,
                         newContent: Option<string>)
    requires WellFormedTable(rows)
    requires ApiPut(title, newTitle, newContent, t => Relational.Lookup(rows, scope, t)).call.EditCall?
    requires ValidateApiEdit(newTitle, newContent).Valid?
    ensures var r := ApiPut(title, newTitle, newContent, t => Relational.Lookup(rows, scope, t));
      Relational.EditRow(rows, scope, title, r.call.newTitle, r.call.newContent) != Err(NotFound)
    ensures var r := ApiPut(title, newTitle, newContent, t => Relational.Lookup(rows, scope, t));
      var e := Relational.EditRow(rows, scope, title, r.call.newTitle, r.call.newContent);
      e.Ok? && newTitle.Some? && newContent.Some? ==>
        Relational.Lookup(e.value.rows, scope, Strip(newTitle.value)) == Some(Rec(Strip(newTitle.value), Strip(newContent.value)))
  {
    ApiPutCarriesBody(title, newTitle, newContent, t => Relational.Lookup(rows, scope, t));
    var r := ApiPut(title, newTitle, newContent, t => Relational.Lookup(rows, scope, t));
    var e := Relational.EditRow(rows, scope, title, r.call.newTitle, r.call.newContent);
    if e.Ok? && newTitle.Some? && newContent.Some? {
      assert CharField(newTitle, None).Value? && CharField(newContent, None).Value?;
      Relational.EditEffect(rows, scope, title, r.call.newTitle, r.call.newContent);
    }
  }
}
