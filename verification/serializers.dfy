/** The request serializers of the web editor (`note/serializers.py`) and
    of the API (`note/serializers_api.py`), with Django REST framework's
    field rules written out: a `CharField` trims the value and refuses a
    blank one, a `ChoiceField` takes one of its choices, an `IntegerField`
    keeps to its bounds, an absent optional field takes its default, and
    `validate` runs only once every field is valid. */
module Serializers {
  import opened Common

  /** One field's outcome. */
  datatype Field<T> = Absent | Value(v: T) | Invalid

  /** The serializer's outcome: the validated data, or the names of the
      fields that failed, in declaration order. */
  datatype Checked<T> = Valid(data: T) | Rejected(fields: seq<string>)

  /** The name DRF reports errors of `validate` under. */
  const NonFieldErrors := "non_field_errors"

  // -------------------------------------------------------------------
  // Field kinds
  // -------------------------------------------------------------------

  /** Why a `CharField` refuses a trimmed value: it is blank, longer than
      `max_length`, or holds the null character every `CharField` refuses. */
  predicate CharRefused(t: string, maxLength: Option<nat>) {
    t == [] || (maxLength.Some? && |t| > maxLength.value) || '\0' in t
  }

  /** `CharField(max_length=...)` with `trim_whitespace` and `allow_blank`
      at their defaults; the value is checked once trimmed. */
  function CharField(raw: Option<string>, maxLength: Option<nat>): (r: Field<string>)
    ensures raw.None? <==> r.Absent?
    ensures r.Value? ==> r.v == Strip(raw.value) && !CharRefused(r.v, maxLength)
    ensures r.Invalid? <==> raw.Some? && CharRefused(Strip(raw.value), maxLength)
  {
    match raw
    case None => Absent
    case Some(s) =>
      var t := Strip(s);
      if t == [] then Invalid
      else if maxLength.Some? && |t| > maxLength.value then Invalid
      else if '\0' in t then Invalid
      else Value(t)
  }

  /** A cleaned value passes the same field again unchanged. */
  lemma CharFieldIdempotent(raw: Option<string>, maxLength: Option<nat>)
    requires CharField(raw, maxLength).Value?
    ensures CharField(Some(CharField(raw, maxLength).v), maxLength) == CharField(raw, maxLength)
  {
    StripIdempotent(raw.value);
  }

  /** `ChoiceField(choices=..., default=...)`, not required. */
  function ChoiceField(raw: Option<string>, choices: seq<string>, default: string): (r: Field<string>)
    requires default in choices
    ensures r.Value? ==> r.v in choices
    ensures raw.None? ==> r == Value(default)
    ensures raw.Some? ==> (r.Value? <==> raw.value in choices)
    ensures raw.Some? && r.Value? ==> r.v == raw.value
    ensures !r.Absent?
  {
    match raw
    case None => Value(default)
    case Some(s) => if s in choices then Value(s) else Invalid
  }

  /** `IntegerField(min_value=..., max_value=..., default=...)`, not
      required, on a value already read as an integer. */
  function IntegerField(raw: Option<int>, min: int, max: Option<int>, default: int): (r: Field<int>)
    ensures raw.None? ==> r == Value(default)
    ensures raw.Some? ==> (r.Value? <==> min <= raw.value && (max.None? || raw.value <= max.value))
    ensures raw.Some? && r.Value? ==> r.v == raw.value
    ensures !r.Absent?
  {
    match raw
    case None => Value(default)
    case Some(n) =>
      if n < min then Invalid
      else if max.Some? && n > max.value then Invalid
      else Value(n)
  }

  /** The field's name when it failed. */
  function Flag(name: string, failed: bool): seq<string> {
    if failed then [name] else []
  }

  // -------------------------------------------------------------------
  // Web editor: NoteEditViewSerializer
  // -------------------------------------------------------------------

  const TitleMax := 255
  const ContentMax := 20000

  datatype WebEdit = WebEdit(title: Option<string>, newTitle: Option<string>, newContent: Option<string>)

  function Cleaned(f: Field<string>): Option<string> {
    if f.Value? then Some(f.v) else None
  }

  function ValidateWebEdit(raw: WebEdit): (r: Checked<WebEdit>)
    ensures r.Valid? ==> Truthy(r.data.newTitle) || Truthy(r.data.newContent)
    ensures r.Valid? ==>
      && (r.data.title.Some? ==> |r.data.title.value| <= TitleMax)
      && (r.data.newTitle.Some? ==> |r.data.newTitle.value| <= TitleMax)
      && (r.data.newContent.Some? ==> |r.data.newContent.value| <= ContentMax)
    ensures raw.newTitle.None? && raw.newContent.None? ==> r.Rejected?
  {
    var t := CharField(raw.title, Some(TitleMax));
    var nt := CharField(raw.newTitle, Some(TitleMax));
    var nc := CharField(raw.newContent, Some(ContentMax));
    var failed := Flag("title", t.Invalid?) + Flag("new_title", nt.Invalid?) + Flag("new_content", nc.Invalid?);
    if failed != [] then Rejected(failed)
    else if !Truthy(Cleaned(nt)) && !Truthy(Cleaned(nc)) then Rejected([NonFieldErrors])
    else Valid(WebEdit(Cleaned(t), Cleaned(nt), Cleaned(nc)))
  }

  /** Each field is optional and capped (255, 255, 20000 after trimming);
      a blank field is refused outright; `validate` demands a new title or
      a new content, and otherwise passes the data through unchanged. */
  lemma WebEditMeaning(raw: WebEdit)
    ensures var r := ValidateWebEdit(raw);
      && (r.Valid? <==>
           && CharField(raw.title, Some(TitleMax)) != Invalid
           && CharField(raw.newTitle, Some(TitleMax)) != Invalid
           && CharField(raw.newContent, Some(ContentMax)) != Invalid
           && (raw.newTitle.Some? || raw.newContent.Some?))
      && (r.Valid? ==>
           && r.data.title == (if raw.title.Some? then Some(Strip(raw.title.value)) else None)
           && r.data.newTitle == (if raw.newTitle.Some? then Some(Strip(raw.newTitle.value)) else None)
           && r.data.newContent == (if raw.newContent.Some? then Some(Strip(raw.newContent.value)) else None)
           && (r.data.newTitle.Some? ==> 0 < |r.data.newTitle.value| <= TitleMax && '\0' !in r.data.newTitle.value)
           && (r.data.newContent.Some? ==> 0 < |r.data.newContent.value| <= ContentMax && '\0' !in r.data.newContent.value))
  {
    var t := CharField(raw.title, Some(TitleMax));
    var nt := CharField(raw.newTitle, Some(TitleMax));
    var nc := CharField(raw.newContent, Some(ContentMax));
    var failed := Flag("title", t.Invalid?) + Flag("new_title", nt.Invalid?) + Flag("new_content", nc.Invalid?);
    assert failed == [] <==> !t.Invalid? && !nt.Invalid? && !nc.Invalid?;
    assert Truthy(Cleaned(nt)) <==> nt.Value?;
    assert Truthy(Cleaned(nc)) <==> nc.Value?;
    assert nt.Value? <==> raw.newTitle.Some? && !nt.Invalid?;
    assert nc.Value? <==> raw.newContent.Some? && !nc.Invalid?;
  }

  /** An empty new title never reaches `validate`: the field itself is
      refused as blank. */
  lemma WebEditBlankRefused(raw: WebEdit)
    requires raw.newTitle == Some("")
    ensures ValidateWebEdit(raw).Rejected? && "new_title" in ValidateWebEdit(raw).fields
  {
    BlankRefused(TitleMax);
    FlagsNamed(CharField(raw.title, Some(TitleMax)).Invalid?, CharField(raw.newContent, Some(ContentMax)).Invalid?);
  }

  lemma FlagsNamed(a: bool, c: bool)
    ensures var failed := Flag("title", a) + Flag("new_title", true) + Flag("new_content", c);
      failed != [] && "new_title" in failed
  {
    assert (Flag("title", a) + Flag("new_title", true) + Flag("new_content", c))[|Flag("title", a)|] == "new_title";
  }

  /** An empty value is refused as blank. */
  lemma BlankRefused(maxLength: nat)
    ensures CharField(Some(""), Some(maxLength)) == Invalid
  {
    assert RStrip("") == "" && LStrip("") == "";
  }

  /** Validated data validates again to itself. */
  lemma WebEditIdempotent(raw: WebEdit)
    requires ValidateWebEdit(raw).Valid?
    ensures ValidateWebEdit(ValidateWebEdit(raw).data) == ValidateWebEdit(raw)
  {
    WebEditMeaning(raw);
    var d := ValidateWebEdit(raw).data;
    WebEditMeaning(d);
    if raw.title.Some? { CharFieldIdempotent(raw.title, Some(TitleMax)); }
    if raw.newTitle.Some? { CharFieldIdempotent(raw.newTitle, Some(TitleMax)); }
    if raw.newContent.Some? { CharFieldIdempotent(raw.newContent, Some(ContentMax)); }
  }

  // -------------------------------------------------------------------
  // API: NoteSearchViewSerializer
  // -------------------------------------------------------------------

  const FieldChoices := ["all", "title", "content"]
  const OperatorChoices := ["or", "and"]
  const SearchByChoices := ["all", "title", "content"]

  datatype SearchInput = SearchInput(fields: Option<string>, operator: Option<string>, countOnPage: Option<int>,
                                     pageNumber: Option<int>, searchBy: Option<string>)

  datatype SearchParams = SearchParams(fields: string, operator: string, countOnPage: int, pageNumber: int, searchBy: string)

  function ValidateSearch(raw: SearchInput): (r: Checked<SearchParams>)
    ensures r.Valid? ==>
      && r.data.fields in FieldChoices && r.data.operator in OperatorChoices
      && 1 <= r.data.countOnPage <= 100 && r.data.pageNumber >= 0
      && r.data.searchBy in SearchByChoices
    ensures r.Rejected? ==> r.fields != []
  {
    var f := ChoiceField(raw.fields, FieldChoices, "title");
    var o := ChoiceField(raw.operator, OperatorChoices, "or");
    var c := IntegerField(raw.countOnPage, 1, Some(100), 10);
    var p := IntegerField(raw.pageNumber, 0, None, 0);
    var s := ChoiceField(raw.searchBy, SearchByChoices, "all");
    var failed := Flag("fields", f.Invalid?) + Flag("operator", o.Invalid?) + Flag("count_on_page", c.Invalid?)
                  + Flag("page_number", p.Invalid?) + Flag("search-by", s.Invalid?);
    if failed != [] then Rejected(failed)
    else Valid(SearchParams(f.v, o.v, c.v, p.v, s.v))
  }

  /** Every accepted request lies in the declared domains: fields and
      search-by among all/title/content, operator or/and, 1..100 results
      per page, a page number of at least 0; a given value is kept as is. */
  lemma SearchDomains(raw: SearchInput)
    ensures var r := ValidateSearch(raw);
      && (r.Valid? ==>
           && r.data.fields in FieldChoices && r.data.operator in OperatorChoices
           && 1 <= r.data.countOnPage <= 100 && r.data.pageNumber >= 0
           && r.data.searchBy in SearchByChoices)
      && (r.Valid? ==>
           && (raw.fields.Some? ==> r.data.fields == raw.fields.value)
           && (raw.operator.Some? ==> r.data.operator == raw.operator.value)
           && (raw.countOnPage.Some? ==> r.data.countOnPage == raw.countOnPage.value)
           && (raw.pageNumber.Some? ==> r.data.pageNumber == raw.pageNumber.value)
           && (raw.searchBy.Some? ==> r.data.searchBy == raw.searchBy.value))
      && (raw.countOnPage.Some? && raw.countOnPage.value > 100 ==> r.Rejected? && "count_on_page" in r.fields)
      && (raw.pageNumber.Some? && raw.pageNumber.value < 0 ==> r.Rejected? && "page_number" in r.fields)
  {
    var f := ChoiceField(raw.fields, FieldChoices, "title");
    var o := ChoiceField(raw.operator, OperatorChoices, "or");
    var c := IntegerField(raw.countOnPage, 1, Some(100), 10);
    var p := IntegerField(raw.pageNumber, 0, None, 0);
    var a := Flag("fields", f.Invalid?) + Flag("operator", o.Invalid?);
    var failed := a + Flag("count_on_page", c.Invalid?) + Flag("page_number", p.Invalid?)
                  + Flag("search-by", ChoiceField(raw.searchBy, SearchByChoices, "all").Invalid?);
    if c.Invalid? {
      assert failed[|a|] == "count_on_page";
    }
    if p.Invalid? {
      assert failed[|a + Flag("count_on_page", c.Invalid?)|] == "page_number";
    }
  }

  /** An empty request searches titles, with `or`, 10 per page, from page 0,
      by both terms, and returns only titles. */
  lemma SearchDefaults()
    ensures ValidateSearch(SearchInput(None, None, None, None, None)) == Valid(SearchParams("title", "or", 10, 0, "all"))
  {
  }

  // -------------------------------------------------------------------
  // API: NoteAddViewSerializer
  // -------------------------------------------------------------------

  /** `content` is required, at most 20000 characters once trimmed, and
      free of the null character. */
  function ValidateAdd(content: Option<string>): (r: Checked<string>)
    ensures content.None? ==> r == Rejected(["content"])
    ensures r.Valid? <==> content.Some? && Strip(content.value) != [] && |Strip(content.value)| <= ContentMax && '\0' !in Strip(content.value)
    ensures r.Valid? ==> r.data == Strip(content.value)
    ensures r.Rejected? ==> r.fields == ["content"]
  {
    match CharField(content, Some(ContentMax))
    case Value(v) => Valid(v)
    case _ => Rejected(["content"])
  }

  // -------------------------------------------------------------------
  // API: NoteEditViewSerializer (a ModelSerializer)
  // -------------------------------------------------------------------

  /** `new_title` and `new_content` are read from the request and stored
      under their `source` names, `title` and `content`; as declared
      fields they carry no length limit. */
  function ValidateApiEdit(newTitle: Option<string>, newContent: Option<string>): (r: Checked<map<string, string>>)
    ensures r.Valid? ==> r.data.Keys <= {"title", "content"} && |r.data| >= 1
    ensures newTitle.None? && newContent.None? ==> r == Rejected([NonFieldErrors])
  {
    var nt := CharField(newTitle, None);
    var nc := CharField(newContent, None);
    var failed := Flag("new_title", nt.Invalid?) + Flag("new_content", nc.Invalid?);
    if failed != [] then Rejected(failed)
    else if nt.Value? && nc.Value? then Valid(map["title" := nt.v, "content" := nc.v])
    else if nt.Value? then Valid(map["title" := nt.v])
    else if nc.Value? then Valid(map["content" := nc.v])
    else Rejected([NonFieldErrors])
  }

  /** The validated data is keyed `title`/`content`, never by the request
      names; it holds the trimmed new title and new content that were
      given, and it is refused when neither was given. */
  lemma ApiEditKeys(newTitle: Option<string>, newContent: Option<string>)
    ensures var r := ValidateApiEdit(newTitle, newContent);
      && (r.Valid? ==> "new_title" !in r.data && "new_content" !in r.data)
      && (r.Valid? ==> ("title" in r.data <==> newTitle.Some?) && ("content" in r.data <==> newContent.Some?))
      && (r.Valid? && newTitle.Some? ==> r.data["title"] == Strip(newTitle.value))
      && (r.Valid? && newContent.Some? ==> r.data["content"] == Strip(newContent.value))
      && (newTitle.None? && newContent.None? ==> r == Rejected([NonFieldErrors]))
      && (r.Valid? <==> (newTitle.Some? || newContent.Some?) && CharField(newTitle, None) != Invalid && CharField(newContent, None) != Invalid)
  {
    var nt := CharField(newTitle, None);
    var nc := CharField(newContent, None);
    ApiEditFlags(nt, nc);
    assert nt.Value? <==> newTitle.Some? && !nt.Invalid?;
    assert nc.Value? <==> newContent.Some? && !nc.Invalid?;
  }

  lemma ApiEditFlags(nt: Field<string>, nc: Field<string>)
    ensures Flag("new_title", nt.Invalid?) + Flag("new_content", nc.Invalid?) == [] <==> !nt.Invalid? && !nc.Invalid?
  {
  }

  /** No accepted value holds the null character. */
  lemma ApiEditRefusesNull(newTitle: Option<string>, newContent: Option<string>)
    ensures var r := ValidateApiEdit(newTitle, newContent);
      r.Valid? ==> forall k :: k in r.data ==> '\0' !in r.data[k]
  {
    var nt := CharField(newTitle, None);
    var nc := CharField(newContent, None);
    ApiEditFromFields(newTitle, newContent);
    assert nt.Value? ==> '\0' !in nt.v;
    assert nc.Value? ==> '\0' !in nc.v;
  }

  /** Every accepted value is the cleaned new title or new content. */
  lemma ApiEditFromFields(newTitle: Option<string>, newContent: Option<string>)
    ensures var r := ValidateApiEdit(newTitle, newContent);
      var nt := CharField(newTitle, None);
      var nc := CharField(newContent, None);
      r.Valid? ==> forall k :: k in r.data ==> (nt.Value? && r.data[k] == nt.v) || (nc.Value? && r.data[k] == nc.v)
  {
  }
}
