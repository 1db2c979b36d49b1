/** The relational note store: the note table shared by every storage, the
    queries the relational adapter runs on it (each confined to a scope: one
    storage's rows, or, for the older uploader, the whole table), and the
    two adapter classes that hold a pending portion of rows. */
module Relational {
  import opened Common
  import opened Models
  import opened TitleOrder
  import Paginator

  /** Which rows an adapter sees: those of one storage, or all of them. */
  datatype Scope = AllStorages | InStorage(uuid: string)

  /** The storage column of rows the older uploader creates: it sets none. */
  const NoStorage: string := ""

  const MaxPortionSize := 400

  predicate InScope(n: Note, scope: Scope) {
    scope.AllStorages? || n.storage == scope.uuid
  }

  /** `queryset`: the rows in scope, in table order. */
  function Scoped(rows: seq<Note>, scope: Scope): (r: seq<Note>)
    ensures forall n :: n in r <==> n in rows && InScope(n, scope)
  {
    Filter(rows, (n: Note) => InScope(n, scope))
  }

  predicate TitleTaken(rows: seq<Note>, title: string) {
    exists i :: 0 <= i < |rows| && rows[i].title == title
  }

  /** The position of the first in-scope row with that title. */
  function Find(rows: seq<Note>, scope: Scope, title: string): (r: Option<nat>)
    ensures r.Some? ==> r.value < |rows| && rows[r.value].title == title && InScope(rows[r.value], scope)
    ensures r.None? ==> forall i :: 0 <= i < |rows| && rows[i].title == title ==> !InScope(rows[i], scope)
    ensures r.Some? ==> forall j :: 0 <= j < r.value ==> !(rows[j].title == title && InScope(rows[j], scope))
  {
    if rows == [] then None
    else if rows[0].title == title && InScope(rows[0], scope) then Some(0)
    else match Find(rows[1..], scope, title)
      case None => None
      case Some(k) => Some(k + 1)
  }

  /** Under unique titles the row found is the only candidate. */
  lemma FindUnique(rows: seq<Note>, scope: Scope, i: nat)
    requires TitlesUnique(rows) && i < |rows| && InScope(rows[i], scope)
    ensures Find(rows, scope, rows[i].title) == Some(i)
  {
  }

  // -------------------------------------------------------------------
  // The queries, as functions of the table
  // -------------------------------------------------------------------

  /** `get`: the {title, content} of the in-scope row with that title. */
  function Lookup(rows: seq<Note>, scope: Scope, title: string): (r: Option<Rec>)
    ensures r.Some? <==> exists i :: 0 <= i < |rows| && rows[i].title == title && InScope(rows[i], scope)
    ensures r.Some? ==> exists i :: 0 <= i < |rows| && InScope(rows[i], scope) && r.value == AsRec(rows[i])
    ensures r.Some? ==> r.value.title == title
  {
    match Find(rows, scope, title)
    case None => None
    case Some(i) => Some(AsRec(rows[i]))
  }

  lemma GetFindsTheRow(rows: seq<Note>, scope: Scope, i: nat)
    requires TitlesUnique(rows) && i < |rows| && InScope(rows[i], scope)
    ensures Lookup(rows, scope, rows[i].title) == Some(AsRec(rows[i]))
  {
    FindUnique(rows, scope, i);
  }

  /** `add`: the unique title column rejects a title used anywhere in the
      table, in any storage. */
  function AddRow(rows: seq<Note>, storage: string, title: string, content: string): (r: Result<seq<Note>>)
    ensures r.Err? <==> TitleTaken(rows, title)
    ensures r.Err? ==> r.error == DuplicateTitle
    ensures r.Ok? ==> |r.value| == |rows| + 1 && r.value[..|rows|] == rows
  {
    if TitleTaken(rows, title) then Err(DuplicateTitle)
    else Ok(rows + [NewNote(title, content, storage)])
  }

  /** After a successful `add` the table is still well formed, `get` of the
      new title returns what was added, and `get` of any other title returns
      what it returned before. */
  lemma AddThenGet(rows: seq<Note>, scope: Scope, storage: string, title: string, content: string, other: string)
    requires WellFormedTable(rows) && AddRow(rows, storage, title, content).Ok?
    requires InScope(NewNote(title, content, storage), scope)
    ensures WellFormedTable(AddRow(rows, storage, title, content).value)
    ensures Lookup(AddRow(rows, storage, title, content).value, scope, title) == Some(Rec(title, content))
    ensures other != title ==> Lookup(AddRow(rows, storage, title, content).value, scope, other) == Lookup(rows, scope, other)
  {
    var after := AddRow(rows, storage, title, content).value;
    assert after == rows + [NewNote(title, content, storage)];
    assert WellFormedTable(after);
    GetFindsTheRow(after, scope, |rows|);
    if other != title {
      SameRowsForTitle(rows, after, scope, other);
    }
  }

  /** `get` of a title depends only on the rows carrying that title. */
  lemma SameRowsForTitle(rows: seq<Note>, after: seq<Note>, scope: Scope, title: string)
    requires TitlesUnique(rows) && TitlesUnique(after)
    requires forall n :: n in rows && n.title == title <==> n in after && n.title == title
    ensures Lookup(after, scope, title) == Lookup(rows, scope, title)
  {
    var g := Lookup(rows, scope, title);
    if g.Some? {
      var i :| 0 <= i < |rows| && rows[i].title == title && InScope(rows[i], scope);
      assert rows[i] in after;
      var j :| 0 <= j < |after| && after[j] == rows[i];
      GetFindsTheRow(rows, scope, i);
      GetFindsTheRow(after, scope, j);
    }
  }

  /** `clear`: delete the rows in scope. */
  function ClearRows(rows: seq<Note>, scope: Scope): (r: seq<Note>)
    ensures forall n :: n in r <==> n in rows && !InScope(n, scope)
  {
    Filter(rows, (n: Note) => !InScope(n, scope))
  }

  /** Clearing one storage leaves nothing in it and leaves every other
      storage's rows exactly as they were, in order. */
  lemma ClearOnlyItsStorage(rows: seq<Note>, u: string, v: string)
    requires u != v
    ensures Scoped(ClearRows(rows, InStorage(u)), InStorage(u)) == []
    ensures Scoped(ClearRows(rows, InStorage(u)), InStorage(v)) == Scoped(rows, InStorage(v))
  {
    var cleared := ClearRows(rows, InStorage(u));
    assert forall k :: 0 <= k < |cleared| ==> cleared[k] in cleared;
    FilterNone(cleared, (n: Note) => InScope(n, InStorage(u)));
    FilterFilter(rows, (n: Note) => !InScope(n, InStorage(u)), (n: Note) => InScope(n, InStorage(v)));
  }

  lemma ClearKeepsTableWellFormed(rows: seq<Note>, scope: Scope)
    requires WellFormedTable(rows)
    ensures WellFormedTable(ClearRows(rows, scope))
  {
    SubsequenceWellFormed(rows, scope);
  }

  lemma {:induction false} SubsequenceWellFormed(rows: seq<Note>, scope: Scope)
    requires WellFormedTable(rows)
    ensures WellFormedTable(ClearRows(rows, scope))
  {
    if rows != [] {
      assert WellFormedTable(rows[1..]);
      SubsequenceWellFormed(rows[1..], scope);
      var rest := ClearRows(rows[1..], scope);
      forall n | n in rest ensures n.title != rows[0].title {
        var j :| 0 <= j < |rows[1..]| && rows[1..][j] == n;
        assert rows[j + 1] == n;
      }
      if !InScope(rows[0], scope) {
        assert ClearRows(rows, scope) == [rows[0]] + rest;
        ConsWellFormed(rows[0], rest);
      } else {
        assert ClearRows(rows, scope) == rest;
      }
    }
  }

  /** A row whose title the rest does not hold keeps a well-formed table
      well formed when put in front of it. */
  lemma ConsWellFormed(x: Note, rest: seq<Note>)
    requires WellFormedTable(rest) && SearchFieldsCurrent(x)
    requires forall n :: n in rest ==> n.title != x.title
    ensures WellFormedTable([x] + rest)
  {
    var r := [x] + rest;
    forall i, j | 0 <= i < j < |r| ensures r[i].title != r[j].title {
      assert r[j] == rest[j - 1];
      if i > 0 {
        assert r[i] == rest[i - 1];
      } else {
        assert rest[j - 1] in rest;
      }
    }
    forall i | 0 <= i < |r| ensures SearchFieldsCurrent(r[i]) {
      if i > 0 {
        assert r[i] == rest[i - 1];
      }
    }
  }

  /** Clearing the whole table leaves it empty. */
  lemma ClearAll(rows: seq<Note>)
    ensures ClearRows(rows, AllStorages) == []
  {
    FilterNone(rows, (n: Note) => !InScope(n, AllStorages));
  }

  /** `commit`: one bulk insert, inside one transaction, of the portion; a
      title clash with the table or within the portion inserts nothing. */
  function CommitRows(rows: seq<Note>, portion: seq<Note>): (r: Result<seq<Note>>)
    ensures r.Ok? <==> TitlesUnique(rows + portion)
    ensures r.Err? ==> r.error == DuplicateTitle
    ensures r.Ok? ==> |r.value| == |rows| + |portion| && r.value[..|rows|] == rows && r.value[|rows|..] == portion
  {
    if TitlesUnique(rows + portion) then Ok(rows + portion) else Err(DuplicateTitle)
  }

  /** The rows `add_to_portion` stages for the notes, in order. */
  function PortionRows(notes: seq<Rec>, storage: string): (r: seq<Note>)
    ensures |r| == |notes|
    ensures forall k :: 0 <= k < |r| ==> r[k].title == notes[k].title && r[k].storage == storage && SearchFieldsCurrent(r[k])
  {
    seq(|notes|, k requires 0 <= k < |notes| => NewNote(notes[k].title, notes[k].content, storage))
  }

  /** Copying one storage of the table into another: clearing the
      destination leaves the source's rows in the table, and titles are
      unique across the whole table, so a portion that repeats the title of
      any row outside the destination is refused. */
  lemma CopiedTitleRefused(rows: seq<Note>, to: string, portion: seq<Note>, i: nat, k: nat)
    requires i < |rows| && rows[i].storage != to
    requires k < |portion| && portion[k].title == rows[i].title
    ensures CommitRows(ClearRows(rows, InStorage(to)), portion) == Err(DuplicateTitle)
  {
    var cleared := ClearRows(rows, InStorage(to));
    assert rows[i] in cleared;
    var j :| 0 <= j < |cleared| && cleared[j] == rows[i];
    var all := cleared + portion;
    assert all[j].title == all[|cleared| + k].title;
  }

  /** After a successful commit every staged row is retrievable by its
      title, every row that was there before still is, and the table is
      well formed. */
  lemma CommitThenGet(rows: seq<Note>, portion: seq<Note>, scope: Scope)
    requires WellFormedTable(rows) && CommitRows(rows, portion).Ok?
    requires forall k :: 0 <= k < |portion| ==> SearchFieldsCurrent(portion[k])
    ensures WellFormedTable(CommitRows(rows, portion).value)
    ensures forall k :: 0 <= k < |portion| && InScope(portion[k], scope) ==>
      Lookup(CommitRows(rows, portion).value, scope, portion[k].title) == Some(AsRec(portion[k]))
    ensures forall i :: 0 <= i < |rows| && InScope(rows[i], scope) ==>
      Lookup(CommitRows(rows, portion).value, scope, rows[i].title) == Some(AsRec(rows[i]))
  {
    var after := rows + portion;
    forall k | 0 <= k < |portion| && InScope(portion[k], scope)
      ensures Lookup(after, scope, portion[k].title) == Some(AsRec(portion[k]))
    {
      assert after[|rows| + k] == portion[k];
      GetFindsTheRow(after, scope, |rows| + k);
    }
    forall i | 0 <= i < |rows| && InScope(rows[i], scope)
      ensures Lookup(after, scope, rows[i].title) == Some(AsRec(rows[i]))
    {
      assert after[i] == rows[i];
      GetFindsTheRow(after, scope, i);
    }
  }

  // -------------------------------------------------------------------
  // edit
  // -------------------------------------------------------------------

  /** The field names an edit changes, in the order title, content: a new
      value counts only when it is non-empty and differs. */
  function ChangedFields(n: Note, newTitle: Option<string>, newContent: Option<string>): seq<string> {
    (if Truthy(newTitle) && n.title != newTitle.value then ["title"] else [])
    + (if Truthy(newContent) && n.content != newContent.value then ["content"] else [])
  }

  /** The row after an edit: the changed fields replaced and the search
      columns recomputed when something changed, otherwise the row as it was. */
  function Edited(n: Note, newTitle: Option<string>, newContent: Option<string>): (r: Note)
    ensures ChangedFields(n, newTitle, newContent) == [] ==> r == n
    ensures SearchFieldsCurrent(n) ==> SearchFieldsCurrent(r)
    ensures r.storage == n.storage
  {
    if ChangedFields(n, newTitle, newContent) == [] then n
    else
      var t := if Truthy(newTitle) then newTitle.value else n.title;
      var c := if Truthy(newContent) then newContent.value else n.content;
      FetchSearchFields(n.(title := t, content := c))
  }

  datatype EditOutcome = EditOutcome(rows: seq<Note>, updated: seq<string>)

  /** The edit of row `i` once it has been found: renaming onto a title
      used anywhere in the table fails on the unique column. */
  function EditAt(rows: seq<Note>, i: nat, newTitle: Option<string>, newContent: Option<string>): (r: Result<EditOutcome>)
    requires i < |rows|
    ensures r.Err? ==> r.error == DuplicateTitle
    ensures r.Ok? ==> |r.value.rows| == |rows|
  {
    var n := Edited(rows[i], newTitle, newContent);
    if n.title != rows[i].title && TitleTaken(rows, n.title) then Err(DuplicateTitle)
    else Ok(EditOutcome(rows[i := n], ChangedFields(rows[i], newTitle, newContent)))
  }

  /** What a successful edit of row `i` reports and does, in terms of the
      arguments: 'title' is reported iff a non-empty new title differs from
      the old one, 'content' iff a non-empty new content differs from the old
      one, in that order; nothing reported means nothing written; afterwards
      the row carries the new title and content (each kept when not given)
      in the same storage and is found under that title, every other row is
      untouched, and the table stays well formed. */
  lemma EditAtEffect(rows: seq<Note>, i: nat, scope: Scope, newTitle: Option<string>, newContent: Option<string>)
    requires WellFormedTable(rows) && i < |rows| && InScope(rows[i], scope)
    requires EditAt(rows, i, newTitle, newContent).Ok?
    ensures var o := EditAt(rows, i, newTitle, newContent).value;
      var t := if Truthy(newTitle) then newTitle.value else rows[i].title;
      var c := if Truthy(newContent) then newContent.value else rows[i].content;
      && ("title" in o.updated <==> Truthy(newTitle) && newTitle.value != rows[i].title)
      && ("content" in o.updated <==> Truthy(newContent) && newContent.value != rows[i].content)
      && |o.updated| <= 2
      && (|o.updated| == 2 ==> o.updated == ["title", "content"])
      && (o.updated == [] ==> o.rows == rows)
      && WellFormedTable(o.rows)
      && o.rows[i].title == t && o.rows[i].content == c && o.rows[i].storage == rows[i].storage
      && Lookup(o.rows, scope, t) == Some(Rec(t, c))
      && (forall j :: 0 <= j < |rows| && j != i ==> o.rows[j] == rows[j])
  {
    var n := Edited(rows[i], newTitle, newContent);
    ChangedFieldsMeaning(rows[i], newTitle, newContent);
    ReplaceKeepsWellFormed(rows, i, n);
    GetFindsTheRow(rows[i := n], scope, i);
  }

  /** The report of an edit names each field whose non-empty new value
      differs, title first. */
  lemma ChangedFieldsMeaning(n: Note, newTitle: Option<string>, newContent: Option<string>)
    ensures var u := ChangedFields(n, newTitle, newContent);
      && ("title" in u <==> Truthy(newTitle) && newTitle.value != n.title)
      && ("content" in u <==> Truthy(newContent) && newContent.value != n.content)
      && |u| <= 2
      && (|u| == 2 ==> u == ["title", "content"])
  {
  }

  /** Replacing one row by a row with current search columns whose title is
      its old title or free keeps the table well formed. */
  lemma ReplaceKeepsWellFormed(rows: seq<Note>, i: nat, n: Note)
    requires WellFormedTable(rows) && i < |rows| && SearchFieldsCurrent(n)
    requires n.title == rows[i].title || !TitleTaken(rows, n.title)
    ensures WellFormedTable(rows[i := n])
  {
    var after := rows[i := n];
    forall a, b | 0 <= a < b < |after| ensures after[a].title != after[b].title {
      if a != i && b != i {
        assert after[a] == rows[a] && after[b] == rows[b];
      }
    }
  }

  /** `edit`: `queryset.get(title=...)` fails when no row in scope has that
      title. */
  function EditRow(rows: seq<Note>, scope: Scope, title: string, newTitle: Option<string>, newContent: Option<string>): (r: Result<EditOutcome>)
    ensures r.Err? ==> r.error == NotFound || r.error == DuplicateTitle
    ensures r.Err? && r.error == NotFound <==> Lookup(rows, scope, title).None?
    ensures r.Ok? ==> |r.value.rows| == |rows|
  {
    match Find(rows, scope, title)
    case None => Err(NotFound)
    case Some(i) => EditAt(rows, i, newTitle, newContent)
  }

  /** A successful `edit` as seen through `get`: the note is found under its
      (possibly new) title with its (possibly new) content, the report names
      exactly the fields that changed, and no row other than the edited one
      changes. */
  lemma EditEffect(rows: seq<Note>, scope: Scope, title: string, newTitle: Option<string>, newContent: Option<string>)
    requires WellFormedTable(rows)
    requires EditRow(rows, scope, title, newTitle, newContent).Ok?
    ensures var o := EditRow(rows, scope, title, newTitle, newContent).value;
      var before := Lookup(rows, scope, title).value;
      var t := if Truthy(newTitle) then newTitle.value else title;
      var c := if Truthy(newContent) then newContent.value else before.content;
      && ("title" in o.updated <==> Truthy(newTitle) && newTitle.value != title)
      && ("content" in o.updated <==> Truthy(newContent) && newContent.value != before.content)
      && (o.updated == [] ==> o.rows == rows)
      && WellFormedTable(o.rows)
      && Lookup(o.rows, scope, t) == Some(Rec(t, c))
      && (forall j :: 0 <= j < |rows| && (rows[j].title != title || !InScope(rows[j], scope)) ==> o.rows[j] == rows[j])
  {
    var i := Find(rows, scope, title).value;
    FindUnique(rows, scope, i);
    EditAtEffect(rows, i, scope, newTitle, newContent);
  }

  /** Changing only the content keeps the title and its search column. */
  lemma EditContentOnly(rows: seq<Note>, scope: Scope, title: string, content: string)
    requires WellFormedTable(rows) && content != ""
    requires EditRow(rows, scope, title, None, Some(content)).Ok?
    ensures var o := EditRow(rows, scope, title, None, Some(content)).value;
      var i := Find(rows, scope, title).value;
      && o.rows[i].title == rows[i].title
      && o.rows[i].searchTitle == rows[i].searchTitle
      && o.rows[i].content == content
      && o.updated == (if rows[i].content != content then ["content"] else [])
  {
  }

  /** An edit without a new title or content leaves the table as it was
      and reports nothing. */
  lemma EditNothing(rows: seq<Note>, scope: Scope, title: string)
    requires Lookup(rows, scope, title).Some?
    ensures EditRow(rows, scope, title, None, None) == Ok(EditOutcome(rows, []))
  {
    var i := Find(rows, scope, title).value;
    assert rows[i := rows[i]] == rows;
  }

  /** `delete`: remove the in-scope row with that title, or fail. */
  function DeleteRow(rows: seq<Note>, scope: Scope, title: string): (r: Result<seq<Note>>)
    ensures r.Err? <==> Lookup(rows, scope, title).None?
    ensures r.Err? ==> r.error == NotFound
    ensures r.Ok? ==> |r.value| == |rows| - 1
  {
    match Find(rows, scope, title)
    case None => Err(NotFound)
    case Some(i) => Ok(rows[..i] + rows[i + 1..])
  }

  /** After a successful delete the title is gone, every other title is
      retrievable exactly as before, and the table stays well formed. */
  lemma DeleteEffect(rows: seq<Note>, scope: Scope, title: string, other: string)
    requires WellFormedTable(rows) && DeleteRow(rows, scope, title).Ok?
    ensures WellFormedTable(DeleteRow(rows, scope, title).value)
    ensures Lookup(DeleteRow(rows, scope, title).value, scope, title).None?
    ensures other != title ==> Lookup(DeleteRow(rows, scope, title).value, scope, other) == Lookup(rows, scope, other)
  {
    var i := Find(rows, scope, title).value;
    var after := rows[..i] + rows[i + 1..];
    assert DeleteRow(rows, scope, title).value == after;
    RemoveAt(rows, i);
    forall j | 0 <= j < |after| ensures after[j].title != title {
      assert after[j] in after;
    }
    if other != title {
      SameRowsForTitle(rows, after, scope, other);
    }
  }

  /** Removing one row of a well-formed table keeps it well formed and
      removes exactly the rows with that row's title. */
  lemma RemoveAt(rows: seq<Note>, i: nat)
    requires WellFormedTable(rows) && i < |rows|
    ensures WellFormedTable(rows[..i] + rows[i + 1..])
    ensures forall n :: n in rows[..i] + rows[i + 1..] <==> n in rows && n.title != rows[i].title
  {
    RemoveAtWellFormed(rows, i);
    RemoveAtMembers(rows, i);
  }

  lemma RemoveAtWellFormed(rows: seq<Note>, i: nat)
    requires WellFormedTable(rows) && i < |rows|
    ensures WellFormedTable(rows[..i] + rows[i + 1..])
  {
    var after := rows[..i] + rows[i + 1..];
    RemoveAtIndex(rows, i, after);
    forall a, b | 0 <= a < b < |after| ensures after[a].title != after[b].title {
      var a', b' := if a < i then a else a + 1, if b < i then b else b + 1;
      assert a' < b' && after[a] == rows[a'] && after[b] == rows[b'];
    }
    forall j | 0 <= j < |after| ensures SearchFieldsCurrent(after[j]) {
      assert after[j] == rows[if j < i then j else j + 1];
    }
  }

  lemma RemoveAtMembers(rows: seq<Note>, i: nat)
    requires TitlesUnique(rows) && i < |rows|
    ensures forall n :: n in rows[..i] + rows[i + 1..] <==> n in rows && n.title != rows[i].title
  {
    var after := rows[..i] + rows[i + 1..];
    RemoveAtIndex(rows, i, after);
    forall n ensures n in after <==> n in rows && n.title != rows[i].title {
      if n in after {
        var j :| 0 <= j < |after| && after[j] == n;
        assert n == rows[if j < i then j else j + 1];
      }
      if n in rows && n.title != rows[i].title {
        var j :| 0 <= j < |rows| && rows[j] == n;
        assert after[if j < i then j else j - 1] == n;
      }
    }
  }

  /** The positions of a sequence with one element removed. */
  lemma RemoveAtIndex<T>(s: seq<T>, i: nat, r: seq<T>)
    requires i < |s| && r == s[..i] + s[i + 1..]
    ensures |r| == |s| - 1
    ensures forall j :: 0 <= j < |r| ==> r[j] == s[if j < i then j else j + 1]
  {
  }

  // -------------------------------------------------------------------
  // get_list and search
  // -------------------------------------------------------------------

  /** One returned note: the requested fields and, where the adapter adds
      it, the note's URL. */
  datatype Hit = Hit(title: Option<string>, content: Option<string>, url: Option<string>)

  datatype ListPage = ListPage(notes: seq<Hit>, numPages: nat)

  /** The rows of one `get_list` page: the scope ordered by title, then
      paginated; a page number below 1 is refused first, then a page size
      of 0 divides by zero in the paginator. */
  function ListRows(rows: seq<Note>, scope: Scope, pageNumber: int, countOnPage: nat): (r: Result<seq<Note>>)
    ensures pageNumber < 1 ==> r == Err(InvalidPage)
    ensures pageNumber >= 1 && countOnPage == 0 ==> r == Err(DivisionByZero)
    ensures countOnPage > 0 ==> (r.Ok? <==> 1 <= pageNumber <= Paginator.NumPages(|Scoped(rows, scope)|, countOnPage))
    ensures r.Ok? ==> countOnPage > 0 && |r.value| <= countOnPage && SortedByTitle(r.value)
    ensures r.Ok? ==> forall n :: n in r.value ==> n in rows && InScope(n, scope)
  {
    var sorted := SortByTitle(Scoped(rows, scope));
    SortedPage(sorted, Scoped(rows, scope), pageNumber, countOnPage);
    Paginator.Page(sorted, pageNumber, countOnPage)
  }

  /** A page of a sorted permutation of `items` is sorted and holds only
      elements of `items`. */
  lemma SortedPage(sorted: seq<Note>, items: seq<Note>, pageNumber: int, countOnPage: nat)
    requires SortedByTitle(sorted) && multiset(sorted) == multiset(items)
    ensures |sorted| == |items|
    ensures Paginator.Page(sorted, pageNumber, countOnPage).Ok? ==>
      var page := Paginator.Page(sorted, pageNumber, countOnPage).value;
      SortedByTitle(page) && forall n :: n in page ==> n in items
  {
    SameLength(sorted, items);
    var r := Paginator.Page(sorted, pageNumber, countOnPage);
    if r.Ok? {
      var lo := (pageNumber - 1) * countOnPage;
      var hi := Paginator.Min(lo + countOnPage, |sorted|);
      assert r.value == sorted[lo..hi];
      SliceOf(sorted, items, lo, hi);
    }
  }

  lemma SameLength(a: seq<Note>, b: seq<Note>)
    requires multiset(a) == multiset(b)
    ensures |a| == |b|
  {
    assert |multiset(a)| == |multiset(b)|;
  }

  lemma SliceOf(s: seq<Note>, items: seq<Note>, lo: int, hi: int)
    requires SortedByTitle(s) && multiset(s) == multiset(items) && 0 <= lo <= hi <= |s|
    ensures SortedByTitle(s[lo..hi])
    ensures forall n :: n in s[lo..hi] ==> n in items
  {
    assert forall k :: 0 <= k < hi - lo ==> s[lo..hi][k] == s[lo + k];
    forall n | n in s[lo..hi] ensures n in items {
      assert n in multiset(s);
    }
  }

  /** Reading every `get_list` page in order yields the whole scope, sorted
      by title, each row exactly once. */
  lemma ListPagesCoverScope(rows: seq<Note>, scope: Scope, countOnPage: nat)
    requires countOnPage > 0
    ensures var sorted := SortByTitle(Scoped(rows, scope));
      && Paginator.PagesUpTo(sorted, Paginator.NumPages(|sorted|, countOnPage), countOnPage) == sorted
      && SortedByTitle(sorted)
      && multiset(sorted) == multiset(Scoped(rows, scope))
  {
    Paginator.AllPagesCoverList(SortByTitle(Scoped(rows, scope)), countOnPage);
  }

  /** `get_list`: each row of the page as {title, content, url}. */
  function ListNotes(rows: seq<Note>, scope: Scope, pageNumber: int, countOnPage: nat, urlOf: string -> string): (r: Result<ListPage>)
    ensures r.Ok? <==> ListRows(rows, scope, pageNumber, countOnPage).Ok?
    ensures r.Ok? ==>
      var page := ListRows(rows, scope, pageNumber, countOnPage).value;
      && |r.value.notes| == |page|
      && (forall k :: 0 <= k < |page| ==>
            r.value.notes[k] == Hit(Some(page[k].title), Some(page[k].content), Some(urlOf(page[k].title))))
      && r.value.numPages == Paginator.NumPages(|Scoped(rows, scope)|, countOnPage)
  {
    match ListRows(rows, scope, pageNumber, countOnPage)
    case Err(e) => Err(e)
    case Ok(page) =>
      Ok(ListPage(
        seq(|page|, k requires 0 <= k < |page| => Hit(Some(page[k].title), Some(page[k].content), Some(urlOf(page[k].title)))),
        Paginator.NumPages(|Scoped(rows, scope)|, countOnPage)))
  }

  /** A search term as the filter uses it: normalised, and only when it was
      supplied non-empty. */
  function Term(s: Option<string>): (r: Option<string>)
    ensures r.Some? <==> Truthy(s)
    ensures r.Some? ==> r.value == PrepareToSearch(s.value)
  {
    if Truthy(s) then Some(PrepareToSearch(s.value)) else None
  }

  /** The search filter: with both terms and the operator 'or', either
      search column may contain its term; otherwise each supplied term must
      be contained in its column. */
  predicate Matches(n: Note, operator: string, fileName: Option<string>, fileContent: Option<string>): (r: bool)
    ensures !Truthy(fileName) && !Truthy(fileContent) ==> r
    ensures Truthy(fileName) && !Truthy(fileContent) ==> (r <==> Contains(n.searchTitle, PrepareToSearch(fileName.value)))
    ensures !Truthy(fileName) && Truthy(fileContent) ==> (r <==> Contains(n.searchContent, PrepareToSearch(fileContent.value)))
  {
    var t, c := Term(fileName), Term(fileContent);
    if t.Some? && c.Some? && operator == "or" then
      Contains(n.searchTitle, t.value) || Contains(n.searchContent, c.value)
    else
      (t.None? || Contains(n.searchTitle, t.value)) && (c.None? || Contains(n.searchContent, c.value))
  }

  /** The filter in terms of the note's own text: with no term every note
      matches; a single term matches iff its normalised form occurs in the
      normalised title (or content); with both terms, 'or' needs either and
      any other operator needs both. */
  lemma MatchesMeaning(n: Note, operator: string, name: string, content: string)
    requires SearchFieldsCurrent(n) && name != "" && content != ""
    ensures Matches(n, operator, None, None) && Matches(n, operator, Some(""), Some(""))
    ensures Matches(n, operator, Some(name), None) <==> Contains(PrepareToSearch(n.title), PrepareToSearch(name))
    ensures Matches(n, operator, None, Some(content)) <==> Contains(PrepareToSearch(n.content), PrepareToSearch(content))
    ensures Matches(n, "or", Some(name), Some(content)) <==>
      Contains(PrepareToSearch(n.title), PrepareToSearch(name)) || Contains(PrepareToSearch(n.content), PrepareToSearch(content))
    ensures operator != "or" ==> (Matches(n, operator, Some(name), Some(content)) <==>
      Contains(PrepareToSearch(n.title), PrepareToSearch(name)) && Contains(PrepareToSearch(n.content), PrepareToSearch(content)))
  {
  }

  /** Searching is insensitive to letter case and to 'ё' against 'е' in the
      terms: a term and its normalised form select the same notes. */
  lemma MatchesNormalisedTerm(n: Note, operator: string, name: string, fileContent: Option<string>)
    ensures Matches(n, operator, Some(name), fileContent) == Matches(n, operator, Some(PrepareToSearch(name)), fileContent)
  {
    PrepareToSearchIdempotent(name);
  }

  /** The rows in scope that match, in table order. */
  function SearchMatches(rows: seq<Note>, scope: Scope, operator: string, fileName: Option<string>, fileContent: Option<string>): (r: seq<Note>)
    ensures forall n :: n in r <==> n in rows && InScope(n, scope) && Matches(n, operator, fileName, fileContent)
  {
    Filter(Scoped(rows, scope), (n: Note) => Matches(n, operator, fileName, fileContent))
  }

  /** The column names `values(*fields)` is asked for, as far as modelled. */
  predicate KnownFields(fields: seq<string>) {
    forall k :: 0 <= k < |fields| ==> fields[k] == "title" || fields[k] == "content"
  }

  /** `values(*fields)` of one row, before any URL is added; no names at
      all select every column. */
  function Project(n: Note, fields: seq<string>): (r: Hit)
    ensures r.url.None?
    ensures r.title.Some? <==> fields == [] || "title" in fields
    ensures r.content.Some? <==> fields == [] || "content" in fields
    ensures r.title.Some? ==> r.title.value == n.title
    ensures r.content.Some? ==> r.content.value == n.content
  {
    Hit(if fields == [] || "title" in fields then Some(n.title) else None,
        if fields == [] || "content" in fields then Some(n.content) else None,
        None)
  }

  datatype SearchPage = SearchPage(hits: seq<Hit>, numPages: nat, count: nat)

  /** The rows of the requested search page. */
  function SearchRows(rows: seq<Note>, scope: Scope, operator: string, countOnPage: nat, pageNumber: int,
                      fileName: Option<string>, fileContent: Option<string>): (r: Result<seq<Note>>)
    ensures pageNumber < 1 ==> r == Err(InvalidPage)
    ensures pageNumber >= 1 && countOnPage == 0 ==> r == Err(DivisionByZero)
    ensures countOnPage > 0 ==>
      (r.Ok? <==> 1 <= pageNumber <= Paginator.NumPages(|SearchMatches(rows, scope, operator, fileName, fileContent)|, countOnPage))
    ensures r.Ok? ==> countOnPage > 0 && |r.value| <= countOnPage
    ensures r.Ok? ==> forall n :: n in r.value ==> n in rows && InScope(n, scope) && Matches(n, operator, fileName, fileContent)
  {
    Paginator.Page(SearchMatches(rows, scope, operator, fileName, fileContent), pageNumber, countOnPage)
  }

  /** The search result for a page of rows: each row projected and given
      its URL; the URL is built from the `title` key, so a non-empty page
      without it fails with a KeyError. */
  function WithUrls(page: seq<Note>, fields: seq<string>, urlOf: string -> string): (r: Result<seq<Hit>>)
    ensures r.Err? <==> page != [] && fields != [] && "title" !in fields
    ensures r.Err? ==> r.error == MissingKey
    ensures r.Ok? ==> |r.value| == |page| && forall k :: 0 <= k < |page| ==>
      r.value[k] == Project(page[k], fields).(url := Some(urlOf(page[k].title)))
  {
    if page != [] && fields != [] && "title" !in fields then Err(MissingKey)
    else Ok(seq(|page|, k requires 0 <= k < |page| => Project(page[k], fields).(url := Some(urlOf(page[k].title)))))
  }

  /** `search`: the page of matching rows, projected and given URLs, with
      the number of pages and of matches. */
  function SearchResult(rows: seq<Note>, scope: Scope, operator: string, countOnPage: nat, pageNumber: int,
                        fields: seq<string>, fileName: Option<string>, fileContent: Option<string>,
                        urlOf: string -> string): (r: Result<SearchPage>)
    ensures r.Ok? ==>
      var matches := SearchMatches(rows, scope, operator, fileName, fileContent);
      && countOnPage > 0
      && r.value.count == |matches|
      && r.value.numPages == Paginator.NumPages(|matches|, countOnPage)
      && |r.value.hits| <= countOnPage
      && forall k :: 0 <= k < |r.value.hits| ==> r.value.hits[k].url.Some?
  {
    match SearchRows(rows, scope, operator, countOnPage, pageNumber, fileName, fileContent)
    case Err(e) => Err(e)
    case Ok(page) =>
      var count := |SearchMatches(rows, scope, operator, fileName, fileContent)|;
      match WithUrls(page, fields, urlOf)
      case Err(e) => Err(e)
      case Ok(hits) => Ok(SearchPage(hits, Paginator.NumPages(count, countOnPage), count))
  }

  /** Searching for the content alone fails whenever anything matches: the
      URL is built from a `title` key the projection left out. */
  lemma ContentOnlySearchFails(rows: seq<Note>, scope: Scope, operator: string, countOnPage: nat, pageNumber: int,
                               fileName: Option<string>, fileContent: Option<string>, urlOf: string -> string)
    requires SearchRows(rows, scope, operator, countOnPage, pageNumber, fileName, fileContent).Ok?
    requires SearchRows(rows, scope, operator, countOnPage, pageNumber, fileName, fileContent).value != []
    ensures SearchResult(rows, scope, operator, countOnPage, pageNumber, ["content"], fileName, fileContent, urlOf) == Err(MissingKey)
  {
  }

  /** The older uploader's search: `limit` matches from `offset`, with the
      count of all matches and no URL. */
  function WindowSearch(rows: seq<Note>, operator: string, limit: nat, offset: nat, fields: seq<string>,
                        fileName: Option<string>, fileContent: Option<string>): (r: SearchPage)
    ensures var matches := SearchMatches(rows, AllStorages, operator, fileName, fileContent);
      && r.count == |matches|
      && |r.hits| <= limit
      && (offset < |matches| ==> |r.hits| == Paginator.Min(limit, |matches| - offset))
      && (forall k :: 0 <= k < |r.hits| ==> offset + k < |matches| && r.hits[k] == Project(matches[offset + k], fields))
  {
    var matches := SearchMatches(rows, AllStorages, operator, fileName, fileContent);
    var window := Paginator.Window(matches, offset, limit);
    SearchPage(seq(|window|, k requires 0 <= k < |window| => Project(window[k], fields)), 0, |matches|)
  }

  // -------------------------------------------------------------------
  // The adapters
  // -------------------------------------------------------------------

  /** `DjangoServerAdapter`: the note table seen through one storage, and a
      portion of rows staged for the next bulk insert. */
  class DjangoServerAdapter {
    const storageUuid: string
    var rows: seq<Note>
    var portion: seq<Note>

    ghost predicate Valid()
      reads this
    {
      && WellFormedTable(rows)
      && forall k :: 0 <= k < |portion| ==> SearchFieldsCurrent(portion[k]) && portion[k].storage == storageUuid
    }

    function StorageScope(): Scope {
      InStorage(storageUuid)
    }

    constructor (uuid: string, table: seq<Note>)
      requires WellFormedTable(table)
      ensures storageUuid == uuid && rows == table && portion == [] && Valid()
    {
      storageUuid := uuid;
      rows := table;
      portion := [];
    }

    method Clear()
      requires Valid()
      modifies this
      ensures rows == ClearRows(old(rows), StorageScope()) && portion == old(portion) && Valid()
    {
      ClearKeepsTableWellFormed(rows, StorageScope());
      rows := ClearRows(rows, StorageScope());
    }

    method AddToPortion(fileName: string, fileContent: string)
      requires Valid()
      modifies this
      ensures portion == old(portion) + [NewNote(fileName, fileContent, storageUuid)]
      ensures rows == old(rows) && Valid()
    {
      portion := portion + [NewNote(fileName, fileContent, storageUuid)];
    }

    /** On a clash the exception leaves both the table and the portion. */
    method Commit() returns (r: Result<()>)
      requires Valid()
      modifies this
      ensures CommitRows(old(rows), old(portion)).Ok? ==>
        r.Ok? && rows == old(rows) + old(portion) && portion == []
      ensures CommitRows(old(rows), old(portion)).Err? ==>
        r == Err(DuplicateTitle) && rows == old(rows) && portion == old(portion)
      ensures Valid()
    {
      match CommitRows(rows, portion)
      case Err(e) =>
        r := Err(e);
      case Ok(after) =>
        CommitThenGet(rows, portion, StorageScope());
        rows := after;
        portion := [];
        r := Ok(());
    }

    method Get(title: string) returns (r: Option<Rec>)
      ensures r == Lookup(rows, StorageScope(), title)
    {
      r := Lookup(rows, StorageScope(), title);
    }

    method Add(title: string, content: string) returns (r: Result<Rec>)
      requires Valid()
      modifies this
      ensures TitleTaken(old(rows), title) ==> r == Err(DuplicateTitle) && rows == old(rows)
      ensures !TitleTaken(old(rows), title) ==>
        r == Ok(Rec(title, content)) && rows == old(rows) + [NewNote(title, content, storageUuid)]
      ensures portion == old(portion) && Valid()
    {
      match AddRow(rows, storageUuid, title, content)
      case Err(e) =>
        r := Err(e);
      case Ok(after) =>
        AddThenGet(rows, StorageScope(), storageUuid, title, content, title);
        rows := after;
        r := Ok(Rec(title, content));
    }

    method Edit(title: string, newTitle: Option<string>, newContent: Option<string>) returns (r: Result<seq<string>>)
      requires Valid()
      modifies this
      ensures match EditRow(old(rows), StorageScope(), title, newTitle, newContent)
        case Err(e) => r == Err(e) && rows == old(rows)
        case Ok(o) => r == Ok(o.updated) && rows == o.rows
      ensures portion == old(portion) && Valid()
    {
      match EditRow(rows, StorageScope(), title, newTitle, newContent)
      case Err(e) =>
        r := Err(e);
      case Ok(o) =>
        EditEffect(rows, StorageScope(), title, newTitle, newContent);
        rows := o.rows;
        r := Ok(o.updated);
    }

    method Delete(title: string) returns (r: Result<()>)
      requires Valid()
      modifies this
      ensures match DeleteRow(old(rows), StorageScope(), title)
        case Err(e) => r == Err(e) && rows == old(rows)
        case Ok(after) => r == Ok(()) && rows == after
      ensures portion == old(portion) && Valid()
    {
      match DeleteRow(rows, StorageScope(), title)
      case Err(e) =>
        r := Err(e);
      case Ok(after) =>
        DeleteEffect(rows, StorageScope(), title, title);
        rows := after;
        r := Ok(());
    }

    method GetList(pageNumber: int, countOnPage: nat, urlOf: string -> string) returns (r: Result<ListPage>)
      ensures r == ListNotes(rows, StorageScope(), pageNumber, countOnPage, urlOf)
    {
      r := ListNotes(rows, StorageScope(), pageNumber, countOnPage, urlOf);
    }

    method Search(operator: string, countOnPage: nat, pageNumber: int, fields: seq<string>,
                  fileName: Option<string>, fileContent: Option<string>, urlOf: string -> string)
      returns (r: Result<SearchPage>)
      requires KnownFields(fields)
      ensures r == SearchResult(rows, StorageScope(), operator, countOnPage, pageNumber, fields, fileName, fileContent, urlOf)
    {
      var pageRows := SearchRows(rows, StorageScope(), operator, countOnPage, pageNumber, fileName, fileContent);
      if pageRows.Err? {
        return Err(pageRows.error);
      }
      var count := |SearchMatches(rows, StorageScope(), operator, fileName, fileContent)|;
      var hits := AttachUrls(pageRows.value, fields, urlOf);
      if hits.Err? {
        return Err(hits.error);
      }
      r := Ok(SearchPage(hits.value, Paginator.NumPages(count, countOnPage), count));
    }
  }

  /** The loop that adds a URL to each projected row in turn; the first row
      without a title key raises. */
  method AttachUrls(page: seq<Note>, fields: seq<string>, urlOf: string -> string) returns (r: Result<seq<Hit>>)
    ensures r == WithUrls(page, fields, urlOf)
  {
    var hits: seq<Hit> := [];
    var k := 0;
    while k < |page|
      invariant 0 <= k <= |page|
      invariant |hits| == k
      invariant forall j :: 0 <= j < k ==> hits[j] == Project(page[j], fields).(url := Some(urlOf(page[j].title)))
      invariant k > 0 ==> fields == [] || "title" in fields
    {
      var projected := Project(page[k], fields);
      if projected.title.None? {
        return Err(MissingKey);
      }
      hits := hits + [projected.(url := Some(urlOf(projected.title.value)))];
      k := k + 1;
    }
    assert hits == WithUrls(page, fields, urlOf).value;
    r := Ok(hits);
  }

  /** `UploaderDjangoServer`, the older uploader: the same table without a
      storage scope; the rows it creates carry no storage. */
  class UploaderDjangoServer {
    var rows: seq<Note>
    var portion: seq<Note>

    ghost predicate Valid()
      reads this
    {
      && WellFormedTable(rows)
      && forall k :: 0 <= k < |portion| ==> SearchFieldsCurrent(portion[k]) && portion[k].storage == NoStorage
    }

    constructor (table: seq<Note>)
      requires WellFormedTable(table)
      ensures rows == table && portion == [] && Valid()
    {
      rows := table;
      portion := [];
    }

    /** Deletes every note of every storage. */
    method Clear()
      requires Valid()
      modifies this
      ensures rows == [] && portion == old(portion) && Valid()
    {
      ClearAll(rows);
      rows := ClearRows(rows, AllStorages);
    }

    method AddToPortion(fileName: string, fileContent: string)
      requires Valid()
      modifies this
      ensures portion == old(portion) + [NewNote(fileName, fileContent, NoStorage)]
      ensures rows == old(rows) && Valid()
    {
      portion := portion + [NewNote(fileName, fileContent, NoStorage)];
    }

    method Commit() returns (r: Result<()>)
      requires Valid()
      modifies this
      ensures CommitRows(old(rows), old(portion)).Ok? ==>
        r.Ok? && rows == old(rows) + old(portion) && portion == []
      ensures CommitRows(old(rows), old(portion)).Err? ==>
        r == Err(DuplicateTitle) && rows == old(rows) && portion == old(portion)
      ensures Valid()
    {
      match CommitRows(rows, portion)
      case Err(e) =>
        r := Err(e);
      case Ok(after) =>
        CommitThenGet(rows, portion, AllStorages);
        rows := after;
        portion := [];
        r := Ok(());
    }

    method Search(operator: string, limit: nat, offset: nat, fields: seq<string>,
                  fileName: Option<string>, fileContent: Option<string>) returns (r: SearchPage)
      requires KnownFields(fields)
      ensures r == WindowSearch(rows, operator, limit, offset, fields, fileName, fileContent)
    {
      r := WindowSearch(rows, operator, limit, offset, fields, fileName, fileContent);
    }

    method Get(title: string) returns (r: Option<Rec>)
      ensures r == Lookup(rows, AllStorages, title)
    {
      r := Lookup(rows, AllStorages, title);
    }

    method Add(title: string, content: string) returns (r: Result<Rec>)
      requires Valid()
      modifies this
      ensures TitleTaken(old(rows), title) ==> r == Err(DuplicateTitle) && rows == old(rows)
      ensures !TitleTaken(old(rows), title) ==>
        r == Ok(Rec(title, content)) && rows == old(rows) + [NewNote(title, content, NoStorage)]
      ensures portion == old(portion) && Valid()
    {
      match AddRow(rows, NoStorage, title, content)
      case Err(e) =>
        r := Err(e);
      case Ok(after) =>
        AddThenGet(rows, AllStorages, NoStorage, title, content, title);
        rows := after;
        r := Ok(Rec(title, content));
    }

    method Edit(title: string, newTitle: Option<string>, newContent: Option<string>) returns (r: Result<seq<string>>)
      requires Valid()
      modifies this
      ensures match EditRow(old(rows), AllStorages, title, newTitle, newContent)
        case Err(e) => r == Err(e) && rows == old(rows)
        case Ok(o) => r == Ok(o.updated) && rows == o.rows
      ensures portion == old(portion) && Valid()
    {
      match EditRow(rows, AllStorages, title, newTitle, newContent)
      case Err(e) =>
        r := Err(e);
      case Ok(o) =>
        EditEffect(rows, AllStorages, title, newTitle, newContent);
        rows := o.rows;
        r := Ok(o.updated);
    }

    method Delete(title: string) returns (r: Result<()>)
      requires Valid()
      modifies this
      ensures match DeleteRow(old(rows), AllStorages, title)
        case Err(e) => r == Err(e) && rows == old(rows)
        case Ok(after) => r == Ok(()) && rows == after
      ensures portion == old(portion) && Valid()
    {
      match DeleteRow(rows, AllStorages, title)
      case Err(e) =>
        r := Err(e);
      case Ok(after) =>
        DeleteEffect(rows, AllStorages, title, title);
        rows := after;
        r := Ok(());
    }
  }
}
