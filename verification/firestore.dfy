/** `FirestoreAdapter`: notes as documents of the `knowledge` collection,
    keyed by title with the content in the `text` field, staged through one
    write batch, and mirrored into the local relational backup. */
module Firestore {
  import opened Common
  import opened Models
  import opened Backup
  import Relational
  import Paginator
  import BaseAdapter
  import TitleOrder

  const MaxPortionSize := 500

  /** A document: its id (the note title) and its `text` field, `None`
      when the stored value is null. */
  datatype Doc = Doc(id: string, text: Option<string>)

  /** What reading a document reference yields. */
  datatype Snapshot = Missing | Exists(text: Option<string>)

  /** Document ids compare by code point, the order of their UTF-8 bytes. */
  predicate IdBefore(a: string, b: string) {
    TitleOrder.LexLe(a, b) && a != b
  }

  /** The collection as Firestore serves it to a query without `order_by`:
      in strictly ascending document-id order, so no id occurs twice. */
  predicate IdsAscending(docs: seq<Doc>) {
    forall i, j :: 0 <= i < j < |docs| ==> IdBefore(docs[i].id, docs[j].id)
  }

  function ReadDoc(docs: seq<Doc>, id: string): (r: Snapshot)
    ensures r.Missing? <==> forall i :: 0 <= i < |docs| ==> docs[i].id != id
  {
    if docs == [] then Missing
    else if docs[0].id == id then Exists(docs[0].text)
    else ReadDoc(docs[1..], id)
  }

  /** `document(id).get(field)`: the field's value, or `None` for a
      document that does not exist. */
  function FieldOf(s: Snapshot): Option<string> {
    if s.Exists? then s.text else None
  }

  /** `document(id).set({'text': text})`: overwrite the document, or create
      it at its place in id order. */
  function SetDoc(docs: seq<Doc>, id: string, text: Option<string>): (r: seq<Doc>)
    ensures |r| == |docs| || |r| == |docs| + 1
  {
    if docs == [] then [Doc(id, text)]
    else if docs[0].id == id then [Doc(id, text)] + docs[1..]
    else if TitleOrder.LexLe(id, docs[0].id) then [Doc(id, text)] + docs
    else [docs[0]] + SetDoc(docs[1..], id, text)
  }

  /** A bound below every id of the collection and below the id written
      stays below every id after the write. */
  lemma {:induction false} SetDocAbove(docs: seq<Doc>, id: string, text: Option<string>, t: string)
    requires forall k :: 0 <= k < |docs| ==> IdBefore(t, docs[k].id)
    requires IdBefore(t, id)
    ensures forall k :: 0 <= k < |SetDoc(docs, id, text)| ==> IdBefore(t, SetDoc(docs, id, text)[k].id)
    decreases |docs|
  {
    if docs != [] && docs[0].id != id && !TitleOrder.LexLe(id, docs[0].id) {
      SetDocAbove(docs[1..], id, text, t);
      assert SetDoc(docs, id, text) == [docs[0]] + SetDoc(docs[1..], id, text);
    }
  }

  /** A write keeps the collection in id order. */
  lemma {:induction false} SetDocAscending(docs: seq<Doc>, id: string, text: Option<string>)
    requires IdsAscending(docs)
    ensures IdsAscending(SetDoc(docs, id, text))
    decreases |docs|
  {
    if docs == [] {
    } else if docs[0].id == id {
      var r := SetDoc(docs, id, text);
      assert forall k :: 0 <= k < |r| ==> r[k].id == docs[k].id;
    } else if TitleOrder.LexLe(id, docs[0].id) {
      InsertBefore(docs, id, text);
    } else {
      TitleOrder.LexTotal(id, docs[0].id);
      SetDocAscending(docs[1..], id, text);
      SetDocAbove(docs[1..], id, text, docs[0].id);
      ConsAscending(docs[0], SetDoc(docs[1..], id, text));
    }
  }

  /** A new id below the first one goes in front. */
  lemma InsertBefore(docs: seq<Doc>, id: string, text: Option<string>)
    requires IdsAscending(docs) && docs != []
    requires IdBefore(id, docs[0].id)
    ensures IdsAscending([Doc(id, text)] + docs)
  {
    forall k | 0 < k < |docs| ensures IdBefore(id, docs[k].id) {
      TitleOrder.LexTransitive(id, docs[0].id, docs[k].id);
      if id == docs[k].id {
        TitleOrder.LexAntisymmetric(docs[0].id, docs[k].id);
      }
    }
    ConsAscending(Doc(id, text), docs);
  }

  /** A document below every id of an ascending collection goes in front. */
  lemma ConsAscending(d: Doc, docs: seq<Doc>)
    requires IdsAscending(docs)
    requires forall k :: 0 <= k < |docs| ==> IdBefore(d.id, docs[k].id)
    ensures IdsAscending([d] + docs)
  {
    var r := [d] + docs;
    forall i, j | 0 <= i < j < |r| ensures IdBefore(r[i].id, r[j].id) {
      assert r[j] == docs[j - 1];
      if i > 0 {
        assert r[i] == docs[i - 1];
      }
    }
  }

  /** After a write the document holds what was written and every other
      document reads as before; the collection stays in id order. */
  lemma {:induction false} SetDocEffect(docs: seq<Doc>, id: string, text: Option<string>, other: string)
    requires IdsAscending(docs)
    ensures IdsAscending(SetDoc(docs, id, text))
    ensures ReadDoc(SetDoc(docs, id, text), id) == Exists(text)
    ensures other != id ==> ReadDoc(SetDoc(docs, id, text), other) == ReadDoc(docs, other)
    decreases |docs|
  {
    SetDocAscending(docs, id, text);
    if docs != [] && docs[0].id != id && !TitleOrder.LexLe(id, docs[0].id) {
      assert IdsAscending(docs[1..]) by {
        assert forall i, j :: 0 <= i < j < |docs| - 1 ==> docs[1..][i] == docs[i + 1] && docs[1..][j] == docs[j + 1];
      }
      SetDocEffect(docs[1..], id, text, other);
    }
  }

  /** Committing a batch: its writes in order. */
  function ApplyWrites(docs: seq<Doc>, writes: seq<Doc>): (r: seq<Doc>)
    ensures |docs| <= |r| <= |docs| + |writes|
    ensures IdsAscending(docs) ==> IdsAscending(r)
    decreases |writes|
  {
    if writes == [] then docs
    else
      var last := writes[|writes| - 1];
      var before := ApplyWrites(docs, writes[..|writes| - 1]);
      if IdsAscending(before) then
        SetDocAscending(before, last.id, last.text);
        SetDoc(before, last.id, last.text)
      else SetDoc(before, last.id, last.text)
  }

  /** The text of the last write to `id` in the batch, if any. */
  function LastWriteTo(writes: seq<Doc>, id: string): Option<Option<string>>
    decreases |writes|
  {
    if writes == [] then None
    else if writes[|writes| - 1].id == id then Some(writes[|writes| - 1].text)
    else LastWriteTo(writes[..|writes| - 1], id)
  }

  /** After a commit each document reads as the last write to it in the
      batch, or as before when the batch did not write it. */
  lemma {:induction false} ApplyWritesEffect(docs: seq<Doc>, writes: seq<Doc>, id: string)
    requires IdsAscending(docs)
    ensures IdsAscending(ApplyWrites(docs, writes))
    ensures ReadDoc(ApplyWrites(docs, writes), id) ==
      match LastWriteTo(writes, id)
      case None => ReadDoc(docs, id)
      case Some(t) => Exists(t)
    decreases |writes|
  {
    if writes != [] {
      var last := writes[|writes| - 1];
      ApplyWritesEffect(docs, writes[..|writes| - 1], id);
      SetDocEffect(ApplyWrites(docs, writes[..|writes| - 1]), last.id, last.text, id);
    }
  }

  /** The document writes of `edit`, which run after the backup's `b_edit`:
      a rename writes `newContent` under the new title and leaves the old
      document in place; without a rename nothing is written. The report
      names 'title' for a rename, then 'content' when the new content is
      non-empty and differs from the old document's text. */
  function EditDocs(docs: seq<Doc>, title: string, newTitle: Option<string>, newContent: Option<string>): (r: (seq<Doc>, seq<string>))
    ensures "title" in r.1 <==> Truthy(newTitle) && newTitle.value != title
    ensures "content" in r.1 <==> Truthy(newContent) && FieldOf(ReadDoc(docs, title)) != newContent
    ensures |r.1| <= 2 && (|r.1| == 2 ==> r.1 == ["title", "content"])
    ensures IdsAscending(docs) ==> IdsAscending(r.0)
  {
    var before := FieldOf(ReadDoc(docs, title));
    var renamed := Truthy(newTitle) && title != newTitle.value;
    var after := if renamed then SetDoc(docs, newTitle.value, newContent) else docs;
    assert renamed && IdsAscending(docs) ==> IdsAscending(after) by {
      if renamed && IdsAscending(docs) {
        SetDocAscending(docs, newTitle.value, newContent);
      }
    }
    var contentChanged := Truthy(newContent) && before != Some(newContent.value);
    (after, (if renamed then ["title"] else []) + (if contentChanged then ["content"] else []))
  }

  lemma EditDocsEffect(docs: seq<Doc>, title: string, newTitle: Option<string>, newContent: Option<string>, other: string)
    requires IdsAscending(docs)
    ensures var (after, updated) := EditDocs(docs, title, newTitle, newContent);
      && IdsAscending(after)
      && (!Truthy(newTitle) || newTitle.value == title ==> after == docs)
      && (Truthy(newTitle) && newTitle.value != title ==>
            ReadDoc(after, newTitle.value) == Exists(newContent) && ReadDoc(after, title) == ReadDoc(docs, title))
      && (other != title && (newTitle.None? || other != newTitle.value) ==> ReadDoc(after, other) == ReadDoc(docs, other))
      && ("title" in updated <==> Truthy(newTitle) && newTitle.value != title)
      && ("content" in updated <==> Truthy(newContent) && FieldOf(ReadDoc(docs, title)) != newContent)
  {
    if Truthy(newTitle) && title != newTitle.value {
      SetDocEffect(docs, newTitle.value, newContent, title);
      SetDocEffect(docs, newTitle.value, newContent, other);
    }
  }

  /** One listed note: the document id and its text. */
  datatype Listed = Listed(title: string, content: Option<string>)

  datatype ListPage = ListPage(notes: seq<Listed>, numPages: nat)

  /** `get_list`: skip (page_number - 1) * count_on_page documents, take at
      most count_on_page, in the id order the query returns them; the page count is the base-class helper on the
      collection size. A page size of 0 divides by zero in that helper; a
      page number below 1 asks the backend for a negative offset. */
  function ListDocs(docs: seq<Doc>, pageNumber: int, countOnPage: nat): (r: Result<ListPage>)
    ensures countOnPage == 0 <==> r == Err(DivisionByZero)
    ensures countOnPage > 0 ==> (r.Ok? <==> pageNumber >= 1)
    ensures r.Ok? ==>
      var offset := (pageNumber - 1) * countOnPage;
      && |r.value.notes| <= countOnPage
      && (offset < |docs| ==> |r.value.notes| == Paginator.Min(countOnPage, |docs| - offset))
      && (forall k :: 0 <= k < |r.value.notes| ==>
            offset + k < |docs| && r.value.notes[k] == Listed(docs[offset + k].id, docs[offset + k].text))
      && r.value.numPages == BaseAdapter.CountPages(|docs|, countOnPage)
  {
    if countOnPage == 0 then Err(DivisionByZero)
    else if pageNumber < 1 then Err(InvalidPage)
    else
      var window := Paginator.Window(docs, (pageNumber - 1) * countOnPage, countOnPage);
      Ok(ListPage(seq(|window|, k requires 0 <= k < |window| => Listed(window[k].id, window[k].text)),
                  BaseAdapter.CountPages(|docs|, countOnPage)))
  }

  /** A listed page is in id order. */
  lemma ListDocsInIdOrder(docs: seq<Doc>, pageNumber: int, countOnPage: nat)
    requires IdsAscending(docs)
    ensures var r := ListDocs(docs, pageNumber, countOnPage);
      r.Ok? ==> forall i, j :: 0 <= i < j < |r.value.notes| ==> IdBefore(r.value.notes[i].title, r.value.notes[j].title)
  {
    var r := ListDocs(docs, pageNumber, countOnPage);
    if r.Ok? {
      var offset := (pageNumber - 1) * countOnPage;
      forall i, j | 0 <= i < j < |r.value.notes| ensures IdBefore(r.value.notes[i].title, r.value.notes[j].title) {
        assert r.value.notes[i].title == docs[offset + i].id && r.value.notes[j].title == docs[offset + j].id;
      }
    }
  }

  /** Writing "b" and then "a" lists "a" first: a page follows the ids,
      not the order the documents were written in. */
  lemma ListedByIdNotByWrite(tb: Option<string>, ta: Option<string>)
    ensures SetDoc(SetDoc([], "b", tb), "a", ta) == [Doc("a", ta), Doc("b", tb)]
    ensures ListDocs(SetDoc(SetDoc([], "b", tb), "a", ta), 1, 1) == Ok(ListPage([Listed("a", ta)], 0))
  {
    assert TitleOrder.LexLe("a", "b");
    var docs := [Doc("a", ta), Doc("b", tb)];
    var r := ListDocs(docs, 1, 1);
    assert |r.value.notes| == 1 && r.value.notes[0] == Listed("a", ta);
    assert r.value.notes == [Listed("a", ta)];
    assert BaseAdapter.CountPages(2, 1) == 0;
  }

  /** What `get` returns: `{'title', 'content', 'user': None}`. */
  datatype Fetched = Fetched(title: string, content: Option<string>, user: Option<nat>)

  class FirestoreAdapter {
    const storageUuid: string
    /** The `knowledge` collection. */
    var docs: seq<Doc>
    /** The write batch: `None` until the first staged write, then the
        writes not yet committed. */
    var batch: Option<seq<Doc>>
    /** The relational table the backup mixin writes to. */
    var backup: seq<Note>
    var appOpen: bool

    ghost predicate Valid()
      reads this
    {
      IdsAscending(docs) && WellFormedTable(backup)
    }

    constructor (uuid: string, collection: seq<Doc>, table: seq<Note>)
      requires IdsAscending(collection) && WellFormedTable(table)
      ensures storageUuid == uuid && docs == collection && backup == table
      ensures batch.None? && appOpen && Valid()
    {
      storageUuid := uuid;
      docs := collection;
      batch := None;
      backup := table;
      appOpen := true;
    }

    method Close()
      modifies this
      ensures !appOpen
      ensures docs == old(docs) && batch == old(batch) && backup == old(backup)
    {
      appOpen := false;
    }

    /** Only the backup is cleared; the collection keeps its documents. */
    method Clear()
      requires Valid()
      modifies this
      ensures backup == BClear(old(backup), storageUuid)
      ensures docs == old(docs) && batch == old(batch) && appOpen == old(appOpen) && Valid()
    {
      Relational.ClearKeepsTableWellFormed(backup, Relational.InStorage(storageUuid));
      backup := BClear(backup, storageUuid);
    }

    method AddToPortion(fileName: string, fileContent: string)
      modifies this
      ensures old(batch).None? ==> batch == Some([Doc(fileName, Some(fileContent))])
      ensures old(batch).Some? ==> batch == Some(old(batch).value + [Doc(fileName, Some(fileContent))])
      ensures docs == old(docs) && backup == old(backup) && appOpen == old(appOpen)
    {
      if batch.None? {
        batch := Some([Doc(fileName, Some(fileContent))]);
      } else {
        batch := Some(batch.value + [Doc(fileName, Some(fileContent))]);
      }
    }

    /** A batch is never discarded: after a commit it stays, empty. */
    method Commit()
      requires Valid()
      modifies this
      ensures old(batch).None? ==> docs == old(docs) && batch == old(batch)
      ensures old(batch).Some? ==> docs == ApplyWrites(old(docs), old(batch).value) && batch == Some([])
      ensures backup == old(backup) && appOpen == old(appOpen) && Valid()
    {
      if batch.Some? {
        ApplyWritesEffect(docs, batch.value, "");
        docs := ApplyWrites(docs, batch.value);
        batch := Some([]);
      }
    }

    /** A found document is also copied into the backup. */
    method Get(title: string) returns (r: Result<Option<Fetched>>)
      requires Valid()
      modifies this
      ensures ReadDoc(docs, title).Missing? ==> r == Ok(None) && backup == old(backup)
      ensures ReadDoc(docs, title).Exists? ==>
        match BAdd(old(backup), storageUuid, title, ReadDoc(docs, title).text)
        case Err(e) => r == Err(e) && backup == old(backup)
        case Ok(b) => r == Ok(Some(Fetched(title, ReadDoc(docs, title).text, None))) && backup == b
      ensures docs == old(docs) && batch == old(batch) && appOpen == old(appOpen)
    {
      var snapshot := ReadDoc(docs, title);
      if snapshot.Missing? {
        return Ok(None);
      }
      match BAdd(backup, storageUuid, title, snapshot.text)
      case Err(e) =>
        r := Err(e);
      case Ok(b) =>
        backup := b;
        r := Ok(Some(Fetched(title, snapshot.text, None)));
    }

    /** The backup copy first, then the document. */
    method Add(title: string, content: string) returns (r: Result<Rec>)
      requires Valid()
      modifies this
      ensures match BAdd(old(backup), storageUuid, title, Some(content))
        case Err(e) => r == Err(e) && backup == old(backup) && docs == old(docs)
        case Ok(b) => r == Ok(Rec(title, content)) && backup == b && docs == SetDoc(old(docs), title, Some(content))
      ensures batch == old(batch) && appOpen == old(appOpen) && Valid()
    {
      BAddEffect(backup, storageUuid, title, content);
      match BAdd(backup, storageUuid, title, Some(content))
      case Err(e) =>
        r := Err(e);
      case Ok(b) =>
        SetDocEffect(docs, title, Some(content), title);
        backup := b;
        docs := SetDoc(docs, title, Some(content));
        r := Ok(Rec(title, content));
    }

    method Edit(title: string, newTitle: Option<string>, newContent: Option<string>) returns (r: Result<seq<string>>)
      requires Valid()
      modifies this
      ensures match BEdit(old(backup), storageUuid, title, newTitle, newContent)
        case Err(e) => r == Err(e) && backup == old(backup) && docs == old(docs)
        case Ok(b) =>
          var (after, updated) := EditDocs(old(docs), title, newTitle, newContent);
          r == Ok(updated) && backup == b && docs == after
      ensures batch == old(batch) && appOpen == old(appOpen) && Valid()
    {
      match BEdit(backup, storageUuid, title, newTitle, newContent)
      case Err(e) =>
        r := Err(e);
      case Ok(b) =>
        BEditEffect(backup, storageUuid, title, newTitle, newContent);
        EditDocsEffect(docs, title, newTitle, newContent, title);
        backup := b;
        var (after, updated) := EditDocs(docs, title, newTitle, newContent);
        docs := after;
        r := Ok(updated);
    }

    method GetList(pageNumber: int, countOnPage: nat) returns (r: Result<ListPage>)
      ensures r == ListDocs(docs, pageNumber, countOnPage)
    {
      r := ListDocs(docs, pageNumber, countOnPage);
    }

    /** Only the backup copy is deleted. */
    method Delete(title: string)
      requires Valid()
      modifies this
      ensures backup == BDelete(old(backup), storageUuid, title)
      ensures docs == old(docs) && batch == old(batch) && appOpen == old(appOpen) && Valid()
    {
      BDeleteIdempotent(backup, storageUuid, title);
      backup := BDelete(backup, storageUuid, title);
    }
  }
}
