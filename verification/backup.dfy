/** `NoteBackuperMixin`: the local copy a remote backend keeps of its notes
    in the relational table, confined to the backend's own storage. */
module Backup {
  import opened Common
  import opened Models
  import opened Relational

  /** `b_clear`: delete the storage's rows. */
  function BClear(rows: seq<Note>, storage: string): (r: seq<Note>)
    ensures Scoped(r, InStorage(storage)) == []
    ensures forall n :: n in r <==> n in rows && n.storage != storage
  {
    ClearOnlyItsStorage(rows, storage, storage + "x");
    ClearRows(rows, InStorage(storage))
  }

  /** `b_add`: insert the note unless the storage already has that title.
      A `None` content (a document whose text is null) cannot be stored. */
  function BAdd(rows: seq<Note>, storage: string, title: string, content: Option<string>): (r: Result<seq<Note>>)
    ensures Lookup(rows, InStorage(storage), title).Some? ==> r == Ok(rows)
  {
    if Find(rows, InStorage(storage), title).Some? then Ok(rows)
    else if content.None? then Err(NullColumn)
    else AddRow(rows, storage, title, content.value)
  }

  /** An existing note is left exactly as it is; a missing one is added
      with its search columns, unless its title is used by another storage;
      either way the storage then holds that title, and adding again
      changes nothing. */
  lemma BAddEffect(rows: seq<Note>, storage: string, title: string, content: string)
    requires WellFormedTable(rows)
    ensures var r := BAdd(rows, storage, title, Some(content));
      && (r.Err? <==> Lookup(rows, InStorage(storage), title).None? && TitleTaken(rows, title))
      && (r.Ok? ==> WellFormedTable(r.value) && Lookup(r.value, InStorage(storage), title).Some?)
      && (r.Ok? && Lookup(rows, InStorage(storage), title).None? ==>
            Lookup(r.value, InStorage(storage), title) == Some(Rec(title, content)))
      && (r.Ok? ==> BAdd(r.value, storage, title, Some(content)) == r)
  {
    var r := BAdd(rows, storage, title, Some(content));
    if Lookup(rows, InStorage(storage), title).None? && r.Ok? {
      AddThenGet(rows, InStorage(storage), storage, title, content, title);
    }
  }

  /** `b_delete`: remove the note if the storage has it; otherwise nothing. */
  function BDelete(rows: seq<Note>, storage: string, title: string): (r: seq<Note>)
    ensures Lookup(rows, InStorage(storage), title).None? ==> r == rows
  {
    match DeleteRow(rows, InStorage(storage), title)
    case Err(_) => rows
    case Ok(after) => after
  }

  /** Afterwards the title is gone from the storage, and deleting again is
      harmless. */
  lemma BDeleteIdempotent(rows: seq<Note>, storage: string, title: string)
    requires WellFormedTable(rows)
    ensures WellFormedTable(BDelete(rows, storage, title))
    ensures Lookup(BDelete(rows, storage, title), InStorage(storage), title).None?
    ensures BDelete(BDelete(rows, storage, title), storage, title) == BDelete(rows, storage, title)
  {
    if DeleteRow(rows, InStorage(storage), title).Ok? {
      DeleteEffect(rows, InStorage(storage), title, title);
    }
  }

  /** The row `b_edit` works on: the one titled `title`, else the one
      titled `newTitle`, else a new row (newTitle, newContent) created first;
      creating it fails if either is `None` or the title is taken. */
  function BEditBase(rows: seq<Note>, storage: string, title: string, newTitle: Option<string>, newContent: Option<string>)
    : (r: Result<(seq<Note>, nat)>)
    ensures r.Ok? ==> r.value.1 < |r.value.0| && InScope(r.value.0[r.value.1], InStorage(storage))
    ensures r.Ok? ==> |r.value.0| >= |rows| && r.value.0[..|rows|] == rows
  {
    match Find(rows, InStorage(storage), title)
    case Some(i) => Ok((rows, i))
    case None =>
      match (if newTitle.Some? then Find(rows, InStorage(storage), newTitle.value) else None)
      case Some(i) => Ok((rows, i))
      case None =>
        if newTitle.None? || newContent.None? then Err(NullColumn)
        else match AddRow(rows, storage, newTitle.value, newContent.value)
          case Err(e) => Err(e)
          case Ok(after) => Ok((after, |rows|))
  }

  /** `b_edit`: find or create the row, then apply the edit to it. */
  function BEdit(rows: seq<Note>, storage: string, title: string, newTitle: Option<string>, newContent: Option<string>)
    : (r: Result<seq<Note>>)
    ensures r.Ok? ==> |rows| <= |r.value| <= |rows| + 1
    ensures r.Ok? ==> forall k :: 0 <= k < |rows| && !InScope(rows[k], InStorage(storage)) ==> r.value[k] == rows[k]
    ensures newTitle.None? && Lookup(rows, InStorage(storage), title).None? ==> r == Err(NullColumn)
  {
    match BEditBase(rows, storage, title, newTitle, newContent)
    case Err(e) => Err(e)
    case Ok((base, i)) =>
      match EditAt(base, i, newTitle, newContent)
      case Err(e) => Err(e)
      case Ok(o) => Ok(o.rows)
  }

  /** After a successful `b_edit` the storage holds a note titled
      `newTitle` (when one was given non-empty) whose content is
      `newContent` (when one was given non-empty), and the table is well
      formed. */
  lemma BEditEffect(rows: seq<Note>, storage: string, title: string, newTitle: Option<string>, newContent: Option<string>)
    requires WellFormedTable(rows)
    requires BEdit(rows, storage, title, newTitle, newContent).Ok?
    ensures WellFormedTable(BEdit(rows, storage, title, newTitle, newContent).value)
    ensures Truthy(newTitle) ==>
      var found := Lookup(BEdit(rows, storage, title, newTitle, newContent).value, InStorage(storage), newTitle.value);
      found.Some? && (Truthy(newContent) ==> found.value.content == newContent.value)
  {
    var (base, i) := BEditBase(rows, storage, title, newTitle, newContent).value;
    if base != rows {
      AddThenGet(rows, InStorage(storage), storage, newTitle.value, newContent.value, newTitle.value);
    }
    EditAtEffect(base, i, InStorage(storage), newTitle, newContent);
  }

  /** With neither `title` nor `newTitle` in the storage, `b_edit` creates
      the note from the new values. */
  lemma BEditCreates(rows: seq<Note>, storage: string, title: string, newTitle: string, newContent: string)
    requires WellFormedTable(rows)
    requires Lookup(rows, InStorage(storage), title).None? && Lookup(rows, InStorage(storage), newTitle).None?
    requires !TitleTaken(rows, newTitle)
    ensures BEdit(rows, storage, title, Some(newTitle), Some(newContent)) == Ok(rows + [NewNote(newTitle, newContent, storage)])
  {
    var base := rows + [NewNote(newTitle, newContent, storage)];
    var n: nat := |rows|;
    assert BEditBase(rows, storage, title, Some(newTitle), Some(newContent)) == Ok((base, n));
    assert base[n].title == newTitle && base[n].content == newContent;
    assert ChangedFields(base[n], Some(newTitle), Some(newContent)) == [];
    assert Edited(base[n], Some(newTitle), Some(newContent)) == base[n];
    assert base[n := base[n]] == base;
    assert EditAt(base, n, Some(newTitle), Some(newContent)) == Ok(EditOutcome(base, []));
  }

  /** A missing note with no new title cannot be created. */
  lemma BEditWithoutNewTitle(rows: seq<Note>, storage: string, title: string, newContent: Option<string>)
    requires Lookup(rows, InStorage(storage), title).None?
    ensures BEdit(rows, storage, title, None, newContent) == Err(NullColumn)
  {
  }
}
