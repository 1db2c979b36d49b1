/** The `gen_storage_list` management command
    (`note/management/commands/gen_storage_list.py`): a note listing every
    storage of the default service, one Markdown link per storage, written
    into the default storage under a reserved title. The default storage is
    the relational one; `urlOf(source)` stands for
    `resolve_url('note_list_db', source)`. */
module StorageList {
  import opened Common
  import opened Models
  import Relational
  import Views
  import ViewsApi

  /** "Список баз знаний:" */
  const Heading := "\U{0421}\U{043F}\U{0438}\U{0441}\U{043E}\U{043A} \U{0431}\U{0430}\U{0437} \U{0437}\U{043D}\U{0430}\U{043D}\U{0438}\U{0439}:"
  /** ".Список баз знаний" */
  const ListTitle := ".\U{0421}\U{043F}\U{0438}\U{0441}\U{043E}\U{043A} \U{0431}\U{0430}\U{0437} \U{0437}\U{043D}\U{0430}\U{043D}\U{0438}\U{0439}"

  /** The storages listed: those of the given service, in table order. */
  function ListedStorages(storages: seq<StorageRecord>, service: string): (r: seq<StorageRecord>)
    ensures |r| <= |storages|
    ensures forall s :: s in r <==> s in storages && s.service == service
  {
    Filter(storages, (s: StorageRecord) => s.service == service)
  }

  /** One list item, `- [description](url)`. */
  function Item(description: string, url: string): string {
    "- [" + description + "](" + url + ")"
  }

  /** The lines of the note: the heading, an empty line, then one item per
      listed storage, in order. */
  function Lines(listed: seq<StorageRecord>, urlOf: string -> string): (r: seq<string>)
    ensures |r| == |listed| + 2
    ensures r[0] == Heading && r[1] == ""
    ensures forall k :: 0 <= k < |listed| ==> r[k + 2] == Item(listed[k].description, urlOf(listed[k].source))
  {
    if listed == [] then [Heading, ""]
    else Lines(listed[..|listed| - 1], urlOf) + [Item(listed[|listed| - 1].description, urlOf(listed[|listed| - 1].source))]
  }

  /** The loop building `md_lines`. */
  method BuildLines(listed: seq<StorageRecord>, urlOf: string -> string) returns (lines: seq<string>)
    ensures lines == Lines(listed, urlOf)
  {
    lines := [Heading, ""];
    var k := 0;
    while k < |listed|
      invariant 0 <= k <= |listed|
      invariant lines == Lines(listed[..k], urlOf)
    {
      assert listed[..k + 1][..k] == listed[..k];
      lines := lines + [Item(listed[k].description, urlOf(listed[k].source))];
      k := k + 1;
    }
    assert listed[..k] == listed;
  }

  /** The effect of the upsert on the note table: the content replaces the
      existing note's content, or a new note is added to the storage. */
  function Published(rows: seq<Note>, storage: string, title: string, content: string): (r: Result<seq<Note>>)
    ensures Relational.Lookup(rows, Relational.InStorage(storage), title).Some? ==> r.Ok? && |r.value| == |rows|
    ensures Relational.Lookup(rows, Relational.InStorage(storage), title).None? ==>
      (r.Err? <==> Relational.TitleTaken(rows, title)) && (r.Ok? ==> |r.value| == |rows| + 1)
  {
    if Relational.Lookup(rows, Relational.InStorage(storage), title).Some? then
      match Relational.EditRow(rows, Relational.InStorage(storage), title, None, Some(content))
      case Err(e) => Err(e)
      case Ok(o) => Ok(o.rows)
    else Relational.AddRow(rows, storage, title, content)
  }

  /** The upsert at the end of `Command.handle`: edit the list note when
      the storage has it, add it otherwise. */
  method Publish(adapter: Relational.DjangoServerAdapter, content: string)
    requires adapter.Valid()
    modifies adapter
    ensures match Published(old(adapter.rows), adapter.storageUuid, ListTitle, content)
      case Ok(after) => adapter.rows == after
      case Err(_) => adapter.rows == old(adapter.rows)
    ensures adapter.Valid()
  {
    ghost var before := adapter.rows;
    var existing := adapter.Get(ListTitle);
    var scope := adapter.StorageScope();
    assert scope == Relational.InStorage(adapter.storageUuid);
    if existing.Some? {
      assert Published(before, adapter.storageUuid, ListTitle, content)
        == match Relational.EditRow(before, scope, ListTitle, None, Some(content))
           case Err(e) => Err(e)
           case Ok(o) => Ok(o.rows);
      var _ := adapter.Edit(ListTitle, None, Some(content));
    } else {
      assert Published(before, adapter.storageUuid, ListTitle, content)
        == Relational.AddRow(before, adapter.storageUuid, ListTitle, content);
      var _ := adapter.Add(ListTitle, content);
    }
  }

  /** `Command.handle`: list the storages of the default service, then
      edit or add the list note of the default storage; returns the count
      it prints. */
  method Generate(adapter: Relational.DjangoServerAdapter, storages: seq<StorageRecord>, defaultService: string,
                  urlOf: string -> string) returns (count: int)
    requires adapter.Valid()
    modifies adapter
    ensures count == |ListedStorages(storages, defaultService)|
    ensures var content := Join(Lines(ListedStorages(storages, defaultService), urlOf), "\n");
      match Published(old(adapter.rows), adapter.storageUuid, ListTitle, content)
      case Ok(after) => adapter.rows == after
      case Err(_) => adapter.rows == old(adapter.rows)
    ensures adapter.Valid()
  {
    var listed := ListedStorages(storages, defaultService);
    var lines := BuildLines(listed, urlOf);
    var content := Join(lines, "\n");
    Publish(adapter, content);
    count := |lines| - 2;
  }

  /** A string without line breaks. */
  predicate OneLine(s: string) {
    forall j :: 0 <= j < |s| ==> s[j] != '\n'
  }

  lemma OneLineConcat(a: string, b: string)
    requires OneLine(a) && OneLine(b)
    ensures OneLine(a + b)
  {
    forall j | 0 <= j < |a + b| ensures (a + b)[j] != '\n' {
      if j >= |a| {
        assert (a + b)[j] == b[j - |a|];
      }
    }
  }

  lemma ItemOneLine(description: string, url: string)
    requires OneLine(description) && OneLine(url)
    ensures OneLine(Item(description, url))
  {
    OneLineConcat("- [", description);
    OneLineConcat("- [" + description, "](");
    OneLineConcat("- [" + description + "](", url);
    OneLineConcat("- [" + description + "](" + url, ")");
  }

  /** Joining one-line parts with line breaks and splitting the result at
      line breaks gives the parts back. */
  lemma {:induction false} SplitJoin(parts: seq<string>)
    requires |parts| >= 1
    requires forall k :: 0 <= k < |parts| ==> OneLine(parts[k])
    ensures Split(Join(parts, "\n"), '\n') == parts
    decreases |parts|
  {
    if |parts| == 1 {
      Views.SplitWithoutSeparator(parts[0], '\n');
    } else {
      var rest := Join(parts[1..], "\n");
      assert Join(parts, "\n") == parts[0] + ['\n'] + rest;
      Views.SplitAppend(parts[0], rest, '\n');
      Views.SplitWithoutSeparator(parts[0], '\n');
      SplitJoin(parts[1..]);
      assert [parts[0]] + parts[1..] == parts;
    }
  }

  /** When no description or URL breaks a line, the note's lines are the
      heading, an empty line and one item per listed storage, so the count
      printed is the number of links in the note. */
  lemma ContentLines(listed: seq<StorageRecord>, urlOf: string -> string)
    requires forall k :: 0 <= k < |listed| ==> OneLine(listed[k].description) && OneLine(urlOf(listed[k].source))
    ensures var lines := Split(Join(Lines(listed, urlOf), "\n"), '\n');
      && lines == Lines(listed, urlOf)
      && |lines| - 2 == |listed|
  {
    var lines := Lines(listed, urlOf);
    forall k | 0 <= k < |lines| ensures OneLine(lines[k]) {
      if k >= 2 {
        ItemOneLine(listed[k - 2].description, urlOf(listed[k - 2].source));
      }
    }
    SplitJoin(lines);
  }

  /** The note's text is never empty: it starts with the heading. */
  lemma ContentStartsWithHeading(listed: seq<StorageRecord>, urlOf: string -> string)
    ensures StartsWith(Join(Lines(listed, urlOf), "\n"), Heading)
  {
    var lines := Lines(listed, urlOf);
    assert Join(lines, "\n") == Heading + "\n" + Join(lines[1..], "\n");
  }

  /** After publishing, the storage returns the note with the new content
      and the table stays well formed; publishing fails only when another
      storage already holds the title. */
  lemma PublishedThenGet(rows: seq<Note>, storage: string, title: string, content: string)
    requires WellFormedTable(rows) && content != ""
    ensures Published(rows, storage, title, content).Err? <==>
      Relational.Lookup(rows, Relational.InStorage(storage), title).None? && Relational.TitleTaken(rows, title)
    ensures Published(rows, storage, title, content).Ok? ==>
      && WellFormedTable(Published(rows, storage, title, content).value)
      && Relational.Lookup(Published(rows, storage, title, content).value, Relational.InStorage(storage), title)
           == Some(Rec(title, content))
  {
    var scope := Relational.InStorage(storage);
    if Relational.Lookup(rows, scope, title).Some? {
      assert Relational.EditRow(rows, scope, title, None, Some(content)).Ok?;
      Relational.EditEffect(rows, scope, title, None, Some(content));
    } else if !Relational.TitleTaken(rows, title) {
      Relational.AddThenGet(rows, scope, storage, title, content, title);
    }
  }

  /** Running the command twice with the same storages leaves the table as
      the first run left it. */
  lemma PublishIdempotent(rows: seq<Note>, storage: string, title: string, content: string)
    requires WellFormedTable(rows) && content != ""
    requires Published(rows, storage, title, content).Ok?
    ensures Published(Published(rows, storage, title, content).value, storage, title, content)
      == Published(rows, storage, title, content)
  {
    PublishedThenGet(rows, storage, title, content);
    PublishSameContent(Published(rows, storage, title, content).value, storage, title, content);
  }

  /** Publishing the content a storage already holds under the title
      changes nothing. */
  lemma PublishSameContent(rows: seq<Note>, storage: string, title: string, content: string)
    requires WellFormedTable(rows)
    requires Relational.Lookup(rows, Relational.InStorage(storage), title) == Some(Rec(title, content))
    ensures Published(rows, storage, title, content) == Ok(rows)
  {
    var scope := Relational.InStorage(storage);
    var i := Relational.Find(rows, scope, title).value;
    Relational.FindUnique(rows, scope, i);
    assert rows[i].content == content;
    assert Relational.ChangedFields(rows[i], None, Some(content)) == [];
    assert rows[i := rows[i]] == rows;
  }

  /** The list note's title is reserved: the API neither creates, edits
      nor deletes a note under it. */
  lemma ListTitleReserved(content: Option<string>, newContent: Option<string>, get: string -> Option<Rec>)
    ensures Views.Reserved(ListTitle)
    ensures ViewsApi.ApiDelete(ListTitle, get).status == 400
    ensures ViewsApi.ApiPut(ListTitle, None, newContent, get).call.NoCall?
    ensures !ViewsApi.ApiPost(ListTitle, content, get).call.AddCall?
  {
    assert ListTitle[..1] == ".";
  }
}
