/** The relational records: a note row with its derived search columns, a
    storage-configuration record, and the search normalisation
    `prepare_to_search`. */
module Models {
  import opened Common

  /** Declared column limits. */
  const TitleMaxLength := 255
  const SourceMaxLength := 30
  const ServiceMaxLength := 30
  const DescriptionMaxLength := 100

  // ---------------------------------------------------------------------
  // prepare_to_search: lower-case, then fold 'ё' into 'е'
  // ---------------------------------------------------------------------

  const Yo: char := '\U{0451}'        // ё
  const Ie: char := '\U{0435}'        // е
  const CapitalYo: char := '\U{0401}' // Ё

  /** `str.lower()` on one character, for the Latin, Latin-1 and Cyrillic
      capitals; every other character is left as it is. */
  function LowerChar(c: char): char {
    if 'A' <= c <= 'Z' then (c as int + 32) as char
    else if '\U{00C0}' <= c <= '\U{00DE}' && c != '\U{00D7}' then (c as int + 32) as char
    else if '\U{0410}' <= c <= '\U{042F}' then (c as int + 32) as char
    else if '\U{0400}' <= c <= '\U{040F}' then (c as int + 80) as char
    else c
  }

  predicate IsUpper(c: char) {
    'A' <= c <= 'Z' || ('\U{00C0}' <= c <= '\U{00DE}' && c != '\U{00D7}') || '\U{0400}' <= c <= '\U{042F}'
  }

  lemma LowerCharFacts(c: char)
    ensures !IsUpper(LowerChar(c))
    ensures !IsUpper(c) ==> LowerChar(c) == c
    ensures LowerChar(c) == Yo <==> c == Yo || c == CapitalYo
  {
  }

  function Lower(s: string): (r: string)
    ensures |r| == |s|
    ensures forall i :: 0 <= i < |s| ==> r[i] == LowerChar(s[i])
  {
    if s == [] then [] else [LowerChar(s[0])] + Lower(s[1..])
  }

  /** `s.replace('ё', 'е')`. */
  function FoldYo(s: string): (r: string)
    ensures |r| == |s|
    ensures forall i :: 0 <= i < |s| ==> r[i] == (if s[i] == Yo then Ie else s[i])
  {
    if s == [] then [] else [if s[0] == Yo then Ie else s[0]] + FoldYo(s[1..])
  }

  /** `prepare_to_search` (models.py:5-6). */
  function PrepareToSearch(s: string): (r: string)
    ensures |r| == |s|
    ensures forall i :: 0 <= i < |r| ==> r[i] != Yo && !IsUpper(r[i])
  {
    var r := FoldYo(Lower(s));
    forall i | 0 <= i < |r| ensures r[i] != Yo && !IsUpper(r[i]) {
      LowerCharFacts(s[i]);
    }
    r
  }

  /** Each character is normalised on its own: 'Ё' and 'ё' both become 'е',
      every capital becomes its small letter. */
  lemma PrepareToSearchPointwise(s: string, i: nat)
    requires i < |s|
    ensures PrepareToSearch(s)[i] == (if LowerChar(s[i]) == Yo then Ie else LowerChar(s[i]))
    ensures s[i] == CapitalYo || s[i] == Yo ==> PrepareToSearch(s)[i] == Ie
  {
    LowerCharFacts(s[i]);
  }

  /** Normalising twice is normalising once. */
  lemma PrepareToSearchIdempotent(s: string)
    ensures PrepareToSearch(PrepareToSearch(s)) == PrepareToSearch(s)
  {
    var once := PrepareToSearch(s);
    forall i | 0 <= i < |once| ensures PrepareToSearch(once)[i] == once[i] {
      LowerCharFacts(once[i]);
    }
  }

  /** Two strings that differ only in letter case and in 'ё' against 'е'
      normalise to the same search string. */
  lemma PrepareToSearchExamples()
    ensures PrepareToSearch("Заметка") == PrepareToSearch("заметка") == "заметка"
    ensures PrepareToSearch("ёлка") == PrepareToSearch("елка") == "елка"
    ensures PrepareToSearch("Ё") == "е"
  {
    PrepareNoteWord();
    PrepareTreeWord();
    assert PrepareToSearch("Ё")[0] == 'е';
  }

  lemma PrepareNoteWord()
    ensures PrepareToSearch("Заметка") == PrepareToSearch("заметка") == "заметка"
  {
    PrepareCapitalNote();
    PrepareSmallNote();
  }

  lemma PrepareCapitalNote()
    ensures PrepareToSearch("Заметка") == "заметка"
  {
    assert PrepareToSearch("Заметка")[0] == 'з';
  }

  lemma PrepareSmallNote()
    ensures PrepareToSearch("заметка") == "заметка"
  {
  }

  lemma PrepareTreeWord()
    ensures PrepareToSearch("ёлка") == PrepareToSearch("елка") == "елка"
  {
    assert PrepareToSearch("ёлка")[0] == 'е';
  }

  // ---------------------------------------------------------------------
  // Note rows
  // ---------------------------------------------------------------------

  /** One row of the note table; `storage` is the owning storage's uuid. */
  datatype Note = Note(title: string, content: string, searchTitle: string, searchContent: string, storage: string)

  /** `Note.fetch_search_fields` (models.py:20-22): recompute the two search
      columns, leave every other field as it was. */
  function FetchSearchFields(n: Note): (r: Note)
    ensures r.title == n.title && r.content == n.content && r.storage == n.storage
    ensures r.searchTitle == PrepareToSearch(n.title)
    ensures r.searchContent == PrepareToSearch(n.content)
  {
    n.(searchTitle := PrepareToSearch(n.title), searchContent := PrepareToSearch(n.content))
  }

  /** A note row as the adapters create it: text given, search columns derived. */
  function NewNote(title: string, content: string, storage: string): (r: Note)
    ensures SearchFieldsCurrent(r) && r.title == title && r.content == content && r.storage == storage
  {
    FetchSearchFields(Note(title, content, "", "", storage))
  }

  predicate SearchFieldsCurrent(n: Note) {
    n.searchTitle == PrepareToSearch(n.title) && n.searchContent == PrepareToSearch(n.content)
  }

  /** `{'title': ..., 'content': ...}` of a row. */
  function AsRec(n: Note): Rec {
    Rec(n.title, n.content)
  }

  /** The constraint the database enforces: `title` is unique across the
      whole table. */
  predicate TitlesUnique(rows: seq<Note>) {
    forall i, j :: 0 <= i < j < |rows| ==> rows[i].title != rows[j].title
  }

  /** The table invariant every adapter keeps: unique titles, and search
      columns derived from the current title and content. */
  predicate WellFormedTable(rows: seq<Note>) {
    TitlesUnique(rows) && forall i :: 0 <= i < |rows| ==> SearchFieldsCurrent(rows[i])
  }

  /** The declared `max_length` of the title column. SQLite, the configured
      database, does not enforce it, so it is not part of the invariant. */
  predicate TitleWithinDeclaredLength(n: Note) {
    |n.title| <= TitleMaxLength
  }

  // ---------------------------------------------------------------------
  // Storage configuration records
  // ---------------------------------------------------------------------

  /** `NoteStorageServiceModel`. */
  datatype StorageRecord = StorageRecord(
    service: string,
    credentials: map<string, string>,
    description: string,
    isDefault: bool,
    user: nat,
    source: string,
    uuid: string)

  /** A record created with only its required fields: the defaults are an
      empty credential bundle, an empty description and `is_default` off. */
  function NewStorageRecord(service: string, user: nat, source: string, uuid: string): (r: StorageRecord)
    ensures !r.isDefault && r.description == "" && r.credentials == map[]
    ensures r.service == service && r.user == user && r.source == source && r.uuid == uuid
  {
    StorageRecord(service, map[], "", false, user, source, uuid)
  }

  /** The declared constraints of the storage table: `source` unique and at
      most 30 characters, `service` at most 30, `description` at most 100. */
  predicate WellFormedStorages(recs: seq<StorageRecord>) {
    && (forall i, j :: 0 <= i < j < |recs| ==> recs[i].source != recs[j].source)
    && (forall i :: 0 <= i < |recs| ==>
          |recs[i].source| <= SourceMaxLength && |recs[i].service| <= ServiceMaxLength
          && |recs[i].description| <= DescriptionMaxLength)
  }
}
