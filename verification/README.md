# Note storage of django-sy-notes, modelled in Dafny

django-sy-notes keeps Markdown notes in interchangeable storages. A
storage record (`NoteStorageServiceModel`) names a service, its
credentials and a `source` code. `get_storage_service` resolves the
record for a requester and builds the matching adapter. All adapters
share one interface: `get`, `add`, `edit`, `delete`, `get_list`,
`search`, `clear`, and the batch pair `add_to_portion`/`commit`.

This project models that layer:

- **The relational adapter.** Rows of one `Note` table, scoped to a
  storage. Titles are unique across the whole table. The search columns
  are normalised by `prepare_to_search`.
- **The Firestore adapter** and its relational backup mixin.
- **The Typesense adapter.** `TypesenseAdapter` also stands for the
  legacy `UploaderTypesense` (note/load_from_github.py:112-170), whose
  schema and methods are the same code.
- **The read-only GitHub archive adapter.**
- **The registry** that resolves storages and names adapter classes.
- **The copy engine** (`run_initiator`), which moves notes between
  storages in portions.
- **The legacy loader** it replaced.
- **The request serializers and the file-name validator.**
- **The handlers** of the web editor and of the REST API that guard each
  storage call.
- **Smaller pieces**: the note hook, the wiki-link Markdown extension
  and the `gen_storage_list` command.

Each source file is one module:

| module | file |
|---|---|
| `Relational` | `relational.dfy` |
| `Firestore` | `firestore.dfy` |
| `Backup` | `backup.dfy` |
| `Typesense` | `typesense.dfy` |
| `Github` | `github.dfy` |
| `BaseAdapter` | `base_adapter.dfy` |
| `Registry` | `registry.dfy` |
| `Copy` | `copy.dfy` |
| `LegacyLoader` | `legacy_loader.dfy` |
| `Models` | `models.dfy` |
| `Serializers` | `serializers.dfy` |
| `Validators` | `validators.dfy` |
| `Views` | `views.dfy` |
| `ViewsApi` | `views_api.dfy` |
| `Hooks` | `hooks.dfy` |
| `WikiLinks` | `wiki_links.dfy` |
| `StorageList` | `storage_list.dfy` |

Three modules are shared:

- `Common`: options, results and string helpers.
- `Paginator`: Django's paginator as the adapters use it.
- `TitleOrder`: ordering by title.

How the source's objects map to Dafny:

- **Objects whose fields change become classes.** This covers the
  adapters, which keep a pending portion, a cache or a counter. Their
  methods are proved against the functions that define each effect on
  the table or the collection.
- **Loops become methods with invariants.** This covers the copy loop,
  the push reconciliation, the archive walk, the front-matter scan and
  the export loop.
- **Pure code becomes functions and lemmas.**

Requests, the clock, HTTP, zip files, the database driver and URL
resolution are not executed. Their results are parameters:

- `get` is the resolved adapter's lookup.
- `urlOf` stands for `resolve_url`.
- `download` stands for the archive download.
- `getList` stands for a storage's page listing.

A reader should know six behaviours the proofs establish about the code
as written:

- `total_count_objects_to_count_pages` answers 0 when the count is an
  exact positive multiple of the page size. The copy engine reads
  `num_pages` from it. Once the Firestore adapter can be constructed
  (see "## Left out"), copying a Firestore storage that holds exactly
  100 notes therefore copies nothing and reports 0.
  `BaseAdapter.CountPagesAgainstPaginator` and
  `Copy.NoPagesCopiesNothing` prove this as written, and
  `BaseAdapter.CountPagesIntended` is the corrected count.
- `GithubAdapter.get_list` computes a page number per note with the same
  formula. Page `p` lists the notes at 1-based positions `(p-1)n+1`
  through `pn-1`, and the `pn`-th note appears on no page `p >= 1`.
- The API's `POST` guard checks only the requested storage. The title
  column is unique across all storages, so a title held by another
  storage passes the guard and is then refused by the database.
- The search API's default `page_number` is 0. Django's paginator
  refuses it.
- The web editor's access hook is never consulted for edits, because the
  editor signals `BEFORE_UPDATE`, which the hook does not handle.
- A copy ends at the first destination call that raises, and the import
  view then answers 500. Between two storages of the relational table
  this happens at the first commit of any non-empty copy: clearing the
  destination leaves the source's rows in the table, and titles are
  unique across the table. A GitHub destination has no `clear`, so a
  copy into it raises before anything is read.

The last four are stated by lemmas below.

## Model

| member | source | states |
|---|---|---|
| Models.PrepareToSearch | note/models.py:5-6 | in the modelled ranges (see Left out), the normalised text has the input's length and contains no capital letter and no `ё` |
| Models.Lower | note/models.py:6 | lower-casing of the modelled ranges maps every character independently and keeps the length |
| Models.FoldYo | note/models.py:6 | `ё` becomes `е` at every position and every other character is kept |
| Models.PrepareToSearchPointwise | note/models.py:5-6 | in the modelled ranges, each output character is the lower-cased input character with `ё` folded to `е`; `Ё` and `ё` both become `е` |
| Models.PrepareToSearchIdempotent | note/models.py:5-6 | normalising twice equals normalising once |
| Models.PrepareToSearchExamples | note/models.py:5-6 | `Заметка` and `заметка` normalise alike; `ёлка` and `елка` normalise alike |
| Models.FetchSearchFields | note/models.py:20-22 | the search columns become the normalised title and content, and nothing else changes |
| Models.NewNote | note/models.py:9-13 | a new row has the given title, content and storage, and current search columns |
| Models.NewStorageRecord | note/models.py:25-44 | a record created without optional fields has empty credentials, an empty description and `is_default` off |
| Paginator.NumPages | note/adapters/django_server_adapter.py:64 | at least one page, and the smallest count of pages that holds every item |
| Paginator.Page | note/adapters/django_server_adapter.py:65 | a number below 1 is refused before the page size is divided by; otherwise a page size of 0 divides by zero; with a positive size a page exists exactly for numbers 1..num_pages and is the slice of at most `perPage` items at offset (number-1)·perPage |
| Paginator.PagesUpToIsPrefix | note/adapters/django_server_adapter.py:64-65 | pages 1..k together are the first k·perPage items |
| Paginator.AllPagesCoverList | note/adapters/django_server_adapter.py:64-65 | reading every page in order gives back the whole list |
| Paginator.Window | note/load_from_github.py:226 | the `[offset:offset+limit]` slice holds min(limit, remaining) items, in order from the offset |
| TitleOrder.Insert | note/adapters/django_server_adapter.py:111 | inserting a row adds exactly that row to the multiset |
| TitleOrder.InsertSorted | note/adapters/django_server_adapter.py:111 | inserting into a title-sorted list keeps it sorted |
| TitleOrder.SortByTitle | note/adapters/django_server_adapter.py:111 | `order_by('title')` yields a title-sorted permutation of the rows |
| Relational.Scoped | note/adapters/django_server_adapter.py:18 | the queryset holds exactly the rows of the adapter's storage |
| Relational.Find | note/adapters/django_server_adapter.py:77-78 | the first in-scope row with the title, or none exists |
| Relational.FindUnique | note/models.py:10 | with unique titles, the row found is the only one with that title |
| Relational.Lookup | note/adapters/django_server_adapter.py:76-79 | `get` answers exactly when an in-scope row has the title, with that row's title and content |
| Relational.GetFindsTheRow | note/adapters/django_server_adapter.py:76-79 | with unique titles, `get` returns the row that carries the title |
| Relational.AddRow | note/adapters/django_server_adapter.py:81-86 | saving fails with a duplicate title exactly when any storage already holds the title; otherwise one row is appended |
| Relational.AddThenGet | note/adapters/django_server_adapter.py:81-86 | after `add`, `get` returns the new note, other titles read as before, and the table stays well formed |
| Relational.ClearRows | note/adapters/django_server_adapter.py:20-21 | `clear` removes exactly the rows in scope |
| Relational.ClearOnlyItsStorage | note/adapters/django_server_adapter.py:20-21 | clearing one storage empties it and leaves every other storage unchanged |
| Relational.ClearKeepsTableWellFormed | note/adapters/django_server_adapter.py:20-21 | clearing keeps titles unique and search columns current |
| Relational.ClearAll | note/load_from_github.py:181-183 | the legacy uploader's `clear` empties the whole table |
| Relational.PortionRows | note/adapters/django_server_adapter.py:23-31 | the staged rows carry the notes' titles, the adapter's storage and current search columns |
| Relational.CopiedTitleRefused | note/adapters/django_server_adapter.py:20-36 | once the destination storage is cleared, a portion that repeats the title of a row of any other storage is refused as a whole |
| Relational.CommitRows | note/adapters/django_server_adapter.py:33-36 | `bulk_create` appends the portion in order, or fails as a whole on a duplicate title |
| Relational.CommitThenGet | note/adapters/django_server_adapter.py:33-36 | after a commit, every committed note and every earlier note can be read back |
| Relational.Edited | note/adapters/django_server_adapter.py:91-101 | an edit that changes nothing leaves the row as it was; the search columns stay current; the storage is kept |
| Relational.EditAt | note/adapters/django_server_adapter.py:88-103 | an edit keeps the row count and fails only on a duplicate title |
| Relational.EditAtEffect | note/adapters/django_server_adapter.py:88-103 | `updated_fields` lists `title` and/or `content` exactly for the truthy values that differ, in that order; the edited row holds the new values; every other row is unchanged |
| Relational.EditRow | note/adapters/django_server_adapter.py:88-89 | `edit` fails with not-found exactly when `get` finds nothing |
| Relational.EditEffect | note/adapters/django_server_adapter.py:88-103 | after `edit`, the note reads back under its (new) title with its (new) content; the table stays well formed; only that row changes |
| Relational.EditContentOnly | note/adapters/django_server_adapter.py:95-101 | a content-only edit keeps the title and its search column |
| Relational.DeleteRow | note/adapters/django_server_adapter.py:105-107 | `delete` fails with not-found exactly when `get` finds nothing, and otherwise removes one row |
| Relational.DeleteEffect | note/adapters/django_server_adapter.py:105-107 | after `delete`, the title is gone, other titles read as before, and the table stays well formed |
| Relational.ListRows | note/adapters/django_server_adapter.py:109-113 | a page number below 1 is refused, then a page size of 0 divides by zero; otherwise a page exists for numbers 1..num_pages of the scope and holds at most count_on_page rows of the scope, sorted by title |
| Relational.ListPagesCoverScope | note/adapters/django_server_adapter.py:109-113 | the title-sorted pages together are a permutation of the storage's rows |
| Relational.ListNotes | note/adapters/django_server_adapter.py:109-120 | each listed note carries its title, content and URL; `num_pages` is the paginator's count for the scope |
| Relational.Term | note/adapters/django_server_adapter.py:50-56 | a search term is used exactly when it is truthy, and it is normalised |
| Relational.MatchesMeaning | note/adapters/django_server_adapter.py:49-62 | no term matches everything; one term matches inside the normalised title (or content); with both terms, `or` needs either and any other operator needs both |
| Relational.Matches | note/adapters/django_server_adapter.py:49-62 | with no truthy term every row matches; a name term alone matches exactly the rows whose search title contains the normalised term, and a content term alone likewise on the search content |
| Relational.MatchesNormalisedTerm | note/adapters/django_server_adapter.py:51 | searching for a term and for its normalised form give the same match |
| Relational.SearchMatches | note/adapters/django_server_adapter.py:58-62 | the filtered queryset holds exactly the in-scope rows that match |
| Relational.Project | note/adapters/django_server_adapter.py:67 | `values(*fields)` keeps exactly the requested columns, or all of them when none are named |
| Relational.SearchRows | note/adapters/django_server_adapter.py:58-65 | a page number below 1 is refused, then a page size of 0 divides by zero; otherwise the page of matches exists for numbers 1..num_pages and holds only matching in-scope rows |
| Relational.WithUrls | note/adapters/django_server_adapter.py:67-69 | attaching URLs fails with a missing key exactly when a non-empty page lacks the title column |
| Relational.SearchResult | note/adapters/django_server_adapter.py:38-71 | a successful search reports the match count and the paginator's page count, and gives every hit a URL |
| Relational.ContentOnlySearchFails | note/adapters/django_server_adapter.py:67-69 | a search for the `content` field alone fails whenever the page is not empty |
| Relational.WindowSearch | note/load_from_github.py:199-227 | the legacy search returns the full match count and the `[offset:offset+limit]` window of the matches |
| Relational.AttachUrls | note/adapters/django_server_adapter.py:68-69 | the URL loop computes `WithUrls` |
| Relational.DjangoServerAdapter.constructor | note/adapters/django_server_adapter.py:15-18 | the adapter is bound to its storage, with an empty portion |
| Relational.DjangoServerAdapter.Clear | note/adapters/django_server_adapter.py:20-21 | the table loses exactly the storage's rows |
| Relational.DjangoServerAdapter.AddToPortion | note/adapters/django_server_adapter.py:23-31 | one row with current search columns is queued and the table is unchanged |
| Relational.DjangoServerAdapter.Commit | note/adapters/django_server_adapter.py:33-36 | the portion is appended and emptied, or on a duplicate the table and portion stay as they were |
| Relational.DjangoServerAdapter.Get | note/adapters/django_server_adapter.py:76-79 | returns `Lookup` in the adapter's storage |
| Relational.DjangoServerAdapter.Add | note/adapters/django_server_adapter.py:81-86 | appends the new note unless the title is taken anywhere |
| Relational.DjangoServerAdapter.Edit | note/adapters/django_server_adapter.py:88-103 | the table becomes `EditRow`'s rows and the result is its updated fields, or the table is unchanged on error |
| Relational.DjangoServerAdapter.Delete | note/adapters/django_server_adapter.py:105-107 | the table becomes `DeleteRow`'s rows, or is unchanged on error |
| Relational.DjangoServerAdapter.GetList | note/adapters/django_server_adapter.py:109-120 | returns `ListNotes` for the storage |
| Relational.DjangoServerAdapter.Search | note/adapters/django_server_adapter.py:38-71 | returns `SearchResult` for the storage |
| Relational.UploaderDjangoServer.constructor | note/load_from_github.py:178-179 | the legacy uploader sees the whole table |
| Relational.UploaderDjangoServer.Clear | note/load_from_github.py:181-183 | empties the table |
| Relational.UploaderDjangoServer.AddToPortion | note/load_from_github.py:185-192 | queues one row without a storage |
| Relational.UploaderDjangoServer.Commit | note/load_from_github.py:194-197 | appends and empties the portion, or leaves both on a duplicate |
| Relational.UploaderDjangoServer.Search | note/load_from_github.py:199-227 | returns `WindowSearch` over the whole table |
| Relational.UploaderDjangoServer.Get | note/load_from_github.py:229-236 | returns `Lookup` over the whole table |
| Relational.UploaderDjangoServer.Add | note/load_from_github.py:238-243 | appends the note unless the title is taken |
| Relational.UploaderDjangoServer.Edit | note/load_from_github.py:245-261 | applies `EditRow` over the whole table |
| Relational.UploaderDjangoServer.Delete | note/load_from_github.py:263-266 | applies `DeleteRow` over the whole table |
| Backup.BClear | note/adapters/mixins.py:5-6 | the storage's backup rows are removed and all others kept |
| Backup.BAdd | note/adapters/mixins.py:8-14 | a title already backed up leaves the table unchanged |
| Backup.BAddEffect | note/adapters/mixins.py:8-14 | the backup fails only when another storage holds the title; afterwards the title is backed up; a second call changes nothing |
| Backup.BDelete | note/adapters/mixins.py:16-19 | a title not backed up leaves the table unchanged |
| Backup.BDeleteIdempotent | note/adapters/mixins.py:16-19 | after `b_delete`, the title is gone and a second `b_delete` changes nothing |
| Backup.BEditBase | note/adapters/mixins.py:23-29 | the row edited belongs to the storage, and earlier rows are kept (a missing row may be created first) |
| Backup.BEdit | note/adapters/mixins.py:21-42 | `b_edit` adds at most the one created row, never touches rows of other storages, and fails on the null title when neither the note nor a new title exists |
| Backup.BEditEffect | note/adapters/mixins.py:21-42 | after `b_edit`, the new title is backed up, with the new content when one is given |
| Backup.BEditCreates | note/adapters/mixins.py:23-29 | when neither title is backed up, `b_edit` creates the note under the new title |
| Backup.BEditWithoutNewTitle | note/adapters/mixins.py:25-29 | with the note missing and no new title, the created row has a null title and saving fails |
| Firestore.ReadDoc | note/adapters/firestore_adapter.py:40-42 | a document reads as missing exactly when no document has the id |
| Firestore.SetDoc | note/adapters/firestore_adapter.py:49 | `set` replaces a document or inserts it at its place in ascending id order |
| Firestore.SetDocAscending | note/adapters/firestore_adapter.py:49 | `set` keeps the collection in strictly ascending id order |
| Firestore.SetDocEffect | note/adapters/firestore_adapter.py:49 | after `set`, the id reads the written text, other ids read as before, and the ids stay in strictly ascending order |
| Firestore.ApplyWrites | note/adapters/firestore_adapter.py:35-37 | a batch commit adds at most one document per write and keeps the id order |
| Firestore.ApplyWritesEffect | note/adapters/firestore_adapter.py:35-37 | after a batch commit, each id reads its last write in the batch, or its old value |
| Firestore.EditDocsEffect | note/adapters/firestore_adapter.py:52-69 | a rename writes the new content under the new id and keeps the old document; otherwise nothing is written; `updated_fields` reports the rename and a changed content |
| Firestore.EditDocs | note/adapters/firestore_adapter.py:52-69 | `updated_fields` names `title` exactly on a rename and `content` exactly on a changed truthy content, in that order; the id order is kept |
| Firestore.ListDocs | note/adapters/firestore_adapter.py:71-81 | a page is the limit/offset window of the collection in ascending document-id order; `num_pages` is the as-written page count |
| Firestore.ListDocsInIdOrder | note/adapters/firestore_adapter.py:71-81 | every listed page is in strictly ascending document-id order |
| Firestore.ListedByIdNotByWrite | note/adapters/firestore_adapter.py:49-81 | a document written after another but with a smaller id is listed first |
| Firestore.FirestoreAdapter.constructor | note/adapters/firestore_adapter.py:13-20 | the adapter opens with no batch, over the given collection and backup table |
| Firestore.FirestoreAdapter.Close | note/adapters/firestore_adapter.py:22-23 | the app is closed and the data is untouched |
| Firestore.FirestoreAdapter.Clear | note/adapters/firestore_adapter.py:25-26 | only the backup is cleared |
| Firestore.FirestoreAdapter.AddToPortion | note/adapters/firestore_adapter.py:28-33 | a batch is started if needed and the write is queued |
| Firestore.FirestoreAdapter.Commit | note/adapters/firestore_adapter.py:35-37 | the queued writes are applied |
| Firestore.FirestoreAdapter.Get | note/adapters/firestore_adapter.py:39-45 | a missing document answers none; an existing one is backed up and returned |
| Firestore.FirestoreAdapter.Add | note/adapters/firestore_adapter.py:47-50 | the note is backed up, then written |
| Firestore.FirestoreAdapter.Edit | note/adapters/firestore_adapter.py:52-69 | the backup is edited, then the documents follow `EditDocs` |
| Firestore.FirestoreAdapter.GetList | note/adapters/firestore_adapter.py:71-81 | returns `ListDocs`: pages in ascending document-id order |
| Firestore.FirestoreAdapter.Delete | note/adapters/firestore_adapter.py:83-84 | only the backup row is deleted; the document stays |
| Typesense.SchemaSortsByIndex | note/adapters/typesense_adapter.py:12-20 | the schema sorts by the float field `index`, the same field the search orders by; the legacy `UploaderTypesense` does the same at note/load_from_github.py:117-126 |
| Typesense.StageIndexesConsecutive | note/adapters/typesense_adapter.py:44-47 | queued documents get consecutive indexes from the counter, in order; the legacy `UploaderTypesense` does the same at note/load_from_github.py:148-151 |
| Typesense.SortByIndexDesc | note/adapters/typesense_adapter.py:59 | `index:desc` gives a permutation in descending index order |
| Typesense.SearchIndex | note/adapters/typesense_adapter.py:54-66 | the query is the optional file name; fails exactly when the collection is missing; `count` is the number found and at most one page of results is returned |
| Typesense.SearchResultsRanked | note/adapters/typesense_adapter.py:54-66 | the results are the best-ranked matches by descending index, as title and content |
| Typesense.TypesenseAdapter.constructor | note/adapters/typesense_adapter.py:21-33 | the counter starts at 0 with an empty portion |
| Typesense.TypesenseAdapter.Clear | note/adapters/typesense_adapter.py:35-42 | the collection is recreated empty; the legacy `UploaderTypesense` does the same at note/load_from_github.py:139-146 |
| Typesense.TypesenseAdapter.AddToPortion | note/adapters/typesense_adapter.py:44-47 | the document is queued with the current index, and the index grows by one; the legacy `UploaderTypesense` does the same at note/load_from_github.py:148-151 |
| Typesense.TypesenseAdapter.Commit | note/adapters/typesense_adapter.py:49-52 | the portion is imported and emptied, or the call fails on a missing collection; the legacy `UploaderTypesense` does the same at note/load_from_github.py:153-156 |
| Typesense.TypesenseAdapter.Search | note/adapters/typesense_adapter.py:54-66 | returns `SearchIndex`; the legacy `UploaderTypesense` does the same at note/load_from_github.py:158-170 |
| Github.LoadCache | note/adapters/github_adapter.py:31-42 | a cached archive is reused; otherwise the download is stored and other entries are kept |
| Github.LoadCacheIdempotent | note/adapters/github_adapter.py:37-42 | a second load never changes the cache |
| Github.NotesOf | note/adapters/github_adapter.py:50-53 | the notes are at most the archive members |
| Github.NotesOfMembers | note/adapters/github_adapter.py:50-66 | a note is listed exactly when a non-directory `.md` member under the prefix carries it |
| Github.TitleIsBaseName | note/adapters/github_adapter.py:64 | a title never contains `/` |
| Github.Picked | note/adapters/github_adapter.py:55-61 | a page never holds more than `count_on_page` notes |
| Github.Kept | note/adapters/github_adapter.py:96-101 | under any operator but `and`, a note is kept exactly when neither term is found in it; with both terms empty, only `and` keeps notes |
| Github.PickedIsSlice | note/adapters/github_adapter.py:55-61 | page p is the slice of notes at 0-based positions [(p-1)n, pn-1) |
| Github.PageMembership | note/adapters/github_adapter.py:59-61 | note k lands on page p exactly when (p-1)n < k <= min(pn-1, total); multiples of n land on no page |
| Github.PageZeroListsMultiples | note/adapters/github_adapter.py:59-61 | with two per page, page 0 is accepted and lists notes 2 and 4 |
| Github.PageOneSkipsMultiple | note/adapters/github_adapter.py:59-61 | with two per page, page 1 lists only note 1, not note 2 |
| Github.ListArchive | note/adapters/github_adapter.py:44-68 | `get_list` returns the picked page and the as-written page count; a page size of 0 fails |
| Github.Selected | note/adapters/github_adapter.py:96-101 | the kept notes are those that pass the skip test |
| Github.Shape | note/adapters/github_adapter.py:103-110 | the note keeps exactly the requested keys, with the note's values |
| Github.Shapes | note/adapters/github_adapter.py:103-110 | every kept note is shaped, in order |
| Github.PageWithUrls | note/adapters/github_adapter.py:116-117 | URLs are attached, or a note without a title fails with a missing key |
| Github.SearchArchive | note/adapters/github_adapter.py:70-119 | a missing term fails; then a page number below 1 is refused and a page size of 0 divides by zero; otherwise the paginator's page of kept notes, shaped, with URLs, and the total and page counts |
| Github.PageOfShapes | note/adapters/github_adapter.py:103-113 | shaping then paging equals paging then shaping |
| Github.AndKeepsMatches | note/adapters/github_adapter.py:96-101 | under `and`, a note is kept exactly when every given term occurs in it |
| Github.OtherOperatorKeepsNonMatches | note/adapters/github_adapter.py:96-101 | under any other operator, a note is kept exactly when no term occurs in it, which is the inverse of a match |
| Github.GithubAdapter.constructor | note/adapters/github_adapter.py:18-22 | the adapter records owner, repo, branch and directory |
| Github.GithubAdapter.Get | note/adapters/github_adapter.py:27-29 | none exactly on a 404, else the title with the fetched text |
| Github.GithubAdapter.LoadArchive | note/adapters/github_adapter.py:31-42 | returns the cache path, which now holds the archive |
| Github.GithubAdapter.GetList | note/adapters/github_adapter.py:44-68 | loads the archive, then returns `ListArchive` |
| Github.GithubAdapter.Search | note/adapters/github_adapter.py:70-119 | a missing term fails before loading; otherwise loads and returns `SearchArchive` |
| Github.WalkPage | note/adapters/github_adapter.py:49-66 | the loop counts every note and picks the page |
| Github.WalkSearch | note/adapters/github_adapter.py:86-110 | the loop shapes exactly the kept notes, in order |
| Github.AddUrls | note/adapters/github_adapter.py:116-117 | the loop computes `PageWithUrls` |
| BaseAdapter.CountPages | note/adapters/base_adapter.py:11-12 | the count is non-zero exactly when the division leaves a remainder, and then it is the ceiling |
| BaseAdapter.CountPagesAgainstPaginator | note/adapters/base_adapter.py:12 | it equals the paginator's count when there is a remainder, and is 0 for an exact positive multiple |
| BaseAdapter.CountPagesIs | note/adapters/base_adapter.py:12 | a positive answer p means (p-1)n < count < pn |
| BaseAdapter.CountPagesIntended | note/adapters/base_adapter.py:11-12 | the corrected count is 0 only for no objects, is the ceiling otherwise, and equals the paginator's count |
| BaseAdapter.CountPagesExamples | note/adapters/base_adapter.py:12 | 20 at 10 per page gives 0; 21 gives 3; 1050 at 100 gives 11 |
| BaseAdapter.Dispatch | note/adapters/base_adapter.py:5-45 | an operation falls to a stub, a missing attribute or the no-op `close` exactly when the adapter does not define it |
| BaseAdapter.Unsupported | note/adapters/base_adapter.py:7-45 | only the inherited `close` succeeds without an override |
| BaseAdapter.GithubIsReadOnly | note/adapters/base_adapter.py:26-41 | the GitHub adapter refuses `add`, `edit` and `delete`, lacks `clear`, and closes as a no-op |
| BaseAdapter.TypesenseIsWriteOnly | note/adapters/base_adapter.py:18-45 | the Typesense adapter refuses every documented read or write of single notes |
| Registry.FirstMatch | note/adapters/__init__.py:101-105 | `.first()` gives the first matching record, or none matches |
| Registry.Resolve | note/adapters/__init__.py:95-110 | the requested record when one exists, else the default source's record, else a configuration error |
| Registry.ResolveOrder | note/adapters/__init__.py:99-108 | an owner's source, an owner's default, and an anonymous request by source each reach that record; an unknown owned source falls back to the default |
| Registry.ResolveFallsBackToDefault | note/adapters/__init__.py:100-110 | another user's source is not reached by a signed-in user, but is reached anonymously |
| Registry.ResolveBySourceIsUnique | note/adapters/__init__.py:105 | with unique sources, an anonymous request reaches exactly the named record |
| Registry.DropLast | note/adapters/__init__.py:84 | the result is a prefix of the name, k characters shorter; it is empty when k is 0 or beyond the length, as Python's `s[:-0]` is |
| Registry.ServiceNameToClass | note/adapters/__init__.py:90-91 | a class is found exactly when some global adapter class, without its `Adapter` suffix, is the service name, and the class found maps back to that name; otherwise a missing key |
| Registry.GlobalClassesNamedWithSuffix | note/adapters/__init__.py:84-91 | every global adapter class name is its service name followed by `Adapter` |
| Registry.UnbuildableService | note/adapters/__init__.py:90-118 | `Base`, `Firestore` and `Typesense` resolve to their classes, which are neither the relational nor the GitHub adapter |
| Registry.GetServiceNames | note/adapters/__init__.py:80-87 | one pair per subclass, in order: the name without `Adapter`, and the class or its verbose name |
| Registry.ServiceNamesRoundTrip | note/adapters/__init__.py:80-91 | every listed service name maps back to its class |
| Registry.BaseServiceName | note/adapters/__init__.py:90-91 | `Base` also resolves (to the base class), and lower-case names do not |
| Registry.Open | note/adapters/__init__.py:112-118 | only the relational adapter with no credentials and the GitHub adapter with exactly its four keywords are built; a resolved `Base`, `Firestore` or `Typesense` record fails with a TypeError from the constructor; a relational record without credentials opens |
| Registry.Handle.constructor | note/adapters/__init__.py:118 | a fresh adapter handle has not been closed |
| Registry.Handle.Close | note/adapters/__init__.py:121-122 | closing is counted |
| Registry.WithStorageService | note/adapters/__init__.py:94-122 | on success, the body runs on the built adapter, which is closed exactly once; on failure, including a constructor that raises, nothing is built and the body does not run |
| Copy.Requests | note/adapters/__init__.py:62-63 | page 1 is requested once, then pages 2..num_pages in order |
| Copy.StopMeaning | note/adapters/__init__.py:55-77 | a copy that stopped is a prefix of its full trace, all of it when nothing raised; otherwise its last destination call raised and every call before it completed |
| Copy.StopExtends | note/adapters/__init__.py:55-77 | once a destination call raised, the events that would have followed change nothing |
| Copy.NothingRaises | note/adapters/__init__.py:60-75 | a destination whose `clear` and commits all succeed sees the whole copy |
| Copy.ClearRaises | note/adapters/__init__.py:60 | a `clear` that raises ends the copy before anything is read or staged |
| Copy.FirstCommitRaises | note/adapters/__init__.py:64-75 | a destination refusing the first commit stops the copy there: the first portion (or every note, when fewer) staged, one commit, nothing yielded |
| Copy.StageNote | note/adapters/__init__.py:65-72 | staging one note extends the copy exactly as the staging function does, unless it fills the portion and the commit is refused, which raises after that commit |
| Copy.StagePage | note/adapters/__init__.py:64-72 | the inner loop extends the copy trace exactly as if the page were appended to the notes read so far; a refused commit stops it, its trace then a prefix of that extension |
| Copy.CopyPage | note/adapters/__init__.py:62-64 | one pass of the outer loop reads its page and stages it after the pages before it, or stops at a refused commit |
| Copy.CopyPages | note/adapters/__init__.py:62-72 | pages 1..num_pages are staged in order with the pages requested as above; a refused commit ends the whole copy there, after a prefix of those requests |
| Copy.FinishRun | note/adapters/__init__.py:74-77 | after the loop a non-empty leftover portion is committed, which raises exactly when the destination refuses it; otherwise the total is yielded |
| Copy.RunInitiator | note/adapters/__init__.py:55-77 | the events and whether the copy raised are the full copy trace (`clear`, then every note read) stopped at the first destination call that raises; the pages requested are a prefix of the listing order above, all of it when nothing raised |
| Copy.CopyStepsInvariant | note/adapters/__init__.py:64-73 | during the copy, the pending portion is below the maximum, committed plus pending is the number read, and the reports are the multiples of the maximum |
| Copy.CopyStepsClosedForm | note/adapters/__init__.py:64-73 | after n notes, n div max portions are committed and n mod max are pending, and every note is staged in order |
| Copy.CopyEventsRead | note/adapters/__init__.py:55-77 | the copy stages every note in order, commits ceil(n/max) times, and reports each full portion then n |
| Copy.CopyEvents | note/adapters/__init__.py:55-77 | the trace is never empty; with a positive portion size it stages exactly the notes in order, never clears, and ends by reporting their number |
| Copy.ReportsNonDecreasing | note/adapters/__init__.py:72-77 | reported totals never decrease and the last one is the number of notes |
| Copy.ReportExamples | note/adapters/__init__.py:68-77 | 1050 notes at 400 per portion report 400, 800, 1050; 800 notes report 800 twice |
| Copy.NoPagesCopiesNothing | note/adapters/__init__.py:62-63 | a source reporting 0 pages copies nothing; once the Firestore adapter can be constructed, a Firestore source holding an exact multiple of 100 documents reports 0 pages |
| LegacyLoader.RootUrl | note/load_from_github.py:16-24 | the raw or page host, ending in `/main` and the directory |
| LegacyLoader.RootUrlsDiffer | note/load_from_github.py:22-24 | the raw and page URLs always differ |
| LegacyLoader.RootUrlNamesRepository | note/load_from_github.py:16-24 | for owners without `/`, two equal roots of the same kind name the same owner and the same repository |
| LegacyLoader.ArchiveItems | note/load_from_github.py:32-42 | at most one item per member |
| LegacyLoader.DownloadFromArchive | note/load_from_github.py:27-42 | the loop yields `ArchiveItems` |
| LegacyLoader.ArchiveItemsMembers | note/load_from_github.py:32-42 | an item is yielded exactly for a non-directory member under the prefix, of any extension, so it includes every note the GitHub adapter lists |
| LegacyLoader.DownloaderNamed | note/load_from_github.py:270 | only `github_archive` and `github_directory` name a downloader |
| LegacyLoader.StageStream | note/load_from_github.py:275-282 | the loop's portion, total and events are those of staging the stream note by note, committing and reporting at each full portion; a refused commit stops it, its events then a prefix of those |
| LegacyLoader.RunInitiator | note/load_from_github.py:269-287 | clears, then produces the copy engine's portioned trace, stopped at the first uploader call that raises |
| LegacyLoader.TitleFromShape | note/load_from_github.py:291 | `str.title()` keeps length and letters, capitalises the first letter of each run, and lower-cases the rest |
| LegacyLoader.Title | note/load_from_github.py:291 | `str.title()` keeps the length and which positions hold letters, and leaves no capital after a letter |
| LegacyLoader.RemoveUnderscoresShape | note/load_from_github.py:291 | removing underscores leaves none and keeps a string without them |
| LegacyLoader.UploaderClassName | note/load_from_github.py:291 | the class name starts with `Uploader` and holds no underscore after it |
| LegacyLoader.GetUploader | note/load_from_github.py:290-292 | the name resolves to `Uploader` plus its title-cased form without underscores, when that global exists |
| LegacyLoader.GetServiceNames | note/load_from_github.py:295-302 | one pair per uploader: the name after `Uploader`, and the verbose name |
| LegacyLoader.ClassNameFrom | note/load_from_github.py:291 | composes the class name from its three steps |
| LegacyLoader.ExampleClassNames | note/load_from_github.py:291 | `django_server` gives `UploaderDjangoServer`, but `DjangoServer` gives `UploaderDjangoserver` |
| LegacyLoader.NotAGlobalName | note/load_from_github.py:291-292 | `UploaderDjangoserver` is not defined |
| LegacyLoader.ServiceNamesDoNotAllMapBack | note/load_from_github.py:290-302 | the listed name `DjangoServer` does not resolve back, while `Firestore` and `Typesense` do |
| Serializers.CharField | note/serializers.py:5-7 | a given value is trimmed; a blank value, one over `max_length` or one holding the null character is invalid; an absent one stays absent |
| Serializers.CharFieldIdempotent | note/serializers.py:5-7 | re-validating a cleaned value gives the same value |
| Serializers.ChoiceField | note/serializers_api.py:33-38 | an absent value takes the default; a given value is accepted exactly when it is a choice |
| Serializers.IntegerField | note/serializers_api.py:39-44 | an absent value takes the default; a given value is accepted exactly within its bounds |
| Serializers.WebEditMeaning | note/serializers.py:4-13 | the web edit is valid exactly when each field is valid and a new title or content is given; the data is the trimmed values, free of the null character |
| Serializers.ValidateWebEdit | note/serializers.py:4-13 | accepted data holds a truthy new title or content within the length limits; a body with neither is refused |
| Serializers.WebEditBlankRefused | note/serializers.py:6 | a blank new title is refused on its own field |
| Serializers.WebEditIdempotent | note/serializers.py:4-13 | validated data validates to itself |
| Serializers.SearchDomains | note/serializers_api.py:33-53 | accepted search parameters lie in their declared domains and keep the given values; out-of-range numbers are refused |
| Serializers.ValidateSearch | note/serializers_api.py:33-53 | accepted parameters lie in their declared domains; a refusal names at least one field |
| Serializers.SearchDefaults | note/serializers_api.py:33-53 | the defaults are title, or, 10, page 0, all |
| Serializers.ValidateAdd | note/serializers_api.py:56-57 | the content is required, trimmed, non-blank, at most 20000 characters and free of the null character |
| Serializers.ApiEditKeys | note/serializers_api.py:64-72 | the API edit's validated data is keyed `title`/`content`, never `new_title`/`new_content`, and is refused when neither is given |
| Serializers.ValidateApiEdit | note/serializers_api.py:64-72 | accepted data has one or two keys among `title` and `content`; a body with neither value is refused as a whole |
| Serializers.ApiEditRefusesNull | note/serializers_api.py:64-72 | no accepted value holds the null character |
| Validators.FirstOccurring | note/validators.py:19-25 | the first forbidden symbol, in list order, that occurs in the value, or none occurs |
| Validators.Validate | note/validators.py:13-32 | a reported symbol is forbidden and occurs in the value; a trailing-dot refusal means the value ends with `.`; an accepted value has neither |
| Validators.ValidateOutcomes | note/validators.py:13-32 | a forbidden symbol anywhere rejects (the earliest in the list is reported); else a trailing dot rejects; else the value is accepted |
| Validators.SymbolsDistinct | note/validators.py:11 | the forbidden symbols are pairwise distinct |
| Validators.ValidateReportsListOrder | note/validators.py:19-25 | `:a/` reports `/`, which comes first in the list, not `:`, which comes first in the value |
| Validators.NoForbiddenCharacter | note/validators.py:27-32 | without a forbidden symbol, only the trailing dot matters |
| Validators.ValidateExamples | note/validators.py:13-32 | `note.` is refused for its dot; the empty name is accepted |
| Validators.Eq | note/validators.py:34-38 | the answer is NotImplemented exactly when the other object is not a validator; otherwise the two are equal exactly when they are the same validator |
| Validators.EqIsAttributeEquality | note/validators.py:34-38 | equality is reflexive, symmetric and coincides with equal attributes |
| Views.Closing | note/views.py:59-63 | the YAML block ends at the first later `---` line, or runs to the end |
| Views.SeparateYaml | note/views.py:52-68 | the scanning loop computes the front-matter split |
| Views.SeparatedText | note/views.py:55-68 | the text has YAML exactly when its first line is the fence; without it the body is the text; the YAML is a prefix of the text |
| Views.Separated | note/views.py:52-68 | the same of the stripped content |
| Views.WithoutFrontMatter | note/views.py:55-68 | text not opening with a fence is returned stripped, with no YAML |
| Views.FrontMatterRoundTrip | note/views.py:52-68 | a note written as fence, YAML, fence, body splits back into that YAML and the stripped body |
| Views.UnclosedFrontMatter | note/views.py:55-66 | an unclosed front matter takes the whole text as YAML and leaves an empty body |
| Views.ScanYaml | note/views.py:56-61 | the loop computes `yaml_length`: 4 plus the length and line break of every line before the closing fence |
| Views.RecordFiles | note/views.py:128-149 | the loop over one action's files applies the set updates and logs the files under the prefix |
| Views.RecordCommitFiles | note/views.py:128-149 | one commit's removed, added and modified files are applied in that order |
| Views.ReconcilePush | note/views.py:123-149 | the reconciled sets and the per-commit log of the whole push |
| Views.RecordAllProvenance | note/views.py:128-149 | a file enters a set only from its own action under the prefix, and `added` grows exactly so |
| Views.ReconciledProvenance | note/views.py:123-149 | every file to remove, refresh or create was listed under that action by some commit |
| Views.RecordAll | note/views.py:129-149 | applying one action's files keeps every scheduled file under the prefix |
| Views.RecordCommit | note/views.py:128-149 | applying one commit keeps every scheduled file under the prefix |
| Views.Reconciled | note/views.py:123-149 | every file scheduled for removal, refresh or creation lies under the prefix |
| Views.RecordAllFrame | note/views.py:128-149 | files not mentioned keep their membership |
| Views.RecordAllRemoves | note/views.py:134-141 | a removed file is scheduled for removal and no longer for refresh |
| Views.LastRemovalWins | note/views.py:126-149 | a file only removed by the last commit ends up removed and not refreshed |
| Views.PushHook | note/views.py:110-175 | only push events answer; a foreign repository gets the no-access answer; any change under the prefix reaches the apply step |
| Views.PushHookFailsOnAddedFile | note/views.py:151-154 | a push adding a file under the prefix always reaches the apply step, which names an undefined uploader |
| Views.WebPut | note/views.py:239-277 | with the argument list corrected (see Left out), the web edit runs exactly when signed in, valid, not reserved, found, and not renamed onto another note; otherwise the status is 401, 400 or 404 |
| Views.WebPutAsWritten | note/views.py:239-256 | as written, a signed-in request with a valid body and a non-reserved title ends in a server error at `data['source']`, and no storage is called |
| Views.WebPutAsWrittenNeverEdits | note/views.py:239-256 | whenever the corrected handler would edit, the handler as written fails with 500 instead; on every other status the two agree |
| Views.WebPost | note/views.py:279-306 | the web create runs exactly when signed in and the title is free; a taken title gives 400 |
| Views.WebPutReservedIgnoresStorage | note/views.py:252-254 | a reserved title is refused before any storage is consulted |
| Views.WebPutGuardsRelationalEdit | note/views.py:261-269 | an edit that passes the guards never hits not-found, and a rename target is free in the storage |
| Views.ArchiveEntry | note/views.py:427 | the entry is `<source>/<title>.md` with the note's content |
| Views.ArchiveEntries | note/views.py:426-427 | one entry per note, in order |
| Views.WritePage | note/views.py:425-427 | the loop appends one entry per note of the page |
| Views.ExportArchive | note/views.py:415-429 | nothing is written for a source that resolves elsewhere; otherwise the pages 1..num_pages are read once and every note is archived |
| Views.ExportNames | note/views.py:427 | the i-th entry is named by the i-th note's title |
| Views.ExportOfUncountedStore | note/views.py:422-429 | a listing reporting 0 pages still exports page 1 |
| Views.ImportExportPost | note/views.py:446-469 | anonymous gives 401; a copy answers 500 when it raised and otherwise reports the last yielded total; clear runs only when the resolved storage has the requested source, and answers 500 when it raises; other commands give 400 |
| Views.CopyReportsNoteCount | note/views.py:453-457 | the copy answers 200 exactly when no destination call raised, and then reports the number of notes copied |
| Views.RelationalCopyFails | note/views.py:453-457 | a copy between two storages of the relational table whose first note has the title of a row outside the destination answers 500, with nothing yielded |
| Views.ClearFallsBackToDefault | note/views.py:458-464 | a user without the storage clears exactly when asking for the default source |
| ViewsApi.SearchArguments | note/views_api.py:84-88 | `search-by` decides which terms are passed; `all` fields means title and content |
| ViewsApi.ApiSearch | note/views_api.py:75-108 | invalid parameters are refused; otherwise the adapter's page, counts and the request's paging are returned |
| ViewsApi.DefaultSearchFails | note/views_api.py:90-98 | a search with default parameters asks the relational store for page 0 and fails |
| ViewsApi.RelationalSearchMeaning | note/views_api.py:90-106 | a successful relational search reports the match count and page count for at most 100 results per page |
| ViewsApi.RelationalSearch | note/views_api.py:90-106 | a successful search had a positive page size and returns at most that many hits; a page number below 1 is refused first; otherwise a page size of 0 fails with a division by zero, and the API only passes sizes of at least 1 |
| ViewsApi.ContentFieldSearchFails | note/views_api.py:88-98 | requesting only `content` fails with a missing key whenever something matches |
| ViewsApi.ApiGet | note/views_api.py:125-135 | not-found exactly when `get` finds nothing; otherwise the note with its source |
| ViewsApi.ApiGetRelational | note/views_api.py:127-133 | the relational note returned carries the requested title |
| ViewsApi.ApiPost | note/views_api.py:147-164 | invalid content or a reserved title gives 400; a taken title gives 422; otherwise the trimmed content is added (204) |
| ViewsApi.ApiPostThenGet | note/views_api.py:157-162 | after an accepted create, `get` returns the new note |
| ViewsApi.PostPassesGuardYetColumnRefuses | note/views_api.py:158-162 | a title held by another storage passes the 422 guard, and the save then fails as a duplicate |
| ViewsApi.ApiDelete | note/views_api.py:214-227 | a reserved title gives 400, a missing note 404, else delete (204) |
| ViewsApi.ApiDeleteRelational | note/views_api.py:220-225 | an accepted delete succeeds and the title is gone |
| ViewsApi.PutWith | note/views_api.py:186-201 | the edit runs exactly when neither title is reserved, the note exists and no other note holds the new title; otherwise 400, 404 or 422 |
| ViewsApi.ApiPutAsWrittenIgnoresBody | note/views_api.py:187-201 | as written, every accepted edit calls `edit(title, None, None)`, which changes nothing |
| ViewsApi.ApiPutAsWritten | note/views_api.py:186-201 | as written, an edit is always `edit(title, None, None)` with 204, and it runs whenever the title is free of the dot, the note exists and the body is valid |
| ViewsApi.ApiPut | note/views_api.py:176-203 | invalid data gives 400 |
| ViewsApi.ApiPutCarriesBody | note/views_api.py:176-203 | with the corrected keys, the edit carries the trimmed new title and content, and a reserved new title gives 400 |
| ViewsApi.ApiPutRelational | note/views_api.py:193-201 | an accepted edit never hits not-found, and with both values the note reads back under the new title |
| Hooks.LinkTarget | utils/hooks.py:26 | `link_to` when non-empty, else the project source without its dot, else none |
| Hooks.NoteHook | utils/hooks.py:13-29 | web edits and creations are refused exactly without access; a web creation is linked exactly when a target exists |
| Hooks.OtherLifecyclesIgnored | utils/hooks.py:13-29 | every other lifecycle and every API call has no effect |
| Hooks.EditSignalIsNotChecked | utils/hooks.py:14 | the editor's update signal is never checked, even for an anonymous request on a foreign source |
| Hooks.AccessMeaning | utils/hooks.py:9-10 | the owner always has access; anyone has access to the default source; anyone else is refused |
| Hooks.HasAccess | utils/hooks.py:9-10 | the default source is open to all; an anonymous requester reaches only it; an authenticated one reaches another source exactly as its owner |
| Hooks.ProjectLink | utils/hooks.py:26 | `.project-42` links to `project-42` unless `link_to` is given |
| WikiLinks.HandleMatch | utils/md_extensions/wiki_links.py:12-19 | the match's span is kept; the link targets its own title; no title group gives an empty title; no text group makes the text the title; the text is empty only when the title is |
| WikiLinks.TextFallsBackToTitle | utils/md_extensions/wiki_links.py:17 | with no text, or a bare bar, the text is the title |
| WikiLinks.SpaceAfterBarKept | utils/md_extensions/wiki_links.py:14-17 | `[[a\| b]]` reads ` b`, because the group is stripped before its bar is dropped |
| WikiLinks.EscapedBarInText | utils/md_extensions/wiki_links.py:13-17 | `\|` in the text reads as a bar |
| WikiLinks.DocumentedEscapedText | utils/md_extensions/wiki_links.py:33-42 | the documented `[[note link\|тест\\\|ик]]` reads `тест\|ик` |
| WikiLinks.EscapedBarInTitle | utils/md_extensions/wiki_links.py:34-43 | the documented `[[note link \\\|here\|тест]]` links to `note link \|here` |
| StorageList.Lines | note/management/commands/gen_storage_list.py:18-22 | the heading, an empty line, and one link per listed storage, in order |
| StorageList.ListedStorages | note/management/commands/gen_storage_list.py:13-17 | exactly the records of the default service are listed |
| StorageList.BuildLines | note/management/commands/gen_storage_list.py:18-22 | the loop computes `Lines` |
| StorageList.Generate | note/management/commands/gen_storage_list.py:12-32 | prints the number of listed storages and upserts the list note into the default storage |
| StorageList.SplitJoin | note/management/commands/gen_storage_list.py:26 | joining one-line parts with newlines splits back into the parts |
| StorageList.ContentLines | note/management/commands/gen_storage_list.py:26-32 | the note's lines are the built lines, so the printed count is the number of links |
| StorageList.ContentStartsWithHeading | note/management/commands/gen_storage_list.py:18-26 | the note's content starts with the heading |
| StorageList.PublishedThenGet | note/management/commands/gen_storage_list.py:24-30 | after the upsert, the note reads back with the content; it fails only when another storage holds the title |
| StorageList.PublishIdempotent | note/management/commands/gen_storage_list.py:24-30 | running the command twice leaves the table as the first run left it |
| StorageList.ListTitleReserved | note/management/commands/gen_storage_list.py:25 | the list note's title is reserved: the API cannot create, edit or delete it |
| StorageList.Publish | note/management/commands/gen_storage_list.py:24-30 | edits the list note when the default storage has it, adds it otherwise; the table stays well formed |
| StorageList.Published | note/management/commands/gen_storage_list.py:24-30 | an existing list note is edited in place; otherwise one row is added, and the add fails exactly when the title is taken |
| StorageList.PublishSameContent | note/management/commands/gen_storage_list.py:24-30 | upserting the content the storage already holds leaves the table unchanged |

## Left out

- HTTP, zip archives, YAML parsing, Markdown rendering, `print` output,
  the clock and the Firestore and Typesense clients are not executed.
  Their results are parameters. `resolve_url` becomes `urlOf`.
  `unquote`/`quote` are left out: titles are taken already decoded.
- The `Note` model in `note/models.py` declares no storage column, and
  `NoteStorageServiceModel` declares no `uuid`. The adapters use both
  (`storage_uuid=`, `storage=`, `storage.uuid`), so the model gives each
  row a `storage` and each record a `uuid`.
- The class-level `portion = []` of the relational and Typesense
  adapters is one list shared by every instance. The model gives each
  adapter its own portion, so cross-instance aliasing is not captured.
- Some code cannot run as written, so its calls are not modelled as
  behaviour:
  - `note/views.py` imports names that do not exist: from
    `note.serializers`, `ERROR_NAME_MESSAGE`, `NoteCreateViewSerializer`
    and `NoteStorageServiceSerializer` (note/views.py:32-37); from
    `utils.constants`, `BEFORE_CREATE_GETTING_ADAPTER`,
    `BEFORE_OPEN_CREATE_PAGE`, `BEFORE_OPEN_VIEW_PAGE` and
    `BEFORE_UPDATE_GETTING_ADAPTER` (note/views.py:38-48).
  - `note/views_api.py` imports `ERROR_NAME_MESSAGE` from
    `note.serializers` (note/views_api.py:13), which does not define it,
    so the whole API module fails to import.
  - The web edit reads `data['source']` (note/views.py:256), a key its
    serializer never produces, so it raises `KeyError` before any
    storage call; `Views.WebPutAsWritten` models that.
  - `note_hook` is called with three arguments where it takes five.
  - `FirestoreAdapter.add` passes three arguments to `b_add`.
  - `TypesenseAdapter.__init__` calls `super().__init__(storage)`.
  - `FirestoreAdapter.__init__` calls `super().__init__(storage)`
    (note/adapters/firestore_adapter.py:14). The call reaches
    `object.__init__` through the mixin, which raises `TypeError`.
    `BaseAdapter` takes no uuid either, and `get_storage_service`
    passes the uuid to every class (note/adapters/__init__.py:118), so
    `Registry.Open` fails with `WrongArguments` for `Base`, `Firestore`
    and `Typesense`.
  - `standart_has_access` reads `adapter.storage.user`
    (utils/hooks.py:10). No adapter has a `storage` with a `user`, so
    the hook raises `AttributeError`; see `Hooks.HasAccess` below.
  - `note_hook_old` names `UploaderGithub`, which is not defined.
  The handlers are modelled from their guards onwards. For
  `note_hook_old`, `Views.PushHook` ends in a failed outcome once there
  is anything to apply.
- Firestore.FirestoreAdapter.constructor: the adapter is modelled as if
  its constructor ran to the end. As written it raises `TypeError` at
  `super().__init__(storage)` (note/adapters/firestore_adapter.py:14),
  so every Firestore operation is modelled for a repaired constructor.
- Typesense.TypesenseAdapter.constructor: modelled as if it ran to the
  end. As written it raises `TypeError` at `super().__init__(storage)`,
  as the Firestore constructor does; the legacy `UploaderTypesense`
  constructor has no such call.
- Backup.BClear, Backup.BAdd, Backup.BEdit and Backup.BDelete: the model
  supplies the mixin's scope, the backend's own storage and its rows.
  As written, `NoteBackuperMixin` leaves `storage` and `queryset` as
  class-level `None` (note/adapters/mixins.py:2-3) and no adapter sets
  them, so `b_clear`, `b_add`, `b_edit` and `b_delete` would raise
  `AttributeError`.
- Hooks.HasAccess: `storageOwner` stands for the owner of the resolved
  storage record. As written, `standart_has_access` reads
  `adapter.storage.user` (utils/hooks.py:10), which no adapter exposes,
  so it raises `AttributeError` even for the default source.
- Hooks.NoteHook: built on `Hooks.HasAccess` with the owner supplied, and
  its `CREATED` branch filters by `adapter.storage` (utils/hooks.py:28),
  which no adapter has either.
- Hooks.AccessMeaning: states what `Hooks.HasAccess` decides once the
  owner is supplied, not the `AttributeError` the code raises.
- Views.WebPut: modelled from a corrected argument list: the resolved
  storage's `get` is a parameter and the new title and content are
  inputs. As written, the handler fails at `data['source']` (see
  `Views.WebPutAsWritten`). Past that line it would pass
  `data.get('title')`, which is the serializer's current-title field
  `title`, not the new title, and `data.get('content')`, a key the
  serializer never produces.
- Models.Lower: lower-cases only `A`-`Z`, U+00C0-U+00DE except U+00D7,
  and U+0400-U+042F; every other character is kept. Python's
  `str.lower` also lowers the other cased characters (Greek, Latin
  Extended, Armenian and more), and some lower to more than one
  character (U+0130 `İ` becomes two). Its length and no-capital
  claims hold only for the modelled ranges.
- Models.PrepareToSearch: inherits `Models.Lower`'s ranges, so its
  length and no-capital claims hold only for them.
- Models.PrepareToSearchPointwise: inherits `Models.Lower`'s ranges, so
  it describes `str.lower` only on them.
- Firestore.SetDoc: keeps the collection in ascending id order, which
  is the order a query without `order_by` returns. Ids are compared
  character by character (code-point order); Firestore's special
  numeric ids (`__id<n>__`) are not modelled.
- Images (`save_images`), `safe_markdown`, the response bodies and
  their messages, and the note hook's linking call (`Hooks.NoteHook`
  returns the link it would make) are left out.
- The GET page of `NoteImportExportView` (template rendering) and
  `NoteStorageServiceListView` are left out.
- Views.ExportArchive: requires that every page reports the same
  `num_pages`. The export loop re-reads it after each page, and a store
  that changes while it is read is not modelled.
- Copy.RunInitiator: takes the page listing as a function, so it does
  not model a source that changes while it is copied, nor a source whose
  `get_list` raises. The destination's outcomes are the parameters
  `clearOk` and `commitOk`, a function of the number of notes staged so
  far; `Views.RelationalCopyFails` ties the first commit to the table.
- LegacyLoader.TitleFromShape: `str.title()` is modelled for ASCII
  letters only. Other characters count as non-letters.
- Typesense.SearchIndex: the engine's text matching is the parameter
  `matchesQuery`. Its ranking beyond `index:desc`, and typo tolerance,
  are not modelled.
- Relational.ListRows: states the page's bounds, sortedness and
  membership. It does not state which slice of the sorted scope it is;
  `Relational.ListPagesCoverScope` gives the covering property.
- Relational.SearchResult: states the counts and URLs. The hits' exact
  contents are stated through `SearchRows`, `WithUrls` and `Project`.
- StorageList.Generate: assumes the default storage is relational
  (`DjangoServerAdapter`). `get_storage_service()` with no arguments
  reaches whatever record has the default source.
- DRF's parsing of numbers from strings is left out: integers arrive
  parsed.
- The `max_length` of the title column is not enforced by SQLite and is
  not part of the table invariant.
- The Firestore serializer and credential bundles are carried as opaque
  maps.

## Findings

| source | as written | input that shows it | evidently intended | confidence | as-written member | corrected member |
|---|---|---|---|---|---|---|
| note/views_api.py:187 | once the failing import at note/views_api.py:13 is fixed, `put` reads `new_title` and `new_content` from validated data whose serializer stores them under `title` and `content` (note/serializers_api.py:65-66), so both are always `None` | `PUT` with body `{"new_title": "B"}` on an existing note `A`: 204, and `edit('A', None, None)` changes nothing; `{"new_title": ".x"}` also passes the reserved-name check | read `data.get('title')` and `data.get('content')`, so the edit carries the new values and a reserved new title is refused | high, not executed | ViewsApi.ApiPutAsWrittenIgnoresBody | ViewsApi.ApiPutCarriesBody |
