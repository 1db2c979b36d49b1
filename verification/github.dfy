/** `GithubAdapter`: notes read from a repository archive. The archive is
    downloaded once into a cache file; `get_list` and `search` walk its
    members in archive order, and `get` fetches one raw file. */
module Github {
  import opened Common
  import opened Models
  import BaseAdapter
  import Paginator
  import opened Relational

  function ArchiveUrl(owner: string, repo: string, branch: string): string {
    "https://github.com/" + owner + "/" + repo + "/archive/refs/heads/" + branch + ".zip"
  }

  /** The raw file of a note; `quotedTitle` is the URL-quoted title. */
  function NoteUrl(owner: string, repo: string, branch: string, directory: string, quotedTitle: string): string {
    "https://raw.githubusercontent.com/" + owner + "/" + repo + "/" + branch + directory + "/" + quotedTitle + ".md"
  }

  /** The cache file, relative to the application directory. */
  function ArchivePath(owner: string, repo: string, branch: string): string {
    "cache_archives/" + owner + "__" + repo + "__" + branch + ".zip"
  }

  // -------------------------------------------------------------------
  // The archive cache
  // -------------------------------------------------------------------

  /** One entry of the archive: its path inside the archive, whether it is a
      directory, and its content as UTF-8 text. */
  datatype Member = Member(filename: string, isDir: bool, content: string)

  /** The cache directory after `load_archive`: an archive already cached is
      reused, otherwise `fetched` is stored under `path`. */
  function LoadCache(cache: map<string, seq<Member>>, path: string, fetched: seq<Member>): (r: map<string, seq<Member>>)
    ensures path in r
    ensures path in cache ==> r == cache
    ensures path !in cache ==> r[path] == fetched && forall p :: p in cache ==> p in r && r[p] == cache[p]
  {
    if path in cache then cache else cache[path := fetched]
  }

  /** Loading twice is loading once: the second call downloads nothing and
      keeps the archive of the first, whatever the server now returns. */
  lemma LoadCacheIdempotent(cache: map<string, seq<Member>>, path: string, first: seq<Member>, second: seq<Member>)
    ensures LoadCache(LoadCache(cache, path, first), path, second) == LoadCache(cache, path, first)
    ensures LoadCache(cache, path, first)[path] == if path in cache then cache[path] else first
  {
  }

  // -------------------------------------------------------------------
  // Members that are notes
  // -------------------------------------------------------------------

  /** The member-name prefix of the notes directory inside the archive. */
  function NotePrefix(repo: string, branch: string, directory: string): string {
    repo + "-" + branch + directory
  }

  predicate IsNote(m: Member, prefix: string) {
    StartsWith(m.filename, prefix) && EndsWith(m.filename, ".md") && !m.isDir
  }

  /** The file name without its directory and extension. */
  function TitleOf(m: Member): string {
    StripExtension(Basename(m.filename))
  }

  function AsNote(m: Member): Rec {
    Rec(TitleOf(m), m.content)
  }

  /** The notes of the archive, in archive order. */
  function NotesOf(members: seq<Member>, prefix: string): (r: seq<Rec>)
    ensures |r| <= |members|
    decreases |members|
  {
    if members == [] then []
    else
      var init := NotesOf(members[..|members| - 1], prefix);
      var m := members[|members| - 1];
      if IsNote(m, prefix) then init + [AsNote(m)] else init
  }

  /** One more member adds its note, if it is one. */
  lemma NotesOfSnoc(members: seq<Member>, m: Member, prefix: string)
    ensures NotesOf(members + [m], prefix) ==
      if IsNote(m, prefix) then NotesOf(members, prefix) + [AsNote(m)] else NotesOf(members, prefix)
  {
    assert (members + [m])[..|members|] == members;
  }

  /** A record is a note of the archive iff some member under the prefix,
      named `.md` and not a directory, gives it. */
  lemma NotesOfMembers(members: seq<Member>, prefix: string)
    ensures forall x :: x in NotesOf(members, prefix) <==>
      exists j :: 0 <= j < |members| && IsNote(members[j], prefix) && x == AsNote(members[j])
  {
    forall x ensures x in NotesOf(members, prefix) <==>
      exists j :: 0 <= j < |members| && IsNote(members[j], prefix) && x == AsNote(members[j])
    {
      if x in NotesOf(members, prefix) {
        var j := NoteSource(members, prefix, x);
      }
      if exists j :: 0 <= j < |members| && IsNote(members[j], prefix) && x == AsNote(members[j]) {
        var j :| 0 <= j < |members| && IsNote(members[j], prefix) && x == AsNote(members[j]);
        MemberNoteListed(members, prefix, j);
      }
    }
  }

  /** The member a listed note comes from. */
  lemma {:induction false} NoteSource(members: seq<Member>, prefix: string, x: Rec) returns (j: nat)
    requires x in NotesOf(members, prefix)
    ensures j < |members| && IsNote(members[j], prefix) && x == AsNote(members[j])
    decreases |members|
  {
    var n := |members| - 1;
    var init, last := members[..n], members[n];
    SplitLast(members);
    NotesOfSnoc(init, last, prefix);
    if x in NotesOf(init, prefix) {
      j := NoteSource(init, prefix, x);
      assert init[j] == members[j];
    } else {
      j := n;
    }
  }

  /** The note of every note member is listed. */
  lemma {:induction false} MemberNoteListed(members: seq<Member>, prefix: string, j: nat)
    requires j < |members| && IsNote(members[j], prefix)
    ensures AsNote(members[j]) in NotesOf(members, prefix)
    decreases |members|
  {
    var n := |members| - 1;
    var init, last := members[..n], members[n];
    SplitLast(members);
    NotesOfSnoc(init, last, prefix);
    if j < n {
      assert init[j] == members[j];
      MemberNoteListed(init, prefix, j);
    }
  }

  lemma SplitLast<T>(s: seq<T>)
    requires s != []
    ensures s == s[..|s| - 1] + [s[|s| - 1]]
  {
  }

  /** A title never contains '/': it is a single path component. */
  lemma TitleIsBaseName(m: Member)
    ensures forall j :: 0 <= j < |TitleOf(m)| ==> TitleOf(m)[j] != '/'
  {
    var b := Basename(m.filename);
    match LastIndexOf(b, '.')
    case None =>
    case Some(i) =>
      if !AllDots(b[..i]) {
        assert forall j :: 0 <= j < i ==> b[..i][j] == b[j];
      }
  }

  // -------------------------------------------------------------------
  // get_list
  // -------------------------------------------------------------------

  /** The notes `get_list` keeps while walking `notes` for page `p` with
      page size `n`: the k-th note (counting from 1) is taken while fewer
      than `n` are held and the page computed for k is `p`. */
  function Picked(notes: seq<Rec>, n: nat, p: int): (r: seq<Rec>)
    ensures |r| <= n
    decreases |notes|
  {
    if notes == [] then []
    else
      var prev := Picked(notes[..|notes| - 1], n, p);
      if |prev| >= n then prev
      else if BaseAdapter.CountPages(|notes|, n) == p then prev + [notes[|notes| - 1]]
      else prev
  }

  /** One more note in the walk. */
  lemma PickedStep(notes: seq<Rec>, x: Rec, n: nat, p: int)
    ensures Picked(notes + [x], n, p) ==
      var prev := Picked(notes, n, p);
      if |prev| >= n then prev
      else if BaseAdapter.CountPages(|notes| + 1, n) == p then prev + [x]
      else prev
  {
    assert (notes + [x])[..|notes|] == notes;
  }

  /** For a page p >= 1 the walk returns the notes at positions
      (p - 1) * n + 1 .. p * n - 1 (counting from 1): n - 1 notes of a full
      page, never the one at position p * n. */
  lemma PickedIsSlice(notes: seq<Rec>, n: nat, p: int)
    requires n > 0 && p >= 1
    ensures var lo, hi := (p - 1) * n, p * n - 1;
      0 <= lo <= hi
      && Picked(notes, n, p) == notes[Paginator.Min(lo, |notes|)..Paginator.Min(hi, |notes|)]
  {
    var lo, hi := (p - 1) * n, p * n - 1;
    assert p * n == (p - 1) * n + n;
    assert 0 <= (p - 1) * n;
    forall m: nat | 1 <= m <= |notes| ensures BaseAdapter.CountPages(m, n) == p <==> lo < m <= hi {
      BaseAdapter.CountPagesIs(m, n, p);
    }
    PickedRange(notes, n, p, lo, hi);
  }

  /** The walk keeps the notes whose 1-based position lies in (lo, hi],
      when those are exactly the positions the page formula sends to p. */
  lemma {:induction false} PickedRange(notes: seq<Rec>, n: nat, p: int, lo: nat, hi: nat)
    requires lo <= hi && hi - lo < n
    requires forall m: nat :: 1 <= m <= |notes| ==> (n > 0 && BaseAdapter.CountPages(m, n) == p <==> lo < m <= hi)
    ensures Picked(notes, n, p) == notes[Paginator.Min(lo, |notes|)..Paginator.Min(hi, |notes|)]
    decreases |notes|
  {
    if notes != [] {
      var m := |notes|;
      var init := notes[..m - 1];
      PickedRange(init, n, p, lo, hi);
      assert init + [notes[m - 1]] == notes;
      PickedRangeStep(init, notes[m - 1], n, p, lo, hi);
    }
  }

  /** One step of `PickedRange`. */
  lemma PickedRangeStep(init: seq<Rec>, x: Rec, n: nat, p: int, lo: nat, hi: nat)
    requires lo <= hi && hi - lo < n
    requires Picked(init, n, p) == init[Paginator.Min(lo, |init|)..Paginator.Min(hi, |init|)]
    requires n > 0 && BaseAdapter.CountPages(|init| + 1, n) == p <==> lo < |init| + 1 <= hi
    ensures Picked(init + [x], n, p) == (init + [x])[Paginator.Min(lo, |init| + 1)..Paginator.Min(hi, |init| + 1)]
  {
    var m := |init| + 1;
    var notes := init + [x];
    PickedStep(init, x, n, p);
    if m <= lo {
      assert Picked(notes, n, p) == [];
    } else if m <= hi {
      assert Picked(notes, n, p) == init[lo..m - 1] + [x];
      assert init[lo..m - 1] + [x] == notes[lo..m];
    } else {
      assert Picked(notes, n, p) == init[lo..hi];
      assert init[lo..hi] == notes[lo..hi];
    }
  }

  /** Which notes a page p >= 1 holds: the k-th note is on it iff the page
      computed for k is p; a k that is a multiple of n is on no page. */
  lemma PageMembership(notes: seq<Rec>, n: nat, p: int, k: nat)
    requires n > 0 && p >= 1 && 1 <= k <= |notes|
    ensures var lo := (p - 1) * n;
      (lo < k <= Paginator.Min(p * n - 1, |notes|)) <==> BaseAdapter.CountPages(k, n) == p
    ensures k % n == 0 ==> BaseAdapter.CountPages(k, n) != p
    ensures |Picked(notes, n, p)| <= n - 1
  {
    BaseAdapter.CountPagesIs(k, n, p);
    PickedIsSlice(notes, n, p);
    assert p * n == (p - 1) * n + n;
  }

  lemma PageZeroAfterOne(a: Rec)
    ensures Picked([a], 2, 0) == []
  {
    assert BaseAdapter.CountPages(1, 2) == 1;
    PickedStep([], a, 2, 0);
    assert [] + [a] == [a];
  }

  lemma PageZeroAfterTwo(a: Rec, b: Rec)
    ensures Picked([a, b], 2, 0) == [b]
  {
    assert BaseAdapter.CountPages(2, 2) == 0;
    PageZeroAfterOne(a);
    PickedStep([a], b, 2, 0);
    assert [a] + [b] == [a, b];
  }

  lemma PageZeroAfterThree(a: Rec, b: Rec, c: Rec)
    ensures Picked([a, b, c], 2, 0) == [b]
  {
    assert BaseAdapter.CountPages(3, 2) == 2;
    PageZeroAfterTwo(a, b);
    PickedStep([a, b], c, 2, 0);
    assert [a, b] + [c] == [a, b, c];
  }

  /** Page 0 is accepted and holds the notes at the multiples of n. */
  lemma PageZeroListsMultiples(a: Rec, b: Rec, c: Rec, d: Rec)
    ensures Picked([a, b, c, d], 2, 0) == [b, d]
  {
    assert BaseAdapter.CountPages(4, 2) == 0;
    PageZeroAfterThree(a, b, c);
    PickedStep([a, b, c], d, 2, 0);
    assert [a, b, c] + [d] == [a, b, c, d];
    assert [b] + [d] == [b, d];
  }

  /** Page 1 of two per page holds only the first note: the second is
      counted on page 0. */
  lemma PageOneSkipsMultiple(a: Rec, b: Rec, c: Rec, d: Rec)
    ensures Picked([a, b, c, d], 2, 1) == [a]
  {
    var notes := [a, b, c, d];
    PickedIsSlice(notes, 2, 1);
    assert notes[0..1] == [a];
  }

  datatype ArchivePage = ArchivePage(notes: seq<Rec>, numPages: nat)

  /** `get_list` over the cached archive: the walked page and the page count
      of all notes; a page size of 0 skips every note and then divides by
      zero in the page-count helper. */
  function ListArchive(members: seq<Member>, prefix: string, pageNumber: int, countOnPage: nat): (r: Result<ArchivePage>)
    ensures countOnPage == 0 <==> r == Err(DivisionByZero)
    ensures r.Ok? ==>
      && r.value.notes == Picked(NotesOf(members, prefix), countOnPage, pageNumber)
      && |r.value.notes| <= countOnPage
      && r.value.numPages == BaseAdapter.CountPages(|NotesOf(members, prefix)|, countOnPage)
  {
    if countOnPage == 0 then Err(DivisionByZero)
    else
      var notes := NotesOf(members, prefix);
      Ok(ArchivePage(Picked(notes, countOnPage, pageNumber), BaseAdapter.CountPages(|notes|, countOnPage)))
  }

  // -------------------------------------------------------------------
  // search
  // -------------------------------------------------------------------

  /** Whether a term (already normalised) is found in a text; an empty term
      is found everywhere. */
  predicate Found(term: string, text: string) {
    term == "" || Contains(PrepareToSearch(text), term)
  }

  /** The skip test as written: under 'and' a note stays when both terms are
      found; under any other operator it stays when neither is found. */
  predicate Kept(operator: string, nameTerm: string, contentTerm: string, note: Rec): (r: bool)
    ensures operator != "and" ==> (r <==> !Found(contentTerm, note.content) && !Found(nameTerm, note.title))
    ensures nameTerm == "" && contentTerm == "" ==> (r <==> operator == "and")
  {
    var founds := (Found(contentTerm, note.content), Found(nameTerm, note.title));
    if operator == "and" then founds.0 && founds.1 else !(founds.0 || founds.1)
  }

  /** The notes the search keeps, in archive order. */
  function Selected(members: seq<Member>, prefix: string, operator: string, nameTerm: string, contentTerm: string): (r: seq<Rec>)
    ensures forall x :: x in r <==> x in NotesOf(members, prefix) && Kept(operator, nameTerm, contentTerm, x)
  {
    Filter(NotesOf(members, prefix), (x: Rec) => Kept(operator, nameTerm, contentTerm, x))
  }

  /** One kept note as a dict holding only the requested keys. */
  function Shape(note: Rec, fields: seq<string>): (r: Hit)
    ensures r.title.Some? <==> "title" in fields
    ensures r.content.Some? <==> "content" in fields
    ensures r.url.None?
    ensures r.title.Some? ==> r.title.value == note.title
    ensures r.content.Some? ==> r.content.value == note.content
  {
    Hit(if "title" in fields then Some(note.title) else None,
        if "content" in fields then Some(note.content) else None,
        None)
  }

  function Shapes(notes: seq<Rec>, fields: seq<string>): (r: seq<Hit>)
    ensures |r| == |notes| && forall k :: 0 <= k < |notes| ==> r[k] == Shape(notes[k], fields)
  {
    seq(|notes|, k requires 0 <= k < |notes| => Shape(notes[k], fields))
  }

  /** Each dict of the page given its URL, built from its `title` key; the
      first dict without that key raises a KeyError. */
  function PageWithUrls(page: seq<Hit>, urlOf: string -> string): (r: Result<seq<Hit>>)
    ensures r.Err? <==> exists k :: 0 <= k < |page| && page[k].title.None?
    ensures r.Err? ==> r.error == MissingKey
    ensures r.Ok? ==> |r.value| == |page| && forall k :: 0 <= k < |page| ==>
      r.value[k] == page[k].(url := Some(urlOf(page[k].title.value)))
  {
    if exists k :: 0 <= k < |page| && page[k].title.None? then Err(MissingKey)
    else Ok(seq(|page|, k requires 0 <= k < |page| => page[k].(url := Some(urlOf(page[k].title.value)))))
  }

  /** `search` over the cached archive. */
  function SearchArchive(members: seq<Member>, prefix: string, operator: string, countOnPage: nat, pageNumber: int,
                         fields: seq<string>, fileName: Option<string>, fileContent: Option<string>,
                         urlOf: string -> string): (r: Result<SearchPage>)
    ensures fileName.None? || fileContent.None? ==> r == Err(NoneValue)
    ensures fileName.Some? && fileContent.Some? && pageNumber < 1 ==> r == Err(InvalidPage)
    ensures fileName.Some? && fileContent.Some? && pageNumber >= 1 && countOnPage == 0 ==> r == Err(DivisionByZero)
    ensures r.Ok? ==>
      var kept := Selected(members, prefix, operator, PrepareToSearch(fileName.value), PrepareToSearch(fileContent.value));
      && countOnPage > 0
      && 1 <= pageNumber <= Paginator.NumPages(|kept|, countOnPage)
      && r.value.count == |kept|
      && r.value.numPages == Paginator.NumPages(|kept|, countOnPage)
      && |r.value.hits| <= countOnPage
      && (r.value.hits != [] ==> "title" in fields)
      && var page := Paginator.Page(kept, pageNumber, countOnPage).value;
         |r.value.hits| == |page|
         && forall k :: 0 <= k < |page| ==> r.value.hits[k] == Shape(page[k], fields).(url := Some(urlOf(page[k].title)))
  {
    if fileContent.None? || fileName.None? then Err(NoneValue)
    else
      var kept := Selected(members, prefix, operator, PrepareToSearch(fileName.value), PrepareToSearch(fileContent.value));
      var shaped := Shapes(kept, fields);
      PageOfShapes(kept, fields, pageNumber, countOnPage);
      match Paginator.Page(shaped, pageNumber, countOnPage)
      case Err(e) => Err(e)
      case Ok(page) =>
        match PageWithUrls(page, urlOf)
        case Err(e) => Err(e)
        case Ok(hits) =>
          assert hits != [] ==> page[0].title.Some?;
          Ok(SearchPage(hits, Paginator.NumPages(|shaped|, countOnPage), |shaped|))
  }

  /** Paginating the dicts is paginating the notes, then shaping them. */
  lemma PageOfShapes(notes: seq<Rec>, fields: seq<string>, pageNumber: int, countOnPage: nat)
    ensures Paginator.Page(Shapes(notes, fields), pageNumber, countOnPage).Ok? == Paginator.Page(notes, pageNumber, countOnPage).Ok?
    ensures Paginator.Page(notes, pageNumber, countOnPage).Ok? ==>
      Paginator.Page(Shapes(notes, fields), pageNumber, countOnPage).value == Shapes(Paginator.Page(notes, pageNumber, countOnPage).value, fields)
  {
    var shaped := Shapes(notes, fields);
    var page := Paginator.Page(notes, pageNumber, countOnPage);
    var shapedPage := Paginator.Page(shaped, pageNumber, countOnPage);
    if page.Ok? {
      var lo := (pageNumber - 1) * countOnPage;
      var hi := Paginator.Min(lo + countOnPage, |notes|);
      assert page.value == notes[lo..hi];
      assert shapedPage.value == shaped[lo..hi];
      ShapesSlice(notes, fields, lo, hi);
    }
  }

  lemma ShapesSlice(notes: seq<Rec>, fields: seq<string>, lo: nat, hi: nat)
    requires lo <= hi <= |notes|
    ensures Shapes(notes, fields)[lo..hi] == Shapes(notes[lo..hi], fields)
  {
    var a, b := Shapes(notes, fields)[lo..hi], Shapes(notes[lo..hi], fields);
    forall k | 0 <= k < hi - lo ensures a[k] == b[k] {
      assert notes[lo..hi][k] == notes[lo + k];
    }
  }

  /** Under 'and' the search keeps exactly the notes that contain both
      normalised terms (an empty term being contained everywhere), so empty
      terms keep every note. */
  lemma AndKeepsMatches(members: seq<Member>, prefix: string, name: string, content: string)
    ensures forall x :: x in Selected(members, prefix, "and", PrepareToSearch(name), PrepareToSearch(content)) <==>
      x in NotesOf(members, prefix)
      && (name == "" || Contains(PrepareToSearch(x.title), PrepareToSearch(name)))
      && (content == "" || Contains(PrepareToSearch(x.content), PrepareToSearch(content)))
    ensures Selected(members, prefix, "and", "", "") == NotesOf(members, prefix)
  {
    var notes := NotesOf(members, prefix);
    FilterAll(notes, (x: Rec) => Kept("and", "", "", x));
  }

  /** Under any other operator (the API's 'or') the search keeps exactly the
      notes that contain neither term, and with two empty terms it keeps
      nothing at all. */
  lemma OtherOperatorKeepsNonMatches(members: seq<Member>, prefix: string, operator: string, name: string, content: string)
    requires operator != "and"
    ensures forall x :: x in Selected(members, prefix, operator, PrepareToSearch(name), PrepareToSearch(content)) <==>
      x in NotesOf(members, prefix)
      && name != "" && !Contains(PrepareToSearch(x.title), PrepareToSearch(name))
      && content != "" && !Contains(PrepareToSearch(x.content), PrepareToSearch(content))
    ensures Selected(members, prefix, operator, "", "") == []
  {
    FilterNone(NotesOf(members, prefix), (x: Rec) => Kept(operator, "", "", x));
  }

  /** A filter that every element passes keeps the whole sequence. */
  lemma {:induction false} FilterAll<T(!new)>(s: seq<T>, p: T -> bool)
    requires forall x :: x in s ==> p(x)
    ensures Filter(s, p) == s
  {
    if s != [] {
      assert s == [s[0]] + s[1..];
      FilterAll(s[1..], p);
    }
  }

  // -------------------------------------------------------------------
  // The adapter
  // -------------------------------------------------------------------

  datatype Response = Response(status: int, text: string)

  class GithubAdapter {
    const owner: string
    const repo: string
    const branch: string
    const directory: string
    /** The archives already in the cache directory, by path. */
    var cache: map<string, seq<Member>>

    constructor (owner: string, repo: string, branch: string, directory: string, cached: map<string, seq<Member>>)
      ensures this.owner == owner && this.repo == repo && this.branch == branch && this.directory == directory
      ensures cache == cached
    {
      this.owner := owner;
      this.repo := repo;
      this.branch := branch;
      this.directory := directory;
      cache := cached;
    }

    function Path(): string {
      ArchivePath(owner, repo, branch)
    }

    function Prefix(): string {
      NotePrefix(repo, branch, directory)
    }

    /** `get`: the raw file of the note; a 404 means there is no such note.
        `quote` and `fetch` stand for URL quoting and the HTTP request. */
    method Get(title: string, quote: string -> string, fetch: string -> Response) returns (r: Option<Rec>)
      ensures var response := fetch(NoteUrl(owner, repo, branch, directory, quote(title)));
        && (r.None? <==> response.status == 404)
        && (r.Some? ==> r.value == Rec(title, response.text))
    {
      var response := fetch(NoteUrl(owner, repo, branch, directory, quote(title)));
      r := if response.status == 404 then None else Some(Rec(title, response.text));
    }

    /** `load_archive`: `download` stands for the HTTP request, and is made
        only when the cache file is absent. */
    method LoadArchive(download: string -> seq<Member>) returns (path: string)
      modifies this
      ensures path == Path() && path in cache
      ensures cache == LoadCache(old(cache), path, download(ArchiveUrl(owner, repo, branch)))
    {
      path := ArchivePath(owner, repo, branch);
      if path !in cache {
        cache := cache[path := download(ArchiveUrl(owner, repo, branch))];
      }
    }

    method GetList(pageNumber: int, countOnPage: nat, download: string -> seq<Member>) returns (r: Result<ArchivePage>)
      modifies this
      ensures cache == LoadCache(old(cache), Path(), download(ArchiveUrl(owner, repo, branch)))
      ensures r == ListArchive(cache[Path()], Prefix(), pageNumber, countOnPage)
    {
      var path := LoadArchive(download);
      var notes, total := WalkPage(cache[path], NotePrefix(repo, branch, directory), pageNumber, countOnPage);
      if countOnPage == 0 {
        return Err(DivisionByZero);
      }
      r := Ok(ArchivePage(notes, BaseAdapter.CountPages(total, countOnPage)));
    }

    /** `search`: the terms are normalised before the archive is opened, so a
        missing term raises without loading it. */
    method Search(operator: string, countOnPage: nat, pageNumber: int, fields: seq<string>,
                  fileName: Option<string>, fileContent: Option<string>,
                  download: string -> seq<Member>, urlOf: string -> string)
      returns (r: Result<SearchPage>)
      modifies this
      ensures fileName.None? || fileContent.None? ==> cache == old(cache)
      ensures fileName.Some? && fileContent.Some? ==>
        cache == LoadCache(old(cache), Path(), download(ArchiveUrl(owner, repo, branch)))
      ensures r == if fileName.None? || fileContent.None? then Err(NoneValue)
        else SearchArchive(cache[Path()], Prefix(), operator, countOnPage, pageNumber, fields, fileName, fileContent, urlOf)
    {
      if fileContent.None? || fileName.None? {
        return Err(NoneValue);
      }
      var contentTerm := PrepareToSearch(fileContent.value);
      var nameTerm := PrepareToSearch(fileName.value);
      var path := LoadArchive(download);
      var notes := WalkSearch(cache[path], NotePrefix(repo, branch, directory), operator, nameTerm, contentTerm, fields);
      var page := Paginator.Page(notes, pageNumber, countOnPage);
      if page.Err? {
        return Err(page.error);
      }
      var hits := AddUrls(page.value, urlOf);
      if hits.Err? {
        return Err(hits.error);
      }
      r := Ok(SearchPage(hits.value, Paginator.NumPages(|notes|, countOnPage), |notes|));
    }
  }

  /** The `get_list` loop: counts every note and keeps those of the page. */
  method WalkPage(members: seq<Member>, prefix: string, pageNumber: int, countOnPage: nat) returns (notes: seq<Rec>, total: nat)
    ensures total == |NotesOf(members, prefix)|
    ensures notes == Picked(NotesOf(members, prefix), countOnPage, pageNumber)
  {
    notes, total := [], 0;
    ghost var done: seq<Member> := [];
    ghost var seen: seq<Rec> := [];
    var i := 0;
    while i < |members|
      invariant 0 <= i <= |members|
      invariant done == members[..i]
      invariant seen == NotesOf(done, prefix)
      invariant total == |seen|
      invariant notes == Picked(seen, countOnPage, pageNumber)
    {
      var m := members[i];
      NotesOfSnoc(done, m, prefix);
      if StartsWith(m.filename, prefix) && EndsWith(m.filename, ".md") && !m.isDir {
        assert IsNote(m, prefix);
        PickedStep(seen, AsNote(m), countOnPage, pageNumber);
        total := total + 1;
        if |notes| < countOnPage {
          // The loop writes out the page-count formula inline.
          var currentPage := BaseAdapter.CountPages(total, countOnPage);
          if currentPage == pageNumber {
            notes := notes + [Rec(TitleOf(m), m.content)];
          }
        }
        seen := seen + [AsNote(m)];
      } else {
        assert !IsNote(m, prefix);
      }
      assert members[..i + 1] == done + [m];
      done := done + [m];
      i := i + 1;
    }
    assert members[..i] == members;
  }

  /** The `search` loop: each note the skip test keeps, as a dict of the
      requested fields. */
  method WalkSearch(members: seq<Member>, prefix: string, operator: string, nameTerm: string, contentTerm: string,
                    fields: seq<string>) returns (notes: seq<Hit>)
    ensures notes == Shapes(Selected(members, prefix, operator, nameTerm, contentTerm), fields)
  {
    notes := [];
    ghost var done: seq<Member> := [];
    ghost var kept: seq<Rec> := [];
    var i := 0;
    while i < |members|
      invariant 0 <= i <= |members|
      invariant done == members[..i]
      invariant kept == Selected(done, prefix, operator, nameTerm, contentTerm)
      invariant notes == Shapes(kept, fields)
    {
      var m := members[i];
      SelectedSnoc(done, m, prefix, operator, nameTerm, contentTerm);
      if StartsWith(m.filename, prefix) && EndsWith(m.filename, ".md") && !m.isDir {
        var note := Rec(TitleOf(m), m.content);
        var founds := (Found(contentTerm, note.content), Found(nameTerm, note.title));
        var skip := if operator == "and" then !(founds.0 && founds.1) else founds.0 || founds.1;
        assert IsNote(m, prefix) && note == AsNote(m);
        if !skip {
          ShapesAppend(kept, note, fields);
          kept := kept + [note];
          notes := notes + [Shape(note, fields)];
        }
      }
      assert members[..i + 1] == done + [m];
      done := done + [m];
      i := i + 1;
    }
    assert members[..i] == members;
  }

  /** One more member adds its note when the search keeps it. */
  lemma SelectedSnoc(done: seq<Member>, m: Member, prefix: string, operator: string, nameTerm: string, contentTerm: string)
    ensures Selected(done + [m], prefix, operator, nameTerm, contentTerm) ==
      Selected(done, prefix, operator, nameTerm, contentTerm)
      + (if IsNote(m, prefix) && Kept(operator, nameTerm, contentTerm, AsNote(m)) then [AsNote(m)] else [])
  {
    var kept := (x: Rec) => Kept(operator, nameTerm, contentTerm, x);
    NotesOfSnoc(done, m, prefix);
    if IsNote(m, prefix) {
      var note := AsNote(m);
      FilterAppend(NotesOf(done, prefix), [note], kept);
      assert Filter([note], kept) == if kept(note) then [note] else [] by {
        assert [note][1..] == [];
      }
    }
  }

  lemma ShapesAppend(notes: seq<Rec>, x: Rec, fields: seq<string>)
    ensures Shapes(notes + [x], fields) == Shapes(notes, fields) + [Shape(x, fields)]
  {
  }

  /** The loop that gives each dict of the page its URL. */
  method AddUrls(page: seq<Hit>, urlOf: string -> string) returns (r: Result<seq<Hit>>)
    ensures r == PageWithUrls(page, urlOf)
  {
    var hits: seq<Hit> := [];
    var k := 0;
    while k < |page|
      invariant 0 <= k <= |page|
      invariant |hits| == k
      invariant forall j :: 0 <= j < k ==> page[j].title.Some? && hits[j] == page[j].(url := Some(urlOf(page[j].title.value)))
    {
      if page[k].title.None? {
        return Err(MissingKey);
      }
      hits := hits + [page[k].(url := Some(urlOf(page[k].title.value)))];
      k := k + 1;
    }
    assert hits == PageWithUrls(page, urlOf).value;
    r := Ok(hits);
  }
}
