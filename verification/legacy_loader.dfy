/** The older loader in `note/load_from_github.py`: root URLs of the notes
    repository, notes read from a `main` branch archive, the same copy loop
    as `run_initiator` over one stream of notes, and the `Uploader*` class
    registry named by title-cased service names. */
module LegacyLoader {
  import opened Common
  import Github
  import Copy
  import Registry

  // -------------------------------------------------------------------
  // get_root_url
  // -------------------------------------------------------------------

  const RawHost := "https://raw.githubusercontent.com/"
  const PageHost := "https://github.com/"

  /** The root of the notes directory on the `main` branch: the raw-file
      host when `raw`, the repository's web pages otherwise. */
  function RootUrl(directory: string, owner: string, repo: string, raw: bool): (r: string)
    ensures raw ==> StartsWith(r, RawHost)
    ensures !raw ==> StartsWith(r, PageHost)
    ensures EndsWith(r, "/main" + directory)
  {
    var tail := "/main" + directory;
    var url := if raw then RawHost + owner + "/" + repo + tail else PageHost + owner + "/" + repo + "/blob" + tail;
    assert url[|url| - |tail|..] == tail;
    url
  }

  /** Two names without `/` followed by a `/` split back apart. */
  lemma SplitAtSlash(a: string, x: string, b: string, y: string)
    requires forall i :: 0 <= i < |a| ==> a[i] != '/'
    requires forall i :: 0 <= i < |b| ==> b[i] != '/'
    requires a + "/" + x == b + "/" + y
    ensures a == b && x == y
  {
    var s := a + "/" + x;
    assert forall i :: 0 <= i < |a| ==> s[i] == a[i];
    assert forall i :: 0 <= i < |b| ==> s[i] == b[i];
    assert s[|a|] == '/' && s[|b|] == '/';
    assert |a| == |b|;
    assert a == s[..|a|] == b;
    assert x == s[|a| + 1..] == y;
  }

  /** Regrouping the pieces of a root: host, then owner, `/`, repository, tail. */
  lemma Regroup(host: string, owner: string, slash: string, repo: string, mid: string, tail: string)
    ensures host + owner + slash + repo + mid + tail == host + (owner + slash + (repo + (mid + tail)))
  {
  }

  /** The root is the host, then the owner, a `/`, and the repository
      followed by a tail fixed by `raw` and the directory. */
  lemma RootUrlShape(directory: string, owner: string, repo: string, raw: bool)
    ensures RootUrl(directory, owner, repo, raw) ==
      (if raw then RawHost else PageHost) + (owner + "/" + (repo + ((if raw then "" else "/blob") + ("/main" + directory))))
  {
    var tail := "/main" + directory;
    if raw {
      Regroup(RawHost, owner, "/", repo, "", tail);
      assert RawHost + owner + "/" + repo + "" + tail == RawHost + owner + "/" + repo + tail;
    } else {
      Regroup(PageHost, owner, "/", repo, "/blob", tail);
    }
  }

  /** The root names its repository: for owners without `/`, equal roots
      have the same owner and the same repository. */
  lemma RootUrlNamesRepository(directory: string, owner1: string, repo1: string, owner2: string, repo2: string, raw: bool)
    requires forall i :: 0 <= i < |owner1| ==> owner1[i] != '/'
    requires forall i :: 0 <= i < |owner2| ==> owner2[i] != '/'
    requires RootUrl(directory, owner1, repo1, raw) == RootUrl(directory, owner2, repo2, raw)
    ensures owner1 == owner2 && repo1 == repo2
  {
    var host := if raw then RawHost else PageHost;
    var tail := (if raw then "" else "/blob") + ("/main" + directory);
    RootUrlShape(directory, owner1, repo1, raw);
    RootUrlShape(directory, owner2, repo2, raw);
    var rest1, rest2 := owner1 + "/" + (repo1 + tail), owner2 + "/" + (repo2 + tail);
    assert host + rest1 == host + rest2;
    assert rest1 == (host + rest1)[|host|..];
    assert rest2 == (host + rest2)[|host|..];
    SplitAtSlash(owner1, repo1 + tail, owner2, repo2 + tail);
    assert repo1 == (repo1 + tail)[..|repo1|];
    assert repo2 == (repo2 + tail)[..|repo2|];
  }

  /** The two roots differ, whatever the repository. */
  lemma RootUrlsDiffer(directory: string, owner: string, repo: string)
    ensures RootUrl(directory, owner, repo, true) != RootUrl(directory, owner, repo, false)
  {
    var a, b := RootUrl(directory, owner, repo, true), RootUrl(directory, owner, repo, false);
    assert a[8] == 'r' && b[8] == 'g';
  }

  // -------------------------------------------------------------------
  // download_from_github_archive
  // -------------------------------------------------------------------

  /** Members the archive downloader yields: any file under the prefix,
      whatever its extension. */
  predicate IsItem(m: Github.Member, prefix: string) {
    StartsWith(m.filename, prefix) && !m.isDir
  }

  /** What the downloader yields, in archive order. */
  function ArchiveItems(members: seq<Github.Member>, prefix: string): (r: seq<Rec>)
    ensures |r| <= |members|
    decreases |members|
  {
    if members == [] then []
    else
      var init := ArchiveItems(members[..|members| - 1], prefix);
      var m := members[|members| - 1];
      if IsItem(m, prefix) then init + [Github.AsNote(m)] else init
  }

  /** The prefix of the notes directory inside a `main` archive. */
  function ArchivePrefix(repo: string, directory: string): string {
    Github.NotePrefix(repo, "main", directory)
  }

  /** The downloader's loop over the archive members, collecting what it
      yields. */
  method DownloadFromArchive(members: seq<Github.Member>, repo: string, directory: string) returns (items: seq<Rec>)
    ensures items == ArchiveItems(members, ArchivePrefix(repo, directory))
  {
    var prefix := repo + "-main" + directory;
    assert prefix == ArchivePrefix(repo, directory);
    items := [];
    var i := 0;
    while i < |members|
      invariant 0 <= i <= |members|
      invariant items == ArchiveItems(members[..i], prefix)
    {
      var m := members[i];
      assert members[..i + 1][..i] == members[..i];
      if StartsWith(m.filename, prefix) && !m.isDir {
        items := items + [Github.AsNote(m)];
      }
      i := i + 1;
    }
    assert members[..i] == members;
  }

  /** A record is yielded iff some non-directory member under the prefix
      gives it. */
  lemma {:induction false} ArchiveItemsIff(members: seq<Github.Member>, prefix: string)
    ensures forall x :: x in ArchiveItems(members, prefix) <==>
      exists j :: 0 <= j < |members| && IsItem(members[j], prefix) && x == Github.AsNote(members[j])
    decreases |members|
  {
    if members != [] {
      var init := members[..|members| - 1];
      ArchiveItemsIff(init, prefix);
      forall x ensures x in ArchiveItems(members, prefix) <==>
        exists j :: 0 <= j < |members| && IsItem(members[j], prefix) && x == Github.AsNote(members[j])
      {
        if exists j :: 0 <= j < |members| && IsItem(members[j], prefix) && x == Github.AsNote(members[j]) {
          var j :| 0 <= j < |members| && IsItem(members[j], prefix) && x == Github.AsNote(members[j]);
          if j < |members| - 1 {
            assert init[j] == members[j];
          }
        }
        if x in ArchiveItems(init, prefix) {
          var j :| 0 <= j < |init| && IsItem(init[j], prefix) && x == Github.AsNote(init[j]);
          assert members[j] == init[j];
        }
      }
    }
  }

  /** A record is yielded iff some non-directory member under the prefix
      gives it; unlike the adapter, the downloader does not ask for `.md`,
      so it yields at least every note the adapter lists. */
  lemma ArchiveItemsMembers(members: seq<Github.Member>, prefix: string)
    ensures forall x :: x in ArchiveItems(members, prefix) <==>
      exists j :: 0 <= j < |members| && IsItem(members[j], prefix) && x == Github.AsNote(members[j])
    ensures forall x :: x in Github.NotesOf(members, prefix) ==> x in ArchiveItems(members, prefix)
  {
    ArchiveItemsIff(members, prefix);
    Github.NotesOfMembers(members, prefix);
    forall x | x in Github.NotesOf(members, prefix) ensures x in ArchiveItems(members, prefix) {
      var j :| 0 <= j < |members| && Github.IsNote(members[j], prefix) && x == Github.AsNote(members[j]);
      assert IsItem(members[j], prefix);
    }
  }

  // -------------------------------------------------------------------
  // run_initiator
  // -------------------------------------------------------------------

  /** The downloaders `run_initiator` can name: `download_from_<name>`. */
  datatype Downloader = GithubArchive | GithubDirectory

  function DownloaderNamed(name: string): (r: Result<Downloader>)
    ensures r.Ok? <==> name == "github_archive" || name == "github_directory"
  {
    if name == "github_archive" then Ok(GithubArchive)
    else if name == "github_directory" then Ok(GithubDirectory)
    else Err(MissingKey)
  }

  /** The loop of the older `run_initiator` over one stream of downloaded
      notes and an uploader whose `MAX_PORTION_SIZE` is `maxPortion`, after
      a `clear` that succeeded: staging each note, committing and reporting
      at each full portion. Progress is printed rather than yielded; the
      events are the same. A commit that raises ends the loop there. */
  method StageStream(items: seq<Rec>, maxPortion: nat, clearOk: bool, commitOk: nat -> bool)
    returns (portion: nat, total: nat, trace: seq<Copy.Event>, raised: bool)
    requires clearOk
    ensures Copy.Stop([Copy.Clear] + trace, clearOk, commitOk) == Copy.Run([Copy.Clear] + trace, raised)
    ensures !raised ==> Copy.CopySteps(items, maxPortion) == Copy.CopyState(portion, total, trace)
    ensures raised ==> trace <= Copy.CopySteps(items, maxPortion).events
  {
    portion, total, trace, raised := 0, 0, [], false;
    Copy.ClearCompletes(commitOk);
    var i := 0;
    while i < |items|
      invariant 0 <= i <= |items|
      invariant Copy.CopySteps(items[..i], maxPortion) == Copy.CopyState(portion, total, trace)
      invariant Copy.Stop([Copy.Clear] + trace, clearOk, commitOk) == Copy.Run([Copy.Clear] + trace, false)
    {
      portion, total, trace, raised := Copy.StageNote(portion, total, trace, items[..i], items[i], maxPortion, clearOk, commitOk);
      if raised {
        assert [] + items[..i] == items[..i] && [] + items == items;
        Copy.PageStepPrefix([], items, i, maxPortion);
        return;
      }
      assert items[..i + 1] == items[..i] + [items[i]];
      i := i + 1;
    }
    assert items[..i] == items;
  }

  /** The older `run_initiator`: clear the uploader, stage the stream, then
      commit a non-empty leftover portion and report the total; the first
      uploader call that raises ends it. */
  method RunInitiator(items: seq<Rec>, maxPortion: nat, clearOk: bool, commitOk: nat -> bool)
    returns (events: seq<Copy.Event>, raised: bool)
    ensures Copy.Run(events, raised) == Copy.Stop([Copy.Clear] + Copy.CopyEvents(items, maxPortion), clearOk, commitOk)
  {
    if !clearOk {
      Copy.ClearRaises(Copy.CopyEvents(items, maxPortion), commitOk);
      return [Copy.Clear], true;
    }
    var portion, total, trace;
    portion, total, trace, raised := StageStream(items, maxPortion, clearOk, commitOk);
    if raised {
      Copy.RaisedWhileStaging(trace, items, items, maxPortion, clearOk, commitOk);
      return [Copy.Clear] + trace, true;
    }
    Copy.FinishRun(items, maxPortion, clearOk, commitOk);
    if portion > 0 {
      trace := trace + [Copy.Commit];
      if !commitOk(total + portion) {
        return [Copy.Clear] + trace, true;
      }
    }
    trace := trace + [Copy.Report(total + portion)];
    events := [Copy.Clear] + trace;
  }

  // -------------------------------------------------------------------
  // get_uploader and get_service_names
  // -------------------------------------------------------------------

  predicate IsAsciiUpper(c: char) { 'A' <= c <= 'Z' }
  predicate IsAsciiLower(c: char) { 'a' <= c <= 'z' }
  predicate IsCased(c: char) { IsAsciiUpper(c) || IsAsciiLower(c) }

  function ToUpper(c: char): char {
    if IsAsciiLower(c) then (c as int - 32) as char else c
  }

  function ToLower(c: char): char {
    if IsAsciiUpper(c) then (c as int + 32) as char else c
  }

  /** `str.title()` on `s[i..]`: a letter is upper-cased when it starts a
      run of letters and lower-cased otherwise; `afterLetter` says whether
      the character before position `i` was a letter. */
  function TitleFrom(s: string, i: nat, afterLetter: bool): string
    decreases |s| - i
  {
    if i >= |s| then []
    else [if afterLetter then ToLower(s[i]) else ToUpper(s[i])] + TitleFrom(s, i + 1, IsCased(s[i]))
  }

  function Title(s: string): (r: string)
    ensures |r| == |s|
    ensures forall k :: 0 <= k < |r| ==> IsCased(r[k]) == IsCased(s[k])
    ensures forall k :: 0 < k < |r| && IsCased(s[k - 1]) ==> !IsAsciiUpper(r[k])
  {
    TitleFromShape(s, 0, false);
    TitleFrom(s, 0, false)
  }

  /** Title-casing keeps the length and which characters are letters, and
      leaves no capital right after a letter. */
  lemma {:induction false} TitleFromShape(s: string, i: nat, afterLetter: bool)
    requires i <= |s|
    ensures var r := TitleFrom(s, i, afterLetter);
      && |r| == |s| - i
      && (forall k :: 0 <= k < |r| ==> IsCased(r[k]) == IsCased(s[i + k]))
      && (forall k :: 0 < k < |r| && IsCased(s[i + k - 1]) ==> !IsAsciiUpper(r[k]))
      && (|r| > 0 && afterLetter && IsCased(s[i]) ==> !IsAsciiUpper(r[0]))
      && (|r| > 0 && !afterLetter && IsCased(s[i]) ==> !IsAsciiLower(r[0]))
    decreases |s| - i
  {
    if i < |s| {
      TitleFromShape(s, i + 1, IsCased(s[i]));
      var r := TitleFrom(s, i, afterLetter);
      var rest := TitleFrom(s, i + 1, IsCased(s[i]));
      assert r == [r[0]] + rest;
      forall k | 0 < k < |r| && IsCased(s[i + k - 1]) ensures !IsAsciiUpper(r[k]) {
        assert r[k] == rest[k - 1];
        if k > 1 {
          assert s[(i + 1) + (k - 1) - 1] == s[i + k - 1];
        }
      }
    }
  }

  /** `s[i..]` without its underscores. */
  function RemoveUnderscores(s: string, i: nat): string
    decreases |s| - i
  {
    if i >= |s| then []
    else (if s[i] == '_' then [] else [s[i]]) + RemoveUnderscores(s, i + 1)
  }

  /** Nothing of `s[i..]` but its underscores is dropped. */
  lemma {:induction false} RemoveUnderscoresShape(s: string, i: nat)
    requires i <= |s|
    ensures var r := RemoveUnderscores(s, i);
      && (forall k :: 0 <= k < |r| ==> r[k] != '_')
      && |r| <= |s| - i
      && ((forall k :: i <= k < |s| ==> s[k] != '_') ==> r == s[i..])
    decreases |s| - i
  {
    if i < |s| {
      RemoveUnderscoresShape(s, i + 1);
      if forall k :: i <= k < |s| ==> s[k] != '_' {
        assert s[i..] == [s[i]] + s[i + 1..];
      }
    }
  }

  const Prefix := "Uploader"

  /** The class `get_uploader` looks up for a service name. */
  function UploaderClassName(name: string): (r: string)
    ensures |r| >= |Prefix| && r[..|Prefix|] == Prefix
    ensures forall k :: |Prefix| <= k < |r| ==> r[k] != '_'
  {
    RemoveUnderscoresShape(Title(name), 0);
    Prefix + RemoveUnderscores(Title(name), 0)
  }

  /** The uploader classes, in definition order, with their verbose names. */
  const Uploaders: seq<Registry.AdapterClass> := [
    Registry.AdapterClass("UploaderFirestore", "Firestore"),
    Registry.AdapterClass("UploaderTypesense", "Typesense"),
    Registry.AdapterClass("UploaderDjangoServer", "\U{041C}\U{0438}\U{043A}\U{0440}\U{043E}\U{0441}\U{0435}\U{0440}\U{0432}\U{0438}\U{0441} \U{0437}\U{0430}\U{043C}\U{0435}\U{0442}\U{043E}\U{043A}")
  ]

  /** The module-level names starting with `Uploader`: the two imported
      credential serializers and the three uploaders. */
  const GlobalNames: seq<string> := ["UploaderFirestoreSerializer", "UploaderTypesenseSerializer",
    "UploaderFirestore", "UploaderTypesense", "UploaderDjangoServer"]

  /** `get_uploader` without the construction: the class the name resolves
      to, or a missing key. */
  function GetUploader(name: string): (r: Result<string>)
    ensures r.Ok? <==> UploaderClassName(name) in GlobalNames
    ensures r.Ok? ==> r.value == UploaderClassName(name) && StartsWith(r.value, Prefix)
  {
    var className := UploaderClassName(name);
    if className in GlobalNames then Ok(className) else Err(MissingKey)
  }

  /** `get_service_names`: each uploader's name without its 8-character
      prefix, with its verbose name. */
  method GetServiceNames() returns (names: seq<(string, string)>)
    ensures |names| == |Uploaders|
    ensures forall k :: 0 <= k < |Uploaders| ==> names[k] == (Uploaders[k].name[|Prefix|..], Uploaders[k].verboseName)
  {
    names := [];
    var k := 0;
    while k < |Uploaders|
      invariant 0 <= k <= |Uploaders|
      invariant |names| == k
      invariant forall j :: 0 <= j < k ==> names[j] == (Uploaders[j].name[|Prefix|..], Uploaders[j].verboseName)
    {
      var subclass := Uploaders[k];
      names := names + [(subclass.name[8..], subclass.verboseName)];
      k := k + 1;
    }
  }

  /** The class name from the title-cased name without underscores. */
  lemma ClassNameFrom(name: string, titled: string, joined: string, className: string)
    requires Title(name) == titled && RemoveUnderscores(titled, 0) == joined && Prefix + joined == className
    ensures UploaderClassName(name) == className
  {
  }

  /** A run of lower-case letters after a letter is kept as it is. */
  lemma {:induction false} TitleLowerRun(s: string, i: nat, j: nat)
    requires i <= j <= |s|
    requires forall k :: i <= k < j ==> IsAsciiLower(s[k])
    ensures TitleFrom(s, i, true) == s[i..j] + TitleFrom(s, j, true)
    decreases j - i
  {
    if i < j {
      TitleLowerRun(s, i + 1, j);
      assert s[i..j] == [s[i]] + s[i + 1..j];
    }
  }

  /** A run without underscores is kept as it is. */
  lemma {:induction false} RemoveUnderscoresRun(s: string, i: nat, j: nat)
    requires i <= j <= |s|
    requires forall k :: i <= k < j ==> s[k] != '_'
    ensures RemoveUnderscores(s, i) == s[i..j] + RemoveUnderscores(s, j)
    decreases j - i
  {
    if i < j {
      RemoveUnderscoresRun(s, i + 1, j);
      assert RemoveUnderscores(s, i) == [s[i]] + RemoveUnderscores(s, i + 1);
      calc {
        RemoveUnderscores(s, i);
        [s[i]] + (s[i + 1..j] + RemoveUnderscores(s, j));
        ([s[i]] + s[i + 1..j]) + RemoveUnderscores(s, j);
        { assert s[i..j] == [s[i]] + s[i + 1..j]; }
        s[i..j] + RemoveUnderscores(s, j);
      }
    }
  }

  lemma TitleOfServerSnake()
    ensures TitleFrom("django_server", 6, true) == "_Server"
  {
    var s := "django_server";
    TitleLowerRun(s, 8, 13);
    assert s[8..] == "erver";
    assert TitleFrom(s, 7, false) == "Server";
  }

  lemma TitleOfDjangoServerSnake()
    ensures Title("django_server") == "Django_Server"
  {
    var s := "django_server";
    TitleOfServerSnake();
    TitleLowerRun(s, 1, 6);
    assert s[1..6] == "jango";
    assert TitleFrom(s, 0, false) == "D" + "jango" + "_Server";
  }

  lemma JoinedServer()
    ensures RemoveUnderscores("Django_Server", 6) == "Server"
  {
    var s := "Django_Server";
    RemoveUnderscoresRun(s, 7, 13);
    assert s[7..] == "Server";
  }

  lemma JoinedDjangoServer()
    ensures RemoveUnderscores("Django_Server", 0) == "DjangoServer"
  {
    var s := "Django_Server";
    JoinedServer();
    RemoveUnderscoresRun(s, 0, 6);
    assert s[..6] == "Django";
  }

  lemma TitleOfServerCamel()
    ensures TitleFrom("DjangoServer", 6, true) == "server"
  {
    var s := "DjangoServer";
    TitleLowerRun(s, 7, 12);
    assert s[7..] == "erver";
  }

  lemma TitleOfDjangoServerCamel()
    ensures Title("DjangoServer") == "Djangoserver"
  {
    var s := "DjangoServer";
    TitleOfServerCamel();
    TitleLowerRun(s, 1, 6);
    assert s[1..6] == "jango";
    assert TitleFrom(s, 0, false) == "D" + "jango" + "server";
  }

  /** A capital followed by lower-case letters is its own title case. */
  lemma TitleOfWord(s: string)
    requires |s| > 0 && IsAsciiUpper(s[0])
    requires forall k :: 1 <= k < |s| ==> IsAsciiLower(s[k])
    ensures Title(s) == s
  {
    TitleLowerRun(s, 1, |s|);
    assert s == [s[0]] + s[1..];
  }

  lemma TitleOfSingleWords()
    ensures Title("Firestore") == "Firestore" && Title("Typesense") == "Typesense"
  {
    TitleOfWord("Firestore");
    TitleOfWord("Typesense");
  }

  lemma JoinedDjangoserver()
    ensures RemoveUnderscores("Djangoserver", 0) == "Djangoserver"
  {
    RemoveUnderscoresRun("Djangoserver", 0, 12);
  }

  lemma JoinedFirestore()
    ensures RemoveUnderscores("Firestore", 0) == "Firestore"
  {
    RemoveUnderscoresRun("Firestore", 0, 9);
  }

  lemma JoinedTypesense()
    ensures RemoveUnderscores("Typesense", 0) == "Typesense"
  {
    RemoveUnderscoresRun("Typesense", 0, 9);
  }

  lemma PrefixedNames()
    ensures Prefix + "DjangoServer" == "UploaderDjangoServer"
    ensures Prefix + "Djangoserver" == "UploaderDjangoserver"
    ensures Prefix + "Firestore" == "UploaderFirestore"
    ensures Prefix + "Typesense" == "UploaderTypesense"
  {
  }

  /** The classes the example service names are looked up under. */
  lemma ExampleClassNames()
    ensures UploaderClassName("django_server") == "UploaderDjangoServer"
    ensures UploaderClassName("DjangoServer") == "UploaderDjangoserver"
    ensures UploaderClassName("Firestore") == "UploaderFirestore"
    ensures UploaderClassName("Typesense") == "UploaderTypesense"
  {
    TitleOfDjangoServerSnake();
    JoinedDjangoServer();
    TitleOfDjangoServerCamel();
    TitleOfSingleWords();
    JoinedDjangoserver();
    JoinedFirestore();
    JoinedTypesense();
    PrefixedNames();
    ClassNameFrom("django_server", "Django_Server", "DjangoServer", "UploaderDjangoServer");
    ClassNameFrom("DjangoServer", "Djangoserver", "Djangoserver", "UploaderDjangoserver");
    ClassNameFrom("Firestore", "Firestore", "Firestore", "UploaderFirestore");
    ClassNameFrom("Typesense", "Typesense", "Typesense", "UploaderTypesense");
  }

  lemma PrefixDropped(rest: string)
    ensures (Prefix + rest)[|Prefix|..] == rest
  {
  }

  /** `UploaderDjangoserver` is no module-level name: it differs from
      `UploaderDjangoServer` in one letter and from every other name in
      length. */
  lemma NotAGlobalName()
    ensures "UploaderDjangoserver" !in GlobalNames
  {
    var x := "UploaderDjangoserver";
    assert |x| == 20 && x[14] == 's';
    assert |GlobalNames[0]| == 27 && |GlobalNames[1]| == 27;
    assert |GlobalNames[2]| == 17 && |GlobalNames[3]| == 17;
    assert GlobalNames[4][14] == 'S';
  }

  /** `django_server` names `UploaderDjangoServer`, but the listed service
      name `DjangoServer` is title-cased to `Djangoserver` and names no
      class; `Firestore` and `Typesense` map back to their classes. */
  lemma ServiceNamesDoNotAllMapBack()
    ensures GetUploader("django_server") == Ok("UploaderDjangoServer")
    ensures Uploaders[2].name[|Prefix|..] == "DjangoServer"
    ensures GetUploader("DjangoServer") == Err(MissingKey)
    ensures GetUploader(Uploaders[0].name[|Prefix|..]) == Ok(Uploaders[0].name)
    ensures GetUploader(Uploaders[1].name[|Prefix|..]) == Ok(Uploaders[1].name)
  {
    ExampleClassNames();
    PrefixedNames();
    PrefixDropped("Firestore");
    PrefixDropped("Typesense");
    PrefixDropped("DjangoServer");
    NotAGlobalName();
    assert GlobalNames[2] == "UploaderFirestore" && GlobalNames[3] == "UploaderTypesense" && GlobalNames[4] == "UploaderDjangoServer";
  }
}
