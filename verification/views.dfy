/** The web views of `note/views.py` that carry logic of their own: the
    YAML front matter split, the reconciliation of pushed changes, the
    guards of the web editor, and the import/export commands. */
module Views {
  import opened Common
  import opened Models
  import Copy
  import Paginator
  import BaseAdapter
  import Firestore
  import Registry
  import Relational
  import Serializers

  // -------------------------------------------------------------------
  // separate_yaml
  // -------------------------------------------------------------------

  const Fence := "---"

  /** The lines before the first fence line. */
  function Closing(lines: seq<string>): (r: nat)
    ensures r <= |lines|
    ensures forall j :: 0 <= j < r ==> lines[j] != Fence
    ensures r < |lines| ==> lines[r] == Fence
  {
    if lines == [] || lines[0] == Fence then 0 else 1 + Closing(lines[1..])
  }

  /** The characters of `lines` with one newline after each. */
  function LineTotal(lines: seq<string>): nat {
    if lines == [] then 0 else |lines[0]| + 1 + LineTotal(lines[1..])
  }

  lemma {:induction false} LineTotalAppend(a: seq<string>, b: seq<string>)
    ensures LineTotal(a + b) == LineTotal(a) + LineTotal(b)
  {
    if a != [] {
      assert (a + b)[1..] == a[1..] + b;
      LineTotalAppend(a[1..], b);
    } else {
      assert a + b == b;
    }
  }

  lemma LineTotalSnoc(lines: seq<string>, i: nat)
    requires i < |lines|
    ensures LineTotal(lines[..i + 1]) == LineTotal(lines[..i]) + |lines[i]| + 1
  {
    LineTotalAppend(lines[..i], [lines[i]]);
    assert lines[..i + 1] == lines[..i] + [lines[i]];
  }

  /** `yaml_length` for the lines after the opening fence: the fence and
      its newline, then every line and its newline up to the closing fence. */
  function YamlLength(rest: seq<string>): nat {
    4 + LineTotal(rest[..Closing(rest)])
  }

  /** `s[:k]` and `s[k:]` in Python, for k >= 0. */
  function Take(s: string, k: nat): (r: string)
    ensures |r| <= |s| && s[..|r|] == r
  {
    if k <= |s| then s[..k] else s
  }

  function Drop(s: string, k: nat): string {
    if k <= |s| then s[k..] else []
  }

  /** The front matter split: the YAML text handed to the parser (none when
      the note has no front matter) and the body. */
  datatype FrontMatter = FrontMatter(yaml: Option<string>, body: string)

  function Separated(content: string): (r: FrontMatter)
    ensures r.yaml.None? <==> Split(Strip(content), '\n')[0] != Fence
    ensures r.yaml.None? ==> r.body == Strip(content)
    ensures r.yaml.Some? ==> StartsWith(Strip(content), r.yaml.value)
  {
    SeparatedText(Strip(content))
  }

  /** The split of the stripped text. */
  function SeparatedText(text: string): (r: FrontMatter)
    ensures r.yaml.None? <==> Split(text, '\n')[0] != Fence
    ensures r.yaml.None? ==> r.body == text
    ensures r.yaml.Some? ==> StartsWith(text, r.yaml.value)
  {
    var lines := Split(text, '\n');
    if lines[0] == Fence then Cut(text, YamlLength(lines[1..]))
    else FrontMatter(None, text)
  }

  /** The YAML is the first n characters; the body starts after the
      closing fence and its newline, without leading white space. */
  function Cut(text: string, n: nat): FrontMatter {
    FrontMatter(Some(Take(text, n)), LStrip(Drop(text, n + 4)))
  }

  /** `separate_yaml(content)`, with the YAML text left unparsed. */
  method SeparateYaml(content: string) returns (r: FrontMatter)
    ensures r == Separated(content)
  {
    var text := Strip(content);
    var lines := Split(text, '\n');
    if lines[0] != Fence {
      r := FrontMatter(None, text);
    } else {
      var yamlLength := ScanYaml(lines[1..]);
      r := Cut(text, yamlLength);
    }
  }

  /** The loop measuring `yaml_length` over the lines after the opening
      fence. */
  method ScanYaml(rest: seq<string>) returns (yamlLength: nat)
    ensures yamlLength == YamlLength(rest)
  {
    yamlLength := 4;
    var i := 0;
    while i < |rest|
      invariant 0 <= i <= Closing(rest)
      invariant yamlLength == 4 + LineTotal(rest[..i])
    {
      if rest[i] == Fence {
        break;
      }
      LineTotalSnoc(rest, i);
      yamlLength := yamlLength + |rest[i]| + 1;
      i := i + 1;
    }
    assert i == Closing(rest);
  }

  // Splitting lines

  lemma {:induction false} SplitWithoutSeparator(s: string, sep: char)
    requires forall j :: 0 <= j < |s| ==> s[j] != sep
    ensures Split(s, sep) == [s]
  {
    if s != [] {
      SplitWithoutSeparator(s[1..], sep);
      assert [s[0]] + s[1..] == s;
    }
  }

  lemma {:induction false} SplitAppend(a: string, b: string, sep: char)
    ensures Split(a + [sep] + b, sep) == Split(a, sep) + Split(b, sep)
  {
    if a == [] {
      assert a + [sep] + b == [sep] + b;
      assert ([sep] + b)[1..] == b;
    } else {
      var s := a + [sep] + b;
      assert s[0] == a[0] && s[1..] == a[1..] + [sep] + b;
      SplitAppend(a[1..], b, sep);
      if a[0] != sep {
        var rest := Split(a[1..], sep);
        assert Split(s[1..], sep) == rest + Split(b, sep);
        assert (rest + Split(b, sep))[0] == rest[0];
        assert (rest + Split(b, sep))[1..] == rest[1..] + Split(b, sep);
      }
    }
  }

  /** The lines of `s` with their newlines add up to `s` and one more. */
  lemma {:induction false} LineTotalOfSplit(s: string)
    ensures LineTotal(Split(s, '\n')) == |s| + 1
  {
    if s != [] {
      LineTotalOfSplit(s[1..]);
      var rest := Split(s[1..], '\n');
      if s[0] != '\n' {
        var r := Split(s, '\n');
        assert r[0] == [s[0]] + rest[0] && r[1..] == rest[1..];
        assert LineTotal(rest) == |rest[0]| + 1 + LineTotal(rest[1..]);
      }
    }
  }

  // Stripping

  lemma {:induction false} RStripKeepsPrefix(a: string, b: string)
    requires RStrip(b) != []
    ensures RStrip(a + b) == a + RStrip(b)
    decreases |b|
  {
    assert (a + b)[|a + b| - 1] == b[|b| - 1];
    if IsSpace(b[|b| - 1]) {
      assert (a + b)[..|a + b| - 1] == a + b[..|b| - 1];
      RStripKeepsPrefix(a, b[..|b| - 1]);
    }
  }

  lemma {:induction false} RStripDropsSpace(a: string, b: string)
    requires forall j :: 0 <= j < |b| ==> IsSpace(b[j])
    ensures RStrip(a + b) == RStrip(a)
    decreases |b|
  {
    if b == [] {
      assert a + b == a;
    } else {
      assert (a + b)[..|a + b| - 1] == a + b[..|b| - 1];
      RStripDropsSpace(a, b[..|b| - 1]);
    }
  }

  /** A note without a leading `---` line has no front matter; its body is
      the stripped text. */
  lemma WithoutFrontMatter(content: string)
    requires var text := Strip(content); text != Fence && !StartsWith(text, Fence + "\n")
    ensures Separated(content) == FrontMatter(None, Strip(content))
  {
    var text := Strip(content);
    if Split(text, '\n')[0] == Fence {
      FenceFirstLine(text);
    }
  }

  /** A text whose first line is the fence is the fence alone or starts
      with the fence and a newline. */
  lemma FenceFirstLine(text: string)
    requires Split(text, '\n')[0] == Fence
    ensures text == Fence || StartsWith(text, Fence + "\n")
  {
    FirstLine(text, 3);
    if |text| == 3 {
      assert text == text[..3];
    } else {
      assert text[..4] == Fence + "\n";
    }
  }

  /** The first line is the text up to the first newline. */
  lemma {:induction false} FirstLine(s: string, k: nat)
    requires k == |Split(s, '\n')[0]|
    ensures k <= |s| && s[..k] == Split(s, '\n')[0]
    ensures k < |s| ==> s[k] == '\n'
  {
    if s != [] && s[0] != '\n' {
      FirstLine(s[1..], k - 1);
    }
  }

  lemma {:induction false} ClosingAfter(a: seq<string>, b: seq<string>)
    requires forall l :: l in a ==> l != Fence
    requires b != [] && b[0] == Fence
    ensures Closing(a + b) == |a|
  {
    if a != [] {
      assert (a + b)[0] == a[0] && (a + b)[1..] == a[1..] + b;
      assert a[0] in a;
      assert forall l :: l in a[1..] ==> l in a;
      ClosingAfter(a[1..], b);
    } else {
      assert a + b == b;
    }
  }

  /** The text after the closing fence, once the note is stripped. */
  function AfterFence(b: string): string {
    if RStrip(b) == [] then "" else "\n" + RStrip(b)
  }

  lemma RStripAfterFence(head: string, b: string)
    requires head != [] && !IsSpace(head[|head| - 1])
    ensures RStrip(head + "\n" + b) == head + AfterFence(b)
  {
    if RStrip(b) != [] {
      RStripBeforeText(head, b);
    } else {
      RStripBeforeSpace(head, b);
    }
  }

  lemma RStripBeforeText(head: string, b: string)
    requires RStrip(b) != []
    ensures RStrip(head + "\n" + b) == head + "\n" + RStrip(b)
  {
    var h := head + "\n";
    assert head + "\n" + b == h + b;
    RStripKeepsPrefix(h, b);
  }

  lemma RStripBeforeSpace(head: string, b: string)
    requires head != [] && !IsSpace(head[|head| - 1])
    requires RStrip(b) == []
    ensures RStrip(head + "\n" + b) == head
  {
    var h := head + "\n";
    assert head + "\n" + b == h + b;
    RStripDropsSpace(h, b);
    assert h[|h| - 1] == '\n' && h[..|h| - 1] == head;
  }

  lemma StripFrontMatter(y: string, b: string)
    ensures Strip(Fence + "\n" + y + "\n" + Fence + "\n" + b) == Fence + "\n" + y + "\n" + Fence + AfterFence(b)
  {
    var head := Fence + "\n" + y + "\n" + Fence;
    assert head[|head| - 1] == '-' && head[0] == '-';
    RStripAfterFence(head, b);
    assert Fence + "\n" + y + "\n" + Fence + "\n" + b == head + "\n" + b;
    var t := head + AfterFence(b);
    assert t[0] == '-';
  }

  lemma LinesOfFrontMatter(y: string, r: string)
    requires forall l :: l in Split(y, '\n') ==> l != Fence
    requires r == [] || r[0] == '\n'
    ensures var lines := Split(Fence + "\n" + y + "\n" + Fence + r, '\n');
      |lines| > |Split(y, '\n')| && lines[0] == Fence &&
      Closing(lines[1..]) == |Split(y, '\n')| && lines[1..][..|Split(y, '\n')|] == Split(y, '\n')
  {
    var text := Fence + "\n" + y + "\n" + Fence + r;
    assert text == Fence + "\n" + (y + "\n" + (Fence + r));
    SplitAppend(Fence, y + "\n" + (Fence + r), '\n');
    assert y + "\n" + (Fence + r) == y + [ '\n' ] + (Fence + r);
    SplitAppend(y, Fence + r, '\n');
    SplitWithoutSeparator(Fence, '\n');
    var ys := Split(y, '\n');
    var tail := Split(Fence + r, '\n');
    assert Split(text, '\n') == [Fence] + (ys + tail);
    assert tail[0] == Fence by {
      if r == [] {
        assert Fence + r == Fence;
      } else {
        assert Fence + r == Fence + [ '\n' ] + r[1..];
        SplitAppend(Fence, r[1..], '\n');
      }
    }
    ClosingAfter(ys, tail);
    assert (ys + tail)[..|ys|] == ys;
  }

  /** The front matter of `---\n` Y `\n---\n` B, where no line of Y is a
      fence, is `---\n` Y `\n`, and the body is B stripped. */
  lemma FrontMatterRoundTrip(y: string, b: string)
    requires forall l :: l in Split(y, '\n') ==> l != Fence
    ensures Separated(Fence + "\n" + y + "\n" + Fence + "\n" + b) == FrontMatter(Some(Fence + "\n" + y + "\n"), Strip(b))
  {
    var content := Fence + "\n" + y + "\n" + Fence + "\n" + b;
    var text := Fence + "\n" + y + "\n" + Fence + AfterFence(b);
    assert Strip(content) == text by {
      StripFrontMatter(y, b);
    }
    var lines := Split(text, '\n');
    assert lines[0] == Fence && YamlLength(lines[1..]) == |y| + 5 by {
      LinesOfFrontMatter(y, AfterFence(b));
      LineTotalOfSplit(y);
    }
    SliceFrontMatter(y, AfterFence(b));
    assert LStrip(Drop(text, |y| + 9)) == Strip(b);
  }

  lemma SliceFrontMatter(y: string, r: string)
    ensures var text := Fence + "\n" + y + "\n" + Fence + r;
      Take(text, |y| + 5) == Fence + "\n" + y + "\n" && Drop(text, |y| + 9) == Drop(r, 1)
  {
    var text := Fence + "\n" + y + "\n" + Fence + r;
    assert text == (Fence + "\n" + y + "\n") + (Fence + r);
  }

  /** Without a closing fence the whole text is front matter and the body
      is empty. */
  lemma UnclosedFrontMatter(content: string)
    requires var lines := Split(Strip(content), '\n'); lines[0] == Fence && forall j :: 1 <= j < |lines| ==> lines[j] != Fence
    ensures Separated(content) == FrontMatter(Some(Strip(content)), "")
  {
    var text := Strip(content);
    var lines := Split(text, '\n');
    var rest := lines[1..];
    assert Closing(rest) == |rest| by {
      assert forall j :: 0 <= j < |rest| ==> rest[j] == lines[j + 1];
    }
    assert rest[..|rest|] == rest;
    LineTotalOfSplit(text);
    assert lines == [lines[0]] + rest;
    assert LineTotal(lines) == 4 + LineTotal(rest);
    assert YamlLength(rest) == |text| + 1;
  }

  // -------------------------------------------------------------------
  // note_hook_old: reconciling the files of a push
  // -------------------------------------------------------------------

  /** The file lists of one pushed commit. */
  datatype Commit = Commit(removed: seq<string>, added: seq<string>, modified: seq<string>)

  /** The three action types, in the order the hook walks them. */
  datatype Action = Removed | Added | Modified

  function FilesOf(c: Commit, a: Action): seq<string> {
    match a
    case Removed => c.removed
    case Added => c.added
    case Modified => c.modified
  }

  /** The sets of files to delete, to create and to refresh. */
  datatype Changes = Changes(removed: set<string>, added: set<string>, modified: set<string>)

  const NoChanges := Changes({}, {}, {})

  function Under(prefix: string): string -> bool {
    f => StartsWith(f, prefix)
  }

  /** The effect of one file under the prefix: a removal cancels a pending
      refresh, a creation cancels a pending removal, and a refresh is kept
      only for files not created by the push. */
  function Record(ch: Changes, a: Action, f: string): Changes {
    match a
    case Removed => Changes(ch.removed + {f}, ch.added, ch.modified - {f})
    case Added => Changes(ch.removed - {f}, ch.added + {f}, ch.modified)
    case Modified => if f in ch.added then ch else ch.(modified := ch.modified + {f})
  }

  /** Every file named in the sets lies under the prefix. */
  predicate AllUnder(ch: Changes, prefix: string) {
    && (forall f :: f in ch.removed ==> StartsWith(f, prefix))
    && (forall f :: f in ch.added ==> StartsWith(f, prefix))
    && (forall f :: f in ch.modified ==> StartsWith(f, prefix))
  }

  /** The files of one action, in order, skipping those outside the prefix. */
  function RecordAll(ch: Changes, a: Action, files: seq<string>, prefix: string): (r: Changes)
    ensures AllUnder(ch, prefix) ==> AllUnder(r, prefix)
  {
    if files == [] then ch
    else
      var before := RecordAll(ch, a, files[..|files| - 1], prefix);
      var f := files[|files| - 1];
      if StartsWith(f, prefix) then Record(before, a, f) else before
  }

  function RecordCommit(ch: Changes, c: Commit, prefix: string): (r: Changes)
    ensures AllUnder(ch, prefix) ==> AllUnder(r, prefix)
  {
    var r := RecordAll(ch, Removed, c.removed, prefix);
    var a := RecordAll(r, Added, c.added, prefix);
    RecordAll(a, Modified, c.modified, prefix)
  }

  /** The sets after the commits of a push, oldest first. */
  function Reconciled(commits: seq<Commit>, prefix: string): (r: Changes)
    ensures AllUnder(r, prefix)
  {
    if commits == [] then NoChanges
    else RecordCommit(Reconciled(commits[..|commits| - 1], prefix), commits[|commits| - 1], prefix)
  }

  /** The per-commit listing the hook returns: each action's files under
      the prefix (an action without any is an empty list). */
  function Logged(c: Commit, prefix: string): Commit {
    Commit(Filter(c.removed, Under(prefix)), Filter(c.added, Under(prefix)), Filter(c.modified, Under(prefix)))
  }

  /** One more file in the innermost loop. */
  lemma RecordFilesStep(ch0: Changes, a: Action, files: seq<string>, i: nat, prefix: string)
    requires i < |files|
    ensures var before := RecordAll(ch0, a, files[..i], prefix);
      RecordAll(ch0, a, files[..i + 1], prefix) == if StartsWith(files[i], prefix) then Record(before, a, files[i]) else before
    ensures Filter(files[..i + 1], Under(prefix)) ==
      Filter(files[..i], Under(prefix)) + if StartsWith(files[i], prefix) then [files[i]] else []
  {
    assert files[..i + 1][..i] == files[..i];
    FilterSnoc(files, i, Under(prefix));
  }

  /** The innermost loop of the hook, over the files of one action. */
  method RecordFiles(ch0: Changes, a: Action, files: seq<string>, prefix: string) returns (ch: Changes, logged: seq<string>)
    ensures ch == RecordAll(ch0, a, files, prefix)
    ensures logged == Filter(files, Under(prefix))
  {
    ch, logged := ch0, [];
    var i := 0;
    while i < |files|
      invariant 0 <= i <= |files|
      invariant ch == RecordAll(ch0, a, files[..i], prefix)
      invariant logged == Filter(files[..i], Under(prefix))
    {
      var f := files[i];
      RecordFilesStep(ch0, a, files, i, prefix);
      if StartsWith(f, prefix) {
        logged := logged + [f];
        match a {
          case Removed =>
            ch := Changes(ch.removed + {f}, ch.added, ch.modified - {f});
          case Added =>
            ch := Changes(ch.removed - {f}, ch.added + {f}, ch.modified);
          case Modified =>
            if f !in ch.added {
              ch := ch.(modified := ch.modified + {f});
            }
        }
      }
      i := i + 1;
    }
    assert files[..i] == files;
  }

  /** The three action loops for one commit. */
  method RecordCommitFiles(ch0: Changes, c: Commit, prefix: string) returns (ch: Changes, entry: Commit)
    ensures ch == RecordCommit(ch0, c, prefix)
    ensures entry == Logged(c, prefix)
  {
    var r, a, m;
    ch, r := RecordFiles(ch0, Removed, c.removed, prefix);
    ch, a := RecordFiles(ch, Added, c.added, prefix);
    ch, m := RecordFiles(ch, Modified, c.modified, prefix);
    entry := Commit(r, a, m);
  }

  /** The loop over the commits of a push. */
  method ReconcilePush(commits: seq<Commit>, prefix: string) returns (ch: Changes, log: seq<Commit>)
    ensures ch == Reconciled(commits, prefix)
    ensures |log| == |commits| && forall k :: 0 <= k < |log| ==> log[k] == Logged(commits[k], prefix)
  {
    ch, log := NoChanges, [];
    var k := 0;
    while k < |commits|
      invariant 0 <= k <= |commits|
      invariant ch == Reconciled(commits[..k], prefix)
      invariant log == LogOf(commits[..k], prefix)
    {
      ghost var next := Reconciled(commits[..k + 1], prefix);
      ReconciledStep(commits, k, prefix);
      var entry;
      ch, entry := RecordCommitFiles(ch, commits[k], prefix);
      assert ch == next;
      log := log + [entry];
      k := k + 1;
    }
    assert commits[..k] == commits;
    forall j | 0 <= j < |log| ensures log[j] == Logged(commits[j], prefix) {
      LogOfAt(commits, prefix, j);
    }
  }

  /** The listings of the commits, in order. */
  function LogOf(commits: seq<Commit>, prefix: string): (r: seq<Commit>)
    ensures |r| == |commits|
  {
    if commits == [] then []
    else LogOf(commits[..|commits| - 1], prefix) + [Logged(commits[|commits| - 1], prefix)]
  }

  lemma {:induction false} LogOfAt(commits: seq<Commit>, prefix: string, j: nat)
    requires j < |commits|
    ensures LogOf(commits, prefix)[j] == Logged(commits[j], prefix)
    decreases |commits|
  {
    var init := commits[..|commits| - 1];
    if j < |init| {
      LogOfAt(init, prefix, j);
    }
  }

  lemma ReconciledStep(commits: seq<Commit>, k: nat, prefix: string)
    requires k < |commits|
    ensures Reconciled(commits[..k + 1], prefix) == RecordCommit(Reconciled(commits[..k], prefix), commits[k], prefix)
    ensures LogOf(commits[..k + 1], prefix) == LogOf(commits[..k], prefix) + [Logged(commits[k], prefix)]
  {
    assert commits[..k + 1][..k] == commits[..k];
  }

  /** Every file in the sets lies under the prefix and was listed by some
      commit with that action; the files to create are exactly those that
      some commit added under the prefix. */
  predicate Listed(commits: seq<Commit>, a: Action, prefix: string, f: string) {
    StartsWith(f, prefix) && exists k :: 0 <= k < |commits| && f in FilesOf(commits[k], a)
  }

  lemma {:induction false} RecordAllProvenance(ch: Changes, a: Action, files: seq<string>, prefix: string, f: string)
    ensures var r := RecordAll(ch, a, files, prefix);
      (f in r.removed ==> f in ch.removed || (a == Removed && StartsWith(f, prefix) && f in files)) &&
      (f in r.modified ==> f in ch.modified || (a == Modified && StartsWith(f, prefix) && f in files)) &&
      (f in r.added <==> f in ch.added || (a == Added && StartsWith(f, prefix) && f in files))
  {
    if files != [] {
      var init := files[..|files| - 1];
      RecordAllProvenance(ch, a, init, prefix, f);
      assert files == init + [files[|files| - 1]];
      assert forall x :: x in init ==> x in files;
    }
  }

  lemma {:induction false} ReconciledProvenance(commits: seq<Commit>, prefix: string, f: string)
    ensures var r := Reconciled(commits, prefix);
      (f in r.removed ==> Listed(commits, Removed, prefix, f)) &&
      (f in r.modified ==> Listed(commits, Modified, prefix, f)) &&
      (f in r.added <==> Listed(commits, Added, prefix, f))
  {
    if commits != [] {
      var n := |commits| - 1;
      var init := commits[..n];
      var c := commits[n];
      ReconciledProvenance(init, prefix, f);
      var ch := Reconciled(init, prefix);
      var r := RecordAll(ch, Removed, c.removed, prefix);
      var a := RecordAll(r, Added, c.added, prefix);
      RecordAllProvenance(ch, Removed, c.removed, prefix, f);
      RecordAllProvenance(r, Added, c.added, prefix, f);
      RecordAllProvenance(a, Modified, c.modified, prefix, f);
      forall act | Listed(init, act, prefix, f)
        ensures Listed(commits, act, prefix, f)
      {
        var k :| 0 <= k < |init| && f in FilesOf(init[k], act);
        assert commits[k] == init[k];
      }
      assert FilesOf(commits[n], Removed) == c.removed;
      assert FilesOf(commits[n], Added) == c.added;
      assert FilesOf(commits[n], Modified) == c.modified;
      if Listed(commits, Added, prefix, f) && !(f in c.added) {
        var k :| 0 <= k < |commits| && f in FilesOf(commits[k], Added);
        assert k < n && commits[k] == init[k];
      }
    }
  }

  /** Files outside an action's list keep their place in every set. */
  lemma {:induction false} RecordAllFrame(ch: Changes, a: Action, files: seq<string>, prefix: string, f: string)
    requires f !in files
    ensures var r := RecordAll(ch, a, files, prefix);
      (f in r.removed <==> f in ch.removed) && (f in r.added <==> f in ch.added) && (f in r.modified <==> f in ch.modified)
  {
    if files != [] {
      var init := files[..|files| - 1];
      assert files == init + [files[|files| - 1]];
      RecordAllFrame(ch, a, init, prefix, f);
    }
  }

  /** A removal is final within its action list: the file ends up to be
      deleted and not to be refreshed. */
  lemma {:induction false} RecordAllRemoves(ch: Changes, files: seq<string>, prefix: string, f: string)
    requires f in files && StartsWith(f, prefix)
    ensures var r := RecordAll(ch, Removed, files, prefix); f in r.removed && f !in r.modified
  {
    var init := files[..|files| - 1];
    assert files == init + [files[|files| - 1]];
    if files[|files| - 1] != f {
      assert f in init;
      RecordAllRemoves(ch, init, prefix, f);
    }
  }

  /** A file the last commit removes, and neither adds nor modifies, is
      deleted and not refreshed, whatever the earlier commits did. */
  lemma LastRemovalWins(commits: seq<Commit>, prefix: string, f: string)
    requires commits != [] && StartsWith(f, prefix)
    requires var c := commits[|commits| - 1]; f in c.removed && f !in c.added && f !in c.modified
    ensures f in Reconciled(commits, prefix).removed && f !in Reconciled(commits, prefix).modified
  {
    var c := commits[|commits| - 1];
    var ch := Reconciled(commits[..|commits| - 1], prefix);
    var r := RecordAll(ch, Removed, c.removed, prefix);
    RecordAllRemoves(ch, c.removed, prefix, f);
    RecordAllFrame(r, Added, c.added, prefix, f);
    RecordAllFrame(RecordAll(r, Added, c.added, prefix), Modified, c.modified, prefix, f);
  }

  /** What the hook answers. */
  datatype HookOutcome =
    | NoResponse                                   // not a push event: the view returns nothing
    | NoAccess                                     // 200 with the "no access" message
    | Answered(changes: Changes, log: seq<Commit>)   // 200 with the sets and the listing
    | Failed(changes: Changes)                     // the apply step names an undefined uploader

  function PushHook(event: Option<string>, owner: string, repo: string, ownerSetting: string, repoSetting: string,
                    prefix: string, commits: seq<Commit>): (r: HookOutcome)
    ensures r.Answered? ==> r.changes == NoChanges
    ensures r.Failed? ==> r.changes != NoChanges && event == Some("push")
    ensures r.NoAccess? <==> event == Some("push") && (owner != ownerSetting || repo != repoSetting)
  {
    if event != Some("push") then NoResponse
    else if owner != ownerSetting || repo != repoSetting then NoAccess
    else
      var ch := Reconciled(commits, prefix);
      if ch == NoChanges then Answered(ch, seq(|commits|, k requires 0 <= k < |commits| => Logged(commits[k], prefix)))
      else Failed(ch)
  }

  /** The hook only succeeds for pushes that touch nothing under the
      prefix: a push that adds a file there always reaches the apply step. */
  lemma PushHookFailsOnAddedFile(owner: string, repo: string, prefix: string, commits: seq<Commit>, k: nat, f: string)
    requires k < |commits| && f in commits[k].added && StartsWith(f, prefix)
    ensures PushHook(Some("push"), owner, repo, owner, repo, prefix, commits).Failed?
  {
    ReconciledProvenance(commits, prefix, f);
    assert Listed(commits, Added, prefix, f) by {
      assert f in FilesOf(commits[k], Added);
    }
  }

  // -------------------------------------------------------------------
  // Guards of the handlers
  // -------------------------------------------------------------------

  /** The one storage operation a handler may end with. */
  datatype Call =
    | NoCall
    | EditCall(title: string, newTitle: Option<string>, newContent: Option<string>)
    | AddCall(title: string, content: string)
    | DeleteCall(title: string)
    | ClearCall
    | CopyCall(sourceFrom: string, sourceTo: string)

  /** A handler's answer: the status code and the operation it ran. */
  datatype Reply = Reply(status: nat, call: Call)

  /** Titles starting with a dot are reserved for generated notes. */
  predicate Reserved(title: string) {
    StartsWith(title, ".")
  }

  /** `NoteEditView.put`: sign-in, the request data, the reserved prefix
      (before any storage is touched), the note's existence, a rename onto
      another existing note, and only then `edit`. `get` is the resolved
      adapter's `get`. */
  function WebPut(authenticated: bool, raw: Serializers.WebEdit, title: string, newTitle: Option<string>,
                  newContent: Option<string>, get: string -> Option<Rec>): (r: Reply)
    ensures r.call.EditCall? <==>
      && authenticated && Serializers.ValidateWebEdit(raw).Valid? && !Reserved(title) && get(title).Some?
      && !(Truthy(newTitle) && newTitle.value != title && get(newTitle.value).Some?)
    ensures r.call.EditCall? ==> r == Reply(200, EditCall(title, newTitle, newContent))
    ensures !r.call.EditCall? ==> r.call == NoCall && r.status in {401, 400, 404}
    ensures authenticated && Serializers.ValidateWebEdit(raw).Valid? && Reserved(title) ==> r == Reply(400, NoCall)
    ensures authenticated && Serializers.ValidateWebEdit(raw).Valid? && !Reserved(title) && get(title).None? ==> r == Reply(404, NoCall)
  {
    if !authenticated then Reply(401, NoCall)
    else if Serializers.ValidateWebEdit(raw).Rejected? then Reply(400, NoCall)
    else if Reserved(title) then Reply(400, NoCall)
    else if get(title).None? then Reply(404, NoCall)
    else if Truthy(newTitle) && newTitle.value != title && get(newTitle.value).Some? then Reply(400, NoCall)
    else Reply(200, EditCall(title, newTitle, newContent))
  }

  /** `NoteEditView.put` as written: once past the sign-in, the request
      data and the reserved prefix, it reads `data['source']`, a key the
      edit serializer never produces, so the request fails with a KeyError
      (a 500 response) before any storage is resolved. */
  function WebPutAsWritten(authenticated: bool, raw: Serializers.WebEdit, title: string): (r: Reply)
    ensures r.call == NoCall
    ensures !authenticated ==> r.status == 401
    ensures authenticated && Serializers.ValidateWebEdit(raw).Valid? && !Reserved(title) ==> r.status == 500
  {
    if !authenticated then Reply(401, NoCall)
    else if Serializers.ValidateWebEdit(raw).Rejected? then Reply(400, NoCall)
    else if Reserved(title) then Reply(400, NoCall)
    else Reply(500, NoCall)
  }

  /** Every request the corrected handler would pass to `edit` fails as
      written, and both refuse the same requests before the storage. */
  lemma WebPutAsWrittenNeverEdits(authenticated: bool, raw: Serializers.WebEdit, title: string, newTitle: Option<string>,
                                  newContent: Option<string>, get: string -> Option<Rec>)
    ensures WebPut(authenticated, raw, title, newTitle, newContent, get).call.EditCall? ==>
      WebPutAsWritten(authenticated, raw, title) == Reply(500, NoCall)
    ensures WebPutAsWritten(authenticated, raw, title).status != 500 ==>
      WebPutAsWritten(authenticated, raw, title) == WebPut(authenticated, raw, title, newTitle, newContent, get)
  {
  }

  /** `NoteEditView.post`: sign-in, then a title already in the storage is
      refused without calling `add`. */
  function WebPost(authenticated: bool, title: string, content: string, get: string -> Option<Rec>): (r: Reply)
    ensures r.call.AddCall? <==> authenticated && get(title).None?
    ensures r.call.AddCall? ==> r == Reply(200, AddCall(title, content))
    ensures authenticated && get(title).Some? ==> r == Reply(400, NoCall)
  {
    if !authenticated then Reply(401, NoCall)
    else if get(title).Some? then Reply(400, NoCall)
    else Reply(200, AddCall(title, content))
  }

  /** A reserved title is refused whatever the storage holds. */
  lemma WebPutReservedIgnoresStorage(raw: Serializers.WebEdit, title: string, newTitle: Option<string>,
                                     newContent: Option<string>, get1: string -> Option<Rec>, get2: string -> Option<Rec>)
    requires Reserved(title)
    ensures WebPut(true, raw, title, newTitle, newContent, get1) == WebPut(true, raw, title, newTitle, newContent, get2)
  {
  }

  /** On the relational store, an edit the guards let through never fails
      for a missing note; and where the new title differs from the old one,
      no note of the storage holds it. */
  lemma WebPutGuardsRelationalEdit(rows: seq<Note>, scope: Relational.Scope, raw: Serializers.WebEdit,
                                   title: string, newTitle: Option<string>, newContent: Option<string>)
    requires WebPut(true, raw, title, newTitle, newContent, t => Relational.Lookup(rows, scope, t)).call.EditCall?
    ensures Relational.EditRow(rows, scope, title, newTitle, newContent) != Err(NotFound)
    ensures Truthy(newTitle) && newTitle.value != title ==> Relational.Lookup(rows, scope, newTitle.value).None?
  {
  }

  // -------------------------------------------------------------------
  // NoteImportExportView
  // -------------------------------------------------------------------

  /** One file of the exported archive. */
  datatype Entry = Entry(name: string, content: string)

  function ArchiveEntry(source: string, note: Rec): (r: Entry)
    ensures StartsWith(r.name, source + "/") && EndsWith(r.name, ".md") && r.content == note.content
  {
    var name := source + "/" + note.title + ".md";
    assert (source + "/" + note.title + ".md")[..|source + "/"|] == source + "/";
    assert name[|name| - 3..] == ".md";
    Entry(name, note.content)
  }

  function ArchiveEntries(source: string, notes: seq<Rec>): (r: seq<Entry>)
    ensures |r| == |notes|
    ensures forall i :: 0 <= i < |notes| ==> r[i] == ArchiveEntry(source, notes[i])
  {
    if notes == [] then []
    else ArchiveEntries(source, notes[..|notes| - 1]) + [ArchiveEntry(source, notes[|notes| - 1])]
  }

  /** One more note adds its entry at the end. */
  lemma ArchiveEntriesSnoc(source: string, notes: seq<Rec>, x: Rec)
    ensures ArchiveEntries(source, notes + [x]) == ArchiveEntries(source, notes) + [ArchiveEntry(source, x)]
  {
    assert (notes + [x])[..|notes|] == notes;
  }

  /** The inner loop: one page's notes written to the archive. */
  method WritePage(entries0: seq<Entry>, ghost read: seq<Rec>, source: string, pageNotes: seq<Rec>)
    returns (entries: seq<Entry>)
    requires entries0 == ArchiveEntries(source, read)
    ensures entries == ArchiveEntries(source, read + pageNotes)
  {
    entries := entries0;
    ghost var done := read;
    var i := 0;
    while i < |pageNotes|
      invariant 0 <= i <= |pageNotes|
      invariant done == read + pageNotes[..i]
      invariant entries == ArchiveEntries(source, done)
    {
      ArchiveEntriesSnoc(source, done, pageNotes[i]);
      assert pageNotes[..i + 1] == pageNotes[..i] + [pageNotes[i]];
      entries := entries + [ArchiveEntry(source, pageNotes[i])];
      done := done + [pageNotes[i]];
      i := i + 1;
    }
    assert pageNotes[..i] == pageNotes;
  }

  /** The `download-archive` command. `getList(p)` stands for
      `get_list(p, 100)` of the storage resolved for `source`, whose source
      is `realSource`; the page count is read again after every page and is
      assumed not to change while the export runs. Nothing is written unless
      the requested source resolved to itself. */
  method ExportArchive(source: string, realSource: string, getList: nat -> (seq<Rec>, nat))
    returns (entries: seq<Entry>, requested: seq<nat>)
    requires forall p :: getList(p).1 == getList(1).1
    ensures source != realSource ==> entries == [] && requested == []
    ensures source == realSource ==>
      && requested == Copy.Requests(getList(1).1)
      && entries == ArchiveEntries(source, Copy.PagesRead(getList, |Copy.Requests(getList(1).1)|))
  {
    entries, requested := [], [];
    if source != realSource {
      return;
    }
    ghost var read: seq<Rec> := [];
    ghost var last := if getList(1).1 == 0 then 1 else getList(1).1;
    var pageNumber: nat := 1;
    var numPages: Option<nat> := None;
    while numPages.None? || pageNumber <= numPages.value
      invariant 1 <= pageNumber <= last + 1
      invariant numPages.None? <==> pageNumber == 1
      invariant numPages.Some? ==> numPages.value == getList(1).1
      invariant ExportedUpTo(getList, source, pageNumber, read, entries, requested)
      decreases last + 1 - pageNumber
    {
      var page := getList(pageNumber);
      assert page.1 == getList(1).1;
      ExportStep(getList, source, pageNumber, read, entries, requested);
      requested := requested + [pageNumber];
      entries := WritePage(entries, read, source, page.0);
      read := read + page.0;
      numPages := Some(page.1);
      pageNumber := pageNumber + 1;
    }
    assert pageNumber == last + 1;
    assert Copy.Requests(last) == Copy.Requests(getList(1).1) by {
      if getList(1).1 != 0 {
        assert last == getList(1).1;
      }
    }
  }

  /** What the export loop keeps before reading page n: the notes of pages
      1..n-1, their entries, and the pages requested so far. */
  ghost predicate ExportedUpTo(getList: nat -> (seq<Rec>, nat), source: string, n: nat,
                               read: seq<Rec>, entries: seq<Entry>, requested: seq<nat>)
  {
    && n >= 1
    && read == Copy.PagesRead(getList, n - 1)
    && entries == ArchiveEntries(source, read)
    && requested == (if n == 1 then [] else Copy.Requests(n - 1))
  }

  /** Reading page n moves the export loop on to page n + 1. */
  lemma ExportStep(getList: nat -> (seq<Rec>, nat), source: string, n: nat,
                   read: seq<Rec>, entries: seq<Entry>, requested: seq<nat>)
    requires ExportedUpTo(getList, source, n, read, entries, requested)
    ensures ExportedUpTo(getList, source, n + 1, read + getList(n).0,
                         ArchiveEntries(source, read + getList(n).0), requested + [n])
  {
    assert Copy.PagesRead(getList, n) == read + getList(n).0;
    assert Copy.Requests(n) == requested + [n];
  }

  /** Every note read is exported once, in page order, as
      `<source>/<title>.md` with its content. */
  lemma ExportNames(source: string, notes: seq<Rec>, i: nat)
    requires i < |notes|
    ensures ArchiveEntries(source, notes)[i] == Entry(source + "/" + notes[i].title + ".md", notes[i].content)
  {
  }

  /** A store whose page count comes out as 0, such as a Firestore store
      holding a non-zero multiple of 100 documents, exports only its first
      page. */
  lemma ExportOfUncountedStore(getList: nat -> (seq<Rec>, nat))
    requires getList(1).1 == 0
    ensures Copy.PagesRead(getList, |Copy.Requests(getList(1).1)|) == getList(1).0
    ensures Copy.Requests(getList(1).1) == [1]
  {
    assert Copy.PagesRead(getList, 0) == [];
  }

  /** The outcome of the import/export form: status, operation and the
      reported total. */
  datatype ImportReply = ImportReply(status: nat, call: Call, totalCount: nat)

  /** The last value the copy generator yielded, or 0 when it yielded
      nothing. */
  function LastYield(yielded: seq<nat>): nat {
    if yielded == [] then 0 else yielded[|yielded| - 1]
  }

  /** `NoteImportExportView.post`. `yielded` is what `run_initiator` yields
      for the copy and `raised` whether the storage call the command makes
      (the copy generator, or the destination's `clear`) raised, which the
      server answers with 500; the clear resolves `source-to` for the
      signed-in user and clears only when the storage it reaches has that
      very source. */
  function ImportExportPost(requester: Registry.Requester, command: Option<string>, sourceFrom: string, sourceTo: string,
                            recs: seq<StorageRecord>, defaultSource: string, yielded: seq<nat>, raised: bool): (r: ImportReply)
    ensures requester.Anonymous? ==> r == ImportReply(401, NoCall, 0)
    ensures r.call.ClearCall? <==>
      requester.Authenticated? && command == Some("clear") &&
      Registry.Resolve(recs, Some(sourceTo), requester, defaultSource).Ok? &&
      Registry.Resolve(recs, Some(sourceTo), requester, defaultSource).value.source == sourceTo
    ensures r.call.ClearCall? ==> r.status == (if raised then 500 else 200)
    ensures r.call.CopyCall? <==> requester.Authenticated? && command == Some("copy-from-to")
    ensures r.call.CopyCall? && raised ==> r == ImportReply(500, CopyCall(sourceFrom, sourceTo), 0)
    ensures r.call.CopyCall? && !raised ==> r == ImportReply(200, CopyCall(sourceFrom, sourceTo), LastYield(yielded))
    ensures requester.Authenticated? && command != Some("clear") && command != Some("copy-from-to") ==> r == ImportReply(400, NoCall, 0)
  {
    if requester.Anonymous? then ImportReply(401, NoCall, 0)
    else if command == Some("copy-from-to") then
      if raised then ImportReply(500, CopyCall(sourceFrom, sourceTo), 0)
      else ImportReply(200, CopyCall(sourceFrom, sourceTo), LastYield(yielded))
    else if command == Some("clear") then
      match Registry.Resolve(recs, Some(sourceTo), requester, defaultSource)
      case Err(_) => ImportReply(500, NoCall, 0)
      case Ok(rec) =>
        if rec.source != sourceTo then ImportReply(403, NoCall, 0)
        else if raised then ImportReply(500, ClearCall, 0)
        else ImportReply(200, ClearCall, 0)
    else ImportReply(400, NoCall, 0)
  }

  /** The copy answers 200 exactly when no destination call raised, and
      then reports the number of notes copied. */
  lemma CopyReportsNoteCount(requester: Registry.Requester, sourceFrom: string, sourceTo: string, recs: seq<StorageRecord>,
                             defaultSource: string, notes: seq<Rec>, maxPortion: nat, clearOk: bool, commitOk: nat -> bool)
    requires requester.Authenticated? && maxPortion > 0
    ensures var run := Copy.Stop([Copy.Clear] + Copy.CopyEvents(notes, maxPortion), clearOk, commitOk);
      var r := ImportExportPost(requester, Some("copy-from-to"), sourceFrom, sourceTo, recs, defaultSource, Copy.Reports(run.events), run.raised);
      && (r.status == 200 <==> !run.raised)
      && (!run.raised ==> r.totalCount == |notes|)
  {
    var full := [Copy.Clear] + Copy.CopyEvents(notes, maxPortion);
    Copy.StopMeaning(full, clearOk, commitOk);
    Copy.CopyEventsRead(notes, maxPortion);
    Copy.ReportsAppend([Copy.Clear], Copy.CopyEvents(notes, maxPortion));
  }

  /** A copy between two storages of the relational table answers 500
      when the first note read has the title of a row outside the
      destination (as every note of another storage of the table does):
      clearing the destination leaves that row, titles are unique across
      the table, so the first commit raises and nothing is reported. */
  lemma RelationalCopyFails(requester: Registry.Requester, sourceFrom: string, sourceTo: string, recs: seq<StorageRecord>,
                            defaultSource: string, rows: seq<Note>, to: string, i: nat, notes: seq<Rec>, maxPortion: nat,
                            commitOk: nat -> bool)
    requires requester.Authenticated? && maxPortion > 0 && notes != []
    requires i < |rows| && rows[i].storage != to && rows[i].title == notes[0].title
    requires commitOk(Paginator.Min(|notes|, maxPortion)) ==
      Relational.CommitRows(Relational.ClearRows(rows, Relational.InStorage(to)),
                            Relational.PortionRows(notes[..Paginator.Min(|notes|, maxPortion)], to)).Ok?
    ensures var run := Copy.Stop([Copy.Clear] + Copy.CopyEvents(notes, maxPortion), true, commitOk);
      && run.raised && Copy.Reports(run.events) == []
      && ImportExportPost(requester, Some("copy-from-to"), sourceFrom, sourceTo, recs, defaultSource, Copy.Reports(run.events), run.raised).status == 500
  {
    var m := Paginator.Min(|notes|, maxPortion);
    Relational.CopiedTitleRefused(rows, to, Relational.PortionRows(notes[..m], to), i, 0);
    Copy.FirstCommitRaises(notes, maxPortion, commitOk);
  }

  /** Clearing a source the user has no record of falls back to the default
      storage; it is refused unless `source-to` is the default source
      itself, in which case any signed-in user clears the default storage,
      as the hook's rule that the default source is open to all allows. */
  lemma ClearFallsBackToDefault(id: nat, other: nat, sourceTo: string, defaultSource: string, d: StorageRecord)
    requires d.source == defaultSource && d.user == other && other != id
    ensures var r := ImportExportPost(Registry.Authenticated(id), Some("clear"), "", sourceTo, [d], defaultSource, [], false);
      r.call.ClearCall? <==> sourceTo == defaultSource
  {
    var recs := [d];
    assert Registry.Requested(recs, Some(sourceTo), Registry.Authenticated(id)).None? by {
      if sourceTo != [] {
        assert !(d.user == id);
      }
    }
  }
}
