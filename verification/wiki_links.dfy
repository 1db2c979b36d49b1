/** The wiki-link Markdown extension (`utils/md_extensions/wiki_links.py`):
    from the two groups of a `[[title|text]]` match, the link's title, its
    text and the span it replaces. The regular expression itself is not
    modelled; the groups are the inputs. */
module WikiLinks {
  import opened Common

  const EscapedBar := "\\|"

  /** A `\|` in either group stands for a literal `|`. */
  function Unescape(s: string): string {
    ReplaceAll(s, EscapedBar, "|")
  }

  /** The element `handleMatch` builds: the `a` element's text and href, and
      the span of the match it replaces. */
  datatype Anchor = Anchor(title: string, text: string, href: string, start: nat, end: nat)

  /** `handleMatch(m, data)`: `group1` is the title part, `group2` the text
      part with its leading `|` (absent when the link has no text);
      `urlOf(source, title)` stands for `resolve_url('note_editor2', ...)`. */
  function HandleMatch(group1: Option<string>, group2: Option<string>, start: nat, end: nat, source: string,
                       urlOf: (string, string) -> string): (r: Anchor)
    ensures r.start == start && r.end == end
    ensures r.href == urlOf(source, r.title)
    ensures !Truthy(group1) ==> r.title == ""
    ensures !Truthy(group2) ==> r.text == r.title
    ensures r.text == "" ==> r.title == ""
  {
    var title := Unescape(Strip(if Truthy(group1) then group1.value else ""));
    var linkTitle := Unescape(Strip(if Truthy(group2) then group2.value else ""));
    Anchor(title, if |linkTitle| > 1 then linkTitle[1..] else title, urlOf(source, title), start, end)
  }

  /** Text without backslashes is left as it is. */
  lemma {:induction false} UnescapePlain(s: string)
    requires forall i :: 0 <= i < |s| ==> s[i] != '\\'
    ensures Unescape(s) == s
    decreases |s|
  {
    if s != [] {
      assert !(EscapedBar <= s) by { assert s[0] != EscapedBar[0]; }
      UnescapePlain(s[1..]);
      assert [s[0]] + s[1..] == s;
    }
  }

  /** An escaped bar after plain text becomes a bar. */
  lemma {:induction false} UnescapeAfterPlain(a: string, b: string)
    requires forall i :: 0 <= i < |a| ==> a[i] != '\\'
    ensures Unescape(a + EscapedBar + b) == a + "|" + Unescape(b)
    decreases |a|
  {
    var s := a + EscapedBar + b;
    if a == [] {
      assert s == EscapedBar + b;
      assert EscapedBar <= s;
      assert s[|EscapedBar|..] == b;
    } else {
      assert !(EscapedBar <= s) by { assert s[0] == a[0] != EscapedBar[0]; }
      assert s[1..] == a[1..] + EscapedBar + b;
      UnescapeAfterPlain(a[1..], b);
      assert [a[0]] + (a[1..] + "|" + Unescape(b)) == a + "|" + Unescape(b);
    }
  }

  /** A text that neither starts nor ends with whitespace is its own strip. */
  lemma StripUnchanged(s: string)
    requires s != [] && !IsSpace(s[0]) && !IsSpace(s[|s| - 1])
    ensures Strip(s) == s
  {
    assert RStrip(s) == s;
  }

  /** Without a text part, or with a bare `|`, the text is the title. */
  lemma TextFallsBackToTitle(group1: Option<string>, group2: Option<string>, start: nat, end: nat, source: string,
                             urlOf: (string, string) -> string)
    requires group2.None? || group2 == Some("|")
    ensures HandleMatch(group1, group2, start, end, source, urlOf).text == HandleMatch(group1, group2, start, end, source, urlOf).title
  {
    if group2.Some? {
      StripUnchanged("|");
      UnescapePlain("|");
    } else {
      assert Strip("") == "";
      UnescapePlain("");
    }
  }

  /** Whitespace between the `|` and the text is kept, since the group is
      stripped before its `|` is dropped: `[[a| b]]` reads " b". */
  lemma SpaceAfterBarKept(urlOf: (string, string) -> string)
    ensures HandleMatch(Some("a"), Some("| b"), 0, 8, "", urlOf).text == " b"
  {
    StripUnchanged("| b");
    UnescapePlain("| b");
    assert "| b"[1..] == " b";
  }

  // The documented examples, with `тест` and `ик` as named words.
  const Test := "\U{0442}\U{0435}\U{0441}\U{0442}"
  const Ik := "\U{0438}\U{043A}"
  const NoteLink := "note link"

  /** A non-empty text without backslashes and without whitespace at
      either end. */
  predicate Plain(s: string) {
    s != [] && !IsSpace(s[0]) && !IsSpace(s[|s| - 1]) && forall i :: 0 <= i < |s| ==> s[i] != '\\'
  }

  /** A text part `|` word `\|` tail reads word `|` tail. */
  lemma EscapedBarInText(title: string, word: string, tail: string, urlOf: (string, string) -> string)
    requires Plain(title) && Plain(word) && Plain(tail)
    ensures var a := HandleMatch(Some(title), Some("|" + word + EscapedBar + tail), 0, 0, "", urlOf);
      a.title == title && a.text == word + "|" + tail
  {
    var group2 := "|" + word + EscapedBar + tail;
    PlainUnchanged(title);
    EscapedGroup(word, tail);
    DropBar(word, tail);
    TextAfterBar(title, title, group2, "|" + word + "|" + tail, urlOf);
  }

  lemma DropBar(word: string, tail: string)
    ensures |"|" + word + "|" + tail| > 1
    ensures ("|" + word + "|" + tail)[1..] == word + "|" + tail
  {
    var rest := word + "|" + tail;
    assert "|" + word + "|" + tail == "|" + rest;
  }

  /** With non-empty groups, the title is the unescaped title group and
      the text the unescaped text group without its first character, when
      that leaves something. */
  lemma TextAfterBar(group1: string, title: string, group2: string, shown: string, urlOf: (string, string) -> string)
    requires group1 != "" && Unescape(Strip(group1)) == title
    requires group2 != "" && Unescape(Strip(group2)) == shown && |shown| > 1
    ensures var a := HandleMatch(Some(group1), Some(group2), 0, 0, "", urlOf);
      a.title == title && a.text == shown[1..]
  {
  }

  lemma PlainUnchanged(s: string)
    requires Plain(s)
    ensures Unescape(Strip(s)) == s
  {
    StripUnchanged(s);
    UnescapePlain(s);
  }

  /** The text group `|` word `\|` tail, stripped and unescaped. */
  lemma EscapedGroup(word: string, tail: string)
    requires Plain(word) && Plain(tail)
    ensures Unescape(Strip("|" + word + EscapedBar + tail)) == "|" + word + "|" + tail
  {
    var head := "|" + word;
    assert forall i :: 0 <= i < |head| ==> head[i] != '\\' by {
      forall i | 0 <= i < |head| ensures head[i] != '\\' {
        if i > 0 {
          assert head[i] == word[i - 1];
        }
      }
    }
    var marked := head + EscapedBar + tail;
    assert marked[|marked| - 1] == tail[|tail| - 1];
    StripUnchanged(marked);
    UnescapeAfterPlain(head, tail);
    UnescapePlain(tail);
  }

  /** `[[note link|тест\|ик]]` links to `note link` and reads `тест|ик`. */
  lemma DocumentedEscapedText(urlOf: (string, string) -> string)
    ensures var a := HandleMatch(Some(NoteLink), Some("|" + Test + EscapedBar + Ik), 0, 0, "", urlOf);
      a.title == NoteLink && a.text == Test + "|" + Ik
  {
    EscapedBarInText(NoteLink, Test, Ik, urlOf);
  }

  /** `[[note link \|here|тест]]` links to `note link |here` and reads
      `тест`. */
  lemma EscapedBarInTitle(urlOf: (string, string) -> string)
    ensures var a := HandleMatch(Some(NoteLink + " " + EscapedBar + "here"), Some("|" + Test), 0, 0, "", urlOf);
      a.title == NoteLink + " |here" && a.text == Test
  {
    EscapedTitleGroup();
    TestGroup();
    TextAfterBar(NoteLink + " " + EscapedBar + "here", NoteLink + " |here", "|" + Test, "|" + Test, urlOf);
  }

  /** The title group `note link \|here`, stripped and unescaped. */
  lemma EscapedTitleGroup()
    ensures Unescape(Strip(NoteLink + " " + EscapedBar + "here")) == NoteLink + " |here"
  {
    var t := NoteLink + " " + EscapedBar + "here";
    StripUnchanged(t);
    UnescapeAfterPlain(NoteLink + " ", "here");
    UnescapePlain("here");
    assert NoteLink + " " + "|" + "here" == NoteLink + " |here";
  }

  /** The text group `|тест`, stripped and unescaped. */
  lemma TestGroup()
    ensures Unescape(Strip("|" + Test)) == "|" + Test
    ensures |"|" + Test| > 1 && ("|" + Test)[1..] == Test
  {
    var short := "|" + Test;
    StripUnchanged(short);
    UnescapePlain(short);
  }
}
