/** `order_by('title')`: note rows sorted by title in code-point order, which
    is the order SQLite's default BINARY collation gives UTF-8 text. */
module TitleOrder {
  import opened Models

  /** Lexicographic `a <= b` on code points. */
  predicate LexLe(a: string, b: string)
    decreases |a|
  {
    a == [] || (b != [] && (a[0] < b[0] || (a[0] == b[0] && LexLe(a[1..], b[1..]))))
  }

  lemma {:induction false} LexTotal(a: string, b: string)
    ensures LexLe(a, b) || LexLe(b, a)
    decreases |a|
  {
    if a != [] && b != [] && a[0] == b[0] {
      LexTotal(a[1..], b[1..]);
    }
  }

  lemma {:induction false} LexTransitive(a: string, b: string, c: string)
    requires LexLe(a, b) && LexLe(b, c)
    ensures LexLe(a, c)
    decreases |a|
  {
    if a != [] && b != [] && c != [] && a[0] == b[0] == c[0] {
      LexTransitive(a[1..], b[1..], c[1..]);
    }
  }

  lemma {:induction false} LexAntisymmetric(a: string, b: string)
    requires LexLe(a, b) && LexLe(b, a)
    ensures a == b
    decreases |a|
  {
    if a != [] && b != [] {
      LexAntisymmetric(a[1..], b[1..]);
    }
  }

  predicate SortedByTitle(rows: seq<Note>) {
    forall i, j :: 0 <= i < j < |rows| ==> LexLe(rows[i].title, rows[j].title)
  }

  /** Every row of `rows` has a title at least `t`. */
  predicate AllAtLeast(t: string, rows: seq<Note>) {
    forall i :: 0 <= i < |rows| ==> LexLe(t, rows[i].title)
  }

  /** Place `x` before the first row whose title is not below it. */
  function Insert(x: Note, s: seq<Note>): (r: seq<Note>)
    ensures multiset(r) == multiset(s) + multiset{x}
  {
    if s == [] then [x]
    else if LexLe(x.title, s[0].title) then [x] + s
    else
      assert s == [s[0]] + s[1..];
      [s[0]] + Insert(x, s[1..])
  }

  /** Inserting into a sorted list keeps it sorted, and a lower bound of the
      list and of `x` stays a lower bound. */
  lemma {:induction false} InsertSorted(x: Note, s: seq<Note>)
    requires SortedByTitle(s)
    ensures SortedByTitle(Insert(x, s))
    ensures forall t :: AllAtLeast(t, s) && LexLe(t, x.title) ==> AllAtLeast(t, Insert(x, s))
  {
    if s == [] {
    } else if LexLe(x.title, s[0].title) {
      InsertFront(x, s);
    } else {
      LexTotal(x.title, s[0].title);
      var rest := Insert(x, s[1..]);
      InsertSorted(x, s[1..]);
      assert AllAtLeast(s[0].title, s[1..]);
      assert AllAtLeast(s[0].title, rest);
      assert Insert(x, s) == [s[0]] + rest;
      forall t | AllAtLeast(t, s) && LexLe(t, x.title) ensures AllAtLeast(t, Insert(x, s)) {
        assert AllAtLeast(t, s[1..]);
      }
    }
  }

  lemma InsertFront(x: Note, s: seq<Note>)
    requires SortedByTitle(s) && s != [] && LexLe(x.title, s[0].title)
    ensures SortedByTitle([x] + s)
  {
    forall j | 0 <= j < |s| ensures LexLe(x.title, s[j].title) {
      if j > 0 { LexTransitive(x.title, s[0].title, s[j].title); }
    }
  }

  /** Insertion sort by title. */
  function SortByTitle(rows: seq<Note>): (r: seq<Note>)
    ensures SortedByTitle(r)
    ensures multiset(r) == multiset(rows)
  {
    if rows == [] then []
    else
      assert rows == [rows[0]] + rows[1..];
      InsertSorted(rows[0], SortByTitle(rows[1..]));
      Insert(rows[0], SortByTitle(rows[1..]))
  }
}
