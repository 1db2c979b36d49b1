/** The note-store interface every backend implements (`BaseAdapter`): the
    page-count helper and which operations each backend provides itself,
    inherits as a `NotImplementedError` stub, or lacks altogether. */
module BaseAdapter {
  import opened Common
  import Paginator

  /** `total_count_objects_to_count_pages`, exactly as written: an exact
      multiple of the page size, including zero, gives 0 pages; any other
      count gives the ceiling r of count / perPage,
      (r - 1) * perPage < count < r * perPage. */
  function CountPages(count: nat, perPage: nat): (r: nat)
    requires perPage > 0
    ensures r > 0 <==> count % perPage > 0
    ensures r > 0 ==> (r - 1) * perPage < count < r * perPage
  {
    var q, m := count / perPage, count % perPage;
    assert count == q * perPage + m;
    if m > 0 then
      assert (q + 1) * perPage == q * perPage + perPage;
      q + 1
    else 0
  }

  /** Where the remainder is non-zero the helper agrees with the paginator;
      on a non-zero exact multiple it reports 0 where the paginator reports
      count / perPage pages (20 notes at 10 per page: 0 against 2). */
  lemma CountPagesAgainstPaginator(count: nat, perPage: nat)
    requires perPage > 0
    ensures count % perPage > 0 ==> CountPages(count, perPage) == Paginator.NumPages(count, perPage)
    ensures count > 0 && count % perPage == 0 ==>
      CountPages(count, perPage) == 0 && Paginator.NumPages(count, perPage) == count / perPage
  {
    var n := Paginator.NumPages(count, perPage);
    var q := count / perPage;
    assert count == q * perPage + count % perPage;
    if count > 0 {
      assert (n - 1) * perPage < count <= n * perPage;
      if count % perPage > 0 {
        var r := CountPages(count, perPage);
        assert (r - 1) * perPage < count < r * perPage;
        PageCountUnique(n, r, count, perPage);
      } else {
        assert q * perPage == count;
        PageCountUnique(n, q, count, perPage);
      }
    }
  }

  /** Two page counts that both cover `count` tightly are equal. */
  lemma PageCountUnique(a: nat, b: nat, count: nat, perPage: nat)
    requires perPage > 0 && count > 0
    requires a > 0 && (a - 1) * perPage < count <= a * perPage
    requires b > 0 && (b - 1) * perPage < count <= b * perPage
    ensures a == b
  {
    Paginator.LessFromProducts(a - 1, b, perPage);
    Paginator.LessFromProducts(b - 1, a, perPage);
  }

  /** For a page number p >= 1 the helper yields p exactly for the counts
      strictly between (p - 1) * perPage and p * perPage. */
  lemma CountPagesIs(count: nat, perPage: nat, p: int)
    requires perPage > 0 && p >= 1
    ensures CountPages(count, perPage) == p <==> (p - 1) * perPage < count < p * perPage
  {
    var q, m := count / perPage, count % perPage;
    assert count == q * perPage + m;
    if (p - 1) * perPage < count < p * perPage {
      assert (p - 1) * perPage < q * perPage + perPage;
      Paginator.LessFromProducts(p - 1, q + 1, perPage) by {
        assert (q + 1) * perPage == q * perPage + perPage;
      }
      Paginator.LessFromProducts(q, p, perPage);
      assert q == p - 1;
      assert m > 0 by {
        assert (p - 1) * perPage == q * perPage;
      }
    }
  }

  /** The page count the helper evidently intends: the ceiling of
      count / perPage, 0 for no objects, agreeing with the helper wherever
      the remainder is non-zero and with the paginator on every non-empty
      collection. */
  function CountPagesIntended(count: nat, perPage: nat): (r: nat)
    requires perPage > 0
    ensures count == 0 <==> r == 0
    ensures count > 0 ==> (r - 1) * perPage < count <= r * perPage
    ensures count % perPage > 0 ==> r == CountPages(count, perPage)
    ensures count > 0 ==> r == Paginator.NumPages(count, perPage)
  {
    CeilingBounds(count, perPage);
    assert count > 0 ==> Ceiling(count, perPage) == Paginator.NumPages(count, perPage) by {
      if count > 0 {
        PageCountUnique(Ceiling(count, perPage), Paginator.NumPages(count, perPage), count, perPage);
      }
    }
    Ceiling(count, perPage)
  }

  /** Division rounded up. */
  function Ceiling(count: nat, perPage: nat): nat
    requires perPage > 0
  {
    if count % perPage > 0 then count / perPage + 1 else count / perPage
  }

  lemma CeilingBounds(count: nat, perPage: nat)
    requires perPage > 0
    ensures var r := Ceiling(count, perPage);
      && (count == 0 <==> r == 0)
      && (count > 0 ==> r > 0 && (r - 1) * perPage < count <= r * perPage)
  {
    var q, m := count / perPage, count % perPage;
    assert count == q * perPage + m;
    if m > 0 {
      assert (q + 1) * perPage == q * perPage + perPage;
    }
  }

  lemma CountPagesExamples()
    ensures CountPages(20, 10) == 0
    ensures CountPages(0, 10) == 0
    ensures CountPages(21, 10) == 3
    ensures CountPages(1050, 100) == 11
  {
  }

  /** The concrete backends. */
  datatype Backend = DjangoServer | Firestore | Github | Typesense

  /** The operations a caller may invoke on an adapter. */
  datatype Op = Get | Add | Edit | Delete | GetList | Search | Clear | AddToPortion | Commit | Close

  /** What invoking an operation does. */
  datatype Support =
    | Own            // the backend defines it
    | DefaultNoOp    // the inherited `close`, which does nothing
    | Stub           // an inherited stub that raises NotImplementedError
    | Absent         // neither the backend nor BaseAdapter defines it

  /** The operations each backend class defines itself. */
  function Defines(b: Backend): set<Op> {
    match b
    case DjangoServer => {Get, Add, Edit, Delete, GetList, Search, Clear, AddToPortion, Commit}
    case Firestore => {Get, Add, Edit, Delete, GetList, Clear, AddToPortion, Commit, Close}
    case Github => {Get, GetList, Search}
    case Typesense => {Clear, AddToPortion, Commit, Search}
  }

  /** The documented operations BaseAdapter declares as stubs. */
  const Stubs: set<Op> := {Get, Add, Edit, Delete, GetList}

  function Dispatch(b: Backend, op: Op): (r: Support)
    ensures r == Stub <==> op in Stubs && op !in Defines(b)
    ensures r == Absent <==> op !in Stubs && op != Close && op !in Defines(b)
    ensures r == DefaultNoOp <==> op == Close && op !in Defines(b)
  {
    if op in Defines(b) then Own
    else if op == Close then DefaultNoOp
    else if op in Stubs then Stub
    else Absent
  }

  /** The outcome of calling an operation that the backend does not define. */
  function Unsupported(s: Support): (r: Option<Error>)
    requires s != Own
    ensures r == None <==> s == DefaultNoOp
  {
    match s
    case DefaultNoOp => None
    case Stub => Some(NotSupported)
    case Absent => Some(MissingAttribute)
  }

  /** The archive backend is read-only: writes hit the NotImplementedError
      stubs, and `clear`, which BaseAdapter does not declare, is an
      AttributeError rather than "not supported". */
  lemma GithubIsReadOnly()
    ensures Unsupported(Dispatch(Github, Add)) == Some(NotSupported)
    ensures Unsupported(Dispatch(Github, Edit)) == Some(NotSupported)
    ensures Unsupported(Dispatch(Github, Delete)) == Some(NotSupported)
    ensures Unsupported(Dispatch(Github, Clear)) == Some(MissingAttribute)
    ensures Unsupported(Dispatch(Github, Close)) == None
  {
  }

  /** The search-index backend only stages, commits, clears and searches. */
  lemma TypesenseIsWriteOnly()
    ensures forall op :: op in Stubs ==> Unsupported(Dispatch(Typesense, op)) == Some(NotSupported)
  {
  }
}
