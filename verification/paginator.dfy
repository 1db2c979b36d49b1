/** Django's `Paginator`, as the adapters use it (default arguments: no
    orphans, an empty first page allowed), and the limit/offset slicing of
    querysets and document queries. */
module Paginator {
  import opened Common

  /** Ceiling division. */
  function Ceil(a: nat, n: nat): nat
    requires n > 0
  {
    (a + n - 1) / n
  }

  lemma CeilBounds(a: nat, n: nat)
    requires n > 0
    ensures Ceil(a, n) * n >= a
    ensures Ceil(a, n) > 0 ==> (Ceil(a, n) - 1) * n < a
  {
    var q := (a + n - 1) / n;
    var m := (a + n - 1) % n;
    assert a + n - 1 == q * n + m;
    assert q * n >= a by { assert m <= n - 1; }
    if q > 0 {
      assert (q - 1) * n == q * n - n;
    }
  }

  /** `Paginator.num_pages`: one page for an empty list, otherwise the
      ceiling of count / per_page. */
  function NumPages(count: nat, perPage: nat): (r: nat)
    requires perPage > 0
    ensures r >= 1
    ensures (r - 1) * perPage < count <= r * perPage || (count == 0 && r == 1)
  {
    CeilBounds(if count == 0 then 1 else count, perPage);
    Ceil(if count == 0 then 1 else count, perPage)
  }

  lemma LessFromProducts(x: int, y: int, n: nat)
    requires n > 0 && x * n < y * n
    ensures x < y
  {
    assert (y - x) * n == y * n - x * n;
  }

  lemma MulMonotone(x: int, y: int, n: nat)
    requires x <= y
    ensures x * n <= y * n
  {
    assert y * n - x * n == (y - x) * n;
  }

  /** Every page that `Page` accepts starts inside the list (or at 0). */
  lemma PageStartInRange(count: nat, number: int, perPage: nat)
    requires perPage > 0 && 1 <= number <= NumPages(count, perPage)
    ensures 0 <= (number - 1) * perPage <= count
    ensures count > 0 ==> (number - 1) * perPage < count
  {
    MulMonotone(number - 1, NumPages(count, perPage) - 1, perPage);
  }

  /** `Paginator.page(number).object_list`. `validate_number` refuses a
      number below 1 (`EmptyPage`) before it consults `num_pages`, which
      divides by the page size; a number above `num_pages` is refused too. */
  function Page<T>(items: seq<T>, number: int, perPage: nat): (r: Result<seq<T>>)
    ensures number < 1 ==> r == Err(InvalidPage)
    ensures number >= 1 && perPage == 0 ==> r == Err(DivisionByZero)
    ensures perPage > 0 ==> (r.Ok? <==> 1 <= number <= NumPages(|items|, perPage))
    ensures r.Ok? ==> perPage > 0 && |r.value| <= perPage
    ensures r.Ok? ==> (0 <= (number - 1) * perPage <= |items|
                        && r.value == items[(number - 1) * perPage..Min((number - 1) * perPage + perPage, |items|)])
  {
    if number < 1 then Err(InvalidPage)
    else if perPage == 0 then Err(DivisionByZero)
    else if number > NumPages(|items|, perPage) then Err(InvalidPage)
    else
      PageStartInRange(|items|, number, perPage);
      var bottom := (number - 1) * perPage;
      Ok(items[bottom..Min(bottom + perPage, |items|)])
  }

  function Min(a: int, b: int): int {
    if a < b then a else b
  }

  /** The pages 1..k of `items`, concatenated. */
  function PagesUpTo<T>(items: seq<T>, k: nat, perPage: nat): seq<T>
    requires perPage > 0 && k <= NumPages(|items|, perPage)
  {
    if k == 0 then [] else PagesUpTo(items, k - 1, perPage) + Page(items, k, perPage).value
  }

  lemma {:induction false} PagesUpToIsPrefix<T>(items: seq<T>, k: nat, perPage: nat)
    requires perPage > 0 && k <= NumPages(|items|, perPage)
    ensures PagesUpTo(items, k, perPage) == items[..Min(k * perPage, |items|)]
  {
    if k > 0 {
      PagesUpToIsPrefix(items, k - 1, perPage);
      assert (k - 1) * perPage + perPage == k * perPage;
      PageStartInRange(|items|, k, perPage);
      var lo := Min((k - 1) * perPage, |items|);
      assert lo == (k - 1) * perPage;
      assert items[..lo] + items[lo..Min(k * perPage, |items|)] == items[..Min(k * perPage, |items|)];
    }
  }

  /** Reading every page 1..num_pages in order yields each item exactly once,
      in list order. */
  lemma AllPagesCoverList<T>(items: seq<T>, perPage: nat)
    requires perPage > 0
    ensures PagesUpTo(items, NumPages(|items|, perPage), perPage) == items
  {
    var n := NumPages(|items|, perPage);
    PagesUpToIsPrefix(items, n, perPage);
    assert Min(n * perPage, |items|) == |items|;
  }

  /** `query.limit(limit).offset(offset)` and `qs[offset:offset + limit]`:
      at most `limit` items starting at `offset`, clamped to the list. */
  function Window<T>(items: seq<T>, offset: nat, limit: nat): (r: seq<T>)
    ensures |r| <= limit
    ensures offset < |items| ==> |r| == Min(limit, |items| - offset)
    ensures forall i :: 0 <= i < |r| ==> offset + i < |items| && r[i] == items[offset + i]
  {
    if offset >= |items| then [] else items[offset..Min(offset + limit, |items|)]
  }
}
