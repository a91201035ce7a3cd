/**
 * Paging: the browse request and the `LIMIT skip, count` window every browse endpoint reads,
 * where `skip` is the page number times the page size.
 */
module Browsing {
  import opened Base

  /** `default_count`: the page size of a request that leaves it out. */
  const DEFAULT_COUNT: u32 := 10

  /** A browse request: which page, and how many rows a page holds. */
  datatype Browse = Browse(pageNumber: u32, count: u32)

  /** Reading a request body whose count may be omitted. */
  function FromRequest(pageNumber: u32, count: Option<u32>): (b: Browse)
    ensures b.pageNumber == pageNumber
    ensures count.Some? ==> b.count == count.value
    ensures count.None? ==> b.count == DEFAULT_COUNT
  {
    Browse(pageNumber, if count.Some? then count.value else DEFAULT_COUNT)
  }

  lemma OmittedCountIsTen(pageNumber: u32)
    ensures FromRequest(pageNumber, None).count == 10
  {
  }

  function Min(a: nat, b: nat): nat {
    if a <= b then a else b
  }

  /**
   * SQLite's `LIMIT offset, count` over rows in storage order: the rows from position `offset` on,
   * at most `count` of them, and none once `offset` is past the end.
   */
  function Limit<T>(rows: seq<T>, offset: nat, count: nat): (r: seq<T>)
    ensures offset >= |rows| ==> r == []
    ensures offset < |rows| ==> |r| == Min(count, |rows| - offset)
    ensures forall i | 0 <= i < |r| :: r[i] == rows[offset + i]
  {
    if offset >= |rows| then [] else rows[offset..Min(|rows|, offset + count)]
  }

  /** The number of rows in front of the requested page, computed without overflow. */
  function Skip(b: Browse): nat {
    b.pageNumber * b.count
  }

  /** The product `page_number * count` fits in the `u32` it is computed in. */
  predicate SkipFits(b: Browse) {
    Skip(b) < U32_LIMIT
  }

  /**
   * The `u32` product as the handlers compute it, in a build where overflow wraps around
   * (a build with overflow checks panics instead).
   */
  function WrappingSkip(b: Browse): (s: u32)
    ensures SkipFits(b) ==> s == Skip(b)
    ensures !SkipFits(b) ==> s != Skip(b)
  {
    Skip(b) % U32_LIMIT
  }

  /** The page as written: the window of at most `count` rows starts at the wrapped product. */
  function WrappedPage<T>(rows: seq<T>, b: Browse): (r: seq<T>)
    ensures |r| <= b.count
    ensures WrappingSkip(b) >= |rows| ==> r == []
    ensures WrappingSkip(b) < |rows| ==> |r| == Min(b.count, |rows| - WrappingSkip(b))
    ensures forall i | 0 <= i < |r| :: r[i] == rows[WrappingSkip(b) + i]
  {
    Limit(rows, WrappingSkip(b), b.count)
  }

  /**
   * The page as intended: the `count` rows that follow `pageNumber` full pages, or fewer at the end
   * of the table.
   */
  function Page<T>(rows: seq<T>, b: Browse): (r: seq<T>)
    ensures |r| <= b.count
    ensures Skip(b) >= |rows| ==> r == []
    ensures Skip(b) < |rows| ==> |r| == Min(b.count, |rows| - Skip(b))
    ensures forall i | 0 <= i < |r| :: r[i] == rows[Skip(b) + i]
  {
    Limit(rows, Skip(b), b.count)
  }

  /** While the product fits, the page as written is the intended page. */
  lemma WrappedPageAgrees<T>(rows: seq<T>, b: Browse)
    requires SkipFits(b)
    ensures WrappedPage(rows, b) == Page(rows, b)
  {
  }

  /**
   * Page 65536 of 65536-row pages lies past the end of any table with at most 2^32 rows, yet the
   * wrapped product is 0, so the request returns the first page again.
   */
  lemma WrappedPageRepeatsFirstPage<T>(rows: seq<T>)
    requires 0 < |rows| <= U32_LIMIT
    ensures Page(rows, Browse(65536, 65536)) == []
    ensures WrappedPage(rows, Browse(65536, 65536)) == Page(rows, Browse(0, 65536)) != []
  {
    var b := Browse(65536, 65536);
    assert Skip(b) == U32_LIMIT;
    assert WrappingSkip(b) == 0;
  }

  /** A page size of zero returns nothing, whatever the page. */
  lemma ZeroCountIsEmpty<T>(rows: seq<T>, pageNumber: u32)
    ensures Page(rows, Browse(pageNumber, 0)) == []
  {
  }

  /** The pages of size `count` from page `p` on, concatenated, stopping at the first page past the end. */
  function PagesFrom<T>(rows: seq<T>, count: nat, p: nat): seq<T>
    requires count > 0
    decreases |rows| - p * count
  {
    if p * count >= |rows| then [] else Limit(rows, p * count, count) + PagesFrom(rows, count, p + 1)
  }

  /** Reading page after page from page `p` yields exactly the rows from position `p * count` on. */
  lemma {:induction false} PagesFromIsSuffix<T>(rows: seq<T>, count: nat, p: nat)
    requires count > 0
    ensures p * count <= |rows| ==> PagesFrom(rows, count, p) == rows[p * count..]
    ensures p * count >= |rows| ==> PagesFrom(rows, count, p) == []
    decreases |rows| - p * count
  {
    if p * count < |rows| {
      var next := (p + 1) * count;
      assert next == p * count + count;
      PagesFromIsSuffix(rows, count, p + 1);
      var page := Limit(rows, p * count, count);
      if next <= |rows| {
        assert page == rows[p * count..next];
        assert rows[p * count..] == rows[p * count..next] + rows[next..];
      } else {
        assert page == rows[p * count..];
      }
    }
  }

  /** Reading every page in turn, from page 0, yields every row exactly once and in storage order. */
  lemma PagesCoverTable<T>(rows: seq<T>, count: nat)
    requires count > 0
    ensures PagesFrom(rows, count, 0) == rows
  {
    PagesFromIsSuffix(rows, count, 0);
  }

  /** Each step of `PagesFrom` is one browse window: page `p` of size `count`, followed by the pages after it. */
  lemma PagesFromUnfoldsToPage<T>(rows: seq<T>, count: u32, p: u32)
    requires count > 0 && p * count < |rows|
    ensures PagesFrom(rows, count, p) == Page(rows, Browse(p, count)) + PagesFrom(rows, count, p + 1)
  {
  }

  /** Consecutive pages of the same size are adjacent windows: page `p + 1` starts where page `p` ends. */
  lemma PagesAreAdjacent<T>(rows: seq<T>, b: Browse)
    requires b.pageNumber + 1 < U32_LIMIT
    requires Skip(b) + b.count <= |rows|
    ensures Page(rows, b) + Page(rows, b.(pageNumber := b.pageNumber + 1)) == Limit(rows, Skip(b), 2 * b.count)
  {
    var b' := b.(pageNumber := b.pageNumber + 1);
    assert Skip(b') == Skip(b) + b.count;
  }
}
