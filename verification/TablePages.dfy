/** Splitting a table into pages by LIMIT and OFFSET, with the width the offset is computed in. */
module TablePages {

  const U32_RANGE: nat := 0x1_0000_0000
  const U64_RANGE: nat := 0x1_0000_0000_0000_0000
  const MAX_PAGE_SIZE: nat := 10_000

  function Min(a: nat, b: nat): nat {
    if a < b then a else b
  }

  /** The offset as computed in an unsigned integer of the given range, which wraps. */
  function Offset(page: nat, size: nat, range: nat): nat
    requires range > 0
  {
    (page * size) % range
  }

  /** The rows a query with LIMIT and OFFSET returns. */
  function Slice<T>(rows: seq<T>, size: nat, offset: nat): seq<T> {
    rows[Min(offset, |rows|)..Min(offset + size, |rows|)]
  }

  function TotalPages(rows: nat, size: nat): nat
    requires size > 0
  {
    if rows % size == 0 then rows / size else rows / size + 1
  }

  function PagesUpTo<T>(rows: seq<T>, size: nat, range: nat, n: nat): seq<T>
    requires range > 0
  {
    if n == 0 then [] else PagesUpTo(rows, size, range, n - 1) + Slice(rows, size, Offset(n - 1, size, range))
  }

  /** No page of the table has an offset that wraps. */
  predicate OffsetsFit(rows: nat, size: nat, range: nat)
    requires size > 0
  {
    rows > 0 ==> (TotalPages(rows, size) - 1) * size < range
  }

  lemma {:induction false} PageBelowTotal(rows: nat, size: nat, page: nat)
    requires size > 0 && page < TotalPages(rows, size)
    ensures page * size < rows
    ensures page * size <= (TotalPages(rows, size) - 1) * size
  {
    var total := TotalPages(rows, size);
    assert rows == (rows / size) * size + rows % size;
    MulMonotone(page, total - 1, size);
    if rows % size == 0 {
      assert (total - 1) * size == rows - size;
    }
  }

  lemma {:induction false} MulMonotone(a: nat, b: nat, k: nat)
    requires a <= b
    ensures a * k <= b * k
  {
  }

  /** A page of the table: its offset is inside the table, and as computed unless it wraps. */
  lemma {:induction false} PageOffset(rows: nat, size: nat, range: nat, page: nat) returns (offset: nat)
    requires size > 0 && range > 0 && page < TotalPages(rows, size) && OffsetsFit(rows, size, range)
    ensures offset == page * size == Offset(page, size, range) && offset < rows
    ensures (page + 1) * size == offset + size
  {
    PageBelowTotal(rows, size, page);
    offset := page * size;
    Unwrapped(offset, range);
  }

  lemma {:induction false} Unwrapped(n: nat, range: nat)
    requires n < range
    ensures n % range == n
  {
  }

  lemma {:induction false} PrefixGrows<T>(rows: seq<T>, size: nat, offset: nat)
    requires offset <= |rows|
    ensures rows[..Min(offset, |rows|)] + Slice(rows, size, offset) == rows[..Min(offset + size, |rows|)]
  {
  }

  lemma {:induction false} PagesCoverPrefix<T>(rows: seq<T>, size: nat, range: nat, n: nat)
    requires size > 0 && range > 0 && n <= TotalPages(|rows|, size) && OffsetsFit(|rows|, size, range)
    ensures PagesUpTo(rows, size, range, n) == rows[..Min(n * size, |rows|)]
  {
    if n > 0 {
      PagesCoverPrefix(rows, size, range, n - 1);
      var offset := PageOffset(|rows|, size, range, n - 1);
      PrefixGrows(rows, size, offset);
    }
  }

  lemma {:induction false} TotalReachesEnd(rows: nat, size: nat)
    requires size > 0
    ensures TotalPages(rows, size) * size >= rows
  {
    assert rows == (rows / size) * size + rows % size;
  }

  predicate Distinct<T(==)>(rows: seq<T>) {
    forall i, j :: 0 <= i < j < |rows| ==> rows[i] != rows[j]
  }

  /**
   * Pages 0 to total - 1 put together give every row exactly once and in order when no offset wraps; and for a
   * table of distinct rows, page by page, exactly then.
   */
  lemma {:induction false} PagesPartition<T>(rows: seq<T>, size: nat, range: nat)
    requires 0 < size <= MAX_PAGE_SIZE && range > MAX_PAGE_SIZE
    ensures OffsetsFit(|rows|, size, range) ==> PagesUpTo(rows, size, range, TotalPages(|rows|, size)) == rows
    ensures Distinct(rows) ==>
              (OffsetsFit(|rows|, size, range) <==>
                 forall p :: 0 <= p < TotalPages(|rows|, size) ==>
                   Slice(rows, size, Offset(p, size, range)) == Slice(rows, size, p * size))
  {
    var total := TotalPages(|rows|, size);
    TotalReachesEnd(|rows|, size);
    if OffsetsFit(|rows|, size, range) {
      PagesCoverPrefix(rows, size, range, total);
      assert rows[..|rows|] == rows;
      forall p | 0 <= p < total ensures Offset(p, size, range) == p * size {
        var offset := PageOffset(|rows|, size, range, p);
      }
    } else if Distinct(rows) {
      PageBelowTotal(|rows|, size, total - 1);
      WrappedPageDiffers(rows, size, (total - 1) * size, Offset(total - 1, size, range));
    }
  }

  lemma {:induction false} WrappedPageDiffers<T>(rows: seq<T>, size: nat, offset: nat, wrapped: nat)
    requires Distinct(rows) && size > 0 && wrapped < offset < |rows|
    ensures Slice(rows, size, wrapped) != Slice(rows, size, offset)
  {
    assert Slice(rows, size, wrapped)[0] == rows[wrapped] && Slice(rows, size, offset)[0] == rows[offset];
  }

  /** A rounded-up quotient is the least number of pages that reaches the end. */
  lemma {:induction false} TotalIsLeast(rows: nat, size: nat, pages: nat)
    requires size > 0 && rows > 0
    ensures 0 < TotalPages(rows, size) <= pages <==> rows <= pages * size
  {
    var total := TotalPages(rows, size);
    TotalReachesEnd(rows, size);
    assert total > 0;
    PageBelowTotal(rows, size, total - 1);
    if total <= pages {
      MulMonotone(total, pages, size);
    } else {
      MulMonotone(pages, total - 1, size);
    }
  }

  /** No offset wraps exactly for tables of up to as many rows as the range has, rounded up to whole pages. */
  lemma {:induction false} OffsetsFitIff(rows: nat, size: nat, range: nat)
    requires size > 0 && range > 0
    ensures OffsetsFit(rows, size, range) <==> rows <= TotalPages(range, size) * size
  {
    if rows > 0 {
      var total, most := TotalPages(rows, size), TotalPages(range, size);
      TotalIsLeast(rows, size, most);
      TotalIsLeast(rows, size, total);
      TotalIsLeast(range, size, total - 1);
    }
  }

  /** So no table with a 64-bit row count has a wrapping offset in 64 bits, and a larger one than 2^32 rows can in 32. */
  lemma {:induction false} OffsetWidths(rows: nat, size: nat)
    requires 0 < size <= MAX_PAGE_SIZE
    ensures rows < U64_RANGE ==> OffsetsFit(rows, size, U64_RANGE)
    ensures OffsetsFit(rows, size, U32_RANGE) <==> rows <= TotalPages(U32_RANGE, size) * size
  {
    OffsetsFitIff(rows, size, U64_RANGE);
    OffsetsFitIff(rows, size, U32_RANGE);
    TotalReachesEnd(U64_RANGE, size);
  }
}
