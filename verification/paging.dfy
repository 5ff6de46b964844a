/**
 Pagination of the search result: `Skip((page - 1) * size).Take(size)` and
 the page count `ceil(total / size)`.
 */
module Paging {

  /** `Math.Ceiling((double)n / d)` on the integers: the number of pages of
      `d` elements that `n` elements fill. The last page starts before `n`;
      the page after it would start at or past `n`. */
  function CeilDiv(n: nat, d: nat): (r: nat)
    requires d > 0
    ensures r == 0 <==> n == 0
    ensures n <= Offset(r + 1, d)
    ensures r > 0 ==> Offset(r, d) < n
  {
    var q := (n + d - 1) / d;
    assert q * d <= n + d - 1 < q * d + d;
    OffsetIsProduct(q + 1, d);
    if q > 0 then
      OffsetIsProduct(q, d);
      q
    else q
  }

  /** In products: `r * d` is at least `n` and `(r - 1) * d` is below it. */
  lemma CeilDivIsCeiling(n: nat, d: nat)
    requires d > 0
    ensures n <= CeilDiv(n, d) * d
    ensures CeilDiv(n, d) > 0 ==> (CeilDiv(n, d) - 1) * d < n
  {
    var r := CeilDiv(n, d);
    OffsetIsProduct(r + 1, d);
    if r > 0 {
      OffsetIsProduct(r, d);
    }
  }

  /** LINQ `Skip`: a count at or below zero skips nothing. */
  function Skip<T>(s: seq<T>, count: int): (r: seq<T>)
    ensures count <= 0 ==> r == s
    ensures count >= |s| ==> r == []
    ensures 0 <= count < |s| ==> r == s[count..]
  {
    if count <= 0 then s else if count >= |s| then [] else s[count..]
  }

  /** LINQ `Take`: at most `count` leading elements. */
  function Take<T>(s: seq<T>, count: int): (r: seq<T>)
    ensures |r| <= |s| && (count >= 0 ==> |r| <= count)
    ensures r == s[..|r|]
    ensures 0 <= count <= |s| ==> |r| == count
  {
    if count <= 0 then [] else if count >= |s| then s else s[..count]
  }

  /** First element of page `page` (pages count from 1): each page starts
      `size` elements after the one before. */
  function Offset(page: int, size: int): (r: int)
    requires page >= 1
    ensures size >= 0 ==> r >= 0
    decreases page
  {
    if page == 1 then 0 else Offset(page - 1, size) + size
  }

  /** The offset is the source's `(page - 1) * size`. */
  lemma {:induction false} OffsetIsProduct(page: int, size: int)
    requires page >= 1
    ensures Offset(page, size) == (page - 1) * size
    decreases page
  {
    if page > 1 {
      OffsetIsProduct(page - 1, size);
    }
  }

  /** Page `page` of `s`, `size` elements per page. */
  function Page<T>(s: seq<T>, page: int, size: int): (r: seq<T>)
    requires page >= 1 && size >= 1
    ensures |r| <= size
    ensures Offset(page, size) >= |s| ==> r == []
    ensures Offset(page, size) < |s| ==> |r| == Min(size, |s| - Offset(page, size))
    ensures forall i :: 0 <= i < |r| ==> Offset(page, size) + i < |s| && r[i] == s[Offset(page, size) + i]
  {
    Take(Skip(s, Offset(page, size)), size)
  }

  function Min(a: int, b: int): int
  {
    if a <= b then a else b
  }

  /** A page past the last one is empty; every page up to the last is not. */
  lemma PageEmptyIffPastEnd<T>(s: seq<T>, page: int, size: int)
    requires page >= 1 && size >= 1
    ensures Page(s, page, size) == [] <==> page > CeilDiv(|s|, size)
  {
    var n := CeilDiv(|s|, size);
    if page > n {
      OffsetMonotone(n + 1, page, size);
    } else if n > 0 {
      OffsetMonotone(page, n, size);
    }
  }

  /** Later pages start no earlier. */
  lemma {:induction false} OffsetMonotone(p: int, q: int, size: nat)
    requires 1 <= p <= q
    ensures Offset(p, size) <= Offset(q, size)
    decreases q
  {
    if p < q {
      OffsetMonotone(p, q - 1, size);
    }
  }

  /** Pages 1..k laid end to end. */
  function FirstPages<T>(s: seq<T>, size: int, k: nat): seq<T>
    requires size >= 1
  {
    if k == 0 then [] else FirstPages(s, size, k - 1) + Page(s, k, size)
  }

  /** A page is the slice between its offset and the next page's offset, cut at the end. */
  lemma PageIsSlice<T>(s: seq<T>, page: int, size: int)
    requires page >= 1 && size >= 1
    ensures Offset(page + 1, size) == Offset(page, size) + size
    ensures Page(s, page, size)
      == s[Min(|s|, Offset(page, size))..Min(|s|, Offset(page, size) + size)]
  {
  }

  /** The first `k` pages are the elements before page `k + 1` starts. */
  lemma {:induction false} FirstPagesArePrefix<T>(s: seq<T>, size: int, k: nat)
    requires size >= 1
    ensures FirstPages(s, size, k) == s[..Min(|s|, Offset(k + 1, size))]
  {
    if k > 0 {
      FirstPagesArePrefix(s, size, k - 1);
      PageIsSlice(s, k, size);
      PrefixThenSlice(s, Offset(k, size), size);
    }
  }

  /** The prefix up to `o`, then the next `size` elements, is the prefix up to `o + size`. */
  lemma PrefixThenSlice<T>(s: seq<T>, o: int, size: int)
    requires o >= 0 && size >= 1
    ensures s[..Min(|s|, o)] + s[Min(|s|, o)..Min(|s|, o + size)] == s[..Min(|s|, o + size)]
  {
  }

  /** The pages 1..totalPages, concatenated, are the whole sequence. */
  lemma PagesCoverAll<T>(s: seq<T>, size: int)
    requires size >= 1
    ensures FirstPages(s, size, CeilDiv(|s|, size)) == s
  {
    FirstPagesArePrefix(s, size, CeilDiv(|s|, size));
  }

  /** Two's-complement wrap-around of a C# `int` multiplication. */
  function WrapInt32(x: int): (r: int)
    ensures -0x8000_0000 <= r < 0x8000_0000
    ensures (r - x) % 0x1_0000_0000 == 0
  {
    (x + 0x8000_0000) % 0x1_0000_0000 - 0x8000_0000
  }

  /** A value that already fits in an `int` is its own wrap. */
  lemma WrapInt32InRange(x: int)
    requires -0x8000_0000 <= x < 0x8000_0000
    ensures WrapInt32(x) == x
  {
  }

  /** The page as the source computes it: the offset is a 32-bit product. */
  function PageAsWritten<T>(s: seq<T>, page: int, size: int): seq<T>
  {
    Take(Skip(s, WrapInt32((page - 1) * size)), size)
  }

  /** Below the overflow the two agree. */
  lemma PageAsWrittenAgrees<T>(s: seq<T>, page: int, size: int)
    requires page >= 1 && size >= 1 && (page - 1) * size < 0x8000_0000
    ensures PageAsWritten(s, page, size) == Page(s, page, size)
  {
    OffsetIsProduct(page, size);
    assert WrapInt32((page - 1) * size) == (page - 1) * size;
  }

  /** With 5 results and 100 per page, page 21474838 lies far past the end,
      yet the 32-bit offset wraps negative and the page comes back full. */
  lemma PageAsWrittenOverflows()
    ensures var s := [1, 2, 3, 4, 5];
      && 21474838 <= 0x7FFF_FFFF
      && 21474838 > CeilDiv(|s|, 100)
      && WrapInt32((21474838 - 1) * 100) < 0
      && PageAsWritten(s, 21474838, 100) == s
      && Page(s, 21474838, 100) == []
  {
    var s := [1, 2, 3, 4, 5];
    assert (21474838 - 1) * 100 == 2147483700;
    assert WrapInt32(2147483700) == -2147483596;
  }
}
