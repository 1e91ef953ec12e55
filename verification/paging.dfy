/** Page-number pagination over a list that is already in its final order.

    The paginator classes of the service are not part of this model. A page is assumed to be the
    plain slice `s[(p-1)*n .. min(p*n, |s|)]`, and page `p` is assumed to exist when
    `1 <= p <= PageCount(|s|, n)`, where an empty list still has one (empty) first page. */
module Paging {
  import opened Wrappers

  /** A position of a serialized page: a real entry, or the `{}` filler a handler inserts. */
  datatype Slot<+T> = Placeholder | Item(value: T)

  /** The page's entries as item slots. */
  function Items<T>(s: seq<T>): (r: seq<Slot<T>>)
    ensures |r| == |s|
    ensures forall k :: 0 <= k < |s| ==> r[k] == Item(s[k])
  {
    seq(|s|, k requires 0 <= k < |s| => Item(s[k]))
  }

  /** `n` filler slots. */
  function Placeholders<T>(n: nat): (r: seq<Slot<T>>)
    ensures |r| == n
    ensures forall k :: 0 <= k < n ==> r[k] == Placeholder
  {
    seq(n, k => Placeholder)
  }

  function Min(a: int, b: int): int {
    if a <= b then a else b
  }

  /** How many pages a list of `total` entries has: at least one, and one more for every further
      `size` entries. */
  function PageCount(total: nat, size: nat): (c: nat)
    requires size > 0
    ensures c >= 1
    decreases total
  {
    if total <= size then 1 else 1 + PageCount(total - size, size)
  }

  /** The index of the first entry of page `number`, built up one page at a time. */
  function PageStart(number: nat, size: nat): nat
    requires number >= 1
  {
    if number == 1 then 0 else PageStart(number - 1, size) + size
  }

  /** Page `number` starts after `number - 1` full pages. */
  lemma {:induction false} PageStartIsProduct(number: nat, size: nat)
    requires number >= 1
    ensures PageStart(number, size) == (number - 1) * size
  {
    if number > 1 {
      PageStartIsProduct(number - 1, size);
      assert (number - 1) * size == (number - 2) * size + size;
    }
  }

  lemma {:induction false} PageStartMonotonic(a: nat, b: nat, size: nat)
    requires 1 <= a <= b
    ensures PageStart(a, size) <= PageStart(b, size)
    decreases b
  {
    if a < b {
      PageStartMonotonic(a, b - 1, size);
    }
  }

  /** The pages hold every entry, and the last page starts inside the list (or the list is
      empty). */
  lemma {:induction false} PageCountBounds(total: nat, size: nat)
    requires size > 0
    ensures total <= PageStart(PageCount(total, size), size) + size
    ensures total == 0 || PageStart(PageCount(total, size), size) < total
    decreases total
  {
    if total > size {
      PageCountBounds(total - size, size);
      PageStartShift(PageCount(total - size, size), size);
    }
  }

  lemma {:induction false} PageStartShift(number: nat, size: nat)
    requires number >= 1
    ensures PageStart(number + 1, size) == PageStart(number, size) + size
  {
  }

  datatype PageError = InvalidPage

  /** Up to `size` entries of `s` starting at `lo`. */
  function Window<T>(s: seq<T>, lo: nat, size: nat): seq<T>
    requires lo <= |s|
  {
    s[lo..Min(lo + size, |s|)]
  }

  /** Page `number` (counted from 1) of `s` with `size` entries per page: the entries from
      `PageStart(number, size)` on, at most `size` of them, and exactly `size` before the last
      page. */
  function Page<T>(s: seq<T>, number: nat, size: nat): (r: Result<seq<T>, PageError>)
    requires size > 0
    ensures r.Success? <==> 1 <= number <= PageCount(|s|, size)
    ensures r.Success? ==> |r.value| <= size && PageStart(number, size) + |r.value| <= |s|
    ensures r.Success? ==> forall k :: 0 <= k < |r.value| ==> r.value[k] == s[PageStart(number, size) + k]
    ensures r.Success? && number < PageCount(|s|, size) ==> |r.value| == size
  {
    if 1 <= number <= PageCount(|s|, size) then
      var c := PageCount(|s|, size);
      var lo := PageStart(number, size);
      PageCountBounds(|s|, size);
      PageStartMonotonic(number, c, size);
      assert number < c ==> lo + size <= |s| by {
        if number < c {
          PageStartMonotonic(number + 1, c, size);
        }
      }
      Success(Window(s, lo, size))
    else
      Failure(InvalidPage)
  }

  /** A page holds only entries of the list. */
  lemma PageWithin<T>(s: seq<T>, number: nat, size: nat)
    requires size > 0
    ensures Page(s, number, size).Success? ==> forall x :: x in Page(s, number, size).value ==> x in s
  {
    var r := Page(s, number, size);
    if r.Success? {
      forall x | x in r.value ensures x in s {
        var k :| 0 <= k < |r.value| && r.value[k] == x;
        assert x == s[PageStart(number, size) + k];
      }
    }
  }

  /** The reference cut: consecutive chunks of `size` entries, the last one possibly shorter;
      an empty list is one empty chunk. */
  function Chunks<T>(s: seq<T>, size: nat): (r: seq<seq<T>>)
    requires size > 0
    ensures |r| >= 1
    decreases |s|
  {
    if |s| <= size then [s] else [s[..size]] + Chunks(s[size..], size)
  }

  function Flatten<T>(ss: seq<seq<T>>): seq<T> {
    if |ss| == 0 then [] else ss[0] + Flatten(ss[1..])
  }

  /** The chunks put back together are the list: nothing lost, nothing repeated. */
  lemma {:induction false} FlattenChunks<T>(s: seq<T>, size: nat)
    requires size > 0
    ensures Flatten(Chunks(s, size)) == s
    decreases |s|
  {
    if |s| > size {
      FlattenChunks(s[size..], size);
      var c := Chunks(s, size);
      assert c[1..] == Chunks(s[size..], size);
      assert s == s[..size] + s[size..];
    } else {
      assert Flatten([s]) == s + Flatten([s][1..]);
    }
  }

  /** A window of the list past its first `k` entries is the window `k` entries further on. */
  lemma WindowShift<T>(s: seq<T>, k: nat, lo: nat, size: nat)
    requires k + lo <= |s|
    ensures Window(s[k..], lo, size) == Window(s, k + lo, size)
  {
    assert Min(lo + size, |s| - k) + k == Min(k + lo + size, |s|);
  }

  /** Past the first page, paging a list is paging what follows its first page. */
  lemma PageOfRest<T>(s: seq<T>, number: nat, size: nat)
    requires size > 0 && |s| > size && 2 <= number <= PageCount(|s|, size)
    ensures Page(s, number, size) == Page(s[size..], number - 1, size)
  {
    PageCountOfRest(|s|, size);
    PageIsWindow(s, number, size);
    PageIsWindow(s[size..], number - 1, size);
    WindowShift(s, size, PageStart(number - 1, size), size);
  }

  lemma PageCountOfRest(total: nat, size: nat)
    requires size > 0 && total > size
    ensures PageCount(total, size) == 1 + PageCount(total - size, size)
  {
  }

  lemma PageIsWindow<T>(s: seq<T>, number: nat, size: nat)
    requires size > 0 && 1 <= number <= PageCount(|s|, size)
    ensures PageStart(number, size) <= |s|
    ensures Page(s, number, size) == Success(Window(s, PageStart(number, size), size))
  {
    PageCountBounds(|s|, size);
    PageStartMonotonic(number, PageCount(|s|, size), size);
  }

  /** Each existing page is the corresponding reference chunk, and there are as many pages as
      chunks. */
  lemma {:induction false} PageIsChunk<T>(s: seq<T>, number: nat, size: nat)
    requires size > 0 && 1 <= number <= PageCount(|s|, size)
    ensures |Chunks(s, size)| == PageCount(|s|, size)
    ensures Page(s, number, size) == Success(Chunks(s, size)[number - 1])
    decreases |s|
  {
    if |s| <= size {
      assert number == 1 && Chunks(s, size) == [s];
      assert Window(s, 0, size) == s;
    } else if number == 1 {
      PageIsChunk(s[size..], 1, size);
      assert Window(s, 0, size) == s[..size];
    } else {
      PageIsChunk(s[size..], number - 1, size);
      PageOfRest(s, number, size);
    }
  }

  /** Every page of the list, in order. */
  function AllPages<T>(s: seq<T>, size: nat): seq<seq<T>>
    requires size > 0
  {
    seq(PageCount(|s|, size), i requires 0 <= i < PageCount(|s|, size) => Page(s, i + 1, size).value)
  }

  /** Conservation: reading every page in order gives back the whole list, so the entry counts of
      the pages add up to the list's length and no entry appears on two pages. */
  lemma PagesConserveEntries<T>(s: seq<T>, size: nat)
    requires size > 0
    ensures Flatten(AllPages(s, size)) == s
  {
    var pages := AllPages(s, size);
    var chunks := Chunks(s, size);
    PageIsChunk(s, 1, size);
    assert |pages| == |chunks|;
    forall i | 0 <= i < |pages|
      ensures pages[i] == chunks[i]
    {
      PageIsChunk(s, i + 1, size);
      assert pages[i] == Page(s, i + 1, size).value;
    }
    assert pages == chunks;
    FlattenChunks(s, size);
  }
}
