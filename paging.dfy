/** Python list slicing and the page arithmetic the bot's listings share. */
module Paging {

  /** A slice bound as Python normalises it against a list of length n:
      negative bounds count from the end, and every bound is clamped to 0..n. */
  function ClampIndex(i: int, n: nat): (r: nat)
    ensures r <= n
    ensures 0 <= i <= n ==> r == i
    ensures i > n ==> r == n
    ensures i < 0 ==> r == (if n + i < 0 then 0 else n + i)
  {
    if i < 0 then (if n + i < 0 then 0 else n + i)
    else if i > n then n
    else i
  }

  /** `s[start:stop]`. */
  function PySlice<T>(s: seq<T>, start: int, stop: int): (r: seq<T>)
    ensures |r| <= |s|
    ensures 0 <= start <= stop <= |s| ==> r == s[start..stop]
  {
    var a := ClampIndex(start, |s|);
    var b := ClampIndex(stop, |s|);
    if a < b then s[a..b] else []
  }

  /** Every element of a slice comes from the sliced list. */
  lemma PySliceIsSublist<T>(s: seq<T>, start: int, stop: int)
    ensures forall x :: x in PySlice(s, start, stop) ==> x in s
  {
    var a := ClampIndex(start, |s|);
    var b := ClampIndex(stop, |s|);
    if a < b {
      forall x | x in s[a..b] ensures x in s {
        var k :| 0 <= k < b - a && s[a..b][k] == x;
        assert s[a + k] == x;
      }
    }
  }

  /** `(n + per - 1) // per`: the number of pages of `per` items that n items fill. */
  function PageCount(n: nat, per: nat): nat
    requires per > 0
  {
    (n + per - 1) / per
  }

  /** The page count is the ceiling of n / per: the pages hold all n items and
      the last page is not empty. */
  lemma PageCountIsCeiling(n: nat, per: nat)
    requires per > 0
    ensures n <= PageCount(n, per) * per
    ensures PageCount(n, per) > 0 ==> (PageCount(n, per) - 1) * per < n
    ensures PageCount(n, per) == 0 <==> n == 0
  {
    var q := PageCount(n, per);
    var m := n + per - 1;
    assert m == q * per + m % per;
    assert 0 <= m % per < per;
  }

  /** `s[page * per : (page + 1) * per]`. */
  function Page<T>(s: seq<T>, page: int, per: nat): (r: seq<T>)
    requires per > 0
    ensures |r| <= per
  {
    PySlice(s, page * per, (page + 1) * per)
  }

  /** Every item is on exactly the page its index divided by the page size names,
      at the remainder's position, and the pages before the count are not empty. */
  lemma ItemOnItsPage<T>(s: seq<T>, i: nat, per: nat)
    requires per > 0 && i < |s|
    ensures var p := i / per;
            p < PageCount(|s|, per)
            && i % per < |Page(s, p, per)|
            && Page(s, p, per)[i % per] == s[i]
  {
    var p := i / per;
    var lo := p * per;
    var hi := (p + 1) * per;
    assert i == lo + i % per && 0 <= i % per < per by { DivMod(i, per); }
    assert p < PageCount(|s|, per) by {
      PageCountIsCeiling(|s|, per);
      if p >= PageCount(|s|, per) {
        LeMul(PageCount(|s|, per), p, per);
      }
    }
    assert 0 <= lo <= i < hi by {
      Distrib(p, per);
      LeMul(0, p, per);
    }
    SliceAt(s, lo, hi, i);
  }

  lemma SliceAt<T>(s: seq<T>, lo: int, hi: int, i: int)
    requires 0 <= lo <= i < hi && i < |s|
    ensures i - lo < |PySlice(s, lo, hi)| && PySlice(s, lo, hi)[i - lo] == s[i]
  {
    assert ClampIndex(lo, |s|) == lo;
  }

  lemma DivMod(i: nat, per: nat)
    requires per > 0
    ensures i == (i / per) * per + i % per && 0 <= i % per < per
  {
  }

  lemma Distrib(p: int, per: int)
    ensures (p + 1) * per == p * per + per
  {
  }

  lemma LeMul(a: nat, b: nat, c: nat)
    requires a <= b
    ensures a * c <= b * c
  {
  }

  /** Pages numbered from 0 up to the count are not empty; later pages are. */
  lemma PageNonEmptyIffInRange<T>(s: seq<T>, page: nat, per: nat)
    requires per > 0
    ensures |Page(s, page, per)| > 0 <==> page < PageCount(|s|, per)
  {
    PageCountIsCeiling(|s|, per);
    if page < PageCount(|s|, per) {
      LeMul(page + 1, PageCount(|s|, per), per);
      assert page * per < |s|;
    } else {
      LeMul(PageCount(|s|, per), page, per);
    }
  }

  /** `[xs[i:i+w] for i in range(0, len(xs), w)]`: the rows of a keyboard of width w. */
  function Chunk<T>(xs: seq<T>, w: nat): (rows: seq<seq<T>>)
    requires w > 0
    decreases |xs|
  {
    if xs == [] then []
    else if |xs| <= w then [xs]
    else [xs[..w]] + Chunk(xs[w..], w)
  }

  function Flatten<T>(rows: seq<seq<T>>): seq<T>
  {
    if rows == [] then [] else rows[0] + Flatten(rows[1..])
  }

  /** The rows, read left to right and top to bottom, are the list again; every
      row is full except possibly the last, and none is empty. */
  lemma {:induction false} ChunkShape<T>(xs: seq<T>, w: nat)
    requires w > 0
    ensures Flatten(Chunk(xs, w)) == xs
    ensures forall r :: 0 <= r < |Chunk(xs, w)| ==> 0 < |Chunk(xs, w)[r]| <= w
    ensures forall r :: 0 <= r < |Chunk(xs, w)| - 1 ==> |Chunk(xs, w)[r]| == w
    decreases |xs|
  {
    if |xs| > w {
      ChunkShape(xs[w..], w);
      assert xs == xs[..w] + xs[w..];
      assert Chunk(xs, w)[1..] == Chunk(xs[w..], w);
    }
  }

  /** A list of k * w items makes k full rows; row r holds items r*w .. r*w + w - 1. */
  lemma {:induction false} ChunkFull<T>(xs: seq<T>, w: nat, k: nat)
    requires w > 0 && |xs| == k * w
    ensures |Chunk(xs, w)| == k
    ensures forall r :: 0 <= r < k ==> r * w + w <= |xs| && Chunk(xs, w)[r] == xs[r * w .. r * w + w]
    decreases k
  {
    if k == 1 {
      assert xs[0 * w .. 0 * w + w] == xs;
    } else if k > 1 {
      var m := (k - 1) * w;
      assert |xs| == m + w by { Distrib(k - 1, w); }
      assert m >= w by { LeMul(1, k - 1, w); }
      var rest := xs[w..];
      ChunkFull(rest, w, k - 1);
      assert Chunk(xs, w) == [xs[..w]] + Chunk(rest, w);
      forall r | 0 <= r < k ensures r * w + w <= |xs| && Chunk(xs, w)[r] == xs[r * w .. r * w + w] {
        if r == 0 {
          assert xs[0 * w .. 0 * w + w] == xs[..w];
        } else {
          var a := (r - 1) * w;
          assert a + w <= |rest| && Chunk(rest, w)[r - 1] == rest[a .. a + w];
          ChunkRow(xs, w, r, a);
        }
      }
    }
  }

  /** Row r > 0 of a list, from row r - 1 of the list without its first row. */
  lemma ChunkRow<T>(xs: seq<T>, w: nat, r: nat, a: nat)
    requires w > 0 && r > 0 && a == (r - 1) * w && a + w + w <= |xs|
    requires Chunk(xs, w) == [xs[..w]] + Chunk(xs[w..], w)
    requires r - 1 < |Chunk(xs[w..], w)| && Chunk(xs[w..], w)[r - 1] == xs[w..][a .. a + w]
    ensures r * w + w <= |xs| && Chunk(xs, w)[r] == xs[r * w .. r * w + w]
  {
    assert r * w == a + w by { Distrib(r - 1, w); }
    assert xs[w..][a .. a + w] == xs[a + w .. a + w + w];
  }
}
