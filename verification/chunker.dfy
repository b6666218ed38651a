/**
 The chunker: page text cut into fixed-size, overlapping character windows,
 each carrying a copy of its page's metadata.
 */
module Chunker {
  import opened Text
  import opened Records

  /** Python's `t[a:b]` for a start `a >= 0` and any end `b`: a negative end
      counts from the back, and ends are clamped to the text. */
  function PySlice(t: string, a: nat, b: int): (r: string)
    ensures |r| <= |t|
  {
    var e := if b < 0 then (if |t| + b < 0 then 0 else |t| + b) else (if b > |t| then |t| else b);
    if a >= e then [] else t[a..e]
  }

  /** For a non-negative end the slice is the window `[a, min(b, |t|))`. */
  lemma PySliceWindow(t: string, a: nat, b: int)
    requires 0 <= b && a < |t|
    ensures PySlice(t, a, b) == t[a..Min(Max(a, b), |t|)]
    ensures |PySlice(t, a, b)| <= b - a || b < a
  {
  }

  function Min(a: int, b: int): int { if a <= b then a else b }
  function Max(a: int, b: int): int { if a >= b then a else b }

  /** The `while start < text_length` loop for one page, from offset `start`
      on; `step` is `chunk_size - overlap`. A non-positive step never ends on
      a non-empty page, which is why such a step is only allowed on an empty one. */
  function PageChunks(p: Page, size: int, step: int, start: nat): (r: seq<Chunk>)
    requires step > 0 || |p.text| == 0
    decreases |p.text| - start
    ensures AllCarry(r, p.meta)
  {
    if start >= |p.text| then []
    else [Chunk(PySlice(p.text, start, start + size), p.meta)] + PageChunks(p, size, step, start + step)
  }

  /** Every chunk carries the metadata `meta`. */
  predicate AllCarry(cs: seq<Chunk>, meta: Metadata) {
    forall k :: 0 <= k < |cs| ==> cs[k].meta == meta
  }

  /** Python's `chunk_text(pages, chunk_size, overlap)`. */
  function ChunkText(pages: seq<Page>, size: int, overlap: int): (r: seq<Chunk>)
    requires Terminates(pages, size, overlap)
    ensures |pages| == 0 ==> r == []
    ensures forall k :: 0 <= k < |r| ==> exists i :: 0 <= i < |pages| && r[k].meta == pages[i].meta
  {
    if |pages| == 0 then []
    else
      var first := PageChunks(pages[0], size, size - overlap, 0);
      var rest := ChunkText(pages[1..], size, overlap);
      assert forall k :: |first| <= k < |first| + |rest| ==> (first + rest)[k] == rest[k - |first|];
      first + rest
  }

  /** The source loop ends exactly when the step is positive or every page
      is empty. */
  predicate Terminates(pages: seq<Page>, size: int, overlap: int) {
    size - overlap > 0 || forall i :: 0 <= i < |pages| ==> |pages[i].text| == 0
  }

  /** Python's `math.ceil(n / d)` for `n >= 0`, `d > 0`. */
  function CeilDiv(n: nat, d: nat): nat
    requires d > 0
  {
    (n + d - 1) / d
  }

  // ---------------------------------------------------------------------
  // One page
  // ---------------------------------------------------------------------

  /** The loop makes ceil((|text| - start) / step) windows. */
  lemma {:induction false} PageChunksCount(p: Page, size: int, step: int, start: nat)
    requires step > 0 && start <= |p.text|
    decreases |p.text| - start
    ensures |PageChunks(p, size, step, start)| == CeilDiv(|p.text| - start, step)
  {
    var n := |p.text| - start;
    if start < |p.text| {
      if start + step >= |p.text| {
        assert step <= n + step - 1 < 2 * step;
        DivOne(n + step - 1, step);
      } else {
        PageChunksCount(p, size, step, start + step);
        assert CeilDiv(n, step) == (n - 1 + step) / step;
        assert CeilDiv(n - step, step) == (n - 1) / step;
        DivShift(n - 1, step);
      }
    }
  }

  lemma DivOne(x: nat, d: nat)
    requires d > 0 && d <= x < 2 * d
    ensures x / d == 1
  {
  }

  lemma DivShift(x: nat, d: nat)
    requires d > 0
    ensures (x + d) / d == x / d + 1
  {
    var q := x / d;
    var r := x % d;
    assert x == q * d + r;
    assert x + d == (q + 1) * d + r;
    DivUnique(x + d, d, q + 1, r);
  }

  lemma DivUnique(n: int, d: int, q: int, r: int)
    requires d > 0 && 0 <= r < d && n == q * d + r
    ensures n / d == q
  {
    var q' := n / d;
    var r' := n % d;
    assert n == q' * d + r';
    assert (q' - q) * d == r - r';
    if q' > q {
      MulMono(1, q' - q, d);
    } else if q' < q {
      MulMono(1, q - q', d);
    }
  }

  /** Window `k` of the loop starts at `start + k * step` and is the slice of
      `size` characters there. */
  lemma PageChunkAt(p: Page, size: int, step: int, start: nat, k: nat)
    requires step > 0 && k < |PageChunks(p, size, step, start)|
    ensures start + k * step < |p.text|
    ensures PageChunks(p, size, step, start)[k] == Chunk(PySlice(p.text, start + k * step, start + k * step + size), p.meta)
  {
    PageChunkAfter(p, size, step, start, k);
    AfterSteps(start, step, k);
  }

  /** `start` moved on by `k` steps, one step at a time. */
  function After(start: int, step: int, k: nat): int
    decreases k
  {
    if k == 0 then start else After(start + step, step, k - 1)
  }

  /** The start `k` turns later is `start + k * step`. */
  lemma {:induction false} AfterSteps(start: int, step: int, k: nat)
    decreases k
    ensures After(start, step, k) == start + k * step
  {
    if k > 0 {
      AfterSteps(start + step, step, k - 1);
      MulPred(k, step);
    }
  }

  /** Window `k` of the loop starts `k` turns after `start`. */
  lemma {:induction false} PageChunkAfter(p: Page, size: int, step: int, start: nat, k: nat)
    requires step > 0 && k < |PageChunks(p, size, step, start)|
    decreases k
    ensures 0 <= After(start, step, k) < |p.text|
    ensures PageChunks(p, size, step, start)[k] == Chunk(PySlice(p.text, After(start, step, k), After(start, step, k) + size), p.meta)
  {
    PageChunksCons(p, size, step, start);
    if k > 0 {
      PageChunkAfter(p, size, step, start + step, k - 1);
    }
  }

  /** One turn of the loop: the window at `start`, then the rest. */
  lemma PageChunksCons(p: Page, size: int, step: int, start: nat)
    requires step > 0 && start < |p.text|
    ensures PageChunks(p, size, step, start)
      == [Chunk(PySlice(p.text, start, start + size), p.meta)] + PageChunks(p, size, step, start + step)
  {
  }

  lemma MulPred(k: nat, step: int)
    requires k > 0
    ensures (k - 1) * step == k * step - step
  {
  }

  /** The windows of one page: window `k` is `text[k*step : k*step + size]`,
      and there are ceil(|text| / step) of them. */
  lemma PageWindows(p: Page, size: int, step: int)
    requires step > 0
    ensures |PageChunks(p, size, step, 0)| == CeilDiv(|p.text|, step)
    ensures forall k :: 0 <= k < |PageChunks(p, size, step, 0)| ==>
      k * step < |p.text| &&
      PageChunks(p, size, step, 0)[k] == Chunk(PySlice(p.text, k * step, k * step + size), p.meta)
  {
    PageChunksCount(p, size, step, 0);
    forall k | 0 <= k < |PageChunks(p, size, step, 0)|
      ensures k * step < |p.text|
      ensures PageChunks(p, size, step, 0)[k] == Chunk(PySlice(p.text, k * step, k * step + size), p.meta)
    {
      PageChunkAt(p, size, step, 0, k);
    }
  }

  /** With a non-negative chunk size, window `k` is the text from `k*step`
      up to `size` characters further or the end of the page, whichever
      comes first; it is never longer than `size` and never empty when
      `size > 0`. */
  lemma PageWindowText(p: Page, size: int, step: int, k: nat)
    requires step > 0 && size >= 0 && k < |PageChunks(p, size, step, 0)|
    ensures k * step < |p.text|
    ensures PageChunks(p, size, step, 0)[k].text == p.text[k * step..Min(k * step + size, |p.text|)]
    ensures |PageChunks(p, size, step, 0)[k].text| <= size
    ensures size > 0 ==> |PageChunks(p, size, step, 0)[k].text| > 0
  {
    PageChunkAt(p, size, step, 0, k);
    PySliceWindow(p.text, k * step, k * step + size);
  }

  /** With a non-negative overlap every character of the page lies in some
      window: position `j` lies in window `j / step`. */
  lemma PageCovered(p: Page, size: int, step: int, j: nat)
    requires 0 < step <= size && j < |p.text|
    ensures j / step < |PageChunks(p, size, step, 0)|
    ensures var k := j / step;
      k * step <= j < k * step + |PageChunks(p, size, step, 0)[k].text|
  {
    DivBounds(j, step);
    CoveredAt(p, size, step, j, j / step);
  }

  lemma CoveredAt(p: Page, size: int, step: int, j: nat, k: nat)
    requires 0 < step <= size && j < |p.text| && k * step <= j < k * step + step
    ensures k < |PageChunks(p, size, step, 0)|
    ensures k * step <= j < k * step + |PageChunks(p, size, step, 0)[k].text|
  {
    PageChunkExists(p, size, step, 0, k);
    PageWindowText(p, size, step, k);
  }

  /** A window starts at every multiple of the step inside the text. */
  lemma {:induction false} PageChunkExists(p: Page, size: int, step: int, start: nat, k: nat)
    requires step > 0 && start + k * step < |p.text|
    decreases k
    ensures k < |PageChunks(p, size, step, start)|
  {
    if k > 0 {
      MulPred(k, step);
      PageChunkExists(p, size, step, start + step, k - 1);
    }
  }

  lemma DivBounds(j: nat, d: nat)
    requires d > 0
    ensures (j / d) * d <= j < (j / d) * d + d
  {
  }

  lemma CeilDivAbove(j: nat, n: nat, d: nat)
    requires d > 0 && j < n
    ensures j / d < CeilDiv(n, d)
  {
    DivBounds(j, d);
    DivBounds(n + d - 1, d);
    var q := j / d;
    var c := (n + d - 1) / d;
    if c <= q {
      MulMono(c, q, d);
    }
  }

  lemma MulMono(a: nat, b: nat, d: nat)
    requires a <= b
    ensures a * d <= b * d
  {
  }

  /** Consecutive windows overlap: with `step <= size`, window `k` without
      its first `step` characters is a prefix of window `k + 1`. */
  lemma WindowsOverlap(p: Page, size: int, step: int, k: nat)
    requires 0 < step <= size && k + 1 < |PageChunks(p, size, step, 0)|
    ensures step <= |PageChunks(p, size, step, 0)[k].text|
    ensures StartsWith(PageChunks(p, size, step, 0)[k + 1].text, PageChunks(p, size, step, 0)[k].text[step..])
  {
    var cs := PageChunks(p, size, step, 0);
    var a := k * step;
    PageWindowText(p, size, step, k);
    PageWindowText(p, size, step, k + 1);
    MulSucc(k, step);
    assert cs[k].text == p.text[a..Min(a + size, |p.text|)];
    assert cs[k + 1].text == p.text[a + step..Min(a + step + size, |p.text|)];
    SliceOverlap(p.text, a, step, size);
  }

  lemma MulSucc(k: nat, step: int)
    ensures (k + 1) * step == k * step + step
  {
  }

  /** The windows at `a` and `a + step` of a text overlap in all but the
      first `step` characters of the first. */
  lemma SliceOverlap(t: string, a: nat, step: nat, size: int)
    requires step <= size && a + step < |t|
    ensures step <= |t[a..Min(a + size, |t|)]|
    ensures StartsWith(t[a + step..Min(a + step + size, |t|)], t[a..Min(a + size, |t|)][step..])
  {
    var x := t[a..Min(a + size, |t|)];
    var y := t[a + step..Min(a + step + size, |t|)];
    assert x[step..] == t[a + step..Min(a + size, |t|)];
    assert y[..|x[step..]|] == x[step..];
  }

  // ---------------------------------------------------------------------
  // All pages
  // ---------------------------------------------------------------------

  /** Chunking a concatenation of page lists chunks each list in turn. */
  lemma {:induction false} ChunkTextAppend(a: seq<Page>, b: seq<Page>, size: int, overlap: int)
    requires Terminates(a + b, size, overlap)
    ensures Terminates(a, size, overlap) && Terminates(b, size, overlap)
    ensures ChunkText(a + b, size, overlap) == ChunkText(a, size, overlap) + ChunkText(b, size, overlap)
  {
    TerminatesSlice(a + b, 0, |a|, size, overlap);
    TerminatesSlice(a + b, |a|, |a + b|, size, overlap);
    assert (a + b)[..|a|] == a;
    assert (a + b)[|a|..] == b;
    if |a| > 0 {
      assert (a + b)[0] == a[0];
      assert (a + b)[1..] == a[1..] + b;
      ChunkTextAppend(a[1..], b, size, overlap);
    } else {
      assert a + b == b;
    }
  }

  lemma TerminatesSlice(pages: seq<Page>, lo: nat, hi: nat, size: int, overlap: int)
    requires lo <= hi <= |pages| && Terminates(pages, size, overlap)
    ensures Terminates(pages[lo..hi], size, overlap)
  {
    if size - overlap <= 0 {
      forall i | 0 <= i < hi - lo
        ensures |pages[lo..hi][i].text| == 0
      {
        assert pages[lo..hi][i] == pages[lo + i];
      }
    }
  }

  /** A single page yields exactly that page's windows. */
  lemma ChunkTextSingle(p: Page, size: int, overlap: int)
    requires size - overlap > 0 || p.text == ""
    ensures Terminates([p], size, overlap)
    ensures ChunkText([p], size, overlap) == PageChunks(p, size, size - overlap, 0)
  {
    assert [p][1..] == [];
  }

  /** An empty page contributes no chunk. */
  lemma EmptyPageNoChunks(p: Page, size: int, overlap: int)
    requires p.text == ""
    ensures Terminates([p], size, overlap)
    ensures ChunkText([p], size, overlap) == []
  {
    ChunkTextSingle(p, size, overlap);
  }

  /** A chunk was cut from a page: it carries that page's metadata unchanged,
      its text occurs in the page's text, and with a positive chunk size it
      is not empty. */
  predicate CutFrom(c: Chunk, p: Page, size: int) {
    c.meta == p.meta && Contains(p.text, c.text) && (size > 0 ==> c.text != "")
  }

  lemma {:induction false} PageChunksCut(p: Page, size: int, step: int, start: nat)
    requires step > 0 || |p.text| == 0
    decreases |p.text| - start
    ensures forall c :: c in PageChunks(p, size, step, start) ==> CutFrom(c, p, size)
  {
    if start < |p.text| {
      var t := PySlice(p.text, start, start + size);
      var cs := PageChunks(p, size, step, start);
      PageChunksCut(p, size, step, start + step);
      assert cs == [Chunk(t, p.meta)] + PageChunks(p, size, step, start + step);
      SliceContained(p.text, start, start + size);
      forall c | c in cs
        ensures CutFrom(c, p, size)
      {
        if c != Chunk(t, p.meta) {
          assert c in PageChunks(p, size, step, start + step);
        }
      }
    }
  }

  lemma SliceContained(t: string, a: nat, b: int)
    requires a < |t|
    ensures Contains(t, PySlice(t, a, b))
    ensures b > a ==> PySlice(t, a, b) != ""
  {
    var r := PySlice(t, a, b);
    if r == [] {
      assert OccursAt(t, r, 0);
    } else {
      var e := if b < 0 then (if |t| + b < 0 then 0 else |t| + b) else (if b > |t| then |t| else b);
      assert r == t[a..e];
      assert OccursAt(t, r, a);
    }
  }

  /** Every chunk of `chunk_text` was cut from one of the input pages. */
  lemma {:induction false} ChunkTextSound(pages: seq<Page>, size: int, overlap: int)
    requires Terminates(pages, size, overlap)
    ensures forall c :: c in ChunkText(pages, size, overlap) ==>
      exists i :: 0 <= i < |pages| && CutFrom(c, pages[i], size)
  {
    if |pages| > 0 {
      TerminatesSlice(pages, 1, |pages|, size, overlap);
      ChunkTextSound(pages[1..], size, overlap);
      PageChunksCut(pages[0], size, size - overlap, 0);
      var head := PageChunks(pages[0], size, size - overlap, 0);
      var tail := ChunkText(pages[1..], size, overlap);
      forall c | c in ChunkText(pages, size, overlap)
        ensures exists i :: 0 <= i < |pages| && CutFrom(c, pages[i], size)
      {
        if c in head {
          assert CutFrom(c, pages[0], size);
        } else {
          assert c in tail;
          var i :| 0 <= i < |pages[1..]| && CutFrom(c, pages[1..][i], size);
          assert pages[1..][i] == pages[i + 1];
        }
      }
    }
  }
}
