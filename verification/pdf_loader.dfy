/**
 The PDF loader (ingestion/pdf_loader.py): whitespace normalisation of the
 extracted page text and the page loop that numbers and filters pages. The
 PDF reader itself is outside the model: `load_pdf` receives the sequence
 of texts `page.extract_text()` returned, `None` included.
 */
module PdfLoader {
  import opened Options
  import opened Text
  import opened Records

  /** `re.sub(r"\s+", " ", s)`: every maximal run of whitespace becomes one space. */
  function Collapse(s: string): (r: string)
    decreases |s|
    ensures |r| <= |s|
  {
    if |s| == 0 then ""
    else if IsSpace(s[0]) then " " + Collapse(s[SkipSpaces(s, 1)..])
    else [s[0]] + Collapse(s[1..])
  }

  /** Every whitespace character is a plain space and is not followed by
      another whitespace character. */
  predicate SingleSpaced(r: string) {
    forall i :: 0 <= i < |r| && IsSpace(r[i]) ==> r[i] == ' ' && (i + 1 < |r| ==> !IsSpace(r[i + 1]))
  }

  predicate StartsWithSpace(s: string) {
    |s| > 0 && IsSpace(s[0])
  }

  /** The result of Collapse is single-spaced and starts with whitespace
      exactly when the input does. */
  lemma {:induction false} CollapseSpec(s: string)
    decreases |s|
    ensures SingleSpaced(Collapse(s))
    ensures StartsWithSpace(Collapse(s)) <==> StartsWithSpace(s)
  {
    if |s| > 0 {
      if IsSpace(s[0]) {
        var t := s[SkipSpaces(s, 1)..];
        CollapseSpec(t);
        SingleSpacedCons(' ', Collapse(t));
      } else {
        CollapseSpec(s[1..]);
        SingleSpacedCons(s[0], Collapse(s[1..]));
      }
    }
  }

  lemma SingleSpacedCons(c: char, r: string)
    requires SingleSpaced(r)
    requires IsSpace(c) ==> c == ' ' && !StartsWithSpace(r)
    ensures SingleSpaced([c] + r)
  {
    var t := [c] + r;
    forall i | 0 <= i < |t| && IsSpace(t[i])
      ensures t[i] == ' ' && (i + 1 < |t| ==> !IsSpace(t[i + 1]))
    {
      if i > 0 {
        assert t[i] == r[i - 1];
        if i + 1 < |t| {
          assert t[i + 1] == r[i];
        }
      }
    }
  }

  /** A single-spaced text is left alone by Collapse. */
  lemma {:induction false} CollapseFixed(r: string)
    requires SingleSpaced(r)
    decreases |r|
    ensures Collapse(r) == r
  {
    if |r| > 0 {
      SingleSpacedTail(r);
      if IsSpace(r[0]) {
        assert SkipSpaces(r, 1) == 1;
        CollapseFixed(r[1..]);
        assert r == " " + r[1..];
      } else {
        CollapseFixed(r[1..]);
        assert r == [r[0]] + r[1..];
      }
    }
  }

  lemma SingleSpacedTail(r: string)
    requires |r| > 0 && SingleSpaced(r)
    ensures SingleSpaced(r[1..])
  {
    var t := r[1..];
    forall i | 0 <= i < |t| && IsSpace(t[i])
      ensures t[i] == ' ' && (i + 1 < |t| ==> !IsSpace(t[i + 1]))
    {
      assert t[i] == r[i + 1];
      if i + 1 < |t| {
        assert t[i + 1] == r[i + 2];
      }
    }
  }

  /** Any infix of a single-spaced text is single-spaced. */
  lemma SingleSpacedInfix(r: string, lo: nat, hi: nat)
    requires lo <= hi <= |r| && SingleSpaced(r)
    ensures SingleSpaced(r[lo..hi])
  {
    var t := r[lo..hi];
    forall i | 0 <= i < |t| && IsSpace(t[i])
      ensures t[i] == ' ' && (i + 1 < |t| ==> !IsSpace(t[i + 1]))
    {
      assert t[i] == r[lo + i];
      if i + 1 < |t| {
        assert t[i + 1] == r[lo + i + 1];
      }
    }
  }

  /** `a` is empty or ends in a character other than whitespace. */
  predicate EndsUnspaced(a: string) {
    |a| == 0 || !IsSpace(a[|a| - 1])
  }

  /** Collapse works piece by piece: a cut after a non-whitespace character
      splits no whitespace run. */
  lemma {:induction false} CollapseAppend(a: string, b: string)
    requires EndsUnspaced(a)
    decreases |a|
    ensures Collapse(a + b) == Collapse(a) + Collapse(b)
  {
    if |a| > 0 {
      var s := a + b;
      if IsSpace(a[0]) {
        var k := SkipSpaces(a, 1);
        assert k < |a|;
        SkipSpacesAt(s, 1, k);
        assert s[k..] == a[k..] + b;
        CollapseAppend(a[k..], b);
      } else {
        assert s[1..] == a[1..] + b;
        CollapseAppend(a[1..], b);
      }
    } else {
      assert a + b == b;
    }
  }

  /** A whole run of whitespace becomes exactly one space. */
  lemma CollapseRun(w: string, b: string)
    requires |w| > 0 && AllSpace(w) && !StartsWithSpace(b)
    ensures Collapse(w + b) == " " + Collapse(b)
  {
    var s := w + b;
    assert IsSpace(s[0]);
    SkipSpacesAt(s, 1, |w|);
    assert s[|w|..] == b;
  }

  /** A character other than whitespace is kept as it is. */
  lemma CollapseChar(c: char)
    requires !IsSpace(c)
    ensures Collapse([c]) == [c]
  {
    assert [c][1..] == "";
  }

  /** Python's `clean_text`: collapse whitespace runs, then strip. */
  function CleanText(s: string): (r: string)
    ensures IsStripped(r)
  {
    Strip(Collapse(s))
  }

  /** The cleaned text has no leading or trailing whitespace and its only
      whitespace characters are single spaces, never two in a row. */
  lemma CleanTextSingleSpaced(s: string)
    ensures IsStripped(CleanText(s)) && SingleSpaced(CleanText(s))
  {
    var c := Collapse(s);
    CollapseSpec(s);
    var lo := SkipSpaces(c, 0);
    SingleSpacedInfix(c, lo, lo + |Strip(c)|);
  }

  /** Cleaning twice is cleaning once. */
  lemma CleanTextIdempotent(s: string)
    ensures CleanText(CleanText(s)) == CleanText(s)
  {
    var c := CleanText(s);
    CleanTextSingleSpaced(s);
    CollapseFixed(c);
    StripStripped(c);
  }

  /** The non-whitespace characters of `s`, in order. */
  function NonSpace(s: string): (r: string)
    ensures forall i :: 0 <= i < |r| ==> !IsSpace(r[i])
  {
    if |s| == 0 then ""
    else (if IsSpace(s[0]) then "" else [s[0]]) + NonSpace(s[1..])
  }

  lemma {:induction false} NonSpaceConcat(a: string, b: string)
    decreases |a|
    ensures NonSpace(a + b) == NonSpace(a) + NonSpace(b)
  {
    if |a| > 0 {
      var x := if IsSpace(a[0]) then "" else [a[0]];
      assert (a + b)[0] == a[0];
      assert (a + b)[1..] == a[1..] + b;
      assert NonSpace(a + b) == x + NonSpace(a[1..] + b);
      NonSpaceConcat(a[1..], b);
      assert x + (NonSpace(a[1..]) + NonSpace(b)) == (x + NonSpace(a[1..])) + NonSpace(b);
    } else {
      assert a + b == b;
    }
  }

  lemma {:induction false} NonSpaceOfSpaces(w: string)
    requires AllSpace(w)
    decreases |w|
    ensures NonSpace(w) == ""
  {
    if |w| > 0 {
      NonSpaceOfSpaces(w[1..]);
    }
  }

  lemma NonSpaceSkip(s: string, k: nat)
    requires 1 <= k <= |s| && SpaceRange(s, 0, k)
    ensures NonSpace(s) == NonSpace(s[k..])
  {
    assert s == s[..k] + s[k..];
    NonSpaceConcat(s[..k], s[k..]);
    NonSpaceOfSpaces(s[..k]);
  }

  /** Collapsing whitespace keeps every other character, in order. */
  lemma {:induction false} CollapseNonSpace(s: string)
    decreases |s|
    ensures NonSpace(Collapse(s)) == NonSpace(s)
  {
    if |s| > 0 {
      if IsSpace(s[0]) {
        var k := SkipSpaces(s, 1);
        CollapseNonSpace(s[k..]);
        NonSpaceConcat(" ", Collapse(s[k..]));
        NonSpaceSkip(s, k);
      } else {
        CollapseNonSpace(s[1..]);
        NonSpaceConcat([s[0]], Collapse(s[1..]));
      }
    }
  }

  /** Stripping keeps every non-whitespace character, in order. */
  lemma StripNonSpace(s: string)
    ensures NonSpace(Strip(s)) == NonSpace(s)
  {
    var r := Strip(s);
    var lo := SkipSpaces(s, 0);
    var hi := lo + |r|;
    assert s == s[..lo] + r + s[hi..];
    NonSpaceConcat(s[..lo] + r, s[hi..]);
    NonSpaceConcat(s[..lo], r);
    NonSpaceOfSpaces(s[..lo]);
    NonSpaceOfSpaces(s[hi..]);
  }

  /** clean_text preserves the non-whitespace characters in order: the output
      without its spaces is the input without its whitespace. */
  lemma CleanTextNonSpace(s: string)
    ensures NonSpace(CleanText(s)) == NonSpace(s)
  {
    StripNonSpace(Collapse(s));
    CollapseNonSpace(s);
  }

  /** A text made only of whitespace cleans to the empty string. */
  lemma CleanTextOfSpaces(w: string)
    requires AllSpace(w)
    ensures CleanText(w) == ""
  {
    CleanTextNonSpace(w);
    NonSpaceOfSpaces(w);
    var c := CleanText(w);
    if |c| > 0 {
      NonSpaceFirst(c);
    }
  }

  /** A stripped non-empty text keeps its first character in NonSpace. */
  lemma NonSpaceFirst(c: string)
    requires |c| > 0 && !IsSpace(c[0])
    ensures |NonSpace(c)| > 0
  {
  }

  /** Python's `if not text: continue`: None and "" are skipped. */
  predicate Truthy(t: Option<string>) {
    t.Some? && |t.value| > 0
  }

  /** The page loop of `load_pdf` from page index `i` on. Page numbers are
      one-based indices into the reader's pages. */
  function LoadFrom(texts: seq<Option<string>>, company: string, document: string, i: nat): (r: seq<RawPage>)
    requires i <= |texts|
    decreases |texts| - i
    ensures |r| <= |texts| - i
  {
    if i == |texts| then []
    else
      var rest := LoadFrom(texts, company, document, i + 1);
      if Truthy(texts[i]) then
        [RawPage(CleanText(texts[i].value), PageMeta(company, document, i + 1))] + rest
      else rest
  }

  /** Python's `load_pdf` over the texts extracted from each page. */
  function LoadPdf(texts: seq<Option<string>>, company: string, document: string): seq<RawPage>
  {
    LoadFrom(texts, company, document, 0)
  }

  /** `p` is the page built from the non-empty text at its one-based number,
      after index `i`, with the given company and document. */
  predicate LoadedFrom(p: RawPage, texts: seq<Option<string>>, company: string, document: string, i: nat) {
    && i < p.meta.page <= |texts|
    && Truthy(texts[p.meta.page - 1])
    && p.text == CleanText(texts[p.meta.page - 1].value)
    && p.meta.company == company && p.meta.document == document
  }

  /** Every loaded page comes from a non-empty text, carries the one-based
      page number of that text and copies `company` and `document`. */
  lemma {:induction false} LoadFromSound(texts: seq<Option<string>>, company: string, document: string, i: nat)
    requires i <= |texts|
    decreases |texts| - i
    ensures forall k :: 0 <= k < |LoadFrom(texts, company, document, i)| ==>
      LoadedFrom(LoadFrom(texts, company, document, i)[k], texts, company, document, i)
  {
    if i < |texts| {
      LoadFromSound(texts, company, document, i + 1);
      var rest := LoadFrom(texts, company, document, i + 1);
      var r := LoadFrom(texts, company, document, i);
      forall k | 0 <= k < |r|
        ensures LoadedFrom(r[k], texts, company, document, i)
      {
        if Truthy(texts[i]) && k > 0 {
          assert r[k] == rest[k - 1];
        }
      }
    }
  }

  /** Page numbers strictly increase. */
  lemma {:induction false} LoadFromIncreasing(texts: seq<Option<string>>, company: string, document: string, i: nat)
    requires i <= |texts|
    decreases |texts| - i
    ensures forall j, k :: 0 <= j < k < |LoadFrom(texts, company, document, i)| ==>
      LoadFrom(texts, company, document, i)[j].meta.page < LoadFrom(texts, company, document, i)[k].meta.page
  {
    if i < |texts| {
      LoadFromIncreasing(texts, company, document, i + 1);
      LoadFromSound(texts, company, document, i + 1);
      var rest := LoadFrom(texts, company, document, i + 1);
      var r := LoadFrom(texts, company, document, i);
      if Truthy(texts[i]) {
        forall j, k | 0 <= j < k < |r|
          ensures r[j].meta.page < r[k].meta.page
        {
          assert r[k] == rest[k - 1];
          if j > 0 {
            assert r[j] == rest[j - 1];
          } else {
            assert LoadedFrom(rest[k - 1], texts, company, document, i + 1);
          }
        }
      }
    }
  }

  /** Every non-empty text yields a page with its one-based number. */
  lemma {:induction false} LoadFromComplete(texts: seq<Option<string>>, company: string, document: string, i: nat, j: nat)
    requires i <= j < |texts| && Truthy(texts[j])
    decreases j - i
    ensures exists k :: 0 <= k < |LoadFrom(texts, company, document, i)| && LoadFrom(texts, company, document, i)[k].meta.page == j + 1
  {
    var r := LoadFrom(texts, company, document, i);
    if i == j {
      assert r[0].meta.page == j + 1;
    } else {
      LoadFromComplete(texts, company, document, i + 1, j);
      var rest := LoadFrom(texts, company, document, i + 1);
      var k :| 0 <= k < |rest| && rest[k].meta.page == j + 1;
      if Truthy(texts[i]) {
        assert r[k + 1] == rest[k];
      }
    }
  }

  /** A page whose extracted text is only whitespace is kept, with text "",
      because the emptiness test runs before cleaning. */
  lemma WhitespacePageKept(texts: seq<Option<string>>, company: string, document: string, j: nat)
    requires j < |texts| && texts[j].Some? && |texts[j].value| > 0 && AllSpace(texts[j].value)
    ensures var r := LoadPdf(texts, company, document);
      exists k :: 0 <= k < |r| && r[k].meta.page == j + 1 && r[k].text == ""
  {
    var r := LoadPdf(texts, company, document);
    LoadFromComplete(texts, company, document, 0, j);
    LoadFromSound(texts, company, document, 0);
    var k :| 0 <= k < |r| && r[k].meta.page == j + 1;
    assert LoadedFrom(r[k], texts, company, document, 0);
    CleanTextOfSpaces(texts[j].value);
  }
}
