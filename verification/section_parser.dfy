/**
 The section parser (ingestion/section_parser.py): finds the first
 "ITEM n" heading on a page, normalises it with `str.title()`, and carries
 the most recent heading forward onto the pages that follow.
 */
module SectionParser {
  import opened Options
  import opened Text
  import opened Records

  // ---------------------------------------------------------------------
  // ITEM_PATTERN = (ITEM\s+\d+[A-Z]?)\.?  with re.IGNORECASE
  // ---------------------------------------------------------------------

  /** The word "item", in any letter case, starts at `p`. */
  predicate ItemWordAt(s: string, p: nat) {
    && p + 4 <= |s|
    && LowerChar(s[p]) == 'i' && LowerChar(s[p + 1]) == 't'
    && LowerChar(s[p + 2]) == 'e' && LowerChar(s[p + 3]) == 'm'
  }

  /** Where group 1 of ITEM_PATTERN ends when the pattern matches at `p`:
      "item", one or more whitespace characters, one or more digits and, if
      a letter follows, that letter. The greedy runs never need to give
      characters back, so the match exists exactly when each run is non-empty.
      The optional trailing dot lies outside the group. */
  function ItemMatchEnd(s: string, p: nat): (r: Option<nat>)
    ensures r.Some? ==> p + 6 <= r.value <= |s|
  {
    if !ItemWordAt(s, p) then None
    else
      var a := SkipSpaces(s, p + 4);
      if a == p + 4 then None
      else
        var b := SkipDigits(s, a);
        if b == a then None
        else Some(if b < |s| && IsLetter(s[b]) then b + 1 else b)
  }

  /** The shape of the captured text: "item" in any case, a whitespace run,
      a digit run, and at most one letter. */
  predicate ItemGroup(g: string) {
    && ItemWordAt(g, 0)
    && var a := SkipSpaces(g, 4);
    && a > 4
    && var b := SkipDigits(g, a);
    && b > a
    && (b == |g| || (b + 1 == |g| && IsLetter(g[b])))
  }

  /** The text a match captures has the ITEM shape. */
  lemma ItemMatchGroup(s: string, p: nat)
    requires ItemMatchEnd(s, p).Some?
    ensures ItemGroup(s[p..ItemMatchEnd(s, p).value])
  {
    var e := ItemMatchEnd(s, p).value;
    var g := s[p..e];
    var a := SkipSpaces(s, p + 4);
    var b := SkipDigits(s, a);
    assert g[a - p] == s[a];
    SkipSpacesAt(g, 4, a - p);
    if b - p < |g| {
      assert g[b - p] == s[b];
    }
    SkipDigitsAt(g, a - p, b - p);
  }

  /** A regex match of group 1 at `p`, stated position by position: "item"
      at `p`, whitespace on `[p + 4, a)`, digits on `[a, b)`, both runs
      non-empty and maximal, and the match ending after one more letter
      when a letter follows the digits. */
  predicate GreedyItem(s: string, p: nat, a: nat, b: nat, e: nat) {
    && ItemWordAt(s, p)
    && p + 4 < a < b <= |s|
    && SpaceRange(s, p + 4, a)
    && DigitRange(s, a, b)
    && (b == |s| || !IsDigit(s[b]))
    && e == (if b < |s| && IsLetter(s[b]) then b + 1 else b)
  }

  /** "item" at `p`, then a non-empty whitespace run, then the digit at `a`. */
  predicate ItemDigitAt(s: string, p: nat, a: nat) {
    ItemWordAt(s, p) && p + 4 < a < |s| && SpaceRange(s, p + 4, a) && IsDigit(s[a])
  }

  /** The scanner returns `e` exactly when the greedy regex match at `p`
      ends at `e`. */
  lemma ItemMatchExact(s: string, p: nat, e: nat)
    ensures ItemMatchEnd(s, p) == Some(e) <==> exists a: nat, b: nat :: GreedyItem(s, p, a, b, e)
  {
    if ItemMatchEnd(s, p) == Some(e) {
      var a := SkipSpaces(s, p + 4);
      var b := SkipDigits(s, a);
      assert GreedyItem(s, p, a, b, e);
    }
    if exists a: nat, b: nat :: GreedyItem(s, p, a, b, e) {
      var a: nat, b: nat :| GreedyItem(s, p, a, b, e);
      assert IsDigit(s[a]);
      SkipSpacesAt(s, p + 4, a);
      SkipDigitsAt(s, a, b);
    }
  }

  /** The pattern matches at `p` exactly when "item", in any case, is
      followed there by whitespace and then a digit. */
  lemma ItemMatchIff(s: string, p: nat)
    ensures ItemMatchEnd(s, p).Some? <==> exists a: nat :: ItemDigitAt(s, p, a)
  {
    if ItemMatchEnd(s, p).Some? {
      assert ItemDigitAt(s, p, SkipSpaces(s, p + 4));
    }
    if exists a: nat :: ItemDigitAt(s, p, a) {
      var a: nat :| ItemDigitAt(s, p, a);
      SkipSpacesAt(s, p + 4, a);
    }
  }

  /** A captured ITEM text never contains a dot. */
  lemma ItemGroupNoDot(g: string)
    requires ItemGroup(g)
    ensures '.' !in g
  {
    var a := SkipSpaces(g, 4);
    var b := SkipDigits(g, a);
    forall k | 0 <= k < |g|
      ensures g[k] != '.'
    {
      if k < 4 {
        assert IsLetter(LowerChar(g[k]));
      }
    }
  }

  /** Leftmost match at or after `p`: its start and the end of its group. */
  function SearchItem(s: string, p: nat): (r: Option<(nat, nat)>)
    requires p <= |s|
    decreases |s| - p
    ensures r.Some? ==> p <= r.value.0 && ItemMatchEnd(s, r.value.0) == Some(r.value.1)
  {
    match ItemMatchEnd(s, p)
    case Some(e) => Some((p, e))
    case None => if p == |s| then None else SearchItem(s, p + 1)
  }

  /** No match starts in `[lo, hi)`. */
  predicate NoItemBetween(s: string, lo: nat, hi: nat) {
    forall j: nat :: lo <= j < hi ==> ItemMatchEnd(s, j).None?
  }

  /** SearchItem finds the leftmost match, and finds one whenever one exists. */
  lemma {:induction false} SearchItemLeftmost(s: string, p: nat)
    requires p <= |s|
    decreases |s| - p
    ensures SearchItem(s, p).Some? ==> NoItemBetween(s, p, SearchItem(s, p).value.0)
    ensures SearchItem(s, p).None? ==> NoItemBetween(s, p, |s| + 1)
  {
    if ItemMatchEnd(s, p).None? && p < |s| {
      SearchItemLeftmost(s, p + 1);
    }
  }

  /** `ITEM_PATTERN.search(text).group(1)`, or None when nothing matches. */
  function FindItem(s: string): (r: Option<string>)
    ensures r.Some? ==> ItemGroup(r.value)
  {
    match SearchItem(s, 0)
    case None => None
    case Some((a, e)) =>
      ItemMatchGroup(s, a);
      Some(s[a..e])
  }

  /** FindItem returns the text of the leftmost match and is None exactly
      when no position matches. */
  lemma FindItemLeftmost(s: string)
    ensures FindItem(s).None? <==> NoItemBetween(s, 0, |s| + 1)
    ensures FindItem(s).Some? ==> exists a: nat :: (a <= |s| && NoItemBetween(s, 0, a)
      && ItemMatchEnd(s, a).Some? && FindItem(s).value == s[a..ItemMatchEnd(s, a).value])
  {
    SearchItemLeftmost(s, 0);
  }

  // ---------------------------------------------------------------------
  // normalize_item = item.replace(".", "").title()
  // ---------------------------------------------------------------------

  /** Python's `str.title()` on ASCII: a letter is upper-cased when the
      character before it is not a letter and lower-cased otherwise. */
  function Title(s: string): (r: string)
    ensures |r| == |s|
  {
    seq(|s|, i requires 0 <= i < |s| => if i > 0 && IsLetter(s[i - 1]) then LowerChar(s[i]) else UpperChar(s[i]))
  }

  /** Title case: a letter is upper-case exactly when it begins a run of letters. */
  predicate IsTitled(t: string) {
    forall i :: 0 <= i < |t| && IsLetter(t[i]) ==> (IsUpper(t[i]) <==> WordStart(t, i))
  }

  /** Position `i` begins a word: it is first or follows a non-letter. */
  predicate WordStart(t: string, i: int)
    requires 0 <= i <= |t|
  {
    i == 0 || !IsLetter(t[i - 1])
  }

  /** Title only changes letter case. */
  lemma TitleLower(s: string)
    ensures Lower(Title(s)) == Lower(s)
  {
    var t := Title(s);
    forall i | 0 <= i < |s|
      ensures Lower(t)[i] == Lower(s)[i]
    {
      LowerTwice(s[i]);
    }
  }

  /** The result of Title is title-cased. */
  lemma TitleTitled(s: string)
    ensures IsTitled(Title(s))
  {
    var t := Title(s);
    forall i | 0 <= i < |t| && IsLetter(t[i])
      ensures IsUpper(t[i]) <==> WordStart(t, i)
    {
      if i > 0 {
        assert IsLetter(t[i - 1]) <==> IsLetter(s[i - 1]);
      }
    }
  }

  lemma LowerTwice(c: char)
    ensures LowerChar(LowerChar(c)) == LowerChar(c)
  {
  }

  /** Two characters with the same lower case are equal when, if letters,
      they also agree on being upper-case. */
  lemma SameLetter(a: char, b: char)
    requires LowerChar(a) == LowerChar(b)
    requires IsLetter(a) ==> (IsUpper(a) <==> IsUpper(b))
    ensures a == b
  {
  }

  lemma TitledAt(t: string, i: nat)
    requires IsTitled(t) && i < |t| && IsLetter(t[i])
    ensures IsUpper(t[i]) <==> WordStart(t, i)
  {
  }

  /** Title is the only title-cased text with the letters of `s`: any
      title-cased `t` equal to `s` up to case is Title(s). */
  lemma TitleUnique(s: string, t: string)
    requires IsTitled(t) && Lower(t) == Lower(s)
    ensures t == Title(s)
  {
    var r := Title(s);
    TitleLower(s);
    TitleTitled(s);
    forall i | 0 <= i < |t|
      ensures t[i] == r[i]
    {
      assert Lower(t)[i] == Lower(r)[i];
      if IsLetter(t[i]) {
        assert IsLetter(r[i]);
        if i > 0 {
          assert Lower(t)[i - 1] == Lower(r)[i - 1];
          assert IsLetter(t[i - 1]) <==> IsLetter(r[i - 1]);
        }
        TitledAt(t, i);
        TitledAt(r, i);
      }
      SameLetter(t[i], r[i]);
    }
  }

  /** Title is idempotent. */
  lemma TitleIdempotent(s: string)
    ensures Title(Title(s)) == Title(s)
  {
    TitleTitled(s);
    TitleUnique(Title(s), Title(s));
  }

  /** Python's `normalize_item`: the item without its dots, title-cased.
      By TitleUnique the last two clauses determine the result. */
  function NormalizeItem(item: string): (r: string)
    ensures '.' !in r
    ensures IsTitled(r)
    ensures Lower(r) == Lower(RemoveChar(item, '.'))
  {
    TitleTitled(RemoveChar(item, '.'));
    TitleLower(RemoveChar(item, '.'));
    Title(RemoveChar(item, '.'))
  }

  // ---------------------------------------------------------------------
  // assign_items
  // ---------------------------------------------------------------------

  /** The normalised first ITEM heading of a page's text, if any. */
  function Heading(text: string): (r: Option<string>)
    ensures r.Some? ==> |r.value| >= 6 && '.' !in r.value
  {
    match FindItem(text)
    case None => None
    case Some(g) =>
      ItemGroupNoDot(g);
      Some(NormalizeItem(g))
  }

  /** The current item after a page whose heading is `h`: the heading, or
      the previous item when the page has none. */
  function NextItem(h: Option<string>, current: Option<string>): Option<string> {
    if h.Some? then h else current
  }

  /** Python's `current_item or "Unknown"`. */
  function ItemOr(current: Option<string>): (r: string)
    ensures r != ""
  {
    if current.Some? && current.value != "" then current.value else "Unknown"
  }

  /** Copies the page with its item added to the metadata. */
  function Tag(p: RawPage, item: string): (r: Page)
    ensures r.text == p.text && r.meta.item == item
    ensures r.meta.company == p.meta.company && r.meta.document == p.meta.document && r.meta.page == p.meta.page
  {
    Page(p.text, Metadata(p.meta.company, p.meta.document, item, p.meta.page))
  }

  /** The loop of `assign_items` from page index `i` on, with the heading
      search as a parameter so that the loop's bookkeeping can be reasoned
      about on its own. */
  function AssignFrom(pages: seq<RawPage>, i: nat, current: Option<string>, heading: string -> Option<string>): (r: seq<Page>)
    requires i <= |pages|
    decreases |pages| - i
    ensures |r| == |pages| - i
  {
    if i == |pages| then []
    else
      var c := NextItem(heading(pages[i].text), current);
      [Tag(pages[i], ItemOr(c))] + AssignFrom(pages, i + 1, c, heading)
  }

  /** Python's `assign_items`. */
  function AssignItems(pages: seq<RawPage>): (r: seq<Page>)
    ensures |r| == |pages|
  {
    AssignFrom(pages, 0, None, Heading)
  }

  /** Reference definition: the item in force on page `k` is the heading of
      the latest page at or before `k` that has one. */
  function LatestItem(pages: seq<RawPage>, k: int, heading: string -> Option<string>): Option<string>
    requires k < |pages|
    decreases k + 1
  {
    if k < 0 then None
    else if heading(pages[k].text).Some? then heading(pages[k].text)
    else LatestItem(pages, k - 1, heading)
  }

  lemma {:induction false} AssignFromSpec(pages: seq<RawPage>, i: nat, k: nat, current: Option<string>, heading: string -> Option<string>)
    requires i + k < |pages| && current == LatestItem(pages, i - 1, heading)
    decreases k
    ensures AssignFrom(pages, i, current, heading)[k] == Tag(pages[i + k], ItemOr(LatestItem(pages, i + k, heading)))
  {
    var c := LatestItem(pages, i, heading);
    assert NextItem(heading(pages[i].text), current) == c;
    var rest := AssignFrom(pages, i + 1, c, heading);
    var all := AssignFrom(pages, i, current, heading);
    assert all == [Tag(pages[i], ItemOr(c))] + rest;
    if k > 0 {
      AssignFromSpec(pages, i + 1, k - 1, c, heading);
      assert all[k] == rest[k - 1];
    } else {
      assert all[0] == Tag(pages[i], ItemOr(c));
    }
  }

  lemma AssignFromAll(pages: seq<RawPage>, heading: string -> Option<string>)
    ensures forall k :: 0 <= k < |pages| ==>
      AssignFrom(pages, 0, None, heading)[k] == Tag(pages[k], ItemOr(LatestItem(pages, k, heading)))
  {
    forall k | 0 <= k < |pages|
      ensures AssignFrom(pages, 0, None, heading)[k] == Tag(pages[k], ItemOr(LatestItem(pages, k, heading)))
    {
      AssignFromSpec(pages, 0, k, None, heading);
    }
  }

  /** assign_items keeps the pages, their order, texts and other metadata,
      and tags page `k` with the item in force there, "Unknown" if none. */
  lemma AssignItemsSpec(pages: seq<RawPage>)
    ensures |AssignItems(pages)| == |pages|
    ensures forall k :: 0 <= k < |pages| ==> AssignItems(pages)[k] == Tag(pages[k], ItemOr(LatestItem(pages, k, Heading)))
  {
    AssignFromAll(pages, Heading);
  }

  lemma {:induction false} NoEarlierItem(pages: seq<RawPage>, k: int)
    requires k < |pages|
    requires forall j :: 0 <= j <= k ==> FindItem(pages[j].text).None?
    decreases k + 1
    ensures LatestItem(pages, k, Heading) == None
  {
    if k >= 0 {
      NoEarlierItem(pages, k - 1);
    }
  }

  /** Pages before the first page with a match are tagged "Unknown". */
  lemma UnknownBeforeFirstItem(pages: seq<RawPage>, k: nat)
    requires k < |pages|
    requires forall j :: 0 <= j <= k ==> FindItem(pages[j].text).None?
    ensures AssignItems(pages)[k].meta.item == "Unknown"
  {
    AssignItemsSpec(pages);
    NoEarlierItem(pages, k);
  }

  /** A page with a match is tagged with its own normalised first match. */
  lemma OwnItemWins(pages: seq<RawPage>, k: nat)
    requires k < |pages| && FindItem(pages[k].text).Some?
    ensures AssignItems(pages)[k].meta.item == NormalizeItem(FindItem(pages[k].text).value)
  {
    AssignItemsSpec(pages);
  }

  /** A page without a match inherits the item of the page before it. */
  lemma ItemCarriedForward(pages: seq<RawPage>, k: nat)
    requires 0 < k < |pages| && FindItem(pages[k].text).None?
    ensures AssignItems(pages)[k].meta.item == AssignItems(pages)[k - 1].meta.item
  {
    AssignItemsSpec(pages);
  }

  /** A heading of the filings the project targets normalises as expected. */
  lemma NormalizeExample()
    ensures NormalizeItem("ITEM 7A") == "Item 7A"
  {
    var g := "ITEM 7A";
    assert '.' !in g;
    assert RemoveChar(g, '.') == g;
    TitleExample();
  }

  lemma TitleExample()
    ensures Title("ITEM 7A") == "Item 7A"
  {
    var t := Title("ITEM 7A");
    assert t[0] == 'I' && t[1] == 't' && t[2] == 'e' && t[3] == 'm';
    assert t[4] == ' ' && t[5] == '7' && t[6] == 'A';
  }
}
