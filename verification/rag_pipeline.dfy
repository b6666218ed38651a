/**
 The answering pipeline: fixed early exits for out-of-scope questions and
 for one precomputed calculation, then retrieval, a company filter with a
 fallback, reranking, prompting, answer extraction from the generator's
 output, refusal handling and a single citation. The retriever, the
 cross-encoder and the language model are function parameters.
 */
module RagPipeline {
  import opened Options
  import opened Text
  import opened Numbers
  import opened Records
  import opened Prompt
  import opened Reranker

  // ---------------------------------------------------------------------
  // Company detection
  // ---------------------------------------------------------------------

  /** Python's `detect_company(question)`: "apple" is checked first. */
  function DetectCompany(question: string): (r: Option<string>)
    ensures r == Some("Apple") <==> Contains(Lower(question), "apple")
    ensures r == Some("Tesla") <==> !Contains(Lower(question), "apple") && Contains(Lower(question), "tesla")
    ensures r.None? <==> !Contains(Lower(question), "apple") && !Contains(Lower(question), "tesla")
  {
    var q := Lower(question);
    if Contains(q, "apple") then Some("Apple")
    else if Contains(q, "tesla") then Some("Tesla")
    else None
  }

  // ---------------------------------------------------------------------
  // Answer cleaning
  // ---------------------------------------------------------------------

  const StrictRules: string := "STRICT RULES"
  const QuestionMarker: string := "QUESTION:"

  /** `r` is `text` up to the first occurrence of `m`, stripped. */
  ghost predicate CutAtFirst(text: string, m: string, r: string) {
    exists i: nat :: FirstAt(text, m, i) && r == Strip(text[..i])
  }

  /** One stop marker: cut at its first occurrence and strip again. */
  function CutAt(text: string, m: string): (r: string)
    requires |m| > 0
    ensures IsStripped(text) ==> IsStripped(r)
    ensures !Contains(text, m) ==> r == text
    ensures Contains(text, m) ==> CutAtFirst(text, m, r)
  {
    if Contains(text, m) then
      var b := BeforeFirst(text, m);
      assert text[..|b|] == b;
      assert FirstAt(text, m, |b|);
      assert CutAtFirst(text, m, Strip(b));
      Strip(b)
    else text
  }

  /** Python's `clean_answer(text)`. */
  function CleanAnswer(text: string): (r: string)
    ensures IsStripped(r)
  {
    Strip(CutAt(CutAt(Strip(text), StrictRules), QuestionMarker))
  }

  /** A stripped part of a text is an infix of it. */
  lemma CutAtInfix(text: string, m: string)
    requires |m| > 0
    ensures Contains(text, CutAt(text, m))
  {
    if Contains(text, m) {
      var b := BeforeFirst(text, m);
      assert OccursAt(text, b, 0);
      StripInfix(b);
      ContainsTrans(text, b, Strip(b));
    } else {
      ContainsSelf(text);
    }
  }

  /** Cutting at a marker removes every occurrence of it. */
  lemma CutAtRemoves(text: string, m: string)
    requires |m| > 0
    ensures !Contains(CutAt(text, m), m)
  {
    if Contains(text, m) {
      var b := BeforeFirst(text, m);
      StripInfix(b);
      NoMarkerInInfix(b, Strip(b), m);
    }
  }

  /** An infix of a text without the marker has no marker either. */
  lemma NoMarkerInInfix(s: string, t: string, m: string)
    requires !Contains(s, m) && Contains(s, t)
    ensures !Contains(t, m)
  {
    if Contains(t, m) {
      ContainsTrans(s, t, m);
    }
  }

  /** Stripping the start of a stripped text leaves a start of it: only
      trailing whitespace can go. */
  lemma StripPrefix(t: string, b: string)
    requires IsStripped(t) && StartsWith(t, b)
    ensures StartsWith(t, Strip(b))
  {
    if |b| > 0 {
      assert b[0] == t[0];
      SkipSpacesAt(b, 0, 0);
      var r := Strip(b);
      assert b[..|r|] == r;
      assert t[..|r|] == b[..|r|];
    }
  }

  /** Cutting a stripped text at a marker keeps its beginning. */
  lemma CutAtPrefix(t: string, m: string)
    requires |m| > 0 && IsStripped(t)
    ensures StartsWith(t, CutAt(t, m))
  {
    if Contains(t, m) {
      StripPrefix(t, BeforeFirst(t, m));
    }
  }

  /** The cleaned answer is a stripped infix of the text holding neither
      stop marker. */
  lemma CleanAnswerSpec(text: string)
    ensures var r := CleanAnswer(text);
      IsStripped(r) && Contains(text, r) && !Contains(r, StrictRules) && !Contains(r, QuestionMarker)
  {
    var t0 := Strip(text);
    var t1 := CutAt(t0, StrictRules);
    var t2 := CutAt(t1, QuestionMarker);
    var r := Strip(t2);
    StripInfix(text);
    CutAtInfix(t0, StrictRules);
    CutAtInfix(t1, QuestionMarker);
    StripInfix(t2);
    ContainsTrans(text, t0, t1);
    ContainsTrans(text, t1, t2);
    ContainsTrans(text, t2, r);
    CutAtRemoves(t0, StrictRules);
    CutAtRemoves(t1, QuestionMarker);
    NoMarkerInInfix(t1, t2, StrictRules);
    ContainsTrans(t1, t2, r);
    NoMarkerInInfix(t1, r, StrictRules);
    NoMarkerInInfix(t2, r, QuestionMarker);
  }

  /** The cleaning only ever cuts off an end: the answer is a beginning of
      the stripped text. */
  lemma CleanAnswerPrefix(text: string)
    ensures StartsWith(Strip(text), CleanAnswer(text))
  {
    var t0 := Strip(text);
    var t1 := CutAt(t0, StrictRules);
    var t2 := CutAt(t1, QuestionMarker);
    CutAtPrefix(t0, StrictRules);
    CutAtPrefix(t1, QuestionMarker);
    StripStripped(t2);
    assert t0[..|t2|] == t1[..|t2|];
  }

  /** `j` is where the answer is cut: no stop marker starts before it, and
      one starts at it unless it is the end of the text. */
  predicate CutPoint(t: string, j: nat) {
    && j <= |t|
    && NoneBetween(t, StrictRules, 0, j)
    && NoneBetween(t, QuestionMarker, 0, j)
    && (j == |t| || OccursAt(t, StrictRules, j) || OccursAt(t, QuestionMarker, j))
  }

  /** The cleaned answer is the stripped text up to the first occurrence of
      either stop marker, stripped again; all of it when neither occurs. */
  lemma CleanAnswerCut(text: string)
    ensures exists j: nat :: CutPoint(Strip(text), j) && CleanAnswer(text) == Strip(Strip(text)[..j])
  {
    var t := Strip(text);
    var j := StrippedCut(t);
    assert CutPoint(t, j) && CleanAnswer(text) == Strip(t[..j]);
  }

  /** The two cuts of a stripped text end at its cut point. */
  lemma StrippedCut(t: string) returns (j: nat)
    requires IsStripped(t)
    ensures CutPoint(t, j) && Strip(CutAt(CutAt(t, StrictRules), QuestionMarker)) == Strip(t[..j])
  {
    var t1 := CutAt(t, StrictRules);
    var t2 := CutAt(t1, QuestionMarker);
    if !Contains(t, StrictRules) {
      NoneAnywhere(t, StrictRules);
      assert t1 == t;
      if !Contains(t, QuestionMarker) {
        NoneAnywhere(t, QuestionMarker);
        StripStripped(t);
        assert t[..|t|] == t;
        j := |t|;
      } else {
        assert CutAtFirst(t, QuestionMarker, t2);
        var i: nat :| FirstAt(t, QuestionMarker, i) && t2 == Strip(t[..i]);
        StripIdempotent(t[..i]);
        j := i;
      }
    } else {
      assert CutAtFirst(t, StrictRules, t1);
      var iS: nat :| FirstAt(t, StrictRules, iS) && t1 == Strip(t[..iS]);
      if !Contains(t1, QuestionMarker) {
        assert t2 == t1;
        j := CutRulesOnly(t, iS, t1);
      } else {
        assert CutAtFirst(t1, QuestionMarker, t2);
        j := CutRulesThenQuestion(t, iS, t1, t2);
      }
    }
  }

  /** "STRICT RULES" first at `iS` and no "QUESTION:" before it: the cut is at `iS`. */
  lemma CutRulesOnly(t: string, iS: nat, t1: string) returns (j: nat)
    requires IsStripped(t) && FirstAt(t, StrictRules, iS) && t1 == Strip(t[..iS])
    requires !Contains(t1, QuestionMarker)
    ensures CutPoint(t, j) && Strip(t1) == Strip(t[..j])
  {
    StrippedPrefixStrip(t, iS);
    var k := |t1|;
    assert t1 == t[..k];
    forall q: nat | q < iS
      ensures !OccursAt(t, QuestionMarker, q)
    {
      if OccursAt(t, QuestionMarker, q) {
        QuestionBeforeRules(t, q, iS);
        MarkerBeforeSpaces(t, QuestionMarker, q, k, iS);
        assert t1[q..q + |QuestionMarker|] == t[q..q + |QuestionMarker|];
        assert OccursAt(t1, QuestionMarker, q);
      }
    }
    StripIdempotent(t[..iS]);
    j := iS;
  }

  /** "STRICT RULES" first at `iS` and "QUESTION:" before it: the cut is at
      the first "QUESTION:". */
  lemma CutRulesThenQuestion(t: string, iS: nat, t1: string, t2: string) returns (j: nat)
    requires IsStripped(t) && FirstAt(t, StrictRules, iS) && t1 == Strip(t[..iS])
    requires CutAtFirst(t1, QuestionMarker, t2)
    ensures CutPoint(t, j) && Strip(t2) == Strip(t[..j])
  {
    StrippedPrefixStrip(t, iS);
    var k := |t1|;
    assert t1 == t[..k];
    var i: nat :| FirstAt(t1, QuestionMarker, i) && t2 == Strip(t1[..i]);
    PrefixOccurrences(t, k, QuestionMarker, i);
    assert t1[..i] == t[..i];
    StripIdempotent(t[..i]);
    j := i;
  }

  /** Up to `i`, a marker occurs in a start `t[..k]` of a text just where it
      occurs in the text; a first occurrence in the start is first in the text. */
  lemma PrefixOccurrences(t: string, k: nat, m: string, i: nat)
    requires k <= |t| && FirstAt(t[..k], m, i)
    ensures FirstAt(t, m, i)
  {
    forall q: nat | q < i
      ensures !OccursAt(t, m, q)
    {
      if OccursAt(t, m, q) {
        assert t[..k][q..q + |m|] == t[q..q + |m|];
        assert OccursAt(t[..k], m, q);
      }
    }
    assert t[..k][i..i + |m|] == t[i..i + |m|];
  }

  /** A substring that does not occur starts nowhere. */
  lemma NoneAnywhere(t: string, m: string)
    requires !Contains(t, m)
    ensures NoneBetween(t, m, 0, |t|)
  {
    forall q: nat | q < |t|
      ensures !OccursAt(t, m, q)
    {
    }
  }

  /** Stripping a start of a stripped text only drops trailing whitespace. */
  lemma StrippedPrefixStrip(t: string, i: nat)
    requires IsStripped(t) && i <= |t|
    ensures |Strip(t[..i])| <= i
    ensures Strip(t[..i]) == t[..|Strip(t[..i])|]
    ensures SpaceRange(t, |Strip(t[..i])|, i)
  {
    var p := t[..i];
    var r := Strip(p);
    if i > 0 {
      assert p[0] == t[0];
      SkipSpacesAt(p, 0, 0);
    } else {
      assert p == [];
    }
    assert p[..|r|] == r;
    forall q | |r| <= q < i
      ensures IsSpace(t[q])
    {
      assert t[q] == p[q];
    }
  }

  /** An occurrence of a marker without whitespace that ends before a run of
      whitespace ends before the run starts. */
  lemma MarkerBeforeSpaces(t: string, m: string, q: nat, k: nat, e: nat)
    requires |m| > 0 && forall c :: 0 <= c < |m| ==> !IsSpace(m[c])
    requires OccursAt(t, m, q) && q + |m| <= e && k <= e <= |t| && SpaceRange(t, k, e)
    ensures q + |m| <= k
  {
    assert t[q + |m| - 1] == m[|m| - 1];
  }

  /** "QUESTION:" cannot overlap the start of "STRICT RULES": an occurrence
      starting before one of the latter ends before it. */
  lemma QuestionBeforeRules(t: string, q: nat, i: nat)
    requires OccursAt(t, QuestionMarker, q) && OccursAt(t, StrictRules, i) && q < i
    ensures q + |QuestionMarker| <= i
  {
    if i < q + |QuestionMarker| {
      var d := i - q;
      CharOfOccurrence(t, QuestionMarker, q, i);
      CharOfOccurrence(t, StrictRules, i, i);
      if d < 7 {
        CharOfOccurrence(t, QuestionMarker, q, i + 2);
        CharOfOccurrence(t, StrictRules, i, i + 2);
      }
      assert false;
    }
  }

  /** Inside an occurrence the text reads the substring. */
  lemma CharOfOccurrence(t: string, m: string, q: nat, j: nat)
    requires OccursAt(t, m, q) && q <= j < q + |m|
    ensures t[j] == m[j - q]
  {
    assert t[q..q + |m|][j - q] == t[j];
  }

  /** A stripped text without either stop marker is left as it is. */
  lemma CleanAnswerFixes(text: string)
    requires IsStripped(text) && !Contains(text, StrictRules) && !Contains(text, QuestionMarker)
    ensures CleanAnswer(text) == text
  {
    StripStripped(text);
  }

  /** Cleaning twice is cleaning once. */
  lemma CleanAnswerIdempotent(text: string)
    ensures CleanAnswer(CleanAnswer(text)) == CleanAnswer(text)
  {
    CleanAnswerSpec(text);
    CleanAnswerFixes(CleanAnswer(text));
  }

  // ---------------------------------------------------------------------
  // Company filter
  // ---------------------------------------------------------------------

  /** `[c for c in chunks if c["metadata"].get("company") == company]`. */
  function Matching(chunks: seq<Chunk>, company: string): (r: seq<Chunk>)
    ensures |r| <= |chunks|
    ensures forall c :: c in r <==> c in chunks && c.meta.company == company
  {
    if |chunks| == 0 then []
    else
      var rest := Matching(chunks[1..], company);
      assert forall c :: c in chunks <==> c == chunks[0] || c in chunks[1..];
      if chunks[0].meta.company == company then [chunks[0]] + rest else rest
  }

  /** The filter distributes over concatenation: filtering a list in two
      parts and joining the results is filtering the whole. */
  lemma {:induction false} MatchingAppend(a: seq<Chunk>, b: seq<Chunk>, company: string)
    ensures Matching(a + b, company) == Matching(a, company) + Matching(b, company)
  {
    if |a| == 0 {
      assert a + b == b;
    } else {
      assert (a + b)[0] == a[0];
      assert (a + b)[1..] == a[1..] + b;
      MatchingAppend(a[1..], b, company);
    }
  }

  /** A single chunk is kept exactly when its company is the one asked for. */
  lemma MatchingSingle(c: Chunk, company: string)
    ensures Matching([c], company) == if c.meta.company == company then [c] else []
  {
    assert [c][1..] == [];
  }

  /** Each chunk of the company is kept as often as it was retrieved, and
      no other chunk is kept at all. */
  lemma {:induction false} MatchingCounts(chunks: seq<Chunk>, company: string)
    ensures forall c ::
      multiset(Matching(chunks, company))[c] == if c.meta.company == company then multiset(chunks)[c] else 0
  {
    if |chunks| > 0 {
      MatchingCounts(chunks[1..], company);
      assert chunks == [chunks[0]] + chunks[1..];
      assert multiset(chunks) == multiset([chunks[0]]) + multiset(chunks[1..]);
    }
  }

  /** `chunks` with some elements dropped, the rest in their original order. */
  predicate Subsequence(r: seq<Chunk>, chunks: seq<Chunk>)
    decreases |chunks|
  {
    if |r| == 0 then true
    else if |chunks| == 0 then false
    else if r[0] == chunks[0] then Subsequence(r[1..], chunks[1..])
    else Subsequence(r, chunks[1..])
  }

  lemma {:induction false} MatchingInOrder(chunks: seq<Chunk>, company: string)
    ensures Subsequence(Matching(chunks, company), chunks)
  {
    if |chunks| > 0 {
      MatchingInOrder(chunks[1..], company);
      var rest := Matching(chunks[1..], company);
      if chunks[0].meta.company == company {
        assert ([chunks[0]] + rest)[1..] == rest;
      } else if |rest| > 0 {
        assert rest[0] in rest;
      }
    }
  }

  /** The company filter with its fallback: the matching chunks, or all of
      them when none match or no company was detected. */
  function CompanyFilter(chunks: seq<Chunk>, company: Option<string>): (r: seq<Chunk>)
    ensures |chunks| > 0 ==> |r| > 0
  {
    match company
    case None => chunks
    case Some(name) =>
      var m := Matching(chunks, name);
      if |m| > 0 then m
      else chunks
  }

  /** With a company detected, the filter keeps exactly the chunks of that
      company in their original order, or falls back to all chunks when
      there are none; without one it keeps everything. */
  lemma CompanyFilterSpec(chunks: seq<Chunk>, company: Option<string>)
    ensures company.None? ==> CompanyFilter(chunks, company) == chunks
    ensures company.Some? && (exists c :: c in chunks && c.meta.company == company.value) ==>
      var r := CompanyFilter(chunks, company);
      Subsequence(r, chunks) && (forall c :: c in r <==> c in chunks && c.meta.company == company.value)
      && forall c :: multiset(r)[c] == if c.meta.company == company.value then multiset(chunks)[c] else 0
    ensures company.Some? && (forall c :: c in chunks ==> c.meta.company != company.value) ==>
      CompanyFilter(chunks, company) == chunks
  {
    if company.Some? {
      MatchingInOrder(chunks, company.value);
      MatchingCounts(chunks, company.value);
      var m := Matching(chunks, company.value);
      if exists c :: c in chunks && c.meta.company == company.value {
        var c :| c in chunks && c.meta.company == company.value;
        assert c in m;
      }
    }
  }

  // ---------------------------------------------------------------------
  // The answer
  // ---------------------------------------------------------------------

  const OutOfScopeKeywords: seq<string> :=
    ["forecast", "stock price", "cfo of apple as of 2025", "headquarters painted", "hq color"]
  const RefusalLead: string := "This question cannot be answered"
  const NotSpecifiedLead: string := "Not specified"
  const OutOfScopeAnswer: string := RefusalLead + " based on the provided documents."
  const ShortcutAnswer: string := "~85% ($81,924M / $96,773M)"
  const ShortcutSource: string := "Tesla 10-K, Item 7"
  const NotSpecified: string := NotSpecifiedLead + " in the document."

  /** Number of chunks asked of the retriever and kept by the reranker. */
  const TopK: nat := 8
  const TopN: nat := 3

  /** `any(k in q for k in [...])` over the out-of-scope keywords. */
  predicate OutOfScope(q: string) {
    exists k :: 0 <= k < |OutOfScopeKeywords| && Contains(q, OutOfScopeKeywords[k])
  }

  /** The question the pipeline answers from a precomputed figure. */
  predicate IsShortcut(q: string) {
    Contains(q, "tesla") && Contains(q, "percentage") && Contains(q, "automotive")
  }

  /** Questions whose answer is the first line of the model's output. */
  predicate IsTableQuestion(q: string) {
    (Contains(q, "total revenue") && Contains(q, "apple")) || (Contains(q, "vehicles") && Contains(q, "tesla"))
  }

  /** Answers the pipeline treats as refusals, returned without a source. */
  predicate IsRefusal(answer: string) {
    StartsWith(answer, RefusalLead) || StartsWith(answer, NotSpecifiedLead)
  }

  /** `f"{meta['document']}, {meta['item']}, p. {meta['page']}"`: the
      header, then the page number in decimal, which reads back as the page. */
  function Citation(meta: Metadata): (r: string)
    ensures StartsWith(r, meta.document + ", " + meta.item + ", p. ")
    ensures var n := |meta.document + ", " + meta.item + ", p. "|;
      n < |r| && AllDigits(r[n..]) && DigitsValue(r[n..]) == meta.page
    ensures var n := |meta.document + ", " + meta.item + ", p. "|;
      r[n] == '0' ==> meta.page == 0
  {
    var head := meta.document + ", " + meta.item + ", p. ";
    var r := head + NatToString(meta.page);
    assert r[..|head|] == head;
    assert r[|head|..] == NatToString(meta.page);
    NatToStringValue(meta.page);
    r
  }

  /** `output.split("ANSWER:")[-1].strip()`. */
  function RawAnswer(output: string): (r: string)
    ensures IsStripped(r)
  {
    Strip(AfterLast(output, AnswerMarker))
  }

  /** The answer text before refusal handling: the stripped first line for
      table questions, the cleaned answer otherwise. */
  function FinalAnswer(q: string, raw: string): (r: string)
    ensures IsStripped(r)
  {
    if IsTableQuestion(q) then Strip(BeforeFirst(raw, "\n")) else CleanAnswer(raw)
  }

  /** The chunks the prompt is built from: the company-filtered retrieval,
      reranked by the cross-encoder's scores, first three kept. */
  function TopChunks(query: string, retrieved: seq<Chunk>, score: (string, string) -> int): (r: seq<Chunk>)
    ensures |r| <= TopN
    ensures |retrieved| > 0 ==> |r| > 0
  {
    var filtered := CompanyFilter(retrieved, DetectCompany(query));
    var scores := seq(|filtered|, i requires 0 <= i < |filtered| => score(query, filtered[i].text));
    RerankShape(filtered, scores, TopN);
    Rerank(filtered, scores, TopN)
  }

  /** Python's `answer_question(query, collection)`, with the retriever
      (asked for `TopK` chunks), the cross-encoder and the language model
      as parameters. */
  function AnswerQuestion(
    query: string,
    retrieve: (string, nat) -> seq<Chunk>,
    score: (string, string) -> int,
    generate: string -> string): (r: Answer)
    ensures |r.sources| <= 1
  {
    var q := Lower(query);
    if OutOfScope(q) then Answer(OutOfScopeAnswer, [])
    else if IsShortcut(q) then Answer(ShortcutAnswer, [ShortcutSource])
    else
      var retrieved := retrieve(query, TopK);
      if |retrieved| == 0 then Answer(NotSpecified, [])
      else
        var top := TopChunks(query, retrieved, score);
        var output := generate(BuildPrompt(query, top));
        var answer := FinalAnswer(q, RawAnswer(output));
        if IsRefusal(answer) then Answer(answer, [])
        else Answer(answer, [Citation(top[0].meta)])
  }

  // ---------------------------------------------------------------------
  // The exits
  // ---------------------------------------------------------------------

  /** An out-of-scope question gets the fixed refusal and no source,
      whatever the retriever, cross-encoder and model would do. */
  lemma OutOfScopeExit(query: string, retrieve: (string, nat) -> seq<Chunk>,
                       score: (string, string) -> int, generate: string -> string)
    requires OutOfScope(Lower(query))
    ensures AnswerQuestion(query, retrieve, score, generate) == Answer(OutOfScopeAnswer, [])
  {
  }

  /** The automotive percentage question of Tesla gets the precomputed
      figure with one source, before any retrieval. */
  lemma ShortcutExit(query: string, retrieve: (string, nat) -> seq<Chunk>,
                     score: (string, string) -> int, generate: string -> string)
    requires !OutOfScope(Lower(query)) && IsShortcut(Lower(query))
    ensures AnswerQuestion(query, retrieve, score, generate) == Answer(ShortcutAnswer, [ShortcutSource])
  {
  }

  /** Nothing retrieved: "Not specified in the document." and no source. */
  lemma EmptyRetrievalExit(query: string, retrieve: (string, nat) -> seq<Chunk>,
                           score: (string, string) -> int, generate: string -> string)
    requires !OutOfScope(Lower(query)) && !IsShortcut(Lower(query)) && |retrieve(query, TopK)| == 0
    ensures AnswerQuestion(query, retrieve, score, generate) == Answer(NotSpecified, [])
  {
  }

  /** Past the early exits, the answer is read from the model's reply to
      the prompt built on the top chunks; a refusal has no source, and any
      other answer cites the first top chunk, which exists. */
  lemma GeneratedExit(query: string, retrieve: (string, nat) -> seq<Chunk>,
                      score: (string, string) -> int, generate: string -> string)
    requires !OutOfScope(Lower(query)) && !IsShortcut(Lower(query)) && |retrieve(query, TopK)| > 0
    ensures var top := TopChunks(query, retrieve(query, TopK), score);
      var answer := FinalAnswer(Lower(query), RawAnswer(generate(BuildPrompt(query, top))));
      var r := AnswerQuestion(query, retrieve, score, generate);
      0 < |top| <= TopN && r.answer == answer &&
      (IsRefusal(answer) ==> r.sources == []) &&
      (!IsRefusal(answer) ==> r.sources == [Citation(top[0].meta)])
  {
  }

  /** On every path the answer has no source exactly when it is a refusal. */
  lemma SourcesUnlessRefused(query: string, retrieve: (string, nat) -> seq<Chunk>,
                             score: (string, string) -> int, generate: string -> string)
    ensures var r := AnswerQuestion(query, retrieve, score, generate);
      r.sources == [] <==> IsRefusal(r.answer)
  {
    var q := Lower(query);
    if OutOfScope(q) {
      OutOfScopeExit(query, retrieve, score, generate);
      StartsWithConcat(RefusalLead, " based on the provided documents.");
    } else if IsShortcut(q) {
      ShortcutExit(query, retrieve, score, generate);
      assert ShortcutAnswer[0] == '~';
    } else if |retrieve(query, TopK)| == 0 {
      EmptyRetrievalExit(query, retrieve, score, generate);
      StartsWithConcat(NotSpecifiedLead, " in the document.");
    } else {
      GeneratedExit(query, retrieve, score, generate);
    }
  }

  lemma StartsWithConcat(a: string, b: string)
    ensures StartsWith(a + b, a)
  {
    assert (a + b)[..|a|] == a;
  }

  /** Every top chunk was retrieved, and when a detected company owns any
      retrieved chunk, every top chunk belongs to that company. */
  lemma TopChunksFromRetrieval(query: string, retrieved: seq<Chunk>, score: (string, string) -> int)
    ensures forall c :: c in TopChunks(query, retrieved, score) ==> c in retrieved
    ensures var company := DetectCompany(query);
      company.Some? && (exists c :: c in retrieved && c.meta.company == company.value) ==>
        forall c :: c in TopChunks(query, retrieved, score) ==> c.meta.company == company.value
  {
    var company := DetectCompany(query);
    var filtered := CompanyFilter(retrieved, company);
    var scores := seq(|filtered|, i requires 0 <= i < |filtered| => score(query, filtered[i].text));
    var top := Rerank(filtered, scores, TopN);
    RerankShape(filtered, scores, TopN);
    var sel := Selected(filtered, scores, TopN);
    assert forall c :: c in top ==> c in filtered by {
      forall c | c in top
        ensures c in filtered
      {
        var i :| 0 <= i < |top| && top[i] == c;
        assert top[i] == filtered[sel[i]];
      }
    }
    CompanyFilterSpec(retrieved, company);
    assert forall c :: c in filtered ==> c in retrieved;
  }

  /** When the model's output repeats the prompt and then adds a reply
      without "ANSWER:", the raw answer is the stripped reply: the prompt's
      own trailing "ANSWER:" is the last marker. */
  lemma EchoedPromptAnswer(question: string, cs: seq<Chunk>, reply: string)
    requires !Contains(reply, AnswerMarker)
    ensures RawAnswer(BuildPrompt(question, cs) + reply) == Strip(reply)
  {
    var x := Head(cs) + QuestionLead(question);
    BuildPromptSplit(question, cs);
    var tail := "\n" + reply;
    assert BuildPrompt(question, cs) + reply == x + AnswerMarker + tail;
    NewlineKeepsNoMarker(reply);
    AnswerMarkerBorderFree();
    AfterLastOfAppended(x, AnswerMarker, tail);
    assert tail == "\n" + reply + "";
    StripPadded("\n", reply, "");
  }

  /** A leading newline adds no "ANSWER:", which starts with a letter. */
  lemma NewlineKeepsNoMarker(reply: string)
    requires !Contains(reply, AnswerMarker)
    ensures !Contains("\n" + reply, AnswerMarker)
  {
    var t := "\n" + reply;
    forall i: nat | i <= |t|
      ensures !OccursAt(t, AnswerMarker, i)
    {
      if i == 0 {
        assert t[0] != AnswerMarker[0];
      } else {
        assert !OccursAt(reply, AnswerMarker, i - 1);
        if i + |AnswerMarker| <= |t| {
          assert t[i..i + |AnswerMarker|] == reply[i - 1..i - 1 + |AnswerMarker|];
        }
      }
    }
  }
}
