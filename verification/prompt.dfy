/**
 The prompt handed to the language model: fixed instructions, the rendered
 context chunks, the question, and a trailing "ANSWER:" marker that the
 answering pipeline later cuts the model's output on.
 */
module Prompt {
  import opened Text
  import opened Numbers
  import opened Records

  /** The fixed instructions, with their leading and trailing newline:
      an introduction, then the rules under their heading. */
  const SystemPrompt: string := Intro + RulesHeading + Rules

  const Intro: string := "\nYou are a financial and legal document analysis assistant.\n\n"

  const RulesHeading: string := "STRICT RULES (MUST FOLLOW EXACTLY):\n\n"

  const Rules: string :=
    "1. Use ONLY the provided CONTEXT.\n"
    + "2. Output ONLY the exact answer text.\n"
    + "3. Do NOT add explanations, reasoning, context, or citations.\n"
    + "4. If the answer is NOT explicitly present in the CONTEXT, output EXACTLY:\n"
    + "   \"Not specified in the document.\"\n"
    + "5. Do NOT guess, infer, summarize, or calculate.\n"
    + "6. Preserve numbers, currency, units, and wording EXACTLY as written.\n"

  /** The marker the prompt ends on. */
  const AnswerMarker: string := "ANSWER:"

  /** One context chunk: a bracketed header with document, item and page,
      then the chunk text on the next line. */
  function RenderChunk(c: Chunk): (r: string)
    ensures StartsWith(r, "[" + c.meta.document + " | " + c.meta.item + " | p. ")
    ensures EndsWith(r, "]\n" + c.text)
    ensures var n := |"[" + c.meta.document + " | " + c.meta.item + " | p. "|;
      var m := |"]\n" + c.text|;
      n < |r| - m && AllDigits(r[n..|r| - m]) && DigitsValue(r[n..|r| - m]) == c.meta.page
    ensures var n := |"[" + c.meta.document + " | " + c.meta.item + " | p. "|;
      n < |r| && (r[n] == '0' ==> c.meta.page == 0)
  {
    var head := "[" + c.meta.document + " | " + c.meta.item + " | p. ";
    var tail := "]\n" + c.text;
    var r := head + NatToString(c.meta.page) + tail;
    assert r[..|head|] == head;
    assert r[|r| - |tail|..] == tail;
    assert r[|head|..|r| - |tail|] == NatToString(c.meta.page);
    NatToStringValue(c.meta.page);
    r
  }

  /** The rendered chunks, in input order. */
  function RenderAll(cs: seq<Chunk>): (r: seq<string>)
    ensures |r| == |cs|
    ensures forall i :: 0 <= i < |cs| ==> r[i] == RenderChunk(cs[i])
  {
    if |cs| == 0 then [] else [RenderChunk(cs[0])] + RenderAll(cs[1..])
  }

  /** The context block: rendered chunks separated by a blank line. */
  function Context(cs: seq<Chunk>): (r: string)
    ensures forall k :: 0 <= k < |cs| ==> Contains(r, RenderChunk(cs[k]))
  {
    JoinHolds(RenderAll(cs), "\n\n");
    Join(RenderAll(cs), "\n\n")
  }

  /** Everything before "QUESTION:": the instructions and the context. */
  function Head(cs: seq<Chunk>): string {
    ("\n" + SystemPrompt) + ("\n\nCONTEXT:\n" + Context(cs) + "\n\n")
  }

  /** "QUESTION:", the question, and a blank line. */
  function QuestionLead(question: string): string {
    "QUESTION:\n" + question + "\n\n"
  }

  /** The part of the prompt from "QUESTION:" on. */
  function QuestionBlock(question: string): string {
    QuestionLead(question) + AnswerMarker + "\n"
  }

  /** Python's `build_prompt(question, context_chunks)`. */
  function BuildPrompt(question: string, cs: seq<Chunk>): (r: string)
    ensures StartsWith(r, "\n" + SystemPrompt)
    ensures EndsWith(r, QuestionBlock(question))
  {
    var lead := "\n" + SystemPrompt;
    var rest := "\n\nCONTEXT:\n" + Context(cs) + "\n\n";
    var tail := QuestionBlock(question);
    PrefixOfConcat(lead, rest, tail);
    SuffixOfConcat(lead + rest, tail);
    lead + rest + tail
  }

  lemma BuildPromptSplit(question: string, cs: seq<Chunk>)
    ensures BuildPrompt(question, cs) == (Head(cs) + QuestionLead(question)) + AnswerMarker + "\n"
  {
  }

  /** The prompt carries the instructions verbatim, and the instructions
      name the "STRICT RULES". */
  lemma PromptHasRules(question: string, cs: seq<Chunk>)
    ensures Contains(BuildPrompt(question, cs), SystemPrompt)
    ensures Contains(SystemPrompt, "STRICT RULES")
    ensures Contains(BuildPrompt(question, cs), "STRICT RULES")
  {
    var p := BuildPrompt(question, cs);
    PrefixOccurs(p, "\n", SystemPrompt);
    StrictRulesAt();
    ContainsTrans(p, SystemPrompt, "STRICT RULES");
  }

  lemma PrefixOccurs(s: string, a: string, b: string)
    requires StartsWith(s, a + b)
    ensures OccursAt(s, b, |a|)
  {
    assert s[|a|..|a| + |b|] == (a + b)[|a|..];
  }

  lemma StrictRulesAt()
    ensures OccursAt(SystemPrompt, "STRICT RULES", |Intro|)
  {
    assert RulesHeading[..12] == "STRICT RULES";
    OccursAfter(Intro, RulesHeading, Rules, "STRICT RULES");
  }

  lemma OccursAfter(a: string, b: string, c: string, p: string)
    requires StartsWith(b, p)
    ensures OccursAt(a + b + c, p, |a|)
  {
    assert (a + b + c)[|a|..|a| + |p|] == b[..|p|];
  }

  lemma PrefixOfConcat(a: string, b: string, c: string)
    ensures StartsWith(a + b + c, a)
  {
    assert (a + b + c)[..|a|] == a;
  }

  lemma SuffixOfConcat(a: string, b: string)
    ensures EndsWith(a + b, b)
  {
    assert (a + b)[|a|..] == b;
  }

  /** With no chunks the context block is empty; with one it is that
      chunk's rendering; otherwise the first rendering, a blank line, and
      the context of the rest. */
  lemma ContextShape(cs: seq<Chunk>)
    ensures |cs| == 0 ==> Context(cs) == ""
    ensures |cs| == 1 ==> Context(cs) == RenderChunk(cs[0])
    ensures |cs| > 1 ==> Context(cs) == RenderChunk(cs[0]) + "\n\n" + Context(cs[1..])
  {
    if |cs| > 1 {
      var r := RenderAll(cs);
      assert r[1..] == RenderAll(cs[1..]);
    }
  }

  /** "ANSWER:" has no border: its first letter does not recur in it. */
  lemma AnswerMarkerBorderFree()
    ensures BorderFree(AnswerMarker)
  {
    var m := AnswerMarker;
    forall k | 0 < k < |m|
      ensures !IsBorder(m, k)
    {
      assert m[k..][0] == m[k] != 'A';
    }
  }

  /** Whatever the question and chunks hold, the text after the prompt's
      last "ANSWER:" is the single newline it ends on. */
  lemma AfterLastAnswerOfPrompt(question: string, cs: seq<Chunk>)
    ensures AfterLast(BuildPrompt(question, cs), AnswerMarker) == "\n"
  {
    BuildPromptSplit(question, cs);
    AnswerMarkerBorderFree();
    NewlineHasNoMarker();
    AfterLastOfAppended(Head(cs) + QuestionLead(question), AnswerMarker, "\n");
  }

  lemma NewlineHasNoMarker()
    ensures !Contains("\n", AnswerMarker)
  {
  }
}
