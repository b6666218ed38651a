# SecRAG-10K core, modelled in Dafny

SecRAG-10K answers questions about Apple's and Tesla's 10-K filings with
retrieval-augmented generation. The system has three stages.

- **Ingestion.** A PDF becomes pages of cleaned text. Each page is tagged
  with the "Item n" section in force on it, and pages are cut into
  overlapping fixed-width chunks.
- **Retrieval.** A vector store returns candidate chunks. A cross-encoder
  reranks them and the best three are kept.
- **Answering.** A prompt is built from the chunks. A causal language model
  continues it, and the pipeline extracts, cleans and cites the answer. The
  pipeline also has early exits: out-of-scope questions, one hard-coded
  calculation, empty retrieval, and model refusals. Rule-based extractors
  pull figures and sentences straight out of chunks.

This project models the deterministic logic around the three learned
models (embedder, cross-encoder, language model) as pure Dafny functions
over immutable records, and proves what that logic promises. The three
models enter only as function parameters:

- retrieval is `retrieve: (string, nat) -> seq<Chunk>`;
- the cross-encoder is `score: (string, string) -> int`, applied to
  (query, chunk text);
- generation is `generate: string -> string`.

Page extraction from the PDF is likewise a given sequence of optional page
texts.

Modules follow the program's files:

| module | file | content |
|---|---|---|
| `Options`, `Text` | text.dfy | Option type; ASCII `lower`, `strip`, `in`, `split`/`join`, `startswith` |
| `Numbers` | numbers.dfy | decimal and comma-grouped formatting (`f"{n:,}"`), round-half-even |
| `Records` | records.dfy | pages, metadata, chunks, extractor results, pipeline answers |
| `PdfLoader` | pdf_loader.dfy | `clean_text`, the page loop of `load_pdf` |
| `SectionParser` | section_parser.dfy | `ITEM_PATTERN` as a scanner, `str.title`, `normalize_item`, `assign_items` |
| `Chunker` | chunker.dfy | `chunk_text` |
| `Prompt` | prompt.dfy | `SYSTEM_PROMPT`, `build_prompt` |
| `Reranker` | reranker.dfy | `rerank`'s stable descending sort and cut |
| `Utils` | utils.dfy | the money-number scanner and the sentence finder |
| `FinancialExtractors` | financial_extractors.dfy | the eight `extract_*` functions |
| `RagPipeline` | rag_pipeline.dfy | `detect_company`, `clean_answer`, `answer_question` |

Whitespace is the ASCII set that Python's `str.isspace` accepts: space, tab,
line feed, vertical tab, form feed, carriage return, and the separators
0x1C-0x1F. Letter case is ASCII only.

Two choices fix how closely the model follows the code:

- Each regular expression the code uses is written out as a hand-made
  scanner that follows Python's `re` semantics for that one pattern, with
  `\d` read as the ASCII digits 0-9.
- Python's `str.split(sep)` is modelled exactly: it scans left to right and
  its pieces do not overlap. Indexing with `[0]` or `[-1]` is proved to
  pick the text before the first separator, or after the last one.

## Model

| member | source | states |
|---|---|---|
| Text.Strip | pipeline/rag_pipeline.py:27 | the result has no leading or trailing whitespace, and it is the input with its leading and trailing whitespace runs removed |
| Text.StripIdempotent | pipeline/rag_pipeline.py:36-38 | stripping an already stripped answer changes nothing |
| Text.StripInfix | pipeline/utils.py:7 | a stripped text is an infix of the original |
| Text.Lower | pipeline/utils.py:6 | `lower()` keeps the length and lowers each character on its own |
| Text.IndexOf | pipeline/rag_pipeline.py:35-36 | a position found is an occurrence of the substring |
| Text.IndexOfFirst | pipeline/rag_pipeline.py:35-36 | the position found is the first occurrence, and there is none exactly when the substring does not occur (`m in text` is false) |
| Text.Split | pipeline/rag_pipeline.py:36 | `str.split(sep)` always returns at least one piece |
| Text.SplitJoin | pipeline/rag_pipeline.py:36 | the pieces of `str.split(sep)` joined with `sep` give back the original text |
| Text.BeforeFirst | pipeline/rag_pipeline.py:36 | `split(sep)[0]` is a beginning of the text that holds no `sep`; when `sep` occurs, it occurs right after that beginning and nowhere before, otherwise the piece is the whole text |
| Text.AfterLast | pipeline/rag_pipeline.py:109 | `split(sep)[-1]` is no longer than the text |
| Text.JoinHolds | llm/prompt.py:32-35 | every piece that `join` joins occurs in the joined text |
| Text.BeforeFirstIsFirstPiece | pipeline/rag_pipeline.py:36 | `split(sep)[0]` is the text before the first occurrence of `sep`, and it holds no `sep` |
| Text.AfterLastIsLastPiece | pipeline/rag_pipeline.py:109 | `split(sep)[-1]` is the text after the last occurrence of `sep` |
| Text.AfterLastSpec | pipeline/rag_pipeline.py:109 | the last piece is a suffix holding no separator; it directly follows a separator when the text has one, and is the whole text otherwise |
| Text.AfterLastAbsent | pipeline/rag_pipeline.py:109 | when the output has no "ANSWER:", the last piece is the whole output |
| Text.AfterLastOfAppended | pipeline/rag_pipeline.py:109 | for a separator with no self-overlap, text appended after an occurrence that adds no new separator is the last piece |
| Numbers.NatToStringValue | pipeline/financial_extractors.py:73 | the decimal rendering of a number reads back as that number |
| Numbers.NatToStringInjective | pipeline/financial_extractors.py:73 | distinct numbers render differently |
| Numbers.GroupThousandsDigits | pipeline/financial_extractors.py:13 | `f"{n:,}"` with its commas removed is the plain decimal rendering of n |
| Numbers.GroupThousandsComma | pipeline/financial_extractors.py:13 | `f"{n:,}"` holds a comma exactly when n is at least 1000 |
| Numbers.GroupThousandsGrouped | pipeline/financial_extractors.py:13 | `f"{n:,}"` is a lead of one to three digits followed by ",ddd" groups |
| Numbers.RoundHalfEven | pipeline/financial_extractors.py:72 | the result is a nearest integer to p/q, and on an exact half it is the even one |
| Numbers.RoundHalfEvenUnique | pipeline/financial_extractors.py:72 | exactly one integer is nearest to p/q with ties to even, so `round` is fully determined |
| PdfLoader.CollapseSpec | ingestion/pdf_loader.py:5 | after `re.sub(r"\s+", " ", ...)` every whitespace character is a single space not followed by another whitespace character, and the text starts with whitespace exactly when the input did |
| PdfLoader.Collapse | ingestion/pdf_loader.py:5 | the substitution never lengthens the text |
| PdfLoader.CollapseAppend | ingestion/pdf_loader.py:5 | the substitution works piece by piece across a cut after a character other than whitespace, since no whitespace run spans the cut |
| PdfLoader.CollapseRun | ingestion/pdf_loader.py:5 | a whole whitespace run, however long and whatever its characters, becomes exactly one space; with CollapseAppend and CollapseChar this fixes the result on every text |
| PdfLoader.CollapseChar | ingestion/pdf_loader.py:5 | a character other than whitespace is kept as it is |
| PdfLoader.CleanText | ingestion/pdf_loader.py:4-6 | the cleaned text has no leading or trailing whitespace |
| PdfLoader.CleanTextSingleSpaced | ingestion/pdf_loader.py:4-6 | `clean_text` yields text with no leading or trailing whitespace whose only whitespace is isolated single spaces |
| PdfLoader.CleanTextIdempotent | ingestion/pdf_loader.py:4-6 | cleaning a cleaned text changes nothing |
| PdfLoader.CleanTextNonSpace | ingestion/pdf_loader.py:5-6 | the cleaned text without its spaces equals the input without its whitespace, in order |
| PdfLoader.CleanTextOfSpaces | ingestion/pdf_loader.py:4-6 | a text made only of whitespace cleans to "" |
| PdfLoader.LoadFromSound | ingestion/pdf_loader.py:12-26 | every loaded page comes from a page whose extracted text is non-empty, has that page's one-based number, and copies company and document unchanged |
| PdfLoader.LoadFromComplete | ingestion/pdf_loader.py:12-26 | every page with non-empty extracted text yields a loaded page with its one-based number |
| PdfLoader.LoadFromIncreasing | ingestion/pdf_loader.py:12-24 | page numbers of the loaded pages strictly increase |
| PdfLoader.LoadFrom | ingestion/pdf_loader.py:12-27 | at most one loaded page per page of the document |
| PdfLoader.WhitespacePageKept | ingestion/pdf_loader.py:14-17 | a page whose text is only whitespace is kept, with text "", because the emptiness test comes before cleaning |
| SectionParser.ItemMatchEnd | ingestion/section_parser.py:4 | a match of the ITEM pattern covers at least "item", one whitespace character and one digit, and stays inside the text |
| SectionParser.ItemMatchIff | ingestion/section_parser.py:4 | the pattern matches at a position exactly when "item", in any case, is followed there by whitespace and then a digit |
| SectionParser.ItemMatchExact | ingestion/section_parser.py:4 | the scanner ends a match at e exactly when the greedy regex match ends there: the whole whitespace run, the whole digit run, then one letter if a letter follows |
| SectionParser.ItemMatchGroup | ingestion/section_parser.py:4 | the captured group is "item" in any case, a whitespace run, a digit run and at most one letter |
| SectionParser.ItemGroupNoDot | ingestion/section_parser.py:4 | the captured group never holds the optional trailing dot |
| SectionParser.SearchItem | ingestion/section_parser.py:13 | a match found starts at or after the search start and ends where the pattern's match at that start ends |
| SectionParser.SearchItemLeftmost | ingestion/section_parser.py:13 | `search` returns the leftmost position where the pattern matches, and nothing only when no position matches |
| SectionParser.FindItemLeftmost | ingestion/section_parser.py:13-14 | the group found is that of the leftmost match, and there is none exactly when no position matches |
| SectionParser.FindItem | ingestion/section_parser.py:13-14 | a group found has the ITEM shape |
| SectionParser.Title | ingestion/section_parser.py:7 | `title()` keeps the length |
| SectionParser.TitleTitled | ingestion/section_parser.py:7 | after `title()`, a letter is upper-case exactly when it starts a run of letters |
| SectionParser.TitleLower | ingestion/section_parser.py:7 | `title()` only changes letter case |
| SectionParser.TitleUnique | ingestion/section_parser.py:7 | any title-cased text equal to the input up to case is the result of `title()` |
| SectionParser.TitleIdempotent | ingestion/section_parser.py:7 | title-casing twice is title-casing once |
| SectionParser.NormalizeItem | ingestion/section_parser.py:6-7 | the normalised item holds no ".", is title-cased, and equals the item without its dots up to letter case; by TitleUnique these fix it |
| SectionParser.NormalizeExample | ingestion/section_parser.py:6-7 | "ITEM 7A" normalises to "Item 7A" |
| SectionParser.AssignItemsSpec | ingestion/section_parser.py:9-19 | the pages keep their count, order, text and other metadata, and page k gets the heading of the latest page at or before k that has one, or "Unknown" |
| SectionParser.AssignItems | ingestion/section_parser.py:9-19 | one output page per input page |
| SectionParser.UnknownBeforeFirstItem | ingestion/section_parser.py:10-17 | pages before the first page with a match get "Unknown" |
| SectionParser.OwnItemWins | ingestion/section_parser.py:13-17 | a page with a match gets the normalised first match on that page |
| SectionParser.ItemCarriedForward | ingestion/section_parser.py:12-17 | a page without a match inherits the item of the page before it |
| Chunker.PySliceWindow | ingestion/chunker.py:25 | `text[start:end]` with a non-negative end is the window from start up to the smaller of end and the length |
| Chunker.PageChunks | ingestion/chunker.py:23-32 | every chunk of a page carries that page's metadata |
| Chunker.ChunkText | ingestion/chunker.py:1-34 | no pages give no chunks, and every chunk carries the metadata of one of the pages |
| Chunker.PageChunksCount | ingestion/chunker.py:23-32 | with a positive step the loop for one page makes ceil((len - start) / step) chunks |
| Chunker.PageChunkAt | ingestion/chunker.py:23-32 | chunk k of a page starts at start + k·step, below the length, and is the slice of `chunk_size` characters there with the page's metadata |
| Chunker.PageWindows | ingestion/chunker.py:20-32 | a page yields ceil(len / step) chunks, chunk k being `text[k·step : k·step + chunk_size]` with the page's metadata |
| Chunker.PageWindowText | ingestion/chunker.py:24-25 | a chunk's text is at most `chunk_size` long and, for a positive size, not empty |
| Chunker.PageCovered | ingestion/chunker.py:23-32 | with 0 ≤ overlap < chunk_size character j of a page lies in chunk j div step |
| Chunker.WindowsOverlap | ingestion/chunker.py:23-32 | with 0 ≤ overlap < chunk_size, chunk k without its first `step` characters is a prefix of chunk k + 1 |
| Chunker.ChunkTextAppend | ingestion/chunker.py:16-32 | chunks are grouped by page in page order: chunking two page lists one after the other gives the two chunk lists concatenated |
| Chunker.ChunkTextSingle | ingestion/chunker.py:16-34 | a single page yields exactly its windows |
| Chunker.EmptyPageNoChunks | ingestion/chunker.py:21-23 | an empty page yields no chunk, whatever the size and overlap |
| Chunker.ChunkTextSound | ingestion/chunker.py:16-32 | every chunk carries a copy of its page's metadata and a text that occurs in that page, non-empty for a positive size |
| Prompt.RenderChunk | llm/prompt.py:33 | a chunk renders as "[document \| item \| p. ", then the page number in decimal, which reads back as the page and has no leading zero, then "]\n" and the chunk text |
| Prompt.RenderAll | llm/prompt.py:32-35 | the rendered chunks are in input order, one per chunk |
| Prompt.Context | llm/prompt.py:32-35 | every chunk's rendering occurs in the context |
| Prompt.ContextShape | llm/prompt.py:32-35 | no chunks give an empty context, and otherwise the renderings are joined by a blank line |
| Prompt.BuildPrompt | llm/prompt.py:37-47 | the prompt starts with a newline and the system prompt, and ends with "QUESTION:\n", the question, a blank line and "ANSWER:\n" |
| Prompt.PromptHasRules | llm/prompt.py:13-38 | the prompt holds the system prompt verbatim, which holds "STRICT RULES" |
| Prompt.AfterLastAnswerOfPrompt | llm/prompt.py:46-47 | whatever the question and chunks hold, the text after the prompt's last "ANSWER:" is the single final newline |
| Reranker.SortPositions | retrieval/reranker.py:11-12 | the sorted positions are a permutation of 0 .. n-1 |
| Reranker.SortPositionsSorted | retrieval/reranker.py:12 | the positions are in stable descending score order |
| Reranker.Selected | retrieval/reranker.py:11-14 | only positions that `zip` pairs with a score are selected |
| Reranker.TakeCount | retrieval/reranker.py:14 | `[:top_n]` keeps min(top_n, n) items for a non-negative `top_n` |
| Reranker.RerankShape | retrieval/reranker.py:14 | the output has min(top_n, n) chunks for non-negative `top_n`, n being the number of chunk/score pairs, and output i is the chunk at the i-th selected position |
| Reranker.RerankOrdered | retrieval/reranker.py:11-12 | output scores never increase, equal scores keep their input order, and no input position is used twice |
| Reranker.RerankTopScores | retrieval/reranker.py:11-14 | every selected chunk scores at least as high as every paired chunk left out, and wins ties by coming earlier |
| Reranker.RerankKeepsAll | retrieval/reranker.py:11-14 | when `top_n` covers all pairs, every paired position is selected |
| Utils.MatchAt | pipeline/utils.py:12 | a match of the money pattern at a position is non-empty and stays in the text |
| Utils.MatchAtIff | pipeline/utils.py:12 | the scanner reports an end at a position exactly when it ends the longest match of `\$?\d{1,3}(?:,\d{3})+` there, which is the match Python's backtracking picks; it reports nothing exactly when no match starts there. There is no word boundary, so "1234,567" matches from index 1 |
| Utils.MoneyNoBoundary | pipeline/utils.py:12 | the pattern has no word boundary: in "1234,567" no match starts at the first digit, and "234,567" matches from the second |
| Utils.MatchAtMatches | pipeline/utils.py:12 | what the scanner reports at a position is a match of the pattern there |
| Utils.MatchAtLongest | pipeline/utils.py:12 | every match of the pattern at a position is found, and ends no later than the reported one |
| Utils.FindAll | pipeline/utils.py:12 | every match reported is non-empty and no longer than the text searched |
| Utils.FindAllEmpty | pipeline/utils.py:12 | `findall` reports nothing exactly when no match starts at or after the search start |
| Utils.FindAllLeftmost | pipeline/utils.py:12 | when matches exist, `findall` first reports the leftmost one and then continues from its end, so matches come left to right and do not overlap |
| Utils.FindAllSkip | pipeline/utils.py:12 | a stretch where no match starts adds nothing to the result |
| Utils.FindAllNone | pipeline/utils.py:12 | where no match starts, the search moves on by one character |
| Utils.NoMatchShift | pipeline/utils.py:12 | a stretch without a match starts with a position without one |
| Utils.FindAllMatches | pipeline/utils.py:12 | every string `findall` reports is the text of a match of the pattern at or after the search start |
| Utils.MatchedHasGroup | pipeline/utils.py:12 | every match holds a comma followed by three digits |
| Utils.FindAllChars | pipeline/utils.py:12-13 | every match is digits once "$" and "," are removed, so `int` never fails |
| Utils.ExtractAllMoneyNumbers | pipeline/utils.py:11-13 | one number per match, in match order, each the value of the match's digits without "$" and "," |
| Utils.NoCommaNoNumbers | pipeline/utils.py:12 | a text without a comma yields no number, so a plain year such as "2024" is never read |
| Utils.MoneyRoundTrip | pipeline/utils.py:11-13 | n ≥ 1000 written with comma grouping amid digit-free text reads back as exactly [n] |
| Utils.NextBreak | pipeline/utils.py:4 | the next split point of `(?<=[.!?])\s+` is the first position after '.', '!' or '?' where whitespace starts, and none exists when no such position does |
| Utils.Sentences | pipeline/utils.py:4 | `re.split` always yields at least one piece |
| Utils.Gaps | pipeline/utils.py:4 | the split removes one non-empty whitespace run between each two neighbouring sentences |
| Utils.SentencesJoin | pipeline/utils.py:4 | the sentences with the removed whitespace runs put back between them give back the text |
| Utils.SentencesBreaks | pipeline/utils.py:4 | every sentence before a removed run ends on '.', '!' or '?', and every sentence after one does not start with whitespace, so each cut removes a whole match |
| Utils.SentencesArePieces | pipeline/utils.py:4 | each piece of the split is an infix of the text that holds no split point |
| Utils.FirstWith | pipeline/utils.py:5-7 | the index found is the first sentence holding every keyword, and there is none exactly when no sentence qualifies |
| Utils.ExtractSentenceContaining | pipeline/utils.py:3-8 | a returned sentence has no leading or trailing whitespace |
| Utils.ExtractSentenceSound | pipeline/utils.py:3-8 | a returned sentence has no leading or trailing whitespace, is an infix of the text, and holds no '.', '!' or '?' followed by whitespace |
| Utils.ExtractSentenceFirst | pipeline/utils.py:4-8 | the result is the stripped first qualifying sentence in split order, and None exactly when no sentence qualifies |
| Utils.ExtractSentenceNoKeywords | pipeline/utils.py:5-7 | with no keywords the stripped first sentence is returned |
| Utils.ExtractSentenceKeywords | pipeline/utils.py:6-7 | a returned sentence holds every keyword case-insensitively |
| FinancialExtractors.FirstFound | pipeline/financial_extractors.py:5-14 | the first-match loop returns nothing exactly when no chunk qualifies, and otherwise the first qualifying chunk, which is an element of the input, with its value |
| FinancialExtractors.RevenueProbe | pipeline/financial_extractors.py:6-13 | a chunk qualifies exactly when its item is "Item 8", its text mentions total net sales or total revenues in any case, and it holds a money number; its value is "$" + the grouped first number + " million" |
| FinancialExtractors.ExtractTotalRevenue | pipeline/financial_extractors.py:4-14 | the first qualifying revenue chunk with its value, or nothing when none qualifies |
| FinancialExtractors.TermDebtProbe | pipeline/financial_extractors.py:19-22 | a chunk qualifies exactly when it mentions total term debt in any case and holds a money number, whatever its item |
| FinancialExtractors.ExtractTermDebt | pipeline/financial_extractors.py:17-23 | the first qualifying term-debt chunk with "$n million", or nothing |
| FinancialExtractors.StaffCommentsProbe | pipeline/financial_extractors.py:28-30 | a chunk qualifies exactly when its item is "Item 1B" and it states there are no unresolved staff comments; the value is "No" |
| FinancialExtractors.ExtractUnresolvedStaffComments | pipeline/financial_extractors.py:26-31 | the only possible result is "No" with the first qualifying "Item 1B" chunk, or nothing |
| FinancialExtractors.SharesProbe | pipeline/financial_extractors.py:36-39 | a chunk qualifies exactly when it mentions "shares" and "outstanding" in any case and holds a money number; the value is the grouped number + " shares" |
| FinancialExtractors.ExtractSharesOutstanding | pipeline/financial_extractors.py:34-40 | the first qualifying shares chunk with its value, or nothing |
| FinancialExtractors.SentenceProbe | pipeline/financial_extractors.py:45-50 | a chunk is accepted exactly when the sentence finder returns a non-empty sentence, which is then the value |
| FinancialExtractors.ExtractVehicleList | pipeline/financial_extractors.py:43-51 | the first chunk with a sentence holding "currently" and "manufacture", paired with that sentence, or nothing |
| FinancialExtractors.ExtractDependencyStatement | pipeline/financial_extractors.py:78-86 | the first chunk with a sentence holding "elon" and "musk", paired with that sentence, or nothing |
| FinancialExtractors.FirstClause | pipeline/financial_extractors.py:96 | `sent.split(".")[0] + "."` ends with its only "." and what precedes it starts the sentence; it runs up to the sentence's first "." or to its end |
| FinancialExtractors.ExtractLeasePassthrough | pipeline/financial_extractors.py:89-97 | the first chunk with a lease pass-through sentence; the value holds exactly one ".", as its last character, and the rest is that sentence up to its first "." or its end |
| FinancialExtractors.SentenceSearch | pipeline/financial_extractors.py:43-51 | a sentence extractor's value is the sentence the finder returns for its chunk: stripped, an infix of the chunk, holding every keyword |
| FinancialExtractors.MillionsRoundTrip | pipeline/financial_extractors.py:13 | for n ≥ 1000, reading the money numbers of "$n million" gives back exactly [n] |
| FinancialExtractors.SharesRoundTrip | pipeline/financial_extractors.py:39 | for n ≥ 1000, reading the money numbers of "n shares" gives back exactly [n] |
| FinancialExtractors.SmallMillionsUnread | pipeline/financial_extractors.py:13 | for n < 1000, "$n million" holds no money number the scanner reads |
| FinancialExtractors.StepKeeps | pipeline/financial_extractors.py:59-69 | one pass of the loop body replaces total or automotive only when an "Item 7" chunk matches and holds a number |
| FinancialExtractors.Scan | pipeline/financial_extractors.py:58-69 | once a total or an automotive value has been found, the rest of the loop never loses it |
| FinancialExtractors.LastHit | pipeline/financial_extractors.py:58-69 | the carried value is absent exactly when no chunk seen so far matched with a number |
| FinancialExtractors.LastHitIsLast | pipeline/financial_extractors.py:58-69 | the carried value is that of the last matching chunk with a number |
| FinancialExtractors.ScanIsLastHit | pipeline/financial_extractors.py:58-69 | the loop ends with total and automotive equal to the values of the last matching chunks |
| FinancialExtractors.Percent | pipeline/financial_extractors.py:72 | the percentage is the nearest integer to 100·automotive/total, ties to even |
| FinancialExtractors.ExtractAutomotiveSalesPercentage | pipeline/financial_extractors.py:54-75 | a result exists exactly when both values were found and are non-zero (so there is no division by zero); it is "Approximately p%" with p the rounded percentage, paired with the first input chunk, not a matching one |
| FinancialExtractors.PercentExample | pipeline/financial_extractors.py:72 | 81,924 of 96,773 rounds to 85 |
| RagPipeline.DetectCompany | pipeline/rag_pipeline.py:13-19 | "Apple" exactly when the lowered question mentions apple, even with tesla; "Tesla" exactly when it mentions tesla and not apple; otherwise nothing |
| RagPipeline.CutAt | pipeline/rag_pipeline.py:35-36 | a text without the marker is left alone; otherwise the result is the text before the marker's first occurrence, stripped; cutting keeps a stripped text stripped |
| RagPipeline.CutAtRemoves | pipeline/rag_pipeline.py:35-36 | after the cut the text holds no marker |
| RagPipeline.CutAtPrefix | pipeline/rag_pipeline.py:35-36 | cutting a stripped text at a marker keeps its beginning |
| RagPipeline.CleanAnswer | pipeline/rag_pipeline.py:22-38 | the cleaned answer has no leading or trailing whitespace |
| RagPipeline.CleanAnswerSpec | pipeline/rag_pipeline.py:22-38 | the cleaned answer has no leading or trailing whitespace, is an infix of the input, and holds neither "STRICT RULES" nor "QUESTION:" |
| RagPipeline.CleanAnswerPrefix | pipeline/rag_pipeline.py:27-38 | the cleaned answer is a beginning of the stripped input: cleaning only ever cuts off an end |
| RagPipeline.CleanAnswerFixes | pipeline/rag_pipeline.py:22-38 | a stripped text without either marker is returned unchanged |
| RagPipeline.CleanAnswerIdempotent | pipeline/rag_pipeline.py:22-38 | cleaning twice is cleaning once |
| RagPipeline.CleanAnswerCut | pipeline/rag_pipeline.py:26-38 | the cleaned answer is the stripped input up to the first place where either marker starts, or all of it, stripped again |
| RagPipeline.StrippedCut | pipeline/rag_pipeline.py:30-36 | the two cuts of a stripped text end where the first of the two markers starts |
| RagPipeline.CutRulesOnly | pipeline/rag_pipeline.py:30-36 | when "STRICT RULES" first starts at `iS` and the stripped part before it holds no "QUESTION:", the whole text has no "QUESTION:" before `iS` either, so the answer ends at `iS` |
| RagPipeline.CutRulesThenQuestion | pipeline/rag_pipeline.py:30-36 | when the stripped part before the first "STRICT RULES" holds "QUESTION:", the answer ends at the first "QUESTION:" of the whole text, and neither marker starts before it |
| RagPipeline.QuestionBeforeRules | pipeline/rag_pipeline.py:30-33 | a "QUESTION:" that starts before a "STRICT RULES" ends before it: the two markers cannot overlap |
| RagPipeline.Matching | pipeline/rag_pipeline.py:91-93 | the kept list is no longer than the input and holds a chunk exactly when the input holds it with the detected company |
| RagPipeline.MatchingInOrder | pipeline/rag_pipeline.py:91-93 | the kept chunks are in their retrieved order |
| RagPipeline.MatchingAppend | pipeline/rag_pipeline.py:91-93 | filtering two lists and joining the results is filtering their concatenation |
| RagPipeline.MatchingSingle | pipeline/rag_pipeline.py:91-93 | a single chunk is kept exactly when its company is the detected one |
| RagPipeline.MatchingCounts | pipeline/rag_pipeline.py:91-93 | each chunk of the company is kept as many times as it was retrieved, and no other chunk is kept |
| RagPipeline.CompanyFilter | pipeline/rag_pipeline.py:87-94 | the filtered list is never empty when retrieval is not |
| RagPipeline.CompanyFilterSpec | pipeline/rag_pipeline.py:87-94 | no company keeps the list; a company with matches keeps exactly its chunks, in order and each as often as retrieved; a company without matches falls back to the whole list |
| RagPipeline.Citation | pipeline/rag_pipeline.py:137-138 | the source is "document, item, p. " followed by the page number in decimal, which reads back as the page and has no leading zero |
| RagPipeline.RawAnswer | pipeline/rag_pipeline.py:109 | the raw answer has no leading or trailing whitespace |
| RagPipeline.FinalAnswer | pipeline/rag_pipeline.py:114-123 | the answer, first line of a table question or cleaned text otherwise, has no leading or trailing whitespace |
| RagPipeline.TopChunks | pipeline/rag_pipeline.py:87-100 | at most three chunks reach the prompt, and at least one when retrieval returned any |
| RagPipeline.TopChunksFromRetrieval | pipeline/rag_pipeline.py:87-100 | the prompt's chunks come from retrieval, and only from the detected company when retrieval has any of its chunks |
| RagPipeline.AnswerQuestion | pipeline/rag_pipeline.py:45-143 | every exit returns at most one source |
| RagPipeline.OutOfScopeExit | pipeline/rag_pipeline.py:51-61 | a question with an out-of-scope keyword gets the fixed refusal and no source, whatever retrieval and the model would do |
| RagPipeline.ShortcutExit | pipeline/rag_pipeline.py:66-70 | an in-scope question about Tesla's automotive percentage gets the fixed answer and its single source, whatever retrieval and the model would do |
| RagPipeline.EmptyRetrievalExit | pipeline/rag_pipeline.py:75-82 | empty retrieval answers "Not specified in the document." with no source |
| RagPipeline.GeneratedExit | pipeline/rag_pipeline.py:87-143 | otherwise the answer is the final answer of the model's output on the prompt of one to three top chunks; a refusal has no source, anything else cites the first top chunk |
| RagPipeline.SourcesUnlessRefused | pipeline/rag_pipeline.py:128-143 | an answer has no source exactly when it starts with "This question cannot be answered" or "Not specified" |
| RagPipeline.EchoedPromptAnswer | pipeline/rag_pipeline.py:105-109 | when the model echoes the prompt and then replies without "ANSWER:", the raw answer is the stripped reply |

## Left out

- PDF reading (`PdfReader`, `extract_text`) is not modelled. `load_pdf` takes the sequence of extracted page texts, with None for a page without text.
- The embedder, the vector store and `retrieval/retriever.py` are not part of this model. Retrieval is a function parameter that `answer_question` calls with `top_k = 8`.
- The cross-encoder is not modelled. Its scores are integers given per (query, chunk text), so they are aligned with the chunks by construction. Float NaN and infinities do not arise.
- The language model is not modelled. Generation is a function parameter from prompt to output text.
- The construction of `Retriever`, `Reranker` and `LLMGenerator` inside `answer_question` is left out, because it has no effect on the answer's logic.
- Reranker.Rerank: scores are integers rather than floats, so ties and ordering are those of a total order.
- Percent: computes exact round-half-even of 100·automotive/total. Python computes `(automotive / total) * 100` in floating point, so a result lying very near .5 may round differently there.
- Text.IsDigit, Utils.MatchAt and SectionParser.ItemMatchEnd: `\d` matches only the ASCII digits 0-9. Python's `\d` on a str pattern also matches other Unicode decimal digits, which `int()` reads; those are not modelled.
- Text.Lower, SectionParser.Title and Text.Strip: ASCII only. Non-ASCII letters and Unicode whitespace behave as in ASCII, not as Python's full Unicode rules.
- Utils.ExtractSentenceKeywords: proves that every keyword is kept only for keywords without leading or trailing whitespace. That covers every keyword the extractors pass. A keyword with surrounding whitespace can be lost when the sentence is stripped.
- Chunk metadata from the vector store is assumed to carry an item, as `assign_items` guarantees. Python's `.get("item")` returning None for an untagged chunk is not modelled.
- `load_pdf` and `assign_items` are modelled as producing new page lists. The in-place metadata update of `assign_items` has no observable difference here, because each page has its own metadata dictionary.
- Chunker.ChunkText: requires the loop to terminate, meaning a positive `chunk_size - overlap` or only empty pages. With a non-positive step on a non-empty page the Python loop never ends.
- RagPipeline.CleanAnswer: its own contract promises only that the answer is stripped. Where the cut falls is stated by the lemmas RagPipeline.CleanAnswerCut and RagPipeline.CleanAnswerSpec.
- Utils.MatchAt: its own contract only bounds the end of the match. That the end is the longest regex match is stated by the lemma Utils.MatchAtIff.
- Utils.FindAll: its own contract only bounds the matches. Which matches are reported, and in what order, is stated by the lemmas Utils.FindAllEmpty and Utils.FindAllLeftmost.
- PdfLoader.Collapse: its own contract only bounds the length. That each whitespace run becomes exactly one space is stated by the lemmas PdfLoader.CollapseAppend, PdfLoader.CollapseRun and PdfLoader.CollapseChar.
- PdfLoader.CleanText: its own contract promises only a stripped result. The content follows from the Collapse lemmas and from Text.Strip, and PdfLoader.CleanTextSingleSpaced and PdfLoader.CleanTextNonSpace state it.
- The `if __name__ == "__main__"` debug blocks are left out because they only print.
