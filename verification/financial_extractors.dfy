/**
 The rule-based extractors: each scans the retrieved chunks in order and
 reports the first chunk a fixed test accepts, together with a value read
 from it. Every extractor but the percentage one is a first-hit search with
 a per-chunk probe; the percentage one folds over all "Item 7" chunks.
 */
module FinancialExtractors {
  import opened Options
  import opened Text
  import opened Numbers
  import opened Records
  import opened Utils

  // ---------------------------------------------------------------------
  // First-hit search
  // ---------------------------------------------------------------------

  /** `chunks[i]` is the first chunk the probe accepts. */
  predicate FirstHitAt(chunks: seq<Chunk>, probe: Chunk -> Option<string>, i: int) {
    0 <= i < |chunks| && probe(chunks[i]).Some? && forall j :: 0 <= j < i ==> probe(chunks[j]).None?
  }

  /** `chunks[i]` is the first chunk satisfying `P`. */
  predicate FirstWhere(chunks: seq<Chunk>, P: Chunk -> bool, i: int) {
    0 <= i < |chunks| && P(chunks[i]) && forall j :: 0 <= j < i ==> !P(chunks[j])
  }

  /** The index of the first chunk from `k` on that the probe accepts. */
  function FirstFrom(chunks: seq<Chunk>, probe: Chunk -> Option<string>, k: nat): (r: Option<nat>)
    requires k <= |chunks|
    decreases |chunks| - k
    ensures r.Some? ==> k <= r.value < |chunks| && probe(chunks[r.value]).Some?
    ensures r.Some? ==> forall j :: k <= j < r.value ==> probe(chunks[j]).None?
    ensures r.None? <==> forall j :: k <= j < |chunks| ==> probe(chunks[j]).None?
  {
    if k == |chunks| then None
    else if probe(chunks[k]).Some? then Some(k)
    else FirstFrom(chunks, probe, k + 1)
  }

  /** Python's `for c in chunks: ... return value, c` / `return None, None`. */
  function FirstFound(chunks: seq<Chunk>, probe: Chunk -> Option<string>): (r: Option<Found>)
    ensures r.None? <==> forall i :: 0 <= i < |chunks| ==> probe(chunks[i]).None?
    ensures r.Some? ==>
      exists i :: FirstHitAt(chunks, probe, i) && r.value == Found(probe(chunks[i]).value, chunks[i])
    ensures r.Some? ==> r.value.chunk in chunks
  {
    match FirstFrom(chunks, probe, 0)
    case None => None
    case Some(i) =>
      assert FirstHitAt(chunks, probe, i);
      Some(Found(probe(chunks[i]).value, chunks[i]))
  }

  /** When a probe accepts exactly the chunks satisfying `P`, the search
      reports the first chunk satisfying `P`, and nothing when none does. */
  lemma FirstFoundWhere(chunks: seq<Chunk>, probe: Chunk -> Option<string>, P: Chunk -> bool)
    requires forall c :: probe(c).Some? <==> P(c)
    ensures var r := FirstFound(chunks, probe);
      r.None? <==> forall i :: 0 <= i < |chunks| ==> !P(chunks[i])
    ensures var r := FirstFound(chunks, probe);
      r.Some? ==> exists i :: FirstWhere(chunks, P, i) && r.value == Found(probe(chunks[i]).value, chunks[i])
  {
    var r := FirstFound(chunks, probe);
    if r.Some? {
      var i :| FirstHitAt(chunks, probe, i) && r.value == Found(probe(chunks[i]).value, chunks[i]);
      assert FirstWhere(chunks, P, i);
    }
  }

  /** The money numbers of a chunk's text. */
  function MoneyIn(c: Chunk): seq<nat> {
    ExtractAllMoneyNumbers(c.text)
  }

  /** `f"${n:,} million"`. */
  function Millions(n: nat): string {
    "$" + GroupThousands(n) + " million"
  }

  /** `f"{n:,} shares"`. */
  function Shares(n: nat): string {
    GroupThousands(n) + " shares"
  }

  // ---------------------------------------------------------------------
  // The probes
  // ---------------------------------------------------------------------

  /** `extract_total_revenue`'s test: an "Item 8" chunk naming total net
      sales or total revenues, with a money number. */
  predicate IsRevenueChunk(c: Chunk) {
    c.meta.item == "Item 8" &&
    (Contains(Lower(c.text), "total net sales") || Contains(Lower(c.text), "total revenues")) &&
    |MoneyIn(c)| > 0
  }

  function RevenueProbe(c: Chunk): (r: Option<string>)
    ensures r.Some? <==> IsRevenueChunk(c)
    ensures r.Some? ==> r.value == Millions(MoneyIn(c)[0])
  {
    if c.meta.item != "Item 8" then None
    else
      var t := Lower(c.text);
      if Contains(t, "total net sales") || Contains(t, "total revenues") then
        var nums := ExtractAllMoneyNumbers(c.text);
        if |nums| > 0 then Some(Millions(nums[0])) else None
      else None
  }

  /** `extract_term_debt`'s test: any chunk naming total term debt, with a
      money number; the item is not looked at. */
  predicate IsTermDebtChunk(c: Chunk) {
    Contains(Lower(c.text), "total term debt") && |MoneyIn(c)| > 0
  }

  function TermDebtProbe(c: Chunk): (r: Option<string>)
    ensures r.Some? <==> IsTermDebtChunk(c)
    ensures r.Some? ==> r.value == Millions(MoneyIn(c)[0])
  {
    if Contains(Lower(c.text), "total term debt") then
      var nums := ExtractAllMoneyNumbers(c.text);
      if |nums| > 0 then Some(Millions(nums[0])) else None
    else None
  }

  /** `extract_unresolved_staff_comments`'s test. */
  predicate IsStaffCommentsChunk(c: Chunk) {
    c.meta.item == "Item 1B" && Contains(Lower(c.text), "no unresolved staff comments")
  }

  function StaffCommentsProbe(c: Chunk): (r: Option<string>)
    ensures r.Some? <==> IsStaffCommentsChunk(c)
    ensures r.Some? ==> r.value == "No"
  {
    if c.meta.item == "Item 1B" && Contains(Lower(c.text), "no unresolved staff comments") then Some("No")
    else None
  }

  /** `extract_shares_outstanding`'s test. */
  predicate IsSharesChunk(c: Chunk) {
    Contains(Lower(c.text), "shares") && Contains(Lower(c.text), "outstanding") && |MoneyIn(c)| > 0
  }

  function SharesProbe(c: Chunk): (r: Option<string>)
    ensures r.Some? <==> IsSharesChunk(c)
    ensures r.Some? ==> r.value == Shares(MoneyIn(c)[0])
  {
    if Contains(Lower(c.text), "shares") && Contains(Lower(c.text), "outstanding") then
      var nums := ExtractAllMoneyNumbers(c.text);
      if |nums| > 0 then Some(Shares(nums[0])) else None
    else None
  }

  /** The sentence `extract_sentence_containing` finds in a chunk, when it
      is truthy (Python treats "" as no result). */
  function SentenceProbe(c: Chunk, keywords: seq<string>): (r: Option<string>)
    ensures r.Some? ==> r.value != "" && ExtractSentenceContaining(c.text, keywords) == r
    ensures r.None? <==> ExtractSentenceContaining(c.text, keywords) in {None, Some("")}
  {
    match ExtractSentenceContaining(c.text, keywords)
    case None => None
    case Some(s) => if s != "" then Some(s) else None
  }

  const VehicleKeywords: seq<string> := ["currently", "manufacture"]
  const DependencyKeywords: seq<string> := ["elon", "musk"]
  const LeaseKeywords: seq<string> := ["lease", "pass-through"]

  function VehicleProbe(c: Chunk): Option<string> {
    SentenceProbe(c, VehicleKeywords)
  }

  function DependencyProbe(c: Chunk): Option<string> {
    SentenceProbe(c, DependencyKeywords)
  }

  /** The sentence the lease probe cuts, when there is one. */
  function LeaseSentence(c: Chunk): string {
    match SentenceProbe(c, LeaseKeywords)
    case None => ""
    case Some(s) => s
  }

  /** `sent.split(".")[0] + "."`. */
  function FirstClause(sent: string): (r: string)
    ensures |r| > 0 && r[|r| - 1] == '.'
    ensures '.' !in r[..|r| - 1]
    ensures StartsWith(sent, r[..|r| - 1])
    ensures |r| - 1 == |sent| || sent[|r| - 1] == '.'
  {
    var b := BeforeFirst(sent, ".");
    NoDotIn(b);
    var r := b + ".";
    assert r[..|r| - 1] == b;
    assert Contains(sent, ".") ==> sent[|b|..|b| + 1] == ".";
    assert Contains(sent, ".") ==> sent[|b|] == '.';
    r
  }

  /** A string without the substring "." has no '.' character. */
  lemma NoDotIn(b: string)
    requires !Contains(b, ".")
    ensures '.' !in b
  {
    forall i | 0 <= i < |b|
      ensures b[i] != '.'
    {
      assert !OccursAt(b, ".", i);
      assert b[i..i + 1] == [b[i]];
    }
  }

  function LeaseProbe(c: Chunk): (r: Option<string>)
    ensures r.Some? <==> SentenceProbe(c, LeaseKeywords).Some?
    ensures r.Some? ==> r.value == FirstClause(SentenceProbe(c, LeaseKeywords).value)
  {
    match SentenceProbe(c, LeaseKeywords)
    case None => None
    case Some(s) => Some(FirstClause(s))
  }

  // ---------------------------------------------------------------------
  // The first-hit extractors
  // ---------------------------------------------------------------------

  /** Python's `extract_total_revenue(chunks)`. */
  function ExtractTotalRevenue(chunks: seq<Chunk>): (r: Option<Found>)
    ensures r.Some? ==>
      exists i :: FirstWhere(chunks, IsRevenueChunk, i) && r.value == Found(Millions(MoneyIn(chunks[i])[0]), chunks[i])
    ensures r.None? <==> forall i :: 0 <= i < |chunks| ==> !IsRevenueChunk(chunks[i])
  {
    FirstFoundWhere(chunks, RevenueProbe, IsRevenueChunk);
    FirstFound(chunks, RevenueProbe)
  }

  /** Python's `extract_term_debt(chunks)`. */
  function ExtractTermDebt(chunks: seq<Chunk>): (r: Option<Found>)
    ensures r.Some? ==>
      exists i :: FirstWhere(chunks, IsTermDebtChunk, i) && r.value == Found(Millions(MoneyIn(chunks[i])[0]), chunks[i])
    ensures r.None? <==> forall i :: 0 <= i < |chunks| ==> !IsTermDebtChunk(chunks[i])
  {
    FirstFoundWhere(chunks, TermDebtProbe, IsTermDebtChunk);
    FirstFound(chunks, TermDebtProbe)
  }

  /** Python's `extract_unresolved_staff_comments(chunks)`: the only value
      it ever reports is "No". */
  function ExtractUnresolvedStaffComments(chunks: seq<Chunk>): (r: Option<Found>)
    ensures r.Some? ==> exists i :: FirstWhere(chunks, IsStaffCommentsChunk, i) && r.value == Found("No", chunks[i])
    ensures r.None? <==> forall i :: 0 <= i < |chunks| ==> !IsStaffCommentsChunk(chunks[i])
  {
    FirstFoundWhere(chunks, StaffCommentsProbe, IsStaffCommentsChunk);
    FirstFound(chunks, StaffCommentsProbe)
  }

  /** Python's `extract_shares_outstanding(chunks)`. */
  function ExtractSharesOutstanding(chunks: seq<Chunk>): (r: Option<Found>)
    ensures r.Some? ==>
      exists i :: FirstWhere(chunks, IsSharesChunk, i) && r.value == Found(Shares(MoneyIn(chunks[i])[0]), chunks[i])
    ensures r.None? <==> forall i :: 0 <= i < |chunks| ==> !IsSharesChunk(chunks[i])
  {
    FirstFoundWhere(chunks, SharesProbe, IsSharesChunk);
    FirstFound(chunks, SharesProbe)
  }

  /** Python's `extract_vehicle_list(chunks)`. */
  function ExtractVehicleList(chunks: seq<Chunk>): (r: Option<Found>)
    ensures r.Some? ==> exists i :: FirstHitAt(chunks, VehicleProbe, i) && r.value.chunk == chunks[i]
    ensures r.Some? ==> FoundSentence(r.value, VehicleKeywords)
    ensures r.None? <==> forall i :: 0 <= i < |chunks| ==> VehicleProbe(chunks[i]).None?
  {
    KeywordsStripped();
    SentenceSearch(chunks, VehicleProbe, VehicleKeywords);
    FirstFound(chunks, VehicleProbe)
  }

  /** Python's `extract_dependency_statement(chunks)`. */
  function ExtractDependencyStatement(chunks: seq<Chunk>): (r: Option<Found>)
    ensures r.Some? ==> exists i :: FirstHitAt(chunks, DependencyProbe, i) && r.value.chunk == chunks[i]
    ensures r.Some? ==> FoundSentence(r.value, DependencyKeywords)
    ensures r.None? <==> forall i :: 0 <= i < |chunks| ==> DependencyProbe(chunks[i]).None?
  {
    KeywordsStripped();
    SentenceSearch(chunks, DependencyProbe, DependencyKeywords);
    FirstFound(chunks, DependencyProbe)
  }

  /** Python's `extract_lease_passthrough(chunks)`: the value is the found
      sentence up to its first '.', with that '.' put back, so it holds
      exactly one '.' and ends with it. */
  function ExtractLeasePassthrough(chunks: seq<Chunk>): (r: Option<Found>)
    ensures r.Some? ==> exists i :: FirstHitAt(chunks, LeaseProbe, i) && r.value.chunk == chunks[i]
    ensures r.Some? ==>
      var v := r.value.value;
      |v| > 0 && v[|v| - 1] == '.' && '.' !in v[..|v| - 1] &&
      FoundSentence(Found(LeaseSentence(r.value.chunk), r.value.chunk), LeaseKeywords) &&
      StartsWith(LeaseSentence(r.value.chunk), v[..|v| - 1]) &&
      (|v| - 1 == |LeaseSentence(r.value.chunk)| || LeaseSentence(r.value.chunk)[|v| - 1] == '.')
    ensures r.None? <==> forall i :: 0 <= i < |chunks| ==> LeaseProbe(chunks[i]).None?
  {
    var r := FirstFound(chunks, LeaseProbe);
    if r.Some? then LeaseFound(r.value.chunk); r else r
  }

  // ---------------------------------------------------------------------
  // Found sentences
  // ---------------------------------------------------------------------

  /** `f.value` is the sentence the finder returns for `f.chunk`: stripped,
      non-empty, a stretch of the chunk's text with no sentence break inside,
      holding every keyword case-insensitively. */
  predicate FoundSentence(f: Found, keywords: seq<string>) {
    var v := f.value;
    ExtractSentenceContaining(f.chunk.text, keywords) == Some(v) &&
    v != "" && IsStripped(v) && Contains(f.chunk.text, v) &&
    NoBreakBetween(v, 0, |v|) && HasAll(v, keywords)
  }

  lemma SentenceProbeFound(c: Chunk, keywords: seq<string>)
    requires forall k :: 0 <= k < |keywords| ==> IsStripped(keywords[k])
    ensures SentenceProbe(c, keywords).Some? ==> FoundSentence(Found(SentenceProbe(c, keywords).value, c), keywords)
  {
    ExtractSentenceSound(c.text, keywords);
    ExtractSentenceKeywords(c.text, keywords);
  }

  /** The search with a sentence probe reports a found sentence. */
  lemma SentenceSearch(chunks: seq<Chunk>, probe: Chunk -> Option<string>, keywords: seq<string>)
    requires forall c :: probe(c) == SentenceProbe(c, keywords)
    requires forall k :: 0 <= k < |keywords| ==> IsStripped(keywords[k])
    ensures var r := FirstFound(chunks, probe);
      r.Some? ==> FoundSentence(r.value, keywords)
  {
    var r := FirstFound(chunks, probe);
    if r.Some? {
      var i :| FirstHitAt(chunks, probe, i) && r.value == Found(probe(chunks[i]).value, chunks[i]);
      SentenceProbeFound(chunks[i], keywords);
    }
  }

  /** What the lease probe cuts is a found sentence. */
  lemma LeaseFound(c: Chunk)
    requires LeaseProbe(c).Some?
    ensures FoundSentence(Found(LeaseSentence(c), c), LeaseKeywords)
    ensures LeaseProbe(c).value == FirstClause(LeaseSentence(c))
  {
    KeywordsStripped();
    SentenceProbeFound(c, LeaseKeywords);
  }

  /** The extractors' keywords have no surrounding whitespace. */
  lemma KeywordsStripped()
    ensures forall k :: 0 <= k < |VehicleKeywords| ==> IsStripped(VehicleKeywords[k])
    ensures forall k :: 0 <= k < |DependencyKeywords| ==> IsStripped(DependencyKeywords[k])
    ensures forall k :: 0 <= k < |LeaseKeywords| ==> IsStripped(LeaseKeywords[k])
  {
  }

  // ---------------------------------------------------------------------
  // Reported values read back
  // ---------------------------------------------------------------------

  /** A reported amount of at least 1,000 scans back to the number it was
      made from. */
  lemma MillionsRoundTrip(n: nat)
    requires n >= 1000
    ensures ExtractAllMoneyNumbers(Millions(n)) == [n]
  {
    MoneyRoundTrip("$", n, " million");
  }

  lemma SharesRoundTrip(n: nat)
    requires n >= 1000
    ensures ExtractAllMoneyNumbers(Shares(n)) == [n]
  {
    assert Shares(n) == "" + GroupThousands(n) + " shares";
    MoneyRoundTrip("", n, " shares");
  }

  /** Below 1,000 the reported amount has no comma, so scanning it finds
      no money number at all. */
  lemma SmallMillionsUnread(n: nat)
    requires n < 1000
    ensures ExtractAllMoneyNumbers(Millions(n)) == []
  {
    var g := NatToString(n);
    NoCommaInDigitsChar(g);
    assert ',' !in "$" && ',' !in " million";
    assert Millions(n) == "$" + g + " million";
    NoCommaNoNumbers(Millions(n));
  }

  lemma NoCommaInDigitsChar(s: string)
    requires AllDigits(s)
    ensures ',' !in s
  {
    forall i | 0 <= i < |s|
      ensures s[i] != ','
    {
      assert IsDigit(s[i]);
    }
  }

  // ---------------------------------------------------------------------
  // The automotive sales percentage
  // ---------------------------------------------------------------------

  /** The first money number of an "Item 7" chunk naming total revenues. */
  function TotalProbe(c: Chunk): Option<nat> {
    if c.meta.item == "Item 7" && Contains(Lower(c.text), "total revenues") && |MoneyIn(c)| > 0
    then Some(MoneyIn(c)[0]) else None
  }

  /** The first money number of an "Item 7" chunk naming automotive sales
      excluding leasing. */
  function AutomotiveProbe(c: Chunk): Option<nat> {
    if c.meta.item == "Item 7" && Contains(Lower(c.text), "automotive sales") &&
       Contains(Lower(c.text), "excluding leasing") && |MoneyIn(c)| > 0
    then Some(MoneyIn(c)[0]) else None
  }

  /** One pass of the loop body of `extract_automotive_sales_percentage`:
      a chunk outside "Item 7" is skipped, and a matching chunk without
      numbers keeps the earlier value. */
  function Step(c: Chunk, total: Option<nat>, automotive: Option<nat>): (Option<nat>, Option<nat>) {
    if c.meta.item != "Item 7" then (total, automotive)
    else
      var t := Lower(c.text);
      var nums := ExtractAllMoneyNumbers(c.text);
      var total' := if Contains(t, "total revenues") then (if |nums| > 0 then Some(nums[0]) else total) else total;
      var automotive' :=
        if Contains(t, "automotive sales") && Contains(t, "excluding leasing")
        then (if |nums| > 0 then Some(nums[0]) else automotive) else automotive;
      (total', automotive')
  }

  /** The loop from chunk `k` on, with the values carried so far. */
  function Scan(chunks: seq<Chunk>, k: nat, total: Option<nat>, automotive: Option<nat>): (r: (Option<nat>, Option<nat>))
    requires k <= |chunks|
    decreases |chunks| - k
    ensures total.Some? ==> r.0.Some?
    ensures automotive.Some? ==> r.1.Some?
  {
    if k == |chunks| then (total, automotive)
    else
      var (total', automotive') := Step(chunks[k], total, automotive);
      Scan(chunks, k + 1, total', automotive')
  }

  /** A hit replaces the carried value; a miss keeps it. */
  function Keep(carried: Option<nat>, hit: Option<nat>): Option<nat> {
    if hit.Some? then hit else carried
  }

  /** The loop body updates each value by its own probe. */
  lemma StepKeeps(c: Chunk, total: Option<nat>, automotive: Option<nat>)
    ensures Step(c, total, automotive) == (Keep(total, TotalProbe(c)), Keep(automotive, AutomotiveProbe(c)))
  {
  }

  /** The value of the last of the first `n` chunks the probe accepts. */
  function LastHit(chunks: seq<Chunk>, n: nat, probe: Chunk -> Option<nat>): (r: Option<nat>)
    requires n <= |chunks|
    ensures r.None? <==> forall j :: 0 <= j < n ==> probe(chunks[j]).None?
  {
    if n == 0 then None else Keep(LastHit(chunks, n - 1, probe), probe(chunks[n - 1]))
  }

  /** `chunks[i]` is the last of the first `n` chunks the probe accepts. */
  predicate LastHitAt(chunks: seq<Chunk>, n: nat, probe: Chunk -> Option<nat>, i: int)
    requires n <= |chunks|
  {
    0 <= i < n && probe(chunks[i]).Some? && forall j :: i < j < n ==> probe(chunks[j]).None?
  }

  /** A value LastHit reports is the probe's value on the last accepted chunk. */
  lemma {:induction false} LastHitIsLast(chunks: seq<Chunk>, n: nat, probe: Chunk -> Option<nat>)
    requires n <= |chunks|
    ensures LastHit(chunks, n, probe).Some? ==>
      exists i :: LastHitAt(chunks, n, probe, i) && probe(chunks[i]) == LastHit(chunks, n, probe)
  {
    if n > 0 {
      if probe(chunks[n - 1]).Some? {
        assert LastHitAt(chunks, n, probe, n - 1);
      } else {
        assert LastHit(chunks, n, probe) == LastHit(chunks, n - 1, probe);
        LastHitIsLast(chunks, n - 1, probe);
        if LastHit(chunks, n - 1, probe).Some? {
          var i :| LastHitAt(chunks, n - 1, probe, i) && probe(chunks[i]) == LastHit(chunks, n - 1, probe);
          assert LastHitAt(chunks, n, probe, i);
        }
      }
    }
  }

  /** The loop keeps, for each of the two values, the last chunk that
      supplies one: carrying what the first `k` chunks gave leads to what
      all chunks give. */
  lemma {:induction false} ScanIsLastHit(chunks: seq<Chunk>, k: nat)
    requires k <= |chunks|
    decreases |chunks| - k
    ensures Scan(chunks, k, LastHit(chunks, k, TotalProbe), LastHit(chunks, k, AutomotiveProbe)) ==
      (LastHit(chunks, |chunks|, TotalProbe), LastHit(chunks, |chunks|, AutomotiveProbe))
  {
    if k < |chunks| {
      StepKeeps(chunks[k], LastHit(chunks, k, TotalProbe), LastHit(chunks, k, AutomotiveProbe));
      ScanIsLastHit(chunks, k + 1);
    }
  }

  /** Python's `round((automotive / total) * 100)` on exact fractions. */
  function Percent(automotive: nat, total: nat): (p: nat)
    requires total > 0
    ensures NearestEven(100 * automotive, total, p)
  {
    RoundHalfEven(100 * automotive, total)
  }

  /** Python's `extract_automotive_sales_percentage(chunks)`: the value comes
      from the last "Item 7" chunks with each figure, but the chunk reported
      is always the first input chunk. */
  function ExtractAutomotiveSalesPercentage(chunks: seq<Chunk>): (r: Option<Found>)
    ensures var total := LastHit(chunks, |chunks|, TotalProbe);
      var automotive := LastHit(chunks, |chunks|, AutomotiveProbe);
      r.Some? <==> total.Some? && total.value != 0 && automotive.Some? && automotive.value != 0
    ensures var total := LastHit(chunks, |chunks|, TotalProbe);
      var automotive := LastHit(chunks, |chunks|, AutomotiveProbe);
      r.Some? ==>
        |chunks| > 0 && r.value.chunk == chunks[0] &&
        exists p: nat :: NearestEven(100 * automotive.value, total.value, p) &&
          r.value.value == "Approximately " + NatToString(p) + "%"
  {
    ScanIsLastHit(chunks, 0);
    var (total, automotive) := Scan(chunks, 0, None, None);
    if total.Some? && total.value != 0 && automotive.Some? && automotive.value != 0 then
      var p := Percent(automotive.value, total.value);
      Some(Found("Approximately " + NatToString(p) + "%", chunks[0]))
    else None
  }

  /** The figures the pipeline's shortcut quotes, $81,924M of $96,773M,
      round to 85 percent. */
  lemma PercentExample()
    ensures Percent(81924, 96773) == 85
  {
    RoundHalfEvenUnique(8192400, 96773, 85);
  }
}
