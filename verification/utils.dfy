/**
 The two text helpers of the answering pipeline: the money-number scanner
 (the regex `\$?\d{1,3}(?:,\d{3})+` under `re.findall`, then `int` of the
 match without "$" and ",") and the sentence finder (`re.split` on
 `(?<=[.!?])\s+`, then the first sentence holding every keyword).
 */
module Utils {
  import opened Options
  import opened Text
  import opened Numbers

  // ---------------------------------------------------------------------
  // The money pattern
  // ---------------------------------------------------------------------

  /** A ",ddd" group starts at `i`. */
  predicate HasGroup(s: string, i: nat) {
    i + 4 <= |s| && s[i] == ',' && IsDigit(s[i + 1]) && IsDigit(s[i + 2]) && IsDigit(s[i + 3])
  }

  /** The end of the run of ",ddd" groups starting at `i` (the greedy `(?:,\d{3})+`). */
  function SkipGroups(s: string, i: nat): (r: nat)
    requires i <= |s|
    decreases |s| - i
    ensures i <= r <= |s| && !HasGroup(s, r)
  {
    if HasGroup(s, i) then SkipGroups(s, i + 4) else i
  }

  /** Where the digits of a match starting at `p` begin: after an optional "$". */
  function DigitsStart(s: string, p: nat): (q: nat)
    requires p <= |s|
    ensures p <= q <= |s| && q <= p + 1
  {
    if p < |s| && s[p] == '$' then p + 1 else p
  }

  /** The end of the match of the money pattern at `p`, if there is one. The
      `\d{1,3}` backtracks, but a shorter lead is followed by a digit rather
      than a comma, so only the whole digit run can lead, and only when it is
      one to three digits long. */
  function MatchAt(s: string, p: nat): (r: Option<nat>)
    requires p <= |s|
    ensures r.Some? ==> p < r.value <= |s|
  {
    var q := DigitsStart(s, p);
    var e := SkipDigits(s, q);
    if 1 <= e - q <= 3 && HasGroup(s, e) then Some(SkipGroups(s, e + 4)) else None
  }

  /** Python's `re.findall(pattern, s[p:])` for the money pattern: matches
      left to right, each search resuming where the last match ended. */
  function FindAll(s: string, p: nat): (r: seq<string>)
    requires p <= |s|
    decreases |s| - p
    ensures forall i :: 0 <= i < |r| ==> 0 < |r[i]| <= |s| - p
  {
    if p == |s| then []
    else match MatchAt(s, p)
      case Some(e) => [s[p..e]] + FindAll(s, e)
      case None => FindAll(s, p + 1)
  }

  /** `m.replace("$", "").replace(",", "")`. */
  function Clean(m: string): string {
    RemoveChar(RemoveChar(m, '$'), ',')
  }

  /** Every character is a digit, a comma or a dollar sign. */
  predicate MoneyChars(m: string) {
    forall k :: 0 <= k < |m| ==> IsDigit(m[k]) || m[k] == ',' || m[k] == '$'
  }

  /** Python's `[int(clean(n)) for n in nums]`. */
  function Values(ms: seq<string>): (r: seq<nat>)
    requires forall i :: 0 <= i < |ms| ==> AllDigits(Clean(ms[i]))
    ensures |r| == |ms|
    ensures forall i :: 0 <= i < |ms| ==> r[i] == DigitsValue(Clean(ms[i]))
  {
    seq(|ms|, i requires 0 <= i < |ms| => DigitsValue(Clean(ms[i])))
  }


  /** Python's `extract_all_money_numbers(text)`. */
  function ExtractAllMoneyNumbers(text: string): (r: seq<nat>)
    ensures |r| == |FindAll(text, 0)|
    ensures forall i :: 0 <= i < |FindAll(text, 0)| ==> AllDigits(Clean(FindAll(text, 0)[i]))
    ensures forall i :: 0 <= i < |r| ==> r[i] == DigitsValue(Clean(FindAll(text, 0)[i]))
  {
    FindAllChars(text, 0);
    Values(FindAll(text, 0))
  }

  lemma {:induction false} RemoveCharSub(s: string, c: char)
    ensures forall x :: x in RemoveChar(s, c) ==> x in s && x != c
  {
    if |s| > 0 {
      RemoveCharSub(s[1..], c);
      assert forall x :: x in s[1..] ==> x in s;
    }
  }

  lemma CleanDigits(m: string)
    requires MoneyChars(m)
    ensures AllDigits(Clean(m))
  {
    RemoveCharSub(m, '$');
    RemoveCharSub(RemoveChar(m, '$'), ',');
    var c := Clean(m);
    forall k | 0 <= k < |c|
      ensures IsDigit(c[k])
    {
      assert c[k] in c;
      var j :| 0 <= j < |m| && m[j] == c[k];
    }
  }

  /** The groups run holds only digits and commas. */
  lemma {:induction false} GroupChars(s: string, i: nat, k: nat)
    requires i <= |s| && i <= k < SkipGroups(s, i)
    decreases |s| - i
    ensures IsDigit(s[k]) || s[k] == ','
  {
    if k >= i + 4 {
      GroupChars(s, i + 4, k);
    }
  }

  /** A match holds only digits, commas and a dollar sign. */
  lemma MatchChars(s: string, p: nat)
    requires p <= |s| && MatchAt(s, p).Some?
    ensures MoneyChars(s[p..MatchAt(s, p).value])
  {
    var q := DigitsStart(s, p);
    var e := SkipDigits(s, q);
    var m := s[p..MatchAt(s, p).value];
    forall k | 0 <= k < |m|
      ensures IsDigit(m[k]) || m[k] == ',' || m[k] == '$'
    {
      var a := p + k;
      assert m[k] == s[a];
      if a >= e + 4 {
        GroupChars(s, e + 4, a);
      } else if a >= e {
        assert HasGroup(s, e);
      }
    }
  }

  lemma {:induction false} FindAllChars(s: string, p: nat)
    requires p <= |s|
    decreases |s| - p
    ensures forall i :: 0 <= i < |FindAll(s, p)| ==> AllDigits(Clean(FindAll(s, p)[i]))
  {
    if p < |s| {
      match MatchAt(s, p)
      case Some(e) =>
        FindAllChars(s, e);
        MatchChars(s, p);
        CleanDigits(s[p..e]);
        var r := FindAll(s, p);
        assert r == [s[p..e]] + FindAll(s, e);
        assert forall i :: 0 < i < |r| ==> r[i] == FindAll(s, e)[i - 1];
      case None =>
        FindAllChars(s, p + 1);
    }
  }

  // ---------------------------------------------------------------------
  // Properties of the money scanner
  // ---------------------------------------------------------------------

  /** Every match carries at least one ",ddd" group, so text without a comma
      yields no number: a plain year such as "2024" is never read. */
  lemma MatchHasGroup(s: string, p: nat)
    requires p <= |s| && MatchAt(s, p).Some?
    ensures exists g :: p < g && g + 4 <= MatchAt(s, p).value && HasGroup(s, g)
  {
    var e := SkipDigits(s, DigitsStart(s, p));
    assert HasGroup(s, e) && SkipGroups(s, e) == SkipGroups(s, e + 4);
  }

  /** `m` is the text of the match that starts at `a`. */
  predicate MatchedAt(s: string, m: string, a: nat) {
    a <= |s| && MatchAt(s, a).Some? && m == s[a..MatchAt(s, a).value]
  }

  /** Every string of `ms` is the text of a match starting at or after `p`. */
  predicate AllMatchedFrom(s: string, ms: seq<string>, p: nat) {
    forall i :: 0 <= i < |ms| ==> MatchedFrom(s, ms[i], p)
  }

  /** `m` is the text of a match starting at or after `p`. */
  predicate MatchedFrom(s: string, m: string, p: nat) {
    exists a: nat :: p <= a <= |s| && MatchedAt(s, m, a)
  }

  lemma MatchedFromEarlier(s: string, ms: seq<string>, p: nat, q: nat)
    requires p <= q && AllMatchedFrom(s, ms, q)
    ensures AllMatchedFrom(s, ms, p)
  {
    forall i | 0 <= i < |ms|
      ensures MatchedFrom(s, ms[i], p)
    {
      assert MatchedFrom(s, ms[i], q);
      var a: nat :| q <= a <= |s| && MatchedAt(s, ms[i], a);
    }
  }

  /** Every string findall reports is the text of a match of the pattern
      starting at or after `p`. */
  lemma {:induction false} FindAllMatches(s: string, p: nat)
    requires p <= |s|
    decreases |s| - p
    ensures AllMatchedFrom(s, FindAll(s, p), p)
  {
    if p < |s| {
      match MatchAt(s, p)
      case Some(e) =>
        FindAllMatches(s, e);
        MatchedFromEarlier(s, FindAll(s, e), p, e);
        MatchedCons(s, p, e, FindAll(s, e));
        assert FindAll(s, p) == [s[p..e]] + FindAll(s, e);
      case None =>
        FindAllMatches(s, p + 1);
        MatchedFromEarlier(s, FindAll(s, p + 1), p, p + 1);
    }
  }

  lemma MatchedCons(s: string, p: nat, e: nat, rest: seq<string>)
    requires p <= |s| && MatchAt(s, p) == Some(e) && AllMatchedFrom(s, rest, p)
    ensures AllMatchedFrom(s, [s[p..e]] + rest, p)
  {
    var r := [s[p..e]] + rest;
    assert MatchedAt(s, r[0], p);
    forall i | 0 < i < |r|
      ensures MatchedFrom(s, r[i], p)
    {
      assert r[i] == rest[i - 1];
    }
  }

  /** A matched text holds a comma followed by three digits. */
  lemma MatchedHasGroup(s: string, m: string, a: nat)
    requires MatchedAt(s, m, a)
    ensures exists g :: HasGroup(m, g)
  {
    MatchHasGroup(s, a);
    var g :| a < g && g + 4 <= MatchAt(s, a).value && HasGroup(s, g);
    assert HasGroup(m, g - a);
  }

  // ---------------------------------------------------------------------
  // The scanner against the regex
  // ---------------------------------------------------------------------

  /** `s[i..r]` is zero or more ",ddd" groups back to back. */
  predicate GroupsFrom(s: string, i: nat, r: nat)
    decreases r - i
  {
    i == r || (i + 4 <= r && HasGroup(s, i) && GroupsFrom(s, i + 4, r))
  }

  /** `s[p..e]` is `\$?\d{1,3}` with the digits on `[q, e)`. */
  predicate LeadAt(s: string, p: nat, q: nat, e: nat) {
    && (q == p || (q == p + 1 && p < |s| && s[p] == '$'))
    && q < e <= q + 3
    && e <= |s|
    && DigitRange(s, q, e)
  }

  /** `s[p..r]` is a match of `\$?\d{1,3}(?:,\d{3})+`. */
  predicate MoneyMatch(s: string, p: nat, r: nat) {
    exists q: nat, e: nat | q <= p + 1 && e <= r :: LeadAt(s, p, q, e) && e + 4 <= r && GroupsFrom(s, e, r)
  }

  /** The greedy group run is a run of groups. */
  lemma {:induction false} SkipGroupsGroups(s: string, i: nat)
    requires i <= |s|
    decreases |s| - i
    ensures GroupsFrom(s, i, SkipGroups(s, i))
  {
    if HasGroup(s, i) {
      SkipGroupsGroups(s, i + 4);
    }
  }

  /** No run of groups from `i` ends past the greedy one. */
  lemma {:induction false} GroupsWithinSkip(s: string, i: nat, r: nat)
    requires i <= |s| && GroupsFrom(s, i, r)
    decreases r - i
    ensures r <= SkipGroups(s, i)
  {
    if i != r {
      GroupsWithinSkip(s, i + 4, r);
    }
  }

  /** What the scanner finds at `p` is a match of the pattern. */
  lemma MatchAtMatches(s: string, p: nat)
    requires p <= |s| && MatchAt(s, p).Some?
    ensures MoneyMatch(s, p, MatchAt(s, p).value)
  {
    var q := DigitsStart(s, p);
    var e := SkipDigits(s, q);
    SkipGroupsGroups(s, e + 4);
    assert LeadAt(s, p, q, e) && GroupsFrom(s, e, MatchAt(s, p).value);
  }

  /** Every match of the pattern at `p` is found by the scanner, and ends no
      later than the one it reports. */
  lemma MatchAtLongest(s: string, p: nat, r: nat)
    requires p <= |s| && MoneyMatch(s, p, r)
    ensures MatchAt(s, p).Some? && r <= MatchAt(s, p).value
  {
    var q: nat, e: nat :| q <= p + 1 && e <= r && LeadAt(s, p, q, e) && e + 4 <= r && GroupsFrom(s, e, r);
    assert q < e <= |s|;
    assert IsDigit(s[q]);
    assert q == DigitsStart(s, p);
    assert HasGroup(s, e);
    SkipDigitsAt(s, q, e);
    GroupsWithinSkip(s, e + 4, r);
  }

  /** The scanner at `p` reports exactly the longest match of the pattern
      there, which is the one Python's backtracking picks: `\$?` and
      `\d{1,3}` can only succeed one way, and the greedy group run has
      nothing after it to give way to. No match means none at all. */
  lemma MatchAtIff(s: string, p: nat, r: nat)
    requires p <= |s|
    ensures MatchAt(s, p) == Some(r) <==> MoneyMatch(s, p, r) && forall r': nat :: MoneyMatch(s, p, r') ==> r' <= r
    ensures MatchAt(s, p).None? <==> forall r': nat :: !MoneyMatch(s, p, r')
  {
    if MatchAt(s, p) == Some(r) {
      MatchAtMatches(s, p);
      forall r': nat | MoneyMatch(s, p, r')
        ensures r' <= r
      {
        MatchAtLongest(s, p, r');
      }
    }
    if MoneyMatch(s, p, r) && forall r': nat :: MoneyMatch(s, p, r') ==> r' <= r {
      MatchAtLongest(s, p, r);
      MatchAtMatches(s, p);
    }
    forall r': nat | MoneyMatch(s, p, r')
      ensures MatchAt(s, p).Some?
    {
      MatchAtLongest(s, p, r');
    }
    if MatchAt(s, p).Some? {
      MatchAtMatches(s, p);
    }
  }

  /** The pattern has no word boundary: in "1234,567" no match starts at the
      first digit, since four digits cannot lead, but one starts at the second. */
  lemma MoneyNoBoundary()
    ensures forall r: nat :: !MoneyMatch("1234,567", 0, r)
    ensures MoneyMatch("1234,567", 1, 8)
  {
    var s := "1234,567";
    assert SkipDigits(s, 0) == 4 by { SkipDigitsAt(s, 0, 4); }
    assert SkipDigits(s, 1) == 4 by { SkipDigitsAt(s, 1, 4); }
    assert SkipGroups(s, 8) == 8;
    MatchAtIff(s, 0, 8);
    MatchAtMatches(s, 1);
  }

  /** No match of the scanner starts on `[p, a)`. */
  predicate NoMatchBetween(s: string, p: nat, a: nat) {
    forall b: nat | p <= b < a && b <= |s| :: MatchAt(s, b).None?
  }

  /** findall skips a stretch where no match starts. */
  lemma {:induction false} FindAllSkip(s: string, p: nat, a: nat)
    requires p <= a <= |s| && NoMatchBetween(s, p, a)
    decreases a - p
    ensures FindAll(s, p) == FindAll(s, a)
  {
    if p < a {
      NoMatchShift(s, p, a);
      var rest := FindAll(s, p + 1);
      FindAllNone(s, p);
      FindAllSkip(s, p + 1, a);
      assert FindAll(s, p) == rest;
    }
  }



  /** A stretch without a match starts with a position without one. */
  lemma NoMatchShift(s: string, p: nat, a: nat)
    requires p < a <= |s| && NoMatchBetween(s, p, a)
    ensures MatchAt(s, p).None? && NoMatchBetween(s, p + 1, a)
  {
  }

  /** Where no match starts, findall moves on by one character. */
  lemma FindAllNone(s: string, p: nat)
    requires p < |s| && MatchAt(s, p).None?
    ensures FindAll(s, p) == FindAll(s, p + 1)
  {
  }

  /** findall from `p` reports the leftmost match at or after `p` first, then
      resumes at its end. */
  lemma FindAllLeftmost(s: string, p: nat, a: nat)
    requires p <= a <= |s| && NoMatchBetween(s, p, a) && MatchAt(s, a).Some?
    ensures a < |s|
    ensures FindAll(s, p) == [s[a..MatchAt(s, a).value]] + FindAll(s, MatchAt(s, a).value)
  {
    FindAllSkip(s, p, a);
  }

  /** findall from `p` is empty exactly when no match starts at or after `p`. */
  lemma {:induction false} FindAllEmpty(s: string, p: nat)
    requires p <= |s|
    decreases |s| - p
    ensures FindAll(s, p) == [] <==> NoMatchBetween(s, p, |s| + 1)
  {
    if p == |s| {
      assert DigitsStart(s, p) == p && SkipDigits(s, p) == p;
    } else if MatchAt(s, p).Some? {
      assert FindAll(s, p) != [];
    } else {
      assert FindAll(s, p) == FindAll(s, p + 1);
      FindAllEmpty(s, p + 1);
      assert NoMatchBetween(s, p, |s| + 1) <==> NoMatchBetween(s, p + 1, |s| + 1);
    }
  }


  lemma {:induction false} NoCommaNoMatch(s: string, p: nat)
    requires p <= |s| && ',' !in s
    decreases |s| - p
    ensures FindAll(s, p) == []
  {
    if p < |s| {
      var e := SkipDigits(s, DigitsStart(s, p));
      assert !HasGroup(s, e) by {
        if e < |s| {
          assert s[e] in s;
        }
      }
      NoCommaNoMatch(s, p + 1);
    }
  }

  lemma NoCommaNoNumbers(text: string)
    requires ',' !in text
    ensures ExtractAllMoneyNumbers(text) == []
  {
    NoCommaNoMatch(text, 0);
  }

  /** `s[i..j]` is a run of whole ",ddd" groups. */
  predicate AllGroups(s: string, i: nat, j: nat)
    decreases j - i
  {
    if i >= j then i == j else HasGroup(s, i) && AllGroups(s, i + 4, j)
  }

  lemma {:induction false} AllGroupsExtend(s: string, i: nat, j: nat)
    requires AllGroups(s, i, j) && HasGroup(s, j)
    decreases j - i
    ensures AllGroups(s, i, j + 4)
  {
    if i < j {
      AllGroupsExtend(s, i + 4, j);
    }
  }

  /** The greedy group loop stops exactly after a run of whole groups that
      no further group follows. */
  lemma {:induction false} SkipGroupsAll(s: string, i: nat, j: nat)
    requires AllGroups(s, i, j) && !HasGroup(s, j) && j <= |s|
    decreases j - i
    ensures i <= |s| && SkipGroups(s, i) == j
  {
    if i < j {
      SkipGroupsAll(s, i + 4, j);
    }
  }

  /** Number of digits before the first comma of `f"{n:,}"`. */
  function LeadLen(n: nat): nat {
    if n < 1000 then |NatToString(n)| else LeadLen(n / 1000)
  }

  /** `s` holds `f"{n:,}"` at `a`: a lead of `l` (one to three) digits,
      then whole ",ddd" groups up to `e`. */
  predicate Layout(s: string, a: nat, l: nat, e: nat) {
    1 <= l <= 3 && a + l <= e <= |s| && DigitRange(s, a, a + l) && AllGroups(s, a + l, e)
  }

  /** Inside any text, `f"{n:,}"` reads as a lead of one to three digits
      followed by whole ",ddd" groups up to its end, and for `n >= 1000` the
      lead is followed by a comma. */
  lemma {:induction false} GroupedLayout(s: string, pre: string, n: nat, post: string)
    requires s == pre + GroupThousands(n) + post
    ensures Layout(s, |pre|, LeadLen(n), |pre| + |GroupThousands(n)|)
    ensures n >= 1000 ==> s[|pre| + LeadLen(n)] == ','
    decreases n, 1
  {
    if n < 1000 {
      NatToStringShort(n);
      DigitInfix(pre, NatToString(n), post);
    } else {
      GroupedStep(s, pre, n, post);
    }
  }

  lemma DigitInfix(pre: string, g: string, post: string)
    requires AllDigits(g)
    ensures DigitRange(pre + g + post, |pre|, |pre| + |g|)
  {
    var s := pre + g + post;
    forall k | |pre| <= k < |pre| + |g|
      ensures IsDigit(s[k])
    {
      assert s[k] == g[k - |pre|];
    }
  }

  lemma {:induction false} GroupedStep(s: string, pre: string, n: nat, post: string)
    requires n >= 1000 && s == pre + GroupThousands(n) + post
    decreases n, 0
    ensures Layout(s, |pre|, LeadLen(n), |pre| + |GroupThousands(n)|)
    ensures s[|pre| + LeadLen(n)] == ','
  {
    var h := GroupThousands(n / 1000);
    var t := "," + Pad3(n % 1000);
    GroupThousandsStep(n);
    assert s == pre + h + (t + post);
    GroupedLayout(s, pre, n / 1000, t + post);
    StepCore(s, pre, h, t, post, LeadLen(n / 1000));
    assert LeadLen(n) == LeadLen(n / 1000);
  }

  lemma GroupThousandsStep(n: nat)
    requires n >= 1000
    ensures GroupThousands(n) == GroupThousands(n / 1000) + ("," + Pad3(n % 1000))
    ensures |"," + Pad3(n % 1000)| == 4 && HasGroup("," + Pad3(n % 1000), 0)
  {
  }

  /** Appending one more ",ddd" group extends the layout by four characters. */
  lemma StepCore(s: string, pre: string, h: string, t: string, post: string, l: nat)
    requires s == pre + h + (t + post) && |t| == 4 && HasGroup(t, 0)
    requires Layout(s, |pre|, l, |pre| + |h|)
    ensures Layout(s, |pre|, l, |pre| + |h| + 4)
    ensures s[|pre| + l] == ','
  {
    InfixAt(pre + h, t, post);
    assert HasGroup(s, |pre| + |h|);
    LayoutExtend(s, |pre|, l, |pre| + |h|);
  }

  lemma LayoutExtend(s: string, a: nat, l: nat, m: nat)
    requires Layout(s, a, l, m) && HasGroup(s, m)
    ensures Layout(s, a, l, m + 4)
    ensures s[a + l] == ','
  {
    AllGroupsExtend(s, a + l, m);
  }

  lemma InfixAt(a: string, b: string, c: string)
    ensures (a + b + c)[|a|..|a| + |b|] == b
  {
  }

  /** No character of `t` is a digit. */
  predicate NoDigits(t: string) {
    forall k :: 0 <= k < |t| ==> !IsDigit(t[k])
  }

  /** No character of `s[lo..hi]` is a digit. */
  predicate NoDigitRange(s: string, lo: nat, hi: nat) {
    forall k :: lo <= k < hi && k < |s| ==> !IsDigit(s[k])
  }

  /** No match starts where neither the first character nor, after a "$",
      the second is a digit. */
  lemma NoMatchAt(s: string, k: nat)
    requires k <= |s|
    requires DigitsStart(s, k) < |s| ==> !IsDigit(s[DigitsStart(s, k)])
    ensures MatchAt(s, k).None?
  {
    var q := DigitsStart(s, k);
    SkipDigitsAt(s, q, q);
  }

  /** The scan of a text holding one grouped number at `b..e`, with no
      digit before or after it, finds just that number, with the "$" in
      front of it when there is one. */
  lemma ScanCore(s: string, a: nat, b: nat, l: nat, e: nat)
    requires Layout(s, b, l, e) && b + l < e && s[b + l] == ','
    requires NoDigitRange(s, 0, b) && NoDigitRange(s, e, |s|)
    requires a == (if b > 0 && s[b - 1] == '$' then b - 1 else b)
    ensures FindAll(s, 0) == [s[a..e]]
  {
    ScanBefore(s, a, b);
    MatchWhole(s, a, b, l, e);
    ScanAfter(s, e);
    assert FindAll(s, a) == [s[a..e]] + FindAll(s, e);
  }

  lemma ScanBefore(s: string, a: nat, b: nat)
    requires b <= |s| && NoDigitRange(s, 0, b)
    requires a == (if b > 0 && s[b - 1] == '$' then b - 1 else b)
    ensures FindAll(s, 0) == FindAll(s, a)
  {
    forall k | 0 <= k < a
      ensures MatchAt(s, k).None?
    {
      NoMatchAt(s, k);
    }
    FindAllSkip(s, 0, a);
  }

  lemma MatchWhole(s: string, a: nat, b: nat, l: nat, e: nat)
    requires Layout(s, b, l, e) && b + l < e && s[b + l] == ','
    requires NoDigitRange(s, e, |s|)
    requires a == (if b > 0 && s[b - 1] == '$' then b - 1 else b)
    ensures MatchAt(s, a) == Some(e)
  {
    assert DigitsStart(s, a) == b;
    SkipDigitsAt(s, b, b + l);
    assert HasGroup(s, b + l);
    assert !HasGroup(s, e) by {
      if e + 4 <= |s| {
        assert !IsDigit(s[e + 1]);
      }
    }
    SkipGroupsAll(s, b + l + 4, e);
  }

  lemma ScanAfter(s: string, e: nat)
    requires e <= |s| && NoDigitRange(s, e, |s|)
    ensures FindAll(s, e) == []
  {
    forall k | e <= k < |s|
      ensures MatchAt(s, k).None?
    {
      NoMatchAt(s, k);
    }
    FindAllSkip(s, e, |s|);
  }

  /** Digit-free text around `f"{n:,}"` (which may end in "$") does not
      disturb its scan: the only match is the formatted number. */
  lemma ScanGrouped(pre: string, n: nat, post: string)
    requires n >= 1000 && NoDigits(pre) && NoDigits(post)
    ensures var s := pre + GroupThousands(n) + post;
      var a := if |pre| > 0 && pre[|pre| - 1] == '$' then |pre| - 1 else |pre|;
      FindAll(s, 0) == [s[a..|pre| + |GroupThousands(n)|]]
  {
    var s := pre + GroupThousands(n) + post;
    var b := |pre|;
    var e := b + |GroupThousands(n)|;
    GroupedLayout(s, pre, n, post);
    NoDigitsAround(pre, GroupThousands(n), post);
    assert b + LeadLen(n) < e;
    ScanCore(s, if b > 0 && s[b - 1] == '$' then b - 1 else b, b, LeadLen(n), e);
  }

  lemma NoDigitsAround(pre: string, g: string, post: string)
    requires NoDigits(pre) && NoDigits(post)
    ensures NoDigitRange(pre + g + post, 0, |pre|)
    ensures NoDigitRange(pre + g + post, |pre| + |g|, |pre + g + post|)
  {
    var s := pre + g + post;
    forall k | 0 <= k < |pre|
      ensures !IsDigit(s[k])
    {
      assert s[k] == pre[k];
    }
    forall k | |pre| + |g| <= k < |s|
      ensures !IsDigit(s[k])
    {
      assert s[k] == post[k - |pre| - |g|];
    }
  }

  lemma {:induction false} NoDollarGrouped(n: nat)
    ensures '$' !in GroupThousands(n)
  {
    var g := GroupThousands(n);
    if n < 1000 {
      assert AllDigits(g);
    } else {
      NoDollarGrouped(n / 1000);
      var p := Pad3(n % 1000);
      assert g == GroupThousands(n / 1000) + "," + p;
      assert AllDigits(p);
    }
  }

  /** Removing "$" and "," from `f"{n:,}"`, with or without a "$" in
      front, leaves `str(n)`. */
  lemma CleanGrouped(n: nat, m: string)
    requires m == GroupThousands(n) || m == "$" + GroupThousands(n)
    ensures Clean(m) == NatToString(n)
  {
    var g := GroupThousands(n);
    NoDollarGrouped(n);
    if m != g {
      RemoveCharConcat("$", g, '$');
      assert RemoveChar("$", '$') == "";
    }
    assert RemoveChar(m, '$') == g;
    GroupThousandsDigits(n);
  }

  lemma ValuesSingle(m: string)
    requires AllDigits(Clean(m))
    ensures Values([m]) == [DigitsValue(Clean(m))]
  {
    assert [m][1..] == [];
  }

  /** Round trip: scanning digit-free text around `f"{n:,}"`, with or
      without a "$" before it, gives back exactly `[n]` for `n >= 1000`. */
  lemma MoneyRoundTrip(pre: string, n: nat, post: string)
    requires n >= 1000 && NoDigits(pre) && NoDigits(post)
    ensures ExtractAllMoneyNumbers(pre + GroupThousands(n) + post) == [n]
  {
    var s := pre + GroupThousands(n) + post;
    var g := GroupThousands(n);
    var a := if |pre| > 0 && pre[|pre| - 1] == '$' then |pre| - 1 else |pre|;
    ScanGrouped(pre, n, post);
    var m := s[a..|pre| + |g|];
    DollarSlice(pre, g, post, a);
    CleanGrouped(n, m);
    NatToStringValue(n);
    SingleMatch(s, m);
  }

  /** The match found in `pre + g + post` is `g`, with the "$" that ends
      `pre` when there is one. */
  lemma DollarSlice(pre: string, g: string, post: string, a: nat)
    requires a == if |pre| > 0 && pre[|pre| - 1] == '$' then |pre| - 1 else |pre|
    ensures var s := pre + g + post;
      s[a..|pre| + |g|] == g || s[a..|pre| + |g|] == "$" + g
  {
    var s := pre + g + post;
    InfixAt(pre, g, post);
    if a < |pre| {
      assert s[a] == pre[a];
      assert s[a..|pre| + |g|] == [s[a]] + s[|pre|..|pre| + |g|];
    }
  }

  /** A text whose only match is `m` yields the one number `int(clean(m))`. */
  lemma SingleMatch(s: string, m: string)
    requires FindAll(s, 0) == [m] && AllDigits(Clean(m))
    ensures ExtractAllMoneyNumbers(s) == [DigitsValue(Clean(m))]
  {
    FindAllChars(s, 0);
    ValuesSingle(m);
  }

  // ---------------------------------------------------------------------
  // The sentence finder
  // ---------------------------------------------------------------------

  /** The characters the look-behind `(?<=[.!?])` accepts. */
  predicate IsTerminal(c: char) {
    c == '.' || c == '!' || c == '?'
  }

  /** A match of `(?<=[.!?])\s+` can start at `i`: whitespace right after a
      sentence-ending mark. */
  predicate SentenceBreak(s: string, i: int) {
    0 < i < |s| && IsTerminal(s[i - 1]) && IsSpace(s[i])
  }

  /** No match can start in `[lo, hi)`. */
  predicate NoBreakBetween(s: string, lo: nat, hi: nat) {
    forall j: nat :: lo <= j < hi ==> !SentenceBreak(s, j)
  }

  /** The leftmost position at or after `from` where a match starts. */
  function NextBreak(s: string, from: nat): (r: Option<nat>)
    requires from <= |s|
    decreases |s| - from
    ensures r.Some? ==> from <= r.value < |s| && SentenceBreak(s, r.value) && NoBreakBetween(s, from, r.value)
    ensures r.None? ==> NoBreakBetween(s, from, |s|)
  {
    if from == |s| then None
    else if SentenceBreak(s, from) then Some(from)
    else NextBreak(s, from + 1)
  }

  /** `re.split(r'(?<=[.!?])\s+', s[from..])`: each match is the whole
      whitespace run after the mark, and the search resumes after it. */
  function Sentences(s: string, from: nat): (r: seq<string>)
    requires from <= |s|
    decreases |s| - from
    ensures |r| >= 1
  {
    match NextBreak(s, from)
    case None => [s[from..]]
    case Some(i) => [s[from..i]] + Sentences(s, SkipSpaces(s, i))
  }

  /** `all(k.lower() in s.lower() for k in keywords)`. */
  predicate HasAll(sentence: string, keywords: seq<string>) {
    forall k :: 0 <= k < |keywords| ==> Contains(Lower(sentence), Lower(keywords[k]))
  }

  /** No sentence holds every keyword. */
  predicate NoneHolds(ss: seq<string>, keywords: seq<string>) {
    forall i :: 0 <= i < |ss| ==> !HasAll(ss[i], keywords)
  }

  /** `ss[i]` is the first sentence that holds every keyword. */
  predicate FirstHolding(ss: seq<string>, keywords: seq<string>, i: int) {
    0 <= i < |ss| && HasAll(ss[i], keywords) && forall j :: 0 <= j < i ==> !HasAll(ss[j], keywords)
  }

  /** The index of the first sentence from `k` on that holds every keyword. */
  function FirstWith(ss: seq<string>, keywords: seq<string>, k: nat): (r: Option<nat>)
    requires k <= |ss|
    decreases |ss| - k
    ensures r.Some? ==> k <= r.value < |ss| && HasAll(ss[r.value], keywords)
    ensures r.Some? ==> forall j :: k <= j < r.value ==> !HasAll(ss[j], keywords)
    ensures r.None? <==> forall j :: k <= j < |ss| ==> !HasAll(ss[j], keywords)
  {
    if k == |ss| then None
    else if HasAll(ss[k], keywords) then Some(k)
    else FirstWith(ss, keywords, k + 1)
  }

  /** Python's `extract_sentence_containing(text, keywords)`. */
  function ExtractSentenceContaining(text: string, keywords: seq<string>): (r: Option<string>)
    ensures r.Some? ==> IsStripped(r.value)
  {
    var ss := Sentences(text, 0);
    match FirstWith(ss, keywords, 0)
    case None => None
    case Some(i) => Some(Strip(ss[i]))
  }

  /** `t` is the text `s[a..b]` for some `a <= b` with no match starting
      strictly inside it. */
  predicate Piece(s: string, t: string) {
    exists a: nat, b: nat :: a <= b <= |s| && t == s[a..b] && NoBreakBetween(s, a + 1, b)
  }

  /** Every sentence is a stretch of the text with no match inside it. */
  lemma {:induction false} SentencesArePieces(s: string, from: nat)
    requires from <= |s|
    decreases |s| - from
    ensures forall k :: 0 <= k < |Sentences(s, from)| ==> Piece(s, Sentences(s, from)[k])
  {
    var ss := Sentences(s, from);
    match NextBreak(s, from)
    case None =>
      assert ss[0] == s[from..|s|];
    case Some(i) =>
      var rest := Sentences(s, SkipSpaces(s, i));
      SentencesArePieces(s, SkipSpaces(s, i));
      assert ss == [s[from..i]] + rest;
      assert Piece(s, ss[0]);
      forall k | 1 <= k < |ss|
        ensures Piece(s, ss[k])
      {
        assert ss[k] == rest[k - 1];
        assert Piece(s, rest[k - 1]);
      }
  }

  /** The whitespace runs `re.split` removes from `s[from..]`: the whole
      run after each break, in order. */
  function Gaps(s: string, from: nat): (r: seq<string>)
    requires from <= |s|
    decreases |s| - from
    ensures |r| + 1 == |Sentences(s, from)|
    ensures forall k :: 0 <= k < |r| ==> |r[k]| > 0 && AllSpace(r[k])
  {
    match NextBreak(s, from)
    case None => []
    case Some(i) =>
      var j := SkipSpaces(s, i);
      var g := s[i..j];
      assert AllSpace(g) by {
        forall k | 0 <= k < |g|
          ensures IsSpace(g[k])
        {
          assert g[k] == s[i + k];
        }
      }
      [g] + Gaps(s, j)
  }

  /** The pieces with the removed runs put back between them:
      `ps[0] + gs[0] + ps[1] + gs[1] + ... + ps[|gs|]`. */
  function Interleave(ps: seq<string>, gs: seq<string>): string
    requires |ps| == |gs| + 1
    decreases |gs|
  {
    if |gs| == 0 then ps[0] else ps[0] + gs[0] + Interleave(ps[1..], gs[1..])
  }

  /** Nothing is lost: the sentences with the removed whitespace runs put
      back between them give back the text. */
  lemma {:induction false} SentencesJoin(s: string, from: nat)
    requires from <= |s|
    decreases |s| - from
    ensures Interleave(Sentences(s, from), Gaps(s, from)) == s[from..]
  {
    match NextBreak(s, from)
    case None =>
    case Some(i) =>
      var j := SkipSpaces(s, i);
      SentencesJoin(s, j);
      var ss := Sentences(s, from);
      var gs := Gaps(s, from);
      assert ss == [s[from..i]] + Sentences(s, j);
      assert gs == [s[i..j]] + Gaps(s, j);
      assert ss[1..] == Sentences(s, j) && gs[1..] == Gaps(s, j);
      SliceThree(s, from, i, j);
  }

  /** A suffix of a text is its three consecutive slices. */
  lemma SliceThree(s: string, a: nat, b: nat, c: nat)
    requires a <= b <= c <= |s|
    ensures s[a..] == s[a..b] + s[b..c] + s[c..]
  {
  }

  /** A sentence that a removed run follows ends on '.', '!' or '?'. */
  predicate EndsTerminal(t: string) {
    |t| > 0 && IsTerminal(t[|t| - 1])
  }

  /** A sentence that a removed run precedes does not start with
      whitespace: the run was taken whole. */
  predicate StartsUnspaced(t: string) {
    |t| == 0 || !IsSpace(t[0])
  }

  /** The first piece from a position that holds no whitespace starts
      there. */
  lemma FirstSentenceStart(s: string, from: nat)
    requires from <= |s| && (from == |s| || !IsSpace(s[from]))
    ensures StartsUnspaced(Sentences(s, from)[0])
  {
    match NextBreak(s, from)
    case None =>
      if from < |s| {
        assert s[from..][0] == s[from];
      }
    case Some(i) =>
      assert s[from..i][0] == s[from];
  }

  /** The cuts fall exactly at the matches: every sentence before a
      removed run ends on a sentence mark, and every sentence after one
      starts past the whole run. Starting at 0, or anywhere no match
      starts, the first sentence is never cut short before its mark. */
  lemma {:induction false} SentencesBreaks(s: string, from: nat)
    requires from <= |s| && !SentenceBreak(s, from)
    decreases |s| - from
    ensures forall k :: 0 <= k < |Gaps(s, from)| ==> EndsTerminal(Sentences(s, from)[k])
    ensures forall k :: 1 <= k < |Sentences(s, from)| ==> StartsUnspaced(Sentences(s, from)[k])
  {
    match NextBreak(s, from)
    case None =>
    case Some(i) =>
      var j := SkipSpaces(s, i);
      assert !SentenceBreak(s, j);
      SentencesBreaks(s, j);
      FirstSentenceStart(s, j);
      var ss := Sentences(s, from);
      var rest := Sentences(s, j);
      assert ss == [s[from..i]] + rest;
      assert |Gaps(s, from)| == |Gaps(s, j)| + 1;
      assert EndsTerminal(ss[0]) by {
        assert s[from..i][i - 1 - from] == s[i - 1];
      }
      forall k | 1 <= k < |ss|
        ensures StartsUnspaced(ss[k])
      {
        assert ss[k] == rest[k - 1];
      }
      forall k | 1 <= k < |Gaps(s, from)|
        ensures EndsTerminal(ss[k])
      {
        assert ss[k] == rest[k - 1];
      }
  }

  /** A stretch with no match inside has no match of its own: no
      whitespace follows a '.', '!' or '?' within it. */
  lemma PieceNoBreak(s: string, t: string)
    requires Piece(s, t)
    ensures NoBreakBetween(t, 0, |t|)
    ensures Contains(s, t)
  {
    var a: nat, b: nat :| a <= b <= |s| && t == s[a..b] && NoBreakBetween(s, a + 1, b);
    forall j: nat | j < |t|
      ensures !SentenceBreak(t, j)
    {
      if 0 < j {
        assert t[j - 1] == s[a + j - 1] && t[j] == s[a + j];
        assert !SentenceBreak(s, a + j);
      }
    }
    assert OccursAt(s, t, a);
  }

  /** Stripping a stretch keeps it free of matches. */
  lemma StripNoBreak(t: string)
    requires NoBreakBetween(t, 0, |t|)
    ensures NoBreakBetween(Strip(t), 0, |Strip(t)|)
  {
    var r := Strip(t);
    var lo := SkipSpaces(t, 0);
    forall j: nat | j < |r|
      ensures !SentenceBreak(r, j)
    {
      if 0 < j {
        assert r[j - 1] == t[lo + j - 1] && r[j] == t[lo + j];
        assert !SentenceBreak(t, lo + j);
      }
    }
  }

  /** Lower-casing never makes or unmakes whitespace. */
  lemma LowerSpace(c: char)
    ensures IsSpace(LowerChar(c)) <==> IsSpace(c)
  {
  }

  /** A keyword with no surrounding whitespace that occurs in a sentence,
      case-insensitively, still occurs in the stripped sentence. */
  lemma StripKeeps(t: string, w: string)
    requires IsStripped(w) && Contains(Lower(t), Lower(w))
    ensures Contains(Lower(Strip(t)), Lower(w))
  {
    var r := Strip(t);
    var lo := SkipSpaces(t, 0);
    var hi := lo + |r|;
    assert r == t[lo..hi] && SpaceRange(t, 0, lo) && SpaceRange(t, hi, |t|);
    LowerSlice(t, lo, hi);
    LowerKeepsSpace(t, 0, lo);
    LowerKeepsSpace(t, hi, |t|);
    LowerKeepsStripped(w);
    KeepsInside(Lower(t), Lower(w), lo, hi);
  }

  lemma LowerKeepsSpace(t: string, lo: nat, hi: nat)
    requires lo <= hi <= |t| && SpaceRange(t, lo, hi)
    ensures SpaceRange(Lower(t), lo, hi)
  {
    forall k | lo <= k < hi
      ensures IsSpace(Lower(t)[k])
    {
      LowerSpace(t[k]);
    }
  }

  lemma LowerKeepsStripped(w: string)
    requires IsStripped(w)
    ensures IsStripped(Lower(w))
  {
    if |w| > 0 {
      LowerSpace(w[0]);
      LowerSpace(w[|w| - 1]);
    }
  }

  /** An occurrence of a stripped word lies inside the text's stripped part. */
  lemma KeepsInside(x: string, y: string, lo: nat, hi: nat)
    requires lo <= hi <= |x| && SpaceRange(x, 0, lo) && SpaceRange(x, hi, |x|)
    requires IsStripped(y) && Contains(x, y)
    ensures Contains(x[lo..hi], y)
  {
    if |y| == 0 {
      assert OccursAt(x[lo..hi], y, 0);
    } else {
      var j: nat :| j <= |x| && OccursAt(x, y, j);
      assert x[j] == y[0] && x[j + |y| - 1] == y[|y| - 1];
      InsideRange(x, lo, hi, j, j + |y| - 1);
      OccursInSlice(x, lo, hi, y, j - lo);
    }
  }

  /** Non-space characters lie between the leading and the trailing whitespace. */
  lemma InsideRange(t: string, lo: nat, hi: nat, a: nat, b: nat)
    requires lo <= hi <= |t| && SpaceRange(t, 0, lo) && SpaceRange(t, hi, |t|)
    requires a <= b < |t| && !IsSpace(t[a]) && !IsSpace(t[b])
    ensures lo <= a && b < hi
  {
  }

  /** A found sentence is a stripped stretch of the text in which no '.',
      '!' or '?' is followed by whitespace. */
  lemma ExtractSentenceSound(text: string, keywords: seq<string>)
    ensures var r := ExtractSentenceContaining(text, keywords);
      r.Some? ==> IsStripped(r.value) && Contains(text, r.value) && NoBreakBetween(r.value, 0, |r.value|)
  {
    var ss := Sentences(text, 0);
    match FirstWith(ss, keywords, 0)
    case None =>
    case Some(i) =>
      SentencesArePieces(text, 0);
      PieceNoBreak(text, ss[i]);
      StripNoBreak(ss[i]);
      StripInfix(ss[i]);
      ContainsTrans(text, ss[i], Strip(ss[i]));
  }

  /** The finder returns the first sentence, in split order, that holds
      every keyword, stripped; it returns None exactly when no sentence
      holds them all. */
  lemma ExtractSentenceFirst(text: string, keywords: seq<string>)
    ensures ExtractSentenceContaining(text, keywords).None? <==> NoneHolds(Sentences(text, 0), keywords)
    ensures var ss := Sentences(text, 0);
      var r := ExtractSentenceContaining(text, keywords);
      r.Some? ==> exists i :: FirstHolding(ss, keywords, i) && r.value == Strip(ss[i])
  {
    var ss := Sentences(text, 0);
    match FirstWith(ss, keywords, 0)
    case None =>
    case Some(i) =>
      assert FirstHolding(ss, keywords, i);
  }

  /** With no keywords the first sentence qualifies. */
  lemma ExtractSentenceNoKeywords(text: string)
    ensures ExtractSentenceContaining(text, []) == Some(Strip(Sentences(text, 0)[0]))
  {
    assert HasAll(Sentences(text, 0)[0], []);
  }

  /** Every keyword without surrounding whitespace, such as each keyword
      the extractors pass, occurs case-insensitively in a found sentence. */
  lemma ExtractSentenceKeywords(text: string, keywords: seq<string>)
    requires forall k :: 0 <= k < |keywords| ==> IsStripped(keywords[k])
    ensures var r := ExtractSentenceContaining(text, keywords);
      r.Some? ==> HasAll(r.value, keywords)
  {
    var ss := Sentences(text, 0);
    match FirstWith(ss, keywords, 0)
    case None =>
    case Some(i) =>
      forall k | 0 <= k < |keywords|
        ensures Contains(Lower(Strip(ss[i])), Lower(keywords[k]))
      {
        StripKeeps(ss[i], keywords[k]);
      }
  }
}
