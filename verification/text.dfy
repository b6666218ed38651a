/** The optional value Python expresses with `None`. */
module Options {

  datatype Option<+T> = None | Some(value: T)
}

/**
 String primitives shared by the whole model: ASCII whitespace and case,
 substring search (Python's `in`), `str.strip()`, `str.split(sep)` and
 `sep.join(...)`. Characters outside ASCII are treated as non-space,
 non-letter and non-digit.
 */
module Text {
  import opened Options

  /** The ASCII characters that Python's `str.isspace` and the regex class `\s` accept. */
  predicate IsSpace(c: char) {
    c == ' ' || (9 <= c as int <= 13) || (28 <= c as int <= 31)
  }

  predicate IsDigit(c: char) {
    '0' <= c <= '9'
  }

  predicate IsUpper(c: char) {
    'A' <= c <= 'Z'
  }

  predicate IsLowerCase(c: char) {
    'a' <= c <= 'z'
  }

  predicate IsLetter(c: char) {
    IsUpper(c) || IsLowerCase(c)
  }

  function LowerChar(c: char): (r: char)
    ensures !IsUpper(r)
    ensures IsLetter(r) <==> IsLetter(c)
    ensures !IsLetter(c) ==> r == c
  {
    if IsUpper(c) then (c as int + 32) as char else c
  }

  function UpperChar(c: char): (r: char)
    ensures !IsLowerCase(r)
    ensures IsLetter(r) <==> IsLetter(c)
    ensures !IsLetter(c) ==> r == c
    ensures LowerChar(r) == LowerChar(c)
  {
    if IsLowerCase(c) then (c as int - 32) as char else c
  }

  /** Python's `str.lower()` restricted to ASCII letters. */
  function Lower(s: string): (r: string)
    ensures |r| == |s|
    ensures forall i :: 0 <= i < |s| ==> r[i] == LowerChar(s[i])
  {
    seq(|s|, i requires 0 <= i < |s| => LowerChar(s[i]))
  }

  lemma LowerSlice(s: string, i: nat, j: nat)
    requires i <= j <= |s|
    ensures Lower(s[i..j]) == Lower(s)[i..j]
  {
  }

  lemma LowerConcat(a: string, b: string)
    ensures Lower(a + b) == Lower(a) + Lower(b)
  {
  }

  // ---------------------------------------------------------------------
  // Substring search
  // ---------------------------------------------------------------------

  /** `sub` occurs in `s` starting at index `i`. */
  predicate OccursAt(s: string, sub: string, i: nat) {
    i + |sub| <= |s| && s[i..i + |sub|] == sub
  }

  /** Python's `sub in s`. */
  predicate Contains(s: string, sub: string) {
    exists i: nat | i <= |s| :: OccursAt(s, sub, i)
  }

  predicate StartsWith(s: string, prefix: string) {
    |prefix| <= |s| && s[..|prefix|] == prefix
  }

  predicate EndsWith(s: string, suffix: string) {
    |suffix| <= |s| && s[|s| - |suffix|..] == suffix
  }

  /** An occurrence inside a slice is an occurrence in the whole string, shifted. */
  lemma OccursInSlice(s: string, a: nat, b: nat, sub: string, j: nat)
    requires a <= b <= |s|
    ensures OccursAt(s[a..b], sub, j) <==> j + |sub| <= b - a && OccursAt(s, sub, a + j)
  {
    if j + |sub| <= b - a {
      var x, y := s[a..b][j..j + |sub|], s[a + j..a + j + |sub|];
      assert |x| == |y|;
      assert forall k :: 0 <= k < |x| ==> x[k] == y[k];
    }
  }

  /** `sub in s[a..b]` implies `sub in s`. */
  lemma ContainsSlice(s: string, a: nat, b: nat, sub: string)
    requires a <= b <= |s|
    requires Contains(s[a..b], sub)
    ensures Contains(s, sub)
  {
    var j: nat :| j <= b - a && OccursAt(s[a..b], sub, j);
    OccursInSlice(s, a, b, sub, j);
  }

  /** Being a substring is transitive. */
  lemma ContainsTrans(s: string, t: string, x: string)
    requires Contains(s, t) && Contains(t, x)
    ensures Contains(s, x)
  {
    var i: nat :| i <= |s| && OccursAt(s, t, i);
    assert t == s[i..i + |t|];
    ContainsSlice(s, i, i + |t|, x);
  }

  lemma ContainsSelf(s: string)
    ensures Contains(s, s)
  {
    assert OccursAt(s, s, 0);
  }

  /** A string is a substring of itself surrounded by anything. */
  lemma ContainsMiddle(a: string, b: string, c: string)
    ensures Contains(a + b + c, b)
  {
    assert (a + b + c)[|a|..|a| + |b|] == b;
    assert OccursAt(a + b + c, b, |a|);
  }

  /** `sub` first occurs in `s` at `i`. */
  predicate FirstAt(s: string, sub: string, i: nat) {
    OccursAt(s, sub, i) && NoneBetween(s, sub, 0, i)
  }

  /** No occurrence of `sub` starts in `[lo, hi)`. */
  predicate NoneBetween(s: string, sub: string, lo: nat, hi: nat) {
    forall j: nat :: lo <= j < hi ==> !OccursAt(s, sub, j)
  }

  /** First index at or after `from` where `sub` occurs. */
  function IndexFrom(s: string, sub: string, from: nat): (r: Option<nat>)
    requires from <= |s|
    decreases |s| - from
    ensures r.Some? ==> from <= r.value && OccursAt(s, sub, r.value)
  {
    if OccursAt(s, sub, from) then Some(from)
    else if from == |s| then None
    else IndexFrom(s, sub, from + 1)
  }

  /** IndexFrom finds the first occurrence, and finds one whenever there is one. */
  lemma {:induction false} IndexFromFirst(s: string, sub: string, from: nat)
    requires from <= |s|
    decreases |s| - from
    ensures IndexFrom(s, sub, from).Some? ==> NoneBetween(s, sub, from, IndexFrom(s, sub, from).value)
    ensures IndexFrom(s, sub, from).None? ==> NoneBetween(s, sub, from, |s| + 1)
  {
    if !OccursAt(s, sub, from) && from < |s| {
      IndexFromFirst(s, sub, from + 1);
    }
  }

  /** Index of the first occurrence (Python's `s.find(sub)`, with None for -1). */
  function IndexOf(s: string, sub: string): (r: Option<nat>)
    ensures r.Some? ==> OccursAt(s, sub, r.value)
  {
    IndexFrom(s, sub, 0)
  }

  /** IndexOf is the leftmost occurrence, and is None exactly when `sub` is absent. */
  lemma IndexOfFirst(s: string, sub: string)
    ensures IndexOf(s, sub).Some? ==> NoneBetween(s, sub, 0, IndexOf(s, sub).value)
    ensures IndexOf(s, sub).None? <==> !Contains(s, sub)
  {
    IndexFromFirst(s, sub, 0);
  }

  /** A prefix that ends before the first occurrence of `sub` does not contain it. */
  lemma NoneBeforeFirst(s: string, sub: string, i: nat)
    requires i <= |s|
    requires NoneBetween(s, sub, 0, i)
    requires |sub| > 0
    ensures !Contains(s[..i], sub)
  {
    if Contains(s[..i], sub) {
      var j: nat :| j <= i && OccursAt(s[..i], sub, j);
      OccursInSlice(s, 0, i, sub, j);
    }
  }

  // ---------------------------------------------------------------------
  // Python str.strip()
  // ---------------------------------------------------------------------

  /** Every character of `s[lo..hi]` is whitespace. */
  predicate SpaceRange(s: string, lo: nat, hi: nat) {
    forall k :: lo <= k < hi && k < |s| ==> IsSpace(s[k])
  }

  predicate AllSpace(s: string) {
    SpaceRange(s, 0, |s|)
  }

  /** No leading and no trailing whitespace. */
  predicate IsStripped(s: string) {
    |s| == 0 || (!IsSpace(s[0]) && !IsSpace(s[|s| - 1]))
  }

  /** `r` is `s` with only whitespace removed before index `i` and after `i + |r|`. */
  predicate TrimmedAt(s: string, r: string, i: nat) {
    i + |r| <= |s| && s[i..i + |r|] == r && SpaceRange(s, 0, i) && SpaceRange(s, i + |r|, |s|)
  }

  /** Index of the first non-whitespace character at or after `i` (|s| if none). */
  function SkipSpaces(s: string, i: nat): (r: nat)
    requires i <= |s|
    decreases |s| - i
    ensures i <= r <= |s| && SpaceRange(s, i, r)
    ensures r < |s| ==> !IsSpace(s[r])
  {
    if i < |s| && IsSpace(s[i]) then SkipSpaces(s, i + 1) else i
  }

  /** The end of `s[lo..hi]` once its trailing whitespace is dropped. */
  function TrimEnd(s: string, lo: nat, hi: nat): (r: nat)
    requires lo <= hi <= |s|
    decreases hi
    ensures lo <= r <= hi && SpaceRange(s, r, hi)
    ensures r > lo ==> !IsSpace(s[r - 1])
  {
    if hi > lo && IsSpace(s[hi - 1]) then TrimEnd(s, lo, hi - 1) else hi
  }

  /** Python's `s.strip()`: the infix of `s` left once the leading and trailing
      whitespace is dropped. */
  function Strip(s: string): (r: string)
    ensures IsStripped(r)
    ensures TrimmedAt(s, r, SkipSpaces(s, 0))
  {
    var lo := SkipSpaces(s, 0);
    s[lo..TrimEnd(s, lo, |s|)]
  }

  /** SkipSpaces stops at the first non-whitespace character. */
  lemma {:induction false} SkipSpacesAt(s: string, i: nat, j: nat)
    requires i <= j <= |s| && SpaceRange(s, i, j)
    requires j < |s| ==> !IsSpace(s[j])
    decreases j - i
    ensures SkipSpaces(s, i) == j
  {
    if i < j {
      SkipSpacesAt(s, i + 1, j);
    }
  }

  /** TrimEnd stops after the last non-whitespace character. */
  lemma {:induction false} TrimEndAt(s: string, lo: nat, j: nat, hi: nat)
    requires lo <= j <= hi <= |s| && SpaceRange(s, j, hi)
    requires j > lo ==> !IsSpace(s[j - 1])
    decreases hi - j
    ensures TrimEnd(s, lo, hi) == j
  {
    if j < hi {
      TrimEndAt(s, lo, j, hi - 1);
    }
  }

  /** Strip is the only way to trim `s` to a stripped infix: any stripped `r`
      obtained by dropping only whitespace around it is Strip(s). */
  lemma StripUnique(s: string, r: string, i: nat)
    requires IsStripped(r) && TrimmedAt(s, r, i)
    ensures Strip(s) == r
  {
    if |r| > 0 {
      assert s[i] == r[0];
      SkipSpacesAt(s, 0, i);
      assert s[i + |r| - 1] == r[|r| - 1];
      TrimEndAt(s, i, i + |r|, |s|);
    } else {
      SkipSpacesAt(s, 0, |s|);
      TrimEndAt(s, |s|, |s|, |s|);
    }
  }

  /** The stripped text is a substring of the original. */
  lemma StripInfix(s: string)
    ensures Contains(s, Strip(s))
  {
    assert OccursAt(s, Strip(s), SkipSpaces(s, 0));
  }

  /** A string that is already stripped is a fixed point of Strip. */
  lemma StripStripped(s: string)
    requires IsStripped(s)
    ensures Strip(s) == s
  {
    StripUnique(s, s, 0);
  }

  /** Strip is idempotent. */
  lemma StripIdempotent(s: string)
    ensures Strip(Strip(s)) == Strip(s)
  {
    StripStripped(Strip(s));
  }

  /** Whitespace added around a text does not change the stripped text. */
  lemma StripPadded(w: string, s: string, v: string)
    requires AllSpace(w) && AllSpace(v)
    ensures Strip(w + s + v) == Strip(s)
  {
    var r := Strip(s);
    var i := SkipSpaces(s, 0);
    var t := w + s + v;
    assert t[|w| + i..|w| + i + |r|] == s[i..i + |r|];
    assert SpaceRange(t, 0, |w| + i) by {
      forall k | 0 <= k < |w| + i
        ensures IsSpace(t[k])
      {
        if k >= |w| {
          assert t[k] == s[k - |w|];
        }
      }
    }
    assert SpaceRange(t, |w| + i + |r|, |t|) by {
      forall k | |w| + i + |r| <= k < |t|
        ensures IsSpace(t[k])
      {
        if k < |w| + |s| {
          assert t[k] == s[k - |w|];
        } else {
          assert t[k] == v[k - |w| - |s|];
        }
      }
    }
    StripUnique(t, r, |w| + i);
  }

  // ---------------------------------------------------------------------
  // Python str.split(sep) and sep.join(xs)
  // ---------------------------------------------------------------------

  /** Python's `sep.join(xs)`. */
  function Join(xs: seq<string>, sep: string): string
  {
    if |xs| == 0 then ""
    else if |xs| == 1 then xs[0]
    else xs[0] + sep + Join(xs[1..], sep)
  }

  /** Every joined piece occurs in the joined text. */
  lemma {:induction false} JoinHolds(xs: seq<string>, sep: string)
    ensures forall k :: 0 <= k < |xs| ==> Contains(Join(xs, sep), xs[k])
  {
    if |xs| == 1 {
      ContainsSelf(xs[0]);
    } else if |xs| > 1 {
      var j := Join(xs, sep);
      var rest := Join(xs[1..], sep);
      JoinHolds(xs[1..], sep);
      assert OccursAt(j, xs[0], 0);
      assert OccursAt(j, rest, |xs[0]| + |sep|);
      forall k | 1 <= k < |xs|
        ensures Contains(j, xs[k])
      {
        assert xs[k] == xs[1..][k - 1];
        ContainsTrans(j, rest, xs[k]);
      }
    }
  }

  /** Python's `s.split(sep)` for a non-empty separator (Python raises
      ValueError on an empty one): cut at the leftmost occurrence and continue
      after it, so occurrences never overlap. */
  function Split(s: string, sep: string): (r: seq<string>)
    requires |sep| > 0
    decreases |s|
    ensures |r| >= 1
  {
    match IndexOf(s, sep)
    case None => [s]
    case Some(i) => [s[..i]] + Split(s[i + |sep|..], sep)
  }

  /** Joining the pieces of a split with the separator gives back the text. */
  lemma {:induction false} SplitJoin(s: string, sep: string)
    requires |sep| > 0
    decreases |s|
    ensures Join(Split(s, sep), sep) == s
  {
    match IndexOf(s, sep)
    case None =>
    case Some(i) =>
      var rest := s[i + |sep|..];
      SplitJoin(rest, sep);
      SplitStep(s, sep, i);
      JoinCons(s[..i], Split(rest, sep), sep);
      Around(s, i, sep);
  }

  lemma JoinCons(a: string, xs: seq<string>, sep: string)
    requires |xs| > 0
    ensures Join([a] + xs, sep) == a + sep + Join(xs, sep)
  {
    assert ([a] + xs)[1..] == xs;
  }

  /** A string is the text before an occurrence, the occurrence, and the text after. */
  lemma Around(s: string, i: nat, sep: string)
    requires OccursAt(s, sep, i)
    ensures s == s[..i] + sep + s[i + |sep|..]
  {
    assert s[..i] + s[i..i + |sep|] + s[i + |sep|..] == s;
  }

  /** No piece of a split contains the separator. */
  lemma {:induction false} SplitPiecesFree(s: string, sep: string)
    requires |sep| > 0
    decreases |s|
    ensures PiecesFree(Split(s, sep), sep)
  {
    IndexOfFirst(s, sep);
    match IndexOf(s, sep)
    case None =>
    case Some(i) =>
      var rest := s[i + |sep|..];
      SplitPiecesFree(rest, sep);
      NoneBeforeFirst(s, sep, i);
      SplitStep(s, sep, i);
      PiecesFreeCons(s[..i], Split(rest, sep), sep);
  }

  /** No element of the list contains `sep`. */
  predicate PiecesFree(xs: seq<string>, sep: string) {
    forall k :: 0 <= k < |xs| ==> !Contains(xs[k], sep)
  }

  lemma PiecesFreeCons(a: string, xs: seq<string>, sep: string)
    requires !Contains(a, sep) && PiecesFree(xs, sep)
    ensures PiecesFree([a] + xs, sep)
  {
    forall k | 0 <= k < |[a] + xs|
      ensures !Contains(([a] + xs)[k], sep)
    {
      if k > 0 {
        assert ([a] + xs)[k] == xs[k - 1];
      }
    }
  }

  /** `s.split(sep)[0]`: the text before the first occurrence of `sep`. */
  function BeforeFirst(s: string, sep: string): (r: string)
    requires |sep| > 0
    ensures StartsWith(s, r)
    ensures !Contains(r, sep)
    ensures Contains(s, sep) ==> OccursAt(s, sep, |r|) && NoneBetween(s, sep, 0, |r|)
    ensures !Contains(s, sep) ==> r == s
  {
    IndexOfFirst(s, sep);
    match IndexOf(s, sep)
    case None => s
    case Some(i) =>
      NoneBeforeFirst(s, sep, i);
      s[..i]
  }

  /** BeforeFirst is Python's `s.split(sep)[0]`. */
  lemma BeforeFirstIsFirstPiece(s: string, sep: string)
    requires |sep| > 0
    ensures BeforeFirst(s, sep) == Split(s, sep)[0]
  {
  }

  /** `s.split(sep)[-1]`: the text after the last (non-overlapping) occurrence of `sep`. */
  function AfterLast(s: string, sep: string): (r: string)
    requires |sep| > 0
    decreases |s|
    ensures |r| <= |s|
  {
    match IndexOf(s, sep)
    case None => s
    case Some(i) => AfterLast(s[i + |sep|..], sep)
  }

  /** The text of `s` before its suffix of length |r| ends with `sep`. */
  predicate FollowsMarker(s: string, r: string, sep: string) {
    |r| <= |s| && EndsWith(s[..|s| - |r|], sep)
  }

  /** The last piece is a suffix free of `sep`, and when `sep` occurs at all
      the text before that suffix ends with `sep`: it is what follows the
      last occurrence. */
  lemma {:induction false} AfterLastSpec(s: string, sep: string)
    requires |sep| > 0
    decreases |s|
    ensures LastPieceSpec(s, AfterLast(s, sep), sep)
  {
    match IndexOf(s, sep)
    case None =>
      IndexOfFirst(s, sep);
      LastPieceWhole(s, sep);
    case Some(i) =>
      var rest := s[i + |sep|..];
      AfterLastSpec(rest, sep);
      AfterLastStep(s, sep, i);
      LastPieceStep(s, sep, i, AfterLast(rest, sep));
  }

  lemma LastPieceWhole(s: string, sep: string)
    requires !Contains(s, sep)
    ensures LastPieceSpec(s, s, sep)
  {
    assert s[|s| - |s|..] == s;
  }

  /** `r` is a suffix of `s` free of `sep`, and if `sep` occurs in `s` then
      the text before `r` ends with `sep`. */
  predicate LastPieceSpec(s: string, r: string, sep: string) {
    && EndsWith(s, r)
    && !Contains(r, sep)
    && (Contains(s, sep) ==> FollowsMarker(s, r, sep))
    && (!Contains(s, sep) ==> r == s)
  }

  /** If `r` is the last piece of the text after an occurrence of `sep` at `i`,
      it is also a last piece of the whole text. */
  lemma LastPieceStep(s: string, sep: string, i: nat, r: string)
    requires |sep| > 0 && OccursAt(s, sep, i)
    requires LastPieceSpec(s[i + |sep|..], r, sep)
    ensures LastPieceSpec(s, r, sep)
  {
    var rest := s[i + |sep|..];
    SuffixOfSuffix(s, i + |sep|, r);
    assert Contains(s, sep);
    if Contains(rest, sep) {
      FollowsMarkerExtend(s, i + |sep|, r, sep);
    } else {
      FollowsOccurrence(s, sep, i);
    }
  }

  lemma SuffixOfSuffix(s: string, k: nat, r: string)
    requires k <= |s| && EndsWith(s[k..], r)
    ensures EndsWith(s, r)
  {
    assert s[k..][|s[k..]| - |r|..] == s[|s| - |r|..];
  }

  /** Following `sep` inside the suffix `s[k..]` is following it inside `s`. */
  lemma FollowsMarkerExtend(s: string, k: nat, r: string, sep: string)
    requires k <= |s| && FollowsMarker(s[k..], r, sep)
    ensures FollowsMarker(s, r, sep)
  {
    var p := |s| - |r|;
    assert s[k..][..p - k] == s[k..p];
    assert s[k..p][p - k - |sep|..] == s[..p][p - |sep|..];
  }

  /** The text after an occurrence follows that occurrence. */
  lemma FollowsOccurrence(s: string, sep: string, i: nat)
    requires OccursAt(s, sep, i)
    ensures FollowsMarker(s, s[i + |sep|..], sep)
  {
    assert s[..i + |sep|][i..] == sep;
  }

  /** Without an occurrence, split(sep)[-1] is the whole string. */
  lemma AfterLastAbsent(s: string, sep: string)
    requires |sep| > 0 && !Contains(s, sep)
    ensures AfterLast(s, sep) == s
  {
    IndexOfFirst(s, sep);
  }

  /** AfterLast is Python's `s.split(sep)[-1]`. */
  lemma {:induction false} AfterLastIsLastPiece(s: string, sep: string)
    requires |sep| > 0
    decreases |s|
    ensures AfterLast(s, sep) == Last(Split(s, sep))
  {
    match IndexOf(s, sep)
    case None =>
    case Some(i) =>
      var rest := s[i + |sep|..];
      AfterLastIsLastPiece(rest, sep);
      SplitStep(s, sep, i);
      LastOfCons(s[..i], Split(rest, sep));
  }

  function Last<T>(xs: seq<T>): T
    requires |xs| > 0
  {
    xs[|xs| - 1]
  }

  lemma LastOfCons<T>(a: T, xs: seq<T>)
    requires |xs| > 0
    ensures Last([a] + xs) == Last(xs)
  {
  }

  /** One step of Split: cut at the first occurrence. */
  lemma SplitStep(s: string, sep: string, i: nat)
    requires |sep| > 0 && IndexOf(s, sep) == Some(i)
    ensures i + |sep| <= |s|
    ensures Split(s, sep) == [s[..i]] + Split(s[i + |sep|..], sep)
  {
    assert OccursAt(s, sep, i);
  }

  /** `sep` has no border: no proper non-empty suffix of it is also a prefix,
      so two occurrences can never overlap. */
  predicate BorderFree(sep: string) {
    forall k :: 0 < k < |sep| ==> !IsBorder(sep, k)
  }

  /** The suffix of `sep` from `k` equals its prefix of the same length. */
  predicate IsBorder(sep: string, k: nat)
    requires k <= |sep|
  {
    sep[k..] == sep[..|sep| - k]
  }

  /** For a border-free separator, the text after the last occurrence of `sep`
      in `x + sep + tail` is `tail`, whatever `x` holds, provided `tail`
      itself does not contain `sep`. */
  lemma AfterLastOfAppended(x: string, sep: string, tail: string)
    requires |sep| > 0 && BorderFree(sep)
    requires !Contains(tail, sep)
    ensures AfterLast(x + sep + tail, sep) == tail
  {
    var s := x + sep + tail;
    var m := |x|;
    ContainsMiddleAt(x, sep, tail);
    AfterLastSpec(s, sep);
    var r := AfterLast(s, sep);
    var p := |s| - |r|;
    EndsWithOccurs(s, p, sep);
    var q := p - |sep|;
    if p <= m {
      OccursInSuffix(s, p, sep, m);
      assert false;
    } else if p < m + |sep| {
      Overlap(s, sep, q, m);
      assert false;
    } else if p > m + |sep| {
      if q < m + |sep| {
        Overlap(s, sep, m, q);
        assert false;
      } else {
        OccursInTail(x, sep, tail, q);
        assert false;
      }
    }
    assert s[p..] == tail;
  }

  lemma ContainsMiddleAt(a: string, b: string, c: string)
    ensures OccursAt(a + b + c, b, |a|)
  {
    assert (a + b + c)[|a|..|a| + |b|] == b;
  }

  lemma OccursInSuffix(s: string, p: nat, sep: string, m: nat)
    requires p <= m && OccursAt(s, sep, m)
    ensures Contains(s[p..], sep)
  {
    assert s[p..][m - p..m - p + |sep|] == s[m..m + |sep|];
    assert OccursAt(s[p..], sep, m - p);
  }

  /** When `s[..p]` ends with `sep`, `sep` occurs at `p - |sep|`. */
  lemma EndsWithOccurs(s: string, p: nat, sep: string)
    requires p <= |s| && EndsWith(s[..p], sep)
    ensures p >= |sep| && OccursAt(s, sep, p - |sep|)
  {
    assert s[..p][p - |sep|..] == s[p - |sep|..p];
  }

  /** Two overlapping occurrences of `sep` make a border of it. */
  lemma Overlap(s: string, sep: string, a: nat, b: nat)
    requires a < b < a + |sep|
    requires OccursAt(s, sep, a) && OccursAt(s, sep, b)
    ensures IsBorder(sep, b - a)
  {
    assert s[b..a + |sep|] == s[a..a + |sep|][b - a..];
    assert s[b..a + |sep|] == s[b..b + |sep|][..|sep| - (b - a)];
  }

  /** An occurrence past `x + sep` is an occurrence in `tail`. */
  lemma OccursInTail(x: string, sep: string, tail: string, q: nat)
    requires q >= |x| + |sep|
    requires OccursAt(x + sep + tail, sep, q)
    ensures Contains(tail, sep)
  {
    var s := x + sep + tail;
    assert s[|x| + |sep|..] == tail;
    OccursInSlice(s, |x| + |sep|, |s|, sep, q - |x| - |sep|);
    assert OccursAt(tail, sep, q - |x| - |sep|);
  }

  /** One step of AfterLast: skip past the first occurrence. */
  lemma AfterLastStep(s: string, sep: string, i: nat)
    requires |sep| > 0
    requires IndexOf(s, sep) == Some(i)
    requires i + |sep| <= |s|
    ensures AfterLast(s, sep) == AfterLast(s[i + |sep|..], sep)
  {
    assert OccursAt(s, sep, i);
  }

  /** Every character of `s[lo..hi]` is an ASCII digit. */
  predicate DigitRange(s: string, lo: nat, hi: nat) {
    forall k :: lo <= k < hi && k < |s| ==> IsDigit(s[k])
  }

  /** Index just past the run of digits starting at `i`. */
  function SkipDigits(s: string, i: nat): (r: nat)
    requires i <= |s|
    decreases |s| - i
    ensures i <= r <= |s| && DigitRange(s, i, r)
    ensures r < |s| ==> !IsDigit(s[r])
  {
    if i < |s| && IsDigit(s[i]) then SkipDigits(s, i + 1) else i
  }

  /** SkipDigits stops at the first non-digit. */
  lemma {:induction false} SkipDigitsAt(s: string, i: nat, j: nat)
    requires i <= j <= |s| && DigitRange(s, i, j)
    requires j < |s| ==> !IsDigit(s[j])
    decreases j - i
    ensures SkipDigits(s, i) == j
  {
    if i < j {
      SkipDigitsAt(s, i + 1, j);
    }
  }

  /** Removes every occurrence of `c` (Python's `s.replace(c, "")` for one character). */
  function RemoveChar(s: string, c: char): (r: string)
    ensures c !in r
    ensures |r| <= |s|
    ensures c !in s ==> r == s
  {
    if |s| == 0 then ""
    else (if s[0] == c then "" else [s[0]]) + RemoveChar(s[1..], c)
  }

  lemma RemoveCharConcat(a: string, b: string, c: char)
    ensures RemoveChar(a + b, c) == RemoveChar(a, c) + RemoveChar(b, c)
    decreases |a|
  {
    if |a| > 0 {
      var x := if a[0] == c then "" else [a[0]];
      assert (a + b)[0] == a[0];
      assert (a + b)[1..] == a[1..] + b;
      assert RemoveChar(a + b, c) == x + RemoveChar(a[1..] + b, c);
      RemoveCharConcat(a[1..], b, c);
      assert RemoveChar(a, c) == x + RemoveChar(a[1..], c);
      assert x + (RemoveChar(a[1..], c) + RemoveChar(b, c)) == (x + RemoveChar(a[1..], c)) + RemoveChar(b, c);
    } else {
      assert a + b == b;
    }
  }
}
