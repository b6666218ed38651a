/**
 Decimal text of natural numbers: Python's `str(n)`, `int(s)` on a digit
 string, the thousands-separated form `f"{n:,}"`, and the round-half-even
 rule of the built-in `round` applied to an exact fraction.
 */
module Numbers {
  import opened Text

  function DigitChar(d: nat): (c: char)
    requires d < 10
    ensures IsDigit(c)
  {
    ('0' as int + d) as char
  }

  function DigitValue(c: char): (d: nat)
    requires IsDigit(c)
    ensures d < 10 && DigitChar(d) == c
  {
    c as int - '0' as int
  }

  predicate AllDigits(s: string) {
    forall i :: 0 <= i < |s| ==> IsDigit(s[i])
  }

  /** Python's `int(s)` for a string of ASCII digits (the empty string counts 0). */
  function DigitsValue(s: string): nat
    requires AllDigits(s)
  {
    if |s| == 0 then 0 else DigitsValue(s[..|s| - 1]) * 10 + DigitValue(s[|s| - 1])
  }

  /** Python's `str(n)` for a natural number: shortest decimal text. */
  function NatToString(n: nat): (r: string)
    ensures |r| >= 1 && AllDigits(r)
    ensures r[0] == '0' ==> n == 0
  {
    if n < 10 then [DigitChar(n)] else NatToString(n / 10) + [DigitChar(n % 10)]
  }

  /** Reading back the decimal text of `n` gives `n`. */
  lemma {:induction false} NatToStringValue(n: nat)
    ensures DigitsValue(NatToString(n)) == n
  {
    if n >= 10 {
      var r := NatToString(n);
      NatToStringValue(n / 10);
      assert r[..|r| - 1] == NatToString(n / 10);
    }
  }

  /** Decimal text has no leading zero, so distinct numbers have distinct texts. */
  lemma NatToStringInjective(m: nat, n: nat)
    requires NatToString(m) == NatToString(n)
    ensures m == n
  {
    NatToStringValue(m);
    NatToStringValue(n);
  }

  /** The three-digit zero-padded text of `n < 1000`. */
  function Pad3(n: nat): (r: string)
    requires n < 1000
    ensures |r| == 3 && AllDigits(r)
  {
    [DigitChar(n / 100), DigitChar(n / 10 % 10), DigitChar(n % 10)]
  }

  /** Python's `f"{n:,}"`: decimal text with a comma between thousands groups. */
  function GroupThousands(n: nat): (r: string)
    ensures |r| >= 1 && IsDigit(r[0])
  {
    if n < 1000 then NatToString(n) else GroupThousands(n / 1000) + "," + Pad3(n % 1000)
  }

  /** `r` is a 1-3 digit lead followed by any number of ",ddd" groups. */
  predicate Grouped(r: string)
    decreases |r|
  {
    if |r| <= 3 then 1 <= |r| && AllDigits(r)
    else r[|r| - 4] == ',' && AllDigits(r[|r| - 3..]) && Grouped(r[..|r| - 4])
  }

  /** The comma-separated form is a 1-3 digit lead followed by ",ddd" groups. */
  lemma {:induction false} GroupThousandsGrouped(n: nat)
    ensures Grouped(GroupThousands(n))
  {
    var r := GroupThousands(n);
    if n < 1000 {
      NatToStringShort(n);
    } else {
      var h := GroupThousands(n / 1000);
      GroupThousandsGrouped(n / 1000);
      var p := Pad3(n % 1000);
      assert r[..|r| - 4] == h;
      assert r[|r| - 3..] == p;
      assert r[|r| - 4] == ',';
    }
  }

  /** The comma-separated form has a comma exactly when `n >= 1000`. */
  lemma {:induction false} GroupThousandsComma(n: nat)
    ensures ',' in GroupThousands(n) <==> n >= 1000
  {
    var r := GroupThousands(n);
    if n < 1000 {
      assert AllDigits(r);
    } else {
      assert r[|GroupThousands(n / 1000)|] == ',';
    }
  }

  /** Deleting the commas of `f"{n:,}"` gives back `str(n)`. */
  lemma {:induction false} GroupThousandsDigits(n: nat)
    ensures RemoveChar(GroupThousands(n), ',') == NatToString(n)
  {
    if n >= 1000 {
      var h := GroupThousands(n / 1000);
      GroupThousandsDigits(n / 1000);
      var p := Pad3(n % 1000);
      assert GroupThousands(n) == (h + ",") + p;
      RemoveCharConcat(h + ",", p, ',');
      RemoveCharConcat(h, ",", ',');
      assert RemoveChar(",", ',') == "";
      NatToStringAppend3(n);
    } else {
      NoCommaInDigits(NatToString(n));
    }
  }

  lemma NoCommaInDigits(s: string)
    requires AllDigits(s)
    ensures RemoveChar(s, ',') == s
  {
    forall i | 0 <= i < |s|
      ensures s[i] != ','
    {
      assert IsDigit(s[i]);
    }
  }

  /** Below 1000 the decimal text has at most three digits. */
  lemma NatToStringShort(n: nat)
    requires n < 1000
    ensures |NatToString(n)| <= 3
  {
    if n >= 10 {
      var a := n / 10;
      assert NatToString(n) == NatToString(a) + [DigitChar(n % 10)];
      if a >= 10 {
        assert a / 10 < 10;
        assert NatToString(a) == NatToString(a / 10) + [DigitChar(a % 10)];
      }
    }
  }

  /** `str(n)` is `str(n // 1000)` followed by the zero-padded last three digits. */
  lemma NatToStringAppend3(n: nat)
    requires n >= 1000
    ensures NatToString(n) == NatToString(n / 1000) + Pad3(n % 1000)
  {
    var a := n / 10;
    var b := a / 10;
    var c := b / 10;
    DivDiv(n);
    assert NatToString(n) == NatToString(a) + [DigitChar(n % 10)];
    assert NatToString(a) == NatToString(b) + [DigitChar(a % 10)];
    assert NatToString(b) == NatToString(c) + [DigitChar(b % 10)];
  }

  /** Digit arithmetic behind NatToStringAppend3. */
  lemma DivDiv(n: nat)
    ensures n / 10 / 10 / 10 == n / 1000
    ensures n / 10 / 10 % 10 == n % 1000 / 100
    ensures n / 10 % 10 == n % 1000 / 10 % 10
    ensures n % 10 == n % 1000 % 10
  {
    var c := n / 1000;
    var m := n % 1000;
    assert n == 1000 * c + m;
    assert n / 10 == 100 * c + m / 10;
    assert n / 10 / 10 == 10 * c + m / 100;
  }

  /** `r` is an integer nearest to `p / q`, and when `p / q` lies exactly
      halfway between two integers, `r` is the even one. */
  predicate NearestEven(p: int, q: int, r: int) {
    var e := r * q - p;
    -q <= 2 * e <= q && (2 * e == q || 2 * e == -q ==> r % 2 == 0)
  }

  /** Python's `round(p / q)` on the exact fraction: the nearest integer,
      ties going to the even neighbour. */
  function RoundHalfEven(p: nat, q: nat): (r: nat)
    requires q > 0
    ensures NearestEven(p, q, r)
  {
    var f := p / q;
    var rem := p % q;
    Euclid(p, q);
    if 2 * rem < q then f
    else if 2 * rem > q then f + 1
    else if f % 2 == 0 then f
    else f + 1
  }

  lemma Euclid(p: nat, q: nat)
    requires q > 0
    ensures (p / q) * q - p == -(p % q)
    ensures (p / q + 1) * q - p == q - p % q
    ensures 0 <= p % q < q
  {
  }

  /** The rounded value is unique: RoundHalfEven is the only integer that is
      nearest to `p / q` with ties broken towards even. */
  lemma RoundHalfEvenUnique(p: nat, q: nat, r: int)
    requires q > 0 && NearestEven(p, q, r)
    ensures RoundHalfEven(p, q) == r
  {
    var s := RoundHalfEven(p, q);
    var d := r - s;
    ProductDiff(r, s, p, q);
    if d >= 2 {
      MulAtLeastTwice(d, q);
    } else if d <= -2 {
      MulAtLeastTwice(s - r, q);
    }
    NearestCore(r * q - p, s * q - p, q, r, s, d * q);
  }

  /** The linear core of RoundHalfEvenUnique: two integers both nearest to
      the same value, ties broken towards even, are equal. */
  lemma NearestCore(er: int, es: int, q: int, r: int, s: int, dq: int)
    requires q > 0
    requires -q <= 2 * er <= q && (2 * er == q || 2 * er == -q ==> r % 2 == 0)
    requires -q <= 2 * es <= q && (2 * es == q || 2 * es == -q ==> s % 2 == 0)
    requires dq == er - es
    requires r - s >= 2 ==> dq >= 2 * q
    requires s - r >= 2 ==> -dq >= 2 * q
    requires r - s == 1 ==> dq == q
    requires s - r == 1 ==> dq == -q
    ensures r == s
  {
  }

  lemma ProductDiff(r: int, s: int, p: int, q: int)
    ensures (r - s) * q == (r * q - p) - (s * q - p)
    ensures (s - r) * q == -((r - s) * q)
    ensures r - s == 1 ==> (r - s) * q == q
    ensures s - r == 1 ==> (r - s) * q == -q
  {
  }

  lemma MulAtLeastTwice(d: int, q: nat)
    requires d >= 2
    ensures d * q >= 2 * q
  {
    assert (d - 2) * q >= 0;
  }
}
