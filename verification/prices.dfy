/**
 * The price column derivation (amazon-scraping.py:92):
 * `price_raw.astype(str).str.replace(',', '').astype(int)`.
 *
 * Parsing accepts only non-empty strings of ASCII digits, and the result must
 * fit the integer column `astype(int)` builds, taken here to be 64-bit (the
 * platform default everywhere except Windows with NumPy before 2.0).
 */
module Prices {
  import opened Wrappers

  /** The largest value of a 64-bit `astype(int)` column. */
  const Int64Max: int := 0x7FFF_FFFF_FFFF_FFFF

  /** The thousands separator the site renders in prices, as in "2,500". */
  const Separator: char := ','

  /** `str.replace(',', '')`: every separator removed, everything else kept in order. */
  function StripCommas(s: string): (r: string)
    ensures Separator !in r
    ensures |r| <= |s|
  {
    if s == [] then []
    else (if s[0] == Separator then [] else [s[0]]) + StripCommas(s[1..])
  }

  /** Stripping removes the separators and nothing else: every other character keeps its multiplicity. */
  lemma {:induction false} StripCommasKeepsContent(s: string)
    ensures multiset(StripCommas(s)) == multiset(s)[Separator := 0]
    decreases |s|
  {
    if s != [] {
      StripCommasKeepsContent(s[1..]);
      assert s == [s[0]] + s[1..];
    }
  }

  /** Stripping distributes over concatenation, so the relative order of kept characters is unchanged. */
  lemma {:induction false} StripCommasAppend(a: string, b: string)
    ensures StripCommas(a + b) == StripCommas(a) + StripCommas(b)
    decreases |a|
  {
    if a != [] {
      assert (a + b)[0] == a[0];
      assert (a + b)[1..] == a[1..] + b;
      StripCommasAppend(a[1..], b);
    } else {
      assert a + b == b;
    }
  }

  /** A string is left unchanged by stripping exactly when it holds no separator. */
  lemma {:induction false} StripCommasFixesExactly(s: string)
    ensures StripCommas(s) == s <==> Separator !in s
    decreases |s|
  {
    if s != [] {
      StripCommasFixesExactly(s[1..]);
      if s[0] != Separator {
        assert Separator in s <==> Separator in s[1..] by {
          assert s == [s[0]] + s[1..];
        }
      }
    }
  }

  /** Stripping twice is the same as stripping once. */
  lemma StripCommasIdempotent(s: string)
    ensures StripCommas(StripCommas(s)) == StripCommas(s)
  {
    StripCommasFixesExactly(StripCommas(s));
  }

  predicate IsDigit(ch: char) {
    '0' <= ch <= '9'
  }

  predicate AllDigits(s: string) {
    forall i :: 0 <= i < |s| ==> IsDigit(s[i])
  }

  function DigitValue(ch: char): nat
    requires IsDigit(ch)
  {
    ch as int - '0' as int
  }

  function DigitChar(d: nat): (ch: char)
    requires d < 10
    ensures IsDigit(ch) && DigitValue(ch) == d
  {
    ('0' as int + d) as char
  }

  function Pow10(n: nat): (p: nat)
    ensures p >= 1
  {
    if n == 0 then 1 else 10 * Pow10(n - 1)
  }

  /** The base-10 value of a digit string, read most significant digit first. */
  function DigitsValue(s: string): nat
    requires AllDigits(s)
  {
    if s == [] then 0
    else DigitsValue(s[..|s| - 1]) * 10 + DigitValue(s[|s| - 1])
  }

  /** A digit string of length n denotes a value below 10^n. */
  lemma {:induction false} DigitsValueBound(s: string)
    requires AllDigits(s)
    ensures DigitsValue(s) < Pow10(|s|)
    decreases |s|
  {
    if s != [] {
      DigitsValueBound(s[..|s| - 1]);
    }
  }

  lemma AllDigitsAppend(a: string, b: string)
    requires AllDigits(a) && AllDigits(b)
    ensures AllDigits(a + b)
  {
    forall i | 0 <= i < |a + b|
      ensures IsDigit((a + b)[i])
    {
      if i < |a| {
        assert (a + b)[i] == a[i];
      } else {
        assert (a + b)[i] == b[i - |a|];
      }
    }
  }

  lemma ShiftByDigit(x: int, p: int, y: int, d: int)
    ensures (x * p + y) * 10 + d == x * (p * 10) + (y * 10 + d)
  {
  }

  /** Reading a concatenation: the left part is shifted by the length of the right part. */
  lemma {:induction false} DigitsValueAppend(a: string, b: string)
    requires AllDigits(a) && AllDigits(b)
    ensures AllDigits(a + b)
    ensures DigitsValue(a + b) == DigitsValue(a) * Pow10(|b|) + DigitsValue(b)
    decreases |b|
  {
    AllDigitsAppend(a, b);
    if b == [] {
      assert a + b == a;
    } else {
      var n := |b| - 1;
      var init := b[..n];
      assert AllDigits(init);
      assert (a + b)[..|a + b| - 1] == a + init;
      assert (a + b)[|a + b| - 1] == b[n];
      DigitsValueAppend(a, init);
      var x, y, p, d := DigitsValue(a), DigitsValue(init), Pow10(n), DigitValue(b[n]);
      assert DigitsValue(a + b) == (x * p + y) * 10 + d;
      assert DigitsValue(b) == y * 10 + d;
      assert Pow10(|b|) == p * 10;
      ShiftByDigit(x, p, y, d);
    }
  }

  /** Python's `int()` restricted to plain ASCII digit strings: None on any other input. */
  function ParseDigits(s: string): (r: Option<nat>)
    ensures r.Some? <==> |s| > 0 && AllDigits(s)
    ensures r.Some? ==> r.value == DigitsValue(s)
    ensures r.Some? ==> r.value < Pow10(|s|)
  {
    if |s| > 0 && AllDigits(s) then
      DigitsValueBound(s);
      Some(DigitsValue(s))
    else None
  }

  /** The shortest decimal rendering of n, as `str(n)` produces it. */
  function ToDecimal(n: nat): (s: string)
    ensures |s| > 0 && AllDigits(s)
    decreases n
  {
    if n < 10 then [DigitChar(n)] else ToDecimal(n / 10) + [DigitChar(n % 10)]
  }

  /** Round trip: parsing the rendering of any natural number gives that number back. */
  lemma {:induction false} ParseToDecimal(n: nat)
    ensures ParseDigits(ToDecimal(n)) == Some(n)
    ensures DigitsValue(ToDecimal(n)) == n
    decreases n
  {
    var s := ToDecimal(n);
    if n >= 10 {
      ParseToDecimal(n / 10);
      assert s[..|s| - 1] == ToDecimal(n / 10);
    }
  }

  /** Three digits with leading zeros, the group after each separator. */
  function Pad3(m: nat): (s: string)
    requires m < 1000
    ensures |s| == 3 && AllDigits(s)
  {
    [DigitChar(m / 100), DigitChar(m / 10 % 10), DigitChar(m % 10)]
  }

  lemma Pad3Value(m: nat)
    requires m < 1000
    ensures DigitsValue(Pad3(m)) == m
    ensures Separator !in Pad3(m)
  {
    var s := Pad3(m);
    assert s[..2][..1] == s[..1];
    assert s[..1][..0] == [];
    assert DigitsValue(s[..1]) == m / 100;
    assert DigitsValue(s[..2]) == m / 100 * 10 + m / 10 % 10;
    assert m / 10 == m / 100 * 10 + m / 10 % 10;
    assert m == m / 10 * 10 + m % 10;
  }

  /** A price as the site renders it: digits grouped by three with separators, as in "1,234,567". */
  function Grouped(n: nat): (s: string)
    ensures |s| > 0
    decreases n
  {
    if n < 1000 then ToDecimal(n) else Grouped(n / 1000) + [Separator] + Pad3(n % 1000)
  }

  /** Digit strings hold no separator, so stripping leaves them unchanged. */
  lemma StripDigits(s: string)
    requires AllDigits(s)
    ensures StripCommas(s) == s
  {
    StripCommasFixesExactly(s);
  }

  /** Stripping a grouped rendering leaves a digit string denoting the same number. */
  lemma {:induction false} StripGrouped(n: nat)
    ensures AllDigits(StripCommas(Grouped(n)))
    ensures |StripCommas(Grouped(n))| > 0
    ensures DigitsValue(StripCommas(Grouped(n))) == n
    decreases n
  {
    if n < 1000 {
      ParseToDecimal(n);
      StripDigits(ToDecimal(n));
    } else {
      StripGrouped(n / 1000);
      StripGroupStep(Grouped(n / 1000), n / 1000, n % 1000);
      assert n / 1000 * 1000 + n % 1000 == n;
    }
  }

  /** A separator followed by a digit group strips to just the group. */
  lemma {:induction false} StripSeparatorGroup(head: string, tail: string)
    requires AllDigits(tail)
    ensures StripCommas(head + [Separator] + tail) == StripCommas(head) + tail
  {
    StripDigits(tail);
    StripCommasAppend(head, [Separator]);
    assert StripCommas([Separator]) == [];
    assert StripCommas(head + [Separator]) == StripCommas(head) + [];
    assert StripCommas(head) + [] == StripCommas(head);
    StripCommasAppend(head + [Separator], tail);
  }

  /** One separator-and-group step of `StripGrouped`. */
  lemma {:induction false} StripGroupStep(head: string, q: nat, m: nat)
    requires m < 1000
    requires AllDigits(StripCommas(head)) && |StripCommas(head)| > 0
    requires DigitsValue(StripCommas(head)) == q
    ensures AllDigits(StripCommas(head + [Separator] + Pad3(m)))
    ensures |StripCommas(head + [Separator] + Pad3(m))| > 0
    ensures DigitsValue(StripCommas(head + [Separator] + Pad3(m))) == q * 1000 + m
  {
    var tail := Pad3(m);
    var stripped := StripCommas(head);
    StripSeparatorGroup(head, tail);
    Pad3Value(m);
    DigitsValueAppend(stripped, tail);
    assert Pow10(3) == 1000;
    assert DigitsValue(stripped + tail) == q * 1000 + m;
  }

  /**
   * The `price` of one record: separators removed, then an integer parse.
   * None stands for the exception `astype(int)` raises.
   */
  function NormalizePrice(raw: string): (r: Option<int>)
    ensures r.Some? <==>
              var d := StripCommas(raw);
              |d| > 0 && AllDigits(d) && DigitsValue(d) <= Int64Max
    ensures r.Some? ==> 0 <= r.value <= Int64Max && r.value == DigitsValue(StripCommas(raw))
  {
    match ParseDigits(StripCommas(raw))
    case Some(v) => if v <= Int64Max then Some(v) else None
    case None => None
  }

  /** Normalisation depends on the price text only through its stripped form. */
  lemma NormalizeByStripped(x: string, y: string)
    requires StripCommas(x) == StripCommas(y)
    ensures NormalizePrice(x) == NormalizePrice(y)
  {
  }

  /** Normalisation ignores a separator wherever it stands. */
  lemma NormalizeIgnoresSeparator(a: string, b: string)
    ensures NormalizePrice(a + [Separator] + b) == NormalizePrice(a + b)
  {
    StripCommasAppend(a + [Separator], b);
    StripCommasAppend(a, [Separator]);
    StripCommasAppend(a, b);
    assert StripCommas([Separator]) == [];
    assert StripCommas(a + [Separator]) == StripCommas(a);
    NormalizeByStripped(a + [Separator] + b, a + b);
  }

  /** Stripping before normalising changes nothing. */
  lemma NormalizeAfterStrip(a: string)
    ensures NormalizePrice(StripCommas(a)) == NormalizePrice(a)
  {
    StripCommasIdempotent(a);
    NormalizeByStripped(StripCommas(a), a);
  }

  /** Round trip: every int64-sized price rendered with separators normalises to itself. */
  lemma NormalizeGrouped(n: nat)
    requires n <= Int64Max
    ensures NormalizePrice(Grouped(n)) == Some(n)
  {
    StripGrouped(n);
  }

  /** The stand-in for a missing price element normalises to 0. */
  lemma NormalizeMissingPrice()
    ensures NormalizePrice("0") == Some(0)
  {
    assert StripCommas("0") == "0";
  }

  /** The example of the source's comment: "2,500" becomes 2500. */
  lemma NormalizeExample()
    ensures NormalizePrice("2,500") == Some(2500)
  {
    assert Grouped(2500) == "2,500" by {
      assert ToDecimal(2) == "2";
      assert Pad3(500) == "500";
    }
    NormalizeGrouped(2500);
  }

  /** Residue other than digits makes the parse fail; it never reads as zero. */
  lemma NormalizeRejectsResidue(raw: string, i: nat)
    requires i < |StripCommas(raw)| && !IsDigit(StripCommas(raw)[i])
    ensures NormalizePrice(raw) == None
  {
  }

  /** A price text made of separators only strips to nothing, so it fails rather than reading as zero. */
  lemma {:induction false} NormalizeRejectsEmpty(raw: string)
    requires forall i :: 0 <= i < |raw| ==> raw[i] == Separator
    ensures StripCommas(raw) == []
    ensures NormalizePrice(raw) == None
    decreases |raw|
  {
    if raw != [] {
      NormalizeRejectsEmpty(raw[1..]);
    }
  }
}
