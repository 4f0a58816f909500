/**
 * The decimal literal `-?\d+\.\d+` that appears in all three patterns of
 * the frame parser, kept exactly: its sign, its integer digits and its
 * fraction digits. `\d` is taken to be an ASCII digit.
 */
module Decimals {
  import opened Wrappers

  predicate IsDigit(c: char)
  {
    '0' <= c <= '9'
  }

  predicate AllDigits(s: string)
  {
    forall k :: 0 <= k < |s| ==> IsDigit(s[k])
  }

  /** The characters a decimal literal is written with. */
  predicate IsTokenChar(c: char)
  {
    IsDigit(c) || c == '-' || c == '.'
  }

  /** A literal `-?<whole>.<frac>`, both digit strings non-empty when Valid. */
  datatype Decimal = Decimal(negative: bool, whole: string, frac: string)
  {
    predicate Valid()
    {
      |whole| >= 1 && |frac| >= 1 && AllDigits(whole) && AllDigits(frac)
    }
  }

  function Sign(d: Decimal): string
  {
    if d.negative then "-" else ""
  }

  /** The text of a decimal literal. */
  function Format(d: Decimal): string
    requires d.Valid()
  {
    Sign(d) + d.whole + "." + d.frac
  }

  /**
   * A literal is written with digits, `-` and `.` only; it starts with a
   * digit or `-` and ends with a digit.
   */
  lemma FormatChars(d: Decimal)
    requires d.Valid()
    ensures var r := Format(d);
      && |r| == |Sign(d)| + |d.whole| + 1 + |d.frac|
      && (forall k :: 0 <= k < |r| ==> IsTokenChar(r[k]))
      && (IsDigit(r[0]) || r[0] == '-')
      && IsDigit(r[|r| - 1])
  {
    var r := Format(d);
    forall k | 0 <= k < |r| ensures IsTokenChar(r[k]) {
      var n := |Sign(d)|;
      if k < n {
        assert r[k] == '-';
      } else if k < n + |d.whole| {
        assert r[k] == d.whole[k - n];
      } else if k > n + |d.whole| {
        assert r[k] == d.frac[k - n - |d.whole| - 1];
      }
    }
  }

  /** The end of the maximal run of ASCII digits that starts at `i`. */
  function ScanDigits(s: string, i: nat): (r: nat)
    requires i <= |s|
    ensures i <= r <= |s|
    ensures AllDigits(s[i..r])
    ensures r == |s| || !IsDigit(s[r])
    decreases |s| - i
  {
    if i < |s| && IsDigit(s[i]) then
      var r := ScanDigits(s, i + 1);
      assert s[i..r] == [s[i]] + s[i + 1..r];
      r
    else i
  }

  lemma LiteralSlices(s: string, i: nat, j: nat, k: nat, m: nat)
    requires i <= j <= k < m <= |s|
    ensures s[i..m] == s[i..j] + s[j..k] + [s[k]] + s[k + 1..m]
  {
    assert s[i..m] == s[i..j] + s[j..m];
    assert s[j..m] == s[j..k] + s[k..m];
    assert s[k..m] == [s[k]] + s[k + 1..m];
  }

  /**
   * The end of the literal once its sign, its integer digits (`j` to `k`)
   * and the run of digits after the dot (ending at `m`) are known.
   */
  function LiteralAt(s: string, i: nat, j: nat, k: nat, m: nat): Option<(Decimal, nat)>
    requires i <= j <= k < m <= |s|
  {
    if m == k + 1 || k == j then None
    else Some((Decimal(j == i + 1, s[j..k], s[k + 1..m]), m))
  }

  /** What LiteralAt builds is a valid literal, written out from `i` to its end. */
  lemma LiteralAtSound(s: string, i: nat, j: nat, k: nat, m: nat)
    requires i <= j <= k < m <= |s|
    requires j == i || (j == i + 1 && s[i] == '-')
    requires s[k] == '.' && AllDigits(s[j..k]) && AllDigits(s[k + 1..m])
    ensures LiteralAt(s, i, j, k, m).Some? ==>
      var (d, e) := LiteralAt(s, i, j, k, m).value;
      && d.Valid()
      && e == i + |Format(d)| <= |s|
      && s[i..e] == Format(d)
  {
    if m != k + 1 && k != j {
      var d := Decimal(j == i + 1, s[j..k], s[k + 1..m]);
      assert s[i..j] == Sign(d) by {
        if j == i + 1 {
          assert s[i..j] == [s[i]];
        }
      }
      assert [s[k]] == ".";
      LiteralSlices(s, i, j, k, m);
    }
  }

  /**
   * The regex engine's match of `-?\d+\.\d+` at position `i`, which is
   * deterministic: the digit runs are maximal, since what follows each run
   * in the pattern (`.` or `s[end]`) is not a digit. Returns the literal
   * and the position just after it.
   */
  function ScanToken(s: string, i: nat): Option<(Decimal, nat)>
  {
    if i > |s| then None
    else
      var j := if i < |s| && s[i] == '-' then i + 1 else i;
      var k := ScanDigits(s, j);
      if k >= |s| || s[k] != '.' then None
      else LiteralAt(s, i, j, k, ScanDigits(s, k + 1))
  }

  /**
   * What the scan finds is a valid literal, written out from `i`, and not
   * followed by a further digit.
   */
  lemma ScanTokenSound(s: string, i: nat)
    ensures ScanToken(s, i).Some? ==>
      var (d, e) := ScanToken(s, i).value;
      && d.Valid()
      && e == i + |Format(d)| <= |s|
      && s[i..e] == Format(d)
      && (e == |s| || !IsDigit(s[e]))
  {
    if i <= |s| {
      var j := if i < |s| && s[i] == '-' then i + 1 else i;
      var k := ScanDigits(s, j);
      if k < |s| && s[k] == '.' {
        var m := ScanDigits(s, k + 1);
        ScanTokenAt(s, i, j, k, m);
        LiteralAtSound(s, i, j, k, m);
      }
    }
  }

  /** A digit run followed by a non-digit is exactly what ScanDigits finds. */
  lemma {:induction false} ScanDigitsStops(s: string, j: nat, k: nat)
    requires j <= k <= |s|
    requires AllDigits(s[j..k])
    requires k == |s| || !IsDigit(s[k])
    ensures ScanDigits(s, j) == k
    decreases k - j
  {
    if j < k {
      assert s[j] == s[j..k][0];
      assert s[j + 1..k] == s[j..k][1..];
      ScanDigitsStops(s, j + 1, k);
    }
  }

  /** The scan, given where the sign, the two digit runs and the dot stand. */
  lemma ScanSplits(s: string, i: nat, d: Decimal, j: nat, k: nat, m: nat)
    requires d.Valid()
    requires i < |s| && (s[i] == '-') == d.negative
    requires j == i + |Sign(d)| && k == j + |d.whole| && m == k + 1 + |d.frac| <= |s|
    requires s[j..k] == d.whole && s[k] == '.' && s[k + 1..m] == d.frac
    requires m == |s| || !IsDigit(s[m])
    ensures ScanToken(s, i) == Some((d, m))
  {
    assert (if i < |s| && s[i] == '-' then i + 1 else i) == j;
    ScanDigitsStops(s, j, k);
    ScanDigitsStops(s, k + 1, m);
    LiteralAtFinds(s, i, d, j, k, m);
    ScanTokenAt(s, i, j, k, m);
  }

  /** The scan, once the ends of its two digit runs are known. */
  lemma ScanTokenAt(s: string, i: nat, j: nat, k: nat, m: nat)
    requires i < |s| && j == (if s[i] == '-' then i + 1 else i)
    requires ScanDigits(s, j) == k && k < |s| && s[k] == '.' && ScanDigits(s, k + 1) == m
    ensures i <= j <= k < m <= |s|
    ensures ScanToken(s, i) == LiteralAt(s, i, j, k, m)
  {
  }

  lemma LiteralAtFinds(s: string, i: nat, d: Decimal, j: nat, k: nat, m: nat)
    requires d.Valid()
    requires j == i + |Sign(d)| && k == j + |d.whole| && m == k + 1 + |d.frac| <= |s|
    requires s[i..j] == Sign(d) && s[j..k] == d.whole && s[k] == '.' && s[k + 1..m] == d.frac
    ensures LiteralAt(s, i, j, k, m) == Some((d, m))
  {
    assert (j == i + 1) == d.negative;
  }

  /**
   * Wherever the text of a literal stands in `s`, not followed by a further
   * digit, the scan at its start finds exactly that literal.
   */
  lemma ScanFinds(s: string, i: nat, d: Decimal)
    requires d.Valid()
    requires i + |Format(d)| <= |s|
    requires s[i..i + |Format(d)|] == Format(d)
    requires i + |Format(d)| == |s| || !IsDigit(s[i + |Format(d)|])
    ensures ScanToken(s, i) == Some((d, i + |Format(d)|))
  {
    var n := |Sign(d)|;
    var j := i + n;
    var k := j + |d.whole|;
    var m := k + 1 + |d.frac|;
    var sub := s[i..m];
    assert sub == Sign(d) + d.whole + "." + d.frac;
    assert (s[i] == '-') == d.negative by {
      assert s[i] == sub[0];
    }
    assert s[j..k] == d.whole by {
      assert s[j..k] == sub[n..n + |d.whole|];
    }
    assert s[k] == '.' by {
      assert s[k] == sub[n + |d.whole|];
    }
    assert s[k + 1..m] == d.frac by {
      assert s[k + 1..m] == sub[n + |d.whole| + 1..];
    }
    ScanSplits(s, i, d, j, k, m);
  }

  /** Python `float(t)` succeeds on this grammar; the model keeps the literal. */
  function ParseToken(t: string): Option<Decimal>
  {
    match ScanToken(t, 0)
    case Some((d, e)) => if e == |t| then Some(d) else None
    case None => None
  }

  /** A string is a literal exactly when it is the text of a valid Decimal. */
  lemma ParseTokenExactly(t: string, d: Decimal)
    ensures ParseToken(t) == Some(d) <==> d.Valid() && Format(d) == t
  {
    ScanTokenSound(t, 0);
    if d.Valid() && Format(d) == t {
      ScanFinds(t, 0, d);
    }
  }

  /** Parsing the text of a literal gives the literal back. */
  lemma ParseFormat(d: Decimal)
    requires d.Valid()
    ensures ParseToken(Format(d)) == Some(d)
  {
    ParseTokenExactly(Format(d), d);
  }

  /** Each literal, given as a list of strings, parsed; None if any fails. */
  function ParseTokens(ts: seq<string>): (r: Option<seq<Decimal>>)
    ensures r.Some? ==> |r.value| == |ts| && forall i :: 0 <= i < |ts| ==> ParseToken(ts[i]) == Some(r.value[i])
    ensures r.None? ==> exists i :: 0 <= i < |ts| && ParseToken(ts[i]).None?
  {
    if ts == [] then Some([])
    else
      match (ParseToken(ts[0]), ParseTokens(ts[1..]))
      case (Some(d), Some(ds)) => Some([d] + ds)
      case (None, _) => None
      case (_, None) =>
        ghost var i :| 0 <= i < |ts[1..]| && ParseToken(ts[1..][i]).None?;
        assert ParseToken(ts[1 + i]).None?;
        None
  }

  // ---------------------------------------------------------------------
  // The exact value of a literal (Python converts it with float()).

  function DigitValue(c: char): nat
    requires IsDigit(c)
  {
    (c as int) - ('0' as int)
  }

  /** The natural number a digit string denotes. */
  function Natural(s: string): nat
    requires AllDigits(s)
  {
    if s == [] then 0 else Natural(s[..|s| - 1]) * 10 + DigitValue(s[|s| - 1])
  }

  function Pow10(n: nat): (r: nat)
    ensures r >= 1
  {
    if n == 0 then 1 else 10 * Pow10(n - 1)
  }

  lemma {:induction false} NaturalBelowPow10(s: string)
    requires AllDigits(s)
    ensures Natural(s) < Pow10(|s|)
  {
    if s != [] {
      NaturalBelowPow10(s[..|s| - 1]);
    }
  }

  /** The real number a literal denotes; float() rounds it to binary64. */
  function Value(d: Decimal): real
    requires d.Valid()
  {
    var m := Natural(d.whole) as real + Natural(d.frac) as real / Pow10(|d.frac|) as real;
    if d.negative then -m else m
  }

  lemma FractionBelowOne(f: real, p: real)
    requires 0.0 <= f < p
    ensures 0.0 <= f / p < 1.0
  {
  }

  /** The integer digits give the magnitude's whole part; the fraction adds less than one. */
  lemma ValueBounds(d: Decimal)
    requires d.Valid()
    ensures Natural(d.whole) as real <= (if d.negative then -Value(d) else Value(d)) < Natural(d.whole) as real + 1.0
  {
    NaturalBelowPow10(d.frac);
    FractionBelowOne(Natural(d.frac) as real, Pow10(|d.frac|) as real);
  }
}
