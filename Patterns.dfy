/**
 * The two scalar patterns of the frame parser, searched with `re.search`
 * over the whole text buffer:
 *
 *   PTAT: (-?\d+\.\d+) C, PEC: 0x[0-9A-Fa-f]{2}
 *   Avg Pixel Temp: (-?\d+\.\d+) C
 *
 * Both have the shape lead, literal, trail, then a fixed number of hex
 * digits; one recogniser serves both.
 */
module Patterns {
  import opened Wrappers
  import opened Text
  import opened Decimals

  datatype Scalar = Scalar(lead: string, trail: string, hexDigits: nat)
  {
    /**
     * The trail starts with a non-digit, so the literal's last digit run is
     * maximal; neither literal part holds a line feed, so no match spans two
     * lines of the buffer.
     */
    predicate WellFormed()
    {
      && |trail| >= 1
      && !IsDigit(trail[0])
      && (forall k :: 0 <= k < |lead| ==> lead[k] != '\n')
      && (forall k :: 0 <= k < |trail| ==> trail[k] != '\n')
    }
  }

  /** The PTAT reading with its packet error code, which is only checked for shape. */
  const PTAT := Scalar("PTAT: ", " C, PEC: 0x", 2)

  /** The average pixel temperature. */
  const AVG := Scalar("Avg Pixel Temp: ", " C", 0)

  lemma PtatWellFormed()
    ensures PTAT.WellFormed()
  {
  }

  lemma AvgWellFormed()
    ensures AVG.WellFormed()
  {
  }

  /** `[0-9A-Fa-f]` */
  predicate IsHexDigit(c: char)
  {
    ('0' <= c <= '9') || ('A' <= c <= 'F') || ('a' <= c <= 'f')
  }

  predicate AllHex(x: string)
  {
    forall k :: 0 <= k < |x| ==> IsHexDigit(x[k])
  }

  /** `[0-9A-Fa-f]{n}` at position `from`. */
  predicate HexRun(s: string, from: nat, n: nat)
  {
    from + n <= |s| && AllHex(s[from..from + n])
  }

  /** The literal text of a match: lead, the decimal, trail. */
  function Body(pat: Scalar, d: Decimal): string
    requires d.Valid()
  {
    pat.lead + Format(d) + pat.trail
  }

  function MatchLength(pat: Scalar, d: Decimal): nat
    requires d.Valid()
  {
    |pat.lead| + |Format(d)| + |pat.trail| + pat.hexDigits
  }

  /** The lead stands at `p`. */
  predicate LeadAt(pat: Scalar, s: string, p: nat)
  {
    p + |pat.lead| <= |s| && s[p..p + |pat.lead|] == pat.lead
  }

  /** The trail and the hex digits stand at `e`. */
  predicate TrailAt(pat: Scalar, s: string, e: nat)
  {
    e + |pat.trail| <= |s| && s[e..e + |pat.trail|] == pat.trail && HexRun(s, e + |pat.trail|, pat.hexDigits)
  }

  /** The texts `a`, `m` and `c`, then `h` hex digits, one after the other from `p`. */
  predicate PartsAt(s: string, p: nat, a: string, m: string, c: string, h: nat)
  {
    && p + |a| + |m| + |c| <= |s|
    && s[p..p + |a|] == a
    && s[p + |a|..p + |a| + |m|] == m
    && s[p + |a| + |m|..p + |a| + |m| + |c|] == c
    && HexRun(s, p + |a| + |m| + |c|, h)
  }

  /**
   * The pattern matches `s` at position `p` with the decimal `d` as its
   * group: lead, the literal, trail and hex digits, one after the other.
   */
  predicate MatchesAt(pat: Scalar, s: string, p: nat, d: Decimal)
  {
    d.Valid() && PartsAt(s, p, pat.lead, Format(d), pat.trail, pat.hexDigits)
  }

  /**
   * The attempt at `p`, given what the literal scan after the lead found:
   * the lead, a literal and the trail with its hex digits are all needed.
   */
  function MatchWith(pat: Scalar, s: string, p: nat, t: Option<(Decimal, nat)>): Option<Decimal>
  {
    if LeadAt(pat, s, p) && t.Some? && TrailAt(pat, s, t.value.1) then Some(t.value.0) else None
  }

  /** The regex engine's attempt at one position. */
  function MatchAt(pat: Scalar, s: string, p: nat): Option<Decimal>
  {
    MatchWith(pat, s, p, ScanToken(s, p + |pat.lead|))
  }

  lemma MatchWithToken(pat: Scalar, s: string, p: nat, q: nat, t: Option<(Decimal, nat)>)
    requires q == p + |pat.lead|
    requires t.Some? ==>
      var (d, e) := t.value;
      && d.Valid()
      && e == q + |Format(d)| <= |s|
      && s[q..e] == Format(d)
      && (e == |s| || !IsDigit(s[e]))
    ensures MatchWith(pat, s, p, t).Some? ==> MatchesAt(pat, s, p, MatchWith(pat, s, p, t).value)
  {
  }

  lemma MatchAtIs(pat: Scalar, s: string, p: nat, q: nat)
    requires q == p + |pat.lead|
    ensures MatchAt(pat, s, p) == MatchWith(pat, s, p, ScanToken(s, q))
  {
  }

  /** What the attempt finds is a match. */
  lemma MatchAtSound(pat: Scalar, s: string, p: nat)
    ensures MatchAt(pat, s, p).Some? ==> MatchesAt(pat, s, p, MatchAt(pat, s, p).value)
  {
    var q := p + |pat.lead|;
    ScanTokenSound(s, q);
    MatchWithToken(pat, s, p, q, ScanToken(s, q));
    MatchAtIs(pat, s, p, q);
  }

  /** A match, read piece by piece: the lead, the literal ended by a non-digit, the trail. */
  lemma MatchPieces(pat: Scalar, s: string, p: nat, d: Decimal)
    requires pat.WellFormed()
    requires MatchesAt(pat, s, p, d)
    ensures LeadAt(pat, s, p)
    ensures var q := p + |pat.lead|;
      && q + |Format(d)| < |s|
      && s[q..q + |Format(d)|] == Format(d)
      && !IsDigit(s[q + |Format(d)|])
      && TrailAt(pat, s, q + |Format(d)|)
  {
    var e := p + |pat.lead| + |Format(d)|;
    assert s[e] == pat.trail[0] by {
      assert s[e] == s[e..e + |pat.trail|][0];
    }
  }

  lemma MatchAtComplete(pat: Scalar, s: string, p: nat, d: Decimal)
    requires pat.WellFormed()
    requires MatchesAt(pat, s, p, d)
    ensures MatchAt(pat, s, p) == Some(d)
  {
    MatchPieces(pat, s, p, d);
    MatchAtFromPieces(pat, s, p, d);
  }

  lemma MatchAtFromPieces(pat: Scalar, s: string, p: nat, d: Decimal)
    requires d.Valid()
    requires LeadAt(pat, s, p)
    requires var q := p + |pat.lead|;
      && q + |Format(d)| < |s|
      && s[q..q + |Format(d)|] == Format(d)
      && !IsDigit(s[q + |Format(d)|])
      && TrailAt(pat, s, q + |Format(d)|)
    ensures MatchAt(pat, s, p) == Some(d)
  {
    var q := p + |pat.lead|;
    ScanFinds(s, q, d);
    MatchAtFromScan(pat, s, p, d, q + |Format(d)|);
  }

  lemma MatchAtFromScan(pat: Scalar, s: string, p: nat, d: Decimal, e: nat)
    requires LeadAt(pat, s, p)
    requires ScanToken(s, p + |pat.lead|) == Some((d, e))
    requires TrailAt(pat, s, e)
    ensures MatchAt(pat, s, p) == Some(d)
  {
    assert MatchWith(pat, s, p, Some((d, e))) == Some(d);
  }

  /** The attempt at `p` succeeds with `d` exactly when the pattern matches there with `d`. */
  lemma MatchAtExactly(pat: Scalar, s: string, p: nat, d: Decimal)
    requires pat.WellFormed()
    ensures MatchAt(pat, s, p) == Some(d) <==> MatchesAt(pat, s, p, d)
  {
    if MatchAt(pat, s, p) == Some(d) {
      MatchAtSound(pat, s, p);
    }
    if MatchesAt(pat, s, p, d) {
      MatchAtComplete(pat, s, p, d);
    }
  }

  /** At most one decimal matches at a position. */
  lemma MatchUnique(pat: Scalar, s: string, p: nat, d1: Decimal, d2: Decimal)
    requires pat.WellFormed()
    requires MatchesAt(pat, s, p, d1) && MatchesAt(pat, s, p, d2)
    ensures d1 == d2
  {
    MatchAtExactly(pat, s, p, d1);
    MatchAtExactly(pat, s, p, d2);
  }

  /** `re.search` from position `from` on: the leftmost match and its group. */
  function FindFrom(pat: Scalar, s: string, from: nat): Option<(nat, Decimal)>
    decreases |s| - from
  {
    if from > |s| then None
    else
      match MatchAt(pat, s, from)
      case Some(d) => Some((from, d))
      case None => FindFrom(pat, s, from + 1)
  }

  /** `re.search(pattern, s).group(1)`, or None when nothing matches. */
  function Find(pat: Scalar, s: string): Option<Decimal>
  {
    match FindFrom(pat, s, 0)
    case Some((_, d)) => Some(d)
    case None => None
  }

  /** The match at `p` with `d` is the leftmost one in `s`. */
  ghost predicate FirstMatch(pat: Scalar, s: string, p: nat, d: Decimal)
  {
    MatchesAt(pat, s, p, d) && forall q: nat, d': Decimal :: q < p ==> !MatchesAt(pat, s, q, d')
  }

  ghost predicate NoMatch(pat: Scalar, s: string)
  {
    forall q: nat, d: Decimal :: !MatchesAt(pat, s, q, d)
  }

  lemma NothingAt(pat: Scalar, s: string, p: nat)
    requires pat.WellFormed()
    requires MatchAt(pat, s, p).None?
    ensures forall d: Decimal :: !MatchesAt(pat, s, p, d)
  {
    forall d: Decimal ensures !MatchesAt(pat, s, p, d) {
      MatchAtExactly(pat, s, p, d);
    }
  }

  /** No match starts in `[from, to)`. */
  ghost predicate NoMatchIn(pat: Scalar, s: string, from: nat, to: nat)
  {
    forall q: nat, d: Decimal :: from <= q < to ==> !MatchesAt(pat, s, q, d)
  }

  lemma NoMatchInExtend(pat: Scalar, s: string, from: nat, to: nat)
    requires forall d: Decimal :: !MatchesAt(pat, s, from, d)
    requires NoMatchIn(pat, s, from + 1, to)
    ensures NoMatchIn(pat, s, from, to)
  {
    forall q: nat, d: Decimal | from <= q < to ensures !MatchesAt(pat, s, q, d) {
      if q > from {
        assert from + 1 <= q < to;
      }
    }
  }

  lemma FindFromHere(pat: Scalar, s: string, from: nat)
    requires from <= |s| && MatchAt(pat, s, from).Some?
    ensures FindFrom(pat, s, from) == Some((from, MatchAt(pat, s, from).value))
  {
  }

  lemma FindFromSkip(pat: Scalar, s: string, from: nat)
    requires from <= |s| && MatchAt(pat, s, from).None?
    ensures FindFrom(pat, s, from) == FindFrom(pat, s, from + 1)
  {
  }

  /**
   * `r` is what a leftmost search from `from` must report: the first match
   * at or after `from`, or nothing when no match starts there or later.
   */
  ghost predicate Leftmost(pat: Scalar, s: string, from: nat, r: Option<(nat, Decimal)>)
  {
    if r.Some? then
      from <= r.value.0 && MatchesAt(pat, s, r.value.0, r.value.1) && NoMatchIn(pat, s, from, r.value.0)
    else NoMatchIn(pat, s, from, |s| + 1)
  }

  lemma LeftmostHere(pat: Scalar, s: string, from: nat, d: Decimal)
    requires MatchesAt(pat, s, from, d)
    ensures Leftmost(pat, s, from, Some((from, d)))
  {
  }

  lemma LeftmostExtend(pat: Scalar, s: string, from: nat, r: Option<(nat, Decimal)>)
    requires forall d: Decimal :: !MatchesAt(pat, s, from, d)
    requires Leftmost(pat, s, from + 1, r)
    ensures Leftmost(pat, s, from, r)
  {
    if r.Some? {
      NoMatchInExtend(pat, s, from, r.value.0);
    } else {
      NoMatchInExtend(pat, s, from, |s| + 1);
    }
  }

  lemma FindFromPastEnd(pat: Scalar, s: string, from: nat)
    requires from > |s|
    ensures FindFrom(pat, s, from) == None
    ensures Leftmost(pat, s, from, None)
  {
  }

  /** The search from `from` reports the leftmost match from `from` on. */
  lemma {:induction false} FindFromLeftmost(pat: Scalar, s: string, from: nat)
    requires pat.WellFormed()
    ensures Leftmost(pat, s, from, FindFrom(pat, s, from))
    decreases |s| - from
  {
    if from > |s| {
      FindFromPastEnd(pat, s, from);
    } else if MatchAt(pat, s, from).Some? {
      MatchAtSound(pat, s, from);
      FindFromHere(pat, s, from);
      LeftmostHere(pat, s, from, MatchAt(pat, s, from).value);
    } else {
      FindFromSkip(pat, s, from);
      NothingAt(pat, s, from);
      FindFromLeftmost(pat, s, from + 1);
      LeftmostExtend(pat, s, from, FindFrom(pat, s, from + 1));
    }
  }

  /** A match needs room, so none starts beyond the end. */
  lemma NoMatchPastEnd(pat: Scalar, s: string)
    ensures forall q: nat, d: Decimal :: q > |s| ==> !MatchesAt(pat, s, q, d)
  {
  }

  /** The search reports the leftmost match, and nothing only when there is no match. */
  lemma FindFirst(pat: Scalar, s: string)
    requires pat.WellFormed()
    ensures FindFrom(pat, s, 0).Some? ==> FirstMatch(pat, s, FindFrom(pat, s, 0).value.0, FindFrom(pat, s, 0).value.1)
    ensures FindFrom(pat, s, 0).None? <==> NoMatch(pat, s)
  {
    FindFromLeftmost(pat, s, 0);
    NoMatchPastEnd(pat, s);
  }

  /** Conversely, the leftmost match is what the search reports. */
  lemma FirstMatchFound(pat: Scalar, s: string, p: nat, d: Decimal)
    requires pat.WellFormed()
    requires FirstMatch(pat, s, p, d)
    ensures FindFrom(pat, s, 0) == Some((p, d))
    ensures Find(pat, s) == Some(d)
  {
    FindFromLeftmost(pat, s, 0);
    var (p', d') := FindFrom(pat, s, 0).value;
    assert !(p' < p);
    assert !(p < p');
    MatchUnique(pat, s, p, d, d');
  }

  // ---------------------------------------------------------------------
  // Matches and line structure.

  /** A match never covers a line feed. */
  lemma MatchHasNoLineFeed(pat: Scalar, s: string, p: nat, d: Decimal, k: nat)
    requires pat.WellFormed()
    ensures MatchesAt(pat, s, p, d) && p <= k < p + MatchLength(pat, d) ==> s[k] != '\n'
  {
    if MatchesAt(pat, s, p, d) && p <= k < p + MatchLength(pat, d) {
      var q := p + |pat.lead|;
      var e := q + |Format(d)|;
      var t := e + |pat.trail|;
      if k < q {
        assert s[k] == s[p..q][k - p];
      } else if k < e {
        FormatChars(d);
        assert s[k] == s[q..e][k - q];
      } else if k < t {
        assert s[k] == s[e..t][k - e];
      } else {
        assert s[k] == s[t..t + pat.hexDigits][k - t];
      }
    }
  }

  lemma PartsInPrefix(b: string, y: string, p: nat, a: string, m: string, c: string, h: nat)
    requires p + |a| + |m| + |c| + h <= |b|
    ensures PartsAt(b + y, p, a, m, c, h) <==> PartsAt(b, p, a, m, c, h)
  {
    var s := b + y;
    var q := p + |a|;
    var e := q + |m|;
    var t := e + |c|;
    assert s[p..q] == b[p..q];
    assert s[q..e] == b[q..e];
    assert s[e..t] == b[e..t];
    assert s[t..t + h] == b[t..t + h];
  }

  lemma ShiftSlice(s: string, d: nat, y: string, i: nat, j: nat)
    requires d <= |s| && s[d..] == y
    requires i <= j <= |y|
    ensures s[d + i..d + j] == y[i..j]
  {
    assert s[d + i..d + j] == s[d..][i..j];
  }

  /** Whether the parts stand at a position depends only on the text from there on. */
  lemma PartsShifted(s: string, d: nat, y: string, p: nat, a: string, m: string, c: string, h: nat)
    requires d <= |s| && s[d..] == y
    ensures PartsAt(s, d + p, a, m, c, h) <==> PartsAt(y, p, a, m, c, h)
  {
    var q := p + |a|;
    var e := q + |m|;
    var t := e + |c|;
    if t <= |y| {
      ShiftSlice(s, d, y, p, q);
      ShiftSlice(s, d, y, q, e);
      ShiftSlice(s, d, y, e, t);
      if t + h <= |y| {
        ShiftSlice(s, d, y, t, t + h);
      }
    }
  }

  lemma PartsInSuffix(b: string, y: string, p: nat, a: string, m: string, c: string, h: nat)
    ensures PartsAt(b + y, |b| + p, a, m, c, h) <==> PartsAt(y, p, a, m, c, h)
  {
    assert (b + y)[|b|..] == y;
    PartsShifted(b + y, |b|, y, p, a, m, c, h);
  }

  lemma MatchInPrefix(pat: Scalar, b: string, y: string, p: nat, d: Decimal)
    requires d.Valid()
    requires p + MatchLength(pat, d) <= |b|
    ensures MatchesAt(pat, b + y, p, d) <==> MatchesAt(pat, b, p, d)
  {
    PartsInPrefix(b, y, p, pat.lead, Format(d), pat.trail, pat.hexDigits);
  }

  lemma MatchInSuffix(pat: Scalar, b: string, y: string, p: nat, d: Decimal)
    requires d.Valid()
    ensures MatchesAt(pat, b + y, |b| + p, d) <==> MatchesAt(pat, y, p, d)
  {
    PartsInSuffix(b, y, p, pat.lead, Format(d), pat.trail, pat.hexDigits);
  }

  /** No match of `b + y` starts in `b` and ends in `y`, when `b` ends with a line feed. */
  lemma NoMatchAcross(pat: Scalar, b: string, y: string, q: nat, d: Decimal)
    requires pat.WellFormed() && LinesOnly(b)
    requires q < |b|
    requires MatchesAt(pat, b + y, q, d)
    ensures MatchesAt(pat, b, q, d)
  {
    assert (b + y)[|b| - 1] == '\n';
    MatchHasNoLineFeed(pat, b + y, q, d, |b| - 1);
    MatchInPrefix(pat, b, y, q, d);
  }

  /** The matches of `b + y`: those of `b`, and those of `y` moved by `|b|`. */
  lemma MatchInAppended(pat: Scalar, b: string, y: string, q: nat, d: Decimal)
    requires pat.WellFormed() && LinesOnly(b)
    ensures MatchesAt(pat, b + y, q, d) <==>
      if q < |b| then MatchesAt(pat, b, q, d) else MatchesAt(pat, y, q - |b|, d)
  {
    if q < |b| {
      if MatchesAt(pat, b + y, q, d) {
        NoMatchAcross(pat, b, y, q, d);
      }
      if MatchesAt(pat, b, q, d) {
        MatchInPrefix(pat, b, y, q, d);
      }
    } else if d.Valid() {
      MatchInSuffix(pat, b, y, q - |b|, d);
    }
  }

  lemma FindKeepsEarlier(pat: Scalar, b: string, y: string)
    requires pat.WellFormed() && LinesOnly(b)
    requires FindFrom(pat, b, 0).Some?
    ensures FindFrom(pat, b + y, 0) == FindFrom(pat, b, 0)
  {
    FindFirst(pat, b);
    var (p, d) := FindFrom(pat, b, 0).value;
    forall q: nat, d': Decimal | q <= p ensures MatchesAt(pat, b + y, q, d') <==> MatchesAt(pat, b, q, d') {
      MatchInAppended(pat, b, y, q, d');
    }
    FirstMatchFound(pat, b + y, p, d);
  }

  lemma FindInAppendedText(pat: Scalar, b: string, y: string)
    requires pat.WellFormed() && LinesOnly(b)
    requires FindFrom(pat, b, 0).None?
    ensures Find(pat, b + y) == Find(pat, y)
  {
    FindFirst(pat, b);
    FindFirst(pat, y);
    FindFirst(pat, b + y);
    forall q: nat, d': Decimal
      ensures MatchesAt(pat, b + y, q, d') <==> q >= |b| && MatchesAt(pat, y, q - |b|, d')
    {
      MatchInAppended(pat, b, y, q, d');
    }
    if FindFrom(pat, y, 0).Some? {
      var (p, d) := FindFrom(pat, y, 0).value;
      forall q: nat, d': Decimal | q < |b| + p ensures !MatchesAt(pat, b + y, q, d') {
        if q >= |b| {
          assert !MatchesAt(pat, y, q - |b|, d');
        }
      }
      FirstMatchFound(pat, b + y, |b| + p, d);
    }
  }

  /**
   * Appending to a buffer of whole lines: the search of the longer buffer
   * finds the first match of the old buffer if it had one, and otherwise
   * the first match of what was appended.
   */
  lemma FindAfterLines(pat: Scalar, b: string, y: string)
    requires pat.WellFormed() && LinesOnly(b)
    ensures Find(pat, b + y) == if Find(pat, b).Some? then Find(pat, b) else Find(pat, y)
  {
    if FindFrom(pat, b, 0).Some? {
      FindKeepsEarlier(pat, b, y);
    } else {
      FindInAppendedText(pat, b, y);
    }
  }

  /** A match spells out the lead where it starts. */
  lemma MatchSpellsLead(pat: Scalar, s: string, q: nat, d: Decimal, i: nat)
    requires i < |pat.lead|
    ensures MatchesAt(pat, s, q, d) ==> q + i < |s| && s[q + i] == pat.lead[i]
  {
    if MatchesAt(pat, s, q, d) {
      var body := Body(pat, d);
      assert body[i] == pat.lead[i];
      assert s[q..q + |body|][i] == s[q + i];
    }
  }

  /** A text without the character `c` of the lead has no match. */
  lemma NoMatchWithout(pat: Scalar, s: string, c: char)
    requires pat.WellFormed()
    requires c in pat.lead
    requires c !in s
    ensures Find(pat, s) == None
  {
    FindFirst(pat, s);
    var i :| 0 <= i < |pat.lead| && pat.lead[i] == c;
    forall q: nat, d: Decimal ensures !MatchesAt(pat, s, q, d) {
      MatchSpellsLead(pat, s, q, d, i);
    }
  }

  // ---------------------------------------------------------------------
  // The lines the sensor sends.

  /** `PTAT: <d> C, PEC: 0x<h1><h2>` */
  function PtatLine(d: Decimal, h1: char, h2: char): string
    requires d.Valid()
  {
    Body(PTAT, d) + [h1, h2]
  }

  /** `Avg Pixel Temp: <d> C` */
  function AvgLine(d: Decimal): string
    requires d.Valid()
  {
    Body(AVG, d)
  }

  /** A match at the very start of the text is the leftmost one. */
  lemma MatchAtStart(pat: Scalar, s: string, d: Decimal)
    requires pat.WellFormed()
    requires MatchesAt(pat, s, 0, d)
    ensures Find(pat, s) == Some(d)
  {
    FirstMatchFound(pat, s, 0, d);
  }

  /** Texts laid end to end stand one after the other from the start. */
  lemma PartsAtStart(a: string, m: string, c: string, x: string, rest: string)
    requires AllHex(x)
    ensures PartsAt(a + m + c + x + rest, 0, a, m, c, |x|)
  {
    var s := a + m + c + x + rest;
    assert s[0..|a|] == a;
    assert s[|a|..|a| + |m|] == m;
    assert s[|a| + |m|..|a| + |m| + |c|] == c;
    assert s[|a| + |m| + |c|..|a| + |m| + |c| + |x|] == x;
  }

  lemma PtatLineMatches(d: Decimal, h1: char, h2: char, rest: string)
    requires d.Valid() && IsHexDigit(h1) && IsHexDigit(h2)
    ensures MatchesAt(PTAT, PtatLine(d, h1, h2) + rest, 0, d)
  {
    assert PtatLine(d, h1, h2) + rest == PTAT.lead + Format(d) + PTAT.trail + [h1, h2] + rest;
    PartsAtStart(PTAT.lead, Format(d), PTAT.trail, [h1, h2], rest);
  }

  /**
   * A PTAT line yields its reading whatever the two PEC hex digits are and
   * whatever follows them: the code is checked for shape only, with no end anchor.
   */
  lemma PtatLineFound(d: Decimal, h1: char, h2: char, rest: string)
    requires d.Valid() && IsHexDigit(h1) && IsHexDigit(h2)
    ensures Find(PTAT, PtatLine(d, h1, h2) + rest) == Some(d)
  {
    PtatLineMatches(d, h1, h2, rest);
    PtatWellFormed();
    MatchAtStart(PTAT, PtatLine(d, h1, h2) + rest, d);
  }

  lemma AvgLineMatches(d: Decimal, rest: string)
    requires d.Valid()
    ensures MatchesAt(AVG, AvgLine(d) + rest, 0, d)
  {
    assert AvgLine(d) + rest == AVG.lead + Format(d) + AVG.trail + [] + rest;
    PartsAtStart(AVG.lead, Format(d), AVG.trail, [], rest);
  }

  /** An average-temperature line yields its reading, whatever follows. */
  lemma AvgLineFound(d: Decimal, rest: string)
    requires d.Valid()
    ensures Find(AVG, AvgLine(d) + rest) == Some(d)
  {
    AvgLineMatches(d, rest);
    AvgWellFormed();
    MatchAtStart(AVG, AvgLine(d) + rest, d);
  }

  lemma NoVInPtatLine(d: Decimal, h1: char, h2: char)
    requires d.Valid() && IsHexDigit(h1) && IsHexDigit(h2)
    ensures 'v' !in PtatLine(d, h1, h2) + "\n"
  {
    var f := Format(d);
    FormatChars(d);
    assert 'v' !in f;
    assert PtatLine(d, h1, h2) + "\n" == PTAT.lead + f + PTAT.trail + ([h1, h2] + "\n");
  }

  /** Without a `v` there is no average reading. */
  lemma NoAvgWithoutV(s: string)
    requires 'v' !in s
    ensures Find(AVG, s) == None
  {
    assert AVG.lead[1] == 'v';
    AvgWellFormed();
    NoMatchWithout(AVG, s, 'v');
  }

  /** A PTAT line has no `v`, so no average reading is found in it. */
  lemma NoAvgInPtatLine(d: Decimal, h1: char, h2: char)
    requires d.Valid() && IsHexDigit(h1) && IsHexDigit(h2)
    ensures Find(AVG, PtatLine(d, h1, h2) + "\n") == None
  {
    NoVInPtatLine(d, h1, h2);
    NoAvgWithoutV(PtatLine(d, h1, h2) + "\n");
  }
}
