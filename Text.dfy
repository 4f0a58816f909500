/**
 * Python's string primitives used by the frame parser, on strings of
 * Unicode scalar values: `str.strip()`, `str.split()` (on runs of
 * whitespace) and splitting on one separator character (the `'\n'` line
 * structure that `re.MULTILINE` sees, the single spaces of a grid row).
 */
module Text {

  /** Python's `str.isspace()` for one character. */
  predicate IsSpace(c: char)
  {
    || ('\t' <= c <= '\r')
    || ('\U{1C}' <= c <= '\U{1F}')
    || c == ' '
    || c == '\U{85}'
    || c == '\U{A0}'
    || c == '\U{1680}'
    || ('\U{2000}' <= c <= '\U{200A}')
    || c == '\U{2028}'
    || c == '\U{2029}'
    || c == '\U{202F}'
    || c == '\U{205F}'
    || c == '\U{3000}'
  }

  predicate AllSpace(s: string)
  {
    forall k :: 0 <= k < |s| ==> IsSpace(s[k])
  }

  /** Neither starts nor ends with whitespace: what `strip()` leaves. */
  predicate Stripped(s: string)
  {
    s == [] || (!IsSpace(s[0]) && !IsSpace(s[|s| - 1]))
  }

  /** `str.lstrip()`: the suffix that remains after the leading whitespace. */
  function TrimStart(s: string): string
  {
    if s != [] && IsSpace(s[0]) then TrimStart(s[1..]) else s
  }

  /** `str.rstrip()`: the prefix that remains before the trailing whitespace. */
  function TrimEnd(s: string): string
  {
    if s != [] && IsSpace(s[|s| - 1]) then TrimEnd(s[..|s| - 1]) else s
  }

  /** `str.strip()`. */
  function Strip(s: string): string
  {
    TrimEnd(TrimStart(s))
  }

  /** `lstrip()` removes leading whitespace only, and all of it. */
  lemma {:induction false} TrimStartSound(s: string)
    ensures var r := TrimStart(s);
      && |r| <= |s| && r == s[|s| - |r|..]
      && (forall k :: 0 <= k < |s| - |r| ==> IsSpace(s[k]))
      && (r == [] || !IsSpace(r[0]))
    decreases |s|
  {
    if s != [] && IsSpace(s[0]) {
      TrimStartSound(s[1..]);
      var r := TrimStart(s[1..]);
      assert s[1..][|s| - 1 - |r|..] == s[|s| - |r|..];
    }
  }

  /** `rstrip()` removes trailing whitespace only, and all of it. */
  lemma {:induction false} TrimEndSound(s: string)
    ensures var r := TrimEnd(s);
      && |r| <= |s| && r == s[..|r|]
      && (forall k :: |r| <= k < |s| ==> IsSpace(s[k]))
      && (r == [] || !IsSpace(r[|r| - 1]))
    decreases |s|
  {
    if s != [] && IsSpace(s[|s| - 1]) {
      TrimEndSound(s[..|s| - 1]);
    }
  }

  /** What `strip()` leaves neither starts nor ends with whitespace. */
  lemma StripStripped(s: string)
    ensures Stripped(Strip(s))
  {
    var x := TrimStart(s);
    TrimStartSound(s);
    TrimEndSound(x);
    var r := TrimEnd(x);
    if r != [] {
      assert r[0] == x[0];
    }
  }

  /**
   * `strip()` leaves a slice of its input and removes from around it
   * nothing but whitespace.
   */
  lemma StripSlice(s: string)
    ensures |TrimStart(s)| <= |s|
    ensures var r := Strip(s); var a := |s| - |TrimStart(s)|;
      && a + |r| <= |s| && r == s[a..a + |r|]
      && (forall k :: 0 <= k < a ==> IsSpace(s[k]))
      && (forall k :: a + |r| <= k < |s| ==> IsSpace(s[k]))
  {
    var x := TrimStart(s);
    TrimStartSound(s);
    TrimEndSound(x);
    TrimEndInside(s, x, TrimEnd(x));
  }

  lemma TrimEndInside(s: string, x: string, r: string)
    requires |x| <= |s| && x == s[|s| - |x|..]
    requires |r| <= |x| && r == x[..|r|]
    requires forall k :: |r| <= k < |x| ==> IsSpace(x[k])
    ensures var a := |s| - |x|;
      && r == s[a..a + |r|]
      && forall k :: a + |r| <= k < |s| ==> IsSpace(s[k])
  {
    var a := |s| - |x|;
    forall k | a + |r| <= k < |s| ensures IsSpace(s[k]) {
      assert s[k] == x[k - a];
    }
  }

  lemma {:induction false} TrimStartAfterSpace(w: string, x: string)
    requires AllSpace(w)
    requires x == [] || !IsSpace(x[0])
    ensures TrimStart(w + x) == x
  {
    if w != [] {
      assert (w + x)[1..] == w[1..] + x;
      TrimStartAfterSpace(w[1..], x);
    } else {
      assert w + x == x;
    }
  }

  lemma {:induction false} TrimEndBeforeSpace(x: string, w: string)
    requires AllSpace(w)
    requires x == [] || !IsSpace(x[|x| - 1])
    ensures TrimEnd(x + w) == x
  {
    if w != [] {
      assert (x + w)[..|x + w| - 1] == x + w[..|w| - 1];
      TrimEndBeforeSpace(x, w[..|w| - 1]);
    } else {
      assert x + w == x;
    }
  }

  /**
   * `strip()` is characterised by what it removes: whitespace on both
   * sides, and nothing that is not whitespace.
   */
  lemma StripExactly(w1: string, r: string, w2: string)
    requires AllSpace(w1) && AllSpace(w2) && Stripped(r)
    ensures Strip(w1 + r + w2) == r
  {
    if r == [] {
      assert w1 + r + w2 == w1 + w2 + [];
      assert AllSpace(w1 + w2);
      TrimStartAfterSpace(w1 + w2, []);
    } else {
      assert w1 + r + w2 == w1 + (r + w2);
      TrimStartAfterSpace(w1, r + w2);
      TrimEndBeforeSpace(r, w2);
    }
  }

  /** A stripped line is left as it is, so stripping twice is stripping once. */
  lemma StripIdempotent(s: string)
    ensures Strip(Strip(s)) == Strip(s)
  {
    var r := Strip(s);
    StripStripped(s);
    assert [] + r + [] == r;
    StripExactly([], r, []);
  }

  // ---------------------------------------------------------------------
  // Splitting on one separator character, and joining back.

  /** A text of whole lines: empty, or ending with a line feed. */
  predicate LinesOnly(b: string)
  {
    b == [] || b[|b| - 1] == '\n'
  }

  /** `s.split(sep)` for a one-character separator: never empty, keeps empty pieces. */
  function Split(s: string, sep: char): (r: seq<string>)
    ensures |r| >= 1
  {
    if s == [] then [[]]
    else
      var rest := Split(s[1..], sep);
      if s[0] == sep then [[]] + rest
      else [[s[0]] + rest[0]] + rest[1..]
  }

  /** `sep.join(parts)` for a non-empty list of parts. */
  function Join(parts: seq<string>, sep: char): string
    requires |parts| >= 1
  {
    if |parts| == 1 then parts[0] else parts[0] + [sep] + Join(parts[1..], sep)
  }

  lemma {:induction false} SplitNoSeparator(s: string, sep: char)
    requires sep !in s
    ensures Split(s, sep) == [s]
  {
    if s != [] {
      SplitNoSeparator(s[1..], sep);
      assert [s[0]] + s[1..] == s;
    }
  }

  /** Splitting distributes over one separator occurrence. */
  lemma {:induction false} SplitAround(x: string, sep: char, y: string)
    ensures Split(x + [sep] + y, sep) == Split(x, sep) + Split(y, sep)
  {
    if x == [] {
      assert x + [sep] + y == [sep] + y;
      assert ([sep] + y)[1..] == y;
    } else {
      assert (x + [sep] + y)[1..] == x[1..] + [sep] + y;
      SplitAround(x[1..], sep, y);
    }
  }

  lemma {:induction false} SplitJoin(parts: seq<string>, sep: char)
    requires |parts| >= 1
    requires forall i :: 0 <= i < |parts| ==> sep !in parts[i]
    ensures Split(Join(parts, sep), sep) == parts
  {
    if |parts| == 1 {
      SplitNoSeparator(parts[0], sep);
    } else {
      SplitJoin(parts[1..], sep);
      SplitAround(parts[0], sep, Join(parts[1..], sep));
      SplitNoSeparator(parts[0], sep);
    }
  }

  lemma {:induction false} JoinSplit(s: string, sep: char)
    ensures Join(Split(s, sep), sep) == s
  {
    if s != [] {
      var rest := Split(s[1..], sep);
      JoinSplit(s[1..], sep);
      if s[0] == sep {
        assert ([[]] + rest)[1..] == rest;
      } else {
        var r := Split(s, sep);
        assert r[0] == [s[0]] + rest[0];
        if |rest| > 1 {
          assert r[1..] == rest[1..];
          assert Join(rest, sep) == rest[0] + [sep] + Join(rest[1..], sep);
        }
      }
    }
  }

  // ---------------------------------------------------------------------
  // `str.split()` with no argument: the maximal runs of non-whitespace.

  /** The end of the run of non-whitespace characters that starts at `i`. */
  function WordEnd(s: string, i: nat): (r: nat)
    requires i <= |s|
    ensures i <= r <= |s|
    ensures forall k :: i <= k < r ==> !IsSpace(s[k])
    ensures r == |s| || IsSpace(s[r])
    decreases |s| - i
  {
    if i < |s| && !IsSpace(s[i]) then WordEnd(s, i + 1) else i
  }

  /** `str.split()`: the whitespace-free words of `s`, in order. */
  function Words(s: string): (r: seq<string>)
    ensures forall i :: 0 <= i < |r| ==> r[i] != [] && (forall k :: 0 <= k < |r[i]| ==> !IsSpace(r[i][k]))
    decreases |s|
  {
    if s == [] then []
    else if IsSpace(s[0]) then Words(s[1..])
    else
      var k := WordEnd(s, 0);
      [s[..k]] + Words(s[k..])
  }

  predicate NoSpace(w: string)
  {
    forall k :: 0 <= k < |w| ==> !IsSpace(w[k])
  }

  /**
   * On words joined by single spaces, `split()` gives those words back.
   */
  lemma {:induction false} WordsOfJoin(parts: seq<string>)
    requires |parts| >= 1
    requires forall i :: 0 <= i < |parts| ==> parts[i] != [] && NoSpace(parts[i])
    ensures Words(Join(parts, ' ')) == parts
  {
    var s := Join(parts, ' ');
    var x := parts[0];
    assert s[..|x|] == x;
    assert forall k :: 0 <= k < |x| ==> s[k] == x[k];
    if |parts| == 1 {
      assert WordEnd(s, 0) == |x|;
      assert s[|x|..] == [];
    } else {
      var tail := Join(parts[1..], ' ');
      assert s[|x|..] == [' '] + tail;
      assert s[|x|] == ' ';
      assert WordEnd(s, 0) == |x|;
      assert ([' '] + tail)[1..] == tail;
      WordsOfJoin(parts[1..]);
    }
  }
}
