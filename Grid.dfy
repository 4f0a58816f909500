/**
 * The pixel-row pattern of the frame parser,
 *
 *   ^(-?\d+\.\d+(?: -?\d+\.\d+){31})$      with re.MULTILINE,
 *
 * collected with `re.findall` over the whole text buffer. The pattern holds
 * no line feed and is anchored at both line ends, so its matches are exactly
 * the buffer's lines, in order, that consist of 32 literals separated by
 * single spaces.
 */
module Grid {
  import opened Wrappers
  import opened Text
  import opened Decimals

  /** Rows per frame and literals per row. */
  const GRID_SIZE: nat := 32

  predicate AllValid(ds: seq<Decimal>)
  {
    forall i :: 0 <= i < |ds| ==> ds[i].Valid()
  }

  /** The literal texts of a row of decimals. */
  function Texts(ds: seq<Decimal>): seq<string>
    requires AllValid(ds)
  {
    seq(|ds|, i requires 0 <= i < |ds| => Format(ds[i]))
  }

  /** A row as the sensor writes it: the literals joined by single spaces. */
  function FormatRow(ds: seq<Decimal>): string
    requires |ds| >= 1 && AllValid(ds)
  {
    Join(Texts(ds), ' ')
  }

  /** Recognises a grid row and reads off its literals. */
  function ParseRow(line: string): Option<seq<Decimal>>
  {
    var pieces := Split(line, ' ');
    if |pieces| == GRID_SIZE then ParseTokens(pieces) else None
  }

  lemma TextsHaveNoSpace(ds: seq<Decimal>)
    requires AllValid(ds)
    ensures forall i :: 0 <= i < |ds| ==> ' ' !in Texts(ds)[i]
    ensures forall i :: 0 <= i < |ds| ==> Texts(ds)[i] != [] && NoSpace(Texts(ds)[i])
  {
    forall i | 0 <= i < |ds|
      ensures ' ' !in Texts(ds)[i] && Texts(ds)[i] != [] && NoSpace(Texts(ds)[i])
    {
      FormatChars(ds[i]);
    }
  }

  lemma ParseRowSound(line: string, ds: seq<Decimal>)
    requires ParseRow(line) == Some(ds)
    ensures |ds| == GRID_SIZE && AllValid(ds) && FormatRow(ds) == line
  {
    var pieces := Split(line, ' ');
    forall i | 0 <= i < |ds| ensures ds[i].Valid() && Format(ds[i]) == pieces[i] {
      ParseTokenExactly(pieces[i], ds[i]);
    }
    assert Texts(ds) == pieces;
    JoinSplit(line, ' ');
  }

  /** The literal texts of decimals parse back to those decimals. */
  lemma ParseTexts(ds: seq<Decimal>)
    requires AllValid(ds)
    ensures ParseTokens(Texts(ds)) == Some(ds)
  {
    forall i | 0 <= i < |ds| ensures ParseToken(Texts(ds)[i]) == Some(ds[i]) {
      ParseFormat(ds[i]);
    }
    var r := ParseTokens(Texts(ds));
    assert r.Some?;
    assert r.value == ds;
  }

  lemma SplitRow(ds: seq<Decimal>)
    requires |ds| >= 1 && AllValid(ds)
    ensures Split(FormatRow(ds), ' ') == Texts(ds)
  {
    TextsHaveNoSpace(ds);
    SplitJoin(Texts(ds), ' ');
  }

  lemma ParseFormatRow(ds: seq<Decimal>)
    requires |ds| == GRID_SIZE && AllValid(ds)
    ensures ParseRow(FormatRow(ds)) == Some(ds)
  {
    SplitRow(ds);
    ParseTexts(ds);
  }

  /**
   * A line is a grid row exactly when it is 32 literals joined by single
   * spaces; the literals read off are those literals.
   */
  lemma ParseRowExactly(line: string, ds: seq<Decimal>)
    ensures ParseRow(line) == Some(ds) <==>
      |ds| == GRID_SIZE && AllValid(ds) && FormatRow(ds) == line
  {
    if ParseRow(line) == Some(ds) {
      ParseRowSound(line, ds);
    }
    if |ds| == GRID_SIZE && AllValid(ds) && FormatRow(ds) == line {
      ParseFormatRow(ds);
    }
  }

  /**
   * `split()` of a grid row yields its 32 literals, every one of which
   * converts: the `len(row_data) == 32` test always holds and no
   * conversion error can arise from a row.
   */
  lemma RowWordsConvert(line: string, ds: seq<Decimal>)
    requires ParseRow(line) == Some(ds)
    ensures |Words(line)| == GRID_SIZE
    ensures ParseTokens(Words(line)) == Some(ds)
  {
    ParseRowSound(line, ds);
    WordsOfRow(ds);
    ParseTexts(ds);
  }

  lemma WordsOfRow(ds: seq<Decimal>)
    requires |ds| >= 1 && AllValid(ds)
    ensures Words(FormatRow(ds)) == Texts(ds)
  {
    TextsHaveNoSpace(ds);
    WordsOfJoin(Texts(ds));
  }

  /** A row starts with a digit or `-` and ends with a digit; it has no line feed. */
  lemma {:induction false} RowShape(ds: seq<Decimal>)
    requires |ds| >= 1 && AllValid(ds)
    ensures var r := FormatRow(ds);
      && r != []
      && (IsDigit(r[0]) || r[0] == '-')
      && IsDigit(r[|r| - 1])
      && forall k :: 0 <= k < |r| ==> IsTokenChar(r[k]) || r[k] == ' '
    decreases |ds|
  {
    var r := FormatRow(ds);
    var f := Format(ds[0]);
    FormatChars(ds[0]);
    if |ds| > 1 {
      assert Texts(ds)[1..] == Texts(ds[1..]);
      var tail := FormatRow(ds[1..]);
      RowShape(ds[1..]);
      assert r == f + [' '] + tail;
      forall k | 0 <= k < |r| ensures IsTokenChar(r[k]) || r[k] == ' ' {
        if k < |f| {
          assert r[k] == f[k];
        } else if k > |f| {
          assert r[k] == tail[k - |f| - 1];
        }
      }
    }
  }

  // ---------------------------------------------------------------------
  // re.findall over the buffer.

  /** What one line contributes to the matches: itself when it is a row. */
  function RowOrNothing(line: string): seq<string>
  {
    if ParseRow(line).Some? then [line] else []
  }

  function KeepRows(lines: seq<string>): seq<string>
  {
    if lines == [] then [] else RowOrNothing(lines[0]) + KeepRows(lines[1..])
  }

  /** What is kept is a row, and every row is kept. */
  lemma {:induction false} KeepRowsExactly(lines: seq<string>)
    ensures forall i :: 0 <= i < |KeepRows(lines)| ==> ParseRow(KeepRows(lines)[i]).Some?
    ensures forall l :: l in lines && ParseRow(l).Some? ==> l in KeepRows(lines)
  {
    if lines != [] {
      KeepRowsExactly(lines[1..]);
      var r := KeepRows(lines);
      var rest := KeepRows(lines[1..]);
      assert r == RowOrNothing(lines[0]) + rest;
      forall i | 0 <= i < |r| ensures ParseRow(r[i]).Some? {
        if i >= |RowOrNothing(lines[0])| {
          assert r[i] == rest[i - |RowOrNothing(lines[0])|];
        }
      }
      forall l | l in lines && ParseRow(l).Some? ensures l in r {
        if l != lines[0] {
          assert l in lines[1..];
        }
      }
    }
  }

  /** The whole-line matches of the row pattern in the buffer, in order. */
  function GridLines(text: string): seq<string>
  {
    KeepRows(Split(text, '\n'))
  }

  /** `findall` returns rows only, and every line of the buffer that is a row. */
  lemma GridLinesExactly(text: string)
    ensures forall i :: 0 <= i < |GridLines(text)| ==> ParseRow(GridLines(text)[i]).Some?
    ensures forall l :: l in Split(text, '\n') && ParseRow(l).Some? ==> l in GridLines(text)
  {
    KeepRowsExactly(Split(text, '\n'));
  }

  lemma {:induction false} KeepRowsAppend(a: seq<string>, b: seq<string>)
    ensures KeepRows(a + b) == KeepRows(a) + KeepRows(b)
  {
    if a != [] {
      assert (a + b)[0] == a[0];
      assert (a + b)[1..] == a[1..] + b;
      KeepRowsAppend(a[1..], b);
      assert KeepRows(a + b) == RowOrNothing(a[0]) + KeepRows(a[1..] + b);
    } else {
      assert a + b == b;
    }
  }

  lemma EmptyIsNoRow()
    ensures ParseRow([]).None?
  {
  }

  /**
   * The rows of a buffer of whole lines followed by more text are its own
   * rows followed by those of the new text: a row counts wherever it stands.
   */
  lemma GridLinesAfterLines(b: string, y: string)
    requires LinesOnly(b)
    ensures GridLines(b + y) == GridLines(b) + GridLines(y)
  {
    EmptyIsNoRow();
    assert KeepRows([[]]) == [];
    if b == [] {
      assert b + y == y;
    } else {
      var b' := b[..|b| - 1];
      var front := Split(b', '\n');
      assert b == b' + ['\n'] + [];
      assert b + y == b' + ['\n'] + y;
      SplitAround(b', '\n', y);
      SplitAround(b', '\n', []);
      assert Split(b, '\n') == front + [[]];
      KeepRowsAppend(front, Split(y, '\n'));
      KeepRowsAppend(front, [[]]);
    }
  }

  /** One line and its line feed contribute that line exactly when it is a row. */
  lemma GridLinesOfLine(l: string)
    requires '\n' !in l
    ensures GridLines(l + "\n") == if ParseRow(l).Some? then [l] else []
  {
    assert l + "\n" == l + ['\n'] + [];
    SplitAround(l, '\n', []);
    SplitNoSeparator(l, '\n');
    assert Split(l + "\n", '\n') == [l] + [[]];
    KeepRowsAppend([l], [[]]);
    EmptyIsNoRow();
  }
}
