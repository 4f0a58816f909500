/**
 * `parse_uart_data`: the loop that reads lines from the sensor's UART,
 * accumulates them in a text buffer and returns the first complete frame.
 *
 * The serial port is replaced by the sequence of lines its `readline()`
 * delivers (already decoded); running out of lines is the expiry of
 * PARSE_TIMEOUT. `Step` is one iteration of the loop, `Feed` the loop,
 * `ParseUart` the function; `ParseUartData` is the loop itself,
 * proved against `ParseUart`.
 */
module UartParser {
  import opened Wrappers
  import opened Text
  import opened Decimals
  import opened Patterns
  import opened Grid

  /** The buffer is cleared when it grows beyond this many characters. */
  const MAX_BUFFER: nat := 10000

  /** A parsed frame: the two readings and 32 rows of 32 pixel literals. */
  datatype Frame = Frame(ptat: Decimal, avgTemp: Decimal, rows: seq<seq<Decimal>>)

  /** The loop's variables `buffer`, `ptat` and `avg_temp`. */
  datatype State = State(buffer: string, ptat: Option<Decimal>, avgTemp: Option<Decimal>)

  /** What one iteration does: return a frame, or go round again. */
  datatype Outcome = Emit(frame: Frame) | Continue(next: State)

  const Initial: State := State([], None, None)

  /** The first 32 rows of the buffer, read off. */
  function FirstRows(grid: seq<string>): seq<seq<Decimal>>
    requires |grid| >= GRID_SIZE
    requires forall i :: 0 <= i < |grid| ==> ParseRow(grid[i]).Some?
  {
    seq(GRID_SIZE, i requires 0 <= i < GRID_SIZE => ParseRow(grid[i]).value)
  }

  /**
   * The two searches on the buffer `buffer`: a reading is replaced when
   * its pattern matches, and kept otherwise.
   */
  function Search(st: State, buffer: string): State
  {
    State(buffer, Latest(Find(PTAT, buffer), st.ptat), Latest(Find(AVG, buffer), st.avgTemp))
  }

  /** `buffer += line + "\n"` and the two searches that follow it. */
  function Absorb(st: State, line: string): State
  {
    Search(st, st.buffer + (line + "\n"))
  }

  /** Both readings known and at least 32 rows in the buffer. */
  predicate Ready(st: State)
  {
    st.ptat.Some? && st.avgTemp.Some? && |GridLines(st.buffer)| >= GRID_SIZE
  }

  function FrameOf(st: State): Frame
    requires Ready(st)
  {
    GridLinesExactly(st.buffer);
    Frame(st.ptat.value, st.avgTemp.value, FirstRows(GridLines(st.buffer)))
  }

  /**
   * The tests that end an iteration: the frame comes out once both readings
   * are known and 32 rows are in the buffer; otherwise a buffer longer than
   * MAX_BUFFER characters is cleared.
   */
  function Conclude(next: State): Outcome
  {
    if Ready(next) then Emit(FrameOf(next))
    else if |next.buffer| > MAX_BUFFER then Continue(next.(buffer := []))
    else Continue(next)
  }

  /** One iteration of the loop on the line `raw` that `readline()` returned. */
  function Step(st: State, raw: string): Outcome
  {
    var line := Strip(raw);
    if line == [] then Continue(st) else Conclude(Absorb(st, line))
  }

  /** The loop over the lines that arrive before the timeout; it stops at the first frame. */
  function Feed(st: State, lines: seq<string>): Outcome
    decreases |lines|
  {
    if lines == [] then Continue(st)
    else
      match Step(st, lines[0])
      case Emit(f) => Emit(f)
      case Continue(next) => Feed(next, lines[1..])
  }

  /** `parse_uart_data`: a frame, or None (Python's `(None, None, None)`) on timeout. */
  function ParseUart(lines: seq<string>): Option<Frame>
  {
    match Feed(Initial, lines)
    case Emit(f) => Some(f)
    case Continue(_) => None
  }

  // ---------------------------------------------------------------------
  // One iteration, unfolded.

  lemma StepLine(st: State, raw: string)
    requires Strip(raw) != []
    ensures Step(st, raw) == Conclude(Absorb(st, Strip(raw)))
  {
  }

  lemma StepEmits(st: State, raw: string)
    requires Step(st, raw).Emit?
    ensures Strip(raw) != [] && Ready(Absorb(st, Strip(raw)))
    ensures Step(st, raw) == Emit(FrameOf(Absorb(st, Strip(raw))))
  {
  }

  lemma StepContinues(st: State, raw: string)
    requires Step(st, raw).Continue?
    ensures var line := Strip(raw); var n := Absorb(st, line);
      if line == [] then Step(st, raw).next == st
      else !Ready(n) && Step(st, raw).next == (if |n.buffer| > MAX_BUFFER then n.(buffer := []) else n)
  {
  }

  lemma ConcludeReady(n: State)
    requires Ready(n)
    ensures Conclude(n) == Emit(FrameOf(n))
  {
  }

  lemma ConcludeWaits(n: State)
    requires !Ready(n)
    ensures Conclude(n) == Continue(if |n.buffer| > MAX_BUFFER then n.(buffer := []) else n)
  {
  }

  lemma FeedEmit(st: State, lines: seq<string>, f: Frame)
    requires lines != [] && Step(st, lines[0]) == Emit(f)
    ensures Feed(st, lines) == Emit(f)
  {
  }

  lemma FeedContinue(st: State, lines: seq<string>, next: State)
    requires lines != [] && Step(st, lines[0]) == Continue(next)
    ensures Feed(st, lines) == Feed(next, lines[1..])
  {
  }

  lemma ParseUartEmit(lines: seq<string>, f: Frame)
    requires Feed(Initial, lines) == Emit(f)
    ensures ParseUart(lines) == Some(f)
  {
  }

  lemma ParseUartContinue(lines: seq<string>, st: State)
    requires Feed(Initial, lines) == Continue(st)
    ensures ParseUart(lines) == None
  {
  }

  // ---------------------------------------------------------------------
  // Invariants of the loop.

  predicate ValidReading(r: Option<Decimal>)
  {
    r.Some? ==> r.value.Valid()
  }

  /**
   * The readings agree with the first match in the current buffer whenever
   * the buffer has one; they keep their earlier values otherwise.
   */
  predicate Consistent(st: State)
  {
    && (Find(PTAT, st.buffer).Some? ==> st.ptat == Find(PTAT, st.buffer))
    && (Find(AVG, st.buffer).Some? ==> st.avgTemp == Find(AVG, st.buffer))
  }

  /** What holds at the top of every iteration. */
  predicate Inv(st: State)
  {
    && |st.buffer| <= MAX_BUFFER
    && LinesOnly(st.buffer)
    && ValidReading(st.ptat)
    && ValidReading(st.avgTemp)
    && Consistent(st)
  }

  lemma FoundIsValid(pat: Scalar, s: string)
    requires pat.WellFormed()
    ensures ValidReading(Find(pat, s))
  {
    FindFirst(pat, s);
  }

  lemma NothingInEmpty(pat: Scalar)
    requires pat.WellFormed()
    ensures Find(pat, []) == None
  {
    FindFirst(pat, []);
    forall q: nat, d: Decimal ensures !MatchesAt(pat, [], q, d) {
      assert |pat.trail| >= 1;
    }
  }

  lemma NoReadingInEmpty()
    ensures Find(PTAT, []) == None && Find(AVG, []) == None
  {
    PtatWellFormed();
    AvgWellFormed();
    NothingInEmpty(PTAT);
    NothingInEmpty(AVG);
  }

  /** An empty buffer holds no reading to disagree with. */
  lemma EmptyConsistent(st: State)
    requires st.buffer == []
    ensures Consistent(st)
  {
    NoReadingInEmpty();
  }

  lemma InitialInv()
    ensures Inv(Initial)
  {
    NoReadingInEmpty();
  }

  /** The searches always leave consistent readings behind. */
  lemma SearchConsistent(st: State, buffer: string)
    ensures Consistent(Search(st, buffer))
  {
  }

  /** The searches after `buffer += line + "\n"` keep the readings valid. */
  lemma AbsorbKeeps(st: State, line: string)
    requires ValidReading(st.ptat) && ValidReading(st.avgTemp)
    ensures var n := Absorb(st, line);
      && n.buffer == st.buffer + (line + "\n")
      && LinesOnly(n.buffer) && ValidReading(n.ptat) && ValidReading(n.avgTemp) && Consistent(n)
  {
    var buffer := st.buffer + (line + "\n");
    PtatWellFormed();
    AvgWellFormed();
    FoundIsValid(PTAT, buffer);
    FoundIsValid(AVG, buffer);
    SearchConsistent(st, buffer);
  }

  /** Clearing an overlong buffer keeps the invariant too. */
  lemma ClearKeeps(n: State)
    requires ValidReading(n.ptat) && ValidReading(n.avgTemp)
    ensures Inv(n.(buffer := []))
  {
    NoReadingInEmpty();
  }

  /** Every iteration that does not return keeps the invariant: in particular `len(buffer) <= 10000`. */
  lemma StepKeepsInv(st: State, raw: string)
    requires Inv(st)
    requires Step(st, raw).Continue?
    ensures Inv(Step(st, raw).next)
  {
    var line := Strip(raw);
    StepContinues(st, raw);
    if line != [] {
      AbsorbKeeps(st, line);
      ClearKeeps(Absorb(st, line));
    }
  }

  lemma {:induction false} FeedKeepsInv(st: State, lines: seq<string>)
    requires Inv(st)
    requires Feed(st, lines).Continue?
    ensures Inv(Feed(st, lines).next)
    decreases |lines|
  {
    if lines != [] {
      StepKeepsInv(st, lines[0]);
      var next := Step(st, lines[0]).next;
      FeedContinue(st, lines, next);
      FeedKeepsInv(next, lines[1..]);
    }
  }

  predicate ValidFrame(f: Frame)
  {
    && f.ptat.Valid()
    && f.avgTemp.Valid()
    && |f.rows| == GRID_SIZE
    && forall i :: 0 <= i < GRID_SIZE ==> |f.rows[i]| == GRID_SIZE && AllValid(f.rows[i])
  }

  /** The reading `d` is the first match in `buffer`, or there is none and `d` was kept from before. */
  ghost predicate ReadingFrom(pat: Scalar, buffer: string, prior: Option<Decimal>, d: Decimal)
  {
    || (exists p: nat :: FirstMatch(pat, buffer, p, d))
    || (NoMatch(pat, buffer) && prior == Some(d))
  }

  lemma LatestReading(pat: Scalar, buffer: string, prior: Option<Decimal>)
    requires pat.WellFormed()
    requires Latest(Find(pat, buffer), prior).Some?
    ensures ReadingFrom(pat, buffer, prior, Latest(Find(pat, buffer), prior).value)
  {
    FindFirst(pat, buffer);
  }

  /**
   * A frame comes out of an iteration exactly when the line is not blank,
   * each reading is known from before or its pattern matches somewhere in
   * the grown buffer, and the buffer holds at least 32 grid rows.
   */
  lemma StepEmitsWhen(st: State, raw: string)
    ensures Step(st, raw).Emit? <==>
      var buffer := st.buffer + (Strip(raw) + "\n");
      && Strip(raw) != []
      && (st.ptat.Some? || !NoMatch(PTAT, buffer))
      && (st.avgTemp.Some? || !NoMatch(AVG, buffer))
      && |GridLines(buffer)| >= GRID_SIZE
  {
    var buffer := st.buffer + (Strip(raw) + "\n");
    PtatWellFormed();
    AvgWellFormed();
    FindFirst(PTAT, buffer);
    FindFirst(AVG, buffer);
    StepEmitsUnfolded(st, raw);
  }

  /** The emit condition with `Step` unfolded over the searches. */
  lemma StepEmitsUnfolded(st: State, raw: string)
    ensures Step(st, raw).Emit? <==>
      var buffer := st.buffer + (Strip(raw) + "\n");
      && Strip(raw) != []
      && Latest(Find(PTAT, buffer), st.ptat).Some?
      && Latest(Find(AVG, buffer), st.avgTemp).Some?
      && |GridLines(buffer)| >= GRID_SIZE
  {
    if Step(st, raw).Emit? {
      StepEmits(st, raw);
    } else {
      StepContinues(st, raw);
    }
  }

  /** The frame of a ready state: its rows are the buffer's first 32 grid rows, read off. */
  lemma FrameOfFacts(n: State)
    requires Ready(n) && ValidReading(n.ptat) && ValidReading(n.avgTemp)
    ensures var f := FrameOf(n);
      && ValidFrame(f) && f.ptat == n.ptat.value && f.avgTemp == n.avgTemp.value
      && forall i :: 0 <= i < GRID_SIZE ==>
           ParseRow(GridLines(n.buffer)[i]) == Some(f.rows[i]) && FormatRow(f.rows[i]) == GridLines(n.buffer)[i]
  {
    var f := FrameOf(n);
    var grid := GridLines(n.buffer);
    GridLinesExactly(n.buffer);
    forall i | 0 <= i < GRID_SIZE
      ensures ParseRow(grid[i]) == Some(f.rows[i]) && |f.rows[i]| == GRID_SIZE && AllValid(f.rows[i])
      ensures FormatRow(f.rows[i]) == grid[i]
    {
      assert f.rows[i] == ParseRow(grid[i]).value;
      ParseRowSound(grid[i], f.rows[i]);
    }
  }

  /**
   * A frame that comes out is 32 by 32; its row `i` is the `i`-th grid row
   * of the buffer, in buffer order, whatever stands before, between or
   * after them; its readings are the first matches of the buffer, or the
   * readings kept from before.
   */
  lemma StepFrame(st: State, raw: string)
    requires Inv(st)
    requires Step(st, raw).Emit?
    ensures var f := Step(st, raw).frame;
      var buffer := st.buffer + (Strip(raw) + "\n");
      && ValidFrame(f)
      && |GridLines(buffer)| >= GRID_SIZE
      && (forall i :: 0 <= i < GRID_SIZE ==> FormatRow(f.rows[i]) == GridLines(buffer)[i])
      && ReadingFrom(PTAT, buffer, st.ptat, f.ptat)
      && ReadingFrom(AVG, buffer, st.avgTemp, f.avgTemp)
  {
    var line := Strip(raw);
    var n := Absorb(st, line);
    StepEmits(st, raw);
    AbsorbKeeps(st, line);
    FrameOfFacts(n);
    PtatWellFormed();
    AvgWellFormed();
    LatestReading(PTAT, n.buffer, st.ptat);
    LatestReading(AVG, n.buffer, st.avgTemp);
  }

  /** The frame the loop returns is always well formed and 32 by 32. */
  lemma {:induction false} FeedFrame(st: State, lines: seq<string>)
    requires Inv(st)
    requires Feed(st, lines).Emit?
    ensures ValidFrame(Feed(st, lines).frame)
    decreases |lines|
  {
    if lines != [] {
      var o := Step(st, lines[0]);
      if o.Emit? {
        FeedEmit(st, lines, o.frame);
        StepFrame(st, lines[0]);
      } else {
        FeedContinue(st, lines, o.next);
        StepKeepsInv(st, lines[0]);
        FeedFrame(o.next, lines[1..]);
      }
    }
  }

  /** A reading, once known, is never forgotten; not even when the buffer is cleared. */
  lemma ReadingsPersist(st: State, raw: string)
    requires Step(st, raw).Continue?
    ensures st.ptat.Some? ==> Step(st, raw).next.ptat.Some?
    ensures st.avgTemp.Some? ==> Step(st, raw).next.avgTemp.Some?
  {
    StepContinues(st, raw);
  }

  /** The loop stops at the first frame: lines after it are never looked at. */
  lemma {:induction false} FeedAppend(st: State, a: seq<string>, b: seq<string>)
    ensures Feed(st, a + b) == match Feed(st, a)
      case Emit(f) => Emit(f)
      case Continue(next) => Feed(next, b)
    decreases |a|
  {
    if a == [] {
      assert a + b == b;
    } else {
      assert (a + b)[0] == a[0];
      assert (a + b)[1..] == a[1..] + b;
      if Step(st, a[0]).Continue? {
        FeedAppend(Step(st, a[0]).next, a[1..], b);
      }
    }
  }

  // ---------------------------------------------------------------------
  // The buffer holds whole, stripped, non-blank lines.

  /** What `readline()` returns: at most one line feed, at the very end. */
  predicate ReadLine(raw: string)
  {
    forall k :: 0 <= k < |raw| - 1 ==> raw[k] != '\n'
  }

  lemma StripOfReadLine(raw: string)
    requires ReadLine(raw)
    ensures '\n' !in Strip(raw)
  {
    var r := Strip(raw);
    var a := |raw| - |TrimStart(raw)|;
    StripSlice(raw);
    StripStripped(raw);
    forall k | 0 <= k < |r| ensures r[k] != '\n' {
      assert r[k] == raw[a + k];
      if k == |r| - 1 {
        assert !IsSpace(r[k]);
      } else {
        assert a + k < |raw| - 1;
      }
    }
  }

  /** A line as the sensor sends it and the buffer keeps it: not blank, stripped, one line. */
  predicate Clean(l: string)
  {
    l != [] && Stripped(l) && '\n' !in l
  }

  /** `strip()` leaves a clean line as it is. */
  lemma CleanStrip(l: string)
    requires Clean(l)
    ensures Strip(l) == l
  {
    assert [] + l + [] == l;
    StripExactly([], l, []);
  }

  /** A stripped line of `readline()` that is not blank is clean. */
  lemma StripOfReadLineClean(raw: string)
    requires ReadLine(raw) && Strip(raw) != []
    ensures Clean(Strip(raw))
  {
    StripOfReadLine(raw);
    StripStripped(raw);
  }

  /** Every line is clean. */
  predicate AllClean(ls: seq<string>)
  {
    ls == [] || (Clean(ls[0]) && AllClean(ls[1..]))
  }

  lemma {:induction false} AllCleanAt(ls: seq<string>)
    ensures AllClean(ls) <==> forall i :: 0 <= i < |ls| ==> Clean(ls[i])
    decreases |ls|
  {
    if ls != [] {
      AllCleanAt(ls[1..]);
      assert forall i :: 1 <= i < |ls| ==> ls[1..][i - 1] == ls[i];
    }
  }

  lemma AllCleanAppend(a: seq<string>, b: seq<string>)
    requires AllClean(a) && AllClean(b)
    ensures AllClean(a + b)
  {
    AllCleanAt(a);
    AllCleanAt(b);
    AllCleanAt(a + b);
    assert forall i :: |a| <= i < |a + b| ==> (a + b)[i] == b[i - |a|];
  }

  lemma AllCleanTwo(a: string, b: string)
    requires Clean(a) && Clean(b)
    ensures AllClean([a]) && AllClean([a, b])
  {
    AllCleanAt([a]);
    AllCleanAt([a, b]);
  }

  lemma AllCleanLast(ls: seq<string>)
    requires AllClean(ls) && |ls| >= 1
    ensures AllClean(ls[..|ls| - 1]) && Clean(ls[|ls| - 1])
  {
    AllCleanAt(ls);
    AllCleanAt(ls[..|ls| - 1]);
  }

  /** The text that a sequence of lines adds to the buffer. */
  function TextOf(lines: seq<string>): string
  {
    if lines == [] then [] else (lines[0] + "\n") + TextOf(lines[1..])
  }

  /** The buffer is a run of non-blank, stripped lines, each ended by a line feed. */
  ghost predicate WholeLines(b: string)
  {
    exists ls: seq<string> :: b == TextOf(ls) && AllClean(ls)
  }

  lemma WholeLinesOf(ls: seq<string>)
    requires AllClean(ls)
    ensures WholeLines(TextOf(ls))
  {
  }

  lemma TextOfOne(l: string)
    ensures TextOf([l]) == l + "\n"
  {
    assert [l][1..] == [];
  }

  /** Blank lines never enter the buffer; every line that does is stripped and terminated. */
  lemma StepKeepsWholeLines(st: State, raw: string)
    requires ReadLine(raw)
    requires WholeLines(st.buffer)
    requires Step(st, raw).Continue?
    ensures WholeLines(Step(st, raw).next.buffer)
  {
    var line := Strip(raw);
    var ls: seq<string> :| st.buffer == TextOf(ls) && AllClean(ls);
    StepContinues(st, raw);
    if line != [] {
      StripOfReadLineClean(raw);
      var ls' := ls + [line];
      TextOfAppend(ls, [line]);
      TextOfOne(line);
      AllCleanTwo(line, line);
      AllCleanAppend(ls, [line]);
      WholeLinesOf(ls');
      WholeLinesOf([]);
    }
  }

  // ---------------------------------------------------------------------
  // Feeding whole lines: the tools for the scenario lemmas below.

  lemma {:induction false} TextOfAppend(a: seq<string>, b: seq<string>)
    ensures TextOf(a + b) == TextOf(a) + TextOf(b)
    decreases |a|
  {
    if a == [] {
      assert a + b == b;
    } else {
      assert (a + b)[1..] == a[1..] + b;
      TextOfAppend(a[1..], b);
    }
  }

  lemma {:induction false} TextOfLinesOnly(lines: seq<string>)
    ensures LinesOnly(TextOf(lines))
    decreases |lines|
  {
    if lines != [] {
      TextOfLinesOnly(lines[1..]);
    }
  }

  lemma AppendAssoc(a: string, b: string, c: string)
    ensures a + (b + c) == (a + b) + c
  {
  }

  lemma LinesOnlyAppend(a: string, b: string)
    requires LinesOnly(a) && LinesOnly(b)
    ensures LinesOnly(a + b)
  {
    if b == [] {
      assert a + b == a;
    }
  }

  lemma {:induction false} GridLinesOfText(lines: seq<string>)
    requires AllClean(lines)
    ensures GridLines(TextOf(lines)) == KeepRows(lines)
    decreases |lines|
  {
    EmptyIsNoRow();
    if lines == [] {
      assert GridLines([]) == KeepRows([[]]) == [];
    } else {
      var l := lines[0];
      assert TextOf(lines) == (l + "\n") + TextOf(lines[1..]);
      GridLinesAfterLines(l + "\n", TextOf(lines[1..]));
      GridLinesOfLine(l);
      GridLinesOfText(lines[1..]);
    }
  }

  /**
   * After a search on a buffer of whole lines, a search on a longer buffer
   * gives what a search on the longer buffer alone gives.
   */
  lemma LatestAfter(pat: Scalar, b: string, y: string, prior: Option<Decimal>)
    requires pat.WellFormed() && LinesOnly(b)
    ensures Latest(Find(pat, b + y), Latest(Find(pat, b), prior)) == Latest(Find(pat, b + y), prior)
    ensures Find(pat, b + y).None? ==> Find(pat, b).None?
  {
    FindAfterLines(pat, b, y);
  }

  lemma SearchAgain(st: State, b: string, y: string)
    requires LinesOnly(b)
    ensures Search(Search(st, b), b + y) == Search(st, b + y)
  {
    PtatWellFormed();
    AvgWellFormed();
    LatestAfter(PTAT, b, y, st.ptat);
    LatestAfter(AVG, b, y, st.avgTemp);
  }

  /** No frame can come out while the buffer stays small and lacks rows or a reading. */
  ghost predicate Quiet(st: State, b: string)
  {
    && |b| <= MAX_BUFFER
    && (|| |GridLines(b)| < GRID_SIZE
        || (Find(PTAT, b).None? && st.ptat.None?)
        || (Find(AVG, b).None? && st.avgTemp.None?))
  }

  /** A small buffer with fewer than 32 rows is quiet. */
  lemma QuietByRows(st: State, b: string)
    requires |b| <= MAX_BUFFER && |GridLines(b)| < GRID_SIZE
    ensures Quiet(st, b)
  {
  }

  /** What a quiet stretch of text says of the first line in it. */
  lemma QuietPrefix(st: State, b: string, y: string)
    requires LinesOnly(b) && Quiet(st, b + y)
    ensures !Ready(Search(st, b)) && |b| <= MAX_BUFFER && Quiet(Search(st, b), b + y)
  {
    GridLinesAfterLines(b, y);
    PtatWellFormed();
    AvgWellFormed();
    LatestAfter(PTAT, b, y, st.ptat);
    LatestAfter(AVG, b, y, st.avgTemp);
  }

  /** A clean line in a quiet stretch is appended, the readings updated, and nothing else happens. */
  lemma StepQuiet(st: State, l: string, y: string)
    requires Clean(l) && Quiet(st, st.buffer + (l + "\n") + y)
    ensures var n := Absorb(st, l);
      && Step(st, l) == Continue(n)
      && Quiet(n, n.buffer + y)
      && Search(n, n.buffer + y) == Search(st, n.buffer + y)
  {
    var b := st.buffer + (l + "\n");
    var n := Absorb(st, l);
    CleanStrip(l);
    StepLine(st, l);
    QuietPrefix(st, b, y);
    ConcludeWaits(n);
    SearchAgain(st, b, y);
  }

  /** When no frame can come out, feeding whole lines only appends them and updates the readings. */
  lemma {:induction false} FeedQuiet(st: State, lines: seq<string>)
    requires Consistent(st)
    requires AllClean(lines)
    requires Quiet(st, st.buffer + TextOf(lines))
    ensures Feed(st, lines) == Continue(Search(st, st.buffer + TextOf(lines)))
    decreases |lines|
  {
    if lines == [] {
      assert st.buffer + TextOf(lines) == st.buffer;
    } else {
      var l := lines[0];
      var y := TextOf(lines[1..]);
      var n := Absorb(st, l);
      AppendAssoc(st.buffer, l + "\n", y);
      StepQuiet(st, l, y);
      FeedContinue(st, lines, n);
      SearchConsistent(st, n.buffer);
      FeedQuiet(n, lines[1..]);
    }
  }

  /**
   * Feeding whole lines, of which only the last can produce a frame: the
   * frame of the whole text comes out.
   */
  lemma FeedToFrame(st: State, lines: seq<string>)
    requires LinesOnly(st.buffer) && Consistent(st)
    requires |lines| >= 1
    requires AllClean(lines)
    requires Quiet(st, st.buffer + TextOf(lines[..|lines| - 1]))
    requires Ready(Search(st, st.buffer + TextOf(lines)))
    ensures Feed(st, lines) == Emit(FrameOf(Search(st, st.buffer + TextOf(lines))))
  {
    var front := lines[..|lines| - 1];
    var last := lines[|lines| - 1];
    var b0 := st.buffer + TextOf(front);
    SplitLast(lines);
    FrontFacts(st, lines);
    LastLineEmits(st, b0, last);
    FeedThenEmit(st, front, last, Search(st, b0), FrameOf(Search(st, b0 + (last + "\n"))));
  }

  lemma SplitLast<T>(xs: seq<T>)
    requires |xs| >= 1
    ensures xs == xs[..|xs| - 1] + [xs[|xs| - 1]]
  {
  }

  /** Lines that leave the loop running, then a line that emits: that frame comes out. */
  lemma FeedThenEmit(st: State, front: seq<string>, last: string, mid: State, f: Frame)
    requires Feed(st, front) == Continue(mid) && Step(mid, last) == Emit(f)
    ensures Feed(st, front + [last]) == Emit(f)
  {
    FeedAppend(st, front, [last]);
    FeedEmit(mid, [last], f);
  }

  /** The lines before the last only fill the buffer; the last one ends it. */
  lemma FrontFacts(st: State, lines: seq<string>)
    requires LinesOnly(st.buffer) && Consistent(st)
    requires |lines| >= 1
    requires AllClean(lines)
    requires Quiet(st, st.buffer + TextOf(lines[..|lines| - 1]))
    ensures var b0 := st.buffer + TextOf(lines[..|lines| - 1]); var last := lines[|lines| - 1];
      && Feed(st, lines[..|lines| - 1]) == Continue(Search(st, b0))
      && st.buffer + TextOf(lines) == b0 + (last + "\n")
      && LinesOnly(b0) && Clean(last)
  {
    var front := lines[..|lines| - 1];
    var last := lines[|lines| - 1];
    SplitLast(lines);
    AllCleanLast(lines);
    FeedQuiet(st, front);
    TextOfAppend(front, [last]);
    TextOfOne(last);
    AppendAssoc(st.buffer, TextOf(front), last + "\n");
    TextOfLinesOnly(front);
    LinesOnlyAppend(st.buffer, TextOf(front));
  }

  /** A clean last line that makes the buffer ready emits its frame. */
  lemma LastLineEmits(st: State, b0: string, last: string)
    requires LinesOnly(b0) && Clean(last)
    requires Ready(Search(st, b0 + (last + "\n")))
    ensures Step(Search(st, b0), last) == Emit(FrameOf(Search(st, b0 + (last + "\n"))))
  {
    CleanStrip(last);
    SearchAgain(st, b0, last + "\n");
    StepLine(Search(st, b0), last);
    ConcludeReady(Search(st, b0 + (last + "\n")));
  }

  // ---------------------------------------------------------------------
  // Scenarios.

  /** The lines of the rows, in order. */
  function RowLines(rows: seq<seq<Decimal>>): seq<string>
    requires forall i :: 0 <= i < |rows| ==> |rows[i]| >= 1 && AllValid(rows[i])
  {
    seq(|rows|, i requires 0 <= i < |rows| => FormatRow(rows[i]))
  }

  predicate ValidRows(rows: seq<seq<Decimal>>)
  {
    |rows| == GRID_SIZE && forall i :: 0 <= i < GRID_SIZE ==> |rows[i]| == GRID_SIZE && AllValid(rows[i])
  }

  lemma FirstRowsOfRowLines(rows: seq<seq<Decimal>>)
    requires ValidRows(rows)
    ensures forall i :: 0 <= i < GRID_SIZE ==> ParseRow(RowLines(rows)[i]).Some?
    ensures FirstRows(RowLines(rows)) == rows
  {
    forall i | 0 <= i < GRID_SIZE ensures ParseRow(RowLines(rows)[i]) == Some(rows[i]) {
      ParseFormatRow(rows[i]);
    }
  }

  lemma FrameOfRows(n: State, rows: seq<seq<Decimal>>)
    requires Ready(n) && ValidRows(rows) && GridLines(n.buffer) == RowLines(rows)
    ensures FrameOf(n) == Frame(n.ptat.value, n.avgTemp.value, rows)
  {
    FirstRowsOfRowLines(rows);
  }

  /**
   * Feeding whole lines of which only the last completes the frame `f`: `f`
   * comes out.
   */
  lemma FeedToGivenFrame(st: State, lines: seq<string>, f: Frame)
    requires ValidFrame(f) && LinesOnly(st.buffer) && Consistent(st)
    requires |lines| >= 1
    requires AllClean(lines)
    requires Quiet(st, st.buffer + TextOf(lines[..|lines| - 1]))
    requires var b := st.buffer + TextOf(lines);
      && Latest(Find(PTAT, b), st.ptat) == Some(f.ptat)
      && Latest(Find(AVG, b), st.avgTemp) == Some(f.avgTemp)
      && GridLines(b) == RowLines(f.rows)
    ensures Feed(st, lines) == Emit(f)
  {
    var n := Search(st, st.buffer + TextOf(lines));
    FeedToFrame(st, lines);
    FrameOfRows(n, f.rows);
  }

  /** A row line holds digits, `-`, `.` and spaces only. */
  lemma RowLacks(ds: seq<Decimal>, c: char)
    requires |ds| >= 1 && AllValid(ds)
    requires !IsTokenChar(c) && c != ' '
    ensures c !in FormatRow(ds)
  {
    RowShape(ds);
  }

  /** A row line is clean, and it is the grid row of its literals. */
  lemma RowLineClean(ds: seq<Decimal>)
    requires |ds| == GRID_SIZE && AllValid(ds)
    ensures Clean(FormatRow(ds)) && ParseRow(FormatRow(ds)) == Some(ds)
  {
    RowShape(ds);
    RowLacks(ds, '\n');
    ParseFormatRow(ds);
  }

  lemma RowLinesClean(rows: seq<seq<Decimal>>)
    requires forall i :: 0 <= i < |rows| ==> |rows[i]| == GRID_SIZE && AllValid(rows[i])
    ensures AllClean(RowLines(rows))
    ensures forall i :: 0 <= i < |rows| ==> ParseRow(RowLines(rows)[i]).Some?
  {
    forall i | 0 <= i < |rows| ensures Clean(RowLines(rows)[i]) && ParseRow(RowLines(rows)[i]).Some? {
      RowLineClean(rows[i]);
    }
    AllCleanAt(RowLines(rows));
  }

  lemma {:induction false} KeepAllRows(ls: seq<string>)
    requires forall i :: 0 <= i < |ls| ==> ParseRow(ls[i]).Some?
    ensures KeepRows(ls) == ls
    decreases |ls|
  {
    if ls != [] {
      KeepAllRows(ls[1..]);
    }
  }

  lemma {:induction false} NoRowsKept(ls: seq<string>)
    requires forall i :: 0 <= i < |ls| ==> ParseRow(ls[i]).None?
    ensures KeepRows(ls) == []
    decreases |ls|
  {
    if ls != [] {
      NoRowsKept(ls[1..]);
    }
  }

  /** Lines without the character `c` make a text without it. */
  lemma {:induction false} TextOfLacks(ls: seq<string>, c: char)
    requires c != '\n'
    requires forall i :: 0 <= i < |ls| ==> c !in ls[i]
    ensures c !in TextOf(ls)
    decreases |ls|
  {
    if ls != [] {
      TextOfLacks(ls[1..], c);
    }
  }

  lemma RowLinesLack(rows: seq<seq<Decimal>>, c: char)
    requires forall i :: 0 <= i < |rows| ==> |rows[i]| == GRID_SIZE && AllValid(rows[i])
    requires !IsTokenChar(c) && c != ' ' && c != '\n'
    ensures c !in TextOf(RowLines(rows))
  {
    forall i | 0 <= i < |rows| ensures c !in RowLines(rows)[i] {
      RowLacks(rows[i], c);
    }
    TextOfLacks(RowLines(rows), c);
  }

  /** Rows hold no letter, so neither reading is found in them. */
  lemma NoReadingInRows(rows: seq<seq<Decimal>>)
    requires forall i :: 0 <= i < |rows| ==> |rows[i]| == GRID_SIZE && AllValid(rows[i])
    ensures Find(PTAT, TextOf(RowLines(rows))) == None
    ensures Find(AVG, TextOf(RowLines(rows))) == None
  {
    RowLinesLack(rows, 'P');
    RowLinesLack(rows, 'A');
    NoPtatWithoutP(TextOf(RowLines(rows)));
    NoAvgWithoutA(TextOf(RowLines(rows)));
  }

  lemma NoPtatWithoutP(s: string)
    requires 'P' !in s
    ensures Find(PTAT, s) == None
  {
    assert PTAT.lead[0] == 'P';
    PtatWellFormed();
    NoMatchWithout(PTAT, s, 'P');
  }

  lemma NoAvgWithoutA(s: string)
    requires 'A' !in s
    ensures Find(AVG, s) == None
  {
    assert AVG.lead[0] == 'A';
    AvgWellFormed();
    NoMatchWithout(AVG, s, 'A');
  }

  /** A line that starts with a letter is not a grid row. */
  lemma NotARow(l: string)
    requires l != [] && 'A' <= l[0] <= 'Z'
    ensures ParseRow(l).None?
  {
    if ParseRow(l).Some? {
      var ds := ParseRow(l).value;
      ParseRowSound(l, ds);
      RowShape(ds);
    }
  }

  lemma PtatLineClean(d: Decimal, h1: char, h2: char)
    requires d.Valid() && IsHexDigit(h1) && IsHexDigit(h2)
    ensures Clean(PtatLine(d, h1, h2))
    ensures ParseRow(PtatLine(d, h1, h2)).None?
  {
    var l := PtatLine(d, h1, h2);
    PtatLineNoLineFeed(d, h1, h2);
    assert l[0] == 'P' && l[|l| - 1] == h2;
    NotARow(l);
  }

  lemma PtatLineNoLineFeed(d: Decimal, h1: char, h2: char)
    requires d.Valid() && IsHexDigit(h1) && IsHexDigit(h2)
    ensures '\n' !in PtatLine(d, h1, h2)
  {
    FormatChars(d);
    assert PtatLine(d, h1, h2) == PTAT.lead + Format(d) + PTAT.trail + [h1, h2];
    assert '\n' !in PTAT.lead && '\n' !in PTAT.trail;
  }

  lemma AvgLineClean(d: Decimal)
    requires d.Valid()
    ensures Clean(AvgLine(d))
    ensures ParseRow(AvgLine(d)).None?
  {
    var l := AvgLine(d);
    AvgLineNoLineFeed(d);
    assert l[0] == 'A' && l[|l| - 1] == 'C';
    NotARow(l);
  }

  lemma AvgLineNoLineFeed(d: Decimal)
    requires d.Valid()
    ensures '\n' !in AvgLine(d)
  {
    FormatChars(d);
    assert AvgLine(d) == AVG.lead + Format(d) + AVG.trail;
    assert '\n' !in AVG.lead && '\n' !in AVG.trail;
  }

  /** The PTAT line and the average line are clean lines, neither a row. */
  lemma HeadsClean(ptat: Decimal, avgTemp: Decimal, h1: char, h2: char)
    requires ptat.Valid() && avgTemp.Valid() && IsHexDigit(h1) && IsHexDigit(h2)
    ensures var heads := [PtatLine(ptat, h1, h2), AvgLine(avgTemp)];
      && AllClean(heads) && AllClean(heads[..1])
      && forall i :: 0 <= i < |heads| ==> ParseRow(heads[i]).None?
  {
    var l0 := PtatLine(ptat, h1, h2);
    var l1 := AvgLine(avgTemp);
    PtatLineClean(ptat, h1, h2);
    AvgLineClean(avgTemp);
    AllCleanTwo(l0, l1);
    assert [l0, l1][..1] == [l0];
  }

  lemma TextOfTwo(a: string, b: string)
    ensures TextOf([a, b]) == (a + "\n") + (b + "\n")
  {
    assert [a, b][1..] == [b];
    TextOfOne(b);
  }

  /** The PTAT line first, then the average line, then anything: both readings are those lines'. */
  lemma ReadingsFirst(ptat: Decimal, avgTemp: Decimal, h1: char, h2: char, rest: string)
    requires ptat.Valid() && avgTemp.Valid() && IsHexDigit(h1) && IsHexDigit(h2)
    ensures var b := TextOf([PtatLine(ptat, h1, h2), AvgLine(avgTemp)]) + rest;
      Find(PTAT, b) == Some(ptat) && Find(AVG, b) == Some(avgTemp)
  {
    var l0 := PtatLine(ptat, h1, h2);
    var l1 := AvgLine(avgTemp);
    TextOfTwo(l0, l1);
    AppendAssoc(l0 + "\n", l1 + "\n", rest);
    PtatFirst(ptat, h1, h2, (l1 + "\n") + rest);
    AvgSecond(ptat, avgTemp, h1, h2, rest);
  }

  lemma PtatFirst(ptat: Decimal, h1: char, h2: char, y: string)
    requires ptat.Valid() && IsHexDigit(h1) && IsHexDigit(h2)
    ensures Find(PTAT, (PtatLine(ptat, h1, h2) + "\n") + y) == Some(ptat)
  {
    AppendAssoc(PtatLine(ptat, h1, h2), "\n", y);
    PtatLineFound(ptat, h1, h2, "\n" + y);
  }

  lemma AvgSecond(ptat: Decimal, avgTemp: Decimal, h1: char, h2: char, rest: string)
    requires ptat.Valid() && avgTemp.Valid() && IsHexDigit(h1) && IsHexDigit(h2)
    ensures Find(AVG, (PtatLine(ptat, h1, h2) + "\n") + ((AvgLine(avgTemp) + "\n") + rest)) == Some(avgTemp)
  {
    var l0 := PtatLine(ptat, h1, h2);
    var l1 := AvgLine(avgTemp);
    NoAvgInPtatLine(ptat, h1, h2);
    AvgWellFormed();
    FindAfterLines(AVG, l0 + "\n", (l1 + "\n") + rest);
    AppendAssoc(l1, "\n", rest);
    AvgLineFound(avgTemp, "\n" + rest);
  }

  /** Lines that are not rows, then the rows: the rows, and the rows but the last, are kept. */
  lemma RowsKept(pre: seq<string>, rows: seq<seq<Decimal>>)
    requires ValidRows(rows)
    requires forall i :: 0 <= i < |pre| ==> ParseRow(pre[i]).None?
    ensures KeepRows(pre + RowLines(rows)) == RowLines(rows)
    ensures |KeepRows(pre + RowLines(rows)[..GRID_SIZE - 1])| == GRID_SIZE - 1
  {
    var rl := RowLines(rows);
    RowLinesClean(rows);
    NoRowsKept(pre);
    KeepRowsAppend(pre, rl);
    KeepAllRows(rl);
    KeepRowsAppend(pre, rl[..GRID_SIZE - 1]);
    KeepAllRows(rl[..GRID_SIZE - 1]);
  }

  /**
   * Clean lines that are not rows, then the rows: the lines are clean, the
   * rows are all of the grid, and before the last row the grid is one short.
   */
  lemma RowsAfter(pre: seq<string>, rows: seq<seq<Decimal>>)
    requires ValidRows(rows) && AllClean(pre)
    requires forall i :: 0 <= i < |pre| ==> ParseRow(pre[i]).None?
    ensures var lines := pre + RowLines(rows);
      && AllClean(lines)
      && GridLines(TextOf(lines)) == RowLines(rows)
      && |GridLines(TextOf(lines[..|lines| - 1]))| == GRID_SIZE - 1
  {
    var rl := RowLines(rows);
    var lines := pre + rl;
    RowLinesClean(rows);
    AllCleanAppend(pre, rl);
    RowsAfterGrid(pre, rows);
  }

  lemma RowsAfterGrid(pre: seq<string>, rows: seq<seq<Decimal>>)
    requires ValidRows(rows) && AllClean(pre + RowLines(rows))
    requires forall i :: 0 <= i < |pre| ==> ParseRow(pre[i]).None?
    ensures var lines := pre + RowLines(rows);
      && GridLines(TextOf(lines)) == RowLines(rows)
      && |GridLines(TextOf(lines[..|lines| - 1]))| == GRID_SIZE - 1
  {
    var rl := RowLines(rows);
    var lines := pre + rl;
    AllCleanLast(lines);
    assert lines[..|lines| - 1] == pre + rl[..GRID_SIZE - 1];
    GridLinesOfText(lines);
    GridLinesOfText(lines[..|lines| - 1]);
    RowsKept(pre, rows);
  }

  /**
   * From the start, whole lines of which only the last completes the frame
   * `f`: `f` is what the parser returns.
   */
  lemma ParseToGivenFrame(lines: seq<string>, f: Frame)
    requires ValidFrame(f) && |lines| >= 1 && AllClean(lines)
    requires Quiet(Initial, TextOf(lines[..|lines| - 1]))
    requires Find(PTAT, TextOf(lines)) == Some(f.ptat) && Find(AVG, TextOf(lines)) == Some(f.avgTemp)
    requires GridLines(TextOf(lines)) == RowLines(f.rows)
    ensures ParseUart(lines) == Some(f)
  {
    InitialInv();
    assert Initial.buffer + TextOf(lines) == TextOf(lines);
    assert Initial.buffer + TextOf(lines[..|lines| - 1]) == TextOf(lines[..|lines| - 1]);
    FeedToGivenFrame(Initial, lines, f);
    ParseUartEmit(lines, f);
  }

  /**
   * The round trip of the wire format: a PTAT line (with any PEC digits),
   * an average line and the 32 rows, sent in that order, come back as
   * exactly that frame, provided all but the last row fit in the buffer.
   */
  lemma FrameRoundTrip(f: Frame, h1: char, h2: char)
    requires ValidFrame(f) && IsHexDigit(h1) && IsHexDigit(h2)
    requires var lines := [PtatLine(f.ptat, h1, h2), AvgLine(f.avgTemp)] + RowLines(f.rows);
      |TextOf(lines[..|lines| - 1])| <= MAX_BUFFER
    ensures ParseUart([PtatLine(f.ptat, h1, h2), AvgLine(f.avgTemp)] + RowLines(f.rows)) == Some(f)
  {
    var pre := [PtatLine(f.ptat, h1, h2), AvgLine(f.avgTemp)];
    assert pre + [] + RowLines(f.rows) == pre + RowLines(f.rows);
    FrameAfterReadings(f, h1, h2, []);
  }

  /** The readings of the PTAT line, the average line, further lines and the rows. */
  lemma ReadingsOfLines(f: Frame, h1: char, h2: char, extra: seq<string>)
    requires ValidFrame(f) && IsHexDigit(h1) && IsHexDigit(h2)
    ensures var b := TextOf([PtatLine(f.ptat, h1, h2), AvgLine(f.avgTemp)] + extra + RowLines(f.rows));
      Find(PTAT, b) == Some(f.ptat) && Find(AVG, b) == Some(f.avgTemp)
  {
    var heads := [PtatLine(f.ptat, h1, h2), AvgLine(f.avgTemp)];
    var rl := RowLines(f.rows);
    TextOfAppend(heads + extra, rl);
    TextOfAppend(heads, extra);
    AppendAssoc(TextOf(heads), TextOf(extra), TextOf(rl));
    ReadingsFirst(f.ptat, f.avgTemp, h1, h2, TextOf(extra) + TextOf(rl));
  }

  lemma NoRowsBefore(heads: seq<string>, extra: seq<string>)
    requires forall i :: 0 <= i < |heads| ==> ParseRow(heads[i]).None?
    requires forall i :: 0 <= i < |extra| ==> ParseRow(extra[i]).None?
    ensures forall i :: 0 <= i < |heads + extra| ==> ParseRow((heads + extra)[i]).None?
  {
    assert forall i :: |heads| <= i < |heads + extra| ==> (heads + extra)[i] == extra[i - |heads|];
  }

  /**
   * After the first PTAT and average lines, any further lines that are not
   * rows, later readings among them, change nothing: the frame carries the
   * first readings, not the latest ones.
   */
  lemma FrameAfterReadings(f: Frame, h1: char, h2: char, extra: seq<string>)
    requires ValidFrame(f) && IsHexDigit(h1) && IsHexDigit(h2)
    requires forall i :: 0 <= i < |extra| ==> Clean(extra[i]) && ParseRow(extra[i]).None?
    requires var lines := [PtatLine(f.ptat, h1, h2), AvgLine(f.avgTemp)] + extra + RowLines(f.rows);
      |TextOf(lines[..|lines| - 1])| <= MAX_BUFFER
    ensures ParseUart([PtatLine(f.ptat, h1, h2), AvgLine(f.avgTemp)] + extra + RowLines(f.rows)) == Some(f)
  {
    ReadingsThenRows(f, h1, h2, extra);
    ParseToGivenFrame([PtatLine(f.ptat, h1, h2), AvgLine(f.avgTemp)] + extra + RowLines(f.rows), f);
  }

  /** The readings, further lines that are not rows, then the rows: what the parser sees. */
  lemma ReadingsThenRows(f: Frame, h1: char, h2: char, extra: seq<string>)
    requires ValidFrame(f) && IsHexDigit(h1) && IsHexDigit(h2)
    requires forall i :: 0 <= i < |extra| ==> Clean(extra[i]) && ParseRow(extra[i]).None?
    ensures var lines := [PtatLine(f.ptat, h1, h2), AvgLine(f.avgTemp)] + extra + RowLines(f.rows);
      && AllClean(lines)
      && |GridLines(TextOf(lines[..|lines| - 1]))| < GRID_SIZE
      && Find(PTAT, TextOf(lines)) == Some(f.ptat) && Find(AVG, TextOf(lines)) == Some(f.avgTemp)
      && GridLines(TextOf(lines)) == RowLines(f.rows)
  {
    var heads := [PtatLine(f.ptat, h1, h2), AvgLine(f.avgTemp)];
    HeadsClean(f.ptat, f.avgTemp, h1, h2);
    AllCleanAt(extra);
    AllCleanAppend(heads, extra);
    NoRowsBefore(heads, extra);
    RowsAfter(heads + extra, f.rows);
    ReadingsOfLines(f, h1, h2, extra);
  }

  /** The rows, then the PTAT and average lines: the readings and the rows. */
  lemma ReadingsAfterRows(f: Frame, h1: char, h2: char)
    requires ValidFrame(f) && IsHexDigit(h1) && IsHexDigit(h2)
    ensures var rl := RowLines(f.rows); var l0 := PtatLine(f.ptat, h1, h2);
      var b := TextOf(rl + [l0, AvgLine(f.avgTemp)]);
      && Find(PTAT, b) == Some(f.ptat) && Find(AVG, b) == Some(f.avgTemp)
      && Find(AVG, TextOf(rl + [l0])) == None
  {
    var l0 := PtatLine(f.ptat, h1, h2);
    var heads := [l0, AvgLine(f.avgTemp)];
    var rl := RowLines(f.rows);
    var rt := TextOf(rl);
    TextOfLinesOnly(rl);
    NoReadingInRows(f.rows);
    TextOfAppend(rl, heads);
    ReadingsFirst(f.ptat, f.avgTemp, h1, h2, []);
    assert TextOf(heads) + [] == TextOf(heads);
    PtatWellFormed();
    AvgWellFormed();
    FindAfterLines(PTAT, rt, TextOf(heads));
    FindAfterLines(AVG, rt, TextOf(heads));
    TextOfAppend(rl, [l0]);
    TextOfOne(l0);
    NoAvgInPtatLine(f.ptat, h1, h2);
    FindAfterLines(AVG, rt, l0 + "\n");
  }

  /** Rows, then lines that are not rows: the rows are the grid. */
  lemma RowsThenOthers(rows: seq<seq<Decimal>>, post: seq<string>)
    requires ValidRows(rows) && AllClean(post)
    requires forall i :: 0 <= i < |post| ==> ParseRow(post[i]).None?
    ensures AllClean(RowLines(rows) + post)
    ensures GridLines(TextOf(RowLines(rows) + post)) == RowLines(rows)
  {
    var rl := RowLines(rows);
    RowLinesClean(rows);
    AllCleanAppend(rl, post);
    GridLinesOfText(rl + post);
    KeepRowsAppend(rl, post);
    NoRowsKept(post);
    KeepAllRows(rl);
  }

  /**
   * Rows that arrive before the readings still count: the rows, then a
   * PTAT line and an average line, give the same frame.
   */
  lemma RowsBeforeReadings(f: Frame, h1: char, h2: char)
    requires ValidFrame(f) && IsHexDigit(h1) && IsHexDigit(h2)
    requires |TextOf(RowLines(f.rows) + [PtatLine(f.ptat, h1, h2)])| <= MAX_BUFFER
    ensures ParseUart(RowLines(f.rows) + [PtatLine(f.ptat, h1, h2), AvgLine(f.avgTemp)]) == Some(f)
  {
    var l0 := PtatLine(f.ptat, h1, h2);
    var lines := RowLines(f.rows) + [l0, AvgLine(f.avgTemp)];
    assert lines[..|lines| - 1] == RowLines(f.rows) + [l0];
    HeadsClean(f.ptat, f.avgTemp, h1, h2);
    RowsThenOthers(f.rows, [l0, AvgLine(f.avgTemp)]);
    ReadingsAfterRows(f, h1, h2);
    ParseToGivenFrame(lines, f);
  }

  /**
   * The readings survive a reset of the buffer: after it, 32 rows alone
   * make a frame with the readings found before.
   */
  lemma ReadingsSurviveReset(ptat: Decimal, avgTemp: Decimal, rows: seq<seq<Decimal>>)
    requires ptat.Valid() && avgTemp.Valid() && ValidRows(rows)
    requires |TextOf(RowLines(rows)[..GRID_SIZE - 1])| <= MAX_BUFFER
    ensures Feed(State([], Some(ptat), Some(avgTemp)), RowLines(rows)) == Emit(Frame(ptat, avgTemp, rows))
  {
    var st := State([], Some(ptat), Some(avgTemp));
    RowsAfterReset(st, rows);
    FeedToGivenFrame(st, RowLines(rows), Frame(ptat, avgTemp, rows));
  }

  /** After a reset, the rows alone meet what a frame needs. */
  lemma RowsAfterReset(st: State, rows: seq<seq<Decimal>>)
    requires st.buffer == [] && st.ptat.Some? && st.avgTemp.Some?
    requires st.ptat.value.Valid() && st.avgTemp.value.Valid() && ValidRows(rows)
    requires |TextOf(RowLines(rows)[..GRID_SIZE - 1])| <= MAX_BUFFER
    ensures var f := Frame(st.ptat.value, st.avgTemp.value, rows);
      var lines := RowLines(rows);
      var b := st.buffer + TextOf(lines);
      && ValidFrame(f) && LinesOnly(st.buffer) && Consistent(st)
      && |lines| >= 1 && AllClean(lines)
      && Quiet(st, st.buffer + TextOf(lines[..|lines| - 1]))
      && Latest(Find(PTAT, b), st.ptat) == Some(f.ptat)
      && Latest(Find(AVG, b), st.avgTemp) == Some(f.avgTemp)
      && GridLines(b) == RowLines(f.rows)
  {
    var rl := RowLines(rows);
    RowsAlone(rows);
    assert st.buffer + TextOf(rl) == TextOf(rl);
    QuietAfterReset(st, rows);
    EmptyConsistent(st);
  }

  lemma QuietAfterReset(st: State, rows: seq<seq<Decimal>>)
    requires st.buffer == [] && ValidRows(rows)
    requires |TextOf(RowLines(rows)[..GRID_SIZE - 1])| <= MAX_BUFFER
    ensures var lines := RowLines(rows); Quiet(st, st.buffer + TextOf(lines[..|lines| - 1]))
  {
    var rl := RowLines(rows);
    assert |rl| == GRID_SIZE;
    var t := TextOf(rl[..|rl| - 1]);
    RowsAlone(rows);
    assert st.buffer + t == t;
    QuietByRows(st, t);
  }

  /** The rows alone: clean lines without readings, all of the grid, one short before the last. */
  lemma RowsAlone(rows: seq<seq<Decimal>>)
    requires ValidRows(rows)
    ensures var rl := RowLines(rows);
      && AllClean(rl)
      && Find(PTAT, TextOf(rl)).None? && Find(AVG, TextOf(rl)).None?
      && GridLines(TextOf(rl)) == rl
      && |GridLines(TextOf(rl[..|rl| - 1]))| == GRID_SIZE - 1
  {
    var rl := RowLines(rows);
    assert [] + rl == rl;
    RowsAfter([], rows);
    NoReadingInRows(rows);
  }

  /** The grid rows that the line `raw` adds to the buffer: none when it is blank. */
  function RowsOf(raw: string): nat
  {
    var line := Strip(raw);
    if line == [] then 0 else |GridLines(line + "\n")|
  }

  /** The grid rows that a run of lines brings into the buffer, resets aside. */
  function RowsOffered(lines: seq<string>): nat
  {
    if lines == [] then 0 else RowsOf(lines[0]) + RowsOffered(lines[1..])
  }

  lemma EmptyHasNoRows()
    ensures GridLines([]) == []
  {
    EmptyIsNoRow();
    assert KeepRows([[]]) == [];
  }

  /**
   * While the rows seen cannot reach 32, an iteration never emits; the rows
   * of the buffer grow by at most those of the line, and a reset drops them.
   */
  lemma StepFewRows(st: State, raw: string)
    requires LinesOnly(st.buffer)
    requires |GridLines(st.buffer)| + RowsOf(raw) < GRID_SIZE
    ensures Step(st, raw).Continue?
    ensures var next := Step(st, raw).next;
      LinesOnly(next.buffer) && |GridLines(next.buffer)| <= |GridLines(st.buffer)| + RowsOf(raw)
  {
    var line := Strip(raw);
    if line != [] {
      var n := Absorb(st, line);
      GridLinesAfterLines(st.buffer, line + "\n");
      assert !Ready(n);
      ConcludeWaits(n);
      EmptyHasNoRows();
    }
  }

  lemma {:induction false} FeedFewRows(st: State, lines: seq<string>)
    requires LinesOnly(st.buffer)
    requires |GridLines(st.buffer)| + RowsOffered(lines) < GRID_SIZE
    ensures Feed(st, lines).Continue?
    decreases |lines|
  {
    if lines != [] {
      StepFewRows(st, lines[0]);
      var next := Step(st, lines[0]).next;
      FeedContinue(st, lines, next);
      FeedFewRows(next, lines[1..]);
    }
  }

  /**
   * Without 32 grid rows among all the lines that arrive, no frame comes
   * out, however the readings and the buffer resets fall: the result is
   * the timeout's `None`.
   */
  lemma NoFrameWithoutGrid(lines: seq<string>)
    requires RowsOffered(lines) < GRID_SIZE
    ensures ParseUart(lines) == None
  {
    EmptyHasNoRows();
    FeedFewRows(Initial, lines);
  }

  /** On clean lines, the rows offered are the lines that are rows. */
  lemma {:induction false} RowsOfferedClean(lines: seq<string>)
    requires AllClean(lines)
    ensures RowsOffered(lines) == |KeepRows(lines)|
    decreases |lines|
  {
    if lines != [] {
      CleanStrip(lines[0]);
      GridLinesOfLine(lines[0]);
      RowsOfferedClean(lines[1..]);
    }
  }

  /** A PTAT line, an average line and fewer than 32 rows never give a frame. */
  lemma FewRowsAfterReadings(ptat: Decimal, avgTemp: Decimal, h1: char, h2: char, rows: seq<seq<Decimal>>)
    requires ptat.Valid() && avgTemp.Valid() && IsHexDigit(h1) && IsHexDigit(h2)
    requires |rows| < GRID_SIZE
    requires forall i :: 0 <= i < |rows| ==> |rows[i]| == GRID_SIZE && AllValid(rows[i])
    ensures ParseUart([PtatLine(ptat, h1, h2), AvgLine(avgTemp)] + RowLines(rows)) == None
  {
    var lines := [PtatLine(ptat, h1, h2), AvgLine(avgTemp)] + RowLines(rows);
    ReadingsThenFewRows(ptat, avgTemp, h1, h2, rows);
    GridLinesOfText(lines);
    RowsOfferedClean(lines);
    NoFrameWithoutGrid(lines);
  }

  lemma ReadingsThenFewRows(ptat: Decimal, avgTemp: Decimal, h1: char, h2: char, rows: seq<seq<Decimal>>)
    requires ptat.Valid() && avgTemp.Valid() && IsHexDigit(h1) && IsHexDigit(h2)
    requires |rows| < GRID_SIZE
    requires forall i :: 0 <= i < |rows| ==> |rows[i]| == GRID_SIZE && AllValid(rows[i])
    ensures var lines := [PtatLine(ptat, h1, h2), AvgLine(avgTemp)] + RowLines(rows);
      AllClean(lines) && |GridLines(TextOf(lines))| < GRID_SIZE
  {
    var heads := [PtatLine(ptat, h1, h2), AvgLine(avgTemp)];
    var rl := RowLines(rows);
    var lines := heads + rl;
    HeadsClean(ptat, avgTemp, h1, h2);
    RowLinesClean(rows);
    AllCleanAppend(heads, rl);
    GridLinesOfText(lines);
    KeepRowsAppend(heads, rl);
    NoRowsKept(heads);
    KeepAllRows(rl);
  }

  // ---------------------------------------------------------------------
  // The loop itself.

  /** `[float(x) for x in ...]` on the literals of a row. */
  function Floats(ds: seq<Decimal>): seq<real>
    requires AllValid(ds)
  {
    seq(|ds|, i requires 0 <= i < |ds| => Value(ds[i]))
  }

  /** The pixel array holds the values of the frame's literals. */
  ghost predicate Shows(pixels: array2<real>, f: Frame)
    reads pixels
  {
    && ValidFrame(f)
    && pixels.Length0 == GRID_SIZE && pixels.Length1 == GRID_SIZE
    && forall r, c :: 0 <= r < GRID_SIZE && 0 <= c < GRID_SIZE ==> pixels[r, c] == Value(f.rows[r][c])
  }

  /** `pixels[row, :] = rowData`: one row of the array replaced, the others kept. */
  method FillRow(pixels: array2<real>, row: nat, rowData: seq<real>)
    requires row < pixels.Length0 && |rowData| == pixels.Length1
    modifies pixels
    ensures forall r, c :: 0 <= r < pixels.Length0 && 0 <= c < pixels.Length1 ==>
      pixels[r, c] == if r == row then rowData[c] else old(pixels[r, c])
  {
    for col := 0 to pixels.Length1
      invariant forall r, c :: 0 <= r < pixels.Length0 && 0 <= c < pixels.Length1 ==>
        pixels[r, c] == if r == row && c < col then rowData[c] else old(pixels[r, c])
    {
      pixels[row, col] := rowData[col];
    }
  }

  /**
   * `pixels[row, :] = row_data` for the first 32 grid rows, each split into
   * words and converted; no conversion can fail.
   */
  method FillPixels(pixels: array2<real>, gridLines: seq<string>, ghost f: Frame)
    requires pixels.Length0 == GRID_SIZE && pixels.Length1 == GRID_SIZE
    requires ValidFrame(f) && |gridLines| >= GRID_SIZE
    requires forall r :: 0 <= r < GRID_SIZE ==> ParseRow(gridLines[r]) == Some(f.rows[r])
    modifies pixels
    ensures Shows(pixels, f)
  {
    for row := 0 to GRID_SIZE
      invariant forall r, c :: 0 <= r < row && 0 <= c < GRID_SIZE ==> pixels[r, c] == Value(f.rows[r][c])
    {
      RowWordsConvert(gridLines[row], f.rows[row]);
      var cells := ParseTokens(Words(gridLines[row]));
      if cells.None? {
        // `except ValueError`: unreachable, every grid row converts.
        assert false;
      }
      var rowData := Floats(cells.value);
      if |rowData| == GRID_SIZE {
        FillRow(pixels, row, rowData);
      }
    }
  }

  /**
   * `parse_uart_data(ser)` on the lines `ser.readline()` delivers before
   * the timeout: the loop over the buffer, with the pixel array filled in
   * place row by row, proved to compute `ParseUart`.
   */
  method ParseUartData(input: seq<string>) returns (ptat: Option<real>, avgTemp: Option<real>, pixels: Option<array2<real>>)
    ensures match ParseUart(input)
      case None => ptat.None? && avgTemp.None? && pixels.None?
      case Some(f) =>
        && ValidFrame(f)
        && ptat == Some(Value(f.ptat))
        && avgTemp == Some(Value(f.avgTemp))
        && pixels.Some? && fresh(pixels.value)
        && Shows(pixels.value, f)
  {
    var ptatReading: Option<Decimal> := None;
    var avgReading: Option<Decimal> := None;
    var grid := new real[GRID_SIZE, GRID_SIZE]((_, _) => 0.0);
    var buffer: string := [];
    InitialInv();
    var i := 0;
    while i < |input|
      invariant 0 <= i <= |input|
      invariant Inv(State(buffer, ptatReading, avgReading))
      invariant Feed(Initial, input) == Feed(State(buffer, ptatReading, avgReading), input[i..])
      invariant fresh(grid) && grid.Length0 == GRID_SIZE && grid.Length1 == GRID_SIZE
    {
      ghost var st := State(buffer, ptatReading, avgReading);
      ghost var rest := input[i..];
      assert rest[0] == input[i] && rest[1..] == input[i + 1..];
      var line := Strip(input[i]);
      i := i + 1;
      if line == [] {
        FeedContinue(st, rest, st);
        continue;
      }
      buffer := buffer + (line + "\n");
      var found := Find(PTAT, buffer);
      if found.Some? {
        ptatReading := found;
      }
      found := Find(AVG, buffer);
      if found.Some? {
        avgReading := found;
      }
      ghost var n := Absorb(st, line);
      assert n == State(buffer, ptatReading, avgReading);
      StepLine(st, input[i - 1]);
      AbsorbKeeps(st, line);
      if ptatReading.Some? && avgReading.Some? {
        var gridLines := GridLines(buffer);
        if |gridLines| >= GRID_SIZE {
          ConcludeReady(n);
          ghost var f := FrameOf(n);
          FeedEmit(st, rest, f);
          ParseUartEmit(input, f);
          FrameOfFacts(n);
          FillPixels(grid, gridLines, f);
          return Some(Value(ptatReading.value)), Some(Value(avgReading.value)), Some(grid);
        }
      }
      ConcludeWaits(n);
      if |buffer| > MAX_BUFFER {
        buffer := [];
        ClearKeeps(n);
      }
      FeedContinue(st, rest, State(buffer, ptatReading, avgReading));
    }
    ParseUartContinue(input, State(buffer, ptatReading, avgReading));
    return None, None, None;
  }
}
