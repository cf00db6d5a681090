/** The scrolling text console: a ring of lines with dirty flags, against an unbounded transcript. */
module Console {

  const MAX_LINES: nat := 30

  datatype Cell = Cell(ch: nat, fg: nat, bg: nat)
  type Row = seq<Cell>

  const BLANK: Cell := Cell(32, 0xFFFF_FFFF, 0)

  function BlankRow(cols: nat): (r: Row)
    ensures |r| == cols && forall i | 0 <= i < cols :: r[i] == BLANK
  {
    seq(cols, _ => BLANK)
  }

  // ---------------------------------------------------------------------------
  // The transcript: every line ever written

  /** `rows` grows without bound; the cursor is at `row` and `col`. */
  datatype Transcript = Transcript(rows: seq<Row>, row: nat, col: nat)

  predicate TranscriptOk(t: Transcript, cols: nat) {
    t.row < |t.rows| && t.col < cols && forall i | 0 <= i < |t.rows| :: |t.rows[i]| == cols
  }

  function NextRow(t: Transcript, cols: nat): (t': Transcript)
    requires TranscriptOk(t, cols)
    ensures TranscriptOk(t', cols)
  {
    Transcript(if t.row + 1 < |t.rows| then t.rows else t.rows + [BlankRow(cols)], t.row + 1, 0)
  }

  function WithTyped(t: Transcript, cell: Cell, cols: nat): (t': Transcript)
    requires TranscriptOk(t, cols)
    ensures TranscriptOk(t', cols)
  {
    Transcript(t.rows[t.row := t.rows[t.row][t.col := cell]], t.row, t.col)
  }

  function TypeCell(t: Transcript, cell: Cell, cols: nat): (t': Transcript)
    requires TranscriptOk(t, cols)
    ensures TranscriptOk(t', cols)
  {
    var typed := WithTyped(t, cell, cols);
    if t.col + 1 < cols then Transcript(typed.rows, t.row, t.col + 1) else NextRow(typed, cols)
  }

  function TypeSpaces(t: Transcript, n: nat, cols: nat): (t': Transcript)
    requires TranscriptOk(t, cols)
    ensures TranscriptOk(t', cols)
    decreases n
  {
    if n == 0 then t else TypeSpaces(TypeCell(t, BLANK, cols), n - 1, cols)
  }

  const NEWLINE: nat := 10
  const RETURN: nat := 13
  const TAB: nat := 9

  function TypeChar(t: Transcript, ch: nat, cols: nat): (t': Transcript)
    requires TranscriptOk(t, cols)
    ensures TranscriptOk(t', cols)
  {
    if ch == NEWLINE then NextRow(t, cols)
    else if ch == RETURN then Transcript(t.rows, t.row, 0)
    else if ch == TAB then TypeSpaces(t, 4 - t.col % 4, cols)
    else TypeCell(t, Cell(ch, 0xFFFF_FFFF, 0), cols)
  }

  function TypeText(t: Transcript, text: seq<nat>, cols: nat): (t': Transcript)
    requires TranscriptOk(t, cols)
    ensures TranscriptOk(t', cols)
    decreases |text|
  {
    if text == [] then t else TypeText(TypeChar(t, text[0], cols), text[1..], cols)
  }

  // ---------------------------------------------------------------------------
  // The ring

  datatype Line = Line(chars: Row, dirty: bool)

  type Lines = s: seq<Line> | |s| == 30 witness seq(30, _ => Line([], false))

  datatype Ring = Ring(lines: Lines, count: nat, start: nat, visible: nat, line: nat, col: nat, cols: nat)

  /** Where a logical line is kept. */
  function Physical(start: nat, logical: nat): (p: nat)
    requires start < MAX_LINES && logical < MAX_LINES
    ensures p < MAX_LINES
  {
    if start + logical < MAX_LINES then start + logical else start + logical - MAX_LINES
  }

  lemma {:induction false} PhysicalIsModulo(start: nat, logical: nat)
    requires start < MAX_LINES && logical < MAX_LINES
    ensures Physical(start, logical) == (start + logical) % MAX_LINES
  {
  }

  /** The logical line kept at `p`. */
  function LogicalIndex(start: nat, p: nat): (i: nat)
    requires start < MAX_LINES && p < MAX_LINES
    ensures i < MAX_LINES && Physical(start, i) == p
  {
    if p >= start then p - start else p + MAX_LINES - start
  }

  predicate RingOk(r: Ring) {
    && 0 < r.visible <= r.count <= MAX_LINES && r.start < MAX_LINES && r.line < r.count && r.col < r.cols
    && forall i | 0 <= i < 30 :: |r.lines[i].chars| == r.cols
  }

  function PutLine(lines: Lines, i: nat, l: Line): (lines': Lines)
    requires i < 30
    ensures lines'[i] == l && forall j | 0 <= j < 30 && j != i :: lines'[j] == lines[j]
  {
    lines[i := l]
  }

  /** Line `p` of the ring is one of the first `count` logical lines. */
  predicate InUse(p: nat, start: nat, count: nat)
    requires start < MAX_LINES && p < MAX_LINES
  {
    LogicalIndex(start, p) < count
  }

  /** The first `count` logical lines marked dirty. */
  function MarkDirty(lines: Lines, start: nat, count: nat): (lines': Lines)
    requires start < MAX_LINES
    ensures forall i | 0 <= i < 30 :: lines'[i] == Line(lines[i].chars, lines[i].dirty || InUse(i, start, count))
  {
    seq(30, i requires 0 <= i < 30 => Line(lines[i].chars, lines[i].dirty || InUse(i, start, count)))
  }

  function ScrollUp(r: Ring): Ring
    requires r.count <= MAX_LINES && r.start < MAX_LINES
  {
    var blank := Line(BlankRow(r.cols), true);
    if r.count < MAX_LINES then
      var lines := PutLine(r.lines, Physical(r.start, r.count), blank);
      Ring(MarkDirty(lines, r.start, r.count + 1), r.count + 1, r.start, r.visible, r.count, r.col, r.cols)
    else
      var lines := PutLine(r.lines, r.start, blank);
      var start := Physical(r.start, 1);
      Ring(MarkDirty(lines, start, r.count), r.count, start, r.visible, r.count - 1, r.col, r.cols)
  }

  /** To column 0 of the next line, scrolling past the last one. */
  function Advance(r: Ring): (r': Ring)
    requires RingOk(r)
    ensures RingOk(r') && r'.cols == r.cols && r'.visible == r.visible
  {
    var next := Ring(r.lines, r.count, r.start, r.visible, r.line + 1, 0, r.cols);
    if next.line >= next.count then ScrollUp(next) else next
  }

  function SetChar(l: Line, col: nat, cell: Cell): Line {
    if col < |l.chars| then Line(l.chars[col := cell], true) else l
  }

  function WithCell(r: Ring, cell: Cell): (r': Ring)
    requires RingOk(r)
    ensures RingOk(r') && r'.cols == r.cols && r'.visible == r.visible
  {
    var p := Physical(r.start, r.line);
    Ring(PutLine(r.lines, p, SetChar(r.lines[p], r.col, cell)), r.count, r.start, r.visible, r.line, r.col, r.cols)
  }

  function PutCell(r: Ring, cell: Cell): (r': Ring)
    requires RingOk(r)
    ensures RingOk(r') && r'.cols == r.cols && r'.visible == r.visible
  {
    var done := WithCell(r, cell);
    if r.col + 1 < r.cols then Ring(done.lines, r.count, r.start, r.visible, r.line, r.col + 1, r.cols)
    else Advance(done)
  }

  // ---------------------------------------------------------------------------
  // The ring holds the last lines of the transcript

  /** The contents of the logical lines, oldest first. */
  function Logical(lines: Lines, start: nat, count: nat): (rows: seq<Row>)
    requires start < MAX_LINES && count <= MAX_LINES
    ensures |rows| == count && forall i {:trigger rows[i]} | 0 <= i < count :: rows[i] == lines[Physical(start, i)].chars
  {
    seq(count, i requires 0 <= i < count => lines[Physical(start, i)].chars)
  }

  /** The last `n` of a sequence. */
  function Last(rows: seq<Row>, n: nat): seq<Row>
    requires n <= |rows|
  {
    rows[|rows| - n..]
  }

  /** The logical lines are the last ones of the transcript, and as many as fit; the cursors agree. */
  predicate Shows(r: Ring, t: Transcript) {
    && RingOk(r) && TranscriptOk(t, r.cols) && r.col == t.col
    && r.count <= |t.rows| && (r.count == MAX_LINES || r.count == |t.rows|)
    && t.row == |t.rows| - r.count + r.line
    && Logical(r.lines, r.start, r.count) == Last(t.rows, r.count)
  }

  lemma {:induction false} PhysicalInjective(start: nat, i: nat, j: nat)
    requires start < MAX_LINES && i < MAX_LINES && j < MAX_LINES && i != j
    ensures Physical(start, i) != Physical(start, j)
  {
  }

  /** Logical lines after the ring has turned by one. */
  lemma {:induction false} PhysicalTurned(start: nat, i: nat)
    requires start < MAX_LINES && i + 1 < MAX_LINES
    ensures Physical(Physical(start, 1), i) == Physical(start, i + 1)
  {
  }

  lemma {:induction false} SetLogical(lines: Lines, start: nat, count: nat, line: nat, l: Line)
    requires start < MAX_LINES && line < count <= MAX_LINES
    ensures Logical(PutLine(lines, Physical(start, line), l), start, count) == Logical(lines, start, count)[line := l.chars]
  {
    forall i | 0 <= i < count && i != line ensures Physical(start, i) != Physical(start, line) {
      PhysicalInjective(start, i, line);
    }
  }

  lemma {:induction false} GrownLogical(lines: Lines, start: nat, count: nat, l: Line)
    requires start < MAX_LINES && count < MAX_LINES
    ensures Logical(PutLine(lines, Physical(start, count), l), start, count + 1) == Logical(lines, start, count) + [l.chars]
  {
    forall i | 0 <= i < count ensures Physical(start, i) != Physical(start, count) {
      PhysicalInjective(start, i, count);
    }
  }

  lemma {:induction false} TurnedLogical(lines: Lines, start: nat, l: Line)
    requires start < MAX_LINES
    ensures Logical(PutLine(lines, start, l), Physical(start, 1), MAX_LINES)
            == Logical(lines, start, MAX_LINES)[1..] + [l.chars]
  {
    var after := PutLine(lines, start, l);
    var turned := Logical(after, Physical(start, 1), MAX_LINES);
    forall i | 0 <= i < MAX_LINES
      ensures turned[i] == if i + 1 < MAX_LINES then Logical(lines, start, MAX_LINES)[i + 1] else l.chars
    {
      if i + 1 < MAX_LINES {
        PhysicalTurned(start, i);
        PhysicalInjective(start, i + 1, 0);
      }
    }
  }

  lemma {:induction false} MarkedLogical(lines: Lines, start: nat, count: nat)
    requires start < MAX_LINES && count <= MAX_LINES
    ensures Logical(MarkDirty(lines, start, count), start, count) == Logical(lines, start, count)
  {
  }

  /** Writing to a line, and starting a new one, seen from the end of the transcript. */
  lemma {:induction false} LastUpdated(rows: seq<Row>, n: nat, i: nat, row: Row)
    requires i < n <= |rows|
    ensures Last(rows[|rows| - n + i := row], n) == Last(rows, n)[i := row]
  {
  }

  lemma {:induction false} LastGrown(rows: seq<Row>, n: nat, row: Row)
    requires n <= |rows|
    ensures Last(rows + [row], n + 1) == Last(rows, n) + [row]
    ensures n > 0 ==> Last(rows + [row], n) == Last(rows, n)[1..] + [row]
  {
  }

  lemma {:induction false} SetRows(lines: Lines, start: nat, count: nat, line: nat, rows: seq<Row>, col: nat, cell: Cell)
    requires start < MAX_LINES && line < count <= MAX_LINES && count <= |rows|
    requires Logical(lines, start, count) == Last(rows, count)
    requires col < |rows[|rows| - count + line]|
    ensures var p, row := Physical(start, line), |rows| - count + line;
            && lines[p].chars == rows[row]
            && Logical(PutLine(lines, p, SetChar(lines[p], col, cell)), start, count)
               == Last(rows[row := rows[row][col := cell]], count)
  {
    var p, row := Physical(start, line), |rows| - count + line;
    assert rows[row] == Last(rows, count)[line] == Logical(lines, start, count)[line];
    SetLogical(lines, start, count, line, SetChar(lines[p], col, cell));
    LastUpdated(rows, count, line, rows[row][col := cell]);
  }

  lemma {:induction false} SetShows(r: Ring, t: Transcript, cell: Cell)
    requires Shows(r, t)
    ensures Shows(WithCell(r, cell), WithTyped(t, cell, r.cols))
  {
    SetRows(r.lines, r.start, r.count, r.line, t.rows, r.col, cell);
    assert WithTyped(t, cell, r.cols).row == |t.rows| - r.count + r.line;
  }

  lemma {:induction false} GrowShows(r: Ring, t: Transcript)
    requires Shows(r, t) && r.line + 1 == r.count < MAX_LINES
    ensures Shows(Advance(r), NextRow(t, r.cols))
  {
    var blank := Line(BlankRow(r.cols), true);
    GrownLogical(r.lines, r.start, r.count, blank);
    MarkedLogical(PutLine(r.lines, Physical(r.start, r.count), blank), r.start, r.count + 1);
    LastGrown(t.rows, r.count, blank.chars);
  }

  lemma {:induction false} TurnShows(r: Ring, t: Transcript)
    requires Shows(r, t) && r.line + 1 == r.count == MAX_LINES
    ensures Shows(Advance(r), NextRow(t, r.cols))
  {
    var blank := Line(BlankRow(r.cols), true);
    TurnedLogical(r.lines, r.start, blank);
    var lines, start := PutLine(r.lines, r.start, blank), Physical(r.start, 1);
    MarkedLogical(lines, start, MAX_LINES);
    LastGrown(t.rows, MAX_LINES, blank.chars);
    var r', t' := Advance(r), NextRow(t, r.cols);
    assert r'.lines == MarkDirty(lines, start, MAX_LINES) && r'.start == start && r'.count == MAX_LINES;
    assert t'.rows == t.rows + [blank.chars];
    assert Logical(r'.lines, r'.start, r'.count) == Last(t'.rows, r'.count);
  }

  lemma {:induction false} AdvanceShows(r: Ring, t: Transcript)
    requires Shows(r, t)
    ensures Shows(Advance(r), NextRow(t, r.cols))
  {
    if r.line + 1 == r.count {
      if r.count < MAX_LINES { GrowShows(r, t); } else { TurnShows(r, t); }
    }
  }

  lemma {:induction false} PutShows(r: Ring, t: Transcript, cell: Cell)
    requires Shows(r, t)
    ensures Shows(PutCell(r, cell), TypeCell(t, cell, r.cols))
  {
    SetShows(r, t, cell);
    if r.col + 1 == r.cols {
      AdvanceShows(WithCell(r, cell), WithTyped(t, cell, r.cols));
    }
  }

  function PutSpaces(r: Ring, n: nat): (r': Ring)
    requires RingOk(r)
    ensures RingOk(r') && r'.cols == r.cols && r'.visible == r.visible
    decreases n
  {
    if n == 0 then r else PutSpaces(PutCell(r, BLANK), n - 1)
  }

  function WriteChar(r: Ring, ch: nat): (r': Ring)
    requires RingOk(r)
    ensures RingOk(r') && r'.cols == r.cols && r'.visible == r.visible
  {
    if ch == NEWLINE then Advance(r)
    else if ch == RETURN then Ring(r.lines, r.count, r.start, r.visible, r.line, 0, r.cols)
    else if ch == TAB then PutSpaces(r, 4 - r.col % 4)
    else PutCell(r, Cell(ch, 0xFFFF_FFFF, 0))
  }

  lemma {:induction false} SpacesShow(r: Ring, t: Transcript, n: nat)
    requires Shows(r, t)
    ensures Shows(PutSpaces(r, n), TypeSpaces(t, n, r.cols))
    decreases n
  {
    if n != 0 {
      PutShows(r, t, BLANK);
      SpacesShow(PutCell(r, BLANK), TypeCell(t, BLANK, r.cols), n - 1);
    }
  }

  lemma {:induction false} CharShows(r: Ring, t: Transcript, ch: nat)
    requires Shows(r, t)
    ensures Shows(WriteChar(r, ch), TypeChar(t, ch, r.cols))
  {
    if ch == NEWLINE {
      AdvanceShows(r, t);
    } else if ch == TAB {
      SpacesShow(r, t, 4 - r.col % 4);
    } else if ch != RETURN {
      PutShows(r, t, Cell(ch, 0xFFFF_FFFF, 0));
    }
  }

  function WriteChars(r: Ring, text: seq<nat>): (r': Ring)
    requires RingOk(r)
    ensures RingOk(r') && r'.cols == r.cols && r'.visible == r.visible
    decreases |text|
  {
    if text == [] then r
    else
      WriteChars(WriteChar(r, text[0]), text[1..])
  }

  /** For every text the logical lines stay the last ones of the transcript. */
  lemma {:induction false} TextShows(r: Ring, t: Transcript, text: seq<nat>)
    requires Shows(r, t)
    ensures Shows(WriteChars(r, text), TypeText(t, text, r.cols))
    decreases |text|
  {
    if text != [] {
      CharShows(r, t, text[0]);
      TextShows(WriteChar(r, text[0]), TypeChar(t, text[0], r.cols), text[1..]);
    }
  }

  // ---------------------------------------------------------------------------
  // The screen

  /** The line shown in row `k` of the screen. */
  function ShownAt(r: Ring, k: nat): nat
    requires RingOk(r) && k < r.visible
  {
    Physical(r.start, r.count - r.visible + k)
  }

  /** Every row of the screen is up to date or its line is marked dirty. */
  predicate Current(r: Ring, screen: seq<Row>) {
    RingOk(r) && |screen| == r.visible &&
    forall k {:trigger ShownAt(r, k)} | 0 <= k < r.visible ::
      r.lines[ShownAt(r, k)].dirty || screen[k] == r.lines[ShownAt(r, k)].chars
  }

  /** What drawing every row anew would show. */
  function FullRedraw(r: Ring): (screen: seq<Row>)
    requires RingOk(r)
    ensures |screen| == r.visible && forall k {:trigger screen[k]} | 0 <= k < r.visible :: screen[k] == r.lines[ShownAt(r, k)].chars
  {
    seq(r.visible, k requires 0 <= k < r.visible => r.lines[ShownAt(r, k)].chars)
  }

  predicate IsShown(r: Ring, p: nat)
    requires RingOk(r) && p < MAX_LINES
  {
    r.count - r.visible <= LogicalIndex(r.start, p) < r.count
  }

  /** Only dirty rows are drawn, and their lines marked clean. */
  function RenderDirty(r: Ring, screen: seq<Row>): (r': (Ring, seq<Row>))
    requires RingOk(r) && |screen| == r.visible
    ensures r'.0 == Ring(r'.0.lines, r.count, r.start, r.visible, r.line, r.col, r.cols) && |r'.1| == r.visible
    ensures forall i | 0 <= i < 30 :: r'.0.lines[i] == Line(r.lines[i].chars, r.lines[i].dirty && !IsShown(r, i))
    ensures forall k | 0 <= k < r.visible ::
              r'.1[k] == if r.lines[ShownAt(r, k)].dirty then r.lines[ShownAt(r, k)].chars else screen[k]
  {
    (Ring(seq(30, i requires 0 <= i < 30 => Line(r.lines[i].chars, r.lines[i].dirty && !IsShown(r, i))),
          r.count, r.start, r.visible, r.line, r.col, r.cols),
     seq(r.visible, k requires 0 <= k < r.visible =>
       if r.lines[ShownAt(r, k)].dirty then r.lines[ShownAt(r, k)].chars else screen[k]))
  }

  lemma {:induction false} InUseIsPhysical(start: nat, count: nat, i: nat)
    requires start < MAX_LINES && i < count <= MAX_LINES
    ensures InUse(Physical(start, i), start, count)
  {
  }

  lemma {:induction false} CellKeepsCurrent(r: Ring, screen: seq<Row>, cell: Cell)
    requires Current(r, screen)
    ensures Current(WithCell(r, cell), screen)
  {
    var r' := WithCell(r, cell);
    forall k {:trigger ShownAt(r', k)} | 0 <= k < r.visible
      ensures r'.lines[ShownAt(r', k)].dirty || screen[k] == r'.lines[ShownAt(r', k)].chars
    {
      assert ShownAt(r', k) == ShownAt(r, k);
    }
  }

  lemma {:induction false} ScrollKeepsCurrent(r: Ring, screen: seq<Row>)
    requires Current(r, screen)
    ensures Current(Advance(r), screen)
  {
    var r' := Advance(r);
    forall k {:trigger ShownAt(r', k)} | 0 <= k < r.visible
      ensures r'.lines[ShownAt(r', k)].dirty || screen[k] == r'.lines[ShownAt(r', k)].chars
    {
      if r.line + 1 >= r.count {
        InUseIsPhysical(r'.start, r'.count, r'.count - r'.visible + k);
      } else {
        assert ShownAt(r', k) == ShownAt(r, k);
      }
    }
  }

  lemma {:induction false} MovedKeepsCurrent(r: Ring, screen: seq<Row>, col: nat)
    requires Current(r, screen) && col < r.cols
    ensures Current(Ring(r.lines, r.count, r.start, r.visible, r.line, col, r.cols), screen)
  {
    var r' := Ring(r.lines, r.count, r.start, r.visible, r.line, col, r.cols);
    assert forall k {:trigger ShownAt(r', k)} | 0 <= k < r.visible :: ShownAt(r', k) == ShownAt(r, k);
  }

  lemma {:induction false} PutKeepsCurrent(r: Ring, screen: seq<Row>, cell: Cell)
    requires Current(r, screen)
    ensures Current(PutCell(r, cell), screen)
  {
    CellKeepsCurrent(r, screen, cell);
    if r.col + 1 < r.cols {
      MovedKeepsCurrent(WithCell(r, cell), screen, r.col + 1);
    } else {
      ScrollKeepsCurrent(WithCell(r, cell), screen);
    }
  }

  lemma {:induction false} SpacesKeepCurrent(r: Ring, screen: seq<Row>, n: nat)
    requires Current(r, screen)
    ensures Current(PutSpaces(r, n), screen)
    decreases n
  {
    if n != 0 {
      PutKeepsCurrent(r, screen, BLANK);
      SpacesKeepCurrent(PutCell(r, BLANK), screen, n - 1);
    }
  }

  lemma {:induction false} CharKeepsCurrent(r: Ring, screen: seq<Row>, ch: nat)
    requires Current(r, screen)
    ensures Current(WriteChar(r, ch), screen)
  {
    if ch == NEWLINE {
      ScrollKeepsCurrent(r, screen);
    } else if ch == RETURN {
      MovedKeepsCurrent(r, screen, 0);
    } else if ch == TAB {
      SpacesKeepCurrent(r, screen, 4 - r.col % 4);
    } else {
      PutKeepsCurrent(r, screen, Cell(ch, 0xFFFF_FFFF, 0));
    }
  }

  lemma {:induction false} TextKeepsCurrent(r: Ring, screen: seq<Row>, text: seq<nat>)
    requires Current(r, screen)
    ensures Current(WriteChars(r, text), screen)
    decreases |text|
  {
    if text != [] {
      CharKeepsCurrent(r, screen, text[0]);
      TextKeepsCurrent(WriteChar(r, text[0]), screen, text[1..]);
    }
  }

  /** Drawing the dirty rows shows what drawing all of them would. */
  lemma {:induction false} RenderIsFullRedraw(r: Ring, screen: seq<Row>)
    requires Current(r, screen)
    ensures var (r', screen') := RenderDirty(r, screen);
            screen' == FullRedraw(r) && Current(r', screen') && Logical(r'.lines, r'.start, r'.count) == Logical(r.lines, r.start, r.count)
  {
    var (r', screen') := RenderDirty(r, screen);
    forall k | 0 <= k < r.visible ensures screen'[k] == FullRedraw(r)[k] == r'.lines[ShownAt(r', k)].chars {
      assert ShownAt(r', k) == ShownAt(r, k);
    }
  }

  // ---------------------------------------------------------------------------
  // Sessions

  /** A console with `rows` rows of `cols` columns, and its blank screen. */
  function Blank(rows: nat, cols: nat): Ring {
    var n := if rows < MAX_LINES then rows else MAX_LINES;
    Ring(seq(30, _ => Line(BlankRow(cols), false)), n, 0, n, 0, 0, cols)
  }

  function BlankRows(n: nat, cols: nat): (rows: seq<Row>)
    ensures |rows| == n && forall i | 0 <= i < n :: rows[i] == BlankRow(cols)
  {
    seq(n, _ => BlankRow(cols))
  }

  /** The ring and the screen after writing each text and drawing what it made dirty. */
  function Session(r: Ring, screen: seq<Row>, texts: seq<seq<nat>>): (Ring, seq<Row>)
    requires RingOk(r) && |screen| == r.visible
    decreases |texts|
  {
    if texts == [] then (r, screen)
    else
      var (r1, screen1) := RenderDirty(WriteChars(r, texts[0]), screen);
      Session(r1, screen1, texts[1..])
  }

  function TypeTexts(t: Transcript, texts: seq<seq<nat>>, cols: nat): (t': Transcript)
    requires TranscriptOk(t, cols)
    ensures TranscriptOk(t', cols)
    decreases |texts|
  {
    if texts == [] then t else TypeTexts(TypeText(t, texts[0], cols), texts[1..], cols)
  }

  lemma {:induction false} RenderKeepsShows(r: Ring, t: Transcript, screen: seq<Row>)
    requires Shows(r, t) && Current(r, screen)
    ensures Shows(RenderDirty(r, screen).0, t)
  {
    RenderIsFullRedraw(r, screen);
  }

  lemma {:induction false} RedrawIsTail(r: Ring, t: Transcript)
    requires Shows(r, t)
    ensures FullRedraw(r) == Last(t.rows, r.visible)
  {
    var screen := FullRedraw(r);
    forall k | 0 <= k < r.visible ensures screen[k] == Last(t.rows, r.visible)[k] {
      var i := r.count - r.visible + k;
      assert Logical(r.lines, r.start, r.count)[i] == Last(t.rows, r.count)[i];
    }
  }

  lemma {:induction false} SessionShows(r: Ring, t: Transcript, screen: seq<Row>, texts: seq<seq<nat>>)
    requires Shows(r, t) && Current(r, screen) && screen == Last(t.rows, r.visible)
    ensures var (r', screen') := Session(r, screen, texts); var t' := TypeTexts(t, texts, r.cols);
            Shows(r', t') && r.visible <= |t'.rows| && screen' == Last(t'.rows, r.visible)
    decreases |texts|
  {
    if texts != [] {
      var r1, t1 := WriteChars(r, texts[0]), TypeText(t, texts[0], r.cols);
      TextShows(r, t, texts[0]);
      TextKeepsCurrent(r, screen, texts[0]);
      var (r2, screen2) := RenderDirty(r1, screen);
      RenderIsFullRedraw(r1, screen);
      RenderKeepsShows(r1, t1, screen);
      RedrawIsTail(r1, t1);
      SessionShows(r2, t1, screen2, texts[1..]);
    }
  }

  /** After any texts, a console that started blank shows the last lines of the transcript of
      everything written. */
  lemma {:induction false} ScreenIsTranscriptTail(rows: nat, cols: nat, texts: seq<seq<nat>>)
    requires rows > 0 && cols > 0
    ensures var r := Blank(rows, cols); var t := Transcript(BlankRows(r.visible, cols), 0, 0);
            && RingOk(r) && TranscriptOk(t, cols)
            && var (r', screen) := Session(r, BlankRows(r.visible, cols), texts); var t' := TypeTexts(t, texts, cols);
               Shows(r', t') && r.visible <= |t'.rows| && screen == Last(t'.rows, r.visible)
  {
    var r := Blank(rows, cols);
    var blank := BlankRows(r.visible, cols);
    var t := Transcript(blank, 0, 0);
    assert Logical(r.lines, r.start, r.count) == Last(t.rows, r.count);
    assert blank == Last(t.rows, r.visible);
    SessionShows(r, t, blank, texts);
  }
}
