/** The console's line ring, updated in place. */
module ConsoleRing {
  import opened Spec = Console

  class Renderer {
    const lines: array<Line>
    const screen: array<Row>
    var count: nat
    var start: nat
    const visible: nat
    var line: nat
    var col: nat
    const cols: nat

    ghost predicate Valid()
      reads this, lines, screen
    {
      lines.Length == 30 && screen.Length == visible && RingOk(R())
    }

    ghost function R(): Ring
      requires lines.Length == 30
      reads this, lines
    {
      Ring(lines[..], count, start, visible, line, col, cols)
    }

    constructor (rows: nat, cols: nat)
      requires rows > 0 && cols > 0
      ensures Valid() && R() == Blank(rows, cols) && screen[..] == BlankRows(visible, cols)
      ensures fresh(lines) && fresh(screen)
    {
      var n := if rows < MAX_LINES then rows else MAX_LINES;
      this.cols := cols;
      lines := new Line[30](_ => Line(BlankRow(cols), false));
      screen := new Row[n](_ => BlankRow(cols));
      count, start, visible, line, col := n, 0, n, 0, 0;
    }

    method ScrollUp()
      requires lines.Length == 30 && count <= MAX_LINES && start < MAX_LINES
      modifies lines, this`count, this`start, this`line
      ensures R() == Spec.ScrollUp(old(R()))
    {
      var blank := Line(BlankRow(cols), true);
      if count < MAX_LINES {
        PhysicalIsModulo(start, count);
        var p := (start + count) % MAX_LINES;
        lines[p] := blank;
        assert lines[..] == PutLine(old(lines[..]), p, blank);
        count := count + 1;
        line := count - 1;
      } else {
        lines[start] := blank;
        assert lines[..] == PutLine(old(lines[..]), start, blank);
        PhysicalIsModulo(start, 1);
        start := (start + 1) % MAX_LINES;
        line := count - 1;
      }
      MarkAllDirty();
    }

    method MarkAllDirty()
      requires lines.Length == 30 && count <= MAX_LINES && start < MAX_LINES
      modifies lines
      ensures lines[..] == MarkDirty(old(lines[..]), start, count)
    {
      var i := 0;
      while i < count
        invariant i <= count
        invariant forall p | 0 <= p < 30 ::
                    lines[p] == Line(old(lines[p].chars), old(lines[p].dirty) || InUse(p, start, i))
      {
        PhysicalIsModulo(start, i);
        var p := (start + i) % MAX_LINES;
        lines[p] := Line(lines[p].chars, true);
        i := i + 1;
      }
      assert lines[..] == MarkDirty(old(lines[..]), start, count);
    }

    method NextLine()
      requires Valid()
      modifies lines, this`count, this`start, this`line, this`col
      ensures Valid() && R() == Advance(old(R()))
    {
      col := 0;
      line := line + 1;
      if line >= count {
        ScrollUp();
      }
    }

    method PutChar(cell: Cell)
      requires Valid()
      modifies lines, this`count, this`start, this`line, this`col
      ensures Valid() && R() == PutCell(old(R()), cell)
    {
      PhysicalIsModulo(start, line);
      var p := (start + line) % MAX_LINES;
      lines[p] := SetChar(lines[p], col, cell);
      assert lines[..] == PutLine(old(lines[..]), p, SetChar(old(lines[p]), col, cell));
      assert R() == WithCell(old(R()), cell);
      if col + 1 >= cols {
        NextLine();
      } else {
        col := col + 1;
      }
    }

    method WriteChar(ch: nat)
      requires Valid()
      modifies lines, this`count, this`start, this`line, this`col
      ensures Valid() && R() == Spec.WriteChar(old(R()), ch)
    {
      if ch == NEWLINE {
        NextLine();
      } else if ch == RETURN {
        col := 0;
      } else if ch == TAB {
        WriteSpaces(4 - col % 4);
      } else {
        PutChar(Cell(ch, 0xFFFF_FFFF, 0));
      }
    }

    method WriteSpaces(n: nat)
      requires Valid()
      modifies lines, this`count, this`start, this`line, this`col
      ensures Valid() && R() == PutSpaces(old(R()), n)
    {
      var i := 0;
      while i < n
        invariant i <= n && Valid()
        invariant PutSpaces(R(), n - i) == PutSpaces(old(R()), n)
      {
        PutChar(BLANK);
        i := i + 1;
      }
    }

    method WriteText(text: seq<nat>)
      requires Valid()
      modifies lines, screen, this`count, this`start, this`line, this`col
      ensures Valid() && (R(), screen[..]) == Spec.RenderDirty(WriteChars(old(R()), text), old(screen[..]))
    {
      var i := 0;
      while i < |text|
        invariant i <= |text| && Valid() && screen[..] == old(screen[..])
        invariant WriteChars(R(), text[i..]) == WriteChars(old(R()), text)
      {
        assert text[i..][0] == text[i] && text[i..][1..] == text[i + 1..];
        WriteChar(text[i]);
        i := i + 1;
      }
      RenderDirty();
    }

    method RenderDirty()
      requires Valid()
      modifies lines, screen
      ensures Valid() && (R(), screen[..]) == Spec.RenderDirty(old(R()), old(screen[..]))
    {
      var shown := count - visible;
      var k := 0;
      while k < visible
        invariant k <= visible
        invariant lines[..] == DrawnLines(old(lines[..]), start, shown, k)
        invariant screen[..] == DrawnRows(old(lines[..]), old(screen[..]), start, shown, k)
      {
        DrawRow(k, shown);
        OneMoreRow(old(lines[..]), old(screen[..]), start, shown, k);
        k := k + 1;
      }
      DrawnAll(old(R()), old(screen[..]));
    }

    /** Draws row `k` of the screen if its line is dirty. */
    method DrawRow(k: nat, shown: nat)
      requires lines.Length == 30 && k < screen.Length && start < MAX_LINES && shown + k < MAX_LINES
      modifies lines, screen
      ensures lines[..] == CleanLine(old(lines[..]), Physical(start, shown + k))
      ensures screen[..] == DrawLine(old(lines[..]), old(screen[..]), Physical(start, shown + k), k)
    {
      PhysicalIsModulo(start, shown + k);
      var p := (start + (shown + k)) % MAX_LINES;
      if lines[p].dirty {
        screen[k] := lines[p].chars;
        lines[p] := Line(lines[p].chars, false);
      }
      assert lines[..] == CleanLine(old(lines[..]), p);
      assert screen[..] == DrawLine(old(lines[..]), old(screen[..]), p, k);
    }
  }

  function CleanLine(lines: Lines, p: nat): Lines
    requires p < MAX_LINES
  {
    PutLine(lines, p, Line(lines[p].chars, false))
  }

  function DrawLine(lines: Lines, screen: seq<Row>, p: nat, k: nat): seq<Row>
    requires p < MAX_LINES && k < |screen|
  {
    if lines[p].dirty then screen[k := lines[p].chars] else screen
  }

  /** The lines, and the screen, when `k` rows from logical line `shown` on have been drawn. */
  function DrawnLines(lines: Lines, start: nat, shown: nat, k: nat): (r: Lines)
    requires start < MAX_LINES
    ensures forall p | 0 <= p < 30 ::
              r[p] == Line(lines[p].chars, lines[p].dirty && !(shown <= LogicalIndex(start, p) < shown + k))
  {
    seq(30, p requires 0 <= p < 30 =>
      Line(lines[p].chars, lines[p].dirty && !(shown <= LogicalIndex(start, p) < shown + k)))
  }

  function DrawnRows(lines: Lines, screen: seq<Row>, start: nat, shown: nat, k: nat): (r: seq<Row>)
    requires start < MAX_LINES && k <= |screen| && shown + |screen| <= MAX_LINES
    ensures |r| == |screen|
    ensures forall j | 0 <= j < |screen| ::
              r[j] == if j < k && lines[Physical(start, shown + j)].dirty then lines[Physical(start, shown + j)].chars else screen[j]
  {
    seq(|screen|, j requires 0 <= j < |screen| =>
      if j < k && lines[Physical(start, shown + j)].dirty then lines[Physical(start, shown + j)].chars else screen[j])
  }

  lemma OneMoreRow(lines: Lines, screen: seq<Row>, start: nat, shown: nat, k: nat)
    requires start < MAX_LINES && k < |screen| && shown + |screen| <= MAX_LINES
    ensures var p := Physical(start, shown + k); var before := DrawnLines(lines, start, shown, k);
            && CleanLine(before, p) == DrawnLines(lines, start, shown, k + 1)
            && DrawLine(before, DrawnRows(lines, screen, start, shown, k), p, k) == DrawnRows(lines, screen, start, shown, k + 1)
  {
    var p := Physical(start, shown + k);
    var before := DrawnLines(lines, start, shown, k);
    var after := DrawnLines(lines, start, shown, k + 1);
    forall q | 0 <= q < 30 ensures CleanLine(before, p)[q] == after[q] {
    }
  }

  lemma DrawnAll(r: Ring, screen: seq<Row>)
    requires RingOk(r) && |screen| == r.visible
    ensures (Ring(DrawnLines(r.lines, r.start, r.count - r.visible, r.visible), r.count, r.start, r.visible, r.line, r.col, r.cols),
             DrawnRows(r.lines, screen, r.start, r.count - r.visible, r.visible)) == Spec.RenderDirty(r, screen)
    ensures RingOk(Spec.RenderDirty(r, screen).0)
  {
    var (r', screen') := Spec.RenderDirty(r, screen);
    assert DrawnLines(r.lines, r.start, r.count - r.visible, r.visible) == r'.lines;
    var rows := DrawnRows(r.lines, screen, r.start, r.count - r.visible, r.visible);
    forall k | 0 <= k < r.visible ensures rows[k] == screen'[k] {
      assert ShownAt(r, k) == Physical(r.start, r.count - r.visible + k);
    }
    assert rows == screen';
  }
}
