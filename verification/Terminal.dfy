/** The framebuffer code, working in place on the screen bytes. */
module Terminal {
  import opened Words
  import opened TerminalLog

  const SCREEN_BYTES := 2 * COLS * ROWS
  const CLEARED_BYTES := 120 * COLS    // framebuffer_clear clears this many bytes, well past the screen

  /** "clock" and its terminating zero. */
  const CLOCK_NAME: Bytes := ['c' as int, 'l' as int, 'o' as int, 'c' as int, 'k' as int, 0]

  predicate IsClock(name: Bytes) { |name| >= 6 && name[..6] == CLOCK_NAME }

  predicate ClockRunning(names: seq<Bytes>) { exists i :: 0 <= i < |names| && IsClock(names[i]) }

  lemma ClockName(name: Bytes)
    ensures IsClock(name) <==>
      |name| >= 6 && name[0] == 99 && name[1] == 108 && name[2] == 111 && name[3] == 99 && name[4] == 107 && name[5] == 0
  {
    if |name| >= 6 {
      assert name[..6] == [name[0], name[1], name[2], name[3], name[4], name[5]];
    }
  }

  /** A clock runs exactly when some process name begins with the letters of "clock" and a zero. */
  lemma ClockAmong(a: seq<Bytes>, b: seq<Bytes>, name: Bytes)
    ensures !ClockRunning([])
    ensures ClockRunning(a + b) <==> ClockRunning(a) || ClockRunning(b)
    ensures ClockRunning([name]) <==>
      |name| >= 6 && name[0] == 99 && name[1] == 108 && name[2] == 111 && name[3] == 99 && name[4] == 107 && name[5] == 0
  {
    hide IsClock;
    var c := a + b;
    forall i | 0 <= i < |c|
      ensures c[i] == if i < |a| then a[i] else b[i - |a|]
    {}
    if i :| 0 <= i < |a| && IsClock(a[i]) { assert IsClock(c[i]); }
    if i :| 0 <= i < |b| && IsClock(b[i]) { assert IsClock(c[|a| + i]); }
    ClockName(name);
    assert [name][0] == name;
  }

  function Position(r: nat, c: nat): nat { 2 * (COLS * r + c) }

  /** The buffer shows the log: even bytes hold the characters of the 25 rows. */
  ghost predicate Shows(fb: seq<u8>, g: Log)
    requires |fb| >= SCREEN_BYTES
  {
    forall r, c :: 0 <= r < ROWS && 0 <= c < COLS ==> fb[Position(r, c)] == Cell(g, r, c)
  }

  lemma NewLineCell(g: Log, clock: bool, r: nat, c: nat)
    requires g.top < |g.lines| <= g.top + ROWS && r < ROWS && c < COLS
    requires forall i :: 0 <= i < |g.lines| ==> |g.lines[i]| <= COLS
    ensures Cell(NewLine(g, clock), r, c) ==
      if |g.lines| - g.top < ROWS then Cell(g, r, c)
      else if r == ROWS - 1 || (r == ROWS - 2 && c >= 72 && clock) then 0
      else Cell(g, r + 1, c)
  {}

  /** The prefix of a C string that `puts` shows. */
  function Shown(str: Bytes, count: nat): (r: Bytes)
    ensures |r| <= count && |r| <= |str| && r == str[..|r|]
    ensures forall k :: 0 <= k < |r| ==> r[k] != 0
    ensures |r| == count || |r| == |str| || str[|r|] == 0
  {
    if count == 0 || str == [] || str[0] == 0 then [] else [str[0]] + Shown(str[1..], count - 1)
  }

  lemma ShownAt(str: Bytes, count: nat, i: nat)
    requires i <= |Shown(str, count)| && i < count && (count <= |str| || 0 in str)
    ensures i < |str| && (str[i] == 0 <==> i == |Shown(str, count)|)
  {
    var s := Shown(str, count);
    assert 0 !in s;
    assert |s| == |str| ==> s == str;
    assert i < |s| ==> s[i] == str[i];
  }

  /** The row above the cursor's, as the buffer shows it. */
  lemma ShownRow(fb: seq<u8>, g: Log, r: int)
    requires |fb| >= SCREEN_BYTES && Shows(fb, g) && ValidLog(g) && r == Row(g) - 1 >= 0
    ensures |g.lines| >= 2
    ensures var line := g.lines[|g.lines| - 2];
      |line| <= COLS && forall j :: 0 <= j < COLS ==> fb[Position(r, j)] == if j < |line| then line[j] else 0
  {}

  lemma BackCursor(h: Log)
    requires ValidLog(h) && !(Row(h) == 0 && Col(h) == 0)
    ensures |Back(h).lines| > 0
    ensures var g := Back(h);
      if Col(h) > 0 then Row(g) == Row(h) && Col(g) == Col(h) - 1
      else |h.lines| >= 2 && Row(g) == Row(h) - 1 && Col(g) == |DropLast(Stripped(h.lines[|h.lines| - 2]))|
  {}

  /** A backspace blanks the cell it moves to and no other. */
  lemma BackCell(g: Log, r: nat, c: nat)
    requires ValidLog(g) && r < ROWS && c < COLS && !(Row(g) == 0 && Col(g) == 0)
    ensures var h := Back(g);
      && 0 <= Row(h) && |h.lines| > 0
      && Cell(h, r, c) == if r == Row(h) && c == Col(h) then 0 else Cell(g, r, c)
  {}

  class Framebuffer {
    const fb: array<u8>
    var row: int
    var col: int
    ghost var log: Log

    ghost predicate Valid()
      reads this, fb
    {
      && fb.Length >= CLEARED_BYTES && ValidLog(log)
      && row == Row(log) && col == Col(log) && Shows(fb[..], log)
    }

    constructor ()
      ensures Valid() && log == EMPTY_LOG && fresh(fb)
    {
      fb := new u8[CLEARED_BYTES](_ => 0);
      row, col, log := 0, 0, EMPTY_LOG;
    }

    method Write(r: nat, c: nat, ch: u8, color: u32)
      requires r < ROWS && c < COLS && fb.Length >= SCREEN_BYTES
      modifies fb
      ensures fb[Position(r, c)] == ch
      ensures forall k :: 0 <= k < fb.Length && k != Position(r, c) && k != Position(r, c) + 1 ==> fb[k] == old(fb[k])
    {
      var pos := r * 80 + c;
      fb[pos * 2] := ch;
      fb[pos * 2 + 1] := color % 0x10;
    }

    method Read(r: nat, c: nat) returns (ch: u8)
      requires r < ROWS && c < COLS && fb.Length >= SCREEN_BYTES
      ensures ch == fb[Position(r, c)]
    {
      ch := fb[(r * 80 + c) * 2];
    }

    /** Clear the screen and home the cursor, as the clear system call does. */
    method Clear()
      requires Valid()
      modifies this, fb
      ensures Valid() && log == EMPTY_LOG
    {
      for i := 0 to CLEARED_BYTES
        invariant forall k :: 0 <= k < i ==> fb[k] == 0
      {
        fb[i] := 0;
      }
      row, col, log := 0, 0, EMPTY_LOG;
    }

    /** The byte copy under `go_scroll`: forward, source and destination overlapping. Because the destination lies
        below the source, every byte is read before it is overwritten. */
    method CopyUp()
      requires fb.Length >= SCREEN_BYTES
      modifies fb
      ensures forall k :: 0 <= k < 2 * COLS * (ROWS - 1) ==> fb[k] == old(fb[k + 2 * COLS])
      ensures forall k :: 2 * COLS * (ROWS - 1) <= k < fb.Length ==> fb[k] == old(fb[k])
    {
      for i := 0 to 2 * COLS * (ROWS - 1)
        invariant forall k :: 0 <= k < i ==> fb[k] == old(fb[k + 2 * COLS])
        invariant forall k :: i <= k < fb.Length ==> fb[k] == old(fb[k])
      {
        fb[i] := fb[i + 2 * COLS];
      }
    }

    method BlankCells(r: nat, from: nat)
      requires r < ROWS && from <= COLS && fb.Length >= SCREEN_BYTES
      modifies fb
      ensures forall i, j :: 0 <= i < ROWS && 0 <= j < COLS ==>
        fb[Position(i, j)] == if i == r && from <= j then 0 else old(fb[Position(i, j)])
    {
      for c := from to COLS
        invariant forall i, j :: 0 <= i < ROWS && 0 <= j < COLS ==>
          fb[Position(i, j)] == if i == r && from <= j < c then 0 else old(fb[Position(i, j)])
      {
        Write(r, c, 0, 0xF);
      }
    }

    /** Is a clock process in the table? */
    method FindClock(names: seq<Bytes>) returns (found: bool)
      ensures found == ClockRunning(names)
    {
      for i := 0 to |names|
        invariant forall k :: 0 <= k < i ==> !IsClock(names[k])
      {
        if IsClock(names[i]) { return true; }
      }
      return false;
    }

    /** The copy in terms of rows. */
    method ShiftRows()
      requires fb.Length >= SCREEN_BYTES
      modifies fb
      ensures forall i, j :: 0 <= i < ROWS - 1 && 0 <= j < COLS ==> fb[Position(i, j)] == old(fb[Position(i + 1, j)])
    {
      CopyUp();
      assert forall i, j {:trigger Position(i, j)} :: 0 <= i && 0 <= j ==> Position(i, j) + 2 * COLS == Position(i + 1, j);
    }

    /** The screen one row up, the clock's old cells wiped, the last row blank. */
    method GoScroll(names: seq<Bytes>)
      requires fb.Length >= SCREEN_BYTES && row == ROWS
      modifies `row, fb
      ensures row == ROWS - 1
      ensures forall i, j :: 0 <= i < ROWS && 0 <= j < COLS ==>
        fb[Position(i, j)] ==
          if i == ROWS - 1 || (i == ROWS - 2 && j >= 72 && ClockRunning(names)) then 0 else old(fb[Position(i + 1, j)])
    {
      ShiftRows();
      row := row - 1;
      var clock := FindClock(names);
      if clock { BlankCells(23, 72); }
      BlankCells(row, 0);
    }

    /** The screen shows `g` and the cursor is in its last row, whose line may be full. */
    ghost predicate Drawn(g: Log)
      reads this, fb
    {
      && fb.Length >= CLEARED_BYTES && g.top < |g.lines| <= g.top + ROWS
      && (forall i :: 0 <= i < |g.lines| ==> |g.lines[i]| <= COLS)
      && row == Row(g) && Shows(fb[..], g)
    }

    /** Down one row, scrolling at the bottom, to the first column. */
    method NextLine(names: seq<Bytes>, ghost g: Log)
      requires Drawn(g)
      modifies this, fb
      ensures Valid() && log == NewLine(g, ClockRunning(names))
    {
      ghost var before := fb[..];
      row := row + 1;
      if row == ROWS { GoScroll(names); }
      col := 0;
      log := NewLine(g, ClockRunning(names));
      forall r, c | 0 <= r < ROWS && 0 <= c < COLS
        ensures fb[..][Position(r, c)] == Cell(log, r, c)
      {
        NewLineCell(g, ClockRunning(names), r, c);
        assert r + 1 < ROWS ==> before[Position(r + 1, c)] == Cell(g, r + 1, c);
        assert before[Position(r, c)] == Cell(g, r, c);
      }
    }

    lemma CellsOthers(r: nat, c: nat)
      requires r < ROWS && c < COLS
      ensures forall i, j :: 0 <= i < ROWS && 0 <= j < COLS && (i, j) != (r, c) ==>
        Position(i, j) != Position(r, c) && Position(i, j) != Position(r, c) + 1
    {}

    method BlankAtCursor(color: u32)
      requires Valid()
      modifies fb
      ensures Valid()
    {
      Write(row, col, 0, color);
      CellsOthers(row, col);
    }

    method PutPrintable(c: u8, color: u32, names: seq<Bytes>)
      requires Valid() && Printable(c)
      modifies this, fb
      ensures Valid() && log == Put(old(log), c, ClockRunning(names))
    {
      ghost var g := SetLast(log, Last(log) + [c]);
      Write(row, col, c, color);
      CellsOthers(row, col);
      assert Shows(fb[..], g);
      col := col + 1;
      if col == COLS { NextLine(names, g); } else { log := g; }
      BlankAtCursor(color);
    }

    method PutTab(color: u32, names: seq<Bytes>)
      requires Valid()
      modifies this, fb
      ensures Valid() && log == Put(old(log), TAB, ClockRunning(names))
    {
      col := col + 4;
      if col >= COLS {
        NextLine(names, log);
      } else {
        ghost var g := SetLast(log, Last(log) + Blanks(4));
        assert Shows(fb[..], g);
        log := g;
      }
      BlankAtCursor(color);
    }

    /** Leftwards from the end of a row to its last visible character, or to column 0. */
    method SeekVisible(r: nat, ghost line: Line) returns (c: int)
      requires fb.Length >= SCREEN_BYTES && r < ROWS && |line| <= COLS
      requires forall j :: 0 <= j < COLS ==> fb[Position(r, j)] == if j < |line| then line[j] else 0
      ensures c == |DropLast(Stripped(line))|
    {
      c := COLS - 1;
      var ch := Read(r, c);
      while ch == 0 && c != 0
        invariant 0 <= c < COLS && |Stripped(line)| <= c + 1
        invariant ch == if c < |line| then line[c] else 0
      {
        c := c - 1;
        ch := Read(r, c);
      }
    }

    /** The cursor's way back: one cell left, or up to the last visible character of the row above. */
    method StepBack()
      requires Valid() && !(col == 0 && row == 0)
      modifies `row, `col
      ensures row == Row(Back(log)) && col == Col(Back(log))
    {
      hide Back, Stripped, DropLast, Shows, Cell;
      BackCursor(log);
      col := col - 1;
      if col < 0 {
        row := row - 1;
        ShownRow(fb[..], log, row);
        col := SeekVisible(row, log.lines[|log.lines| - 2]);
        if row <= 0 { row := 0; }
      }
    }

    /** Backspace away from the top left corner. */
    method Erase(color: u32)
      requires Valid() && !(col == 0 && row == 0)
      modifies this, fb
      ensures Valid() && log == Back(old(log))
    {
      hide Back, Cell;
      ghost var g, h := Back(log), log;
      BackKeepsValid(h);
      StepBack();
      Write(row, col, 0, color);
      CellsOthers(row, col);
      forall r, c | 0 <= r < ROWS && 0 <= c < COLS
        ensures Cell(g, r, c) == if r == row && c == col then 0 else Cell(h, r, c)
      {
        BackCell(h, r, c);
      }
      log := g;
    }

    /** One character: newline, tab, backspace or a printable one; NUL is ignored. */
    method PutsChar(c: u8, color: u32, names: seq<Bytes>)
      requires Valid()
      modifies this, fb
      ensures Valid() && log == Put(old(log), c, ClockRunning(names))
    {
      if c != 0 {
        if c == NEWLINE {
          NextLine(names, log);
          BlankAtCursor(color);
        } else if c == TAB {
          PutTab(color, names);
        } else if c == BACKSPACE {
          if !(col == 0 && row == 0) { Erase(color); }
        } else {
          PutPrintable(c, color, names);
        }
      }
    }

    /** A string, up to its terminating zero or the given count. */
    method Puts(str: Bytes, count: nat, color: u32, names: seq<Bytes>)
      requires Valid() && (count <= |str| || 0 in str)
      modifies this, fb
      ensures Valid() && log == PutAll(old(log), Shown(str, count), Steady(count, ClockRunning(names)))
    {
      ghost var s := Shown(str, count);
      assert s[..0] == [];
      for i := 0 to count
        invariant Valid() && i <= |s| && s[..i] == str[..i]
        invariant log == PutAll(old(log), s[..i], Steady(count, ClockRunning(names)))
      {
        ShownAt(str, count, i);
        if str[i] == 0 {
          assert s[..i] == s;
          return;
        }
        PutsChar(str[i], color, names);
        assert s[..i + 1][..i] == s[..i];
      }
      assert s[..count] == s;
    }
  }
}
