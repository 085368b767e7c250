/** What each character does, said about the lines themselves: newlines start lines, tabs are four blanks, and a
    backspace at the start of a line takes the last visible character above. */
module TerminalLaws {
  import opened Words
  import opened TerminalLog

  // ---------- lines are independent ----------

  /** A new line is started by a newline, by a tab from column 76 on, and by a character in column 79. */
  lemma WhenLineStarts(g: Log, c: u8)
    requires |g.lines| > 0 && c != BACKSPACE
    ensures |Put(g, c, false).lines| == |g.lines| +
      if c == 10 || (c == 9 && Col(g) >= 76) || (Printable(c) && Col(g) == 79) then 1 else 0
  {}

  /** Without backspaces and clock only the last line matters. */
  lemma OnlyLastLine(g: Log, c: u8)
    requires |g.lines| > 0 && c != BACKSPACE
    ensures Put(g, c, false).lines == g.lines[..|g.lines| - 1] + Put(Log([Last(g)], 0), c, false).lines
  {
    var h := Log([Last(g)], 0);
    assert Last(h) == Last(g) && g.lines == g.lines[..|g.lines| - 1] + [Last(g)];
    PutAdds(g, c);
    PutAdds(h, c);
    WhenLineStarts(g, c);
    WhenLineStarts(h, c);
  }

  predicate NoClock(s: Bytes, clocks: seq<bool>) { |s| <= |clocks| && forall k :: 0 <= k < |s| ==> !clocks[k] }

  lemma LastStep(g: Log, s: Bytes, clocks: seq<bool>)
    requires |g.lines| > 0 && s != [] && NoClock(s, clocks)
    ensures PutAll(g, s, clocks) == Put(PutAll(g, s[..|s| - 1], clocks), s[|s| - 1], false)
  {}

  lemma {:induction false} LinesFrom(g: Log, s: Bytes, clocks: seq<bool>)
    requires |g.lines| > 0 && BackspaceFree(s) && NoClock(s, clocks)
    ensures PutAll(g, s, clocks).lines == g.lines[..|g.lines| - 1] + PutAll(Log([Last(g)], 0), s, clocks).lines
    decreases |s|
  {
    var h := Log([Last(g)], 0);
    if s == [] {
      assert g.lines == g.lines[..|g.lines| - 1] + [Last(g)];
    } else {
      var t, c := s[..|s| - 1], s[|s| - 1];
      assert BackspaceFree(t) && c != BACKSPACE;
      LinesFrom(g, t, clocks);
      var g', h' := PutAll(g, t, clocks), PutAll(h, t, clocks);
      assert Last(g') == Last(h') && g'.lines[..|g'.lines| - 1] == g.lines[..|g.lines| - 1] + h'.lines[..|h'.lines| - 1];
      hide Put, PutAll;
      LastStep(g, s, clocks);
      LastStep(h, s, clocks);
      OnlyLastLine(g', c);
      OnlyLastLine(h', c);
    }
  }

  /** A newline starts a line: what comes after it stands on lines of its own, exactly as on an empty screen. */
  lemma NewlineSeparates(a: Bytes, b: Bytes, ca: seq<bool>, cb: seq<bool>)
    requires BackspaceFree(a) && BackspaceFree(b) && |ca| == |a| + 1 && NoClock(a + [10], ca) && NoClock(b, cb)
    ensures PutAll(EMPTY_LOG, a + [10] + b, ca + cb).lines == PutAll(EMPTY_LOG, a, ca).lines + PutAll(EMPTY_LOG, b, cb).lines
  {
    var g := PutAll(EMPTY_LOG, a, ca);
    var h := PutAll(EMPTY_LOG, a + [10], ca);
    PutAllStep(EMPTY_LOG, a, 10, ca);
    assert h.lines == g.lines + [[]];
    StreamsJoin(EMPTY_LOG, a + [10], b, ca, cb);
    LinesFrom(h, b, cb);
    assert h.lines[..|h.lines| - 1] == g.lines && Log([Last(h)], 0) == EMPTY_LOG;
  }

  // ---------- where every character stands ----------

  predicate Plain(s: Bytes) { forall k :: 0 <= k < |s| ==> s[k] == 10 || Printable(s[k]) }

  /** Characters since the last newline. */
  function Since(s: Bytes): nat { if s == [] || s[|s| - 1] == 10 then 0 else Since(s[..|s| - 1]) + 1 }

  /** Rows taken by the text up to and including its last newline: one for each started 80 characters of every
      paragraph, and one more for a paragraph that fills its rows exactly. */
  function RowsBefore(s: Bytes): nat {
    if s == [] then 0
    else if s[|s| - 1] == 10 then RowsBefore(s[..|s| - 1]) + Since(s[..|s| - 1]) / 80 + 1
    else RowsBefore(s[..|s| - 1])
  }

  /** Character `k` stands in row `RowsBefore + Since / 80`, column `Since % 80` of what precedes it. */
  predicate InPlace(lines: seq<Line>, s: Bytes, k: nat)
    requires k < |s|
  {
    var r, c := RowsBefore(s[..k]) + Since(s[..k]) / 80, Since(s[..k]) % 80;
    r < |lines| && c < |lines[r]| && lines[r][c] == s[k]
  }

  lemma PlainStep(g: Log, c: u8)
    requires |g.lines| > 0 && (c == 10 || Printable(c))
    ensures Put(g, c, false).lines ==
      if c == 10 then g.lines + [[]]
      else
        var more := g.lines[|g.lines| - 1 := Last(g) + [c]];
        if Col(g) == 79 then more + [[]] else more
  {}

  lemma {:induction false} PlaceOfCursor(s: Bytes, clocks: seq<bool>)
    requires Plain(s) && NoClock(s, clocks)
    ensures var g := PutAll(EMPTY_LOG, s, clocks);
      |g.lines| == RowsBefore(s) + Since(s) / 80 + 1 && Col(g) == Since(s) % 80
    decreases |s|
  {
    if s != [] {
      var t, c := s[..|s| - 1], s[|s| - 1];
      PlaceOfCursor(t, clocks);
      LastStep(EMPTY_LOG, s, clocks);
      var g := PutAll(EMPTY_LOG, t, clocks);
      hide PutAll, Put;
      PlainStep(g, c);
      assert Since(s) == (if c == 10 then 0 else Since(t) + 1);
    }
  }

  lemma StaysInPlace(a: seq<Line>, b: seq<Line>, t: Bytes, c: u8, k: nat)
    requires k < |t| && InPlace(a, t, k) && |a| <= |b|
    requires forall i :: 0 <= i < |a| ==> |a[i]| <= |b[i]| && b[i][..|a[i]|] == a[i]
    ensures InPlace(b, t + [c], k)
  {
    assert (t + [c])[..k] == t[..k] && (t + [c])[k] == t[k];
    var r, j := RowsBefore(t[..k]) + Since(t[..k]) / 80, Since(t[..k]) % 80;
    assert b[r][..|a[r]|][j] == a[r][j];
  }

  lemma NewInPlace(a: seq<Line>, b: seq<Line>, s: Bytes)
    requires s != [] && var t := s[..|s| - 1];
      |a| == RowsBefore(t) + Since(t) / 80 + 1 && |a[|a| - 1]| == Since(t) % 80 && |a| <= |b| && b[|a| - 1] == a[|a| - 1] + [s[|s| - 1]]
    ensures InPlace(b, s, |s| - 1)
  {}

  lemma PlaceStep(g: Log, s: Bytes)
    requires s != [] && Plain(s) && |g.lines| > 0 && var t := s[..|s| - 1];
      && |g.lines| == RowsBefore(t) + Since(t) / 80 + 1 && Col(g) == Since(t) % 80
      && forall k :: 0 <= k < |t| && t[k] != 10 ==> InPlace(g.lines, t, k)
    ensures var h := Put(g, s[|s| - 1], false); forall k :: 0 <= k < |s| && s[k] != 10 ==> InPlace(h.lines, s, k)
  {
    hide Put, InPlace, RowsBefore, Since;
    var t, c := s[..|s| - 1], s[|s| - 1];
    var a, b := g.lines, Put(g, c, false).lines;
    PlainStep(g, c);
    assert s == t + [c];
    forall k | 0 <= k < |s| && s[k] != 10
      ensures InPlace(b, s, k)
    {
      if k < |t| {
        assert InPlace(a, t, k);
        StaysInPlace(a, b, t, c, k);
      } else {
        NewInPlace(a, b, s);
      }
    }
  }

  /** Every character of a text of printable characters and newlines stands in its place, and the cursor after
      the last one. */
  lemma {:induction false} PlaceOfEach(s: Bytes, clocks: seq<bool>)
    requires Plain(s) && NoClock(s, clocks)
    ensures var g := PutAll(EMPTY_LOG, s, clocks);
      && |g.lines| == RowsBefore(s) + Since(s) / 80 + 1 && Col(g) == Since(s) % 80
      && forall k :: 0 <= k < |s| && s[k] != 10 ==> InPlace(g.lines, s, k)
    decreases |s|
  {
    PlaceOfCursor(s, clocks);
    if s != [] {
      var t, c := s[..|s| - 1], s[|s| - 1];
      PlaceOfEach(t, clocks);
      PlaceOfCursor(t, clocks);
      LastStep(EMPTY_LOG, s, clocks);
      PlaceStep(PutAll(EMPTY_LOG, t, clocks), s);
    }
  }

  // ---------- the tab ----------

  /** A tab is four blank cells, or a new line from column 76 on. */
  lemma TabIsFourBlanks(g: Log, clock: bool)
    requires ValidLog(g)
    ensures Col(g) < 76 ==> Put(g, 9, clock).lines == g.lines[..|g.lines| - 1] + [Last(g) + [0, 0, 0, 0]] && Put(g, 9, clock).top == g.top
    ensures Col(g) >= 76 && !clock ==> Put(g, 9, clock).lines == g.lines + [[]]
    ensures Col(g) >= 76 ==> Put(g, 9, clock) == Put(g, 10, clock)
  {
    assert g.lines == g.lines[..|g.lines| - 1] + [Last(g)];
    assert Blanks(4) == [0, 0, 0, 0];
  }

  // ---------- backspace, and the zero character ----------

  lemma ZeroIsIgnored(g: Log, clock: bool)
    requires |g.lines| > 0
    ensures Put(g, 0, clock) == g
  {}

  /** The last visible character of a line stands at `p`. */
  predicate LastVisible(line: Line, p: nat) { p < |line| && line[p] != 0 && forall k :: p < k < |line| ==> line[k] == 0 }

  predicate AllBlank(line: Line) { forall k :: 0 <= k < |line| ==> line[k] == 0 }

  /** Within a line a backspace takes back one cell; in the top left corner it does nothing; at the start of any
      other line it takes the line, and all of a blank line above. */
  lemma BackspaceTakes(g: Log, clock: bool)
    requires ValidLog(g)
    ensures var h := Put(g, 8, clock); var n := |g.lines|;
      && h.top == g.top
      && (Col(g) > 0 ==> h.lines == g.lines[..n - 1] + [Last(g)[..Col(g) - 1]])
      && (Col(g) == 0 && Row(g) == 0 ==> h == g)
      && (Col(g) == 0 && Row(g) > 0 && AllBlank(g.lines[n - 2]) ==> h.lines == g.lines[..n - 2] + [[]])
  {
    var n := |g.lines|;
    if Col(g) > 0 {
      assert Put(g, 8, clock).lines == g.lines[..n - 1] + [Last(g)[..Col(g) - 1]];
    } else if Row(g) > 0 && AllBlank(g.lines[n - 2]) {
      assert Stripped(g.lines[n - 2]) == [];
      assert Put(g, 8, clock).lines == g.lines[..n - 2] + [[]];
    }
  }

  /** At the start of a line below the top of the screen a backspace takes the line, and the last visible
      character of the line above with the blanks behind it. */
  lemma BackspaceGoesUp(g: Log, clock: bool, p: nat)
    requires ValidLog(g) && Col(g) == 0 && Row(g) > 0 && LastVisible(g.lines[|g.lines| - 2], p)
    ensures Put(g, 8, clock) == Log(g.lines[..|g.lines| - 2] + [g.lines[|g.lines| - 2][..p]], g.top)
  {
    var n := |g.lines|;
    var line := g.lines[n - 2];
    var s := Stripped(line);
    assert |s| == p + 1;
    assert DropLast(s) == line[..p];
    assert Put(g, 8, clock).lines == g.lines[..n - 2] + [line[..p]];
  }

  /** A newline taken back right away costs the last visible character before it. */
  lemma NewlineThenErase(g: Log, clock: bool, p: nat)
    requires ValidLog(g) && Row(g) < 24 && LastVisible(Last(g), p)
    ensures Put(Put(g, 10, clock), 8, clock) == Log(g.lines[..|g.lines| - 1] + [Last(g)[..p]], g.top)
  {
    var h := Put(g, 10, clock);
    assert h == Log(g.lines + [[]], g.top) && h.lines[|h.lines| - 2] == Last(g);
    assert h.lines[..|h.lines| - 2] == g.lines[..|g.lines| - 1];
    PutKeepsValid(g, 10, clock);
    BackspaceGoesUp(h, clock, p);
  }

  // ---------- the scroll ----------

  /** A newline on the bottom row moves every row up by one; with a clock process the last eight columns of the
      row it stood on are blanked. */
  lemma ScrollMovesUp(g: Log, clock: bool, r: nat, c: nat)
    requires ValidLog(g) && Row(g) == 24 && r < 25 && c < 80
    ensures var h := Put(g, 10, clock);
      && Row(h) == 24 && Col(h) == 0
      && Cell(h, r, c) == if r == 24 || (clock && r == 23 && 72 <= c) then 0 else Cell(g, r + 1, c)
  {}
}
