/** The text terminal as an editing log: unbounded lines of which a window of 25 is on screen. */
module TerminalLog {
  import opened Words

  const ROWS := 25
  const COLS := 80
  const BACKSPACE: u8 := 8
  const TAB: u8 := 9
  const NEWLINE: u8 := 10

  type Line = seq<u8>

  /** All lines written, the last one holding the cursor at its end; the screen shows those from `top`. */
  datatype Log = Log(lines: seq<Line>, top: nat)

  const EMPTY_LOG := Log([[]], 0)

  function Last(g: Log): Line
    requires |g.lines| > 0
  {
    g.lines[|g.lines| - 1]
  }

  ghost predicate ValidLog(g: Log) {
    && g.top < |g.lines| <= g.top + ROWS
    && (forall i :: 0 <= i < |g.lines| ==> |g.lines[i]| <= COLS)
    && |Last(g)| < COLS
  }

  function Row(g: Log): int { |g.lines| - 1 - g.top }

  function Col(g: Log): nat
    requires |g.lines| > 0
  {
    |Last(g)|
  }

  /** What the screen shows at a position. */
  function Cell(g: Log, r: nat, c: nat): u8 {
    if g.top + r < |g.lines| && c < |g.lines[g.top + r]| then g.lines[g.top + r][c] else 0
  }

  function SetLast(g: Log, line: Line): Log
    requires |g.lines| > 0
  {
    g.(lines := g.lines[|g.lines| - 1 := line])
  }

  function Blanks(n: nat): Line { seq(n, _ => 0) }

  /** The eight cells at the end of a row, where a clock process draws. */
  function Wiped(line: Line): Line { if |line| > 72 then line[..72] + Blanks(|line| - 72) else line }

  /** Starts a new line, scrolling when the screen is full; the scroll wipes the clock's cells, which have
      moved up one row, if a clock process exists. */
  function NewLine(g: Log, clock: bool): Log
    requires |g.lines| > 0
  {
    if |g.lines| - g.top == ROWS then
      var h := if clock then SetLast(g, Wiped(Last(g))) else g;
      Log(h.lines + [[]], g.top + 1)
    else Log(g.lines + [[]], g.top)
  }

  function Stripped(line: Line): (r: Line)
    ensures |r| <= |line| && r == line[..|r|]
    ensures r == [] || r[|r| - 1] != 0
    ensures forall k :: |r| <= k < |line| ==> line[k] == 0
  {
    if line == [] || line[|line| - 1] != 0 then line else Stripped(line[..|line| - 1])
  }

  function DropLast(line: Line): Line { if line == [] then [] else line[..|line| - 1] }

  /** Backspace removes the last cell of the line; at the start of a line it goes up and removes the last
      visible character there; at the top of the screen it does nothing. */
  function Back(g: Log): Log
    requires |g.lines| > 0
  {
    var n := |g.lines|;
    if Last(g) != [] then SetLast(g, DropLast(Last(g)))
    else if n - 1 <= g.top then g
    else g.(lines := g.lines[..n - 1][n - 2 := DropLast(Stripped(g.lines[n - 2]))])
  }

  function Put(g: Log, c: u8, clock: bool): (r: Log)
    requires |g.lines| > 0
    ensures |r.lines| > 0
  {
    if c == 0 then g
    else if c == NEWLINE then NewLine(g, clock)
    else if c == TAB then
      if Col(g) + 4 >= COLS then NewLine(g, clock) else SetLast(g, Last(g) + Blanks(4))
    else if c == BACKSPACE then Back(g)
    else
      var h := SetLast(g, Last(g) + [c]);
      if Col(h) == COLS then NewLine(h, clock) else h
  }

  /** A stream of characters; `clocks` says for each of them whether a clock process exists by then. */
  function PutAll(g: Log, s: Bytes, clocks: seq<bool>): (r: Log)
    requires |g.lines| > 0 && |s| <= |clocks|
    ensures |r.lines| > 0
  {
    if s == [] then g else Put(PutAll(g, s[..|s| - 1], clocks), s[|s| - 1], clocks[|s| - 1])
  }

  /** The same answer for every character. */
  function Steady(n: nat, clock: bool): seq<bool> { seq(n, _ => clock) }

  predicate Printable(c: u8) { c != 0 && c != NEWLINE && c != TAB && c != BACKSPACE }

  // ---------- properties ----------

  /** Lines fit the screen, and those on screen fit its rows; the last one may be full. */
  ghost predicate Fitting(g: Log) {
    && g.top < |g.lines| <= g.top + ROWS
    && forall i :: 0 <= i < |g.lines| ==> |g.lines[i]| <= COLS
  }

  lemma SetLastFits(g: Log, line: Line)
    requires Fitting(g) && |line| <= COLS
    ensures Fitting(SetLast(g, line)) && Last(SetLast(g, line)) == line
  {}

  lemma NewLineKeepsValid(g: Log, clock: bool)
    requires Fitting(g)
    ensures ValidLog(NewLine(g, clock))
  {
    SetLastFits(g, Wiped(Last(g)));
  }

  lemma BackKeepsValid(g: Log)
    requires ValidLog(g)
    ensures ValidLog(Back(g))
  {}

  lemma PutKeepsValid(g: Log, c: u8, clock: bool)
    requires ValidLog(g)
    ensures ValidLog(Put(g, c, clock))
  {
    hide NewLine, Back, SetLast;
    if c == NEWLINE {
      NewLineKeepsValid(g, clock);
    } else if c == TAB {
      NewLineKeepsValid(g, clock);
      if Col(g) + 4 < COLS { SetLastFits(g, Last(g) + Blanks(4)); }
    } else if c == BACKSPACE {
      BackKeepsValid(g);
    } else {
      SetLastFits(g, Last(g) + [c]);
      NewLineKeepsValid(SetLast(g, Last(g) + [c]), clock);
    }
  }

  lemma {:induction false} PutAllKeepsValid(g: Log, s: Bytes, clocks: seq<bool>)
    requires ValidLog(g) && |s| <= |clocks|
    ensures ValidLog(PutAll(g, s, clocks))
    decreases |s|
  {
    if s != [] {
      PutAllKeepsValid(g, s[..|s| - 1], clocks);
      PutKeepsValid(PutAll(g, s[..|s| - 1], clocks), s[|s| - 1], clocks[|s| - 1]);
    }
  }

  lemma {:induction false} SameClocks(g: Log, s: Bytes, clocks: seq<bool>, clocks': seq<bool>)
    requires |g.lines| > 0 && |s| <= |clocks| && |s| <= |clocks'| && clocks[..|s|] == clocks'[..|s|]
    ensures PutAll(g, s, clocks) == PutAll(g, s, clocks')
    decreases |s|
  {
    if s != [] {
      var n := |s| - 1;
      assert clocks[n] == clocks[..|s|][n] && clocks'[n] == clocks'[..|s|][n];
      assert clocks[..n] == clocks[..|s|][..n] && clocks'[..n] == clocks'[..|s|][..n];
      SameClocks(g, s[..n], clocks, clocks');
    }
  }

  lemma PutAllStep(g: Log, s: Bytes, c: u8, clocks: seq<bool>)
    requires |g.lines| > 0 && |s| < |clocks|
    ensures PutAll(g, s + [c], clocks) == Put(PutAll(g, s, clocks), c, clocks[|s|])
  {
    assert (s + [c])[..|s|] == s;
  }

  lemma PutNothing(g: Log, clocks: seq<bool>)
    requires |g.lines| > 0
    ensures PutAll(g, [], clocks) == g
  {}

  /** One output after another is one stream, whatever happens to the clock process in between. */
  lemma {:induction false} StreamsJoin(g: Log, a: Bytes, b: Bytes, ca: seq<bool>, cb: seq<bool>)
    requires |g.lines| > 0 && |a| == |ca| && |b| <= |cb|
    ensures PutAll(PutAll(g, a, ca), b, cb) == PutAll(g, a + b, ca + cb)
    decreases |b|
  {
    hide PutAll, Put;
    if b == [] {
      assert a + b == a && (ca + cb)[..|a|] == ca[..|a|];
      SameClocks(g, a, ca, ca + cb);
      PutNothing(PutAll(g, a, ca), cb);
    } else {
      var t, c := b[..|b| - 1], b[|b| - 1];
      assert b == t + [c] && a + b == (a + t) + [c];
      StreamsJoin(g, a, t, ca, cb);
      PutAllStep(PutAll(g, a, ca), t, c, cb);
      PutAllStep(g, a + t, c, ca + cb);
    }
  }

  lemma BlankAfterCursor(h: Log, r: nat, c: nat)
    requires ValidLog(h) && c < COLS && (r > Row(h) || (r == Row(h) && c >= Col(h)))
    ensures Cell(h, r, c) == 0
  {}

  /** For every stream, backspaces included, the cursor stays on the screen and everything at or after it is
      blank. */
  lemma BlankFromCursor(g: Log, s: Bytes, clocks: seq<bool>, r: nat, c: nat)
    requires ValidLog(g) && c < COLS && |s| <= |clocks|
    ensures var h := PutAll(g, s, clocks);
      && 0 <= Row(h) < ROWS && Col(h) < COLS
      && (r > Row(h) || (r == Row(h) && c >= Col(h)) ==> Cell(h, r, c) == 0)
  {
    PutAllKeepsValid(g, s, clocks);
    var h := PutAll(g, s, clocks);
    if r > Row(h) || (r == Row(h) && c >= Col(h)) { BlankAfterCursor(h, r, c); }
  }

  /** A printable character followed by a backspace restores the log, hence every cell and the cursor, exactly
      when the character did not cause a scroll. */
  lemma TypeThenErase(g: Log, c: u8, clock: bool)
    requires ValidLog(g) && Printable(c)
    ensures var h := Put(Put(g, c, clock), BACKSPACE, clock);
      (h == g <==> !(Row(g) == ROWS - 1 && Col(g) == COLS - 1)) && (h != g ==> Row(h) != Row(g))
  {
    var h := Put(Put(g, c, clock), BACKSPACE, clock);
    if Col(g) < COLS - 1 {
      assert h.lines == g.lines;
    } else {
      var full := Last(g) + [c];
      assert full[|full| - 1] == c;
      if Row(g) < ROWS - 1 {
        assert Stripped(full) == full;
        assert h.lines == g.lines;
      }
    }
  }

  predicate BackspaceFree(s: Bytes) { BACKSPACE !in s }

  /** Without backspaces the screen shows the last 25 lines of the log, also when clock processes come and go. */
  lemma {:induction false} ShowsLastLines(s: Bytes, clocks: seq<bool>)
    requires BackspaceFree(s) && |s| <= |clocks|
    ensures var g := PutAll(EMPTY_LOG, s, clocks); g.top == if |g.lines| > ROWS then |g.lines| - ROWS else 0
    decreases |s|
  {
    if s != [] {
      assert BackspaceFree(s[..|s| - 1]) && s[|s| - 1] != BACKSPACE;
      ShowsLastLines(s[..|s| - 1], clocks);
      PutAllKeepsValid(EMPTY_LOG, s[..|s| - 1], clocks);
    }
  }

  /** The text of a stream or of the log: its printable characters in order. */
  function Text(s: Bytes): Bytes {
    if s == [] then [] else Text(s[..|s| - 1]) + (if Printable(s[|s| - 1]) then [s[|s| - 1]] else [])
  }

  function Joined(lines: seq<Line>): Bytes {
    if lines == [] then [] else Joined(lines[..|lines| - 1]) + lines[|lines| - 1]
  }

  lemma {:induction false} TextOfJoin(a: Bytes, b: Bytes)
    ensures Text(a + b) == Text(a) + Text(b)
    decreases |b|
  {
    if b == [] {
      assert a + b == a;
    } else {
      assert (a + b)[..|a + b| - 1] == a + b[..|b| - 1];
      TextOfJoin(a, b[..|b| - 1]);
    }
  }

  lemma {:induction false} TextOfBlanks(n: nat)
    ensures Text(Blanks(n)) == []
  {
    if n > 0 {
      assert Blanks(n)[..n - 1] == Blanks(n - 1);
      TextOfBlanks(n - 1);
    }
  }

  lemma JoinedAppend(lines: seq<Line>, more: Line)
    ensures Joined(lines + [more]) == Joined(lines) + more
  {
    assert (lines + [more])[..|lines + [more]| - 1] == lines;
  }

  /** The cells a character other than backspace adds to the last line. */
  function Added(g: Log, c: u8): Line
    requires |g.lines| > 0
  {
    if Printable(c) then [c] else if c == TAB && Col(g) + 4 < COLS then Blanks(4) else []
  }

  lemma PutAdds(g: Log, c: u8)
    requires |g.lines| > 0 && c != BACKSPACE
    ensures var lines := SetLast(g, Last(g) + Added(g, c)).lines;
      Put(g, c, false).lines == lines || Put(g, c, false).lines == lines + [[]]
  {
    assert Last(g) + [] == Last(g);
    assert SetLast(g, Last(g)).lines == g.lines;
  }

  lemma JoinedSetLast(g: Log, more: Line)
    requires |g.lines| > 0
    ensures Joined(SetLast(g, Last(g) + more).lines) == Joined(g.lines) + more
  {
    var init := g.lines[..|g.lines| - 1];
    assert g.lines == init + [Last(g)];
    assert SetLast(g, Last(g) + more).lines == init + [Last(g) + more];
    JoinedAppend(init, Last(g));
    JoinedAppend(init, Last(g) + more);
    assert Joined(init) + (Last(g) + more) == Joined(init) + Last(g) + more;
  }

  lemma TextOfPut(g: Log, c: u8)
    requires |g.lines| > 0 && c != BACKSPACE
    ensures Text(Joined(Put(g, c, false).lines)) == Text(Joined(g.lines)) + (if Printable(c) then [c] else [])
  {
    hide Put;
    var more := Added(g, c);
    var lines := SetLast(g, Last(g) + more).lines;
    PutAdds(g, c);
    JoinedSetLast(g, more);
    JoinedAppend(lines, []);
    assert Joined(lines) + [] == Joined(lines);
    TextOfJoin(Joined(g.lines), more);
    TextOfBlanks(4);
    assert Text([]) == [];
    assert Printable(c) ==> Text([c]) == [c] by { assert [c][..0] == []; }
  }

  /** Nothing typed is lost or reordered: without backspaces and without a clock, the log holds exactly the
      printable characters of the stream, in order. */
  lemma {:induction false} TextConserved(s: Bytes, clocks: seq<bool>)
    requires BackspaceFree(s) && |s| <= |clocks| && forall k :: 0 <= k < |s| ==> !clocks[k]
    ensures Text(Joined(PutAll(EMPTY_LOG, s, clocks).lines)) == Text(s)
    decreases |s|
  {
    if s == [] {
      JoinedAppend([], []);
      assert [] + [[]] == EMPTY_LOG.lines;
    } else {
      var t, c := s[..|s| - 1], s[|s| - 1];
      assert BackspaceFree(t) && c != BACKSPACE;
      TextConserved(t, clocks);
      TextOfPut(PutAll(EMPTY_LOG, t, clocks), c);
    }
  }

  lemma PutPlain(g: Log, c: u8)
    requires |g.lines| > 0 && Printable(c)
    ensures var lines := g.lines[|g.lines| - 1 := Last(g) + [c]];
      Put(g, c, false).lines == if Col(g) + 1 == COLS then lines + [[]] else lines
  {}

  /** Character `k` of the text stands in row `k / 80`, column `k % 80`. */
  predicate StandsAt(lines: seq<Line>, s: Bytes, k: nat)
    requires k < |s|
  {
    k / COLS < |lines| && k % COLS < |lines[k / COLS]| && lines[k / COLS][k % COLS] == s[k]
  }

  lemma WrapStep(a: seq<Line>, b: seq<Line>, s: Bytes, k: nat)
    requires k < |s| && var n := |s| - 1;
      && |a| == n / COLS + 1 && |a[|a| - 1]| == n % COLS
      && var more := a[|a| - 1 := a[|a| - 1] + [s[n]]];
      && b == (if n % COLS + 1 == COLS then more + [[]] else more)
      && (k < n ==> StandsAt(a, s[..n], k))
    ensures StandsAt(b, s, k)
  {}

  /** Plain text is cut into rows of exactly 80. */
  lemma {:induction false} WrapsAtEighty(s: Bytes, clocks: seq<bool>)
    requires |s| <= |clocks| && forall k :: 0 <= k < |s| ==> Printable(s[k]) && !clocks[k]
    ensures var g := PutAll(EMPTY_LOG, s, clocks);
      && |g.lines| == |s| / COLS + 1 && Col(g) == |s| % COLS
      && forall k :: 0 <= k < |s| ==> StandsAt(g.lines, s, k)
    decreases |s|
  {
    if s != [] {
      var t := s[..|s| - 1];
      WrapsAtEighty(t, clocks);
      var g, h := PutAll(EMPTY_LOG, t, clocks), PutAll(EMPTY_LOG, s, clocks);
      var n := |t|;
      assert h == Put(g, s[n], false);
      hide PutAll, Put, StandsAt;
      PutPlain(g, s[n]);
      forall k | 0 <= k < |s|
        ensures StandsAt(h.lines, s, k)
      {
        assert k < n ==> StandsAt(g.lines, t, k);
        WrapStep(g.lines, h.lines, s, k);
      }
    }
  }
}
