/** Relative paths, paths put together, and what one word of a path does. */
module PathLaws {
  import opened Words
  import opened FatLayout
  import opened FatShape
  import opened FatTree
  import opened Paths

  // ---------- walking down ----------

  /** `c` is `d` or lies below it. */
  ghost predicate Below(v: Volume, sh: Shape, c: nat, d: nat)
    requires Sound(v, sh) && c in sh.depth
    decreases sh.depth[c]
  {
    c == d || (c != ROOT_CLUSTER &&
      (ParentIsAbove(v, sh, c);
       Below(v, sh, Parent(v, c), d)))
  }

  /** The names met walking up from `c` to `d`, nearest first. */
  ghost function NamesBelow(v: Volume, sh: Shape, c: nat, d: nat): seq<Name>
    requires Sound(v, sh) && c in sh.depth && Below(v, sh, c, d)
    decreases sh.depth[c]
  {
    if c == d then []
    else
      ParentIsAbove(v, sh, c);
      [v.tables[c][0].name] + NamesBelow(v, sh, Parent(v, c), d)
  }

  /** Every directory from `c` up to just below `d` is found by its name in its parent. */
  ghost predicate AddressableBelow(v: Volume, sh: Shape, c: nat, d: nat)
    requires Sound(v, sh) && c in sh.depth && Below(v, sh, c, d)
    decreases sh.depth[c]
  {
    if c == d then true
    else
      ParentIsAbove(v, sh, c);
      FoundByName(v, sh, c) && AddressableBelow(v, sh, Parent(v, c), d)
  }

  lemma {:induction false} WalkDown(v: Volume, sh: Shape, c: nat, d: nat)
    requires Sound(v, sh) && c in sh.depth && Below(v, sh, c, d) && AddressableBelow(v, sh, c, d)
    ensures Go(v, d, Texts(NamesBelow(v, sh, c, d))) == Arrival(0, c)
    ensures forall k :: 0 <= k < |NamesBelow(v, sh, c, d)| ==> ValidName(NamesBelow(v, sh, c, d)[k])
    decreases sh.depth[c]
  {
    hide FoundByName, DirOk, EntriesOk, OwnersOk;
    if c != d {
      ParentIsAbove(v, sh, c);
      var p := Parent(v, c);
      WalkDown(v, sh, p, d);
      var up := NamesBelow(v, sh, p, d);
      assert NamesBelow(v, sh, c, d)[1..] == up;
      StepDown(v, sh, c);
      GoSnoc(v, d, Texts(up), NameText(v.tables[c][0].name));
    }
  }

  lemma {:induction false} SpelledStart(names: seq<Name>)
    requires names != [] && forall k :: 0 <= k < |names| ==> ValidName(names[k])
    ensures Spell(names) != [] && Spell(names)[0] != SLASH
    decreases |names|
  {
    if |names| > 1 {
      SpelledStart(names[1..]);
    } else {
      assert NameText(names[0])[0] in NameText(names[0]);
    }
  }

  /** The names from `d` down to a directory below it, spelled without a leading slash, lead from `d` to that
      directory. */
  lemma RelativeRoundTrip(v: Volume, sh: Shape, c: nat, d: nat)
    requires Sound(v, sh) && c in sh.depth && c != d && Below(v, sh, c, d) && AddressableBelow(v, sh, c, d)
    ensures var path := Spell(NamesBelow(v, sh, c, d));
      path != [] && path[0] != 47 && Destination(v, d, path, true) == Arrival(0, c)
  {
    hide FoundByName, AddressableBelow, Sound, Go, Pieces, Spell, ValidName;
    WalkDown(v, sh, c, d);
    var names := NamesBelow(v, sh, c, d);
    SpelledStart(names);
    SplitOfSpell(names);
  }

  // ---------- paths put together ----------

  lemma PiecesSnoc(s: Bytes, c: u8)
    ensures Pieces(s + [c]) == var r := Pieces(s); if c == SLASH then r + [[]] else r[|r| - 1 := r[|r| - 1] + [c]]
  {
    assert (s + [c])[..|s|] == s;
  }

  lemma LastChanged(p: seq<Bytes>, q: seq<Bytes>, x: Bytes)
    requires q != []
    ensures (p + q)[|p + q| - 1] == q[|q| - 1] && (p + q)[|p + q| - 1 := x] == p + q[|q| - 1 := x]
    ensures p + q + [x] == p + (q + [x])
  {}

  lemma {:induction false} PiecesJoin(a: Bytes, b: Bytes)
    ensures Pieces(a + [SLASH] + b) == Pieces(a) + Pieces(b)
    decreases |b|
  {
    hide Pieces;
    if b == [] {
      NoPieces();
      PiecesSnoc(a, SLASH);
      assert a + [SLASH] + b == a + [SLASH];
    } else {
      var t, c := b[..|b| - 1], b[|b| - 1];
      PiecesJoin(a, t);
      PiecesSnoc(t, c);
      PiecesSnoc(a + [SLASH] + t, c);
      assert b == t + [c] && a + [SLASH] + b == a + [SLASH] + t + [c];
      var p, q := Pieces(a), Pieces(t);
      LastChanged(p, q, if c == SLASH then [] else q[|q| - 1] + [c]);
    }
  }

  lemma {:induction false} GoJoin(v: Volume, d: nat, a: seq<Bytes>, b: seq<Bytes>)
    requires Sized(v)
    ensures Go(v, d, a + b) == if Go(v, d, a).code == 0 then Go(v, Go(v, d, a).dir, b) else Go(v, d, a)
    decreases |a|
  {
    if a == [] {
      assert a + b == b;
    } else {
      assert (a + b)[1..] == a[1..] + b;
      if d < DISK_CLUSTERS && NameSlot(v.tables[d], Field(a[0]), 0) < TABLE_SLOTS {
        GoJoin(v, First(v.tables[d][NameSlot(v.tables[d], Field(a[0]), 0)]), a[1..], b);
      }
    }
  }

  lemma SplitJoin(p: Bytes, r: Bytes)
    requires p != []
    ensures Split(p + [47] + r) == Split(p) + Pieces(r) && IsAbsolute(p + [47] + r) == IsAbsolute(p)
  {
    if IsAbsolute(p) {
      assert (p + [47] + r)[1..] == p[1..] + [47] + r;
      PiecesJoin(p[1..], r);
    } else {
      PiecesJoin(p, r);
    }
  }

  /** A path, a slash and a relative path: the second walk starts where the first one ends, and a failure of the
      first is the failure of the whole. */
  lemma PathsCompose(v: Volume, start: nat, p: Bytes, r: Bytes)
    requires Sized(v) && p != [] && !IsAbsolute(r)
    ensures Destination(v, start, p + [47] + r, true) ==
      var a := Destination(v, start, p, true); if a.code == 0 then Destination(v, a.dir, r, true) else a
  {
    SplitJoin(p, r);
    GoJoin(v, if IsAbsolute(p) then ROOT_CLUSTER else start, Split(p), Pieces(r));
  }

  /** Where a path starts: at the root with a leading slash, else at the current directory. */
  lemma StartOfPath(v: Volume, start: nat, r: Bytes)
    requires Sized(v) && !IsAbsolute(r)
    ensures Destination(v, start, [47] + r, true) == Destination(v, 2, r, true)
  {
    assert ([47] + r)[1..] == r;
  }

  lemma PieceOfWord(w: Bytes)
    requires SLASH !in w
    ensures Pieces(w) == [w]
  {
    PiecesOfWord([], w);
    assert [] + w == w;
  }

  /** With `isdir` false the last word is left out: the walk ends in the directory that is to hold it. */
  lemma LastWordIsLeftOut(v: Volume, start: nat, p: Bytes, w: Bytes)
    requires Sized(v) && SLASH !in w
    ensures p != [] ==> Destination(v, start, p + [47] + w, false) == Destination(v, start, p, true)
    ensures start < DISK_CLUSTERS ==> Destination(v, start, w, false) == Arrival(0, start)
    ensures Destination(v, start, [47] + w, false) == Arrival(0, 2)
  {
    PieceOfWord(w);
    assert !IsAbsolute(w);
    assert ([47] + w)[1..] == w;
    if p != [] {
      SplitJoin(p, w);
      assert (Split(p) + [w])[..|Split(p)|] == Split(p);
    }
  }

  // ---------- one word ----------

  /** A live entry whose eight name bytes are the word's, zeros behind a shorter one. */
  predicate Answers(e: Entry, w: Bytes) {
    Live(e) && forall k :: 0 <= k < 8 ==> e.name[k] == if k < |w| then w[k] else 0
  }

  lemma AnswersByField(e: Entry, w: Bytes)
    ensures Answers(e, w) <==> Live(e) && e.name == Field(w)
  {
    if Answers(e, w) {
      assert forall k :: 0 <= k < 8 ==> e.name[k] == Field(w)[k];
    }
  }

  /** The first slot that answers to a word, if any does. */
  lemma FirstAnswer(t: Table, w: Bytes)
    ensures var n := NameSlot(t, Field(w), 0);
      && (n < 64 ==> Answers(t[n], w)) && forall k :: 0 <= k < n && k < 64 ==> !Answers(t[k], w)
  {
    hide NameSlot, Answers, Field;
    forall s | 0 <= s < 64
      ensures Answers(t[s], w) <==> Live(t[s]) && t[s].name == Field(w)
    {
      AnswersByField(t[s], w);
    }
  }

  lemma WalkOfWord(v: Volume, d: nat, w: Bytes)
    requires Sized(v) && d < DISK_CLUSTERS && SLASH !in w
    ensures var s := NameSlot(v.tables[d], Field(w), 0); var a := Destination(v, d, w, true);
      && (s == 64 ==> a == Arrival(2, d))
      && (s < 64 ==> var e := v.tables[d][s];
            a == if e.attribute != 0x10 then Arrival(3, d) else if First(e) < 2048 then Arrival(0, First(e)) else Arrival(-1, First(e)))
  {
    hide NameSlot, Field, First, Pieces;
    PieceOfWord(w);
    var words: seq<Bytes> := [w];
    assert words[1..] == [];
    GoStep(v, d, words);
  }

  /** What `cd` with one word does in directory `d`: 2 if no live slot answers to it; else the first that does
      decides: 3 for a file, and otherwise the walk is at its cluster. */
  lemma OneWord(v: Volume, d: nat, w: Bytes)
    requires Sized(v) && d < DISK_CLUSTERS && SLASH !in w
    ensures (forall s :: 0 <= s < 64 ==> !Answers(v.tables[d][s], w)) ==> Destination(v, d, w, true) == Arrival(2, d)
    ensures forall s :: 0 <= s < 64 && Answers(v.tables[d][s], w) && (forall k :: 0 <= k < s ==> !Answers(v.tables[d][k], w)) ==>
      var c := v.tables[d][s].clusterHigh * 65536 + v.tables[d][s].clusterLow;
      Destination(v, d, w, true) ==
        if v.tables[d][s].attribute != 0x10 then Arrival(3, d) else if c < 2048 then Arrival(0, c) else Arrival(-1, c)
  {
    hide NameSlot, Answers, Field, Go, Destination;
    FirstAnswer(v.tables[d], w);
    WalkOfWord(v, d, w);
    forall s | 0 <= s < 64 && Answers(v.tables[d][s], w) && (forall k :: 0 <= k < s ==> !Answers(v.tables[d][k], w))
      ensures s == NameSlot(v.tables[d], Field(w), 0)
    {}
  }
}
