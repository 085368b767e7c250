/** The shell's directory commands, working in place on its table buffer, its text buffers and the current
    directory: the prompt's path, `cd` and `find`. */
module Shell {
  import opened Words
  import opened FatLayout
  import opened FatShape
  import opened FatOps
  import opened Disk
  import opened Paths
  import opened Find

  // ---------- buffers of short zero-padded words ----------

  const WIDTH := 10

  function Cell(rows: seq<Bytes>, i: nat, j: nat): u8 {
    if i < |rows| && j < |rows[i]| then rows[i][j] else 0
  }

  /** The buffer holds these words, one a row, and zeros everywhere else. */
  ghost predicate Holds(a: array2<u8>, rows: seq<Bytes>)
    reads a
  {
    && a.Length1 == WIDTH && |rows| <= a.Length0
    && (forall k :: 0 <= k < |rows| ==> |rows[k]| <= WIDTH)
    && forall i, j :: 0 <= i < a.Length0 && 0 <= j < a.Length1 ==> a[i, j] == Cell(rows, i, j)
  }

  method Zero(a: array2<u8>)
    requires a.Length1 == WIDTH
    modifies a
    ensures Holds(a, [])
  {
    for i := 0 to a.Length0
      invariant forall k, l :: 0 <= k < i && 0 <= l < a.Length1 ==> a[k, l] == 0
    {
      for j := 0 to a.Length1
        invariant forall k, l :: 0 <= k < i && 0 <= l < a.Length1 ==> a[k, l] == 0
        invariant forall l :: 0 <= l < j ==> a[i, l] == 0
      {
        a[i, j] := 0;
      }
    }
  }

  /** Copies an eight-byte name into the first unused row. */
  method CopyName(a: array2<u8>, i: nat, name: Name, ghost rows: seq<Bytes>)
    requires Holds(a, rows) && i == |rows| < a.Length0
    modifies a
    ensures Holds(a, rows + [name])
  {
    for j := 0 to 8
      invariant forall l :: 0 <= l < WIDTH ==> a[i, l] == if l < j then name[l] else 0
      invariant forall k, l :: 0 <= k < a.Length0 && k != i && 0 <= l < WIDTH ==> a[k, l] == Cell(rows, k, l)
    {
      a[i, j] := name[j];
    }
  }

  /** Zeroes the last used row. */
  method ClearRow(a: array2<u8>, i: nat, ghost rows: seq<Bytes>)
    requires Holds(a, rows) && i + 1 == |rows|
    modifies a
    ensures Holds(a, rows[..i])
  {
    for j := 0 to WIDTH
      invariant forall l :: 0 <= l < j ==> a[i, l] == 0
      invariant forall k, l :: 0 <= k < a.Length0 && k != i && 0 <= l < WIDTH ==> a[k, l] == Cell(rows, k, l)
    {
      a[i, j] := 0;
    }
  }

  /** An unused row is an empty word. */
  lemma WordStarts(a: array2<u8>, rows: seq<Bytes>)
    requires Holds(a, rows) && |rows| < a.Length0
    ensures Holds(a, rows + [[]]) && (rows == [] ==> Holds(a, [[]]))
  {
    assert rows == [] ==> rows + [[]] == [[]];
  }

  lemma {:induction false} NameTextEnds(b: Bytes, n: nat)
    requires n <= |b| && (forall k :: 0 <= k < n ==> b[k] != 0) && (n < |b| ==> b[n] == 0)
    ensures NameText(b) == b[..n]
    decreases n
  {
    if n > 0 {
      NameTextEnds(b[1..], n - 1);
    }
  }

  /** The bytes of a message. */
  function Text(s: string): Bytes { seq(|s|, k requires 0 <= k < |s| => s[k] as int % 256) }

  // ---------- the shell ----------

  class UserShell {
    const disk: BlockDevice
    const dirTable: array<Entry>
    var currentDirectory: nat
    var output: Bytes

    ghost predicate Valid()
      reads this, disk
    {
      disk.Valid() && dirTable.Length == TABLE_SLOTS && dirTable as object != disk.image
    }

    ghost function Mounted(): (v: Volume)
      requires Valid()
      reads this, disk, disk.image
      ensures Sized(v)
    {
      Mount(disk.View())
    }

    constructor (disk: BlockDevice)
      requires disk.Valid()
      ensures Valid() && this.disk == disk && fresh(dirTable)
      ensures currentDirectory == ROOT_CLUSTER && output == []
    {
      this.disk := disk;
      dirTable := new Entry[TABLE_SLOTS](_ => BLANK_ENTRY);
      currentDirectory := ROOT_CLUSTER;
      output := [];
    }

    /** System call 8: one cluster read into the table buffer. */
    method UpdateDirectoryTable(cluster: nat)
      requires Valid() && cluster < DISK_CLUSTERS
      modifies dirTable
      ensures dirTable[..] == Mounted().tables[cluster] && Mounted() == old(Mounted())
    {
      hide DecodeFat, DecodeEntry;
      var buf := new u8[CLUSTER_SIZE](_ => 0);
      disk.ReadCluster(buf, 0, cluster);
      assert buf[0..0 + CLUSTER_SIZE] == buf[..];
      var t := DecodeTable(buf[..]);
      forall i | 0 <= i < TABLE_SLOTS { dirTable[i] := t[i]; }
      assert disk.image[..] == old(disk.image[..]);
    }

    method Print(s: Bytes)
      modifies this`output
      ensures output == old(output) + s
    {
      output := output + s;
    }

    /** `printlen`: the system call stops at the length or at the first zero. */
    method PrintLen(s: Bytes, length: nat)
      requires length <= |s|
      modifies this`output
      ensures output == old(output) + NameText(s[..length])
    {
      var n := 0;
      while n < length && s[n] != 0
        invariant 0 <= n <= length && forall k :: 0 <= k < n ==> s[k] != 0
      {
        n := n + 1;
      }
      NameTextEnds(s[..length], n);
      Print(s[..n]);
      assert s[..length][..n] == s[..n];
    }

    /** `print` of a name whose last byte is zero: up to the first zero. */
    method PrintName(name: Name)
      requires name[7] == 0
      modifies this`output
      ensures output == old(output) + NameText(name)
    {
      var n := 0;
      while name[n] != 0
        invariant 0 <= n <= 7 && forall k :: 0 <= k < n ==> name[k] != 0
        decreases 7 - n
      {
        n := n + 1;
      }
      NameTextEnds(name, n);
      Print(name[..n]);
    }

    /** Prints a row up to its first zero. */
    method PrintRow(a: array2<u8>, i: nat, ghost rows: seq<Bytes>)
      requires Holds(a, rows) && i < |rows| && |rows[i]| < WIDTH
      modifies this`output
      ensures output == old(output) + NameText(rows[i])
    {
      var n := 0;
      while a[i, n] != 0
        invariant 0 <= n <= |rows[i]|
        invariant forall k :: 0 <= k < n ==> rows[i][k] != 0
        decreases |rows[i]| - n
      {
        n := n + 1;
      }
      NameTextEnds(rows[i], n);
      Print(seq(n, k requires 0 <= k < n && n <= a.Length1 && i < a.Length0 reads a => a[i, k]));
    }

    /** The loop of the prompt that prints the collected names, the last one first. */
    method PrintNames(tempDir: array2<u8>, i: nat, ghost names: seq<Name>)
      requires Holds(tempDir, names) && i == |names|
      modifies this`output
      ensures output == old(output) + Spell(names)
    {
      hide Holds, NameText;
      for j := i downto 0
        invariant output == old(output) + Spell(names[j..]) + if 1 <= j < i then [SLASH] else []
      {
        PrintRow(tempDir, j, names);
        assert names[j..][1..] == names[j + 1..];
        if j >= 1 {
          Print([SLASH]);
        }
      }
      assert names[0..] == names;
    }

    /** The loop of the prompt that climbs to the root, one table read a step. */
    method CollectNames(tempDir: array2<u8>, ghost sh: Shape) returns (i: nat)
      requires Valid() && Sound(Mounted(), sh) && currentDirectory in sh.depth
      requires Holds(tempDir, []) && sh.depth[currentDirectory] <= tempDir.Length0 == 32
      modifies dirTable, tempDir
      ensures Mounted() == old(Mounted())
      ensures i == sh.depth[currentDirectory] && Holds(tempDir, NamesUp(Mounted(), sh, currentDirectory))
      ensures dirTable[..] == if currentDirectory == ROOT_CLUSTER then old(dirTable[..])
                              else Mounted().tables[Topmost(Mounted(), sh, currentDirectory)]
    {
      hide Sound, Mount, NamesUp, Topmost, Holds, First;
      ghost var v, names, done: seq<Name> := Mounted(), NamesUp(Mounted(), sh, currentDirectory), [];
      var dir := currentDirectory;
      i := 0;
      NothingUp(v, sh);
      while dir != ROOT_CLUSTER
        invariant Mounted() == v && dir in sh.depth && i == |done| && i + sh.depth[dir] == sh.depth[currentDirectory]
        invariant Holds(tempDir, done) && names == done + NamesUp(v, sh, dir)
        invariant i == 0 ==> dir == currentDirectory && dirTable[..] == old(dirTable[..])
        invariant i > 0 ==> currentDirectory != ROOT_CLUSTER
        invariant dir != ROOT_CLUSTER ==> Topmost(v, sh, dir) == Topmost(v, sh, currentDirectory)
        invariant i > 0 && dir == ROOT_CLUSTER ==> dirTable[..] == v.tables[Topmost(v, sh, currentDirectory)]
        decreases sh.depth[dir]
      {
        OneStepUp(v, sh, dir);
        UpdateDirectoryTable(dir);
        CopyName(tempDir, i, dirTable[0].name, done);
        done := done + [v.tables[dir][0].name];
        dir := First(dirTable[1]);
        i := i + 1;
      }
      assert names == done;
    }

    /** The prompt: the path of the current directory. */
    method PrintDir(ghost sh: Shape)
      requires Valid() && Sound(Mounted(), sh)
      requires currentDirectory in sh.depth && sh.depth[currentDirectory] <= 32
      modifies this`output, dirTable
      ensures Mounted() == old(Mounted())
      ensures output == old(output) + PathOf(Mounted(), sh, currentDirectory) + Text("$ ")
      ensures dirTable[..] == if currentDirectory == ROOT_CLUSTER then old(dirTable[..])
                              else Mounted().tables[Topmost(Mounted(), sh, currentDirectory)]
    {
      hide Sound, Mount, Spell, Topmost;
      ghost var v, names := Mounted(), NamesUp(Mounted(), sh, currentDirectory);
      Print([SLASH]);
      var tempDir := new u8[32, WIDTH]((_, _) => 0);
      Zero(tempDir);
      var i := CollectNames(tempDir, sh);
      PrintNames(tempDir, i, names);
      Print(Text("$ "));
    }

    /** The index of the first live slot whose eight-byte name equals the given one, or -1. */
    method FindDirEntryIndex(entryName: Name) returns (r: int)
      requires Valid()
      ensures var s := NameSlot(dirTable[..], entryName, 0); r == if s == TABLE_SLOTS then -1 else s
    {
      for i := 0 to TABLE_SLOTS
        invariant NameSlot(dirTable[..], entryName, 0) == NameSlot(dirTable[..], entryName, i)
      {
        if dirTable[i].name == entryName && dirTable[i].userAttribute == UATTR_NOT_EMPTY {
          return i;
        }
      }
      return -1;
    }

    /** `output[word][index] = c`. */
    static method PutLetter(words: array2<u8>, word: nat, index: nat, c: u8, ghost rows: seq<Bytes>)
      requires Holds(words, rows) && word + 1 == |rows| && index == |rows[word]| < WIDTH
      modifies words
      ensures Holds(words, rows[word := rows[word] + [c]])
    {
      words[word, index] := c;
    }

    /** Splits a path at its slashes into the parser's buffer. */
    static method ParsePath(path: Bytes, words: array2<u8>) returns (wordCount: nat)
      requires words.Length0 == 16 && words.Length1 == WIDTH && Fits(Split(path))
      modifies words
      ensures wordCount == |Split(path)| && Holds(words, Split(path))
    {
      hide Pieces, Holds;
      Zero(words);
      var i, wordIndex := 0, 0;
      wordCount := 1;
      if |path| > 0 && path[0] == SLASH {
        i := i + 1;
      }
      ghost var text := if IsAbsolute(path) then path[1..] else path;
      ghost var start := i;
      assert text[..0] == [];
      NoPieces();
      WordStarts(words, []);
      while i < |path|
        invariant start <= i <= |path|
        invariant var r := Pieces(text[..i - start]);
          wordCount == |r| && wordIndex == |r[|r| - 1]| && Holds(words, r)
      {
        ghost var r := Pieces(text[..i - start]);
        NextPiece(text, i - start);
        if path[i] == SLASH {
          WordStarts(words, r);
          wordCount := wordCount + 1;
          wordIndex := 0;
        } else {
          PutLetter(words, wordCount - 1, wordIndex, path[i], r);
          wordIndex := wordIndex + 1;
        }
        i := i + 1;
      }
      assert text[..|text|] == text;
    }

    static method FirstEight(words: array2<u8>, index: nat, ghost rows: seq<Bytes>) returns (name: Name)
      requires Holds(words, rows) && index < |rows|
      ensures name == Field(rows[index])
    {
      name := [words[index, 0], words[index, 1], words[index, 2], words[index, 3],
               words[index, 4], words[index, 5], words[index, 6], words[index, 7]];
    }

    /** The loop of `cd`: one word a step, back to the start when a word fails. */
    method WalkWords(words: array2<u8>, lenPath: nat, startDir: nat, ghost rows: seq<Bytes>) returns (code: int)
      requires Valid() && currentDirectory < DISK_CLUSTERS && dirTable[..] == Mounted().tables[currentDirectory]
      requires Holds(words, rows) && lenPath <= |rows|
      requires Go(Mounted(), currentDirectory, rows[..lenPath]).code != -1
      modifies this`currentDirectory, dirTable
      ensures Mounted() == old(Mounted())
      ensures var a := Go(Mounted(), old(currentDirectory), rows[..lenPath]);
        && code == a.code && a.dir < DISK_CLUSTERS && dirTable[..] == Mounted().tables[a.dir]
        && currentDirectory == if a.code == 0 then a.dir else startDir
    {
      hide Mount, Go, NameSlot, Holds, First, Field;
      ghost var v, steps := Mounted(), rows[..lenPath];
      ghost var a := Go(v, currentDirectory, steps);
      var index := 0;
      assert steps[0..] == steps;
      while index < lenPath
        invariant 0 <= index <= lenPath && Mounted() == v
        invariant currentDirectory < DISK_CLUSTERS && dirTable[..] == v.tables[currentDirectory]
        invariant Go(v, currentDirectory, steps[index..]) == a
      {
        assert steps[index..][0] == rows[index] && steps[index..][1..] == steps[index + 1..];
        GoStep(v, currentDirectory, steps[index..]);
        var name := FirstEight(words, index, rows);
        var entry := FindDirEntryIndex(name);
        if entry == -1 {
          currentDirectory := startDir;
          return 2;
        }
        if dirTable[entry].attribute != ATTR_SUBDIRECTORY {
          currentDirectory := startDir;
          return 3;
        }
        currentDirectory := First(dirTable[entry]);
        UpdateDirectoryTable(currentDirectory);
        index := index + 1;
      }
      GoStep(v, currentDirectory, steps[index..]);
      return 0;
    }

    /** `cd`: with `isdir` every word of the path is walked, else all but the last. */
    method Cd(path: Bytes, argc: nat, isdir: bool) returns (code: int)
      requires Valid() && currentDirectory < DISK_CLUSTERS
      requires argc <= 2 ==> Fits(Split(path)) && Destination(Mounted(), currentDirectory, path, isdir).code != -1
      modifies this`currentDirectory, this`output, dirTable
      ensures Mounted() == old(Mounted())
      ensures argc > 2 ==>
        && code == 1 && currentDirectory == old(currentDirectory) && dirTable[..] == old(dirTable[..])
        && output == old(output) + Text("Error: too many arguments\n")
      ensures argc <= 2 ==>
        && output == old(output)
        && var a := Destination(Mounted(), old(currentDirectory), path, isdir);
        && code == a.code && a.dir < DISK_CLUSTERS && dirTable[..] == Mounted().tables[a.dir]
        && currentDirectory == if a.code == 0 then a.dir else old(currentDirectory)
    {
      hide Mount, Go, Pieces, Holds, Fits;
      if argc > 2 {
        Print(Text("Error: too many arguments\n"));
        return 1;
      }
      var startDir := currentDirectory;
      var words := new u8[16, WIDTH]((_, _) => 0);
      var lenPath := ParsePath(path, words);
      if !isdir {
        lenPath := lenPath - 1;
      }
      if IsAbsolute(path) {
        currentDirectory := ROOT_CLUSTER;
      }
      UpdateDirectoryTable(currentDirectory);
      assert isdir ==> Split(path)[..lenPath] == Split(path);
      code := WalkWords(words, lenPath, startDir, Split(path));
    }

    /** The recursion of `find`: prints the reports below one directory, and leaves the table buffer on that
        directory and the path buffer as it was. */
    method FindHelper(item: Name, cluster: nat, pathList: array2<u8>, lenPath: nat, found: bool,
                      ghost sh: Shape, ghost prefix: seq<Name>)
      returns (seen: bool)
      requires Valid() && Sound(Mounted(), sh) && Within(sh, 14) && cluster in sh.depth
      requires pathList as object != disk.image && pathList as object != dirTable && pathList.Length0 == 15
      requires Holds(pathList, [[]] + prefix) && |prefix| == sh.depth[cluster] && lenPath == |prefix| + 1
      modifies this`output, dirTable, pathList
      ensures Mounted() == old(Mounted()) && dirTable[..] == Mounted().tables[cluster]
      ensures Holds(pathList, [[]] + prefix)
      ensures var hits := Hits(Mounted(), sh, 14, cluster, item, 2);
        && output == old(output) + Transcript(Mounted(), cluster, prefix, hits)
        && seen == (found || hits != [])
      decreases 14 - sh.depth[cluster]
    {
      hide Sound, Mount, Within, Holds, Transcript, Hits, SlotHits;
      ghost var v := Mounted();
      ghost var hits := Hits(v, sh, 14, cluster, item, 2);
      var length := lenPath;
      seen := found;
      ChildIsBelow(v, sh, cluster, 2);
      UpdateDirectoryTable(cluster);
      for i := 2 to TABLE_SLOTS
        invariant Mounted() == v && dirTable[..] == v.tables[cluster]
        invariant length == lenPath && Holds(pathList, [[]] + prefix)
        invariant output + Transcript(v, cluster, prefix, Hits(v, sh, 14, cluster, item, i))
          == old(output) + Transcript(v, cluster, prefix, hits)
        invariant (seen || Hits(v, sh, 14, cluster, item, i) != []) == (found || hits != [])
      {
        OneSlotMore(v, sh, 14, cluster, item, i, prefix, output);
        seen := FindSlot(item, cluster, pathList, length, seen, i, sh, prefix);
      }
      NothingMore(v, sh, 14, cluster, item, prefix);
    }

    /** `find` with the name as argument. */
    method FindCommand(arg: Bytes, argc: nat, ghost sh: Shape)
      requires Valid() && Sound(Mounted(), sh) && Within(sh, 14)
      modifies this`output, dirTable
      ensures Mounted() == old(Mounted())
      ensures argc > 2 ==> output == old(output) + Text("Find: wrong argument count") && dirTable[..] == old(dirTable[..])
      ensures argc <= 2 ==>
        && ROOT_CLUSTER in sh.depth && dirTable[..] == Mounted().tables[ROOT_CLUSTER]
        && var hits := Hits(Mounted(), sh, 14, ROOT_CLUSTER, Field(arg), 2);
        && output == old(output) + if hits == [] then Text("Find: gak ketemu cok!!!")
                                else Transcript(Mounted(), ROOT_CLUSTER, [], hits)
    {
      hide Sound, Mount, Within, Hits;
      var pathList := new u8[15, WIDTH]((_, _) => 0);
      Zero(pathList);
      if argc > 2 {
        Print(Text("Find: wrong argument count"));
        return;
      }
      RootDepth(Mounted(), sh);
      WordStarts(pathList, []);
      var found := FindHelper(Field(arg), ROOT_CLUSTER, pathList, 1, false, sh, []);
      if !found {
        Print(Text("Find: gak ketemu cok!!!"));
      }
    }

    method PrintPathFromList(pathList: array2<u8>, lenPath: nat, ghost names: seq<Name>)
      requires Holds(pathList, [[]] + names) && lenPath == |names| + 1
      modifies this`output
      ensures output == old(output) + Line(names)
    {
      hide Holds, Line, NameText;
      ghost var rows: seq<Bytes> := [[]] + names;
      for i := 0 to lenPath
        invariant output + Rows(rows[i..]) == old(output) + Rows(rows)
      {
        PrintRow(pathList, i, rows);
        Print([SLASH]);
        assert rows[i..][1..] == rows[i + 1..];
      }
      assert rows[lenPath..] == [];
      LineOfRows(names);
      Print([NEWLINE]);
      assert old(output) + Rows(rows) + [NEWLINE] == old(output) + (Rows(rows) + [NEWLINE]);
    }

    /** One slot of the search. */
    method FindSlot(item: Name, cluster: nat, pathList: array2<u8>, lenPath: nat, found: bool, i: nat,
                    ghost sh: Shape, ghost prefix: seq<Name>)
      returns (seen: bool)
      requires Valid() && Sound(Mounted(), sh) && Within(sh, 14) && cluster in sh.depth && Slot(i)
      requires pathList as object != disk.image && pathList as object != dirTable && pathList.Length0 == 15
      requires Holds(pathList, [[]] + prefix) && |prefix| == sh.depth[cluster] && lenPath == |prefix| + 1
      requires dirTable[..] == Mounted().tables[cluster]
      modifies this`output, dirTable, pathList
      ensures Mounted() == old(Mounted()) && dirTable[..] == Mounted().tables[cluster]
      ensures Holds(pathList, [[]] + prefix)
      ensures var hits := SlotHits(Mounted(), sh, 14, cluster, item, i);
        && output == old(output) + Transcript(Mounted(), cluster, prefix, hits)
        && seen == (found || hits != [])
      decreases 14 - sh.depth[cluster], 0
    {
      hide Sound, Mount, Holds, Transcript, Hits, Line, NameText, First;
      ghost var v := Mounted();
      ChildIsBelow(v, sh, cluster, i);
      SlotTranscript(v, sh, 14, cluster, item, i, prefix);
      seen := found;
      if dirTable[i].userAttribute == UATTR_NOT_EMPTY {
        var name := dirTable[i].name;
        if dirTable[i].attribute == ATTR_SUBDIRECTORY {
          ghost var longer := prefix + [name];
          var child := First(dirTable[i]);
          CopyName(pathList, lenPath, name, [[]] + prefix);
          assert [[]] + prefix + [name] == [[]] + longer;
          if name == item {
            seen := true;
            PrintPathFromList(pathList, lenPath + 1, longer);
          }
          seen := FindHelper(item, child, pathList, lenPath + 1, seen, sh, longer);
          UpdateDirectoryTable(cluster);
          ClearRow(pathList, lenPath, [[]] + longer);
          assert ([[]] + longer)[..lenPath] == [[]] + prefix;
        } else if name == item {
          seen := true;
          PrintPathFromList(pathList, lenPath, prefix);
          if name[7] != 0 { PrintLen(name, 8); } else { PrintName(name); }
        }
      }
    }
  }
}
