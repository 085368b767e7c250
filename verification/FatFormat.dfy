/** A crash while the disk is being formatted: the signature is written first, so a disk cut off later is never
    formatted again. */
module FatFormat {
  import opened Words
  import opened FatLayout
  import opened FatShape
  import opened FatOps
  import opened FatAtomic
  import opened FatRuns

  /** The image after the first `j` of the three writes of a format. */
  function FormatPrefix(img: Image, garbage: Table, name: Name, j: nat): Image {
    var boot: Cluster := FsSignature() + img[0][BLOCK_SIZE..];
    if j == 0 then img
    else if j == 1 then img[0 := boot]
    else if j == 2 then img[0 := boot][FAT_CLUSTER := EncodeFat(FormatFat())]
    else img[0 := boot][FAT_CLUSTER := EncodeFat(FormatFat())][ROOT_CLUSTER := EncodeTable(InitTable(garbage, name, ROOT_CLUSTER))]
  }

  /** The table of an empty root directory, whatever its name. */
  ghost predicate EmptyRoot(t: Table) { FreshTable(t, t[0].name, ROOT_CLUSTER) }

  ghost predicate HasShape(v: Volume) { exists sh :: Sound(v, sh) }

  /** The boot cluster takes no part in the invariant. */
  lemma BootClusterIsApart(img: Image, boot: Cluster)
    ensures HasShape(Mount(img[0 := boot])) <==> HasShape(Mount(img))
  {
    hide Sound, DecodeFat, DecodeTable;
    var v, w := Mount(img), Mount(img[0 := boot]);
    forall sh
      ensures Sound(v, sh) <==> Sound(w, sh)
    {
      if Sound(v, sh) {
        OwnedInData(v, sh);
        SoundFrame(v, w, sh);
      }
      if Sound(w, sh) {
        OwnedInData(w, sh);
        SoundFrame(w, v, sh);
      }
    }
  }

  /** With an all-free FAT only an empty root makes a sound volume. */
  lemma EmptyFatShape(v: Volume)
    requires Sized(v) && v.fat == FormatFat()
    ensures HasShape(v) <==> EmptyRoot(v.tables[ROOT_CLUSTER])
  {
    hide FreeFrom;
    if EmptyRoot(v.tables[ROOT_CLUSTER]) { EmptyIsWellFormed(v, v.tables[ROOT_CLUSTER][0].name); }
    forall sh | Sound(v, sh)
      ensures EmptyRoot(v.tables[ROOT_CLUSTER])
    {
      assert DirOk(v, sh, ROOT_CLUSTER);
      forall c
        ensures c !in sh.own
      {
        assert c in sh.own ==> OwnerOk(v, sh, c);
      }
      forall s | Slot(s)
        ensures !Live(v.tables[ROOT_CLUSTER][s])
      {
        assert Live(v.tables[ROOT_CLUSTER][s]) ==> EntryOk(v, sh, ROOT_CLUSTER, s);
      }
    }
  }

  lemma FormatHasShape(img: Image, was: Table, name: Name)
    ensures HasShape(Mount(Format(img, was, name)))
  {
    hide Sound, Format;
    FormatIsWellFormed(img, was, name);
  }

  /** A format cut off after `j` writes and the next boot, which formats only if the signature is missing.  The
      volume is sound afterwards exactly when nothing or everything was written, or the signature alone on a
      disk that was sound before, or all but the root table over an empty root. */
  lemma CrashInFormat(img: Image, was: Table, name: Name, j: nat, was': Table, name': Name)
    requires !Formatted(img) && j <= 3
    ensures var cut := FormatPrefix(img, was, name, j);
      && (Formatted(cut) <==> j >= 1) && (j == 3 ==> cut == Format(img, was, name))
      && (HasShape(Mount(Initialize(cut, was', name'))) <==>
           || j == 0 || j == 3
           || (j == 1 && HasShape(Mount(img)))
           || (j == 2 && EmptyRoot(Mount(img).tables[ROOT_CLUSTER])))
  {
    hide FsSignature, EncodeFat, EncodeTable, DecodeFat, DecodeTable, FormatFat, HasShape, EmptyRoot, InitTable;
    var cut := FormatPrefix(img, was, name, j);
    var boot: Cluster := FsSignature() + img[0][BLOCK_SIZE..];
    assert boot[..BLOCK_SIZE] == FsSignature();
    FormatHasShape(img, was', name');
    FormatHasShape(img, was, name);
    BootClusterIsApart(img, boot);
    FatRoundTrip(FormatFat());
    if j == 2 { EmptyFatShape(Mount(cut)); }
  }

  lemma BlankIsUnsigned()
    ensures !Formatted(BLANK_IMAGE)
  {
    assert BLANK_CLUSTER[..BLOCK_SIZE][0] == 0;
    assert FsSignature()[0] == SignatureByte(0) == 'C' as int;
  }

  lemma BlankRootIsDead()
    ensures !EmptyRoot(Mount(BLANK_IMAGE).tables[ROOT_CLUSTER])
  {
    hide DecodeFat;
    assert BLANK_CLUSTER[0..32][12] == 0;
    assert DecodeTable(BLANK_CLUSTER)[0].userAttribute == 0;
  }

  lemma FirstCellOf(b: Cluster)
    requires b[0] == b[1] == b[2] == b[3] == 0
    ensures DecodeFat(b)[0] == 0
  {}

  lemma BlankHasNoShape()
    ensures !HasShape(Mount(BLANK_IMAGE))
  {
    hide DecodeFat, DecodeTable, DirsOk, EntriesOk, OwnersOk;
    var b := BLANK_CLUSTER;
    FirstCellOf(b);
    forall sh
      ensures !Sound(Mount(BLANK_IMAGE), sh)
    {
      assert Mount(BLANK_IMAGE).fat == DecodeFat(BLANK_CLUSTER);
    }
  }

  /** The input: a format of a blank disk cut off after its first or second write is never repaired. */
  lemma BlankDiskStaysBroken(was: Table, name: Name, j: nat, was': Table, name': Name)
    requires 1 <= j <= 2
    ensures !Formatted(BLANK_IMAGE) && !HasShape(Mount(Initialize(FormatPrefix(BLANK_IMAGE, was, name, j), was', name')))
  {
    hide HasShape, EmptyRoot, Initialize, FormatPrefix, Mount;
    BlankIsUnsigned();
    BlankRootIsDead();
    BlankHasNoShape();
    CrashInFormat(BLANK_IMAGE, was, name, j, was', name');
  }
}
