/** A create that reads its executable from the file system: when it leaves the wrong page directory loaded, in
    terms of what is on the disk. */
module KernelDisk {
  import opened Words
  import opened FatLayout
  import opened FatShape
  import opened FatOps
  import opened FatFiles
  import opened Paging
  import opened Processes
  import opened KernelRuns
  import opened Isolation

  /** The first slot carrying the key is no directory and fits the buffer. */
  predicate Readable(t: Table, req: Request) {
    var s := KeySlot(t, req.name, req.ext, 0);
    s < TABLE_SLOTS && !IsDir(t[s]) && t[s].filesize <= req.size
  }

  lemma ReadSucceedsIff(img: Image, sh: Shape, req: Request)
    requires FatShape.Sound(Mount(img), sh) && req.parent in sh.depth && req.parent < CLUSTER_MAP_SIZE && ReadSafe(img, req)
    ensures ReadOp(img, req).code == 0 <==> Readable(Mount(img).tables[req.parent], req)
  {
    hide DecodeTable, DecodeFat, FatShape.Sound, ReachesEof;
    TableOfDir(Mount(img), sh, req.parent);
  }

  /** For a stored file: its key is not shadowed and it fits. */
  lemma StoredIsReadableIff(img: Image, sh: Shape, req: Request)
    requires FatShape.Sound(Mount(img), sh) && req.parent in sh.depth && req.parent < CLUSTER_MAP_SIZE
    requires FilesFirst(Mount(img).tables[req.parent]) && FileAt(Mount(img), req.parent, req.name, req.ext).Some?
    ensures ReadSafe(img, req)
    ensures Readable(Mount(img).tables[req.parent], req) <==>
      && !Shadowed(Mount(img).tables[req.parent], req.name, req.ext)
      && FileAt(Mount(img), req.parent, req.name, req.ext).value.size <= req.size
  {
    hide FatShape.Sound, FilesFirst, FileAt, Shadowed, ReadSafe, ReadOp, Readable;
    ReadIsExact(img, sh, req);
    ReadSucceedsIff(img, sh, req);
  }

  /** A create whose executable is read from this disk, with the name and size of the request and into a buffer of
      that size, keeps the address spaces straight unless it passes its checks, finds two frames and the executable is
      not readable. */
  lemma CreateFromDiskKeepsAddressedIff(m: Layout, k: Kernel, own: map<nat, Owner>, req: Request, address: u32, img: Image, sh: Shape)
    requires ValidLayout(m) && Inv(k, own) && Addressed(m, k)
    requires FatShape.Sound(Mount(img), sh) && req.parent in sh.depth && req.parent < CLUSTER_MAP_SIZE && ReadSafe(img, req)
    ensures var e := Executable(address, req.size, req.name); var status := ReadOp(img, req).code;
      && CreateSafe(k, e, status)
      && (Addressed(m, Create(m, k, e, status).0) <==>
           !(Refusal(k, e) == 0 && k.pages.free >= 2 && !Readable(Mount(img).tables[req.parent], req)))
  {
    hide FatShape.Sound, Inv, Addressed, Create, CreateSafe, Refusal, Readable, ReadSafe, ReadOp;
    ReadSucceedsIff(img, sh, req);
    CreateKeepsAddressedIff(m, k, own, Executable(address, req.size, req.name), ReadOp(img, req).code);
  }
}
