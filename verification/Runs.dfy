/** Any sequence of operations on the image: when it succeeds, what it leaves, and when the directories stay a tree. */
module ParchFSRuns {
  import opened Bytes
  import opened Dentries
  import opened Directories
  import opened Files
  import opened Folding
  import opened Image
  import opened ParchFSImage
  import opened Slots
  import opened TreeShape

  /** The files, the pages of each regular file, and the free blocks: all that the next operations depend on. */
  datatype Sys = Sys(fs: seq<FileView>, pages: seq<nat>, free: int)

  ghost function FilePages(st: State, i: Ino): nat {
    if st.nodes[i].fType == Regular then st.pages[i] else 0
  }

  ghost function SysOf(st: State, count: nat): (s: Sys)
    requires count < NINO
    ensures |s.fs| == |s.pages| == count + 1
    ensures forall i: Ino | i <= count :: s.pages[i] == FilePages(st, i)
  {
    Sys(FilesOf(st, count), seq(count + 1, i requires 0 <= i <= count => FilePages(st, i)), Free(st))
  }

  // ----- one operation -----

  /** The asserts hold and there are blocks enough. */
  ghost predicate CanDo(s: Sys, op: Op)
    requires |s.pages| == |s.fs|
  {
    match op
    case MkDir(parent, name, _) => MayMakeDir(s.fs, parent, name) && s.free >= DirCost(s.fs, parent)
    case MkFile(parent, name) => MayMakeFile(s.fs, parent, name) && s.free >= LinkCost(|s.fs[parent].bytes|)
    case Put(no, off, bytes) =>
      && no < |s.fs| && s.fs[no].fType == Regular
      && s.free + FillOf(s.pages[no]) >= FillOf(WritePages(|s.fs[no].bytes|, s.pages[no], off, |bytes|))
  }

  ghost function Done(s: Sys, op: Op): (r: Sys)
    requires |s.pages| == |s.fs| && CanDo(s, op)
    ensures |r.pages| == |r.fs|
  {
    match op
    case MkDir(parent, name, junk) =>
      Sys(MadeDir(s.fs, parent, name, junk), s.pages + [0], s.free - DirCost(s.fs, parent))
    case MkFile(parent, name) =>
      Sys(MadeFile(s.fs, parent, name), s.pages + [0], s.free - LinkCost(|s.fs[parent].bytes|))
    case Put(no, off, bytes) =>
      var n := WritePages(|s.fs[no].bytes|, s.pages[no], off, |bytes|);
      Sys(s.fs[no := OverwriteFile(s.fs[no], off, bytes)], s.pages[no := n],
          s.free + FillOf(s.pages[no]) - FillOf(n))
  }

  // ----- a run of them -----

  ghost predicate CanRun(s: Sys, ops: seq<Op>)
    requires |s.pages| == |s.fs|
    decreases |ops|
  {
    ops == [] || (CanDo(s, ops[0]) && CanRun(Done(s, ops[0]), ops[1..]))
  }

  ghost function Ran(s: Sys, ops: seq<Op>): (r: Sys)
    requires |s.pages| == |s.fs| && CanRun(s, ops)
    ensures |r.pages| == |r.fs|
    decreases |ops|
  {
    if ops == [] then s else Ran(Done(s, ops[0]), ops[1..])
  }

  lemma PagesAppended(st: State, st': State, count: nat, parent: nat)
    requires count + 1 < NINO && st.nodes[0].fType == NoType
    requires forall i: Ino :: i <= count && i != parent ==> st'.pages[i] == st.pages[i]
    requires forall i: Ino :: i <= count ==> st'.nodes[i].fType == st.nodes[i].fType
    requires parent <= count ==> st.nodes[parent].fType == Dir
    requires st'.nodes[count + 1].fType == Regular ==> st'.pages[count + 1] == 0
    ensures SysOf(st', count + 1).pages == SysOf(st, count).pages + [0]
  {
    var p, q := SysOf(st, count).pages, SysOf(st', count + 1).pages;
    forall i: nat | i <= count + 1 ensures q[i] == (p + [0])[i] {
      assert q[i] == FilePages(st', i);
      if i <= count {
        assert p[i] == FilePages(st, i);
      }
    }
  }

  /** Types of the old files are the same after an operation on files. */
  lemma TypesSeen(st: State, st': State, count: nat, count': nat)
    requires Healthy(st, count) && Healthy(st', count') && count <= count'
    requires forall i | 0 <= i <= count :: FilesOf(st', count')[i].fType == FilesOf(st, count)[i].fType
    ensures forall i: Ino :: i <= count ==> st'.nodes[i].fType == st.nodes[i].fType
  {
    forall i: Ino | i <= count ensures st'.nodes[i].fType == st.nodes[i].fType {
      DirInView(st, count, i);
      DirInView(st', count', i);
      assert FilesOf(st', count')[i].fType == FilesOf(st, count)[i].fType;
    }
  }

  /** One operation; a write goes to a regular file in use, as in make_fs. */
  method Do(fs: ParchFS, op: Op) returns (ok: bool)
    requires fs.Rep() && Healthy(fs.st, fs.count)
    modifies fs.Repr()
    ensures ok <==> CanDo(old(SysOf(fs.st, fs.count)), op)
    ensures ok ==> fs.Rep() && Healthy(fs.st, fs.count)
    ensures ok ==> SysOf(fs.st, fs.count) == Done(old(SysOf(fs.st, fs.count)), op)
  {
    match op {
      case MkDir(parent, name, junk) => ok := DoMkDir(fs, parent, name, junk);
      case MkFile(parent, name) => ok := DoMkFile(fs, parent, name);
      case Put(no, off, bytes) => ok := DoPut(fs, no, off, bytes);
    }
  }

  method DoMkDir(fs: ParchFS, parent: Word, name: seq<Byte>, junk: FName) returns (ok: bool)
    requires fs.Rep() && Healthy(fs.st, fs.count)
    modifies fs.Repr()
    ensures ok <==> CanDo(old(SysOf(fs.st, fs.count)), MkDir(parent, name, junk))
    ensures ok ==> fs.Rep() && Healthy(fs.st, fs.count)
    ensures ok ==> SysOf(fs.st, fs.count) == Done(old(SysOf(fs.st, fs.count)), MkDir(parent, name, junk))
  {
    ghost var st0, count0 := fs.st, fs.count;
    var no;
    ok, no := fs.MakeDir(parent, name, junk);
    if ok {
      MadeDirTypes(FilesOf(st0, count0), parent, name, junk);
      TypesSeen(st0, fs.st, count0, fs.count);
      DirInView(fs.st, fs.count, fs.count);
      if parent <= count0 {
        DirInView(st0, count0, parent);
      }
      PagesAppended(st0, fs.st, count0, parent);
    }
  }

  lemma MadeDirTypes(fs: seq<FileView>, parent: nat, name: seq<Byte>, junk: FName)
    requires MayMakeDir(fs, parent, name)
    ensures var made := MadeDir(fs, parent, name, junk);
      |made| == |fs| + 1 && made[|fs|].fType == Dir && forall i | 0 <= i < |fs| :: made[i].fType == fs[i].fType
  {}

  method DoMkFile(fs: ParchFS, parent: Word, name: seq<Byte>) returns (ok: bool)
    requires fs.Rep() && Healthy(fs.st, fs.count)
    modifies fs.Repr()
    ensures ok <==> CanDo(old(SysOf(fs.st, fs.count)), MkFile(parent, name))
    ensures ok ==> fs.Rep() && Healthy(fs.st, fs.count)
    ensures ok ==> SysOf(fs.st, fs.count) == Done(old(SysOf(fs.st, fs.count)), MkFile(parent, name))
  {
    ghost var st0, count0 := fs.st, fs.count;
    var no;
    ok, no := fs.MakeFile(parent, name);
    if ok {
      TypesSeen(st0, fs.st, count0, fs.count);
      DirInView(st0, count0, parent);
      PagesAppended(st0, fs.st, count0, parent);
    }
  }

  method DoPut(fs: ParchFS, no: nat, off: nat, bytes: seq<Byte>) returns (ok: bool)
    requires fs.Rep() && Healthy(fs.st, fs.count)
    modifies fs.Repr()
    ensures ok <==> CanDo(old(SysOf(fs.st, fs.count)), Put(no, off, bytes))
    ensures ok ==> fs.Rep() && Healthy(fs.st, fs.count)
    ensures ok ==> SysOf(fs.st, fs.count) == Done(old(SysOf(fs.st, fs.count)), Put(no, off, bytes))
  {
    ghost var st0, count0 := fs.st, fs.count;
    ok := no < NINO;
    if ok {
      fs.NodeFact(no);
      fs.InodeBit(no);
      if no <= count0 {
        DirInView(st0, count0, no);
      }
      ok := fs.inodeBitmap.Get(no) && fs.nodes[no].fType == Regular;
      if ok {
        ok := fs.WriteFile(no, off, bytes);
        if ok {
          PutPages(st0, fs.st, count0, no, off, bytes);
        }
      }
    }
  }

  lemma PutPages(st: State, st': State, count: nat, no: nat, off: nat, bytes: seq<Byte>)
    requires Healthy(st, count) && Healthy(st', count) && no <= count && st.nodes[no].fType == Regular
    requires FilesOf(st', count) == FilesOf(st, count)[no := OverwriteFile(FilesOf(st, count)[no], off, bytes)]
    requires SamePages(st, st', no)
    ensures SysOf(st', count).pages == SysOf(st, count).pages[no := st'.pages[no]]
  {
    TypesSeen(st, st', count, count);
    var p, q := SysOf(st, count).pages, SysOf(st', count).pages;
    forall i: nat | i <= count ensures q[i] == p[no := st'.pages[no]][i] {
      assert q[i] == FilePages(st', i) && p[i] == FilePages(st, i);
      assert st'.nodes[i].fType == st.nodes[i].fType;
    }
  }

  /** Any sequence of operations: it goes through exactly when each finds what it needs, and no assert fires before. */
  method Run(fs: ParchFS, ops: seq<Op>) returns (ok: bool)
    requires fs.Rep() && Healthy(fs.st, fs.count)
    modifies fs.Repr()
    ensures ok <==> CanRun(old(SysOf(fs.st, fs.count)), ops)
    ensures ok ==> fs.Rep() && Healthy(fs.st, fs.count)
    ensures ok ==> SysOf(fs.st, fs.count) == Ran(old(SysOf(fs.st, fs.count)), ops)
  {
    ghost var s0 := SysOf(fs.st, fs.count);
    var rest := ops;
    while rest != []
      invariant fs.Rep() && Healthy(fs.st, fs.count)
      invariant CanRun(s0, ops) <==> CanRun(SysOf(fs.st, fs.count), rest)
      invariant CanRun(s0, ops) ==> Ran(s0, ops) == Ran(SysOf(fs.st, fs.count), rest)
      decreases |rest|
    {
      ok := Do(fs, rest[0]);
      if !ok {
        return;
      }
      rest := rest[1..];
    }
    ok := true;
  }

  // ----- when the directories stay a tree -----

  /** The parent of a new directory is there before it. (make_dir also accepts the number it is about to hand out.) */
  ghost predicate ProperOp(s: Sys, op: Op) {
    op.MkDir? ==> op.parent < |s.fs|
  }

  ghost predicate Proper(s: Sys, ops: seq<Op>)
    requires |s.pages| == |s.fs| && CanRun(s, ops)
    decreases |ops|
  {
    ops == [] || (ProperOp(s, ops[0]) && Proper(Done(s, ops[0]), ops[1..]))
  }

  /** Directories hold whole entries. */
  ghost predicate Whole(fs: seq<FileView>) {
    |fs| > 1 && forall d | 0 <= d < |fs| :: fs[d].fType == Dir ==> |fs[d].bytes| % 128 == 0
  }

  lemma HealthyWhole(st: State, count: nat)
    requires Healthy(st, count) && count > 0
    ensures Whole(FilesOf(st, count))
  {
    forall d: Ino | d <= count && FilesOf(st, count)[d].fType == Dir ensures |FilesOf(st, count)[d].bytes| % 128 == 0 {
      InodeFact(st, count, d);
    }
  }

  /** No directory is lost and no entry of one. */
  ghost predicate DirsGrow(ds: seq<DirView>, ds': seq<DirView>) {
    && |ds| <= |ds'|
    && forall d: nat {:trigger ds[d]} :: d < |ds| && ds[d].fType == Dir ==> ds'[d].fType == Dir && ds[d].es <= ds'[d].es
  }

  /** Some directory has an entry for itself, besides `.` and `..`. */
  ghost predicate NamesItself(ds: seq<DirView>) {
    forall z: nat {:trigger Opened(z)} :: exists d: nat, i: nat {:trigger Looked(d, i)} :: NamesItselfAt(ds, d, i)
  }

  ghost predicate NamesItselfAt(ds: seq<DirView>, d: nat, i: nat) {
    Looked(d, i) && IsChildEntry(ds, d, i) && ds[d].es[i].inode == d
  }

  lemma NamesItselfMeans(ds: seq<DirView>) returns (d: nat, i: nat)
    requires NamesItself(ds)
    ensures NamesItselfAt(ds, d, i)
  {
    assert Opened(0);
    d, i :| NamesItselfAt(ds, d, i);
  }

  lemma NotATree(ds: seq<DirView>, at: seq<Place>)
    requires NamesItself(ds)
    ensures !Shape(ds, at)
  {
    var d, i := NamesItselfMeans(ds);
    if Shape(ds, at) {
      OneEntry(ds, at, d, d, i, d, i);
    }
  }

  lemma NamesItselfStill(ds: seq<DirView>, ds': seq<DirView>)
    requires NamesItself(ds) && DirsGrow(ds, ds')
    ensures NamesItself(ds')
  {
    var d, i := NamesItselfMeans(ds);
    assert ds[d].es[i] == ds'[d].es[i];
    assert Looked(d, i) && NamesItselfAt(ds', d, i);
  }

  /** The directories after an entry for a new inode was appended. */
  lemma LinkedDirs(fs: seq<FileView>, v: FileView, parent: nat, d: DEntry)
    requires Whole(fs) && parent <= |fs| && d.nameLen < 65536
    requires (fs + [v])[parent].fType == Dir && (v.fType == Dir ==> |v.bytes| % 128 == 0)
    ensures var fs' := Linked(fs + [v], parent, d);
      && Whole(fs') && DirsGrow(Dirs(fs), Dirs(fs'))
      && Dirs(fs')[parent].es == DirViewOf((fs + [v])[parent]).es + [d]
  {
    var fs1 := fs + [v];
    DirsAppended(fs, v);
    DirsLinked(fs1, parent, d);
    var fs' := Linked(fs1, parent, d);
    assert |fs'[parent].bytes| == |fs1[parent].bytes| + 128;
    forall i | 0 <= i < |fs'| && fs'[i].fType == Dir ensures |fs'[i].bytes| % 128 == 0 {
      assert fs1[i].fType == Dir && |fs1[i].bytes| % 128 == 0;
    }
  }

  lemma DirsGrowBy(s: Sys, op: Op)
    requires |s.pages| == |s.fs| && CanDo(s, op) && Whole(s.fs)
    ensures Whole(Done(s, op).fs) && DirsGrow(Dirs(s.fs), Dirs(Done(s, op).fs))
  {
    match op
    case MkDir(parent, name, junk) =>
      NewDirDense(|s.fs|, parent);
      LinkedDirs(s.fs, FileView(Dir, NewDirBytes(|s.fs|, parent)), parent,
                 DEntry(|s.fs|, Dir, |name|, NameField(name, junk)));
    case MkFile(parent, name) =>
      LinkedDirs(s.fs, FileView(Regular, []), parent,
                 DEntry(|s.fs|, Regular, |name|, NameField(name, Zeros(DENTRY_NAME_LEN))));
    case Put(no, off, bytes) =>
      assert Dirs(Done(s, op).fs) == Dirs(s.fs);
  }

  /** A directory made its own parent has its entry in itself. */
  lemma ImproperNamesItself(s: Sys, op: Op)
    requires |s.pages| == |s.fs| && CanDo(s, op) && Whole(s.fs) && !ProperOp(s, op)
    ensures NamesItself(Dirs(Done(s, op).fs))
  {
    var n := |s.fs|;
    var v, d := FileView(Dir, NewDirBytes(n, n)), DEntry(n, Dir, |op.name|, NameField(op.name, op.junk));
    NewDirDense(n, n);
    NewDirEntries(n, n);
    LinkedDirs(s.fs, v, n, d);
    var ds := Dirs(Done(s, op).fs);
    assert ds[n].es == Listing(NewDirBytes(n, n)) + [d];
    assert Looked(n, 2) && NamesItselfAt(ds, n, 2);
  }

  lemma {:induction false} RanNamesItself(s: Sys, ops: seq<Op>)
    requires |s.pages| == |s.fs| && CanRun(s, ops) && Whole(s.fs)
    requires NamesItself(Dirs(s.fs)) || !Proper(s, ops)
    ensures NamesItself(Dirs(Ran(s, ops).fs))
    decreases |ops|
  {
    if ops != [] {
      var s1 := Done(s, ops[0]);
      DirsGrowBy(s, ops[0]);
      if NamesItself(Dirs(s.fs)) {
        NamesItselfStill(Dirs(s.fs), Dirs(s1.fs));
      } else if !ProperOp(s, ops[0]) {
        ImproperNamesItself(s, ops[0]);
      }
      RanNamesItself(s1, ops[1..]);
    }
  }

  lemma {:induction false} RanLeads(s: Sys, ops: seq<Op>)
    requires |s.pages| == |s.fs| && CanRun(s, ops) && Whole(s.fs) && Proper(s, ops)
    ensures Leads(s.fs, Ran(s, ops).fs)
    decreases |ops|
  {
    if ops == [] {
      LeadsNowhere(s.fs);
    } else {
      var s1 := Done(s, ops[0]);
      DirsGrowBy(s, ops[0]);
      LeadsStep(s.fs, ops[0], s1.fs);
      RanLeads(s1, ops[1..]);
      LeadsOn(s.fs, s1.fs, Ran(s, ops).fs);
    }
  }

  lemma NotTreeShaped(fs: seq<FileView>)
    requires NamesItself(Dirs(fs))
    ensures !TreeShaped(fs)
  {
    TreeShapedMeans(fs);
    forall at: seq<Place> ensures !Shape(Dirs(fs), at) {
      NotATree(Dirs(fs), at);
    }
  }

  /** A run that starts from a tree leaves one exactly when it makes no directory its own parent. */
  lemma ShapeExactly(s: Sys, ops: seq<Op>)
    requires |s.pages| == |s.fs| && CanRun(s, ops) && Whole(s.fs) && TreeShaped(s.fs)
    ensures Proper(s, ops) <==> TreeShaped(Ran(s, ops).fs)
  {
    if Proper(s, ops) {
      TreeShapedMeans(s.fs);
      var at: seq<Place> :| Shape(Dirs(s.fs), at);
      RanLeads(s, ops);
      var at' := LeadsToShape(s.fs, Ran(s, ops).fs, at);
      TreeShapedMeans(Ran(s, ops).fs);
    } else {
      RanNamesItself(s, ops);
      NotTreeShaped(Ran(s, ops).fs);
    }
  }

  /**
   A fresh image and any sequence of operations on it: when all goes through, what is there, and exactly when the
   directories form a tree.
   */
  method Session(bin: array<Block>, eKernel: nat, sReserve: nat, ops: seq<Op>) returns (ok: bool, fs: ParchFS)
    requires bin.Length == NBLK && Layout(eKernel, sReserve)
    modifies bin
    ensures var s := Sys(AtStart(), [0, 0], Pa2Blk(sReserve) - Pa2Blk(eKernel) - 3);
      && (ok <==> s.free >= 0 && CanRun(s, ops))
      && (ok ==> fs.Rep() && Healthy(fs.st, fs.count) && SysOf(fs.st, fs.count) == Ran(s, ops))
      && (ok ==> (Proper(s, ops) <==> TreeShaped(FilesOf(fs.st, fs.count))))
      && (ok ==> forall b: nat :: b < NBLK ==>
            (fs.fsBitmap.Get(b) <==> !(Pa2Blk(sReserve) - 1 - Free(fs.st) <= b < Pa2Blk(sReserve) - 1)))
  {
    ghost var s := Sys(AtStart(), [0, 0], Pa2Blk(sReserve) - Pa2Blk(eKernel) - 3);
    ok, fs := Boot(bin, eKernel, sReserve);
    if ok {
      DirInView(fs.st, fs.count, 0);
      DirInView(fs.st, fs.count, 1);
      assert SysOf(fs.st, fs.count) == s;
      HealthyWhole(fs.st, fs.count);
      ok := Run(fs, ops);
      if ok {
        ghost var at := ShapeAtStart();
        TreeShapedMeans(AtStart());
        ShapeExactly(s, ops);
        forall b: nat | b < NBLK
          ensures fs.fsBitmap.Get(b) <==> !(fs.hi - Free(fs.st) <= b < fs.hi)
        {
          fs.BlocksInUse(b);
        }
      }
    }
  }
}
