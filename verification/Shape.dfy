/** The shape of the directory tree over any run of operations: one entry for each inode, parents first. */
module TreeShape {
  import opened Bytes
  import opened Dentries
  import opened Directories
  import opened Files
  import opened Folding
  import opened Image

  // ----- directories as lists of entries -----

  datatype DirView = DirView(fType: FType, es: seq<DEntry>)

  function DirViewOf(f: FileView): DirView {
    DirView(f.fType, if f.fType == Dir then Listing(f.bytes) else [])
  }

  function Dirs(fs: seq<FileView>): (ds: seq<DirView>)
    ensures |ds| == |fs|
    ensures forall i | 0 <= i < |fs| :: ds[i] == DirViewOf(fs[i])
  {
    seq(|fs|, i requires 0 <= i < |fs| => DirViewOf(fs[i]))
  }

  // ----- the operations between which the file system rests -----

  datatype Op =
    | MkDir(parent: Word, name: seq<Byte>, junk: FName)
    | MkFile(parent: Word, name: seq<Byte>)
    | Put(no: nat, off: nat, bytes: seq<Byte>)

  /** `op` is made on existing directories and regular files, and leads from `fs` to `fs'`. */
  ghost predicate Step(fs: seq<FileView>, op: Op, fs': seq<FileView>) {
    match op
    case MkDir(parent, name, junk) =>
      && |name| <= DENTRY_NAME_LEN && 1 < |fs| < NINO && 0 < parent < |fs| && fs[parent].fType == Dir
      && |fs[parent].bytes| % 128 == 0 && fs' == MadeDir(fs, parent, name, junk)
    case MkFile(parent, name) =>
      && |name| <= DENTRY_NAME_LEN && 1 < |fs| < NINO && 0 < parent < |fs| && fs[parent].fType == Dir
      && |fs[parent].bytes| % 128 == 0 && fs' == MadeFile(fs, parent, name)
    case Put(no, off, bytes) =>
      no < |fs| && fs[no].fType == Regular && fs' == fs[no := OverwriteFile(fs[no], off, bytes)]
  }

  /** Where the entry of an inode stands: slot `slot` of directory `dir`. */
  datatype Place = Place(dir: nat, slot: nat)

  /** A term to hang facts about places on. */
  ghost predicate Looked(d: nat, i: nat) { true }

  /** Entry `i` of directory `d` is one that names a child. */
  ghost predicate IsChildEntry(ds: seq<DirView>, d: nat, i: nat) {
    0 < d < |ds| && ds[d].fType == Dir && 2 <= i < |ds[d].es|
  }

  /**
   Inode `c` has its entry at `p`, in a directory with a smaller number; if `c` is a directory, it begins with an entry
   `.` for itself and an entry `..` for that directory.
   */
  ghost predicate WellPlaced(ds: seq<DirView>, c: nat, p: Place)
    requires c < |ds| <= NINO
  {
    && IsChildEntry(ds, p.dir, p.slot) && p.dir < c
    && ds[p.dir].es[p.slot].inode == c && ds[p.dir].es[p.slot].fType == ds[c].fType
    && (ds[c].fType == Dir ==> StartsWithDots(ds[c].es, c, p.dir))
  }

  /**
   The directories form a tree: each begins with `.` and `..`, `at` gives every inode but the root its place, and every
   other entry is the place of the inode it names.
   */
  ghost predicate Shape(ds: seq<DirView>, at: seq<Place>) {
    && 2 <= |at| == |ds| <= NINO && ds[0].fType == NoType
    && ds[1].fType == Dir && StartsWithDots(ds[1].es, 1, 1)
    && (forall c: nat {:trigger at[c]} :: 2 <= c < |ds| ==> WellPlaced(ds, c, at[c]))
    && (forall d: nat, i: nat {:trigger Looked(d, i)} :: IsChildEntry(ds, d, i) ==>
          2 <= ds[d].es[i].inode < |ds| && at[ds[d].es[i].inode] == Place(d, i))
  }

  /** Some places make a tree of them. */
  ghost predicate TreeShaped(fs: seq<FileView>) {
    forall z: nat {:trigger Opened(z)} :: exists at: seq<Place> :: Shape(Dirs(fs), at)
  }

  lemma TreeShapedMeans(fs: seq<FileView>)
    ensures TreeShaped(fs) <==> exists at: seq<Place> :: Shape(Dirs(fs), at)
  {
    assert Opened(0);
  }

  // ----- one step -----

  lemma DirsLinked(fs: seq<FileView>, parent: nat, d: DEntry)
    requires parent < |fs| && fs[parent].fType == Dir && |fs[parent].bytes| % 128 == 0 && d.nameLen < 65536
    ensures Dirs(Linked(fs, parent, d)) == Dirs(fs)[parent := DirView(Dir, Dirs(fs)[parent].es + [d])]
  {
    ListingAppend(fs[parent].bytes, d);
  }

  lemma DirsAppended(fs: seq<FileView>, f: FileView)
    ensures Dirs(fs + [f]) == Dirs(fs) + [DirViewOf(f)]
  {}

  lemma NewDirListing(ino: Word, parent: Word)
    ensures Listing(NewDirBytes(ino, parent)) == [Dot(ino), DotDot(parent)]
  {
    assert [] + Encode(Dot(ino)) == Encode(Dot(ino));
    ListingAppend([], Dot(ino));
    ListingAppend(Encode(Dot(ino)), DotDot(parent));
    assert Listing([]) + [Dot(ino)] + [DotDot(parent)] == [Dot(ino), DotDot(parent)];
  }

  /** What make_dir puts into the new directory, entry by entry. */
  lemma NewDirEntries(ino: Word, parent: Word)
    ensures |Listing(NewDirBytes(ino, parent))| == 2
    ensures StartsWithDots(Listing(NewDirBytes(ino, parent)), ino, parent)
  {
    NewDirListing(ino, parent);
    var es := Listing(NewDirBytes(ino, parent));
    assert es[0].fName[..1] == [46] && es[1].fName[..2] == [46, 46];
  }

  predicate HasDots(f: FileView, ino: nat, parent: nat) {
    f.fType == Dir && StartsWithDots(Listing(f.bytes), ino, parent)
  }

  /** After make_dir the new directory is a directory that begins with its dot entries, whatever its parent. */
  lemma MadeDirDots(fs: seq<FileView>, parent: Word, name: seq<Byte>, junk: FName)
    requires MayMakeDir(fs, parent, name)
    ensures HasDots(MadeDir(fs, parent, name, junk)[|fs|], |fs|, parent)
  {
    NewDirEntries(|fs|, parent);
    NewDirDense(|fs|, parent);
    if |fs| > 1 && parent == |fs| {
      ListingAppend(NewDirBytes(|fs|, parent), DEntry(|fs|, Dir, |name|, NameField(name, junk)));
    }
  }

  /** The parent's last entry after make_dir: the new inode under its name, then what stood in the field before. */
  lemma MadeDirEntry(fs: seq<FileView>, parent: Word, name: seq<Byte>, junk: FName)
    requires MayMakeDir(fs, parent, name) && 0 < parent < |fs| && |fs| > 1 && |fs[parent].bytes| % 128 == 0
    ensures var fs', es := MadeDir(fs, parent, name, junk), Listing(fs[parent].bytes);
      && |fs'| == |fs| + 1 && (forall i | 0 <= i < |fs| && i != parent :: fs'[i] == fs[i])
      && fs'[parent].fType == Dir && |Listing(fs'[parent].bytes)| == |es| + 1 && Listing(fs'[parent].bytes)[..|es|] == es
      && var e := Listing(fs'[parent].bytes)[|es|];
         Names(e, |fs|, Dir, name) && e.fName[|name|..] == junk[|name|..]
  {
    ListingAppend(fs[parent].bytes, DEntry(|fs|, Dir, |name|, NameField(name, junk)));
  }

  /** The parent's last entry after make_file: the new inode under its name, then zeroes. */
  lemma MadeFileEntry(fs: seq<FileView>, parent: Word, name: seq<Byte>)
    requires MayMakeFile(fs, parent, name) && |fs[parent].bytes| % 128 == 0
    ensures var fs', es := MadeFile(fs, parent, name), Listing(fs[parent].bytes);
      && |fs'| == |fs| + 1 && (forall i | 0 <= i < |fs| && i != parent :: fs'[i] == fs[i])
      && fs'[|fs|].fType == Regular && fs'[|fs|].bytes == []
      && fs'[parent].fType == Dir && |Listing(fs'[parent].bytes)| == |es| + 1 && Listing(fs'[parent].bytes)[..|es|] == es
      && var e := Listing(fs'[parent].bytes)[|es|];
         Names(e, |fs|, Regular, name) && ZeroAfterName(e)
  {
    ListingAppend(fs[parent].bytes, DEntry(|fs|, Regular, |name|, NameField(name, Zeros(DENTRY_NAME_LEN))));
  }

  /** A new inode whose entry is appended to an existing directory keeps the shape. */
  lemma ShapeGrows(ds: seq<DirView>, at: seq<Place>, parent: nat, v: DirView, d: DEntry, ds': seq<DirView>)
    requires Shape(ds, at) && 0 < parent < |ds| && ds[parent].fType == Dir
    requires d.inode == |ds| && d.fType == v.fType && v.fType != NoType && (v.fType != Dir ==> v.es == [])
    requires |ds| < NINO && (v.fType == Dir ==> |v.es| == 2 && StartsWithDots(v.es, |ds|, parent))
    requires ds' == (ds + [v])[parent := DirView(Dir, ds[parent].es + [d])]
    requires |ds[parent].es| >= 2
    ensures Shape(ds', at + [Place(parent, |ds[parent].es|)])
  {
    var at' := at + [Place(parent, |ds[parent].es|)];
    forall c: nat | 2 <= c < |ds'| ensures WellPlaced(ds', c, at'[c]) {
      if c < |ds| {
        assert at'[c] == at[c];
        assert WellPlaced(ds, c, at[c]);
      }
    }
    forall e: nat, i: nat | IsChildEntry(ds', e, i)
      ensures 2 <= ds'[e].es[i].inode < |ds'| && at'[ds'[e].es[i].inode] == Place(e, i)
    {
      assert Looked(e, i);
      if e != parent || i != |ds[parent].es| {
        assert IsChildEntry(ds, e, i);
      }
    }
  }

  lemma DirHasDots(ds: seq<DirView>, at: seq<Place>, d: nat)
    requires Shape(ds, at) && 0 < d < |ds| && ds[d].fType == Dir
    ensures |ds[d].es| >= 2
  {
    if d > 1 {
      assert WellPlaced(ds, d, at[d]);
    }
  }

  /** Every operation keeps the shape. */
  lemma ShapeStep(fs: seq<FileView>, op: Op, fs': seq<FileView>, at: seq<Place>) returns (at': seq<Place>)
    requires Shape(Dirs(fs), at) && Step(fs, op, fs')
    ensures Shape(Dirs(fs'), at') && at <= at'
  {
    var ds := Dirs(fs);
    match op
    case MkDir(parent, name, junk) =>
      var v := FileView(Dir, NewDirBytes(|fs|, parent));
      var d := DEntry(|fs|, Dir, |name|, NameField(name, junk));
      DirHasDots(ds, at, parent);
      NewDirEntries(|fs|, parent);
      DirsAppended(fs, v);
      DirsLinked(fs + [v], parent, d);
      at' := at + [Place(parent, |ds[parent].es|)];
      ShapeGrows(ds, at, parent, DirViewOf(v), d, Dirs(fs'));
    case MkFile(parent, name) =>
      var v := FileView(Regular, []);
      var d := DEntry(|fs|, Regular, |name|, NameField(name, Zeros(DENTRY_NAME_LEN)));
      DirHasDots(ds, at, parent);
      DirsAppended(fs, v);
      DirsLinked(fs + [v], parent, d);
      at' := at + [Place(parent, |ds[parent].es|)];
      ShapeGrows(ds, at, parent, DirViewOf(v), d, Dirs(fs'));
    case Put(no, off, bytes) =>
      at' := at;
      assert Dirs(fs') == ds;
  }

  // ----- whole runs -----

  /** A run: states one operation apart. */
  ghost predicate IsRun(run: seq<seq<FileView>>, ops: seq<Op>) {
    && |run| == |ops| + 1
    && forall i | 0 <= i < |ops| :: Step(run[i], ops[i], run[i + 1])
  }

  /** Some run leads from `fs` to `fs'`. */
  ghost predicate Leads(fs: seq<FileView>, fs': seq<FileView>) {
    exists run: seq<seq<FileView>>, ops: seq<Op> {:trigger IsRun(run, ops)} ::
      IsRun(run, ops) && run[0] == fs && run[|ops|] == fs'
  }

  lemma LeadsNowhere(fs: seq<FileView>)
    ensures Leads(fs, fs)
  {
    assert IsRun([fs], []);
  }

  lemma LeadsStep(fs: seq<FileView>, op: Op, fs': seq<FileView>)
    requires Step(fs, op, fs')
    ensures Leads(fs, fs')
  {
    assert IsRun([fs, fs'], [op]);
  }

  lemma LeadsOn(fs: seq<FileView>, fs': seq<FileView>, fs'': seq<FileView>)
    requires Leads(fs, fs') && Leads(fs', fs'')
    ensures Leads(fs, fs'')
  {
    var r: seq<seq<FileView>>, o: seq<Op> :| IsRun(r, o) && r[0] == fs && r[|o|] == fs';
    var r': seq<seq<FileView>>, o': seq<Op> :| IsRun(r', o') && r'[0] == fs' && r'[|o'|] == fs'';
    var run, ops := r + r'[1..], o + o';
    forall i | 0 <= i < |ops| ensures Step(run[i], ops[i], run[i + 1]) {
      if i >= |o| {
        assert run[i] == r'[i - |o|] && run[i + 1] == r'[i - |o| + 1] && ops[i] == o'[i - |o|];
      }
    }
    assert IsRun(run, ops);
  }

  /** Wherever a run leads from a tree, there is a tree, and no inode has lost its place. */
  lemma LeadsToShape(fs: seq<FileView>, fs': seq<FileView>, at: seq<Place>) returns (at': seq<Place>)
    requires Leads(fs, fs') && Shape(Dirs(fs), at)
    ensures Shape(Dirs(fs'), at') && at <= at'
  {
    var run: seq<seq<FileView>>, ops: seq<Op> :| IsRun(run, ops) && run[0] == fs && run[|ops|] == fs';
    at' := RunShape(run, ops, |ops|, at);
  }

  // ----- what the program does between -----

  /** make_dir below an existing directory is one step. */
  lemma MadeDirLeads(st: State, count: nat, parent: Word, name: seq<Byte>, junk: FName)
    requires Healthy(st, count) && 0 < parent <= count && MayMakeDir(FilesOf(st, count), parent, name)
    ensures Leads(FilesOf(st, count), MadeDir(FilesOf(st, count), parent, name, junk))
  {
    InodeFact(st, count, parent);
    LeadsStep(FilesOf(st, count), MkDir(parent, name, junk), MadeDir(FilesOf(st, count), parent, name, junk));
  }

  /** make_file and the write that fills the file are two. */
  lemma CopiedFileLeads(st: State, count: nat, parent: Word, name: seq<Byte>, bytes: seq<Byte>)
    requires Healthy(st, count) && MayMakeFile(FilesOf(st, count), parent, name)
    ensures var fs := FilesOf(st, count);
      Leads(fs, MadeFile(fs, parent, name)[count + 1 := FileView(Regular, bytes)])
  {
    var fs := FilesOf(st, count);
    var made := MadeFile(fs, parent, name);
    InodeFact(st, count, parent);
    LeadsStep(fs, MkFile(parent, name), made);
    OverwriteNew(bytes);
    LeadsStep(made, Put(count + 1, 0, bytes), made[count + 1 := FileView(Regular, bytes)]);
    LeadsOn(fs, made, made[count + 1 := FileView(Regular, bytes)]);
  }

  /** The files the constructor leaves. */
  function AtStart(): seq<FileView> {
    [FileView(NoType, []), FileView(Dir, NewDirBytes(1, 1))]
  }

  lemma ShapeAtStart() returns (at: seq<Place>)
    ensures Shape(Dirs(AtStart()), at)
  {
    NewDirEntries(1, 1);
    var es := Listing(NewDirBytes(1, 1));
    assert [es[0], es[1]] == es;
    assert Dirs(AtStart()) == [DirView(NoType, []), DirView(Dir, es)];
    at := [Place(0, 0), Place(0, 0)];
    ShapeOfRoot(es[0], es[1]);
  }

  lemma ShapeOfRoot(a: DEntry, b: DEntry)
    requires StartsWithDots([a, b], 1, 1)
    ensures Shape([DirView(NoType, []), DirView(Dir, [a, b])], [Place(0, 0), Place(0, 0)])
  {
    var ds := [DirView(NoType, []), DirView(Dir, [a, b])];
    assert forall d: nat, i: nat :: !IsChildEntry(ds, d, i);
  }

  lemma RunShapeNext(run: seq<seq<FileView>>, ops: seq<Op>, k: nat, at0: seq<Place>, at: seq<Place>)
    returns (at': seq<Place>)
    requires IsRun(run, ops) && 0 < k < |run| && Shape(Dirs(run[k - 1]), at) && at0 <= at
    ensures Shape(Dirs(run[k]), at') && at0 <= at'
  {
    assert Step(run[k - 1], ops[k - 1], run[k]);
    at' := ShapeStep(run[k - 1], ops[k - 1], run[k], at);
  }

  /** In every state of a run that starts from a tree the directories form a tree. */
  lemma {:induction false} RunShape(run: seq<seq<FileView>>, ops: seq<Op>, k: nat, at0: seq<Place>)
    returns (at: seq<Place>)
    requires IsRun(run, ops) && k < |run| && Shape(Dirs(run[0]), at0)
    ensures Shape(Dirs(run[k]), at) && at0 <= at
    decreases k
  {
    at := at0;
    if k > 0 {
      at := RunShape(run, ops, k - 1, at0);
      at := RunShapeNext(run, ops, k, at0, at);
    }
  }

  /** Inode `c` can be found from the root by following entries. */
  ghost predicate Reached(ds: seq<DirView>, c: nat) {
    c == 1 || exists d: nat, i: nat {:trigger Looked(d, i)} ::
      Looked(d, i) && d < c && IsChildEntry(ds, d, i) && ds[d].es[i].inode == c && Reached(ds, d)
  }

  lemma {:induction false} ShapeReached(ds: seq<DirView>, at: seq<Place>, c: nat)
    requires Shape(ds, at) && 0 < c < |ds|
    ensures Reached(ds, c)
    decreases c
  {
    if c > 1 {
      var p := at[c];
      assert WellPlaced(ds, c, p);
      ShapeReached(ds, at, p.dir);
      assert Looked(p.dir, p.slot);
    }
  }

  /**
   In a tree-shaped file system an inode other than the root is named by exactly one entry that is not a dot entry,
   and the root by none.
   */
  lemma OneEntry(ds: seq<DirView>, at: seq<Place>, c: nat, d: nat, i: nat, d': nat, i': nat)
    requires Shape(ds, at) && IsChildEntry(ds, d, i) && IsChildEntry(ds, d', i')
    requires ds[d].es[i].inode == c == ds[d'].es[i'].inode
    ensures d == d' && i == i' && 1 < c < |ds| && d < c
  {
    assert Looked(d, i) && Looked(d', i');
    assert WellPlaced(ds, c, at[c]);
  }
}
