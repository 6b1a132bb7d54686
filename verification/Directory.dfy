/** The state between operations: unused inodes blank, directories dense; and what making an entry does to it. */
module Directories {
  import opened Bytes
  import opened Dentries
  import opened Files
  import opened Image
  import opened Slots

  /** Pages of a directory of `size` bytes. */
  function DirPages(size: nat): nat {
    size / BLK_SIZE + 1
  }

  ghost predicate DirSound(st: State, count: nat, i: Ino) {
    && Dense(Content(st, i))
    && st.pages[i] == DirPages(st.nodes[i].fSize)
    && st.nodes[i].fSize <= 128 * (count + 2)
  }

  ghost predicate InodeSound(st: State, count: nat, i: Ino) {
    && (i > count ==> st.nodes[i].fType == NoType && st.nodes[i].fSize == 0 && st.pages[i] == 0)
    && (st.nodes[i].fSize > 0 ==> st.pages[i] > 0)
    && (st.nodes[i].fType == Dir ==> DirSound(st, count, i))
  }

  /** The invariant between operations, inodes 1..count being in use. */
  ghost predicate Healthy(st: State, count: nat) {
    && Core(st) && count < NINO
    && (forall i: Ino {:trigger Listed(i)} :: InodeSound(st, count, i))
    && InodeSound(st, count, 0) && st.nodes[0].fType == NoType
  }

  lemma InodeFact(st: State, count: nat, i: Ino)
    requires Healthy(st, count)
    ensures InodeSound(st, count, i) && Sound(st, i)
  {
    assert Listed(i);
  }

  /**
   Blocks that one more entry in a directory of `size` bytes takes: a page when the directory comes to end at a page
   boundary, and once, when the direct blocks are used up, the single-indirect block.
   */
  function LinkCost(size: nat): nat {
    if (size + 128) % BLK_SIZE != 0 then 0
    else if size + 128 == DIRECT_BLK_COUNT * BLK_SIZE then 2
    else 1
  }

  lemma LinkCostMeans(size: nat)
    requires size % 128 == 0 && (size + 128) / BLK_SIZE < SINGLE_END
    ensures FillOf(DirPages(size + 128)) == FillOf(DirPages(size)) + LinkCost(size)
  {}

  /** Below the double-indirect tier `get_dentry` only makes room. */
  lemma {:induction false} DentryPagesSmall(n: nat, k: nat)
    requires 128 * k / BLK_SIZE < SINGLE_END
    ensures DentryPages(n, k) == if k == 0 then n else Max(n, 128 * k / BLK_SIZE + 1)
  {
    if k > 0 {
      DentryPagesSmall(n, k - 1);
    }
  }

  lemma DirPagesAdd(size: nat, count: nat)
    requires size % 128 == 0 && size + 128 <= 128 * (count + 2) && count < NINO
    ensures DentryPages(DirPages(size), size / 128 + 1) == DirPages(size + 128)
    ensures FillOf(DirPages(size + 128)) == FillOf(DirPages(size)) + LinkCost(size)
  {
    LinkCostMeans(size);
    DentryPagesSmall(DirPages(size), size / 128 + 1);
    assert 128 * (size / 128 + 1) == size + 128;
  }

  /** In a sound directory the entry goes to the end. */
  lemma AddedAtEnd(st: State, st': State, count: nat, ino: Ino, d: DEntry)
    requires Healthy(st, count) && st.nodes[ino].fType == Dir && st.nodes[ino].fSize + 128 <= 128 * (count + 2)
    requires Added(st, st', ino, Encode(d))
    ensures var size := st.nodes[ino].fSize; Rewritten(st, st', ino, size, Encode(d), size + 128, DirPages(size + 128))
  {
    InodeFact(st, count, ino);
    FirstEmptyDense(Content(st, ino));
    DirPagesAdd(st.nodes[ino].fSize, count);
  }

  /** Adding an entry to a sound directory appends it, at the cost of `LinkCost`. */
  lemma AddedSound(st: State, st': State, count: nat, ino: Ino, d: DEntry)
    requires Healthy(st, count) && st.nodes[ino].fType == Dir && st.nodes[ino].fSize + 128 <= 128 * (count + 2)
    requires var size := st.nodes[ino].fSize; Rewritten(st, st', ino, size, Encode(d), size + 128, DirPages(size + 128))
    ensures View(st', ino) == FileView(Dir, Content(st, ino) + Encode(d))
    ensures Free(st') == Free(st) - LinkCost(st.nodes[ino].fSize)
  {
    RewrittenMeans(st, st', ino, st.nodes[ino].fSize, Encode(d), st.nodes[ino].fSize + 128,
                   DirPages(st.nodes[ino].fSize + 128));
    InodeFact(st, count, ino);
    DirPagesAdd(st.nodes[ino].fSize, count);
    ViewRewritten(st, st', ino, ino, st.nodes[ino].fSize, Encode(d), DirPages(st.nodes[ino].fSize + 128));
  }

  /** The cost known beforehand. */
  lemma AddCost(st: State, count: nat, ino: Ino)
    requires Healthy(st, count) && st.nodes[ino].fType == Dir && st.nodes[ino].fSize + 128 <= 128 * (count + 2)
    ensures FillOf(DentryPages(st.pages[ino], FirstEmpty(Content(st, ino), 0) + 1))
         == st.fill[ino] + LinkCost(st.nodes[ino].fSize)
  {
    InodeFact(st, count, ino);
    FirstEmptyDense(Content(st, ino));
    DirPagesAdd(st.nodes[ino].fSize, count);
  }

  /** What `Healthy` says of an inode depends on its type, size, pages and contents only. */
  lemma InodeSoundSame(st: State, st': State, count: nat, i: Ino)
    requires InodeSound(st, count, i) && View(st', i) == View(st, i) && st'.pages[i] == st.pages[i]
    ensures InodeSound(st', count, i)
  {
    assert st'.nodes[i].fSize == |View(st', i).bytes|;
  }

  lemma HealthyAdded(st: State, st': State, count: nat, ino: Ino, d: DEntry)
    requires Healthy(st, count) && st.nodes[ino].fType == Dir && st.nodes[ino].fSize + 128 <= 128 * (count + 2)
    requires var size := st.nodes[ino].fSize; Rewritten(st, st', ino, size, Encode(d), size + 128, DirPages(size + 128))
    requires d.inode != 0
    ensures Healthy(st', count)
  {
    RewrittenMeans(st, st', ino, st.nodes[ino].fSize, Encode(d), st.nodes[ino].fSize + 128,
                   DirPages(st.nodes[ino].fSize + 128));
    var size := st.nodes[ino].fSize;
    forall i: Ino ensures InodeSound(st', count, i) && st'.nodes[i].fType == st.nodes[i].fType {
      InodeFact(st, count, i);
      ViewRewritten(st, st', i, ino, size, Encode(d), DirPages(size + 128));
      if i == ino {
        AddedSound(st, st', count, ino, d);
        DenseAppend(Content(st, ino), d);
        assert st'.nodes[i].fSize == |View(st', i).bytes|;
      } else {
        InodeSoundSame(st, st', count, i);
      }
    }
  }

  /** The next inode number comes into use as an empty file without a type. */
  lemma HealthyNext(st: State, count: nat)
    requires Healthy(st, count) && count + 1 < NINO
    ensures Healthy(st, count + 1)
    ensures FilesOf(st, count + 1) == FilesOf(st, count) + [FileView(NoType, [])]
  {
    var n := count + 1;
    forall i: Ino ensures InodeSound(st, n, i) {
      InodeFact(st, count, i);
    }
    InodeFact(st, count, n);
  }

  /** An inode without pages holds no block number. */
  lemma BlankNode(st: State, i: Ino)
    requires Owned(st) && st.fill[i] == 0 && st.nodes[i].fType == NoType && st.nodes[i].fSize == 0
    ensures st.nodes[i] == ZeroINode()
  {
    SlotFact(st, i, Ind);
    SlotFact(st, i, Ind2);
    forall k | 0 <= k < 16 ensures st.nodes[i].direct[k] == 0 {
      SlotFact(st, i, Direct(k));
      assert At(st, i, Direct(k)) == st.nodes[i].direct[k];
    }
  }

  ghost function Typed(st: State, i: Ino, t: FType, size: nat): State {
    WithNode(st, i, INode(t, Zeros(16), 0, 0, size))
  }

  /** Giving an unused inode a type, and a size below one page, disturbs no tree and no byte. */
  lemma CoreTyped(st: State, i: Ino, t: FType, size: nat)
    requires Core(st) && st.nodes[i] == ZeroINode() && st.pages[i] == 0 && size < BLK_SIZE
    ensures Core(Typed(st, i, t, size)) && Free(Typed(st, i, t, size)) == Free(st)
    ensures forall j: Ino {:trigger Listed(j)} ::
      View(Typed(st, i, t, size), j) == if j == i then FileView(t, Zeros(size)) else View(st, j)
  {
    var st' := Typed(st, i, t, size);
    OwnedSameTree(st, st');
    forall j: Ino ensures Sound(st', j) {
      SoundFact(st, j);
      forall k: nat | k >= st'.nodes[j].fSize ensures ByteAt(st', j, k) == 0 {
        assert Placed(j, k);
      }
    }
    forall j: Ino ensures View(st', j) == if j == i then FileView(t, Zeros(size)) else View(st, j) {}
  }

  // ----- a new directory -----

  function Dot(ino: Word): DEntry {
    DEntry(ino, Dir, 1, NameField([46], Zeros(DENTRY_NAME_LEN)))
  }

  function DotDot(parent: Word): DEntry {
    DEntry(parent, Dir, 2, NameField([46, 46], Zeros(DENTRY_NAME_LEN)))
  }

  const NEW_DIR_SIZE: nat := 256

  /** What make_dir puts into the directory itself. */
  function NewDirBytes(ino: Word, parent: Word): seq<Byte> {
    Encode(Dot(ino)) + Encode(DotDot(parent))
  }

  lemma NewDirDense(ino: Word, parent: Word)
    requires ino != 0 && parent != 0
    ensures Dense(NewDirBytes(ino, parent)) && |NewDirBytes(ino, parent)| == NEW_DIR_SIZE
  {
    assert [] + Encode(Dot(ino)) == Encode(Dot(ino));
    DenseAppend([], Dot(ino));
    DenseAppend(Encode(Dot(ino)), DotDot(parent));
  }

  lemma SecondSlotOfNew(e: seq<Byte>, f: seq<Byte>)
    requires |e| == |f| == DENTRY_SIZE && (e[0] != 0 || e[1] != 0 || e[2] != 0 || e[3] != 0)
    ensures FirstEmpty(e + Zeros(DENTRY_SIZE), 0) == 1
    ensures Overwrite(e + Zeros(DENTRY_SIZE), 128, f) == e + f
  {
    var c := e + Zeros(DENTRY_SIZE);
    assert !Blank(c, 0) && Blank(c, 1);
    assert EmptyFrom(c, 0, 1);
    FirstEmptyIs(c, 1);
  }

  /** It takes the directory's first page. */
  lemma DotCost(st: State, ino: Ino)
    requires Core(st) && View(st, ino) == FileView(Dir, Zeros(NEW_DIR_SIZE)) && st.pages[ino] == 0
    ensures st.nodes[ino].fType == Dir && st.fill[ino] == 0
    ensures FillOf(DentryPages(st.pages[ino], FirstEmpty(Content(st, ino), 0) + 1)) == 1
  {
    SoundFact(st, ino);
    assert DentryPages(0, 1) == 1;
  }

  lemma SecondCost(st: State, ino: Ino, e: seq<Byte>)
    requires |e| == DENTRY_SIZE && (e[0] != 0 || e[1] != 0 || e[2] != 0 || e[3] != 0)
    requires Core(st) && View(st, ino) == FileView(Dir, e + Zeros(DENTRY_SIZE)) && st.pages[ino] == 1
    ensures st.nodes[ino].fType == Dir && st.fill[ino] == 1
    ensures FillOf(DentryPages(st.pages[ino], FirstEmpty(Content(st, ino), 0) + 1)) == 1
  {
    SoundFact(st, ino);
    SecondSlotOfNew(e, e);
    DentryPagesSmall(1, 2);
  }

  /** The second takes nothing more. */
  lemma DotDotCost(st: State, ino: Ino, parent: Word)
    requires ino != 0 && Core(st) && View(st, ino) == FileView(Dir, Encode(Dot(ino)) + Zeros(DENTRY_SIZE))
    requires st.pages[ino] == 1
    ensures st.nodes[ino].fType == Dir && st.fill[ino] == 1
    ensures FillOf(DentryPages(st.pages[ino], FirstEmpty(Content(st, ino), 0) + 1)) == 1
  {
    SecondCost(st, ino, Encode(Dot(ino)));
  }

  /** The first of the two add_dentry calls of make_dir. */
  lemma DotAdded(st: State, st': State, ino: Ino)
    requires Core(st) && View(st, ino) == FileView(Dir, Zeros(NEW_DIR_SIZE)) && st.pages[ino] == 0
    requires Added(st, st', ino, Encode(Dot(ino)))
    ensures Rewritten(st, st', ino, 0, Encode(Dot(ino)), NEW_DIR_SIZE, 1)
    ensures View(st', ino) == FileView(Dir, Encode(Dot(ino)) + Zeros(DENTRY_SIZE))
  {
    assert st.nodes[ino].fSize == |View(st, ino).bytes|;
    assert DentryPages(0, 1) == 1;
    ViewRewritten(st, st', ino, ino, 0, Encode(Dot(ino)), 1);
  }

  lemma SecondAdded(st: State, st': State, ino: Ino, e: seq<Byte>, f: seq<Byte>)
    requires |e| == |f| == DENTRY_SIZE && (e[0] != 0 || e[1] != 0 || e[2] != 0 || e[3] != 0)
    requires Core(st) && View(st, ino) == FileView(Dir, e + Zeros(DENTRY_SIZE)) && st.pages[ino] == 1
    requires Added(st, st', ino, f)
    ensures Rewritten(st, st', ino, 128, f, NEW_DIR_SIZE, 1)
    ensures View(st', ino) == FileView(Dir, e + f)
  {
    SecondSlotOfNew(e, f);
    assert st.nodes[ino].fSize == |View(st, ino).bytes|;
    DentryPagesSmall(1, 2);
    ViewRewritten(st, st', ino, ino, 128, f, 1);
  }

  /** The second. */
  lemma DotDotAdded(st: State, st': State, ino: Ino, parent: Word)
    requires ino != 0 && Core(st) && View(st, ino) == FileView(Dir, Encode(Dot(ino)) + Zeros(DENTRY_SIZE))
    requires st.pages[ino] == 1 && Added(st, st', ino, Encode(DotDot(parent)))
    ensures Rewritten(st, st', ino, 128, Encode(DotDot(parent)), NEW_DIR_SIZE, 1)
    ensures View(st', ino) == FileView(Dir, NewDirBytes(ino, parent))
  {
    SecondAdded(st, st', ino, Encode(Dot(ino)), Encode(DotDot(parent)));
  }

  /** The state after make_dir filled its new directory `ino`, but before the parent's entry. */
  lemma NewDirMade(st: State, st1: State, st2: State, st3: State, ino: Ino, parent: Word)
    requires 0 < ino && parent != 0 && Healthy(st, ino) && View(st, ino) == FileView(NoType, []) && st.pages[ino] == 0
    requires st.nodes[ino] == ZeroINode() && st1 == Typed(st, ino, Dir, NEW_DIR_SIZE)
    requires Rewritten(st1, st2, ino, 0, Encode(Dot(ino)), NEW_DIR_SIZE, 1)
    requires Rewritten(st2, st3, ino, 128, Encode(DotDot(parent)), NEW_DIR_SIZE, 1)
    requires View(st3, ino) == FileView(Dir, NewDirBytes(ino, parent))
    ensures Healthy(st3, ino) && Free(st3) == Free(st) - 1
    ensures FilesOf(st3, ino) == FilesOf(st, ino)[ino := FileView(Dir, NewDirBytes(ino, parent))]
  {
    RewrittenMeans(st1, st2, ino, 0, Encode(Dot(ino)), NEW_DIR_SIZE, 1);
    RewrittenMeans(st2, st3, ino, 128, Encode(DotDot(parent)), NEW_DIR_SIZE, 1);
    CoreTyped(st, ino, Dir, NEW_DIR_SIZE);
    InodeFact(st, ino, ino);
    assert st1.fill[ino] == FillOf(0) == 0 && FillOf(1) == 1;
    assert Free(st2) == Free(st1) - 1;
    NewDirDense(ino, parent);
    forall i: Ino
      ensures InodeSound(st3, ino, i)
      ensures i != ino ==> View(st3, i) == View(st, i)
    {
      assert Listed(i);
      InodeFact(st, ino, i);
      ViewRewritten(st1, st2, i, ino, 0, Encode(Dot(ino)), 1);
      ViewRewritten(st2, st3, i, ino, 128, Encode(DotDot(parent)), 1);
      if i == ino {
        assert st3.nodes[i].fSize == |View(st3, i).bytes|;
      } else {
        assert View(st3, i) == View(st, i);
        InodeSoundSame(st, st3, ino, i);
      }
    }
    assert Listed(0);
  }

  /** One entry appended to a directory. */
  function Linked(fs: seq<FileView>, parent: nat, d: DEntry): seq<FileView>
    requires parent < |fs|
  {
    fs[parent := FileView(Dir, fs[parent].bytes + Encode(d))]
  }

  /** add_dentry on a sound directory, seen from outside. */
  lemma LinkMade(st: State, st': State, count: nat, ino: Ino, d: DEntry)
    requires Healthy(st, count) && ino <= count && st.nodes[ino].fType == Dir && st.nodes[ino].fSize <= 128 * (count + 1)
    requires Added(st, st', ino, Encode(d)) && d.inode != 0
    ensures Healthy(st', count) && Free(st') == Free(st) - LinkCost(st.nodes[ino].fSize)
    ensures FilesOf(st', count) == Linked(FilesOf(st, count), ino, d)
    ensures SamePages(st, st', ino)
  {
    AddedAtEnd(st, st', count, ino, d);
    RewrittenMeans(st, st', ino, st.nodes[ino].fSize, Encode(d), st.nodes[ino].fSize + 128,
                   DirPages(st.nodes[ino].fSize + 128));
    HealthyAdded(st, st', count, ino, d);
    AddedSound(st, st', count, ino, d);
    FilesRewritten(st, st', count, ino, st.nodes[ino].fSize, Encode(d), DirPages(st.nodes[ino].fSize + 128));
  }

  /** The files after make_file. */
  function MadeFile(fs: seq<FileView>, parent: nat, name: seq<Byte>): seq<FileView>
    requires 0 < parent < |fs| < NINO && |name| <= DENTRY_NAME_LEN
  {
    Linked(fs + [FileView(Regular, [])], parent,
           DEntry(|fs|, Regular, |name|, NameField(name, Zeros(DENTRY_NAME_LEN))))
  }

  /** The files after make_dir; `junk` is what stood in the entry's name field before the name was copied there. */
  function MadeDir(fs: seq<FileView>, parent: nat, name: seq<Byte>, junk: FName): seq<FileView>
    requires 0 < parent <= |fs| < NINO && |name| <= DENTRY_NAME_LEN
  {
    var fs1 := fs + [FileView(Dir, NewDirBytes(|fs|, parent))];
    if |fs| == 1 then fs1
    else Linked(fs1, parent, DEntry(|fs|, Dir, |name|, NameField(name, junk)))
  }

  /** Giving a fresh inode the type of a regular file. */
  lemma FileTyped(st: State, ino: Ino)
    requires 0 < ino && Healthy(st, ino) && View(st, ino) == FileView(NoType, []) && st.pages[ino] == 0
    requires st.nodes[ino] == ZeroINode()
    ensures var st' := Typed(st, ino, Regular, 0);
      && Healthy(st', ino) && Free(st') == Free(st)
      && FilesOf(st', ino) == FilesOf(st, ino)[ino := FileView(Regular, [])]
  {
    var st' := Typed(st, ino, Regular, 0);
    CoreTyped(st, ino, Regular, 0);
    forall i: Ino
      ensures InodeSound(st', ino, i)
      ensures View(st', i) == if i == ino then FileView(Regular, []) else View(st, i)
    {
      assert Listed(i);
      InodeFact(st, ino, i);
      if i != ino {
        InodeSoundSame(st, st', ino, i);
      }
    }
    assert Listed(0);
  }

  // ----- when make_dir and make_file succeed -----

  /** The asserts of make_dir and of what it calls, blocks apart. */
  ghost predicate MayMakeDir(fs: seq<FileView>, parent: nat, name: seq<Byte>) {
    && |name| <= DENTRY_NAME_LEN && 0 < |fs| < NINO && 0 < parent <= |fs|
    && (parent < |fs| ==> fs[parent].fType == Dir)
  }

  ghost function DirCost(fs: seq<FileView>, parent: nat): (c: nat)
    ensures c >= 1
  {
    if |fs| == 1 then 1
    else 1 + LinkCost(if parent < |fs| then |fs[parent].bytes| else NEW_DIR_SIZE)
  }

  ghost predicate MayMakeFile(fs: seq<FileView>, parent: nat, name: seq<Byte>) {
    |name| <= DENTRY_NAME_LEN && |fs| < NINO && 0 < parent < |fs| && fs[parent].fType == Dir
  }

  /** What an inode in use shows of its state. */
  lemma DirInView(st: State, count: nat, i: Ino)
    requires Healthy(st, count) && i <= count
    ensures FilesOf(st, count)[i].fType == st.nodes[i].fType && |FilesOf(st, count)[i].bytes| == st.nodes[i].fSize
    ensures st.nodes[i].fType == Dir ==> st.nodes[i].fSize <= 128 * (count + 2)
  {
    InodeFact(st, count, i);
  }

  /** A write leaves pages whenever it leaves bytes. */
  lemma WritePagesPositive(size: nat, n: nat, off: nat, len: nat)
    requires size > 0 ==> n > 0
    ensures Max(size, off + len) > 0 ==> WritePages(size, n, off, len) > 0
  {}

  /** Writing to a regular file keeps the invariant. */
  lemma HealthyWritten(st: State, st': State, count: nat, ino: Ino, off: nat, bytes: seq<Byte>)
    requires Healthy(st, count) && ino <= count && st.nodes[ino].fType == Regular
    requires Rewritten(st, st', ino, off, bytes, Max(st.nodes[ino].fSize, off + |bytes|),
                       WritePages(st.nodes[ino].fSize, st.pages[ino], off, |bytes|))
    ensures Healthy(st', count)
    ensures FilesOf(st', count) == FilesOf(st, count)[ino := OverwriteFile(View(st, ino), off, bytes)]
  {
    RewrittenMeans(st, st', ino, off, bytes, Max(st.nodes[ino].fSize, off + |bytes|),
                   WritePages(st.nodes[ino].fSize, st.pages[ino], off, |bytes|));
    var n := WritePages(st.nodes[ino].fSize, st.pages[ino], off, |bytes|);
    forall i: Ino ensures InodeSound(st', count, i) && st'.nodes[i].fType == st.nodes[i].fType {
      InodeFact(st, count, i);
      ViewRewritten(st, st', i, ino, off, bytes, n);
      if i == ino {
        WritePagesPositive(st.nodes[ino].fSize, st.pages[ino], off, |bytes|);
        assert st'.nodes[i].fSize == |View(st', i).bytes|;
      } else {
        InodeSoundSame(st, st', count, i);
      }
    }
    FilesRewritten(st, st', count, ino, off, bytes, n);
  }
}
