/** Host trees, the image of one in the file system, and a reader that recovers it. */
module Trees {
  import opened Bytes
  import opened Dentries
  import opened Directories
  import opened Files
  import opened Image
  import opened Seqs
  import opened Slots

  /** What `directory_iterator` shows: directories, regular files, and anything else, which is skipped. */
  datatype HostNode =
    | HostDir(name: seq<Byte>, kids: seq<HostNode>)
    | HostFile(name: seq<Byte>, bytes: seq<Byte>)
    | HostOther(name: seq<Byte>)

  // ----- measures of a tree -----

  /** Inodes a node takes. */
  function NodeSize(t: HostNode): nat {
    match t
    case HostDir(_, kids) => 1 + Size(kids)
    case HostFile(_, _) => 1
    case HostOther(_) => 0
  }

  function Size(kids: seq<HostNode>): nat {
    if kids == [] then 0 else Size(Init(kids)) + NodeSize(Last(kids))
  }

  /** Entries a listing puts into its directory. */
  function Entries(kids: seq<HostNode>): nat {
    if kids == [] then 0 else Entries(Init(kids)) + if Last(kids).HostOther? then 0 else 1
  }

  predicate NodeNamesFit(t: HostNode) {
    match t
    case HostDir(name, kids) => |name| <= DENTRY_NAME_LEN && NamesFit(kids)
    case HostFile(name, _) => |name| <= DENTRY_NAME_LEN
    case HostOther(_) => true
  }

  predicate NamesFit(kids: seq<HostNode>) {
    kids == [] || (NamesFit(Init(kids)) && NodeNamesFit(Last(kids)))
  }

  /** How deeply directories nest. */
  function NodeDepth(t: HostNode): nat {
    if t.HostDir? then 1 + Depth(t.kids) else 0
  }

  function Depth(kids: seq<HostNode>): nat {
    if kids == [] then 0 else Max(Depth(Init(kids)), NodeDepth(Last(kids)))
  }

  /** The tree without what is skipped. */
  function PruneNode(t: HostNode): HostNode {
    if t.HostDir? then HostDir(t.name, Prune(t.kids)) else t
  }

  function Prune(kids: seq<HostNode>): seq<HostNode> {
    if kids == [] then []
    else Prune(Init(kids)) + if Last(kids).HostOther? then [] else [PruneNode(Last(kids))]
  }

  /** Nothing in the tree but directories and regular files. */
  predicate NodePlain(t: HostNode) {
    match t
    case HostDir(_, kids) => Plain(kids)
    case HostFile(_, _) => true
    case HostOther(_) => false
  }

  predicate Plain(kids: seq<HostNode>) {
    kids == [] || (Plain(Init(kids)) && NodePlain(Last(kids)))
  }

  /** Such a tree is not pruned at all. */
  lemma {:induction false} PrunePlain(kids: seq<HostNode>)
    requires Plain(kids)
    ensures Prune(kids) == kids
  {
    if kids != [] {
      PrunePlain(Init(kids));
      PruneNodePlain(Last(kids));
    }
  }

  lemma {:induction false} PruneNodePlain(t: HostNode)
    requires NodePlain(t)
    ensures PruneNode(t) == t
  {
    if t.HostDir? {
      PrunePlain(t.kids);
    }
  }

  /** What is skipped leaves no trace. */
  lemma PruneSkips(kids: seq<HostNode>, name: seq<Byte>)
    ensures Prune(kids + [HostOther(name)]) == Prune(kids)
  {
    InitLast(kids, HostOther(name));
  }

  // ----- a tree laid out in the file system -----

  /**
   Entry `e` stands for node `t` in inode `ino`, and the inodes of its subtree are numbered from there on, parents
   before children and siblings in order.
   */
  ghost predicate NodeHolds(fs: seq<FileView>, e: DEntry, t: HostNode, ino: nat)
    decreases t
  {
    && !t.HostOther? && 0 < ino < |fs| && e.inode == ino
    && e.nameLen == |t.name| <= DENTRY_NAME_LEN && e.Name() == t.name
    && match t
       case HostDir(_, kids) =>
         && e.fType == fs[ino].fType == Dir
         && |fs[ino].bytes| == NEW_DIR_SIZE + 128 * Entries(kids)
         && KidsHold(fs, Listing(fs[ino].bytes), 2, kids, ino + 1)
       case HostFile(_, bytes) => e.fType == Regular && fs[ino] == FileView(Regular, bytes)
       case HostOther(_) => true
  }

  /** The entries from `slot` on stand for `kids`, whose inodes are numbered from `base` on. */
  ghost predicate KidsHold(fs: seq<FileView>, es: seq<DEntry>, slot: nat, kids: seq<HostNode>, base: nat)
    decreases kids
  {
    kids == [] ||
    (&& KidsHold(fs, es, slot, Init(kids), base)
     && (Last(kids).HostOther? ||
         (var i := slot + Entries(Init(kids));
          i < |es| && NodeHolds(fs, es[i], Last(kids), base + Size(Init(kids))))))
  }

  /** The files with numbers in [lo, hi) are the same. */
  ghost predicate Agree(fs: seq<FileView>, fs': seq<FileView>, lo: nat, hi: nat) {
    |fs| <= |fs'| && forall i | lo <= i < hi && i < |fs| :: fs'[i] == fs[i]
  }

  /** A subtree depends on its own inodes only. */
  lemma {:induction false} NodeFrame(fs: seq<FileView>, fs': seq<FileView>, e: DEntry, t: HostNode, ino: nat)
    requires NodeHolds(fs, e, t, ino) && Agree(fs, fs', ino, ino + NodeSize(t))
    ensures NodeHolds(fs', e, t, ino)
    decreases t
  {
    if t.HostDir? {
      KidsFrame(fs, fs', Listing(fs[ino].bytes), Listing(fs[ino].bytes), 2, t.kids, ino + 1);
    }
  }

  /** A listing depends on its entries and on its own inodes only; what is appended later does not matter. */
  lemma {:induction false} KidsFrame(fs: seq<FileView>, fs': seq<FileView>, es: seq<DEntry>, es': seq<DEntry>,
                                     slot: nat, kids: seq<HostNode>, base: nat)
    requires KidsHold(fs, es, slot, kids, base) && Agree(fs, fs', base, base + Size(kids)) && es <= es'
    ensures KidsHold(fs', es', slot, kids, base)
    decreases kids
  {
    if kids != [] {
      KidsFrame(fs, fs', es, es', slot, Init(kids), base);
      if !Last(kids).HostOther? {
        var i := slot + Entries(Init(kids));
        NodeFrame(fs, fs', es[i], Last(kids), base + Size(Init(kids)));
      }
    }
  }

  // ----- the reader -----

  datatype Option<+T> = None | Some(value: T)

  /** Follows one entry. `fuel` bounds the nesting. */
  function ReadNode(fs: seq<FileView>, e: DEntry, fuel: nat): Option<HostNode>
    decreases fuel, 0, 0
  {
    if e.nameLen > DENTRY_NAME_LEN || e.inode >= |fs| || fs[e.inode].fType != e.fType then None
    else match e.fType
      case Regular => Some(HostFile(e.Name(), fs[e.inode].bytes))
      case Dir =>
        if fuel == 0 then None else
        (match ReadDir(fs, e.inode, fuel - 1)
         case Some(kids) => Some(HostDir(e.Name(), kids))
         case None => None)
      case NoType => None
  }

  /** The entries of a directory in slots 2..n-1, after `.` and `..`. */
  function ReadSlots(fs: seq<FileView>, es: seq<DEntry>, n: nat, fuel: nat): Option<seq<HostNode>>
    requires n <= |es|
    decreases fuel, 1, n
  {
    if n <= 2 then Some([]) else
    match (ReadSlots(fs, es, n - 1, fuel), ReadNode(fs, es[n - 1], fuel))
    case (Some(kids), Some(t)) => Some(kids + [t])
    case _ => None
  }

  function ReadDir(fs: seq<FileView>, ino: nat, fuel: nat): Option<seq<HostNode>>
    requires ino < |fs|
    decreases fuel, 2, 0
  {
    if fs[ino].fType != Dir || |fs[ino].bytes| % 128 != 0 then None
    else ReadSlots(fs, Listing(fs[ino].bytes), |Listing(fs[ino].bytes)|, fuel)
  }

  lemma {:induction false} ReadNodeHolds(fs: seq<FileView>, e: DEntry, t: HostNode, ino: nat, fuel: nat)
    requires NodeHolds(fs, e, t, ino) && fuel >= NodeDepth(t)
    ensures ReadNode(fs, e, fuel) == Some(PruneNode(t))
    decreases t
  {
    if t.HostDir? {
      ReadKidsHold(fs, Listing(fs[ino].bytes), t.kids, ino + 1, fuel - 1);
    }
  }

  /** A reader finds in the slots just what was laid out. */
  lemma {:induction false} ReadKidsHold(fs: seq<FileView>, es: seq<DEntry>, kids: seq<HostNode>, base: nat, fuel: nat)
    requires KidsHold(fs, es, 2, kids, base) && fuel >= Depth(kids) && 2 + Entries(kids) <= |es|
    ensures ReadSlots(fs, es, 2 + Entries(kids), fuel) == Some(Prune(kids))
    decreases kids
  {
    if kids != [] {
      ReadKidsHold(fs, es, Init(kids), base, fuel);
      assert Prune(Init(kids)) + [] == Prune(Init(kids));
      if !Last(kids).HostOther? {
        ReadNodeHolds(fs, es[2 + Entries(Init(kids))], Last(kids), base + Size(Init(kids)), fuel);
      }
    }
  }

  // ----- building the layout, one operation at a time -----

  /** From `fs` to `fs'` the listing `kids` was added to directory `parent`; no other file was touched. */
  ghost predicate Laid(fs: seq<FileView>, fs': seq<FileView>, parent: nat, kids: seq<HostNode>) {
    && parent < |fs| && |fs'| == |fs| + Size(kids)
    && (forall i | 0 <= i < |fs| && i != parent :: fs'[i] == fs[i])
    && fs[parent].fType == fs'[parent].fType == Dir
    && |fs[parent].bytes| % 128 == 0 && fs[parent].bytes <= fs'[parent].bytes
    && |fs'[parent].bytes| == |fs[parent].bytes| + 128 * Entries(kids)
    && KidsHold(fs', Listing(fs'[parent].bytes), |fs[parent].bytes| / 128, kids, |fs|)
  }

  /** A listing that holds still holds when its parent gets one more entry and its subtree. */
  lemma KidsHoldMore(fs1: seq<FileView>, fs': seq<FileView>, es: seq<DEntry>, d: DEntry, slot: nat, kids: seq<HostNode>,
                     t: HostNode, base: nat)
    requires KidsHold(fs1, es, slot, kids, base) && Agree(fs1, fs', base, base + Size(kids))
    requires |es| == slot + Entries(kids) && NodeHolds(fs', d, t, base + Size(kids))
    ensures KidsHold(fs', es + [d], slot, kids + [t], base)
  {
    KidsFrame(fs1, fs', es, es + [d], slot, kids, base);
    InitLast(kids, t);
  }

  /** The parent after its entry for the new inode was appended, and the rest of the listing untouched. */
  lemma LaidEntry(fs: seq<FileView>, fs1: seq<FileView>, fs': seq<FileView>, parent: nat, kids: seq<HostNode>,
                  t: HostNode, e: seq<Byte>, d: DEntry)
    requires Laid(fs, fs1, parent, kids) && !t.HostOther? && |e| == DENTRY_SIZE
    requires Listing(fs1[parent].bytes + e) == Listing(fs1[parent].bytes) + [d]
    requires |fs'| == |fs1| + NodeSize(t) && NodeHolds(fs', d, t, |fs1|)
    requires forall i | 0 <= i < |fs1| && i != parent :: fs'[i] == fs1[i]
    requires fs'[parent] == FileView(Dir, fs1[parent].bytes + e)
    ensures Laid(fs, fs', parent, kids + [t])
  {
    InitLast(kids, t);
    KidsHoldMore(fs1, fs', Listing(fs1[parent].bytes), d, |fs[parent].bytes| / 128, kids, t, |fs|);
  }

  lemma LaidFile(fs: seq<FileView>, fs1: seq<FileView>, fs': seq<FileView>, parent: nat, kids: seq<HostNode>,
                 name: seq<Byte>, bytes: seq<Byte>)
    requires Laid(fs, fs1, parent, kids) && |name| <= DENTRY_NAME_LEN && 0 < parent && |fs1| < NINO
    requires fs' == MadeFile(fs1, parent, name)[|fs1| := FileView(Regular, bytes)]
    ensures Laid(fs, fs', parent, kids + [HostFile(name, bytes)])
  {
    var d := DEntry(|fs1|, Regular, |name|, NameField(name, Zeros(DENTRY_NAME_LEN)));
    assert d.Name() == name;
    ListingAppend(fs1[parent].bytes, d);
    LaidEntry(fs, fs1, fs', parent, kids, HostFile(name, bytes), Encode(d), d);
  }

  lemma LaidDir(fs: seq<FileView>, fs1: seq<FileView>, fs2: seq<FileView>, fs': seq<FileView>, parent: nat,
                kids: seq<HostNode>, name: seq<Byte>, junk: FName, sub: seq<HostNode>)
    requires Laid(fs, fs1, parent, kids) && |name| <= DENTRY_NAME_LEN && 0 < parent && 1 < |fs1| < NINO
    requires fs2 == MadeDir(fs1, parent, name, junk) && Laid(fs2, fs', |fs1|, sub)
    ensures Laid(fs, fs', parent, kids + [HostDir(name, sub)])
  {
    var d := DEntry(|fs1|, Dir, |name|, NameField(name, junk));
    assert d.Name() == name;
    assert |fs2[|fs1|].bytes| == NEW_DIR_SIZE;
    ListingAppend(fs1[parent].bytes, d);
    LaidEntry(fs, fs1, fs', parent, kids, HostDir(name, sub), Encode(d), d);
  }

  // ----- what a tree costs -----

  /** Blocks of a fresh file of `n` bytes. */
  function FileCost(n: nat): nat {
    FillOf(WritePages(0, 0, 0, n))
  }

  /**
   In closed form: a page for each 4096 bytes begun and one more at a boundary, an index block from 65536 bytes on; in
   the double-indirect tier one page too many, one more for each chunk written there, and an index block per 1024.
   */
  lemma FileCostIs(n: nat)
    ensures n < 65536 ==> FileCost(n) == n / BLK_SIZE + 1
    ensures 65536 <= n < SINGLE_END * BLK_SIZE ==> FileCost(n) == n / BLK_SIZE + 2
    ensures n >= SINGLE_END * BLK_SIZE ==>
      var chunks := (n + BLK_SIZE - 1) / BLK_SIZE - SINGLE_END;
      var leaves := n / BLK_SIZE - SINGLE_END + 2 + chunks;
      FileCost(n) == SINGLE_END + 2 + leaves + (leaves + 1023) / 1024
  {
    FreshWritePages(n);
  }

  function NodeCost(t: HostNode): nat
    decreases t, 0
  {
    match t
    case HostDir(_, kids) => 1 + KidsCost(NEW_DIR_SIZE, kids)
    case HostFile(_, bytes) => FileCost(|bytes|)
    case HostOther(_) => 0
  }

  /** Blocks for adding `kids` to a directory of `size` bytes. */
  function KidsCost(size: nat, kids: seq<HostNode>): nat
    decreases kids, 2
  {
    if kids == [] then 0
    else
      KidsCost(size, Init(kids)) + StepCost(size + 128 * Entries(Init(kids)), Last(kids))
  }

  /** The node's own blocks and those of its entry, in a directory of `size` bytes. */
  function StepCost(size: nat, t: HostNode): nat
    decreases t, 1
  {
    if t.HostOther? then 0 else NodeCost(t) + LinkCost(size)
  }

  /** There are names, inodes and blocks enough to add `kids` to a directory of `size` bytes, `n` inodes being taken. */
  ghost predicate Fits(n: nat, free: int, size: nat, kids: seq<HostNode>) {
    n + Size(kids) <= NINO && NamesFit(kids) && free >= KidsCost(size, kids)
  }

  /** The same for one node. */
  ghost predicate NodeFits(n: nat, free: int, size: nat, t: HostNode) {
    n + NodeSize(t) <= NINO && NodeNamesFit(t) && free >= StepCost(size, t)
  }

  lemma DirFits(n: nat, free: int, size: nat, name: seq<Byte>, kids: seq<HostNode>)
    ensures NodeFits(n, free, size, HostDir(name, kids)) <==>
      (n + 1 + Size(kids) <= NINO && |name| <= DENTRY_NAME_LEN && NamesFit(kids)
       && free >= 1 + KidsCost(NEW_DIR_SIZE, kids) + LinkCost(size))
    ensures StepCost(size, HostDir(name, kids)) == 1 + KidsCost(NEW_DIR_SIZE, kids) + LinkCost(size)
    ensures NodeSize(HostDir(name, kids)) == 1 + Size(kids)
  {
    var t := HostDir(name, kids);
    assert NodeNamesFit(t) <==> |name| <= DENTRY_NAME_LEN && NamesFit(kids);
    assert NodeCost(t) == 1 + KidsCost(NEW_DIR_SIZE, kids);
    assert NodeSize(t) == 1 + Size(kids);
  }

  lemma FileFits(n: nat, free: int, size: nat, name: seq<Byte>, bytes: seq<Byte>)
    ensures NodeFits(n, free, size, HostFile(name, bytes)) <==>
      n + 1 <= NINO && |name| <= DENTRY_NAME_LEN && free >= FileCost(|bytes|) + LinkCost(size)
    ensures StepCost(size, HostFile(name, bytes)) == FileCost(|bytes|) + LinkCost(size)
  {
    var t := HostFile(name, bytes);
    assert NodeNamesFit(t) <==> |name| <= DENTRY_NAME_LEN;
    assert NodeCost(t) == FileCost(|bytes|);
    assert NodeSize(t) == 1;
  }

  /** Sums over a listing with one more node. */
  lemma SumsLast(size: nat, kids: seq<HostNode>, t: HostNode)
    ensures Size(kids + [t]) == Size(kids) + NodeSize(t)
    ensures Entries(kids + [t]) == Entries(kids) + if t.HostOther? then 0 else 1
    ensures NamesFit(kids + [t]) <==> NamesFit(kids) && NodeNamesFit(t)
    ensures KidsCost(size, kids + [t]) == KidsCost(size, kids) + StepCost(size + 128 * Entries(kids), t)
  {
    InitLast(kids, t);
  }

  /** The last node of a listing that fits finds room after the others. */
  lemma FitsLast(n: nat, free: int, size: nat, kids: seq<HostNode>, t: HostNode)
    ensures Fits(n, free, size, kids + [t]) <==>
      NamesFit(kids) && NodeFits(n + Size(kids), free - KidsCost(size, kids), size + 128 * Entries(kids), t)
  {
    InitLast(kids, t);
  }

  /** The same, in the numbers that are left after the others. */
  lemma FitsAfter(n0: nat, free0: int, size0: nat, done: seq<HostNode>, t: HostNode, n: nat, free: int, size: nat)
    requires NamesFit(done) && n == n0 + Size(done) && free == free0 - KidsCost(size0, done)
    requires size == size0 + 128 * Entries(done)
    ensures Fits(n0, free0, size0, done + [t]) <==> NodeFits(n, free, size, t)
  {
    FitsLast(n0, free0, size0, done, t);
  }

  lemma {:induction false} FitsPrefix(n: nat, free: int, size: nat, kids: seq<HostNode>, i: nat)
    requires Fits(n, free, size, kids) && i <= |kids|
    ensures Fits(n, free, size, kids[..i])
    decreases |kids| - i
  {
    if i == |kids| {
      assert kids[..i] == kids;
    } else {
      FitsPrefix(n, free, size, kids, i + 1);
      assert Init(kids[..i + 1]) == kids[..i];
    }
  }

  // ----- the main theorem's last step -----

  /** After a tree was laid out in a fresh root directory, a reader starting there finds exactly that tree. */
  lemma RootReads(fs0: seq<FileView>, fs: seq<FileView>, kids: seq<HostNode>, fuel: nat)
    requires |fs0| == 2 && |fs0[1].bytes| == NEW_DIR_SIZE && Laid(fs0, fs, 1, kids) && fuel >= Depth(kids)
    ensures ReadDir(fs, 1, fuel) == Some(Prune(kids))
  {
    ReadKidsHold(fs, Listing(fs[1].bytes), kids, 2, fuel);
  }

  // ----- costs in closed form -----

  /** Blocks of a directory with `n` entries, `.` and `..` counted. */
  function DirBlocks(n: nat): nat {
    FillOf(DirPages(128 * n))
  }

  /** Every directory's own blocks and every file's, added up. */
  function OwnNodeCost(t: HostNode): nat {
    match t
    case HostDir(_, kids) => DirBlocks(2 + Entries(kids)) + OwnCost(kids)
    case HostFile(_, bytes) => FileCost(|bytes|)
    case HostOther(_) => 0
  }

  function OwnCost(kids: seq<HostNode>): nat {
    if kids == [] then 0 else OwnCost(Init(kids)) + OwnNodeCost(Last(kids))
  }

  lemma {:induction false} EntriesBound(kids: seq<HostNode>)
    ensures Entries(kids) <= Size(kids)
  {
    if kids != [] {
      EntriesBound(Init(kids));
    }
  }

  /** What make_fs takes for one node, links apart, is the node's own blocks. */
  lemma {:induction false} NodeCostIs(t: HostNode)
    requires NodeSize(t) + 2 <= NINO
    ensures NodeCost(t) == OwnNodeCost(t)
    decreases t
  {
    if t.HostDir? {
      KidsCostIs(2, t.kids);
    }
  }

  lemma StepCostIs(n: nat, t: HostNode)
    requires n < NINO && !t.HostOther? && NodeCost(t) == OwnNodeCost(t)
    ensures StepCost(128 * n, t) + DirBlocks(n) == OwnNodeCost(t) + DirBlocks(n + 1)
  {}

  lemma KidsCostLast(n: nat, kids: seq<HostNode>)
    requires 2 <= n && Size(kids) + n <= NINO && kids != [] && NodeCost(Last(kids)) == OwnNodeCost(Last(kids))
    requires KidsCost(128 * n, Init(kids)) + DirBlocks(n) == OwnCost(Init(kids)) + DirBlocks(n + Entries(Init(kids)))
    ensures KidsCost(128 * n, kids) + DirBlocks(n) == OwnCost(kids) + DirBlocks(n + Entries(kids))
  {
    var m := n + Entries(Init(kids));
    if !Last(kids).HostOther? {
      EntriesBound(Init(kids));
      StepCostIs(m, Last(kids));
      assert 128 * n + 128 * Entries(Init(kids)) == 128 * m;
    }
  }

  /** Entry by entry, a directory that grows from `n` entries comes to the blocks of the larger one. */
  lemma {:induction false} KidsCostIs(n: nat, kids: seq<HostNode>)
    requires 2 <= n && Size(kids) + n <= NINO
    ensures KidsCost(128 * n, kids) + DirBlocks(n) == OwnCost(kids) + DirBlocks(n + Entries(kids))
    decreases kids
  {
    if kids != [] {
      KidsCostIs(n, Init(kids));
      NodeCostIs(Last(kids));
      KidsCostLast(n, kids);
    }
  }
}
