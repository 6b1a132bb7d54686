/**
 The image as a value: block contents and inode table, with two pieces of bookkeeping the program does not keep:
 who owns each allocated block, and how many slots of each inode are filled.
 */
module Image {
  import opened Bytes
  import opened Dentries
  import opened Sets
  import opened Slots

  const NBLK: nat := 524288   // bits in a BlockBitmap: 16 * 4096 * 8
  const NINO: nat := 8192     // INodeList::nodes

  type BlockNo = Word
  type Ino = x: nat | x < NINO

  type DirectBlks = s: seq<BlockNo> | |s| == 16 witness Zeros(16)

  /** struct INode, without the fields no code maintains. */
  datatype INode = INode(fType: FType, direct: DirectBlks, indirect: BlockNo, indirect2: BlockNo, fSize: nat)

  function ZeroINode(): INode {
    INode(NoType, Zeros(16), 0, 0, 0)
  }

  datatype Owner = Owner(ino: Ino, slot: Slot)

  datatype RawState = RawState(
    disk: seq<Block>, nodes: seq<INode>,
    lo: nat, hi: nat,               // the blocks that are not marked at construction are [lo, hi)
    owner: map<nat, Owner>,         // the allocated ones among them
    fill: seq<nat>,                 // slots filled, by inode
    pages: seq<nat>)                // data pages present, by inode

  predicate Shaped(st: RawState) {
    && |st.disk| == NBLK && |st.nodes| == NINO && |st.fill| == NINO && |st.pages| == NINO
    && 0 < st.lo <= st.hi <= NBLK
  }

  type State = st: RawState | Shaped(st)
    witness RawState(seq(NBLK, _ => Zeros(BLK_SIZE)), seq(NINO, _ => ZeroINode()), 1, 1, map[],
                     seq(NINO, _ => 0), seq(NINO, _ => 0))

  /** Entry `i` of index block `c`; zero when there is no such block. */
  ghost function WordAt(st: State, c: BlockNo, i: nat): BlockNo
    requires i < BLKNO_PER_BLK
  {
    if c == 0 || c >= NBLK then 0 else EntryOf(st.disk[c], i)
  }

  /** The index block that holds slot `s`; zero when `s` is a field of the inode. */
  ghost function BoxOf(st: State, ino: Ino, s: Slot): BlockNo {
    match s
    case Entry(_) => st.nodes[ino].indirect
    case Mid(_) => st.nodes[ino].indirect2
    case Leaf(i, _) => WordAt(st, st.nodes[ino].indirect2, i)
    case _ => 0
  }

  /** The block number standing in slot `s` of inode `ino`. */
  ghost function At(st: State, ino: Ino, s: Slot): BlockNo {
    match s
    case Direct(i) => st.nodes[ino].direct[i]
    case Ind => st.nodes[ino].indirect
    case Ind2 => st.nodes[ino].indirect2
    case Entry(j) => WordAt(st, BoxOf(st, ino, s), j)
    case Mid(i) => WordAt(st, BoxOf(st, ino, s), i)
    case Leaf(_, j) => WordAt(st, BoxOf(st, ino, s), j)
  }

  /** The file of `ino` as an endless byte stream: absent pages read as zero. */
  ghost function ByteAt(st: State, ino: Ino, k: nat): Byte {
    if k / BLK_SIZE >= MAX_PAGES then 0 else
    var b := At(st, ino, PageSlot(k / BLK_SIZE));
    if b == 0 || b >= NBLK then 0 else st.disk[b][k % BLK_SIZE]
  }

  /** A slot holds a block exactly below the fill mark, and owns the block it holds. */
  ghost predicate SlotOwned(st: State, ino: Ino, s: Slot) {
    && (At(st, ino, s) != 0 <==> Rank(s) < st.fill[ino])
    && (At(st, ino, s) != 0 ==> At(st, ino, s) in st.owner && st.owner[At(st, ino, s)] == Owner(ino, s))
  }

  // The three predicates below only give the verifier terms to hang quantifiers on: a quantified fact about an image
  // is used where a lemma points at a slot, a block or a byte, and nowhere else.
  ghost predicate Slotted(ino: Ino, s: Slot) { true }
  ghost predicate Numbered(b: nat) { true }
  ghost predicate Placed(ino: Ino, k: nat) { true }

  ghost predicate SlotsOwned(st: State) {
    forall ino: Ino, s: Slot {:trigger Slotted(ino, s)} :: SlotOwned(st, ino, s)
  }

  /** Every allocated block lies in the managed range and stands in the slot that owns it. */
  ghost predicate OwnersHold(st: State) {
    forall b: nat {:trigger Numbered(b)} :: b in st.owner ==>
      st.lo <= b < st.hi && At(st, st.owner[b].ino, st.owner[b].slot) == b
  }

  /** Block ownership: filled slots and allocated blocks are in bijection. */
  ghost predicate Owned(st: State) {
    SlotsOwned(st) && OwnersHold(st)
  }

  lemma SlotFact(st: State, ino: Ino, s: Slot)
    requires Owned(st)
    ensures SlotOwned(st, ino, s)
  {
    assert Slotted(ino, s);
  }

  lemma OwnerFact(st: State, b: nat)
    requires OwnersHold(st) && b in st.owner
    ensures st.lo <= b < st.hi && At(st, st.owner[b].ino, st.owner[b].slot) == b
  {
    assert Numbered(b);
  }

  /** Blocks still free. */
  ghost function Free(st: State): int {
    st.hi - st.lo - |st.owner.Keys|
  }

  // ----- allocation -----

  ghost function WithDisk(st: State, c: BlockNo, b: Block): State
    requires c < NBLK
  {
    RawState(st.disk[c := b], st.nodes, st.lo, st.hi, st.owner, st.fill, st.pages)
  }

  ghost function WithNode(st: State, ino: Ino, n: INode): State {
    RawState(st.disk, st.nodes[ino := n], st.lo, st.hi, st.owner, st.fill, st.pages)
  }

  ghost function WithOwner(st: State, ino: Ino, s: Slot, b: BlockNo): State {
    RawState(st.disk, st.nodes, st.lo, st.hi, st.owner[b := Owner(ino, s)],
             st.fill[ino := st.fill[ino] + 1], st.pages)
  }

  /** alloc_blk: block `b` is zeroed and given to slot `s`. */
  ghost function Granted(st: State, ino: Ino, s: Slot, b: BlockNo): State
    requires b < NBLK
  {
    WithOwner(WithDisk(st, b, Zeros(BLK_SIZE)), ino, s, b)
  }

  ghost function WithBytes(st: State, c: BlockNo, off: nat, bytes: seq<Byte>): State
    requires c < NBLK && off + |bytes| <= BLK_SIZE
  {
    WithDisk(st, c, Splice(st.disk[c], off, bytes))
  }

  ghost function WithEntry(st: State, c: BlockNo, i: nat, b: BlockNo): State
    requires c < NBLK && i < BLKNO_PER_BLK
  {
    WithBytes(st, c, 4 * i, Le4(b))
  }

  predicate InInode(s: Slot) {
    s.Direct? || s.Ind? || s.Ind2?
  }

  /** The inode after `b` is stored in one of its block-number fields. */
  function WithField(n: INode, s: Slot, b: BlockNo): INode
    requires InInode(s)
  {
    match s
    case Direct(i) => INode(n.fType, n.direct[i := b], n.indirect, n.indirect2, n.fSize)
    case Ind => INode(n.fType, n.direct, b, n.indirect2, n.fSize)
    case Ind2 => INode(n.fType, n.direct, n.indirect, b, n.fSize)
  }

  function FieldOf(n: INode, s: Slot): BlockNo
    requires InInode(s)
  {
    match s
    case Direct(i) => n.direct[i]
    case Ind => n.indirect
    case Ind2 => n.indirect2
  }

  /** Where in its index block a slot stands. */
  function Index(s: Slot): (i: nat)
    requires !InInode(s)
    ensures i < BLKNO_PER_BLK
  {
    match s
    case Entry(j) => j
    case Mid(i) => i
    case Leaf(_, j) => j
  }

  /** The store of `b` into slot `s`, in the inode or in the index block. */
  ghost function Stored(st: State, ino: Ino, s: Slot, b: BlockNo): State
    requires BoxOf(st, ino, s) < NBLK
  {
    if InInode(s) then WithNode(st, ino, WithField(st.nodes[ino], s, b))
    else WithEntry(st, BoxOf(st, ino, s), Index(s), b)
  }

  /** The slot may be filled next with block `b`. */
  ghost predicate MayFill(st: State, ino: Ino, s: Slot, b: BlockNo) {
    Owned(st) && Rank(s) == st.fill[ino] && b !in st.owner && st.lo <= b < st.hi
  }

  ghost function Filled(st: State, ino: Ino, s: Slot, b: BlockNo): State
    requires MayFill(st, ino, s, b)
  {
    BoxInRange(st, ino, s);
    Stored(Granted(st, ino, s, b), ino, s, b)
  }

  /** The index block above a slot that is next in line is present, and is owned by its own slot. */
  ghost function BoxSlot(s: Slot): Slot
    requires !InInode(s)
  {
    match s
    case Entry(_) => Ind
    case Mid(_) => Ind2
    case Leaf(i, _) => Mid(i)
  }

  lemma BoxIsAt(st: State, ino: Ino, s: Slot)
    requires !InInode(s)
    ensures BoxOf(st, ino, s) == At(st, ino, BoxSlot(s)) && Rank(BoxSlot(s)) < Rank(s)
  {}

  lemma BoxInRange(st: State, ino: Ino, s: Slot)
    requires Owned(st) && Rank(s) <= st.fill[ino]
    ensures BoxOf(st, ino, s) < NBLK
    ensures InInode(s) ||
            (BoxOf(st, ino, s) in st.owner && st.owner[BoxOf(st, ino, s)] == Owner(ino, BoxSlot(s)))
  {
    if !InInode(s) {
      BoxIsAt(st, ino, s);
      SlotFact(st, ino, BoxSlot(s));
      OwnerFact(st, BoxOf(st, ino, s));
    }
  }

  lemma WordAtGranted(st: State, ino: Ino, s: Slot, b: BlockNo, c: BlockNo, i: nat)
    requires b < NBLK && c != b && i < BLKNO_PER_BLK
    ensures WordAt(Granted(st, ino, s, b), c, i) == WordAt(st, c, i)
  {}

  /** The blocks above a slot, where present, are allocated blocks. */
  lemma AboveInUse(st: State, ino: Ino, t: Slot, b: BlockNo)
    requires Owned(st) && b !in st.owner && b != 0
    ensures BoxOf(st, ino, t) != b && (t.Leaf? ==> st.nodes[ino].indirect2 != b)
  {
    if !InInode(t) {
      BoxIsAt(st, ino, t);
      SlotFact(st, ino, BoxSlot(t));
    }
    SlotFact(st, ino, Ind2);
  }

  /** So zeroing a free block changes no slot. */
  lemma AtGranted(st: State, ino: Ino, s: Slot, b: BlockNo, ino': Ino, t: Slot)
    requires b < NBLK && BoxOf(st, ino', t) != b && (t.Leaf? ==> st.nodes[ino'].indirect2 != b)
    ensures At(Granted(st, ino, s, b), ino', t) == At(st, ino', t)
    ensures BoxOf(Granted(st, ino, s, b), ino', t) == BoxOf(st, ino', t)
  {
    match t
    case Entry(j) => WordAtGranted(st, ino, s, b, st.nodes[ino'].indirect, j);
    case Mid(i) => WordAtGranted(st, ino, s, b, st.nodes[ino'].indirect2, i);
    case Leaf(i, j) =>
      WordAtGranted(st, ino, s, b, st.nodes[ino'].indirect2, i);
      WordAtGranted(st, ino, s, b, BoxOf(st, ino', t), j);
    case _ =>
  }

  /** Two entry slots share an index block only when they are siblings. */
  lemma SharedBox(st: State, ino: Ino, s: Slot, ino': Ino, t: Slot)
    requires Owned(st)
    requires !InInode(s) && !InInode(t)
    requires BoxOf(st, ino, s) == BoxOf(st, ino', t) != 0
    ensures ino == ino' && BoxSlot(s) == BoxSlot(t)
  {
    BoxIsAt(st, ino, s);
    BoxIsAt(st, ino', t);
    SlotFact(st, ino, BoxSlot(s));
    SlotFact(st, ino', BoxSlot(t));
  }

  /** Entry `i` of block `c` after entry `i'` of block `c'` was set to `b`. */
  lemma WordAtWithEntry(st: State, c': BlockNo, i': nat, b: BlockNo, c: BlockNo, i: nat)
    requires 0 < c' < NBLK && i' < BLKNO_PER_BLK && i < BLKNO_PER_BLK
    ensures WordAt(WithEntry(st, c', i', b), c, i) == if c == c' && i == i' then b else WordAt(st, c, i)
  {
    if c == c' {
      EntryOfSplice(st.disk[c], i', b, i);
    }
  }

  /** The slots after a store: the one stored to, and all others as before. */
  ghost predicate OnlyAt(st: State, st': State, ino: Ino, s: Slot, b: BlockNo, ino': Ino, t: Slot) {
    At(st', ino', t) == if ino' == ino && t == s then b else At(st, ino', t)
  }

  /** Slots above which nothing changed are as before. */
  lemma AtSameBox(g: State, g': State, ino: Ino, t: Slot)
    requires g'.disk == g.disk && !InInode(t) && BoxOf(g', ino, t) == BoxOf(g, ino, t)
    ensures At(g', ino, t) == At(g, ino, t)
  {}

  /** A store into an inode field: the slots below it read a zeroed block and were absent before. */
  lemma AtStoredField(g: State, ino: Ino, s: Slot, b: BlockNo, ino': Ino, t: Slot)
    requires InInode(s) && At(g, ino, s) == 0
    requires 0 < b < NBLK && g.disk[b] == Zeros(BLK_SIZE)
    ensures OnlyAt(g, Stored(g, ino, s, b), ino, s, b, ino', t)
  {
    var g' := Stored(g, ino, s, b);
    if !InInode(t) {
      if BoxOf(g', ino', t) == BoxOf(g, ino', t) {
        AtSameBox(g, g', ino', t);
      }
    }
  }

  /** Nothing but its siblings shares the index block of `s`. */
  ghost predicate Apart(g: State, ino: Ino, s: Slot, ino': Ino, t: Slot)
    requires !InInode(s)
  {
    !InInode(t) && BoxOf(g, ino', t) == BoxOf(g, ino, s) ==> ino' == ino && BoxSlot(t) == BoxSlot(s)
  }

  lemma AtStoredEntry(g: State, ino: Ino, s: Slot, b: BlockNo, ino': Ino, t: Slot)
    requires !InInode(s) && At(g, ino, s) == 0 && 0 < BoxOf(g, ino, s) < NBLK && BoxOf(g, ino, s) != b
    requires 0 < b < NBLK && g.disk[b] == Zeros(BLK_SIZE)
    requires Apart(g, ino, s, ino', t) && (t.Leaf? ==> Apart(g, ino, s, ino', Mid(t.i)))
    ensures OnlyAt(g, Stored(g, ino, s, b), ino, s, b, ino', t)
  {
    var g' := Stored(g, ino, s, b);
    var c := BoxOf(g, ino, s);
    if t.Leaf? {
      WordAtWithEntry(g, c, Index(s), b, g.nodes[ino'].indirect2, t.i);
      if ino' == ino && s == Mid(t.i) {
        assert g'.disk[b] == g.disk[b];
      } else {
        assert BoxOf(g', ino', t) == BoxOf(g, ino', t);
        WordAtWithEntry(g, c, Index(s), b, BoxOf(g, ino', t), t.j);
      }
    } else if !InInode(t) {
      WordAtWithEntry(g, c, Index(s), b, BoxOf(g, ino', t), Index(t));
    }
  }

  // ----- what filling the next slot does -----

  /** Allocation is a pointwise update of the slots: one slot gets the block, no other slot changes. */
  lemma AtFilled(st: State, ino: Ino, s: Slot, b: BlockNo, ino': Ino, t: Slot)
    requires MayFill(st, ino, s, b)
    ensures OnlyAt(st, Filled(st, ino, s, b), ino, s, b, ino', t)
  {
    var g := Granted(st, ino, s, b);
    SlotFact(st, ino, s);
    AboveInUse(st, ino', t, b);
    AtGranted(st, ino, s, b, ino', t);
    AboveInUse(st, ino, s, b);
    AtGranted(st, ino, s, b, ino, s);
    if InInode(s) {
      AtStoredField(g, ino, s, b, ino', t);
    } else {
      BoxInRange(st, ino, s);
      BoxPresent(st, ino, s);
      ApartWhenGranted(st, ino, s, b, ino', t);
      if t.Leaf? {
        AboveInUse(st, ino', Mid(t.i), b);
        ApartWhenGranted(st, ino, s, b, ino', Mid(t.i));
      }
      AtStoredEntry(g, ino, s, b, ino', t);
    }
  }

  lemma BoxPresent(st: State, ino: Ino, s: Slot)
    requires Owned(st) && Rank(s) <= st.fill[ino] && !InInode(s)
    ensures BoxOf(st, ino, s) != 0
  {
    BoxIsAt(st, ino, s);
    SlotFact(st, ino, BoxSlot(s));
  }

  lemma ApartWhenGranted(st: State, ino: Ino, s: Slot, b: BlockNo, ino': Ino, t: Slot)
    requires MayFill(st, ino, s, b) && !InInode(s)
    ensures Apart(Granted(st, ino, s, b), ino, s, ino', t)
  {
    AboveInUse(st, ino, s, b);
    AboveInUse(st, ino', t, b);
    AtGranted(st, ino, s, b, ino, s);
    AtGranted(st, ino, s, b, ino', t);
    BoxPresent(st, ino, s);
    if !InInode(t) && BoxOf(st, ino', t) == BoxOf(st, ino, s) {
      SharedBox(st, ino, s, ino', t);
    }
  }

  lemma BookkeepingFilled(st: State, ino: Ino, s: Slot, b: BlockNo)
    requires MayFill(st, ino, s, b)
    ensures var st' := Filled(st, ino, s, b);
      && st'.owner == st.owner[b := Owner(ino, s)] && st'.fill == st.fill[ino := st.fill[ino] + 1]
      && st'.lo == st.lo && st'.hi == st.hi && st'.pages == st.pages
      && (forall i: Ino :: st'.nodes[i].fSize == st.nodes[i].fSize && st'.nodes[i].fType == st.nodes[i].fType)
  {}

  lemma SlotOwnedFilled(st: State, ino: Ino, s: Slot, b: BlockNo, ino': Ino, t: Slot)
    requires MayFill(st, ino, s, b) && SlotOwned(st, ino', t)
    ensures SlotOwned(Filled(st, ino, s, b), ino', t)
  {
    AtFilled(st, ino, s, b, ino', t);
    BookkeepingFilled(st, ino, s, b);
    if ino' == ino && Rank(t) == Rank(s) {
      RankInjective(s, t);
    }
  }

  /** Filling the next slot keeps the ownership bijection. */
  lemma OwnedFilled(st: State, ino: Ino, s: Slot, b: BlockNo)
    requires MayFill(st, ino, s, b)
    ensures Owned(Filled(st, ino, s, b))
    ensures Free(Filled(st, ino, s, b)) == Free(st) - 1
  {
    var st' := Filled(st, ino, s, b);
    forall ino': Ino, t: Slot ensures SlotOwned(st', ino', t) {
      SlotFact(st, ino', t);
      SlotOwnedFilled(st, ino, s, b, ino', t);
    }
    forall c: nat | c in st'.owner
      ensures st'.lo <= c < st'.hi && At(st', st'.owner[c].ino, st'.owner[c].slot) == c
    {
      OwnerHoldsFilled(st, ino, s, b, c);
    }
  }

  lemma OwnerHoldsFilled(st: State, ino: Ino, s: Slot, b: BlockNo, c: nat)
    requires MayFill(st, ino, s, b) && (c == b || c in st.owner)
    ensures var st' := Filled(st, ino, s, b);
      c in st'.owner && st'.lo <= c < st'.hi && At(st', st'.owner[c].ino, st'.owner[c].slot) == c
  {
    BookkeepingFilled(st, ino, s, b);
    if c == b {
      AtFilled(st, ino, s, b, ino, s);
    } else {
      OwnerFact(st, c);
      AtFilled(st, ino, s, b, st.owner[c].ino, st.owner[c].slot);
      SlotFact(st, ino, s);
    }
  }

  lemma DiskFilled(st: State, ino: Ino, s: Slot, b: BlockNo, c: BlockNo)
    requires MayFill(st, ino, s, b) && c < NBLK && (InInode(s) || c != BoxOf(st, ino, s))
    ensures Filled(st, ino, s, b).disk[c] == if c == b then Zeros(BLK_SIZE) else st.disk[c]
  {
    AboveInUse(st, ino, s, b);
    AtGranted(st, ino, s, b, ino, s);
  }

  /** A data page never doubles as the index block above some slot. */
  lemma PageIsNotBox(st: State, ino: Ino, s: Slot, ino': Ino, t: Slot)
    requires Owned(st) && IsPage(t) && At(st, ino', t) != 0
    ensures BoxOf(st, ino, s) != At(st, ino', t)
    ensures s.Leaf? ==> st.nodes[ino].indirect2 != At(st, ino', t)
  {
    SlotFact(st, ino', t);
    SlotFact(st, ino, Ind2);
    if !InInode(s) {
      BoxIsAt(st, ino, s);
      SlotFact(st, ino, BoxSlot(s));
    }
  }

  /** Allocation is invisible in the data: a new page reads as the zeroes its absence read as. */
  lemma ByteAtFilled(st: State, ino: Ino, s: Slot, b: BlockNo, ino': Ino, k: nat)
    requires MayFill(st, ino, s, b)
    ensures ByteAt(Filled(st, ino, s, b), ino', k) == ByteAt(st, ino', k)
  {
    if k / BLK_SIZE < MAX_PAGES {
      var t := PageSlot(k / BLK_SIZE);
      AtFilled(st, ino, s, b, ino', t);
      SlotFact(st, ino', t);
      if ino' == ino && t == s {
        AboveInUse(st, ino, s, b);
        DiskFilled(st, ino, s, b, b);
      } else if At(st, ino', t) != 0 {
        PageIsNotBox(st, ino, s, ino', t);
        OwnerFact(st, At(st, ino', t));
        DiskFilled(st, ino, s, b, At(st, ino', t));
      }
    }
  }

  /** Free blocks are counted from zero, and none is left exactly when every managed block is owned. */
  lemma FreeMeans(st: State)
    requires OwnersHold(st)
    ensures Free(st) >= 0
    ensures Free(st) == 0 <==> forall b: nat | st.lo <= b < st.hi :: b in st.owner
  {
    var r := Range(st.lo, st.hi);
    forall b | b in st.owner.Keys ensures b in r {
      OwnerFact(st, b);
    }
    SubsetSize(st.owner.Keys, r);
    if forall b: nat | st.lo <= b < st.hi :: b in st.owner {
      assert r == st.owner.Keys;
    } else {
      var b: nat :| st.lo <= b < st.hi && b !in st.owner;
      assert b in r && b !in st.owner.Keys;
    }
  }

  // ----- growth: any number of slots filled in order -----

  ghost predicate SameBytes(st: State, st': State) {
    forall ino: Ino, k: nat {:trigger Placed(ino, k)} :: ByteAt(st', ino, k) == ByteAt(st, ino, k)
  }

  /** A mapping once made is never changed. */
  ghost predicate Stable(st: State, st': State) {
    forall ino: Ino, s: Slot {:trigger Slotted(ino, s)} :: At(st, ino, s) != 0 ==> At(st', ino, s) == At(st, ino, s)
  }

  ghost predicate SameMeta(st: State, st': State) {
    forall ino: Ino {:trigger st'.nodes[ino]} ::
      st'.nodes[ino].fSize == st.nodes[ino].fSize && st'.nodes[ino].fType == st.nodes[ino].fType
  }

  /** The next block to be handed out: blocks are taken from the bottom of the managed range and never given back. */
  ghost function NextBlk(st: State): int {
    st.hi - Free(st)
  }

  /** The blocks in use are those below the next one. */
  ghost predicate Packed(st: State) {
    forall b: nat {:trigger Numbered(b)} :: b in st.owner <==> st.lo <= b < NextBlk(st)
  }

  lemma PackedFact(st: State, b: nat)
    requires Packed(st)
    ensures b in st.owner <==> st.lo <= b < NextBlk(st)
  {
    assert Numbered(b);
  }

  lemma GrantedFacts(st: State, ino: Ino, s: Slot, b: BlockNo)
    requires b < NBLK && b !in st.owner
    ensures var g := Granted(st, ino, s, b);
      && g.disk == st.disk[b := Zeros(BLK_SIZE)] && g.nodes == st.nodes && g.lo == st.lo && g.hi == st.hi
      && Free(g) == Free(st) - 1
      && g.owner.Keys == st.owner.Keys + {b}
  {
    assert st.owner[b := Owner(ino, s)].Keys == st.owner.Keys + {b};
  }

  lemma PackedSame(st: State, st': State)
    requires Packed(st) && st'.owner == st.owner && st'.lo == st.lo && st'.hi == st.hi
    ensures Packed(st')
  {
    forall b: nat ensures b in st'.owner <==> st'.lo <= b < NextBlk(st') {
      PackedFact(st, b);
    }
  }

  lemma PackedGranted(st: State, ino: Ino, s: Slot, b: BlockNo)
    requires Packed(st) && b == NextBlk(st) && b < NBLK && b !in st.owner
    ensures Packed(Granted(st, ino, s, b)) && NextBlk(Granted(st, ino, s, b)) == b + 1
  {
    GrantedFacts(st, ino, s, b);
    var g := Granted(st, ino, s, b);
    forall c: nat ensures c in g.owner <==> g.lo <= c < NextBlk(g) {
      PackedFact(st, c);
      assert c in g.owner <==> c in g.owner.Keys;
    }
  }

  /** The lowest free block is the next one. */
  lemma LowestIsNext(st: State, b: nat)
    requires Packed(st) && st.lo <= b < st.hi && b !in st.owner && NextBlk(st) >= st.lo
    requires forall c: nat :: st.lo <= c < b ==> c in st.owner
    ensures b == NextBlk(st)
  {
    PackedFact(st, b);
    if b > NextBlk(st) {
      var n: nat := NextBlk(st);
      PackedFact(st, n);
    }
  }

  /** The slots filled since `st` hold consecutive blocks in allocation order, beginning with the next one. */
  ghost predicate Consecutive(st: State, st': State, ino: Ino) {
    forall s: Slot {:trigger Slotted(ino, s)} :: st.fill[ino] <= Rank(s) < st'.fill[ino] ==>
      At(st', ino, s) == NextBlk(st) + (Rank(s) - st.fill[ino])
  }

  lemma ConsecutiveFact(st: State, st': State, ino: Ino, s: Slot)
    requires Consecutive(st, st', ino) && st.fill[ino] <= Rank(s) < st'.fill[ino]
    ensures At(st', ino, s) == NextBlk(st) + (Rank(s) - st.fill[ino])
  {
    assert Slotted(ino, s);
  }

  /** That depends on the slots, the fill marks and the free blocks only. */
  lemma ConsecutiveSame(st: State, st': State, st1: State, st1': State, ino: Ino)
    requires Consecutive(st, st', ino) && NextBlk(st1) == NextBlk(st)
    requires st1.fill[ino] == st.fill[ino] && st1'.fill[ino] == st'.fill[ino]
    requires forall s: Slot {:trigger Slotted(ino, s)} :: At(st1', ino, s) == At(st', ino, s)
    ensures Consecutive(st1, st1', ino)
  {
    forall s: Slot | st1.fill[ino] <= Rank(s) < st1'.fill[ino]
      ensures At(st1', ino, s) == NextBlk(st1) + (Rank(s) - st1.fill[ino])
    {
      ConsecutiveFact(st, st', ino, s);
      assert Slotted(ino, s);
    }
  }

  lemma ConsecutiveTrans(st: State, st': State, st'': State, ino: Ino)
    requires Owned(st') && Consecutive(st, st', ino) && Consecutive(st', st'', ino) && Stable(st', st'')
    requires NextBlk(st') == NextBlk(st) + st'.fill[ino] - st.fill[ino]
    ensures Consecutive(st, st'', ino)
  {
    forall s: Slot | st.fill[ino] <= Rank(s) < st''.fill[ino]
      ensures At(st'', ino, s) == NextBlk(st) + (Rank(s) - st.fill[ino])
    {
      if Rank(s) < st'.fill[ino] {
        ConsecutiveFact(st, st', ino, s);
        SlotFact(st', ino, s);
        assert Slotted(ino, s);
      } else {
        ConsecutiveFact(st', st'', ino, s);
      }
    }
  }

  /** From `st` to `st'` inode `ino` was filled up to slot `m`; nothing else happened. */
  ghost predicate Grew(st: State, st': State, ino: Ino, m: nat) {
    && Owned(st')
    && st.fill[ino] <= m && st'.fill == st.fill[ino := m]
    && 0 <= Free(st') == Free(st) - (m - st.fill[ino])
    && st'.lo == st.lo && st'.hi == st.hi && st'.pages == st.pages
    && SameBytes(st, st') && Stable(st, st') && SameMeta(st, st') && Consecutive(st, st', ino)
  }

  lemma ConsecutiveOne(st: State, ino: Ino, s: Slot, b: BlockNo)
    requires MayFill(st, ino, s, b) && b == NextBlk(st)
    ensures Consecutive(st, Filled(st, ino, s, b), ino)
  {
    var st' := Filled(st, ino, s, b);
    BookkeepingFilled(st, ino, s, b);
    forall t: Slot | st.fill[ino] <= Rank(t) < st'.fill[ino]
      ensures At(st', ino, t) == NextBlk(st) + (Rank(t) - st.fill[ino])
    {
      RankInjective(s, t);
      AtFilled(st, ino, s, b, ino, t);
    }
  }

  lemma GrewOne(st: State, ino: Ino, s: Slot, b: BlockNo)
    requires MayFill(st, ino, s, b) && b == NextBlk(st)
    ensures Grew(st, Filled(st, ino, s, b), ino, st.fill[ino] + 1)
  {
    var st' := Filled(st, ino, s, b);
    OwnedFilled(st, ino, s, b);
    FreeMeans(st');
    BookkeepingFilled(st, ino, s, b);
    ConsecutiveOne(st, ino, s, b);
    forall i: Ino, k: nat ensures ByteAt(st', i, k) == ByteAt(st, i, k) {
      ByteAtFilled(st, ino, s, b, i, k);
    }
    forall i: Ino, t: Slot ensures At(st, i, t) != 0 ==> At(st', i, t) == At(st, i, t) {
      AtFilled(st, ino, s, b, i, t);
      SlotFact(st, ino, s);
    }
  }

  lemma GrewNone(st: State, ino: Ino)
    requires Owned(st)
    ensures Grew(st, st, ino, st.fill[ino])
  {
    FreeMeans(st);
  }

  lemma GrewTrans(st: State, st': State, st'': State, ino: Ino, m: nat, n: nat)
    requires Grew(st, st', ino, m) && Grew(st', st'', ino, n)
    ensures Grew(st, st'', ino, n)
  {
    ConsecutiveTrans(st, st', st'', ino);
    assert SameBytes(st, st'') by {
      forall i: Ino, k: nat ensures ByteAt(st'', i, k) == ByteAt(st, i, k) {
        assert Placed(i, k);
      }
    }
    assert Stable(st, st'') by {
      forall i: Ino, t: Slot ensures At(st, i, t) != 0 ==> At(st'', i, t) == At(st, i, t) {
        assert Slotted(i, t);
      }
    }
    assert SameMeta(st, st'') by {
      forall i: Ino ensures st''.nodes[i].fSize == st.nodes[i].fSize && st''.nodes[i].fType == st.nodes[i].fType {
        assert st'.nodes[i].fSize == st.nodes[i].fSize;
      }
    }
  }

  // ----- the counting bound -----

  /** The blocks of one inode's first `m` slots are `m` different allocated blocks. */
  lemma {:induction false} Pigeonhole(st: State, ino: Ino, m: nat) returns (bs: set<nat>)
    requires Owned(st) && m <= st.fill[ino] && m <= 1050642
    ensures |bs| == m && bs <= st.owner.Keys
    ensures forall b | b in st.owner :: b in bs <==> st.owner[b].ino == ino && Rank(st.owner[b].slot) < m
  {
    if m == 0 {
      bs := {};
    } else {
      bs := Pigeonhole(st, ino, m - 1);
      var b := At(st, ino, SlotAt(m - 1));
      SlotFact(st, ino, SlotAt(m - 1));
      assert b !in bs;
      forall c | c in st.owner && st.owner[c].ino == ino && Rank(st.owner[c].slot) == m - 1 ensures c == b {
        OwnerFact(st, c);
        RankInjective(st.owner[c].slot, SlotAt(m - 1));
      }
      bs := bs + {b};
    }
  }

  /** So no inode can fill more slots than there are managed blocks: far fewer than its tree has places for. */
  lemma FillBound(st: State, ino: Ino)
    requires Owned(st)
    ensures st.fill[ino] + Free(st) <= st.hi - st.lo < NBLK
    ensures st.fill[ino] < NBLK
  {
    var m := if st.fill[ino] <= 1050642 then st.fill[ino] else 1050642;
    var bs := Pigeonhole(st, ino, m);
    SubsetSize(bs, st.owner.Keys);
    FreeMeans(st);
  }

  // ----- accounting for every block -----

  ghost function OwnedBy(st: State, ino: Ino): set<nat> {
    set b | b in st.owner && st.owner[b].ino == ino
  }

  ghost function OwnedBelow(st: State, n: nat): set<nat> {
    set b | b in st.owner && st.owner[b].ino < n
  }

  ghost function FillSum(st: State, n: nat): nat
    requires n <= NINO
  {
    if n == 0 then 0 else FillSum(st, n - 1) + st.fill[n - 1]
  }

  /** An inode owns as many blocks as it has slots filled. */
  lemma OwnedByCount(st: State, ino: Ino)
    requires Owned(st)
    ensures |OwnedBy(st, ino)| == st.fill[ino]
  {
    FillBound(st, ino);
    var bs := Pigeonhole(st, ino, st.fill[ino]);
    forall b | b in st.owner && st.owner[b].ino == ino ensures Rank(st.owner[b].slot) < st.fill[ino] {
      OwnerFact(st, b);
      SlotFact(st, ino, st.owner[b].slot);
    }
    assert OwnedBy(st, ino) == bs;
  }

  lemma {:induction false} OwnedBelowCount(st: State, n: nat)
    requires Owned(st) && n <= NINO
    ensures |OwnedBelow(st, n)| == FillSum(st, n)
  {
    if n == 0 {
      assert OwnedBelow(st, 0) == {};
    } else {
      OwnedBelowCount(st, n - 1);
      OwnedByCount(st, n - 1);
      assert OwnedBelow(st, n) == OwnedBelow(st, n - 1) + OwnedBy(st, n - 1);
      assert OwnedBelow(st, n - 1) !! OwnedBy(st, n - 1);
    }
  }

  /** No block is lost: the managed blocks are the free ones and those standing in some inode's slots. */
  lemma BlocksAccounted(st: State)
    requires Owned(st)
    ensures Free(st) + FillSum(st, NINO) == st.hi - st.lo
  {
    OwnedBelowCount(st, NINO);
    assert OwnedBelow(st, NINO) == st.owner.Keys;
  }
}
