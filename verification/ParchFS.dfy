/** The image builder: bitmaps, superblock, inode table and blocks, updated in place. */
module ParchFSImage {
  import opened Bitmaps
  import opened Bytes
  import opened Dentries
  import opened Directories
  import opened Files
  import opened Folding
  import opened Image
  import opened Slots
  import opened TreeShape
  import opened Trees

  class SuperBlock {
    var magic: nat
    var inodeCount: nat
    var blockCount: nat
    var freeInode: nat
    var freeBlock: nat
    var rootInode: nat

    constructor () {}

    method Init(managedLength: nat)
      modifies this
      ensures freeInode == inodeCount == NINO && freeBlock == blockCount == managedLength / BLK_SIZE
      ensures magic == 0xBEEF_BEEF_BEEF_BEEF && rootInode == 1
    {
      magic := 0xBEEF_BEEF_BEEF_BEEF;
      inodeCount := NINO;
      blockCount := managedLength / BLK_SIZE;
      freeInode := inodeCount;
      freeBlock := blockCount;
      rootInode := 1;
    }
  }

  const S_KERNEL: nat := 0x8000_0000    // BASE_ADDRESS
  const E_RESERVE: nat := 0x1_0000_0000 // PHYS_END_ADDRESS
  const METADATA: nat := 0xFFDD_E000    // inode list, the three bitmaps and the superblock lie above

  function Pa2Blk(pa: nat): nat
    requires S_KERNEL <= pa
  {
    (pa - S_KERNEL) / BLK_SIZE
  }

  /** What the free-block counter starts with above the blocks really free. */
  function Slack(eKernel: nat, sReserve: nat): nat {
    if sReserve % BLK_SIZE >= eKernel % BLK_SIZE then 2 else 1
  }

  /** The kernel ends below the reserved range, with at least one block number between them. */
  predicate Layout(eKernel: nat, sReserve: nat) {
    S_KERNEL <= eKernel <= sReserve <= METADATA && Pa2Blk(eKernel) + 2 <= Pa2Blk(sReserve)
  }

  ghost function EmptyState(disk: seq<Block>, lo: nat, hi: nat): State
    requires |disk| == NBLK && 0 < lo <= hi <= NBLK
  {
    RawState(disk, seq(NINO, _ => ZeroINode()), lo, hi, map[], seq(NINO, _ => 0), seq(NINO, _ => 0))
  }

  class ParchFS {
    const superblock: SuperBlock
    const fsBitmap: Bitmap
    const mmBitmap: Bitmap
    const inodeBitmap: Bitmap
    const nodes: array<INode>
    const disk: array<Block>

    ghost const slack: nat  // superblock.freeBlock exceeds the blocks really free by this much
    ghost const lo: nat     // the blocks not marked at construction are [lo, hi)
    ghost const hi: nat
    ghost var st: State
    ghost var count: nat    // inodes in use are 1..count

    ghost function Repr(): set<object> {
      {this, superblock, fsBitmap.data, mmBitmap.data, inodeBitmap.data, nodes, disk}
    }

    /** The two block bitmaps are equal, and say which blocks are marked at construction or in use. */
    ghost predicate BitsAre(lo: nat, hi: nat, used: set<nat>)
      reads fsBitmap.data, mmBitmap.data
    {
      && fsBitmap.data != mmBitmap.data
      && 8 * fsBitmap.data.Length == NBLK && 8 * mmBitmap.data.Length == NBLK
      && (forall b: nat :: b < NBLK ==> (fsBitmap.Get(b) <==> !(lo <= b < hi) || b in used))
      && (forall b: nat :: b < NBLK ==> (mmBitmap.Get(b) <==> fsBitmap.Get(b)))
    }

    ghost predicate BitsOk()
      reads this, fsBitmap.data, mmBitmap.data
    {
      BitsAre(st.lo, st.hi, st.owner.Keys)
    }

    ghost predicate InodesOk()
      reads this, inodeBitmap.data
    {
      && inodeBitmap.data.Length == BLK_SIZE && count < NINO
      && (forall i: nat :: i < 8 * BLK_SIZE ==> (inodeBitmap.Get(i) <==> i <= count))
    }

    ghost predicate CountersOk()
      reads this, superblock
    {
      superblock.freeBlock == Free(st) + slack && superblock.freeInode == NINO - count && 1 <= slack <= 2
    }

    ghost predicate Sizes()
      reads this
    {
      && 8 * fsBitmap.data.Length == NBLK && 8 * mmBitmap.data.Length == NBLK && inodeBitmap.data.Length == BLK_SIZE
      && nodes.Length == NINO && disk.Length == NBLK && count < NINO
    }

    /** The arrays hold what the value `st` says; the bitmaps and counters agree with the bookkeeping. */
    ghost predicate RepParts()
      reads Repr()
    {
      && fsBitmap.data != inodeBitmap.data && mmBitmap.data != inodeBitmap.data
      && BitsOk() && InodesOk() && CountersOk() && Packed(st) && st.lo == lo && st.hi == hi
      && disk[..] == st.disk && nodes[..] == st.nodes
    }

    ghost predicate Rep()
      reads Repr()
    {
      Sizes() && forall z: nat {:trigger Opened(z)} :: RepParts()
    }

    lemma Open()
      requires Rep()
      ensures RepParts()
    {
      assert Opened(0);
    }

    lemma NodeFact(ino: Ino)
      requires Rep()
      ensures nodes[ino] == st.nodes[ino]
    {
      Open();
    }

    /** Inodes 0..count are marked. */
    lemma InodeBit(i: nat)
      requires Rep() && i < 8 * BLK_SIZE
      ensures inodeBitmap.Get(i) <==> i <= count
    {
      Open();
    }

    /** The blocks in use are those from the bottom of the managed range to the next one; the clear bits are the rest. */
    lemma BlocksInUse(b: nat)
      requires Rep()
      ensures b in st.owner <==> lo <= b < hi - Free(st)
      ensures b < NBLK ==> (fsBitmap.Get(b) <==> !(hi - Free(st) <= b < hi)) && (mmBitmap.Get(b) <==> fsBitmap.Get(b))
    {
      Open();
      PackedFact(st, b);
    }

    /** An allocated block is marked in both bitmaps. */
    lemma InUse(blk: BlockNo)
      requires Rep() && blk in st.owner && blk < NBLK
      ensures fsBitmap.Get(blk) && mmBitmap.Get(blk)
    {
      Open();
    }

    /**
     Clears the metadata and marks block 0, the kernel's blocks and the reserved blocks. `bin` is the memory image
     the file system is built in; what its blocks hold does not matter.
     */
    constructor (bin: array<Block>, eKernel: nat, sReserve: nat)
      requires bin.Length == NBLK && Layout(eKernel, sReserve)
      ensures Rep() && disk == bin && fresh(Repr() - {bin}) && count == 0
      ensures st == EmptyState(bin[..], Pa2Blk(eKernel) + 1, Pa2Blk(sReserve) - 1)
      ensures lo == Pa2Blk(eKernel) + 1 && hi == Pa2Blk(sReserve) - 1
      ensures slack == Slack(eKernel, sReserve)
    {
      disk := bin;
      fsBitmap := new Bitmap(16 * BLK_SIZE);
      mmBitmap := new Bitmap(16 * BLK_SIZE);
      inodeBitmap := new Bitmap(BLK_SIZE);
      nodes := new INode[NINO](_ => ZeroINode());
      superblock := new SuperBlock();
      st := EmptyState(bin[..], Pa2Blk(eKernel) + 1, Pa2Blk(sReserve) - 1);
      lo, hi := Pa2Blk(eKernel) + 1, Pa2Blk(sReserve) - 1;
      count := 0;
      slack := Slack(eKernel, sReserve);
      new;
      assert nodes[..] == st.nodes;
      Format(eKernel, sReserve);
    }

    method Format(eKernel: nat, sReserve: nat)
      requires Layout(eKernel, sReserve) && fsBitmap.data != mmBitmap.data
      requires fsBitmap.data != inodeBitmap.data && mmBitmap.data != inodeBitmap.data
      requires 8 * fsBitmap.data.Length == NBLK && 8 * mmBitmap.data.Length == NBLK
      requires inodeBitmap.data.Length == BLK_SIZE && count == 0 && nodes.Length == NINO && disk.Length == NBLK
      requires disk[..] == st.disk && nodes[..] == st.nodes
      requires forall b: nat :: b < NBLK ==> !fsBitmap.Get(b) && !mmBitmap.Get(b)
      requires forall i: nat :: i < 8 * BLK_SIZE ==> !inodeBitmap.Get(i)
      requires st.lo == Pa2Blk(eKernel) + 1 && st.hi == Pa2Blk(sReserve) - 1 && st.owner == map[] && lo == st.lo <= st.hi == hi
      requires slack == Slack(eKernel, sReserve)
      modifies superblock, fsBitmap.data, mmBitmap.data, inodeBitmap.data
      ensures Rep()
    {
      assert forall b: nat :: b in st.owner <==> st.lo <= b < NextBlk(st);
      superblock.Init(sReserve - eKernel);
      FreeAtStart(eKernel, sReserve);
      inodeBitmap.Set(0);
      MarkUsed(eKernel, sReserve);
    }

    /** Block 0, the blocks up to the end of the kernel, and the blocks from one below the reserved range. */
    method MarkUsed(eKernel: nat, sReserve: nat)
      requires Layout(eKernel, sReserve) && fsBitmap.data != mmBitmap.data
      requires 8 * fsBitmap.data.Length == NBLK && 8 * mmBitmap.data.Length == NBLK
      requires forall b: nat :: b < NBLK ==> !fsBitmap.Get(b) && !mmBitmap.Get(b)
      requires st.lo == Pa2Blk(eKernel) + 1 && st.hi == Pa2Blk(sReserve) - 1 && st.owner == map[]
      modifies fsBitmap.data, mmBitmap.data
      ensures BitsOk()
    {
      fsBitmap.Set(0);
      mmBitmap.Set(0);
      MarkBlocks(Pa2Blk(S_KERNEL), Pa2Blk(eKernel) + 1);
      MarkBlocks(Pa2Blk(sReserve) - 1, Pa2Blk(E_RESERVE));
    }

    /** One marking loop of the constructor: the blocks [from, to) are set in both bitmaps. */
    method MarkBlocks(from: nat, to: nat)
      requires fsBitmap.data != mmBitmap.data && from <= to
      requires 8 * fsBitmap.data.Length == NBLK && 8 * mmBitmap.data.Length == NBLK && to <= NBLK
      modifies fsBitmap.data, mmBitmap.data
      ensures forall b: nat :: b < NBLK ==> (fsBitmap.Get(b) <==> old(fsBitmap.Get(b)) || from <= b < to)
      ensures forall b: nat :: b < NBLK ==> (mmBitmap.Get(b) <==> old(mmBitmap.Get(b)) || from <= b < to)
    {
      for blk := from to to
        invariant forall b: nat :: b < NBLK ==> (fsBitmap.Get(b) <==> old(fsBitmap.Get(b)) || from <= b < blk)
        invariant forall b: nat :: b < NBLK ==> (mmBitmap.Get(b) <==> old(mmBitmap.Get(b)) || from <= b < blk)
      {
        fsBitmap.Set(blk);
        mmBitmap.Set(blk);
      }
    }

    /** The bitmap part of alloc_blk. */
    method TakeBlk() returns (ok: bool, res: BlockNo)
      requires BitsOk()
      modifies fsBitmap.data, mmBitmap.data
      ensures ok <==> exists b: nat :: st.lo <= b < st.hi && b !in st.owner
      ensures ok ==> st.lo <= res < st.hi && res !in st.owner
      ensures ok ==> forall b: nat :: st.lo <= b < res ==> b in st.owner
      ensures ok ==> BitsAre(st.lo, st.hi, st.owner.Keys + {res})
    {
      var pos: nat;
      ok, pos := fsBitmap.FirstAvailable();
      res := 0;
      if !ok {
        forall b: nat | st.lo <= b < st.hi ensures b in st.owner {
          assert fsBitmap.Get(b);
        }
      } else {
        assert st.lo <= pos < st.hi && pos !in st.owner;
        forall b: nat | st.lo <= b < pos ensures b in st.owner {
          assert fsBitmap.Get(b);
        }
        res := pos;
        fsBitmap.Set(res);
        mmBitmap.Set(res);
      }
    }

    /** alloc_blk. The owner-to-be is ghost. */
    method AllocBlk(ghost ino: Ino, ghost s: Slot) returns (ok: bool, res: BlockNo)
      requires Rep() && OwnersHold(st)
      modifies Repr()
      ensures ok <==> old(Free(st)) > 0
      ensures ok ==> Rep() && old(st.lo) <= res < old(st.hi) && res !in old(st).owner
      ensures ok ==> forall b: nat :: old(st.lo) <= b < res ==> b in old(st).owner
      ensures ok ==> res == old(NextBlk(st))
      ensures ok ==> st == Granted(old(st), ino, s, res) && count == old(count)
    {
      Open();
      FreeMeans(st);
      ok, res := TakeBlk();
      if ok {
        LowestIsNext(st, res);
        HandOut(ino, s, res);
      }
    }

    /** The rest of alloc_blk, its bits being set: the counter goes down and the block is cleared. */
    method HandOut(ghost ino: Ino, ghost s: Slot, res: BlockNo)
      requires Sizes() && InodesOk() && CountersOk() && disk[..] == st.disk && nodes[..] == st.nodes
      requires fsBitmap.data != inodeBitmap.data && mmBitmap.data != inodeBitmap.data
      requires st.lo <= res < st.hi && res !in st.owner && Free(st) > 0
      requires Packed(st) && res == NextBlk(st) && st.lo == lo && st.hi == hi
      requires BitsAre(st.lo, st.hi, st.owner.Keys + {res})
      modifies this`st, superblock, disk
      ensures Rep() && st == Granted(old(st), ino, s, res)
    {
      superblock.freeBlock := superblock.freeBlock - 1;
      disk[res] := Zeros(BLK_SIZE);
      GrantedFacts(st, ino, s, res);
      PackedGranted(st, ino, s, res);
      ghost var st0 := st;
      st := Granted(st0, ino, s, res);
    }

    /** get_blk, whose two asserts are the precondition. */
    function GetBlk(blk: BlockNo): (b: Block)
      requires Rep() && blk < NBLK && fsBitmap.Get(blk) && mmBitmap.Get(blk)
      reads Repr()
      ensures b == st.disk[blk]
    {
      Open();
      disk[blk]
    }

    /** memcpy into a block handed out by get_blk. */
    method StoreBytes(c: BlockNo, off: nat, bytes: seq<Byte>)
      requires Rep() && c < NBLK && fsBitmap.Get(c) && mmBitmap.Get(c) && off + |bytes| <= BLK_SIZE
      modifies this`st, disk
      ensures Rep() && st == WithBytes(old(st), c, off, bytes)
    {
      Open();
      disk[c] := Splice(disk[c], off, bytes);
      ghost var st0 := st;
      st := WithBytes(st0, c, off, bytes);
      PackedSame(st0, st);
      assert disk[..] == st.disk;
    }

    /** An update of an inode's fields. */
    method StoreNode(ino: Ino, n: INode)
      requires Rep()
      modifies this`st, nodes
      ensures Rep() && st == WithNode(old(st), ino, n)
    {
      Open();
      nodes[ino] := n;
      ghost var st0 := st;
      st := WithNode(st0, ino, n);
      PackedSame(st0, st);
      assert nodes[..] == st.nodes;
    }

    /** A new block goes into a field of the inode, the next slot to fill. */
    method FillField(ino: Ino, s: Slot) returns (ok: bool)
      requires Rep() && Owned(st) && InInode(s) && Rank(s) == st.fill[ino]
      modifies Repr()
      ensures ok <==> old(Free(st)) > 0
      ensures ok ==> Rep() && Grew(old(st), st, ino, old(st).fill[ino] + 1) && count == old(count)
    {
      ghost var st0 := st;
      var b;
      ok, b := AllocBlk(ino, s);
      if ok {
        NodeFact(ino);
        StoreNode(ino, WithField(nodes[ino], s, b));
        GrewOne(st0, ino, s, b);
      }
    }

    /** A new block goes into entry `i` of index block `c`, the next slot to fill. */
    method FillEntry(c: BlockNo, i: nat, ghost ino: Ino, ghost s: Slot) returns (ok: bool)
      requires Rep() && Owned(st) && !InInode(s) && Rank(s) == st.fill[ino]
      requires c == BoxOf(st, ino, s) && i == Index(s)
      modifies Repr()
      ensures ok <==> old(Free(st)) > 0
      ensures ok ==> Rep() && Grew(old(st), st, ino, old(st).fill[ino] + 1) && count == old(count)
    {
      ghost var st0 := st;
      BoxInRange(st, ino, s);
      var b;
      ok, b := AllocBlk(ino, s);
      if ok {
        InUse(c);
        StoreBytes(c, 4 * i, Le4(b));
        AboveInUse(st0, ino, s, b);
        AtGranted(st0, ino, s, b, ino, s);
        GrewOne(st0, ino, s, b);
      }
    }

    // ----- INode::get_blkno, tier by tier -----

    /** `Rep`, and `ino` filled up to slot `m` since `st0`. */
    ghost predicate Reached(st0: State, count0: nat, ino: Ino, m: nat)
      reads Repr()
    {
      forall z: nat {:trigger Opened(z)} :: Rep() && Grew(st0, st, ino, m) && count == count0
    }

    lemma ReachedMeans(st0: State, count0: nat, ino: Ino, m: nat)
      requires Reached(st0, count0, ino, m)
      ensures Rep() && Grew(st0, st, ino, m) && count == count0
    {
      assert Opened(0);
    }

    /** A field of the inode gets a block if it has none. */
    method EnsureField(ino: Ino, s: Slot, ghost st0: State, ghost m: nat) returns (ok: bool)
      requires Reached(st0, count, ino, m) && InInode(s) && Rank(s) <= m
      modifies Repr()
      ensures ok ==> Reached(st0, old(count), ino, Max(m, Rank(s) + 1))
      ensures !ok ==> Free(st0) + st0.fill[ino] == m == Rank(s)
      ensures ok ==> count == old(count)
    {
      ReachedMeans(st0, count, ino, m);
      NodeFact(ino);
      ghost var st1 := st;
      SlotFact(st, ino, s);
      ok := true;
      if FieldOf(nodes[ino], s) == 0 {
        FreeMeans(st);
        ok := FillField(ino, s);
        if ok {
          GrewTrans(st0, st1, st, ino, m, m + 1);
        }
      }
    }

    /** Entry `i` of index block `c` gets a block if it has none; `isNew` tells which. */
    method EnsureEntry(c: BlockNo, i: nat, ino: Ino, ghost s: Slot, ghost st0: State, ghost m: nat)
      returns (ok: bool, isNew: bool)
      requires Reached(st0, count, ino, m) && !InInode(s) && Rank(s) <= m
      requires c == BoxOf(st, ino, s) && i == Index(s)
      modifies Repr()
      ensures isNew <==> Rank(s) == m
      ensures ok ==> Stable(old(st), st)
      ensures ok ==> Reached(st0, old(count), ino, Max(m, Rank(s) + 1))
      ensures !ok ==> Free(st0) + st0.fill[ino] == m == Rank(s)
      ensures ok ==> count == old(count)
    {
      ReachedMeans(st0, count, ino, m);
      ghost var st1 := st;
      BoxInRange(st, ino, s);
      BoxPresent(st, ino, s);
      SlotFact(st, ino, s);
      ok := true;
      InUse(c);
      isNew := EntryOf(GetBlk(c), i) == 0;
      if isNew {
        FreeMeans(st);
        ok := FillEntry(c, i, ino, s);
        if ok {
          GrewTrans(st0, st1, st, ino, m, m + 1);
        }
      }
    }

    /** The direct blocks. */
    method GrowDirect(ino: Ino, n: nat) returns (ok: bool)
      requires Rep() && Owned(st) && n <= DIRECT_BLK_COUNT
      modifies Repr()
      ensures ok <==> old(Free(st)) + old(st).fill[ino] >= Max(old(st).fill[ino], n)
      ensures ok ==> Reached(old(st), old(count), ino, Max(old(st).fill[ino], n))
      ensures ok ==> count == old(count)
    {
      ghost var st0 := st;
      GrewNone(st, ino);
      for i := 0 to n
        invariant Reached(st0, old(count), ino, Max(st0.fill[ino], i))
        invariant count == old(count)
      {
        ok := EnsureField(ino, Direct(i), st0, Max(st0.fill[ino], i));
        if !ok {
          return;
        }
      }
      ReachedMeans(st0, old(count), ino, Max(st0.fill[ino], n));
      ok := true;
    }

    /** The single-indirect tier: its index block, and the first `n` entries. */
    method GrowIndirect(ino: Ino, n: nat, ghost st0: State, ghost m: nat) returns (ok: bool)
      requires Reached(st0, count, ino, m) && 16 <= m && n <= BLKNO_PER_BLK
      modifies Repr()
      ensures ok <==> Free(st0) + st0.fill[ino] >= Max(m, 17 + n)
      ensures ok ==> Reached(st0, old(count), ino, Max(m, 17 + n))
      ensures ok ==> count == old(count)
    {
      ok := EnsureField(ino, Ind, st0, m);
      if !ok {
        return;
      }
      for i := 0 to n
        invariant Reached(st0, old(count), ino, Max(m, 17 + i))
        invariant count == old(count)
      {
        ReachedMeans(st0, old(count), ino, Max(m, 17 + i));
        NodeFact(ino);
        var isNew;
        ok, isNew := EnsureEntry(nodes[ino].indirect, i, ino, Entry(i), st0, Max(m, 17 + i));
        if !ok {
          return;
        }
      }
      ReachedMeans(st0, old(count), ino, Max(m, 17 + n));
      ok := true;
    }

    /** The index block of row `i`, which is present. */
    function RowBlk(ino: Ino, i: nat): (c: BlockNo)
      requires Rep() && Owned(st) && i < 1024 && Rank(Mid(i)) < st.fill[ino]
      reads Repr()
      ensures c == At(st, ino, Mid(i)) && c != 0
    {
      BoxIsAt(st, ino, Mid(i));
      BoxInRange(st, ino, Mid(i));
      BoxPresent(st, ino, Mid(i));
      SlotFact(st, ino, Mid(i));
      NodeFact(ino);
      InUse(nodes[ino].indirect2);
      EntryOf(GetBlk(nodes[ino].indirect2), i)
    }

    /**
     The body of the loop over row `i`, whose index block is `c`: `done` when the entry is new and stands for an
     address above `off`, that is for a page past `q`. `l` pages of the tier were there when `get_blkno` was called.
     */
    method GrowLeaf(c: BlockNo, ino: Ino, i: nat, j: nat, off: nat, ghost q: nat, ghost l: nat, ghost st0: State)
      returns (ok: bool, done: bool)
      requires i < 1024 && j < 1024 && q == off / BLK_SIZE && 1024 * i + j <= Max(l, q + 1)
      requires Reached(st0, count, ino, RowFill(i, Max(l, 1024 * i + j))) && c == At(st, ino, Mid(i)) != 0
      modifies Repr()
      ensures ok ==> c == At(st, ino, Mid(i))
      ensures ok && done ==> Reached(st0, old(count), ino, LeafFill(Max(l, q + 1) + 1))
      ensures ok && !done ==> 1024 * i + j + 1 <= Max(l, q + 1)
      ensures ok && !done ==> Reached(st0, old(count), ino, RowFill(i, Max(l, 1024 * i + j + 1)))
      ensures !ok ==> Free(st0) + st0.fill[ino] < LeafFill(Max(l, q + 1) + 1)
      ensures ok ==> count == old(count)
    {
      RowStep(i, j, l, q);
      CapMeans(i, j, off);
      var isNew;
      ok, isNew := EnsureEntry(c, j, ino, Leaf(i, j), st0, RowFill(i, Max(l, 1024 * i + j)));
      assert Slotted(ino, Mid(i));
      done := isNew && i * BLKNO_PER_BLK * BLK_SIZE + j * BLK_SIZE > off;
    }

    /** Row `i` of the double-indirect tier: entries are added until one stands for an address above `off`. */
    method GrowRow(c: BlockNo, ino: Ino, i: nat, off: nat, ghost q: nat, ghost l: nat, ghost st0: State)
      returns (ok: bool, done: bool)
      requires i < 1024 && q == off / BLK_SIZE && 1024 * i <= Max(l, q + 1)
      requires Reached(st0, count, ino, RowFill(i, Max(l, 1024 * i))) && c == At(st, ino, Mid(i)) != 0
      modifies Repr()
      ensures ok && done ==> Reached(st0, old(count), ino, LeafFill(Max(l, q + 1) + 1))
      ensures ok && !done ==> 1024 * i + 1024 <= Max(l, q + 1)
      ensures ok && !done ==> Reached(st0, old(count), ino, RowFill(i, Max(l, 1024 * i + 1024)))
      ensures !ok ==> Free(st0) + st0.fill[ino] < LeafFill(Max(l, q + 1) + 1)
      ensures ok ==> count == old(count)
    {
      ok, done := true, false;
      for j := 0 to BLKNO_PER_BLK
        invariant ok && !done && c == At(st, ino, Mid(i)) != 0
        invariant 1024 * i + j <= Max(l, q + 1)
        invariant Reached(st0, old(count), ino, RowFill(i, Max(l, 1024 * i + j)))
        invariant count == old(count)
      {
        ok, done := GrowLeaf(c, ino, i, j, off, q, l, st0);
        if !ok || done {
          return;
        }
      }
    }

    /** A row that is started has a number below 1024: more pages than blocks would be there otherwise. */
    lemma RowWithin(st0: State, count0: nat, ino: Ino, i: nat, l: nat)
      requires Reached(st0, count0, ino, LeafFill(Max(l, 1024 * i)))
      ensures i < 1024
    {
      ReachedMeans(st0, count0, ino, LeafFill(Max(l, 1024 * i)));
      FillBound(st, ino);
      RowsBound(i, Max(l, 1024 * i));
    }

    /**
     The double-indirect tier. The loop over rows has no bound of its own: it ends because pages wanted are found or
     blocks run out, and since an inode cannot fill more slots than there are blocks, row 1024 is never reached.
     */
    method GrowIndirect2(ino: Ino, off: nat, ghost q: nat, ghost l: nat, ghost st0: State) returns (ok: bool)
      requires q == off / BLK_SIZE && Reached(st0, count, ino, FillOf(SINGLE_END + l))
      modifies Repr()
      ensures ok <==> Free(st0) + st0.fill[ino] >= LeafFill(Max(l, q + 1) + 1)
      ensures ok ==> Reached(st0, old(count), ino, LeafFill(Max(l, q + 1) + 1))
      ensures ok ==> count == old(count)
    {
      ok := EnsureField(ino, Ind2, st0, FillOf(SINGLE_END + l));
      if !ok {
        return;
      }
      var done := false;
      var i := 0;
      while !done
        invariant ok
        invariant !done ==> 1024 * i <= Max(l, q + 1) && Reached(st0, old(count), ino, LeafFill(Max(l, 1024 * i)))
        invariant done ==> Reached(st0, old(count), ino, LeafFill(Max(l, q + 1) + 1))
        invariant count == old(count)
        decreases !done, 1024 - i
      {
        RowWithin(st0, old(count), ino, i, l);
        ok, done := EnsureRow(ino, i, off, q, l, st0);
        if !ok {
          return;
        }
        i := i + 1;
      }
      ReachedMeans(st0, old(count), ino, LeafFill(Max(l, q + 1) + 1));
    }

    /** The index block of row `i`, then the row. */
    method EnsureRow(ino: Ino, i: nat, off: nat, ghost q: nat, ghost l: nat, ghost st0: State)
      returns (ok: bool, done: bool)
      requires i < 1024 && q == off / BLK_SIZE && 1024 * i <= Max(l, q + 1)
      requires Reached(st0, count, ino, LeafFill(Max(l, 1024 * i)))
      modifies Repr()
      ensures ok && done ==> Reached(st0, old(count), ino, LeafFill(Max(l, q + 1) + 1))
      ensures ok && !done ==> 1024 * (i + 1) <= Max(l, q + 1)
      ensures ok && !done ==> Reached(st0, old(count), ino, LeafFill(Max(l, 1024 * (i + 1))))
      ensures !ok ==> Free(st0) + st0.fill[ino] < LeafFill(Max(l, q + 1) + 1)
      ensures ok ==> count == old(count)
    {
      ReachedMeans(st0, count, ino, LeafFill(Max(l, 1024 * i)));
      NodeFact(ino);
      RowStart(i, l, q);
      var isNew;
      ok, isNew := EnsureEntry(nodes[ino].indirect2, i, ino, Mid(i), st0, LeafFill(Max(l, 1024 * i)));
      done := false;
      if ok {
        ReachedMeans(st0, old(count), ino, RowFill(i, Max(l, 1024 * i)));
        RowStep(i, 0, l, q);
        ok, done := GrowRow(RowBlk(ino, i), ino, i, off, q, l, st0);
      }
    }

    /** Entry of a present slot, read through its index block as the code does. */
    function ReadEntry(c: BlockNo, ino: Ino, s: Slot): (b: BlockNo)
      requires Rep() && Owned(st) && !InInode(s) && Rank(s) < st.fill[ino] && c == BoxOf(st, ino, s)
      reads Repr()
      ensures b == At(st, ino, s) && b != 0
    {
      BoxInRange(st, ino, s);
      BoxPresent(st, ino, s);
      SlotFact(st, ino, s);
      InUse(c);
      EntryOf(GetBlk(c), Index(s))
    }

    /**
     The outcome of `get_blkno` for page `p` since `st0`. A creating call fills the tree up to `GrowPages`, failing
     exactly when there are too few free blocks; any other call changes nothing. The answer is what the page's slot
     holds.
     */
    ghost predicate Answered(st0: State, count0: nat, ino: Ino, p: nat, create: bool, ok: bool, res: BlockNo)
      reads Repr()
    {
      var f := FillOf(GrowPages(st0.pages[ino], p));
      && (create ==> (ok <==> Free(st0) + st0.fill[ino] >= f))
      && (create && ok ==> Reached(st0, count0, ino, f))
      && (!create ==> ok && Rep() && st == st0 && count == count0)
      && (ok ==> p < MAX_PAGES && res == At(st, ino, PageSlot(p)))
    }

    /** On the way there: when creating, the tree is filled up to slot `m`. */
    ghost predicate Asked(st0: State, count0: nat, ino: Ino, p: nat, create: bool, m: nat)
      reads Repr()
    {
      && st0.fill[ino] == FillOf(st0.pages[ino]) && Rep() && Owned(st) && count == count0
      && (create ==> Reached(st0, count0, ino, Max(st0.fill[ino], m)))
      && (!create ==> st == st0 && (p < st.pages[ino] || p == 0))
    }

    lemma AskedMeans(st0: State, count0: nat, ino: Ino, p: nat, create: bool, m: nat)
      requires Asked(st0, count0, ino, p, create, m)
      ensures create ==> Grew(st0, st, ino, Max(st0.fill[ino], m))
    {
      if create {
        ReachedMeans(st0, count0, ino, Max(st0.fill[ino], m));
      }
    }

    /** INode::get_blkno below its size handling: each tier is filled when creating, and read if the page is there. */
    method TieredBlkno(ino: Ino, off: nat, create: bool) returns (ok: bool, res: BlockNo)
      requires Rep() && Owned(st) && st.fill[ino] == FillOf(st.pages[ino])
      requires !create ==> off / BLK_SIZE < st.pages[ino] || off < BLK_SIZE
      modifies Repr()
      ensures Answered(old(st), old(count), ino, off / BLK_SIZE, create, ok, res)
    {
      ghost var st0 := st;
      GrewNone(st, ino);
      res := 0;
      ok := CreateDirect(ino, off, create);
      if ok {
        ok, res := DirectBlkno(ino, off, create, st0);
      }
    }

    method CreateDirect(ino: Ino, off: nat, create: bool) returns (ok: bool)
      requires Asked(st, count, ino, off / BLK_SIZE, create, 0)
      modifies Repr()
      ensures ok ==> Asked(old(st), old(count), ino, off / BLK_SIZE, create, Min(off / BLK_SIZE + 1, 16))
      ensures !ok ==> create && old(Free(st)) + old(st).fill[ino] < FillOf(GrowPages(old(st).pages[ino], off / BLK_SIZE))
    {
      DirectTier(st.pages[ino], off / BLK_SIZE);
      ok := true;
      if create {
        ok := GrowDirect(ino, Min(off / BLK_SIZE + 1, DIRECT_BLK_COUNT));
        if ok {
          ReachedMeans(old(st), old(count), ino, Max(old(st).fill[ino], Min(off / BLK_SIZE + 1, DIRECT_BLK_COUNT)));
        }
      }
    }

    method DirectBlkno(ino: Ino, off: nat, create: bool, ghost st0: State) returns (ok: bool, res: BlockNo)
      requires Asked(st0, count, ino, off / BLK_SIZE, create, Min(off / BLK_SIZE + 1, 16))
      modifies Repr()
      ensures Answered(st0, old(count), ino, off / BLK_SIZE, create, ok, res)
    {
      AskedMeans(st0, count, ino, off / BLK_SIZE, create, Min(off / BLK_SIZE + 1, 16));
      NodeFact(ino);
      DirectTier(st0.pages[ino], off / BLK_SIZE);
      DropPages(off, DIRECT_BLK_COUNT);
      ok := true;
      if off < BLK_SIZE * DIRECT_BLK_COUNT {
        res := nodes[ino].direct[off / BLK_SIZE];
        return;
      }
      var off1 := off - BLK_SIZE * DIRECT_BLK_COUNT;
      res := 0;
      ok := CreateIndirect(ino, off1, create, st0, off / BLK_SIZE);
      if ok {
        ok, res := IndirectBlkno(ino, off1, create, st0, off / BLK_SIZE);
      }
    }

    method CreateIndirect(ino: Ino, off: nat, create: bool, ghost st0: State, ghost p: nat) returns (ok: bool)
      requires p == off / BLK_SIZE + 16 && Asked(st0, count, ino, p, create, 16)
      modifies Repr()
      ensures ok ==> Asked(st0, old(count), ino, p, create, Min(p + 2, 1041))
      ensures !ok ==> create && Free(st0) + st0.fill[ino] < FillOf(GrowPages(st0.pages[ino], p))
    {
      IndirectTier(st0.pages[ino], p);
      ok := true;
      if create {
        ghost var n := Min(off / BLK_SIZE + 1, BLKNO_PER_BLK);
        ok := GrowIndirect(ino, Min(off / BLK_SIZE + 1, BLKNO_PER_BLK), st0, Max(st0.fill[ino], 16));
        if ok {
          ReachedMeans(st0, old(count), ino, Max(Max(st0.fill[ino], 16), 17 + n));
        }
      }
    }

    method IndirectBlkno(ino: Ino, off: nat, create: bool, ghost st0: State, ghost p: nat) returns (ok: bool, res: BlockNo)
      requires p == off / BLK_SIZE + 16 && Asked(st0, count, ino, p, create, Min(p + 2, 1041))
      modifies Repr()
      ensures Answered(st0, old(count), ino, p, create, ok, res)
    {
      AskedMeans(st0, count, ino, p, create, Min(p + 2, 1041));
      IndirectTier(st0.pages[ino], p);
      GrowPagesCovers(st0.pages[ino], p);
      DropPages(off, BLKNO_PER_BLK);
      ok := true;
      if off < BLK_SIZE * BLKNO_PER_BLK {
        res := ReadIndirect(ino, off, if create then GrowPages(st0.pages[ino], p) else st0.pages[ino], p);
        return;
      }
      ok, res := Indirect2Blkno(ino, off - BLK_SIZE * BLKNO_PER_BLK, create, st0, p);
    }

    method ReadIndirect(ino: Ino, off: nat, ghost n: nat, ghost p: nat) returns (res: BlockNo)
      requires Rep() && Owned(st) && st.fill[ino] == FillOf(n) && p == off / BLK_SIZE + 16 < n && p < SINGLE_END
      ensures res == At(st, ino, PageSlot(p))
    {
      NodeFact(ino);
      FillOfMeans(n, p);
      res := ReadEntry(nodes[ino].indirect, ino, Entry(off / BLK_SIZE));
    }

    method Indirect2Blkno(ino: Ino, off: nat, create: bool, ghost st0: State, ghost p: nat) returns (ok: bool, res: BlockNo)
      requires p == off / BLK_SIZE + SINGLE_END && Asked(st0, count, ino, p, create, 1041)
      modifies Repr()
      ensures Answered(st0, old(count), ino, p, create, ok, res)
    {
      GrowPagesCovers(st0.pages[ino], p);
      res := 0;
      ok := CreateIndirect2(ino, off, create, st0, p);
      if ok {
        res := ReadLeaf(ino, off, PagesAfter(st0, ino, p, create), p);
      }
    }

    /** Pages after a call for page `p`. */
    ghost function PagesAfter(st0: State, ino: Ino, p: nat, create: bool): nat {
      if create then GrowPages(st0.pages[ino], p) else st0.pages[ino]
    }

    method CreateIndirect2(ino: Ino, off: nat, create: bool, ghost st0: State, ghost p: nat) returns (ok: bool)
      requires p == off / BLK_SIZE + SINGLE_END && Asked(st0, count, ino, p, create, 1041)
      modifies Repr()
      ensures create ==> (ok <==> Free(st0) + st0.fill[ino] >= FillOf(GrowPages(st0.pages[ino], p)))
      ensures create && ok ==> Reached(st0, old(count), ino, FillOf(GrowPages(st0.pages[ino], p)))
      ensures !create ==> ok && st == st0
      ensures ok ==> Rep() && Owned(st) && count == old(count) && p < PagesAfter(st0, ino, p, create)
      ensures ok ==> st.fill[ino] == FillOf(PagesAfter(st0, ino, p, create))
    {
      GrowPagesCovers(st0.pages[ino], p);
      ok := true;
      if create {
        AskedMeans(st0, count, ino, p, create, 1041);
        Indirect2Tier(st0.pages[ino], p);
        ok := GrowIndirect2(ino, off, off / BLK_SIZE, Max(st0.pages[ino], SINGLE_END) - SINGLE_END, st0);
        if ok {
          ReachedMeans(st0, old(count), ino, FillOf(GrowPages(st0.pages[ino], p)));
        }
      }
    }

    /** The end of get_blkno: the page is within reach, so "File size too large." never happens. */
    method ReadLeaf(ino: Ino, off: nat, ghost n: nat, ghost p: nat) returns (res: BlockNo)
      requires Rep() && Owned(st) && st.fill[ino] == FillOf(n) && p == off / BLK_SIZE + SINGLE_END < n
      ensures p < MAX_PAGES && res == At(st, ino, PageSlot(p))
    {
      FillBound(st, ino);
      assert p < NBLK;
      assert off < BLK_SIZE * BLKNO_PER_BLK * BLKNO_PER_BLK;
      var page := off / BLK_SIZE;
      FillOfMeans(n, p);
      var c := RowBlk(ino, page / BLKNO_PER_BLK);
      res := ReadEntry(c, ino, Leaf(page / BLKNO_PER_BLK, page % BLKNO_PER_BLK));
    }

    /**
     INode::get_blkno. A creating call raises the size to `off` and succeeds exactly when enough blocks are free; a
     reading call succeeds exactly within the size. The answer is the block of the page that `off` is in.
     */
    method GetBlkno(ino: Ino, off: nat, create: bool) returns (ok: bool, res: BlockNo)
      requires Rep() && Core(st)
      modifies Repr()
      ensures create ==> (ok <==> old(Free(st)) + old(st).fill[ino] >= FillOf(GrowPages(old(st).pages[ino], off / BLK_SIZE)))
      ensures create && ok ==> Extended(old(st), st, ino, Max(old(st).nodes[ino].fSize, off),
                                        GrowPages(old(st).pages[ino], off / BLK_SIZE))
      ensures !create ==> (ok <==> off <= old(st).nodes[ino].fSize) && st == old(st)
      ensures ok ==> Rep() && Core(st) && count == old(count)
      ensures ok ==> off / BLK_SIZE < MAX_PAGES && res == At(st, ino, PageSlot(off / BLK_SIZE))
    {
      NodeFact(ino);
      ghost var st0 := st;
      ghost var size := Max(st.nodes[ino].fSize, off);
      SoundFact(st, ino);
      ok, res := false, 0;
      if create {
        ok, res := CreatingBlkno(ino, off);
      } else if off <= nodes[ino].fSize {
        ok, res := TieredBlkno(ino, off, false);
      }
    }

    /** The number of pages is bookkeeping: nothing in the arrays changes. */
    ghost method SetPages(ino: Ino, n: nat)
      requires Rep()
      modifies this`st
      ensures Rep() && st == WithPages(old(st), ino, n)
    {
      Open();
      var st0 := st;
      st := WithPages(st0, ino, n);
      PackedSame(st0, st);
    }

    method CreatingBlkno(ino: Ino, off: nat) returns (ok: bool, res: BlockNo)
      requires Rep() && Core(st)
      modifies Repr()
      ensures ok <==> old(Free(st)) + old(st).fill[ino] >= FillOf(GrowPages(old(st).pages[ino], off / BLK_SIZE))
      ensures ok ==> Rep() && Core(st) && count == old(count)
      ensures ok ==> Extended(old(st), st, ino, Max(old(st).nodes[ino].fSize, off),
                              GrowPages(old(st).pages[ino], off / BLK_SIZE))
      ensures ok ==> off / BLK_SIZE < MAX_PAGES && res == At(st, ino, PageSlot(off / BLK_SIZE))
    {
      NodeFact(ino);
      ghost var st0 := st;
      ghost var size := Max(st.nodes[ino].fSize, off);
      ghost var n := GrowPages(st.pages[ino], off / BLK_SIZE);
      SoundFact(st, ino);
      WithSizeOwned(st, ino, size);
      if off > nodes[ino].fSize {
        StoreNode(ino, Sized(nodes[ino], off));
      }
      assert st == WithSize(st0, ino, size);
      ok, res := TieredBlkno(ino, off, true);
      if ok {
        ReachedMeans(WithSize(st0, ino, size), old(count), ino, FillOf(n));
        ghost var st2 := st;
        SetPages(ino, n);
        ExtendedByGrowth(st0, st2, ino, size, n);
        ExtendedCore(st0, st, ino, size, n);
        AtSameTree(st2, st, ino, PageSlot(off / BLK_SIZE));
      }
    }

    // ----- INode::write and INode::read -----

    /** The body of the copy loop of `write`. */
    method WriteChunk(ino: Ino, off: nat, chunk: seq<Byte>, ghost st0: State, ghost off0: nat, ghost bytes: seq<Byte>,
                      ghost size: nat, ghost n: nat) returns (ok: bool)
      requires Rep() && Rewritten(st0, st, ino, off0, bytes, size, n) && off == off0 + |bytes|
      requires 0 < |chunk| && off % BLK_SIZE + |chunk| <= BLK_SIZE && off + |chunk| <= size
      modifies Repr()
      ensures ok <==> Free(st0) + st0.fill[ino] >= FillOf(GrowPages(n, off / BLK_SIZE))
      ensures ok ==> Rep() && count == old(count)
      ensures ok ==> Rewritten(st0, st, ino, off0, bytes + chunk, size, GrowPages(n, off / BLK_SIZE))
    {
      RewrittenFacts(st0, st, ino, off0, bytes, size, n);
      ghost var st1 := st;
      ghost var n' := GrowPages(n, off / BLK_SIZE);
      SoundFact(st, ino);
      GrowPagesCovers(n, off / BLK_SIZE);
      var blk;
      ok, blk := GetBlkno(ino, off, true);
      if ok {
        assert Max(st1.nodes[ino].fSize, off) == size;
        RewrittenExtended(st0, st1, st, ino, off0, bytes, size, n, size, n');
        SoundFact(st, ino);
        FillOfMeans(n', off / BLK_SIZE);
        SlotFact(st, ino, PageSlot(off / BLK_SIZE));
        PageInRange(st, ino, off / BLK_SIZE);
        RewrittenStored(st0, st, ino, off0, bytes, size, n', chunk);
        InUse(blk);
        StoreBytes(blk, off % BLK_SIZE, chunk);
      }
    }

    /**
     INode::write: afterwards the file has `buf` at `off` and is otherwise as it was, with zeroes in any gap; no other
     file has changed; it succeeds exactly when the blocks it needs are free.
     */
    method Write(ino: Ino, off: nat, buf: seq<Byte>) returns (ok: bool)
      requires Rep() && Core(st)
      modifies Repr()
      ensures ok <==> (old(Free(st)) + old(st).fill[ino]
                       >= FillOf(WritePages(old(st).nodes[ino].fSize, old(st).pages[ino], off, |buf|)))
      ensures ok ==> Rep() && count == old(count)
      ensures ok ==> Rewritten(old(st), st, ino, off, buf, Max(old(st).nodes[ino].fSize, off + |buf|),
                               WritePages(old(st).nodes[ino].fSize, old(st).pages[ino], off, |buf|))
    {
      ghost var st0 := st;
      ghost var n: nat;
      ok, n := MakeRoomFor(ino, off, |buf|);
      if ok {
        ok := WriteChunks(ino, off, buf, st0, Max(st0.nodes[ino].fSize, off + |buf|), n);
      }
    }

    /** The first part of write: a creating call for the end, unless that lies inside the file. */
    method MakeRoomFor(ino: Ino, off: nat, len: nat) returns (ok: bool, ghost n: nat)
      requires Rep() && Core(st)
      modifies Repr()
      ensures ok ==> Rep() && count == old(count)
      ensures ok ==> Rewritten(old(st), st, ino, off, [], Max(old(st).nodes[ino].fSize, off + len), n)
      ensures ChunkPages(n, off, len) == WritePages(old(st).nodes[ino].fSize, old(st).pages[ino], off, len)
      ensures !ok ==> old(Free(st)) + old(st).fill[ino] < FillOf(ChunkPages(n, off, len))
    {
      NodeFact(ino);
      ghost var st0 := st;
      ghost var size := Max(st.nodes[ino].fSize, off + len);
      n := st.pages[ino];
      RewrittenNone(st, ino, off);
      ok := true;
      if off + len >= nodes[ino].fSize {
        n := GrowPages(n, (off + len) / BLK_SIZE);
        var blk;
        ok, blk := GetBlkno(ino, off + len, true);
        if ok {
          RewrittenExtended(st0, st0, st, ino, off, [], st0.nodes[ino].fSize, st0.pages[ino], size, n);
        }
      }
    }

    method WriteChunks(ino: Ino, off: nat, buf: seq<Byte>, ghost st0: State, ghost size: nat, ghost n: nat)
      returns (ok: bool)
      requires Rep() && Rewritten(st0, st, ino, off, [], size, n) && off + |buf| <= size
      modifies Repr()
      ensures ok <==> Free(st0) + st0.fill[ino] >= FillOf(ChunkPages(n, off, |buf|))
      ensures ok ==> Rep() && count == old(count)
      ensures ok ==> Rewritten(st0, st, ino, off, buf, size, ChunkPages(n, off, |buf|))
    {
      ghost var m: nat, done: seq<Byte> := n, [];
      var cur: nat, rest := off, buf;
      while |rest| > 0
        invariant Rep() && count == old(count)
        invariant Rewritten(st0, st, ino, off, done, size, m) && Halfway(off, buf, n, cur, done, rest, m)
      {
        var copyLen := ChunkLen(cur, |rest|);
        HalfwayStep(off, buf, n, cur, done, rest, m, copyLen);
        ok := WriteChunk(ino, cur, rest[..copyLen], st0, off, done, size, m);
        if !ok {
          return;
        }
        m, done := GrowPages(m, cur / BLK_SIZE), done + rest[..copyLen];
        cur, rest := cur + copyLen, rest[copyLen..];
      }
      assert rest == [];
      HalfwayEnd(off, buf, n, cur, done, m);
      RewrittenFacts(st0, st, ino, off, buf, size, m);
      ok := true;
    }

    /**
     INode::read: the bytes [off, off + len) of the file. The assert wants `off + len` strictly below the size. A
     file with a page has all its pages, so "bad blk no" is only for one that has none.
     */
    method Read(ino: Ino, off: nat, len: nat) returns (ok: bool, buf: seq<Byte>)
      requires Rep() && Core(st)
      modifies Repr()
      ensures st == old(st) && Rep() && count == old(count)
      ensures ok <==> off + len < st.nodes[ino].fSize && (len == 0 || st.pages[ino] > 0)
      ensures ok ==> |buf| == len && forall k: nat :: k < len ==> buf[k] == ByteAt(st, ino, off + k)
    {
      NodeFact(ino);
      buf := [];
      ok := off + len < nodes[ino].fSize;
      if !ok {
        return;
      }
      var cur: nat, rest: nat := off, len;
      while rest > 0
        invariant ok && st == old(st) && Rep() && count == old(count)
        invariant cur + rest == off + len && |buf| == cur - off && (cur > off ==> st.pages[ino] > 0)
        invariant cur >= off && IsPart(st, ino, off, buf)
      {
        var chunk;
        ok, chunk := ReadChunk(ino, cur, ChunkLen(cur, rest));
        if !ok {
          return;
        }
        PartAppend(st, ino, off, buf, chunk);
        buf := buf + chunk;
        cur, rest := cur + |chunk|, rest - |chunk|;
      }
      PartMeans(st, ino, off, buf);
    }

    /** The body of the copy loop of `read`. */
    method ReadChunk(ino: Ino, off: nat, len: nat) returns (ok: bool, chunk: seq<Byte>)
      requires Rep() && Core(st) && off < st.nodes[ino].fSize && off % BLK_SIZE + len <= BLK_SIZE
      modifies Repr()
      ensures st == old(st) && Rep() && count == old(count)
      ensures ok <==> st.pages[ino] > 0
      ensures ok ==> |chunk| == len && IsPart(st, ino, off, chunk)
    {
      SoundFact(st, ino);
      var blk;
      ok, blk := GetBlkno(ino, off, false);
      FillOfMeans(st.pages[ino], off / BLK_SIZE);
      SlotFact(st, ino, PageSlot(off / BLK_SIZE));
      chunk := [];
      if blk == 0 {
        ok := false;
        return;
      }
      PageInRange(st, ino, off / BLK_SIZE);
      InUse(blk);
      chunk := GetBlk(blk)[off % BLK_SIZE..off % BLK_SIZE + len];
      PartOfPage(st, ino, off, len, blk);
    }

    // ----- INode::get_dentry and INode::add_dentry -----

    /** get_dentry: the block slot `pos` is in, and where in the block, after room was made past the slot. */
    method GetDentry(ino: Ino, pos: nat, ghost st0: State, ghost off: nat, ghost n: nat)
      returns (ok: bool, blk: BlockNo, at: nat)
      requires Rep() && Rewritten(st0, st, ino, off, [], st.nodes[ino].fSize, n)
      modifies Repr()
      ensures ok <==> (old(st).nodes[ino].fType == Dir
                       && Free(st0) + st0.fill[ino] >= FillOf(GrowPages(n, 128 * (pos + 1) / BLK_SIZE)))
      ensures ok ==> Rep() && count == old(count)
      ensures ok ==> Rewritten(st0, st, ino, off, [], Max(old(st).nodes[ino].fSize, 128 * (pos + 1)),
                               GrowPages(n, 128 * (pos + 1) / BLK_SIZE))
      ensures ok ==> 128 * pos / BLK_SIZE < MAX_PAGES && blk == At(st, ino, PageSlot(128 * pos / BLK_SIZE)) != 0
      ensures ok ==> at == 128 * pos % BLK_SIZE
    {
      RewrittenFacts(st0, st, ino, off, [], st.nodes[ino].fSize, n);
      NodeFact(ino);
      ok, blk, at := nodes[ino].fType == Dir, 0, pos % 32 * DENTRY_SIZE;
      var start, end := pos * DENTRY_SIZE, (pos + 1) * DENTRY_SIZE;
      assert start == 128 * pos && end == 128 * (pos + 1) && start / BLK_SIZE <= end / BLK_SIZE;
      assert at == start % BLK_SIZE by { SlotPlace(pos, 0); }
      if ok {
        ok := MakeRoom(ino, end, st0, off, n);
        if ok {
          RewrittenFacts(st0, st, ino, off, [], Max(old(st.nodes[ino].fSize), end), GrowPages(n, end / BLK_SIZE));
          blk := PresentBlkno(ino, start);
        }
      }
    }

    /** A creating call, on top of what was done since `st0`. */
    method MakeRoom(ino: Ino, size: nat, ghost st0: State, ghost off: nat, ghost n: nat) returns (ok: bool)
      requires Rep() && Rewritten(st0, st, ino, off, [], st.nodes[ino].fSize, n)
      modifies Repr()
      ensures ok <==> Free(st0) + st0.fill[ino] >= FillOf(GrowPages(n, size / BLK_SIZE))
      ensures ok ==> Rep() && count == old(count)
      ensures ok ==> Rewritten(st0, st, ino, off, [], Max(old(st).nodes[ino].fSize, size), GrowPages(n, size / BLK_SIZE))
      ensures ok ==> size <= st.nodes[ino].fSize && size / BLK_SIZE < st.pages[ino]
    {
      RewrittenFacts(st0, st, ino, off, [], st.nodes[ino].fSize, n);
      GrowPagesCovers(n, size / BLK_SIZE);
      ghost var st1 := st;
      SoundFact(st, ino);
      var blk;
      ok, blk := GetBlkno(ino, size, true);
      if ok {
        RewrittenExtended(st0, st1, st, ino, off, [], st1.nodes[ino].fSize, n, Max(st1.nodes[ino].fSize, size),
                          GrowPages(n, size / BLK_SIZE));
      }
    }

    /** A reading call for a page that is there. */
    method PresentBlkno(ino: Ino, off: nat) returns (blk: BlockNo)
      requires Rep() && Core(st) && off <= st.nodes[ino].fSize && off / BLK_SIZE < st.pages[ino]
      modifies Repr()
      ensures Rep() && st == old(st) && count == old(count)
      ensures off / BLK_SIZE < MAX_PAGES && blk == At(st, ino, PageSlot(off / BLK_SIZE)) != 0
    {
      var ok;
      ok, blk := GetBlkno(ino, off, false);
      SoundFact(st, ino);
      FillOfMeans(st.pages[ino], off / BLK_SIZE);
      SlotFact(st, ino, PageSlot(off / BLK_SIZE));
    }

    /** add_dentry: the entry goes into the first empty slot. */
    method AddDentry(ino: Ino, d: seq<Byte>) returns (ok: bool)
      requires Rep() && Core(st) && |d| == DENTRY_SIZE
      modifies Repr()
      ensures ok <==> (old(st).nodes[ino].fType == Dir && old(Free(st)) + old(st).fill[ino]
                       >= FillOf(DentryPages(old(st).pages[ino], FirstEmpty(Content(old(st), ino), 0) + 1)))
      ensures ok ==> Rep() && count == old(count) && Added(old(st), st, ino, d)
    {
      EmptyFromFirst(Content(st, ino), 0);
      ok := AddDentryAt(ino, d, FirstEmpty(Content(st, ino), 0));
    }

    /**
     Its loop. The bound grows while the loop runs; it ends because the first slot past the end of the directory is
     empty.
     */
    method AddDentryAt(ino: Ino, d: seq<Byte>, ghost e: nat) returns (ok: bool)
      requires Rep() && Core(st) && |d| == DENTRY_SIZE && EmptyFrom(Content(st, ino), 0, e)
      modifies Repr()
      ensures ok <==> (old(st).nodes[ino].fType == Dir
                       && old(Free(st)) + old(st).fill[ino] >= FillOf(DentryPages(old(st).pages[ino], e + 1)))
      ensures ok ==> Rep() && count == old(count) && AddedAt(old(st), st, ino, d, e)
    {
      NodeFact(ino);
      ghost var st0, size := st, st.nodes[ino].fSize;
      ProbingStart(st, ino, e);
      ok := nodes[ino].fType == Dir;
      if !ok {
        return;
      }
      var i: nat := 0;
      while i <= nodes[ino].fSize / DENTRY_SIZE
        invariant Rep() && count == old(count) && i <= e && nodes[ino].fSize == Max(size, 128 * i)
        invariant Probing(st0, st, ino, e, i)
        decreases e - i
      {
        var done;
        ok, done := ProbeDentry(ino, i, d, st0, e);
        if !ok || done {
          return;
        }
        ProbingMeans(st0, st, ino, e, i + 1);
        NodeFact(ino);
        i := i + 1;
      }
      assert false;
    }

    /** The body of the loop of add_dentry. */
    method ProbeDentry(ino: Ino, i: nat, d: seq<Byte>, ghost st0: State, ghost e: nat) returns (ok: bool, done: bool)
      requires Rep() && Core(st0) && |d| == DENTRY_SIZE && st0.nodes[ino].fType == Dir
      requires EmptyFrom(Content(st0, ino), 0, e) && i <= e && Probing(st0, st, ino, e, i)
      modifies Repr()
      ensures !ok ==> !done && Free(st0) + st0.fill[ino] < FillOf(DentryPages(st0.pages[ino], e + 1))
      ensures ok ==> Rep() && count == old(count) && (done <==> i == e)
      ensures ok && !done ==> Probing(st0, st, ino, e, i + 1)
      ensures done ==> AddedAt(st0, st, ino, d, e)
      ensures done ==> Free(st0) + st0.fill[ino] >= FillOf(DentryPages(st0.pages[ino], e + 1))
    {
      ghost var st1 := st;
      ProbingMeans(st0, st, ino, e, i);
      ProbeCost(st0.pages[ino], i, e);
      var blk, at;
      done := false;
      ok, blk, at := GetDentry(ino, i, st0, 128 * e, DentryPages(st0.pages[ino], i));
      if ok {
        ProbingStep(st0, st1, st, ino, e, i);
        done := TryDentry(ino, i, d, blk, at, st0, e);
        if done {
          AddedFacts(st0, st, ino, d, e);
        }
      }
    }

    /** An empty slot is cleared and takes the entry; any other is left as it is. */
    method TryDentry(ino: Ino, i: nat, d: seq<Byte>, blk: BlockNo, at: nat, ghost st0: State, ghost e: nat)
      returns (done: bool)
      requires Rep() && Core(st0) && |d| == DENTRY_SIZE
      requires EmptyFrom(Content(st0, ino), 0, e) && i <= e && Probing(st0, st, ino, e, i + 1)
      requires 128 * i / BLK_SIZE < MAX_PAGES && blk == At(st, ino, PageSlot(128 * i / BLK_SIZE)) != 0
      requires at == 128 * i % BLK_SIZE
      modifies this`st, disk
      ensures Rep() && count == old(count) && (done <==> i == e)
      ensures !done ==> st == old(st)
      ensures done ==> AddedAt(st0, st, ino, d, e)
    {
      ProbingMeans(st0, st, ino, e, i + 1);
      ProbedPlace(st0, st, ino, e, i, blk, at);
      done := IsEmptySlot(ino, i, blk, at);
      if done {
        ProbingStored(st0, st, ino, d, e);
        InUse(blk);
        PutDentry(blk, at, d);
      }
    }

    /** Whether the slot at hand has no inode number. */
    method IsEmptySlot(ghost ino: Ino, ghost i: nat, blk: BlockNo, at: nat) returns (empty: bool)
      requires Rep() && Core(st) && at == 128 * i % BLK_SIZE
      requires 128 * i / BLK_SIZE < MAX_PAGES && blk == At(st, ino, PageSlot(128 * i / BLK_SIZE)) != 0
      ensures Rep() && (empty <==> Blank(Content(st, ino), i))
    {
      SoundFact(st, ino);
      PageInRange(st, ino, 128 * i / BLK_SIZE);
      SlotInBlock(st, ino, i, blk, at);
      InUse(blk);
      var b := GetBlk(blk);
      empty := Val4(b[at], b[at + 1], b[at + 2], b[at + 3]) == 0;
    }

    method PutDentry(blk: BlockNo, at: nat, d: seq<Byte>)
      requires Rep() && blk < NBLK && fsBitmap.Get(blk) && mmBitmap.Get(blk)
      requires |d| == DENTRY_SIZE && at + DENTRY_SIZE <= BLK_SIZE
      modifies this`st, disk
      ensures Rep() && st == WithBytes(old(st), blk, at, d)
    {
      SpliceTwice(st.disk[blk], at, Zeros(DENTRY_SIZE), d);
      StoreBytes(blk, at, Zeros(DENTRY_SIZE));
      StoreBytes(blk, at, d);
    }

    // ----- make_dir and make_file -----

    /**
     alloc_inode. Inode numbers are handed out in order; past 8191 the bitmap still has clear bits but the inode
     table has no slot, and the call fails.
     */
    method AllocInode() returns (ok: bool, res: nat)
      requires Rep() && Healthy(st, count)
      modifies Repr()
      ensures ok <==> old(count) + 1 < NINO
      ensures ok ==> Rep() && st == old(st) && res == count == old(count) + 1
    {
      ok, res := NextInode();
      if ok {
        InodeFact(st, count, res);
        BlankNode(st, res);
        MarkInode(res);
        ClearNode(res);
      }
    }

    /** The number that comes next, if the table has a slot for it. */
    method NextInode() returns (ok: bool, res: nat)
      requires Rep()
      ensures Rep() && (ok <==> count + 1 < NINO) && res == count + 1
    {
      Open();
      ok, res := inodeBitmap.FirstAvailable();
      assert !inodeBitmap.Get(count + 1);
      ok := res < NINO;
    }

    method MarkInode(res: nat)
      requires Rep() && res == count + 1 < NINO
      modifies this`count, superblock, inodeBitmap.data
      ensures Rep() && count == res
    {
      Open();
      superblock.freeInode := superblock.freeInode - 1;
      inodeBitmap.Set(res);
      count := res;
    }

    /** The record of an unused inode is cleared; it was clear before. */
    method ClearNode(res: Ino)
      requires Rep() && st.nodes[res] == ZeroINode()
      modifies nodes
      ensures Rep()
    {
      Open();
      nodes[res] := ZeroINode();
      assert nodes[..] == st.nodes;
    }

    /** The part of make_dir up to the parent's entry: the new directory holds `.` and `..`. */
    method NewDir(parent: Word) returns (ok: bool, res: nat)
      requires Rep() && Healthy(st, count) && parent != 0
      modifies Repr()
      ensures ok <==> old(count) + 1 < NINO && old(Free(st)) >= 1
      ensures ok ==> Rep() && Healthy(st, count) && res == count == old(count) + 1 && Free(st) == old(Free(st)) - 1
      ensures ok ==> (FilesOf(st, count)
                      == FilesOf(old(st), old(count)) + [FileView(Dir, NewDirBytes(old(count) + 1, parent))])
      ensures ok ==> SamePages(old(st), st, res)
    {
      ghost var st0, count0 := st, count;
      ok, res := AllocInode();
      if !ok {
        return;
      }
      InodeFact(st, count0, res);
      BlankNode(st, res);
      HealthyNext(st, count0);
      ok := FillNewDir(res, parent);
    }

    method FillNewDir(ino: Ino, parent: Word) returns (ok: bool)
      requires Rep() && Healthy(st, count) && 0 < ino == count && parent != 0
      requires View(st, ino) == FileView(NoType, []) && st.pages[ino] == 0 && st.nodes[ino] == ZeroINode()
      modifies Repr()
      ensures ok <==> old(Free(st)) >= 1
      ensures ok ==> Rep() && Healthy(st, count) && count == old(count) && Free(st) == old(Free(st)) - 1
      ensures ok ==> FilesOf(st, count) == FilesOf(old(st), count)[ino := FileView(Dir, NewDirBytes(ino, parent))]
      ensures ok ==> SamePages(old(st), st, ino)
    {
      ghost var st0 := st;
      InodeFact(st, count, ino);
      CoreTyped(st, ino, Dir, NEW_DIR_SIZE);
      StoreNode(ino, INode(Dir, Zeros(16), 0, 0, NEW_DIR_SIZE));
      ghost var st1 := st;
      assert View(st1, ino) == FileView(Dir, Zeros(NEW_DIR_SIZE)) by { assert Listed(ino); }
      ok := AddDot(ino);
      if !ok {
        return;
      }
      ghost var st2 := st;
      RewrittenFacts(st1, st, ino, 0, Encode(Dot(ino)), NEW_DIR_SIZE, 1);
      AddDotDot(ino, parent);
      RewrittenPages(st1, st2, ino, 0, Encode(Dot(ino)), NEW_DIR_SIZE, 1);
      RewrittenPages(st2, st, ino, 128, Encode(DotDot(parent)), NEW_DIR_SIZE, 1);
      NewDirMade(st0, st1, st2, st, ino, parent);
    }

    method AddDot(ino: Ino) returns (ok: bool)
      requires Rep() && Core(st) && View(st, ino) == FileView(Dir, Zeros(NEW_DIR_SIZE)) && st.pages[ino] == 0
      modifies Repr()
      ensures ok <==> old(Free(st)) >= 1
      ensures ok ==> Rep() && count == old(count)
      ensures ok ==> Rewritten(old(st), st, ino, 0, Encode(Dot(ino)), NEW_DIR_SIZE, 1)
      ensures ok ==> View(st, ino) == FileView(Dir, Encode(Dot(ino)) + Zeros(DENTRY_SIZE))
    {
      ghost var st0 := st;
      SoundFact(st, ino);
      DotCost(st, ino);
      ok := AddDentry(ino, Encode(Dot(ino)));
      if ok {
        DotAdded(st0, st, ino);
      }
    }

    method AddDotDot(ino: Ino, parent: Word)
      requires Rep() && Core(st) && View(st, ino) == FileView(Dir, Encode(Dot(ino)) + Zeros(DENTRY_SIZE))
      requires ino != 0 && st.pages[ino] == 1
      modifies Repr()
      ensures Rep() && count == old(count)
      ensures Rewritten(old(st), st, ino, 128, Encode(DotDot(parent)), NEW_DIR_SIZE, 1)
      ensures View(st, ino) == FileView(Dir, NewDirBytes(ino, parent))
    {
      ghost var st0 := st;
      SoundFact(st, ino);
      FreeMeans(st);
      DotDotCost(st, ino, parent);
      var ok := AddDentry(ino, Encode(DotDot(parent)));
      DotDotAdded(st0, st, ino, parent);
    }

    /** The entry `d` is added to an existing directory. */
    method Link(parent: Ino, d: DEntry) returns (ok: bool)
      requires Rep() && Healthy(st, count) && parent <= count && d.inode != 0
      requires st.nodes[parent].fSize <= 128 * (count + 1) || st.nodes[parent].fType != Dir
      modifies Repr()
      ensures ok <==> old(st).nodes[parent].fType == Dir && old(Free(st)) >= LinkCost(old(st).nodes[parent].fSize)
      ensures ok ==> Rep() && Healthy(st, count) && count == old(count)
      ensures ok ==> Free(st) == old(Free(st)) - LinkCost(old(st).nodes[parent].fSize)
      ensures ok ==> FilesOf(st, count) == Linked(FilesOf(old(st), count), parent, d)
      ensures ok ==> SamePages(old(st), st, parent)
    {
      ghost var st0 := st;
      if st.nodes[parent].fType == Dir {
        AddCost(st, count, parent);
      }
      ok := AddDentry(parent, Encode(d));
      if ok {
        LinkMade(st0, st, count, parent, d);
      }
    }

    /**
     make_dir. `junk` is what stood on the stack where the entry's name field was built: bytes past the name are not
     initialised.
     */
    method MakeDir(parent: Word, name: seq<Byte>, junk: FName) returns (ok: bool, res: nat)
      requires Rep() && Healthy(st, count)
      modifies Repr()
      ensures ok <==> (MayMakeDir(FilesOf(old(st), old(count)), parent, name)
                       && old(Free(st)) >= DirCost(FilesOf(old(st), old(count)), parent))
      ensures ok ==> Rep() && Healthy(st, count) && res == count == old(count) + 1
      ensures ok ==> FilesOf(st, count) == MadeDir(FilesOf(old(st), old(count)), parent, name, junk)
      ensures ok ==> HasDots(FilesOf(st, count)[res], res, parent)
      ensures ok ==> Free(st) == old(Free(st)) - DirCost(FilesOf(old(st), old(count)), parent)
      ensures ok ==> forall i: Ino :: i <= old(count) && i != parent ==> st.pages[i] == old(st).pages[i]
    {
      ghost var fs := FilesOf(st, count);
      ok, res := |name| <= DENTRY_NAME_LEN && parent != 0, 0;
      if ok {
        ok, res := NewDirBelow(parent, fs);
        if ok {
          ok := LinkNewDir(res, parent, name, junk, fs);
          if ok {
            MadeDirDots(fs, parent, name, junk);
          }
        }
      }
    }

    /** The new directory, and what its parent's entry will find. */
    method NewDirBelow(parent: Word, ghost fs: seq<FileView>) returns (ok: bool, res: nat)
      requires Rep() && Healthy(st, count) && parent != 0 && fs == FilesOf(st, count)
      modifies Repr()
      ensures ok <==> |fs| < NINO && old(Free(st)) >= 1
      ensures ok ==> Rep() && Healthy(st, count) && res == count == |fs| && Free(st) == old(Free(st)) - 1
      ensures ok ==> FilesOf(st, count) == fs + [FileView(Dir, NewDirBytes(res, parent))]
      ensures parent < |fs| && fs[parent].fType == Dir ==> |fs[parent].bytes| <= 128 * (|fs| + 1)
      ensures ok ==> SamePages(old(st), st, res)
    {
      if parent <= count {
        DirInView(st, count, parent);
      }
      ok, res := NewDir(parent);
    }

    /** The rest of make_dir: the parent's entry, unless this is the root. */
    method LinkNewDir(res: Ino, parent: Word, name: seq<Byte>, junk: FName, ghost fs: seq<FileView>) returns (ok: bool)
      requires Rep() && Healthy(st, count) && res == count == |fs| > 0 && parent != 0 && |name| <= DENTRY_NAME_LEN
      requires FilesOf(st, count) == fs + [FileView(Dir, NewDirBytes(res, parent))]
      requires parent < |fs| && fs[parent].fType == Dir ==> |fs[parent].bytes| <= 128 * (count + 1)
      modifies Repr()
      ensures ok <==> MayMakeDir(fs, parent, name) && old(Free(st)) >= DirCost(fs, parent) - 1
      ensures ok ==> Rep() && Healthy(st, count) && count == old(count)
      ensures ok ==> FilesOf(st, count) == MadeDir(fs, parent, name, junk)
      ensures ok ==> Free(st) == old(Free(st)) - (DirCost(fs, parent) - 1)
      ensures ok ==> SamePages(old(st), st, parent)
    {
      if parent < 8 * BLK_SIZE {
        InodeBit(parent);
      }
      FreeMeans(st);
      if res == 1 {
        ok := parent == 1;  // "Root dir's parent must be itself!"
      } else if parent < 8 * BLK_SIZE && inodeBitmap.Get(parent) {
        assert parent <= count;
        NewDirDense(res, parent);
        DirInView(st, count, parent);
        ok := Link(parent, DEntry(res, Dir, |name|, NameField(name, junk)));
      } else {
        ok := false;
      }
    }

    /** make_file */
    method MakeFile(parent: Word, name: seq<Byte>) returns (ok: bool, res: nat)
      requires Rep() && Healthy(st, count)
      modifies Repr()
      ensures ok <==> (MayMakeFile(FilesOf(old(st), old(count)), parent, name)
                       && old(Free(st)) >= LinkCost(|FilesOf(old(st), old(count))[parent].bytes|))
      ensures ok ==> Rep() && Healthy(st, count) && res == count == old(count) + 1
      ensures ok ==> FilesOf(st, count) == MadeFile(FilesOf(old(st), old(count)), parent, name)
      ensures ok ==> st.pages[res] == 0
      ensures ok ==> Free(st) == old(Free(st)) - LinkCost(|FilesOf(old(st), old(count))[parent].bytes|)
      ensures ok ==> SamePages(old(st), st, parent)
    {
      if parent < 8 * BLK_SIZE {
        InodeBit(parent);
      }
      ghost var count0 := count;
      ok, res := |name| <= DENTRY_NAME_LEN && parent < 8 * BLK_SIZE && inodeBitmap.Get(parent) && parent != 0, 0;
      if !ok {
        return;
      }
      DirInView(st, count, parent);
      ok, res := NewFile();
      if ok {
        ok := LinkNewFile(res, parent, name, FilesOf(old(st), old(count)));
      }
    }

    /** The rest of make_file: the parent's entry. */
    method LinkNewFile(res: Ino, parent: Word, name: seq<Byte>, ghost fs: seq<FileView>) returns (ok: bool)
      requires Rep() && Healthy(st, count) && res == count == |fs| && 0 < parent < |fs| && |name| <= DENTRY_NAME_LEN
      requires FilesOf(st, count) == fs + [FileView(Regular, [])] && st.pages[res] == 0
      requires fs[parent].fType == Dir ==> |fs[parent].bytes| <= 128 * (count + 1)
      modifies Repr()
      ensures ok <==> fs[parent].fType == Dir && old(Free(st)) >= LinkCost(|fs[parent].bytes|)
      ensures ok ==> Rep() && Healthy(st, count) && count == old(count) && FilesOf(st, count) == MadeFile(fs, parent, name)
      ensures ok ==> Free(st) == old(Free(st)) - LinkCost(|fs[parent].bytes|) && st.pages[res] == 0
      ensures ok ==> SamePages(old(st), st, parent)
    {
      NodeFact(parent);
      DirInView(st, count, parent);
      ok := nodes[parent].fType == Dir;
      if ok {
        ok := Link(parent, DEntry(res, Regular, |name|, NameField(name, Zeros(DENTRY_NAME_LEN))));
      }
    }

    method NewFile() returns (ok: bool, res: nat)
      requires Rep() && Healthy(st, count)
      modifies Repr()
      ensures ok <==> old(count) + 1 < NINO
      ensures ok ==> Rep() && Healthy(st, count) && res == count == old(count) + 1 && Free(st) == old(Free(st))
      ensures ok ==> FilesOf(st, count) == FilesOf(old(st), old(count)) + [FileView(Regular, [])]
      ensures ok ==> st.pages[count] == 0
      ensures ok ==> st.pages == old(st).pages
    {
      ghost var st0, count0 := st, count;
      ok, res := AllocInode();
      if ok {
        InodeFact(st, count0, res);
        BlankNode(st, res);
        HealthyNext(st, count0);
        FileTyped(st, res);
        StoreNode(res, INode(Regular, Zeros(16), 0, 0, 0));
      }
    }

    /** A regular file is written through its inode number. */
    method WriteFile(no: nat, off: nat, buf: seq<Byte>) returns (ok: bool)
      requires Rep() && Healthy(st, count) && no <= count && st.nodes[no].fType == Regular
      modifies Repr()
      ensures ok <==> (old(Free(st)) + FillOf(old(st).pages[no])
                       >= FillOf(WritePages(old(st).nodes[no].fSize, old(st).pages[no], off, |buf|)))
      ensures ok ==> Rep() && Healthy(st, count) && count == old(count)
      ensures ok ==> (Free(st) + FillOf(WritePages(old(st).nodes[no].fSize, old(st).pages[no], off, |buf|))
                      == old(Free(st)) + FillOf(old(st).pages[no]))
      ensures ok ==> (FilesOf(st, count)
                      == FilesOf(old(st), count)[no := OverwriteFile(FilesOf(old(st), count)[no], off, buf)])
      ensures ok ==> st.pages[no] == WritePages(old(st).nodes[no].fSize, old(st).pages[no], off, |buf|)
      ensures ok ==> SamePages(old(st), st, no)
    {
      ghost var st0 := st;
      InodeFact(st, count, no);
      InodeBit(no);
      ok := Write(no, off, buf);
      if ok {
        RewrittenFacts(st0, st, no, off, buf, Max(st0.nodes[no].fSize, off + |buf|),
                       WritePages(st0.nodes[no].fSize, st0.pages[no], off, |buf|));
        RewrittenPages(st0, st, no, off, buf, Max(st0.nodes[no].fSize, off + |buf|),
                       WritePages(st0.nodes[no].fSize, st0.pages[no], off, |buf|));
        HealthyWritten(st0, st, count, no, off, buf);
      }
    }

    // ----- make_fs -----

    /** Makes file `name` in `parent` and fills it. */
    method CopyFile(parent: nat, name: seq<Byte>, bytes: seq<Byte>) returns (ok: bool)
      requires Rep() && Healthy(st, count) && 0 < parent <= count && st.nodes[parent].fType == Dir
      modifies Repr()
      ensures ok <==> NodeFits(old(count) + 1, old(Free(st)), old(st).nodes[parent].fSize, HostFile(name, bytes))
      ensures ok ==> |name| <= DENTRY_NAME_LEN && Rep() && Healthy(st, count) && count == old(count) + 1
      ensures ok ==> Free(st) == old(Free(st)) - StepCost(old(st).nodes[parent].fSize, HostFile(name, bytes))
      ensures ok ==> (FilesOf(st, count)
                      == MadeFile(FilesOf(old(st), old(count)), parent, name)[old(count) + 1 := FileView(Regular, bytes)])
      ensures ok ==> Leads(FilesOf(old(st), old(count)), FilesOf(st, count))
    {
      DirInView(st, count, parent);
      FileFits(count + 1, Free(st), st.nodes[parent].fSize, name, bytes);
      FreeMeans(st);
      ghost var st0, count0 := st, count;
      var no;
      ok, no := MakeFile(parent, name);
      if ok {
        DirInView(st, count, no);
        FreeMeans(st);
        ok := WriteFile(no, 0, bytes);
        OverwriteNew(bytes);
        CopiedFileLeads(st0, count0, parent, name, bytes);
      }
    }

    /** Makes directory `name` in `parent` and fills it. */
    method CopyDir(parent: nat, name: seq<Byte>, kids: seq<HostNode>, ghost fs0: seq<FileView>, ghost done: seq<HostNode>)
      returns (ok: bool)
      requires Rep() && Healthy(st, count) && 0 < parent <= count && st.nodes[parent].fType == Dir
      requires Laid(fs0, FilesOf(st, count), parent, done)
      modifies Repr()
      ensures ok <==> NodeFits(old(count) + 1, old(Free(st)), old(st).nodes[parent].fSize, HostDir(name, kids))
      ensures ok ==> Rep() && Healthy(st, count) && count == old(count) + 1 + Size(kids)
      ensures ok ==> Free(st) == old(Free(st)) - StepCost(old(st).nodes[parent].fSize, HostDir(name, kids))
      ensures ok ==> Laid(fs0, FilesOf(st, count), parent, done + [HostDir(name, kids)])
      ensures ok ==> Leads(FilesOf(old(st), old(count)), FilesOf(st, count))
      decreases kids, 1
    {
      ghost var fs1 := FilesOf(st, count);
      DirFits(count + 1, Free(st), st.nodes[parent].fSize, name, kids);
      var junk: FName := *;
      var no;
      ok, no := MakeSubDir(parent, name, junk);
      if ok {
        ghost var fs2 := FilesOf(st, count);
        ok := MakeFs(no, kids);
        if ok {
          LeadsOn(fs1, fs2, FilesOf(st, count));
          LaidDir(fs0, fs1, fs2, FilesOf(st, count), parent, done, name, junk, kids);
        }
      }
    }

    /** make_dir below an existing directory. */
    method MakeSubDir(parent: nat, name: seq<Byte>, junk: FName) returns (ok: bool, no: nat)
      requires Rep() && Healthy(st, count) && 0 < parent <= count && st.nodes[parent].fType == Dir
      modifies Repr()
      ensures ok <==> (|name| <= DENTRY_NAME_LEN && old(count) + 1 < NINO
                       && old(Free(st)) >= 1 + LinkCost(old(st).nodes[parent].fSize))
      ensures ok ==> Rep() && Healthy(st, count) && no == count == old(count) + 1
      ensures ok ==> 0 <= Free(st) == old(Free(st)) - 1 - LinkCost(old(st).nodes[parent].fSize)
      ensures ok ==> st.nodes[no].fType == Dir && st.nodes[no].fSize == NEW_DIR_SIZE
      ensures ok ==> FilesOf(st, count) == MadeDir(FilesOf(old(st), old(count)), parent, name, junk)
      ensures ok ==> Leads(FilesOf(old(st), old(count)), FilesOf(st, count))
    {
      ghost var st0, count0 := st, count;
      DirInView(st, count, parent);
      ok, no := MakeDir(parent, name, junk);
      if ok {
        FreeMeans(st);
        DirInView(st, count, no);
        NewDirDense(no, parent);
        MadeDirLeads(st0, count0, parent, name, junk);
      }
    }

    /** The body of the loop of make_fs. */
    method CopyNode(parent: nat, t: HostNode, ghost fs0: seq<FileView>, ghost done: seq<HostNode>) returns (ok: bool)
      requires Rep() && Healthy(st, count) && 0 < parent <= count && st.nodes[parent].fType == Dir
      requires Laid(fs0, FilesOf(st, count), parent, done)
      modifies Repr()
      ensures ok <==> NodeFits(old(count) + 1, old(Free(st)), old(st).nodes[parent].fSize, t)
      ensures ok ==> Rep() && Healthy(st, count) && count == old(count) + NodeSize(t)
      ensures ok ==> Free(st) == old(Free(st)) - StepCost(old(st).nodes[parent].fSize, t)
      ensures ok ==> Laid(fs0, FilesOf(st, count), parent, done + [t])
      ensures ok ==> Leads(FilesOf(old(st), old(count)), FilesOf(st, count))
      decreases t, 2
    {
      match t
      case HostDir(name, kids) =>
        ok := CopyDir(parent, name, kids, fs0, done);
      case HostFile(name, bytes) =>
        ghost var fs1 := FilesOf(st, count);
        ok := CopyFile(parent, name, bytes);
        if ok {
          LaidFile(fs0, fs1, FilesOf(st, count), parent, done, name, bytes);
        }
      case HostOther(_) =>
        ok := true;
        FreeMeans(st);
        LeadsNowhere(FilesOf(st, count));
    }

    /** Since the files were `fs0`, with `free0` blocks free, `done` was copied into `parent`, then of `size0` bytes. */
    ghost predicate CopiedParts(fs0: seq<FileView>, free0: int, size0: nat, parent: nat, done: seq<HostNode>)
      reads Repr()
    {
      && Rep() && Healthy(st, count) && 0 < parent <= count && st.nodes[parent].fType == Dir
      && st.nodes[parent].fSize == size0 + 128 * Entries(done) && parent < |fs0| && |fs0[parent].bytes| == size0
      && count + 1 == |fs0| + Size(done) && 0 <= Free(st) == free0 - KidsCost(size0, done) && NamesFit(done)
      && Laid(fs0, FilesOf(st, count), parent, done) && Leads(fs0, FilesOf(st, count))
    }

    ghost predicate Copied(fs0: seq<FileView>, free0: int, size0: nat, parent: nat, done: seq<HostNode>)
      reads Repr()
    {
      forall z: nat {:trigger Opened(z)} :: CopiedParts(fs0, free0, size0, parent, done)
    }

    lemma CopiedMeans(fs0: seq<FileView>, free0: int, size0: nat, parent: nat, done: seq<HostNode>)
      requires Copied(fs0, free0, size0, parent, done)
      ensures CopiedParts(fs0, free0, size0, parent, done)
    {
      assert Opened(0);
    }

    method CopyStep(parent: nat, t: HostNode, ghost fs0: seq<FileView>, ghost free0: int, ghost size0: nat,
                    ghost done: seq<HostNode>) returns (ok: bool)
      requires Copied(fs0, free0, size0, parent, done)
      modifies Repr()
      ensures ok ==> Copied(fs0, free0, size0, parent, done + [t])
      ensures !ok ==> !Fits(|fs0|, free0, size0, done + [t])
      decreases t, 3
    {
      CopiedMeans(fs0, free0, size0, parent, done);
      CopiedFits(fs0, free0, size0, parent, done, t);
      ghost var fs1, free1, size1, count1 := FilesOf(st, count), Free(st), st.nodes[parent].fSize, count;
      ok := CopyNode(parent, t, fs0, done);
      if ok {
        LeadsOn(fs0, fs1, FilesOf(st, count));
        CopiedNext(fs0, free0, size0, parent, done, t, free1, count1);
      }
    }

    /** The listing with one more node fits exactly when the node does, after what was copied. */
    lemma CopiedFits(fs0: seq<FileView>, free0: int, size0: nat, parent: nat, done: seq<HostNode>, t: HostNode)
      requires Copied(fs0, free0, size0, parent, done) && parent < NINO
      ensures Fits(|fs0|, free0, size0, done + [t]) <==> NodeFits(count + 1, Free(st), st.nodes[parent].fSize, t)
    {
      CopiedMeans(fs0, free0, size0, parent, done);
      FitsAfter(|fs0|, free0, size0, done, t, count + 1, Free(st), st.nodes[parent].fSize);
    }

    lemma CopiedNext(fs0: seq<FileView>, free0: int, size0: nat, parent: nat, done: seq<HostNode>, t: HostNode,
                     free1: int, count1: nat)
      requires Rep() && Healthy(st, count) && 0 < parent <= count && parent < |fs0| && |fs0[parent].bytes| == size0
      requires Laid(fs0, FilesOf(st, count), parent, done + [t]) && Leads(fs0, FilesOf(st, count))
      requires count1 + 1 == |fs0| + Size(done) && free1 == free0 - KidsCost(size0, done) && NamesFit(done)
      requires NodeNamesFit(t) && count == count1 + NodeSize(t)
      requires Free(st) == free1 - StepCost(size0 + 128 * Entries(done), t)
      ensures Copied(fs0, free0, size0, parent, done + [t])
    {
      SumsLast(size0, done, t);
      DirInView(st, count, parent);
      FreeMeans(st);
    }

    /**
     make_fs: the host listing `kids` is copied into directory `parent`, directories depth first, each as soon as it
     is met. It succeeds exactly when names, inodes and blocks are enough.
     */
    method MakeFs(parent: nat, kids: seq<HostNode>) returns (ok: bool)
      requires Rep() && Healthy(st, count) && 0 < parent <= count && st.nodes[parent].fType == Dir
      modifies Repr()
      ensures ok <==> Fits(old(count) + 1, old(Free(st)), old(st).nodes[parent].fSize, kids)
      ensures ok ==> Rep() && Healthy(st, count) && count == old(count) + Size(kids)
      ensures ok ==> Free(st) == old(Free(st)) - KidsCost(old(st).nodes[parent].fSize, kids)
      ensures ok ==> Laid(FilesOf(old(st), old(count)), FilesOf(st, count), parent, kids)
      ensures ok ==> Leads(FilesOf(old(st), old(count)), FilesOf(st, count))
      decreases kids, 0
    {
      ghost var fs0, free0, size0 := FilesOf(st, count), Free(st), st.nodes[parent].fSize;
      CopiedNone(parent);
      ok := true;
      for i := 0 to |kids|
        invariant ok && Copied(fs0, free0, size0, parent, kids[..i])
      {
        assert kids[..i + 1] == kids[..i] + [kids[i]];
        ok := CopyStep(parent, kids[i], fs0, free0, size0, kids[..i]);
        if !ok {
          if Fits(|fs0|, free0, size0, kids) {
            FitsPrefix(|fs0|, free0, size0, kids, i + 1);
          }
          return;
        }
      }
      assert kids[..|kids|] == kids;
      CopiedMeans(fs0, free0, size0, parent, kids);
    }

    lemma CopiedNone(parent: nat)
      requires Rep() && Healthy(st, count) && 0 < parent <= count && st.nodes[parent].fType == Dir
      ensures Copied(FilesOf(st, count), Free(st), st.nodes[parent].fSize, parent, [])
    {
      InodeFact(st, count, parent);
      DirInView(st, count, parent);
      FreeMeans(st);
      LeadsNowhere(FilesOf(st, count));
    }
  }

  /** The state the constructor leaves is sound: nothing is in use. */
  lemma EmptyHealthy(disk: seq<Block>, lo: nat, hi: nat)
    requires |disk| == NBLK && 0 < lo <= hi <= NBLK
    ensures var st := EmptyState(disk, lo, hi);
      && Healthy(st, 0) && Free(st) == hi - lo && FilesOf(st, 0) == [FileView(NoType, [])]
  {
    var st := EmptyState(disk, lo, hi);
    forall i: Ino, s: Slot ensures SlotOwned(st, i, s) {}
    forall i: Ino ensures Sound(st, i) && InodeSound(st, 0, i) {
      forall k: nat ensures ByteAt(st, i, k) == 0 {}
    }
  }

  /**
   The ParchFS constructor to its end: an empty file system with a root directory, whose parent is itself. One free
   block is all it needs.
   */
  method Boot(bin: array<Block>, eKernel: nat, sReserve: nat) returns (ok: bool, fs: ParchFS)
    requires bin.Length == NBLK && Layout(eKernel, sReserve)
    modifies bin
    ensures ok <==> Pa2Blk(sReserve) - Pa2Blk(eKernel) > 2
    ensures ok ==> fs.Rep() && Healthy(fs.st, fs.count) && fs.count == 1 && fresh(fs.Repr() - {bin})
    ensures ok ==> Free(fs.st) == Pa2Blk(sReserve) - Pa2Blk(eKernel) - 3
    ensures ok ==> fs.slack == Slack(eKernel, sReserve)
    ensures ok ==> fs.lo == Pa2Blk(eKernel) + 1 && fs.hi == Pa2Blk(sReserve) - 1
    ensures ok ==> FilesOf(fs.st, 1) == AtStart()
  {
    EmptyHealthy(bin[..], Pa2Blk(eKernel) + 1, Pa2Blk(sReserve) - 1);
    fs := new ParchFS(bin, eKernel, sReserve);
    var no;
    ok, no := fs.MakeDir(1, [], Zeros(DENTRY_NAME_LEN));
    ok := ok && no == 1;
  }

  /**
   The whole program: the host listing `kids` becomes the root directory of a fresh image. It succeeds exactly when
   names, inodes and blocks are enough, and then a reader starting at inode 1 finds exactly the host's tree.
   */
  method BuildImage(bin: array<Block>, eKernel: nat, sReserve: nat, kids: seq<HostNode>)
    returns (ok: bool, fs: ParchFS, ghost at: seq<Place>)
    requires bin.Length == NBLK && Layout(eKernel, sReserve)
    modifies bin
    ensures ok <==> Fits(2, Pa2Blk(sReserve) - Pa2Blk(eKernel) - 3, NEW_DIR_SIZE, kids)
    ensures ok ==> fs.Rep() && Healthy(fs.st, fs.count) && fs.count == 1 + Size(kids)
    ensures ok ==> fs.slack == Slack(eKernel, sReserve)
    ensures ok ==> forall b: nat :: b < NBLK ==>
      (fs.fsBitmap.Get(b) <==> !(Pa2Blk(sReserve) - 1 - Free(fs.st) <= b < Pa2Blk(sReserve) - 1))
    ensures ok ==> Leads(AtStart(), FilesOf(fs.st, fs.count)) && Shape(Dirs(FilesOf(fs.st, fs.count)), at)
    ensures ok ==> forall fuel: nat :: fuel >= Depth(kids) ==>
      ReadDir(FilesOf(fs.st, fs.count), 1, fuel) == Some(Prune(kids))
  {
    at := [];
    ok, fs := Boot(bin, eKernel, sReserve);
    if ok {
      NewDirDense(1, 1);
      DirInView(fs.st, fs.count, 1);
      ghost var fs0 := FilesOf(fs.st, fs.count);
      ok := fs.MakeFs(1, kids);
      if ok {
        forall b: nat | b < NBLK
          ensures fs.fsBitmap.Get(b) <==> !(fs.hi - Free(fs.st) <= b < fs.hi)
        {
          fs.BlocksInUse(b);
        }
        at := ShapeAtStart();
        at := LeadsToShape(fs0, FilesOf(fs.st, fs.count), at);
        forall fuel: nat | fuel >= Depth(kids)
          ensures ReadDir(FilesOf(fs.st, fs.count), 1, fuel) == Some(Prune(kids))
        {
          RootReads(fs0, FilesOf(fs.st, fs.count), kids, fuel);
        }
      }
    }
  }

  /** No block that is handed out overlaps the kernel or the reserved range. */
  lemma ManagedOutside(eKernel: nat, sReserve: nat, b: nat)
    requires Layout(eKernel, sReserve) && Pa2Blk(eKernel) + 1 <= b < Pa2Blk(sReserve) - 1
    ensures eKernel < 0x8000_0000 + 4096 * b && 0x8000_0000 + 4096 * (b + 1) <= sReserve <= 0xFFDD_E000
  {}

  /** The counter starts above the number of clear bits, by two or by one. */
  lemma FreeAtStart(eKernel: nat, sReserve: nat)
    requires Layout(eKernel, sReserve)
    ensures (sReserve - eKernel) / BLK_SIZE ==
      (Pa2Blk(sReserve) - 1) - (Pa2Blk(eKernel) + 1) + Slack(eKernel, sReserve)
  {}
}
