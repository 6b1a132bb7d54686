/** Inodes as files: sizes, contents, and what one creating call or one store does to them. */
module Files {
  import opened Bytes
  import opened Dentries
  import opened Folding
  import opened Image
  import opened Slots

  // ----- states with the same block trees -----

  ghost predicate SameTree(st: State, st': State) {
    && st'.disk == st.disk
    && forall i: Ino {:trigger st'.nodes[i]} ::
         && st'.nodes[i].direct == st.nodes[i].direct
         && st'.nodes[i].indirect == st.nodes[i].indirect && st'.nodes[i].indirect2 == st.nodes[i].indirect2
  }

  lemma AtSameTree(st: State, st': State, ino: Ino, t: Slot)
    requires SameTree(st, st')
    ensures At(st', ino, t) == At(st, ino, t)
  {
    if !InInode(t) {
      AtSameBox(st, st', ino, t);
    }
  }

  lemma OwnedSameTree(st: State, st': State)
    requires SameTree(st, st') && Owned(st)
    requires st'.owner == st.owner && st'.fill == st.fill && st'.lo == st.lo && st'.hi == st.hi
    ensures Owned(st')
  {
    forall ino: Ino, t: Slot ensures SlotOwned(st', ino, t) {
      SlotFact(st, ino, t);
      AtSameTree(st, st', ino, t);
    }
    forall b: nat | b in st'.owner
      ensures st'.lo <= b < st'.hi && At(st', st'.owner[b].ino, st'.owner[b].slot) == b
    {
      OwnerFact(st, b);
      AtSameTree(st, st', st.owner[b].ino, st.owner[b].slot);
    }
  }

  ghost function WithSize(st: State, ino: Ino, size: nat): State {
    WithNode(st, ino, Sized(st.nodes[ino], size))
  }

  function Sized(n: INode, size: nat): INode {
    INode(n.fType, n.direct, n.indirect, n.indirect2, size)
  }

  ghost function WithPages(st: State, ino: Ino, n: nat): State {
    RawState(st.disk, st.nodes, st.lo, st.hi, st.owner, st.fill, st.pages[ino := n])
  }

  // ----- soundness of every inode -----

  ghost predicate Listed(ino: Ino) { true }

  /** Pages up to the end of the file are there, unless none is and the size is below one page. */
  ghost predicate Covered(size: nat, n: nat) {
    size / BLK_SIZE < n || (n == 0 && size < BLK_SIZE)
  }

  /** Nothing but zeroes stands past the end of the file. */
  ghost predicate ZeroTail(st: State, ino: Ino) {
    forall k: nat {:trigger Placed(ino, k)} :: k >= st.nodes[ino].fSize ==> ByteAt(st, ino, k) == 0
  }

  ghost predicate Sound(st: State, ino: Ino) {
    st.fill[ino] == FillOf(st.pages[ino]) && Covered(st.nodes[ino].fSize, st.pages[ino]) && ZeroTail(st, ino)
  }

  /** The invariant of the block layer. */
  ghost predicate Core(st: State) {
    Owned(st) && forall ino: Ino {:trigger Listed(ino)} :: Sound(st, ino)
  }

  lemma SoundFact(st: State, ino: Ino)
    requires Core(st)
    ensures Sound(st, ino)
  {
    assert Listed(ino);
  }

  /**
   What a creating call leaves: inode `ino` has `n` pages and at least `size` bytes; every mapping, every byte and
   every other inode is as before; exactly the blocks needed are taken.
   */
  ghost predicate Extended(st: State, st': State, ino: Ino, size: nat, n: nat) {
    && Owned(st')
    && st'.pages == st.pages[ino := n] && st'.fill == st.fill[ino := FillOf(n)]
    && 0 <= Free(st') == Free(st) - (FillOf(n) - st.fill[ino])
    && SameBytes(st, st') && Stable(st, st') && Consecutive(st, st', ino)
    && st'.lo == st.lo && st'.hi == st.hi
    && (forall i: Ino {:trigger st'.nodes[i]} :: st'.nodes[i].fType == st.nodes[i].fType
                        && st'.nodes[i].fSize == if i == ino then size else st.nodes[i].fSize)
  }

  lemma ConsecutiveByGrowth(st: State, st2: State, ino: Ino, size: nat, n: nat)
    requires Consecutive(WithSize(st, ino, size), st2, ino)
    ensures Consecutive(st, WithPages(st2, ino, n), ino)
  {
    forall s: Slot ensures At(WithPages(st2, ino, n), ino, s) == At(st2, ino, s) {
      AtSameTree(st2, WithPages(st2, ino, n), ino, s);
    }
    ConsecutiveSame(WithSize(st, ino, size), st2, st, WithPages(st2, ino, n), ino);
  }

  lemma ExtendedByGrowth(st: State, st2: State, ino: Ino, size: nat, n: nat)
    requires Core(st) && Grew(WithSize(st, ino, size), st2, ino, FillOf(n))
    ensures Extended(st, WithPages(st2, ino, n), ino, size, n)
  {
    ConsecutiveByGrowth(st, st2, ino, size, n);
    var st1 := WithSize(st, ino, size);
    var st' := WithPages(st2, ino, n);
    OwnedSameTree(st2, st');
    assert SameBytes(st, st') by {
      forall i: Ino, k: nat ensures ByteAt(st', i, k) == ByteAt(st, i, k) {
        assert Placed(i, k);
      }
    }
    assert Stable(st, st') by {
      forall i: Ino, t: Slot ensures At(st, i, t) != 0 ==> At(st', i, t) == At(st, i, t) {
        AtSameTree(st, st1, i, t);
        assert Slotted(i, t);
        AtSameTree(st2, st', i, t);
      }
    }
    forall i: Ino
      ensures st'.nodes[i].fType == st.nodes[i].fType
      ensures st'.nodes[i].fSize == if i == ino then size else st.nodes[i].fSize
    {
      assert st2.nodes[i].fSize == st1.nodes[i].fSize;
    }
  }

  /** A creating call keeps the invariant. */
  lemma ExtendedCore(st: State, st': State, ino: Ino, size: nat, n: nat)
    requires Core(st) && Extended(st, st', ino, size, n)
    requires st.nodes[ino].fSize <= size && Covered(size, n)
    ensures Core(st')
  {
    forall i: Ino ensures Sound(st', i) {
      SoundFact(st, i);
      assert st'.nodes[i].fSize >= st.nodes[i].fSize;
      forall k: nat | k >= st'.nodes[i].fSize ensures ByteAt(st', i, k) == 0 {
        assert Placed(i, k);
      }
    }
  }

  lemma WithSizeOwned(st: State, ino: Ino, size: nat)
    requires Owned(st)
    ensures Owned(WithSize(st, ino, size))
  {
    OwnedSameTree(st, WithSize(st, ino, size));
  }

  // ----- a store into a data page -----

  /** The page of `ino` that byte `off` is in is there, and `bytes` fit into it from `off` on. */
  ghost predicate FitsPage(st: State, ino: Ino, off: nat, bytes: seq<Byte>) {
    && Owned(st) && off / BLK_SIZE < MAX_PAGES && off % BLK_SIZE + |bytes| <= BLK_SIZE
    && At(st, ino, PageSlot(off / BLK_SIZE)) != 0
  }

  lemma PageInRange(st: State, ino: Ino, p: nat)
    requires Owned(st) && p < MAX_PAGES && At(st, ino, PageSlot(p)) != 0
    ensures var c := At(st, ino, PageSlot(p)); c in st.owner && 0 < c < NBLK && st.lo <= c < st.hi
  {
    SlotFact(st, ino, PageSlot(p));
    OwnerFact(st, At(st, ino, PageSlot(p)));
  }

  /** The state after `bytes` are copied to offset `off` of the file, inside one page. */
  ghost function PageStored(st: State, ino: Ino, off: nat, bytes: seq<Byte>): State
    requires FitsPage(st, ino, off, bytes)
  {
    PageInRange(st, ino, off / BLK_SIZE);
    WithBytes(st, At(st, ino, PageSlot(off / BLK_SIZE)), off % BLK_SIZE, bytes)
  }

  lemma AtPageStored(st: State, ino: Ino, off: nat, bytes: seq<Byte>, i: Ino, t: Slot)
    requires FitsPage(st, ino, off, bytes)
    ensures At(PageStored(st, ino, off, bytes), i, t) == At(st, i, t)
  {
    var s := PageSlot(off / BLK_SIZE);
    PageInRange(st, ino, off / BLK_SIZE);
    PageIsNotBox(st, i, t, ino, s);
  }

  lemma OwnedPageStored(st: State, ino: Ino, off: nat, bytes: seq<Byte>)
    requires FitsPage(st, ino, off, bytes)
    ensures Owned(PageStored(st, ino, off, bytes))
  {
    var st' := PageStored(st, ino, off, bytes);
    forall i: Ino, t: Slot ensures SlotOwned(st', i, t) {
      SlotFact(st, i, t);
      AtPageStored(st, ino, off, bytes, i, t);
    }
    forall b: nat | b in st'.owner
      ensures st'.lo <= b < st'.hi && At(st', st'.owner[b].ino, st'.owner[b].slot) == b
    {
      OwnerFact(st, b);
      AtPageStored(st, ino, off, bytes, st.owner[b].ino, st.owner[b].slot);
    }
  }

  /** Bytes of a file with [off, off + |bytes|) overwritten. */
  ghost function Patched(was: Byte, off: nat, bytes: seq<Byte>, k: nat): Byte {
    if off <= k < off + |bytes| then bytes[k - off] else was
  }

  /** A page holds one page of one file: the store shows there and nowhere else. */
  lemma ByteAtPageStored(st: State, ino: Ino, off: nat, bytes: seq<Byte>, i: Ino, k: nat)
    requires FitsPage(st, ino, off, bytes)
    ensures ByteAt(PageStored(st, ino, off, bytes), i, k) ==
            if i == ino then Patched(ByteAt(st, i, k), off, bytes, k) else ByteAt(st, i, k)
  {
    PageInRange(st, ino, off / BLK_SIZE);
    if k / BLK_SIZE < MAX_PAGES {
      var s := PageSlot(off / BLK_SIZE);
      var t := PageSlot(k / BLK_SIZE);
      AtPageStored(st, ino, off, bytes, i, t);
      SlotFact(st, ino, s);
      SlotFact(st, i, t);
      if t == s {
        PageSlotInjective(off / BLK_SIZE, k / BLK_SIZE);
      }
    }
  }

  // ----- INode::write -----

  /**
   Since `st`, `bytes` have been written at `off` of inode `ino`, whose size is now `size` and which has `n` pages;
   every other byte of every file is as before.
   */
  ghost predicate RewrittenParts(st: State, st': State, ino: Ino, off: nat, bytes: seq<Byte>, size: nat, n: nat) {
    && Core(st') && Stable(st, st') && Consecutive(st, st', ino)
    && (forall i: Ino, k: nat {:trigger Placed(i, k)} :: ByteAt(st', i, k) ==
          if i == ino then Patched(ByteAt(st, i, k), off, bytes, k) else ByteAt(st, i, k))
    && st'.pages == st.pages[ino := n] && st'.fill == st.fill[ino := FillOf(n)]
    && 0 <= Free(st') == Free(st) - (FillOf(n) - st.fill[ino])
    && st'.lo == st.lo && st'.hi == st.hi
    && (forall i: Ino {:trigger st'.nodes[i]} :: st'.nodes[i].fType == st.nodes[i].fType
                        && st'.nodes[i].fSize == if i == ino then size else st.nodes[i].fSize)
  }

  ghost predicate Rewritten(st: State, st': State, ino: Ino, off: nat, bytes: seq<Byte>, size: nat, n: nat) {
    forall z: nat {:trigger Opened(z)} :: RewrittenParts(st, st', ino, off, bytes, size, n)
  }

  lemma RewrittenMeans(st: State, st': State, ino: Ino, off: nat, bytes: seq<Byte>, size: nat, n: nat)
    requires Rewritten(st, st', ino, off, bytes, size, n)
    ensures RewrittenParts(st, st', ino, off, bytes, size, n)
  {
    assert Opened(0);
  }

  /** The inode and the free blocks. */
  lemma RewrittenFacts(st: State, st': State, ino: Ino, off: nat, bytes: seq<Byte>, size: nat, n: nat)
    requires Rewritten(st, st', ino, off, bytes, size, n)
    ensures Core(st') && st'.pages[ino] == n && st'.fill[ino] == FillOf(n)
    ensures st'.nodes[ino].fSize == size && st'.nodes[ino].fType == st.nodes[ino].fType
    ensures 0 <= Free(st') == Free(st) - (FillOf(n) - st.fill[ino])
  {
    RewrittenMeans(st, st', ino, off, bytes, size, n);
  }

  /** No other inode's pages. */
  lemma RewrittenPages(st: State, st': State, ino: Ino, off: nat, bytes: seq<Byte>, size: nat, n: nat)
    requires Rewritten(st, st', ino, off, bytes, size, n)
    ensures st'.pages[ino] == n && SamePages(st, st', ino)
  {
    RewrittenMeans(st, st', ino, off, bytes, size, n);
  }

  ghost predicate SamePages(st: State, st': State, ino: nat) {
    forall i: Ino {:trigger st'.pages[i]} {:trigger Listed(i)} :: i != ino ==> st'.pages[i] == st.pages[i]
  }

  /** The blocks a write takes, index blocks included: the lowest free ones, in the order the tree is filled. */
  lemma RewrittenBlocks(st: State, st': State, ino: Ino, off: nat, bytes: seq<Byte>, size: nat, n: nat, s: Slot)
    requires Rewritten(st, st', ino, off, bytes, size, n) && st.fill[ino] <= Rank(s) < FillOf(n)
    ensures At(st', ino, s) == st.hi - Free(st) + (Rank(s) - st.fill[ino])
  {
    RewrittenMeans(st, st', ino, off, bytes, size, n);
    ConsecutiveFact(st, st', ino, s);
  }

  lemma RewrittenNone(st: State, ino: Ino, off: nat)
    requires Core(st)
    ensures Rewritten(st, st, ino, off, [], st.nodes[ino].fSize, st.pages[ino])
  {
    SoundFact(st, ino);
    FreeMeans(st);
    forall i: Ino, k: nat ensures ByteAt(st, i, k) ==
          if i == ino then Patched(ByteAt(st, i, k), off, [], k) else ByteAt(st, i, k)
    {}
  }

  /** A creating call within or past the end of what was written. */
  lemma RewrittenExtended(st: State, st1: State, st2: State, ino: Ino, off: nat, bytes: seq<Byte>,
                          size: nat, n: nat, size': nat, n': nat)
    requires Rewritten(st, st1, ino, off, bytes, size, n) && Extended(st1, st2, ino, size', n') && Core(st2)
    ensures Rewritten(st, st2, ino, off, bytes, size', n')
  {
    RewrittenMeans(st, st1, ino, off, bytes, size, n);
    ConsecutiveTrans(st, st1, st2, ino);
    forall i: Ino, k: nat ensures ByteAt(st2, i, k) ==
          if i == ino then Patched(ByteAt(st, i, k), off, bytes, k) else ByteAt(st, i, k)
    {
      assert Placed(i, k);
    }
    forall i: Ino, t: Slot ensures At(st, i, t) != 0 ==> At(st2, i, t) == At(st, i, t) {
      assert Slotted(i, t);
    }
    forall i: Ino
      ensures st2.nodes[i].fType == st.nodes[i].fType
      ensures st2.nodes[i].fSize == if i == ino then size' else st.nodes[i].fSize
    {
      assert st1.nodes[i].fSize == if i == ino then size else st.nodes[i].fSize;
    }
  }

  lemma StoredBytes(st: State, st1: State, ino: Ino, off: nat, bytes: seq<Byte>, size: nat, n: nat, chunk: seq<Byte>)
    requires RewrittenParts(st, st1, ino, off, bytes, size, n) && FitsPage(st1, ino, off + |bytes|, chunk)
    ensures var st2 := PageStored(st1, ino, off + |bytes|, chunk);
      forall i: Ino, k: nat :: ByteAt(st2, i, k) ==
        if i == ino then Patched(ByteAt(st, i, k), off, bytes + chunk, k) else ByteAt(st, i, k)
  {
    var st2 := PageStored(st1, ino, off + |bytes|, chunk);
    forall i: Ino, k: nat ensures ByteAt(st2, i, k) ==
        if i == ino then Patched(ByteAt(st, i, k), off, bytes + chunk, k) else ByteAt(st, i, k)
    {
      assert Placed(i, k);
      ByteAtPageStored(st1, ino, off + |bytes|, chunk, i, k);
    }
  }

  lemma StoredConsecutive(st: State, st1: State, ino: Ino, off: nat, chunk: seq<Byte>)
    requires Consecutive(st, st1, ino) && FitsPage(st1, ino, off, chunk)
    ensures Consecutive(st, PageStored(st1, ino, off, chunk), ino)
  {
    var st2 := PageStored(st1, ino, off, chunk);
    forall s: Slot ensures At(st2, ino, s) == At(st1, ino, s) {
      AtPageStored(st1, ino, off, chunk, ino, s);
    }
    ConsecutiveSame(st, st1, st, st2, ino);
  }

  lemma StoredStable(st: State, st1: State, ino: Ino, off: nat, chunk: seq<Byte>)
    requires Stable(st, st1) && FitsPage(st1, ino, off, chunk)
    ensures Stable(st, PageStored(st1, ino, off, chunk))
  {
    forall i: Ino, t: Slot
      ensures At(st, i, t) != 0 ==> At(PageStored(st1, ino, off, chunk), i, t) == At(st, i, t)
    {
      assert Slotted(i, t);
      AtPageStored(st1, ino, off, chunk, i, t);
    }
  }

  /** One memcpy, next to what was written and inside the file. */
  lemma RewrittenStored(st: State, st1: State, ino: Ino, off: nat, bytes: seq<Byte>, size: nat, n: nat, chunk: seq<Byte>)
    requires Rewritten(st, st1, ino, off, bytes, size, n) && FitsPage(st1, ino, off + |bytes|, chunk)
    requires off + |bytes| + |chunk| <= size
    ensures Rewritten(st, PageStored(st1, ino, off + |bytes|, chunk), ino, off, bytes + chunk, size, n)
  {
    RewrittenMeans(st, st1, ino, off, bytes, size, n);
    StoredBytes(st, st1, ino, off, bytes, size, n, chunk);
    StoredStable(st, st1, ino, off + |bytes|, chunk);
    StoredConsecutive(st, st1, ino, off + |bytes|, chunk);
    CorePageStored(st1, ino, off + |bytes|, chunk);
    var st2 := PageStored(st1, ino, off + |bytes|, chunk);
    assert Free(st2) == Free(st1);
    forall i: Ino
      ensures st2.nodes[i].fType == st.nodes[i].fType
      ensures st2.nodes[i].fSize == if i == ino then size else st.nodes[i].fSize
    {
      assert st1.nodes[i].fSize == if i == ino then size else st.nodes[i].fSize;
    }
  }

  lemma CorePageStored(st: State, ino: Ino, off: nat, bytes: seq<Byte>)
    requires Core(st) && FitsPage(st, ino, off, bytes) && off + |bytes| <= st.nodes[ino].fSize
    ensures Core(PageStored(st, ino, off, bytes))
  {
    var st' := PageStored(st, ino, off, bytes);
    OwnedPageStored(st, ino, off, bytes);
    forall i: Ino ensures Sound(st', i) {
      SoundFact(st, i);
      forall k: nat | k >= st'.nodes[i].fSize ensures ByteAt(st', i, k) == 0 {
        assert Placed(i, k);
        ByteAtPageStored(st, ino, off, bytes, i, k);
      }
    }
  }

  // ----- how many pages a write leaves -----

  /** `copy_len`: up to the end of the page. */
  function ChunkLen(off: nat, len: nat): (r: nat)
    ensures len > 0 ==> 0 < r <= len && off % BLK_SIZE + r <= BLK_SIZE
  {
    if len > BLK_SIZE - off % BLK_SIZE then BLK_SIZE - off % BLK_SIZE else len
  }

  /** Pages after the copy loop, one creating call a chunk. */
  function ChunkPages(n: nat, off: nat, len: nat): (r: nat)
    ensures n <= r
    decreases len
  {
    if len == 0 then n
    else ChunkPages(GrowPages(n, off / BLK_SIZE), off + ChunkLen(off, len), len - ChunkLen(off, len))
  }

  /** `done` of the bytes `buf` is written, `rest` is to come from `cur` on; `n` pages have become `m`. */
  ghost predicate Halfway(off: nat, buf: seq<Byte>, n: nat, cur: nat, done: seq<Byte>, rest: seq<Byte>, m: nat) {
    forall z: nat {:trigger Opened(z)} ::
      cur == off + |done| && done + rest == buf && ChunkPages(m, cur, |rest|) == ChunkPages(n, off, |buf|)
  }

  lemma HalfwayStep(off: nat, buf: seq<Byte>, n: nat, cur: nat, done: seq<Byte>, rest: seq<Byte>, m: nat, c: nat)
    requires Halfway(off, buf, n, cur, done, rest, m) && |rest| > 0 && c == ChunkLen(cur, |rest|)
    ensures cur == off + |done| && 0 < c <= |rest| && cur % BLK_SIZE + c <= BLK_SIZE && cur + c <= off + |buf|
    ensures Halfway(off, buf, n, cur + c, done + rest[..c], rest[c..], GrowPages(m, cur / BLK_SIZE))
    ensures FillOf(GrowPages(m, cur / BLK_SIZE)) <= FillOf(ChunkPages(n, off, |buf|))
  {
    assert Opened(0);
    assert done + rest[..c] + rest[c..] == done + rest;
  }

  lemma HalfwayEnd(off: nat, buf: seq<Byte>, n: nat, cur: nat, done: seq<Byte>, m: nat)
    requires Halfway(off, buf, n, cur, done, [], m)
    ensures done == buf && m == ChunkPages(n, off, |buf|)
  {
    assert Opened(0);
    assert done + [] == done;
  }

  /** Pages after `write`. */
  function WritePages(size: nat, n: nat, off: nat, len: nat): (r: nat)
    ensures n <= r
  {
    ChunkPages(if off + len >= size then GrowPages(n, (off + len) / BLK_SIZE) else n, off, len)
  }

  /** Chunks of a write that fall into the double-indirect tier, from page `first` to page `last`. */
  function DoubleTierChunks(first: nat, last: nat): nat
    requires first <= last
  {
    if last < SINGLE_END then 0 else if first < SINGLE_END then last + 1 - SINGLE_END else last + 1 - first
  }

  lemma NextChunk(off: nat, len: nat)
    requires len > ChunkLen(off, len)
    ensures (off + ChunkLen(off, len)) / BLK_SIZE == off / BLK_SIZE + 1
  {}

  /** Over pages that are there, the copy loop still adds one page for each chunk in the double-indirect tier. */
  lemma {:induction false} ChunkPagesClosed(n: nat, off: nat, len: nat)
    requires len > 0 && (off + len) / BLK_SIZE < n
    ensures ChunkPages(n, off, len) == n + DoubleTierChunks(off / BLK_SIZE, (off + len - 1) / BLK_SIZE)
    decreases len
  {
    var c := ChunkLen(off, len);
    var n' := GrowPages(n, off / BLK_SIZE);
    assert n' == n + if off / BLK_SIZE < SINGLE_END then 0 else 1;
    if len > c {
      NextChunk(off, len);
      ChunkPagesClosed(n', off + c, len - c);
    } else {
      assert ChunkPages(n', off + c, 0) == n';
    }
  }

  /** Pages of a fresh file of `n` bytes. */
  lemma FreshWritePages(n: nat)
    ensures WritePages(0, 0, 0, n) ==
      if n < SINGLE_END * BLK_SIZE then n / BLK_SIZE + 1
      else n / BLK_SIZE + 2 + ((n + BLK_SIZE - 1) / BLK_SIZE - SINGLE_END)
  {
    if n > 0 {
      ChunkPagesClosed(GrowPages(0, n / BLK_SIZE), 0, n);
    }
  }

  // ----- INode::read -----

  /** `buf` is what the file holds from `off` on. */
  ghost predicate IsPart(st: State, ino: Ino, off: nat, buf: seq<Byte>) {
    forall k: nat {:trigger Placed(ino, k)} :: k < |buf| ==> buf[k] == ByteAt(st, ino, off + k)
  }

  lemma PartMeans(st: State, ino: Ino, off: nat, buf: seq<Byte>)
    requires IsPart(st, ino, off, buf)
    ensures forall k: nat :: k < |buf| ==> buf[k] == ByteAt(st, ino, off + k)
  {
    forall k: nat | k < |buf| ensures buf[k] == ByteAt(st, ino, off + k) {
      assert Placed(ino, k);
    }
  }

  /** Bytes of one page. */
  lemma PartOfPage(st: State, ino: Ino, off: nat, len: nat, blk: BlockNo)
    requires off % BLK_SIZE + len <= BLK_SIZE && off / BLK_SIZE < MAX_PAGES
    requires blk == At(st, ino, PageSlot(off / BLK_SIZE)) && 0 < blk < NBLK
    ensures IsPart(st, ino, off, st.disk[blk][off % BLK_SIZE..off % BLK_SIZE + len])
  {
    var part := st.disk[blk][off % BLK_SIZE..off % BLK_SIZE + len];
    forall k: nat | k < |part| ensures part[k] == ByteAt(st, ino, off + k) {}
  }

  lemma PartAppend(st: State, ino: Ino, off: nat, buf: seq<Byte>, chunk: seq<Byte>)
    requires IsPart(st, ino, off, buf) && IsPart(st, ino, off + |buf|, chunk)
    ensures IsPart(st, ino, off, buf + chunk)
  {
    PartMeans(st, ino, off, buf);
    PartMeans(st, ino, off + |buf|, chunk);
    forall k: nat | k < |buf + chunk| ensures (buf + chunk)[k] == ByteAt(st, ino, off + k) {
      if k >= |buf| {
        assert off + |buf| + (k - |buf|) == off + k;
      }
    }
  }

  // ----- files as values -----

  datatype FileView = FileView(fType: FType, bytes: seq<Byte>)

  ghost function Content(st: State, ino: Ino): (c: seq<Byte>)
    ensures |c| == st.nodes[ino].fSize
    ensures forall k | 0 <= k < |c| :: c[k] == ByteAt(st, ino, k)
  {
    seq(st.nodes[ino].fSize, k requires k >= 0 => ByteAt(st, ino, k))
  }

  ghost function View(st: State, ino: Ino): FileView {
    FileView(st.nodes[ino].fType, Content(st, ino))
  }

  /** All files, by inode number; slot 0 stands for BAD_INODE. */
  ghost function FilesOf(st: State, count: nat): (fs: seq<FileView>)
    requires count < NINO
    ensures |fs| == count + 1
    ensures forall i | 0 <= i <= count :: fs[i] == View(st, i)
  {
    seq(count + 1, i requires 0 <= i <= count => View(st, i))
  }

  lemma ByteOfContent(st: State, ino: Ino, k: nat)
    requires Sound(st, ino)
    ensures ByteOf(Content(st, ino), k) == ByteAt(st, ino, k)
  {
    assert Placed(ino, k);
  }

  ghost function OverwriteFile(f: FileView, off: nat, bytes: seq<Byte>): FileView {
    FileView(f.fType, Overwrite(f.bytes, off, bytes))
  }

  lemma ViewRewritten(st: State, st': State, i: Ino, ino: Ino, off: nat, bytes: seq<Byte>, n: nat)
    requires Core(st) && Rewritten(st, st', ino, off, bytes, Max(st.nodes[ino].fSize, off + |bytes|), n)
    ensures View(st', i) == if i == ino then OverwriteFile(View(st, i), off, bytes) else View(st, i)
  {
    RewrittenMeans(st, st', ino, off, bytes, Max(st.nodes[ino].fSize, off + |bytes|), n);
    SoundFact(st, i);
    assert st'.nodes[i].fType == st.nodes[i].fType;
    var c := if i == ino then Overwrite(Content(st, i), off, bytes) else Content(st, i);
    assert |Content(st', i)| == |c|;
    forall k | 0 <= k < |c| ensures Content(st', i)[k] == c[k] {
      assert Placed(i, k);
      ByteOfContent(st, i, k);
    }
    assert Content(st', i) == c;
  }

  /** `write`, seen from outside: one file overwritten, all others the same. */
  lemma FilesRewritten(st: State, st': State, count: nat, ino: Ino, off: nat, bytes: seq<Byte>, n: nat)
    requires Core(st) && ino <= count < NINO
    requires Rewritten(st, st', ino, off, bytes, Max(st.nodes[ino].fSize, off + |bytes|), n)
    ensures FilesOf(st', count) == FilesOf(st, count)[ino := OverwriteFile(View(st, ino), off, bytes)]
  {
    forall i: Ino | i <= count
      ensures View(st', i) == if i == ino then OverwriteFile(View(st, i), off, bytes) else View(st, i)
    {
      ViewRewritten(st, st', i, ino, off, bytes, n);
    }
  }

  // ----- directory slots -----

  /** A slot lies inside one block. */
  lemma SlotPlace(i: nat, t: nat)
    requires t < 128
    ensures (128 * i + t) / BLK_SIZE == 128 * i / BLK_SIZE
    ensures (128 * i + t) % BLK_SIZE == 128 * i % BLK_SIZE + t
    ensures 128 * i % BLK_SIZE == i % 32 * 128 && 128 * i % BLK_SIZE + 128 <= BLK_SIZE
  {}

  lemma ByteInBlock(st: State, ino: Ino, k: nat, blk: BlockNo)
    requires Sound(st, ino) && k / BLK_SIZE < MAX_PAGES && blk == At(st, ino, PageSlot(k / BLK_SIZE)) && 0 < blk < NBLK
    ensures ByteOf(Content(st, ino), k) == st.disk[blk][k % BLK_SIZE]
  {
    ByteOfContent(st, ino, k);
  }

  lemma ByteOfSlot(st: State, ino: Ino, i: nat, t: nat, blk: BlockNo, at: nat)
    requires Sound(st, ino) && 128 * i / BLK_SIZE < MAX_PAGES && t < 128 && at == 128 * i % BLK_SIZE
    requires blk == At(st, ino, PageSlot(128 * i / BLK_SIZE)) && 0 < blk < NBLK
    ensures at + 128 <= BLK_SIZE && ByteOf(Content(st, ino), 128 * i + t) == st.disk[blk][at + t]
  {
    SlotPlace(i, t);
    ByteInBlock(st, ino, 128 * i + t, blk);
  }

  lemma BlankByBytes(c: seq<Byte>, i: nat, b: Block, at: nat)
    requires at + 128 <= BLK_SIZE
    requires ByteOf(c, 128 * i) == b[at] && ByteOf(c, 128 * i + 1) == b[at + 1]
    requires ByteOf(c, 128 * i + 2) == b[at + 2] && ByteOf(c, 128 * i + 3) == b[at + 3]
    ensures Val4(b[at], b[at + 1], b[at + 2], b[at + 3]) == 0 <==> Blank(c, i)
  {
    Val4Zero(b[at], b[at + 1], b[at + 2], b[at + 3]);
  }

  /** The inode number of slot `i`, read from the block the slot is in. */
  lemma SlotInBlock(st: State, ino: Ino, i: nat, blk: BlockNo, at: nat)
    requires Sound(st, ino) && 128 * i / BLK_SIZE < MAX_PAGES && at == 128 * i % BLK_SIZE
    requires blk == At(st, ino, PageSlot(128 * i / BLK_SIZE)) && 0 < blk < NBLK
    ensures var b := st.disk[blk];
      at + 128 <= BLK_SIZE && (Val4(b[at], b[at + 1], b[at + 2], b[at + 3]) == 0 <==> Blank(Content(st, ino), i))
  {
    ByteOfSlot(st, ino, i, 0, blk, at);
    ByteOfSlot(st, ino, i, 1, blk, at);
    ByteOfSlot(st, ino, i, 2, blk, at);
    ByteOfSlot(st, ino, i, 3, blk, at);
    BlankByBytes(Content(st, ino), i, st.disk[blk], at);
  }

  lemma ByteOfRewritten(st: State, st': State, ino: Ino, off: nat, size: nat, n: nat, k: nat)
    requires Core(st) && Rewritten(st, st', ino, off, [], size, n)
    ensures ByteOf(Content(st', ino), k) == ByteOf(Content(st, ino), k)
  {
    RewrittenMeans(st, st', ino, off, [], size, n);
    SoundFact(st, ino);
    SoundFact(st', ino);
    assert Placed(ino, k);
    ByteOfContent(st, ino, k);
    ByteOfContent(st', ino, k);
  }

  /** Creating calls leave the slots as they were. */
  lemma SlotRewritten(st: State, st': State, ino: Ino, off: nat, size: nat, n: nat, i: nat)
    requires Core(st) && Rewritten(st, st', ino, off, [], size, n)
    ensures Blank(Content(st', ino), i) == Blank(Content(st, ino), i)
  {
    ByteOfRewritten(st, st', ino, off, size, n, 128 * i);
    ByteOfRewritten(st, st', ino, off, size, n, 128 * i + 1);
    ByteOfRewritten(st, st', ino, off, size, n, 128 * i + 2);
    ByteOfRewritten(st, st', ino, off, size, n, 128 * i + 3);
  }

  /** Since `st`, get_dentry was called for the slots below `i` of a directory whose first empty slot is `e`. */
  ghost predicate Probing(st: State, st': State, ino: Ino, e: nat, i: nat) {
    forall z: nat {:trigger Opened(z)} ::
      Rewritten(st, st', ino, 128 * e, [], Max(st.nodes[ino].fSize, 128 * i), DentryPages(st.pages[ino], i))
  }

  lemma ProbingStart(st: State, ino: Ino, e: nat)
    requires Core(st)
    ensures Probing(st, st, ino, e, 0)
  {
    RewrittenNone(st, ino, 128 * e);
  }

  lemma ProbingMeans(st: State, st': State, ino: Ino, e: nat, i: nat)
    requires Probing(st, st', ino, e, i)
    ensures Rewritten(st, st', ino, 128 * e, [], st'.nodes[ino].fSize, DentryPages(st.pages[ino], i))
    ensures Core(st') && st'.nodes[ino].fType == st.nodes[ino].fType
    ensures st'.nodes[ino].fSize == Max(st.nodes[ino].fSize, 128 * i)
  {
    assert Opened(0);
    RewrittenFacts(st, st', ino, 128 * e, [], Max(st.nodes[ino].fSize, 128 * i), DentryPages(st.pages[ino], i));
  }

  lemma ProbingStep(st: State, st1: State, st2: State, ino: Ino, e: nat, i: nat)
    requires Probing(st, st1, ino, e, i)
    requires Rewritten(st, st2, ino, 128 * e, [], Max(st1.nodes[ino].fSize, 128 * (i + 1)),
                       GrowPages(DentryPages(st.pages[ino], i), 128 * (i + 1) / BLK_SIZE))
    ensures Probing(st, st2, ino, e, i + 1)
  {
    ProbingMeans(st, st1, ino, e, i);
  }

  lemma ProbeCost(n: nat, i: nat, e: nat)
    requires i <= e
    ensures FillOf(GrowPages(DentryPages(n, i), 128 * (i + 1) / BLK_SIZE)) <= FillOf(DentryPages(n, e + 1))
  {
    DentryFillMonotone(n, i + 1, e + 1);
  }

  /** The empty slot, once reached, takes the entry. */
  lemma ProbingStored(st: State, st': State, ino: Ino, d: seq<Byte>, e: nat)
    requires Probing(st, st', ino, e, e + 1) && FitsPage(st', ino, 128 * e, d) && |d| == DENTRY_SIZE
    ensures AddedAt(st, PageStored(st', ino, 128 * e, d), ino, d, e)
  {
    ProbingMeans(st, st', ino, e, e + 1);
    RewrittenStored(st, st', ino, 128 * e, [], st'.nodes[ino].fSize, DentryPages(st.pages[ino], e + 1), d);
    assert [] + d == d;
  }

  /** Where slot `i` stands, and whether it is the empty one. */
  lemma ProbedPlace(st: State, st': State, ino: Ino, e: nat, i: nat, blk: BlockNo, at: nat)
    requires Core(st) && Probing(st, st', ino, e, i + 1) && EmptyFrom(Content(st, ino), 0, e) && i <= e
    requires 128 * i / BLK_SIZE < MAX_PAGES && blk == At(st', ino, PageSlot(128 * i / BLK_SIZE)) != 0
    requires at == 128 * i % BLK_SIZE
    ensures blk in st'.owner && 0 < blk < NBLK && at + DENTRY_SIZE <= BLK_SIZE
    ensures Blank(Content(st', ino), i) <==> i == e
  {
    ProbingMeans(st, st', ino, e, i + 1);
    PageInRange(st', ino, 128 * i / BLK_SIZE);
    SlotPlace(i, 0);
    SlotRewritten(st, st', ino, 128 * e, st'.nodes[ino].fSize, DentryPages(st.pages[ino], i + 1), i);
    ProbedSlot(Content(st, ino), e, i);
  }

  lemma AddedFacts(st: State, st': State, ino: Ino, d: seq<Byte>, e: nat)
    requires AddedAt(st, st', ino, d, e)
    ensures Core(st') && st'.pages[ino] == DentryPages(st.pages[ino], e + 1)
    ensures 0 <= Free(st') == Free(st) - (FillOf(DentryPages(st.pages[ino], e + 1)) - st.fill[ino])
  {
    RewrittenFacts(st, st', ino, 128 * e, d, Max(st.nodes[ino].fSize, 128 * (e + 1)), DentryPages(st.pages[ino], e + 1));
  }

  /** `d` written into slot `e`, `get_dentry` having been called for the slots up to there. */
  ghost predicate AddedAt(st: State, st': State, ino: Ino, d: seq<Byte>, e: nat) {
    Rewritten(st, st', ino, 128 * e, d, Max(st.nodes[ino].fSize, 128 * (e + 1)), DentryPages(st.pages[ino], e + 1))
  }

  /** add_dentry: the slot is the first empty one. */
  ghost predicate Added(st: State, st': State, ino: Ino, d: seq<Byte>) {
    |d| == DENTRY_SIZE && AddedAt(st, st', ino, d, FirstEmpty(Content(st, ino), 0))
  }

  /** Seen from outside, that is the directory's bytes with the entry added. */
  lemma FilesAdded(st: State, st': State, count: nat, ino: Ino, d: seq<Byte>)
    requires Core(st) && ino <= count < NINO && Added(st, st', ino, d)
    ensures FilesOf(st', count) ==
            FilesOf(st, count)[ino := FileView(st.nodes[ino].fType, AddEntry(Content(st, ino), d))]
  {
    var e := FirstEmpty(Content(st, ino), 0);
    FilesRewritten(st, st', count, ino, 128 * e, d, DentryPages(st.pages[ino], e + 1));
  }

  // ----- the block tree as a flat list of pages -----

  /** The pages present are the first `pages[ino]` ones: looking one up in the tree is looking it up in a list. */
  lemma PagesArePrefix(st: State, ino: Ino, p: nat)
    requires Core(st) && p < MAX_PAGES
    ensures At(st, ino, PageSlot(p)) != 0 <==> p < st.pages[ino]
  {
    SoundFact(st, ino);
    SlotFact(st, ino, PageSlot(p));
    FillOfMeans(st.pages[ino], p);
  }

  /** No block stands in two places, and every block in use lies in the managed range. */
  lemma BlocksDistinct(st: State, i: Ino, s: Slot, j: Ino, t: Slot)
    requires Core(st) && At(st, i, s) != 0 && At(st, i, s) == At(st, j, t)
    ensures i == j && s == t && st.lo <= At(st, i, s) < st.hi
  {
    SlotFact(st, i, s);
    SlotFact(st, j, t);
    OwnerFact(st, At(st, i, s));
  }
}
