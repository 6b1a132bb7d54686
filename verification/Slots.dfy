/**
 The places in an inode's three-tier block tree where a block number can stand, and the one order in which
 `INode::get_blkno` ever fills them.
 */
module Slots {
  const DIRECT_BLK_COUNT: nat := 16
  const SINGLE_END: nat := 1040       // first page of the double-indirect tier
  const MAX_PAGES: nat := 1049616     // 16 + 1024 + 1024 * 1024

  datatype RawSlot =
    | Direct(i: nat)        // direct_blk_no[i]
    | Ind                   // indirect_blk
    | Entry(j: nat)         // entry j of the single-indirect block
    | Ind2                  // indirect_blk2
    | Mid(i: nat)           // entry i of the double-indirect block
    | Leaf(i: nat, j: nat)  // entry j of the index block held by Mid(i)
  {
    predicate Ok() {
      match this
      case Direct(i) => i < 16
      case Ind => true
      case Entry(j) => j < 1024
      case Ind2 => true
      case Mid(i) => i < 1024
      case Leaf(i, j) => i < 1024 && j < 1024
    }
  }

  type Slot = s: RawSlot | s.Ok() witness Ind

  /** Position in allocation order. */
  function Rank(s: Slot): (r: nat)
    ensures r < 1050642
  {
    match s
    case Direct(i) => i
    case Ind => 16
    case Entry(j) => 17 + j
    case Ind2 => 1041
    case Mid(i) => 1042 + 1025 * i
    case Leaf(i, j) => 1043 + 1025 * i + j
  }

  /** The slot at a position: every position below 1050642 is used. */
  function SlotAt(r: nat): (s: Slot)
    requires r < 1050642
    ensures Rank(s) == r
  {
    if r < 16 then Direct(r)
    else if r == 16 then Ind
    else if r < 1041 then Entry(r - 17)
    else if r == 1041 then Ind2
    else
      var k := r - 1042;
      if k % 1025 == 0 then Mid(k / 1025) else Leaf(k / 1025, k % 1025 - 1)
  }

  lemma RankInjective(s: Slot, t: Slot)
    requires Rank(s) == Rank(t)
    ensures s == t
  {}

  /** Whether the slot names a data page rather than an index block. */
  predicate IsPage(s: Slot) {
    s.Direct? || s.Entry? || s.Leaf?
  }

  /** The slot of logical page `p`. */
  function PageSlot(p: nat): (s: Slot)
    requires p < MAX_PAGES
    ensures IsPage(s)
  {
    if p < 16 then Direct(p)
    else if p < 1040 then Entry(p - 16)
    else Leaf((p - 1040) / 1024, (p - 1040) % 1024)
  }

  lemma PageSlotInjective(p: nat, q: nat)
    requires p < MAX_PAGES && q < MAX_PAGES && PageSlot(p) == PageSlot(q)
    ensures p == q
  {}

  /** Slots in use (data pages and index blocks together) when pages 0..n-1 are present. */
  function FillOf(n: nat): nat {
    if n <= 16 then n
    else if n <= 1040 then n + 1
    else n + 2 + (n - 1040 + 1023) / 1024
  }

  /** The two counts agree about which pages are there. */
  lemma FillOfMeans(n: nat, p: nat)
    requires p < MAX_PAGES
    ensures Rank(PageSlot(p)) < FillOf(n) <==> p < n
  {}

  function Max(a: nat, b: nat): nat {
    if a < b then b else a
  }

  function Min(a: nat, b: nat): nat {
    if a < b then a else b
  }

  /** Slots filled once the index blocks are set up and `l` pages of the double-indirect tier are present. */
  function LeafFill(l: nat): nat {
    1042 + l + (l + 1023) / 1024
  }

  /** The same in the middle of row `i`, whose index block is allocated before its first page. */
  function RowFill(i: nat, l: nat): nat {
    if l == 1024 * i then LeafFill(l) + 1 else LeafFill(l)
  }

  /**
   One step along row `i`, `l` pages of the tier having been present at the start and `q` being the page wanted:
   entry `j` is missing exactly when page 1024 * i + j is past `l`, and adding it ends the search when it is past `q`.
   */
  lemma RowStep(i: nat, j: nat, l: nat, q: nat)
    requires i < 1024 && j < 1024 && 1024 * i + j <= Max(l, q + 1)
    ensures var m := RowFill(i, Max(l, 1024 * i + j)); var r := Rank(Leaf(i, j));
      && Rank(Mid(i)) < r <= m
      && (r == m <==> l <= 1024 * i + j)
      && Max(m, r + 1) == RowFill(i, Max(l, 1024 * i + j + 1))
      && (r == m ==> m < LeafFill(Max(l, q + 1) + 1))
      && (r == m && 1024 * i + j > q ==> m + 1 == LeafFill(Max(l, q + 1) + 1))
      && (!(r == m && 1024 * i + j > q) ==> 1024 * i + j + 1 <= Max(l, q + 1))
  {}

  /** The entry's address, compared with an offset, is its page compared with the offset's. */
  lemma CapMeans(i: nat, j: nat, off: nat)
    ensures i * 1024 * 4096 + j * 4096 > off <==> 1024 * i + j > off / 4096
  {
    assert i * 1024 * 4096 + j * 4096 == 4096 * (1024 * i + j);
  }

  /** The start and the end of row `i`. */
  lemma RowStart(i: nat, l: nat, q: nat)
    requires i < 1024 && 1024 * i <= Max(l, q + 1)
    ensures var m := LeafFill(Max(l, 1024 * i));
      && Rank(Mid(i)) <= m < LeafFill(Max(l, q + 1) + 1)
      && Max(m, Rank(Mid(i)) + 1) == RowFill(i, Max(l, 1024 * i))
    ensures RowFill(i, Max(l, 1024 * i + 1024)) == LeafFill(Max(l, 1024 * (i + 1)))
  {}

  /** Rows started, counted by slots filled. */
  lemma RowsBound(i: nat, l: nat)
    requires 1024 * i <= l && LeafFill(l) < 524288
    ensures i < 1024
  {}

  /**
   Data pages present after a creating `get_blkno` for page `p` when `n` were present. Below the double-indirect
   tier the missing pages are added; in it the stopping test is only made after an allocation, so there is always
   one page more.
   */
  function GrowPages(n: nat, p: nat): nat {
    if p < SINGLE_END then Max(n, p + 1) else Max(n, p + 1) + 1
  }

  /** Taking `k` pages off an offset. */
  lemma DropPages(off: nat, k: nat)
    ensures off < 4096 * k <==> off / 4096 < k
    ensures off >= 4096 * k ==> (off - 4096 * k) / 4096 == off / 4096 - k
  {}

  // How the three tiers add up to `FillOf(GrowPages(n, p))`.

  lemma GrowPagesCovers(n: nat, p: nat)
    ensures p < GrowPages(n, p) && n <= GrowPages(n, p)
  {}

  lemma DirectTier(n: nat, p: nat)
    ensures p < 16 ==> FillOf(GrowPages(n, p)) == Max(FillOf(n), p + 1)
    ensures p >= 16 ==> FillOf(GrowPages(n, p)) >= Max(FillOf(n), 16)
  {}

  lemma IndirectTier(n: nat, p: nat)
    requires p >= 16
    ensures p < SINGLE_END ==> FillOf(GrowPages(n, p)) == Max(Max(FillOf(n), 16), p + 2)
    ensures p >= SINGLE_END ==> FillOf(GrowPages(n, p)) >= Max(Max(FillOf(n), 16), 1041) == Max(FillOf(n), 1041)
  {}

  lemma Indirect2Tier(n: nat, p: nat)
    requires p >= SINGLE_END
    ensures Max(FillOf(n), 1041) == FillOf(Max(n, SINGLE_END))
    ensures FillOf(GrowPages(n, p)) == LeafFill(Max(Max(n, SINGLE_END) - SINGLE_END, p - SINGLE_END + 1) + 1)
  {}
}
