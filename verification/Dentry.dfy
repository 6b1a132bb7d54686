/** Directory entries: 128 bytes each, laid end to end in the directory's contents. */
module Dentries {
  import opened Bytes
  import opened Slots

  const DENTRY_NAME_LEN: nat := 118
  const DENTRY_SIZE: nat := 128

  datatype FType = NoType | Regular | Dir

  /** The values of `enum FType` (written in octal there). */
  function Code(t: FType): nat {
    match t
    case NoType => 0
    case Regular => 4
    case Dir => 16
  }

  function FromCode(c: nat): FType {
    if c == 4 then Regular else if c == 16 then Dir else NoType
  }

  type FName = s: seq<Byte> | |s| == DENTRY_NAME_LEN witness Zeros(DENTRY_NAME_LEN)

  datatype DEntry = DEntry(inode: Word, fType: FType, nameLen: nat, fName: FName)
  {
    /** What a reader takes for the name. */
    function Name(): seq<Byte>
      requires nameLen <= DENTRY_NAME_LEN
    {
      fName[..nameLen]
    }
  }

  const PERM_0755: nat := 493

  /** The fields before the name: inode, permission, type and name length. */
  function Header(d: DEntry): (r: seq<Byte>)
    ensures |r| == 10 && r[..4] == Le4(d.inode) && r[6..8] == Le2(Code(d.fType)) && r[8..10] == Le2(d.nameLen)
  {
    Le4(d.inode) + Le2(PERM_0755) + Le2(Code(d.fType)) + Le2(d.nameLen)
  }

  /** The bytes of `struct DEntry`. */
  function Encode(d: DEntry): (r: seq<Byte>)
    ensures |r| == DENTRY_SIZE
  {
    Header(d) + d.fName
  }

  function Decode(b: seq<Byte>): DEntry
    requires |b| == DENTRY_SIZE
  {
    DEntry(Val4(b[0], b[1], b[2], b[3]), FromCode(Val2(b[6], b[7])), Val2(b[8], b[9]), b[10..])
  }

  /** Where the fields stand. */
  lemma EncodeParts(d: DEntry)
    ensures var r, i, t, n := Encode(d), Le4(d.inode), Le2(Code(d.fType)), Le2(d.nameLen);
      && r[0] == i[0] && r[1] == i[1] && r[2] == i[2] && r[3] == i[3]
      && r[4] == Le2(PERM_0755)[0] && r[5] == Le2(PERM_0755)[1]
      && r[6] == t[0] && r[7] == t[1] && r[8] == n[0] && r[9] == n[1] && r[10..] == d.fName
  {}

  /** The entry comes back: its inode number, its type, its name length and the whole name field. */
  lemma DecodeEncode(d: DEntry)
    requires d.nameLen < 65536
    ensures Decode(Encode(d)) == d
  {
    EncodeParts(d);
    Val4Le4(d.inode);
  }

  /** An encoded entry byte by byte: numbers little-endian, permission 0755 in octal, type 4 for files, 16 for directories. */
  lemma EncodedBytes(d: DEntry)
    requires d.nameLen < 65536
    ensures var r := Encode(d);
      && r[0] == d.inode % 256 && r[1] == d.inode / 256 % 256
      && r[2] == d.inode / 256 / 256 % 256 && r[3] == d.inode / 256 / 256 / 256
      && r[4] == 0xED && r[5] == 0x01
      && r[6] == (if d.fType == Regular then 4 else if d.fType == Dir then 16 else 0) && r[7] == 0
      && r[8] == d.nameLen % 256 && r[9] == d.nameLen / 256
      && r[10..] == d.fName
  {
    EncodeParts(d);
  }

  /** Entry `e` gives inode `ino` of type `t` the name `name`. */
  predicate Names(e: DEntry, ino: nat, t: FType, name: seq<Byte>) {
    e.inode == ino && e.fType == t && e.nameLen == |name| <= 118 && e.fName[..|name|] == name
  }

  /** The name field holds nothing else. */
  predicate ZeroAfterName(e: DEntry) {
    forall k :: e.nameLen <= k < DENTRY_NAME_LEN ==> e.fName[k] == 0
  }

  /** The entries of a directory with inode `ino` begin with `.` (46) for itself and `..` for `parent`. */
  predicate StartsWithDots(es: seq<DEntry>, ino: nat, parent: nat) {
    && |es| >= 2
    && Names(es[0], ino, Dir, [46]) && ZeroAfterName(es[0])
    && Names(es[1], parent, Dir, [46, 46]) && ZeroAfterName(es[1])
  }

  /** A name in the 118-byte field; what follows it there is whatever was there before. */
  function NameField(name: seq<Byte>, junk: FName): FName
    requires |name| <= DENTRY_NAME_LEN
  {
    name + junk[|name|..]
  }

  // ----- contents seen as a row of entries -----

  /** A file's bytes, running on as zeroes. */
  function ByteOf(c: seq<Byte>, k: nat): Byte {
    if k < |c| then c[k] else 0
  }

  /** The inode number of slot `i` is BAD_INODE: all its four bytes are zero. */
  predicate Blank(c: seq<Byte>, i: nat) {
    ByteOf(c, 128 * i) == 0 && ByteOf(c, 128 * i + 1) == 0 && ByteOf(c, 128 * i + 2) == 0 && ByteOf(c, 128 * i + 3) == 0
  }

  // A term to hang facts about all slots on: they are used where a lemma points at a slot, and nowhere else.
  ghost predicate Probed(i: nat) { true }

  /** The slot `add_dentry` will use, looking from slot `i` on. */
  function FirstEmpty(c: seq<Byte>, i: nat): (r: nat)
    ensures i <= r
    decreases |c| - 128 * i
  {
    if Blank(c, i) then i else FirstEmpty(c, i + 1)
  }

  /** Of the slots from `i` to `e`, only `e` is empty. */
  ghost predicate EmptyFrom(c: seq<Byte>, i: nat, e: nat) {
    forall j: nat {:trigger Probed(j)} :: i <= j <= e ==> (Blank(c, j) <==> j == e)
  }

  lemma {:induction false} EmptyFromFirst(c: seq<Byte>, i: nat)
    ensures EmptyFrom(c, i, FirstEmpty(c, i))
    decreases |c| - 128 * i
  {
    var e := FirstEmpty(c, i);
    if !Blank(c, i) {
      EmptyFromFirst(c, i + 1);
      forall j: nat | i <= j <= e ensures Blank(c, j) <==> j == e {
        assert Probed(j);
      }
    }
  }

  lemma ProbedSlot(c: seq<Byte>, e: nat, i: nat)
    requires EmptyFrom(c, 0, e) && i <= e
    ensures Blank(c, i) <==> i == e
  {
    assert Probed(i);
  }

  lemma {:induction false} FirstEmptyIs(c: seq<Byte>, e: nat)
    requires EmptyFrom(c, 0, e)
    ensures FirstEmpty(c, 0) == e
  {
    var f := FirstEmpty(c, 0);
    EmptyFromFirst(c, 0);
    assert Probed(f) && Probed(e);
  }

  /** A file's bytes after `bytes` are written at `off`; a gap is filled with zeroes. */
  function Overwrite(c: seq<Byte>, off: nat, bytes: seq<Byte>): (r: seq<Byte>)
    ensures |r| == Max(|c|, off + |bytes|)
    ensures forall k | 0 <= k < |r| :: r[k] == if off <= k < off + |bytes| then bytes[k - off] else ByteOf(c, k)
  {
    seq(Max(|c|, off + |bytes|), k requires k >= 0 => if off <= k < off + |bytes| then bytes[k - off] else ByteOf(c, k))
  }

  /** A directory's bytes after `add_dentry`. */
  function AddEntry(c: seq<Byte>, d: seq<Byte>): seq<Byte> {
    Overwrite(c, 128 * FirstEmpty(c, 0), d)
  }

  /** Whole slots, none empty: what every directory looks like between operations. */
  ghost predicate Dense(c: seq<Byte>) {
    |c| % 128 == 0 && forall i: nat {:trigger Probed(i)} :: 128 * i < |c| ==> !Blank(c, i)
  }

  lemma FirstEmptyDense(c: seq<Byte>)
    requires Dense(c)
    ensures FirstEmpty(c, 0) == |c| / 128
  {
    var e := |c| / 128;
    forall j: nat | j <= e ensures Blank(c, j) <==> j == e {
      if j < e {
        assert Probed(j);
      }
    }
    assert EmptyFrom(c, 0, e);
    FirstEmptyIs(c, e);
  }

  lemma BlankAppend(c: seq<Byte>, e: seq<Byte>, i: nat)
    requires |c| % 128 == 0 && 128 * i < |c| + 128 && |e| == DENTRY_SIZE
    requires e[0] != 0 || e[1] != 0 || e[2] != 0 || e[3] != 0
    ensures Blank(c + e, i) <==> 128 * i < |c| && Blank(c, i)
  {
    if 128 * i < |c| {
      assert forall k | 128 * i <= k < 128 * i + 4 :: ByteOf(c + e, k) == ByteOf(c, k);
    } else {
      assert forall k | 0 <= k < 4 :: ByteOf(c + e, 128 * i + k) == e[k];
    }
  }

  lemma OverwriteNew(bytes: seq<Byte>)
    ensures Overwrite([], 0, bytes) == bytes
  {}

  /** On such a directory `add_dentry` appends. */
  lemma AddEntryDense(c: seq<Byte>, d: seq<Byte>)
    requires Dense(c)
    ensures AddEntry(c, d) == c + d
  {
    FirstEmptyDense(c);
  }

  lemma DenseAppend(c: seq<Byte>, d: DEntry)
    requires Dense(c) && d.inode != 0
    ensures Dense(c + Encode(d))
  {
    forall i: nat | 128 * i < |c + Encode(d)| ensures !Blank(c + Encode(d), i) {
      BlankAppend(c, Encode(d), i);
      assert Probed(i);
    }
  }

  // ----- contents read as a list of entries -----

  function Listing(c: seq<Byte>): (es: seq<DEntry>)
    ensures |es| == |c| / 128
  {
    seq(|c| / 128, i requires 0 <= i < |c| / 128 => Decode(c[128 * i..128 * i + 128]))
  }

  /** Appending an entry's bytes appends the entry. */
  lemma ListingAppend(c: seq<Byte>, d: DEntry)
    requires |c| % 128 == 0 && d.nameLen < 65536
    ensures Listing(c + Encode(d)) == Listing(c) + [d]
  {
    var e := Encode(d);
    DecodeEncode(d);
    forall i: nat | i < |c| / 128 + 1 ensures Listing(c + e)[i] == (Listing(c) + [d])[i] {
      ChopAppend(c, e, i);
    }
  }

  lemma ChopAppend(c: seq<Byte>, e: seq<Byte>, i: nat)
    requires |c| % 128 == 0 && |e| == 128 && i <= |c| / 128
    ensures 128 * i + 128 <= |c + e|
    ensures (c + e)[128 * i..128 * i + 128] == if i < |c| / 128 then c[128 * i..128 * i + 128] else e
  {}

  // ----- the pages a directory takes -----

  /** Pages after `get_dentry` was called for slots 0..k-1. */
  function DentryPages(n: nat, k: nat): (r: nat)
    ensures n <= r
  {
    if k == 0 then n else GrowPages(DentryPages(n, k - 1), 128 * k / BLK_SIZE)
  }

  lemma DentryPagesMonotone(n: nat, j: nat, k: nat)
    requires j <= k
    ensures DentryPages(n, j) <= DentryPages(n, k)
  {}

  lemma DentryFillMonotone(n: nat, j: nat, k: nat)
    requires j <= k
    ensures FillOf(DentryPages(n, j)) <= FillOf(DentryPages(n, k))
  {
    DentryPagesMonotone(n, j, k);
  }
}
