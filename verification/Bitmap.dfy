/** `BlockBitmap` and `INodeBitmap`: one bit a block or inode, eight bits a byte. */
module Bitmaps {

  /** Setting a bit changes that bit and no other. */
  lemma SetBit(bits: bv8, k: nat, j: nat)
    requires k < 8 && j < 8
    ensures (bits | ((1 as bv8) << k)) & ((1 as bv8) << j) != 0 <==> k == j || bits & ((1 as bv8) << j) != 0
  {
    if k == 0 {} else if k == 1 {} else if k == 2 {} else if k == 3 {}
    else if k == 4 {} else if k == 5 {} else if k == 6 {} else {}
  }

  class Bitmap {
    const data: array<bv8>

    /** clear_all */
    constructor (bytes: nat)
      ensures fresh(data) && data.Length == bytes
      ensures forall p: nat :: p < 8 * bytes ==> !Get(p)
    {
      data := new bv8[bytes](_ => 0);
    }

    predicate Get(pos: nat)
      requires pos < 8 * data.Length
      reads data
    {
      data[pos / 8] & ((1 as bv8) << (pos % 8)) != 0
    }

    /** Position `pos` is a bit of byte `pos / 8`, the lowest one first. */
    lemma BitOf(pos: nat)
      requires pos < 8 * data.Length
      ensures Get(pos) <==> data[pos / 8] & [1 as bv8, 2, 4, 8, 16, 32, 64, 128][pos % 8] != 0
    {}

    method Set(pos: nat)
      requires pos < 8 * data.Length
      modifies data
      ensures forall p: nat :: p < 8 * data.Length ==> (Get(p) <==> p == pos || old(Get(p)))
    {
      data[pos / 8] := data[pos / 8] | ((1 as bv8) << (pos % 8));
      forall p: nat | p < 8 * data.Length ensures Get(p) <==> p == pos || old(Get(p)) {
        if p / 8 == pos / 8 {
          SetBit(old(data[pos / 8]), pos % 8, p % 8);
        }
      }
    }

    /** The lowest clear bit; `ok` is false where the program panics because there is none. */
    method FirstAvailable() returns (ok: bool, pos: nat)
      ensures ok <==> exists p: nat :: p < 8 * data.Length && !Get(p)
      ensures ok ==> pos < 8 * data.Length && !Get(pos)
      ensures ok ==> forall p: nat :: p < pos ==> Get(p)
    {
      for i := 0 to 8 * data.Length
        invariant forall p: nat :: p < i ==> Get(p)
      {
        if !Get(i) {
          return true, i;
        }
      }
      return false, 0;
    }
  }
}
