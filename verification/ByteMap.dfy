/** The block and inode bitmaps of an ext2 image, one bit per block or inode, in bytes (a3/ext2_helper.h). */
module ByteMaps {
  import opened Words

  const CHAR_BIT := 8

  class ByteMap {
    const v: array<nat>
    ghost var used: seq<bool>

    ghost predicate Valid()
      reads this, v
    {
      |used| == CHAR_BIT * v.Length && forall x {:trigger ByteOk(x)} :: 0 <= x < v.Length ==> ByteOk(x)
    }

    ghost predicate ByteOk(x: nat)
      requires x < v.Length && |used| == CHAR_BIT * v.Length
      reads this, v
    {
      && Fits(v[x], CHAR_BIT)
      && forall j :: 0 <= j < CHAR_BIT ==> Bit(v[x], j) == used[CHAR_BIT * x + j]
    }

    constructor (bytes: nat)
      ensures Valid() && fresh(v) && used == seq(CHAR_BIT * bytes, _ => false)
    {
      v := new nat[bytes](_ => 0);
      used := seq(CHAR_BIT * bytes, _ => false);
      new;
      forall x | 0 <= x < v.Length ensures ByteOk(x) {
        Zero(CHAR_BIT);
        forall j | 0 <= j < CHAR_BIT ensures Bit(v[x], j) == used[CHAR_BIT * x + j] {
          Zero(j);
        }
      }
    }

    /** get_bitmap_val */
    method Get(bit: nat) returns (b: bool)
      requires Valid() && bit < |used|
      ensures b == used[bit]
    {
      assert ByteOk(bit / CHAR_BIT);
      b := Bit(Shr(v[bit / CHAR_BIT], bit % CHAR_BIT), 0);
      BitAfterShr(v[bit / CHAR_BIT], bit % CHAR_BIT);
    }

    /** set_bitmap_val */
    method Set(bit: nat, value: bool)
      requires Valid() && bit < |used|
      modifies this, v
      ensures Valid() && used == old(used)[bit := value]
    {
      var index, shift := bit / CHAR_BIT, bit % CHAR_BIT;
      var w := v[index];
      assert ByteOk(index);
      SetBitFits(w, shift, CHAR_BIT);
      forall j | 0 <= j < CHAR_BIT
        ensures Bit(SetBit(w, shift), j) == (j == shift || Bit(w, j))
        ensures Bit(ClearBit(w, shift), j) == (j != shift && Bit(w, j))
      {
        SetOneBit(w, shift, j);
      }
      v[index] := if value then SetBit(w, shift) else ClearBit(w, shift);
      used := used[bit := value];
      forall x | 0 <= x < v.Length ensures ByteOk(x) {
        assert x != index ==> old(ByteOk(x));
      }
    }
  }

  lemma {:induction false} BitAfterShr(w: nat, n: nat)
    ensures Bit(Shr(w, n), 0) == Bit(w, n)
  {
    if n > 0 {
      BitAfterShr(w / 2, n - 1);
    }
  }
}
