/** The swap file and the bitmap that manages its slots (a2/starter/swap.c). */
module Swaps {
  import opened Words

  const BITS_PER_WORD := 32
  const WORD_ALLBITS := 0xffff_ffff
  const SIMPAGESIZE := 16
  const INVALID_SWAP := -1

  function DivRoundUp(a: nat, b: nat): nat
    requires b > 0
  {
    (a + b - 1) / b
  }

  lemma AllBits()
    ensures WORD_ALLBITS == Ones(BITS_PER_WORD)
  {
    assert Ones(8) == 0xff;
    assert Ones(16) == 0xffff;
    assert Ones(24) == 0xff_ffff;
  }

  /** The first index at or after i that is free; |used| if there is none. */
  function FirstFree(used: seq<bool>, i: nat): (f: nat)
    requires i <= |used|
    ensures i <= f <= |used|
    ensures f < |used| ==> !used[f]
    ensures forall j :: i <= j < f ==> used[j]
    decreases |used| - i
  {
    if i == |used| || !used[i] then i else FirstFree(used, i + 1)
  }

  lemma FirstFreeIs(used: seq<bool>, f: nat)
    requires f <= |used| && (f < |used| ==> !used[f])
    requires forall j :: 0 <= j < f ==> used[j]
    ensures FirstFree(used, 0) == f
  {
  }

  /** A set of indices below nbits, kept in 32-bit words.  The bits of the last word that
      lie beyond nbits are always set, so they are never handed out. */
  class Bitmap {
    const nbits: nat
    const v: array<nat>
    ghost var used: seq<bool>

    ghost predicate Valid()
      reads this, v
    {
      && |used| == nbits
      && v.Length == DivRoundUp(nbits, BITS_PER_WORD)
      && (forall ix {:trigger WordOk(ix)} :: 0 <= ix < v.Length ==> WordOk(ix))
    }

    ghost predicate WordOk(ix: nat)
      requires ix < v.Length && |used| == nbits
      reads this, v
    {
      && Fits(v[ix], BITS_PER_WORD)
      && (forall j :: 0 <= j < BITS_PER_WORD ==>
            Bit(v[ix], j) == (ix * BITS_PER_WORD + j >= nbits || used[ix * BITS_PER_WORD + j]))
    }

    /** All indices below nbits are free. */
    constructor (nbits: nat)
      ensures Valid() && fresh(v)
      ensures used == seq(nbits, _ => false)
    {
      this.nbits := nbits;
      var words := DivRoundUp(nbits, BITS_PER_WORD);
      v := new nat[words](_ => 0);
      used := seq(nbits, _ => false);
      new;
      forall j | 0 <= j < BITS_PER_WORD ensures !Bit(0, j) {
        Zero(j);
      }
      Zero(BITS_PER_WORD);
      if words > nbits / BITS_PER_WORD {
        var ix := words - 1;
        var overbits := nbits - ix * BITS_PER_WORD;
        assert 0 < overbits < BITS_PER_WORD;
        for j := overbits to BITS_PER_WORD
          invariant |used| == nbits && used == seq(nbits, _ => false)
          invariant forall i :: 0 <= i < ix ==> v[i] == 0
          invariant Fits(v[ix], BITS_PER_WORD)
          invariant forall b :: 0 <= b < BITS_PER_WORD ==> Bit(v[ix], b) == (overbits <= b < j)
        {
          SetBitFits(v[ix], j, BITS_PER_WORD);
          forall b | 0 <= b < BITS_PER_WORD ensures Bit(SetBit(v[ix], j), b) == (b == j || Bit(v[ix], b)) {
            SetOneBit(v[ix], j, b);
          }
          v[ix] := SetBit(v[ix], j);
        }
      }
    }

    /** Takes the least free index, or fails when all indices are used. */
    method Alloc() returns (ok: bool, index: nat)
      requires Valid()
      modifies this, v
      ensures Valid()
      ensures index == FirstFree(old(used), 0)
      ensures ok <==> index < nbits
      ensures used == if ok then old(used)[index := true] else old(used)
    {
      var maxix := DivRoundUp(nbits, BITS_PER_WORD);
      for ix := 0 to maxix
        invariant Valid() && used == old(used)
        invariant forall i :: 0 <= i < ix * BITS_PER_WORD && i < nbits ==> used[i]
      {
        assert WordOk(ix);
        if v[ix] != WORD_ALLBITS {
          ok, index := AllocInWord(ix);
          return;
        }
        FullWordIsUsed(ix);
      }
      FirstFreeIs(used, nbits);
      return false, nbits;
    }

    lemma FullWordIsUsed(ix: nat)
      requires Valid() && ix < v.Length && v[ix] == WORD_ALLBITS
      ensures forall i :: ix * BITS_PER_WORD <= i < (ix + 1) * BITS_PER_WORD && i < nbits ==> used[i]
    {
      AllBits();
      assert WordOk(ix);
      forall i | ix * BITS_PER_WORD <= i < (ix + 1) * BITS_PER_WORD && i < nbits ensures used[i] {
        OnesHas(BITS_PER_WORD, i - ix * BITS_PER_WORD);
      }
    }

    /** The inner scan: the word is not full, so it has a free bit, and that bit is not padding. */
    method AllocInWord(ix: nat) returns (ok: bool, index: nat)
      requires Valid() && ix < v.Length && v[ix] != WORD_ALLBITS
      requires forall i :: 0 <= i < ix * BITS_PER_WORD && i < nbits ==> used[i]
      modifies this, v
      ensures Valid() && ok
      ensures index == FirstFree(old(used), 0) < nbits
      ensures used == old(used)[index := true]
    {
      assert WordOk(ix);
      for offset := 0 to BITS_PER_WORD
        invariant Valid() && used == old(used) && v[ix] == old(v[ix])
        invariant forall j :: 0 <= j < offset ==> Bit(v[ix], j)
      {
        if !Bit(v[ix], offset) {
          index := ix * BITS_PER_WORD + offset;
          assert index < nbits && !used[index];
          forall i | 0 <= i < index ensures used[i] {
            if i >= ix * BITS_PER_WORD {
              assert Bit(v[ix], i - ix * BITS_PER_WORD);
            }
          }
          FirstFreeIs(used, index);
          Put(ix, offset, true);
          return true, index;
        }
      }
      FullIsOnes(v[ix], BITS_PER_WORD);
      AllBits();
      assert false;
    }

    /** Sets or clears one bit that is not padding. */
    method Put(ix: nat, offset: nat, b: bool)
      requires Valid() && ix < v.Length && offset < BITS_PER_WORD && ix * BITS_PER_WORD + offset < nbits
      modifies this, v
      ensures Valid()
      ensures used == old(used)[ix * BITS_PER_WORD + offset := b]
    {
      var w := v[ix];
      assert WordOk(ix);
      SetBitFits(w, offset, BITS_PER_WORD);
      forall j | 0 <= j < BITS_PER_WORD
        ensures Bit(SetBit(w, offset), j) == (j == offset || Bit(w, j))
        ensures Bit(ClearBit(w, offset), j) == (j != offset && Bit(w, j))
      {
        SetOneBit(w, offset, j);
      }
      v[ix] := if b then SetBit(w, offset) else ClearBit(w, offset);
      used := used[ix * BITS_PER_WORD + offset := b];
      forall i | 0 <= i < v.Length ensures WordOk(i) {
        assert i != ix ==> old(WordOk(i));
      }
    }

    /** Marks a free index as used. */
    method Mark(index: nat)
      requires Valid() && index < nbits && !used[index]
      modifies this, v
      ensures Valid() && used == old(used)[index := true]
    {
      Put(index / BITS_PER_WORD, index % BITS_PER_WORD, true);
    }

    /** Gives a used index back. */
    method Unmark(index: nat)
      requires Valid() && index < nbits && used[index]
      modifies this, v
      ensures Valid() && used == old(used)[index := false]
    {
      Put(index / BITS_PER_WORD, index % BITS_PER_WORD, false);
    }

    method IsSet(index: nat) returns (b: bool)
      requires Valid() && index < nbits
      ensures b == used[index]
    {
      assert WordOk(index / BITS_PER_WORD);
      b := Bit(v[index / BITS_PER_WORD], index % BITS_PER_WORD);
    }
  }

  /** The bitmap and the contents of the swap file, slot by slot. */
  datatype SwapState<T> = SwapState(used: seq<bool>, file: seq<T>)

  /** Writing a page to its slot, or to the first free slot when it has none yet.
      Without a free slot the page is not written and the offset is INVALID_SWAP. */
  function WriteOut<T>(s: SwapState<T>, data: T, off: int): (SwapState<T>, int)
    requires |s.file| == |s.used|
    requires off != INVALID_SWAP ==> 0 <= off && off / SIMPAGESIZE < |s.file|
  {
    if off != INVALID_SWAP then
      (s.(file := s.file[off / SIMPAGESIZE := data]), off)
    else
      var i := FirstFree(s.used, 0);
      if i == |s.used| then (s, INVALID_SWAP)
      else (SwapState(s.used[i := true], s.file[i := data]), i * SIMPAGESIZE)
  }

  /** The swap file, seen as an array of page-sized slots, and its bitmap. */
  class SwapFile<T(0)> {
    const swapmap: Bitmap
    const file: array<T>
    ghost const Repr: set<object>

    ghost predicate Valid()
      reads this, Repr
      ensures Valid() ==> |State().file| == |State().used|
    {
      && swapmap in Repr && swapmap.v in Repr && file in Repr && this !in Repr
      && file as object != swapmap.v
      && swapmap.Valid()
      && file.Length == swapmap.nbits
    }

    ghost function State(): SwapState<T>
      reads this, swapmap, file
    {
      SwapState(swapmap.used, file[..])
    }

    constructor (swapsize: nat)
      ensures Valid() && fresh(Repr)
      ensures State().used == seq(swapsize, _ => false)
    {
      var b := new Bitmap(swapsize);
      var f := new T[swapsize];
      swapmap, file, Repr := b, f, {b, b.v, f};
    }

    method PageIn(off: int) returns (data: T)
      requires Valid()
      requires 0 <= off && off / SIMPAGESIZE < |State().file|
      ensures data == State().file[off / SIMPAGESIZE]
    {
      data := file[off / SIMPAGESIZE];
    }

    method PageOut(data: T, off: int) returns (off': int)
      requires Valid()
      requires off != INVALID_SWAP ==> 0 <= off && off / SIMPAGESIZE < |State().file|
      modifies Repr
      ensures Valid()
      ensures (State(), off') == WriteOut(old(State()), data, off)
    {
      off' := off;
      if off == INVALID_SWAP {
        var ok, idx := swapmap.Alloc();
        if !ok {
          return INVALID_SWAP;
        }
        off' := idx * SIMPAGESIZE;
      }
      file[off' / SIMPAGESIZE] := data;
      assert file[..] == old(file[..])[off' / SIMPAGESIZE := data];
    }
  }
}
