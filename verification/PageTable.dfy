/** The two-level page table (a2/starter/pagetable.h and pagetable.c). */
module PageTables {
  // A pointer to a page table entry is modelled by the page number it stands for. The
  // frame field of an entry packs the frame number above the status bits; the class keeps
  // the packed words, and its ghost field `entries` gives them unpacked, one entry for
  // every page, whether or not its second-level table has been allocated yet.

  import opened Paging
  import opened Swaps
  import opened Words

  const PAGE_SHIFT := 12
  const PAGE_SIZE := 4096
  const PTRS_PER_PGDIR := 4096
  const PTRS_PER_PGTBL := 4096
  const PAGES := 0x100_0000
  const ADDRESSES := 0x10_0000_0000
  const FRAME_BITS := 20

  /** The status bits, by position. */
  const PG_VALID := 0
  const PG_DIRTY := 1
  const PG_REF := 2
  const PG_ONSWAP := 3

  /** Virtual addresses are unsigned, so shifting right divides and masking takes a remainder. */
  function PgdirIndex(vaddr: nat): nat { vaddr / 0x100_0000 }

  function PgtblIndex(vaddr: nat): nat { (vaddr / PAGE_SIZE) % PTRS_PER_PGTBL }

  function PageOf(vaddr: nat): Page { vaddr / PAGE_SIZE }

  /** Addresses below 2^36 select an entry within both tables, and two of them select the
      same entry exactly when they lie on the same page. */
  lemma AddressesSelectPages(v: nat, w: nat)
    requires v < ADDRESSES && w < ADDRESSES
    ensures PgdirIndex(v) < PTRS_PER_PGDIR && PgtblIndex(v) < PTRS_PER_PGTBL
    ensures PageOf(v) == PgdirIndex(v) * PTRS_PER_PGTBL + PgtblIndex(v) < PAGES
    ensures PgdirIndex(v) == PgdirIndex(w) && PgtblIndex(v) == PgtblIndex(w) <==> PageOf(v) == PageOf(w)
  {
    assert PgdirIndex(v) == PageOf(v) / PTRS_PER_PGTBL && PgdirIndex(w) == PageOf(w) / PTRS_PER_PGTBL;
  }

  /** An entry as stored: the packed unsigned int, and the offset of the page in the swap file. */
  datatype PteWord = PteWord(frame: nat, swapOff: int)

  /** An entry unpacked. */
  datatype Pte = Pte(frame: nat, valid: bool, dirty: bool, ref: bool, onSwap: bool, swapOff: int)
  {
    predicate Flag(j: nat)
      requires j <= PG_ONSWAP
    {
      if j == PG_VALID then valid
      else if j == PG_DIRTY then dirty
      else if j == PG_REF then ref
      else onSwap
    }

    function With(j: nat, b: bool): Pte
      requires j <= PG_ONSWAP
    {
      if j == PG_VALID then this.(valid := b)
      else if j == PG_DIRTY then this.(dirty := b)
      else if j == PG_REF then this.(ref := b)
      else this.(onSwap := b)
    }
  }

  const UNTOUCHED := Pte(0, false, false, false, false, INVALID_SWAP)

  function Unpack(w: PteWord): Pte {
    Pte(Shr(w.frame, PAGE_SHIFT),
        Bit(w.frame, PG_VALID), Bit(w.frame, PG_DIRTY), Bit(w.frame, PG_REF), Bit(w.frame, PG_ONSWAP),
        w.swapOff)
  }

  /** Setting a status bit touches neither the other bits nor the frame number. */
  lemma SetIsSeparate(w: PteWord, j: nat)
    requires j <= PG_ONSWAP
    ensures Unpack(w.(frame := SetBit(w.frame, j))) == Unpack(w).With(j, true)
  {
    ShrSetBit(w.frame, j, PAGE_SHIFT);
    SetOneBit(w.frame, j, PG_VALID);
    SetOneBit(w.frame, j, PG_DIRTY);
    SetOneBit(w.frame, j, PG_REF);
    SetOneBit(w.frame, j, PG_ONSWAP);
  }

  /** Nor does clearing it. */
  lemma ClearIsSeparate(w: PteWord, j: nat)
    requires j <= PG_ONSWAP
    ensures Unpack(w.(frame := ClearBit(w.frame, j))) == Unpack(w).With(j, false)
  {
    ShrSetBit(w.frame, j, PAGE_SHIFT);
    SetOneBit(w.frame, j, PG_VALID);
    SetOneBit(w.frame, j, PG_DIRTY);
    SetOneBit(w.frame, j, PG_REF);
    SetOneBit(w.frame, j, PG_ONSWAP);
  }

  /** A shifted frame number has all status bits clear. */
  lemma FrameWord(n: nat, swapOff: int)
    ensures Unpack(PteWord(Shl(n, PAGE_SHIFT), swapOff)) == Pte(n, false, false, false, false, swapOff)
  {
    ShrShl(n, PAGE_SHIFT);
    BitShl(n, PAGE_SHIFT, PG_VALID);
    BitShl(n, PAGE_SHIFT, PG_DIRTY);
    BitShl(n, PAGE_SHIFT, PG_REF);
    BitShl(n, PAGE_SHIFT, PG_ONSWAP);
  }

  lemma UntouchedWord()
    ensures Unpack(PteWord(0, INVALID_SWAP)) == UNTOUCHED && Fits(0, 32)
  {
    Zero(PAGE_SHIFT);
    Zero(PG_VALID);
    Zero(PG_DIRTY);
    Zero(PG_REF);
    Zero(PG_ONSWAP);
    Zero(32);
  }

  class PageTable {
    const pgdir: array<array?<PteWord>>
    ghost var entries: seq<Pte>
    ghost var tables: set<nat>
    ghost var Repr: set<object>

    ghost predicate Valid()
      reads this, Repr
      ensures Valid() ==> this in Repr
    {
      && this in Repr && pgdir in Repr
      && pgdir.Length == PTRS_PER_PGDIR && |entries| == PAGES
      && (forall d, e :: 0 <= d < e < PTRS_PER_PGDIR && pgdir[d] != null ==> pgdir[d] != pgdir[e])
      && (forall d {:trigger TableOk(d)} :: 0 <= d < PTRS_PER_PGDIR ==> TableOk(d))
      && (forall d, t {:trigger CellOk(d, t)} :: 0 <= d < PTRS_PER_PGDIR && 0 <= t < PTRS_PER_PGTBL ==> CellOk(d, t))
    }

    ghost predicate TableOk(d: nat)
      requires d < pgdir.Length
      reads this, pgdir
    {
      && (pgdir[d] != null <==> d in tables)
      && (pgdir[d] != null ==> pgdir[d] in Repr && pgdir[d].Length == PTRS_PER_PGTBL)
    }

    /** The entry t of table d is what the unpacked entries say; a missing table has only untouched ones. */
    ghost predicate CellOk(d: nat, t: nat)
      requires d < pgdir.Length == PTRS_PER_PGDIR && t < PTRS_PER_PGTBL && |entries| == PAGES && TableOk(d)
      reads this, pgdir, Repr
    {
      var e := entries[d * PTRS_PER_PGTBL + t];
      if pgdir[d] == null then e == UNTOUCHED
      else Fits(pgdir[d][t].frame, 32) && e == Unpack(pgdir[d][t])
    }

    /** The second-level table that holds the entry of page p has been allocated. */
    ghost predicate Present(p: Page)
      reads this
    {
      p < PAGES && p / PTRS_PER_PGTBL in tables
    }

    /** An entry that has been written to lies in an allocated table. */
    lemma TouchedIsPresent(p: Page)
      requires Valid() && p < PAGES && entries[p] != UNTOUCHED
      ensures Present(p)
    {
      var d, t := p / PTRS_PER_PGTBL, p % PTRS_PER_PGTBL;
      assert TableOk(d) && CellOk(d, t) && p == d * PTRS_PER_PGTBL + t;
    }

    /** An empty page directory: no page has been touched. */
    constructor ()
      ensures Valid() && fresh(Repr)
      ensures entries == seq(PAGES, _ => UNTOUCHED)
    {
      pgdir := new array?<PteWord>[PTRS_PER_PGDIR](_ => null);
      entries := seq(PAGES, _ => UNTOUCHED);
      tables := {};
      new;
      Repr := {this, pgdir};
    }

    /** Allocates the second-level table of page p if the directory entry is invalid.
        Seen as a whole, the page table does not change. */
    method InitSecondLevel(p: Page)
      requires Valid() && p < PAGES
      modifies Repr
      ensures Valid() && fresh(Repr - old(Repr))
      ensures entries == old(entries) && Present(p)
    {
      var d := p / PTRS_PER_PGTBL;
      assert TableOk(d);
      if pgdir[d] == null {
        var table := new PteWord[PTRS_PER_PGTBL](_ => PteWord(0, INVALID_SWAP));
        pgdir[d] := table;
        Repr := Repr + {table};
        tables := tables + {d};
        UntouchedWord();
        forall c | 0 <= c < PTRS_PER_PGDIR ensures TableOk(c) {
          assert old(TableOk(c));
        }
        forall c, t | 0 <= c < PTRS_PER_PGDIR && 0 <= t < PTRS_PER_PGTBL ensures CellOk(c, t) {
          assert old(TableOk(c)) && old(CellOk(c, t));
        }
      }
    }

    method Store(p: Page, w: PteWord)
      requires Valid() && Present(p) && Fits(w.frame, 32)
      modifies Repr
      ensures Valid() && Repr == old(Repr) && tables == old(tables)
      ensures entries == old(entries)[p := Unpack(w)]
    {
      var d, t := p / PTRS_PER_PGTBL, p % PTRS_PER_PGTBL;
      assert TableOk(d) && p == d * PTRS_PER_PGTBL + t;
      var table := pgdir[d];
      table[t] := w;
      entries := entries[p := Unpack(w)];
      forall c | 0 <= c < PTRS_PER_PGDIR ensures TableOk(c) {
        assert old(TableOk(c));
      }
      forall c, u | 0 <= c < PTRS_PER_PGDIR && 0 <= u < PTRS_PER_PGTBL ensures CellOk(c, u) {
        assert old(TableOk(c)) && old(CellOk(c, u));
        assert c * PTRS_PER_PGTBL + u == p ==> c == d && u == t;
      }
    }

    method Load(p: Page) returns (w: PteWord)
      requires Valid() && Present(p)
      ensures Fits(w.frame, 32) && Unpack(w) == entries[p]
    {
      var d, t := p / PTRS_PER_PGTBL, p % PTRS_PER_PGTBL;
      assert TableOk(d) && CellOk(d, t) && p == d * PTRS_PER_PGTBL + t;
      var table := pgdir[d];
      w := table[t];
    }

    method TestFlag(p: Page, j: nat) returns (b: bool)
      requires Valid() && Present(p) && j <= PG_ONSWAP
      ensures b == entries[p].Flag(j)
    {
      var w := Load(p);
      b := Bit(w.frame, j);
    }

    method SetFlag(p: Page, j: nat)
      requires Valid() && Present(p) && j <= PG_ONSWAP
      modifies Repr
      ensures Valid() && Repr == old(Repr) && tables == old(tables)
      ensures entries == old(entries)[p := old(entries)[p].With(j, true)]
    {
      var w := Load(p);
      SetIsSeparate(w, j);
      SetBitFits(w.frame, j, 32);
      Store(p, w.(frame := SetBit(w.frame, j)));
    }

    method ClearFlag(p: Page, j: nat)
      requires Valid() && Present(p) && j <= PG_ONSWAP
      modifies Repr
      ensures Valid() && Repr == old(Repr) && tables == old(tables)
      ensures entries == old(entries)[p := old(entries)[p].With(j, false)]
    {
      var w := Load(p);
      ClearIsSeparate(w, j);
      SetBitFits(w.frame, j, 32);
      Store(p, w.(frame := ClearBit(w.frame, j)));
    }

    /** The entry's frame field is overwritten with a shifted frame number. */
    method SetFrame(p: Page, n: nat)
      requires Valid() && Present(p) && Fits(n, FRAME_BITS)
      modifies Repr
      ensures Valid() && Repr == old(Repr) && tables == old(tables)
      ensures entries == old(entries)[p := Pte(n, false, false, false, false, old(entries)[p].swapOff)]
    {
      var w := Load(p);
      FrameWord(n, w.swapOff);
      ShlFits(n, PAGE_SHIFT, FRAME_BITS);
      Store(p, w.(frame := Shl(n, PAGE_SHIFT)));
    }

    method FrameOf(p: Page) returns (n: nat)
      requires Valid() && Present(p)
      ensures n == entries[p].frame
    {
      var w := Load(p);
      n := Shr(w.frame, PAGE_SHIFT);
    }

    method SwapOff(p: Page) returns (off: int)
      requires Valid() && Present(p)
      ensures off == entries[p].swapOff
    {
      var w := Load(p);
      off := w.swapOff;
    }

    method SetSwapOff(p: Page, off: int)
      requires Valid() && Present(p)
      modifies Repr
      ensures Valid() && Repr == old(Repr) && tables == old(tables)
      ensures entries == old(entries)[p := old(entries)[p].(swapOff := off)]
    {
      var w := Load(p);
      Store(p, w.(swapOff := off));
    }
  }
}
