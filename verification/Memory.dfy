/** Physical memory, the coremap, the page table and swap space, updated in place
    (a2/starter/pagetable.c). */
module Memories {
  // Mem() is the value all of this stands for; every method is tied to a step on it.

  import opened Paging
  import opened PageTables
  import opened Swaps
  import opened Words
  import opened Machines
  import opened Policies

  /** memsize frames are numbered in the 20 bits above the status bits. */
  const FRAMES := 0x10_0000

  class Memory {
    const memsize: nat
    const coremap: array<Frame>
    const physmem: array<Content>
    const pt: PageTable
    const swap: SwapFile<Content>
    var hits: nat
    var misses: nat
    var refs: nat
    var clean: nat
    var dirty: nat
    ghost var Repr: set<object>

    /** The parts are separate and each is well formed. */
    ghost predicate Valid()
      reads this, Repr
      ensures Valid() ==> this in Repr && Sized(Mem()) && |Mem().coremap| == memsize
    {
      && this in Repr && coremap in Repr && physmem in Repr && swap in Repr
      && pt in Repr && pt.Repr <= Repr && swap.Repr <= Repr
      && {this, coremap, physmem, swap} !! pt.Repr && {this, coremap, physmem, swap} !! swap.Repr
         && pt.Repr !! swap.Repr
      && coremap as object != physmem
      && coremap.Length == physmem.Length == memsize && 0 < memsize <= FRAMES
      && pt.Valid() && swap.Valid()
    }

    ghost function Mem(): Machine
      reads this, pt, coremap, physmem, swap, swap.swapmap, swap.file
    {
      Machine(pt.entries, coremap[..], physmem[..], swap.State(), Counters(hits, misses, refs, clean, dirty))
    }

    constructor (memsize: nat, swapsize: nat)
      requires 0 < memsize <= FRAMES
      ensures Valid() && fresh(Repr) && this.memsize == memsize
      ensures IsInitial(Mem(), memsize, swapsize)
    {
      this.memsize := memsize;
      coremap := new Frame[memsize](_ => Frame(false, 0, 0));
      physmem := new Content[memsize](_ => Content(0, 0));
      pt := new PageTable();
      swap := new SwapFile(swapsize);
      hits, misses, refs, clean, dirty := 0, 0, 0, 0, 0;
      new;
      Repr := {this, coremap, physmem, swap} + pt.Repr + swap.Repr;
    }

    /** No second-level table has been allocated since. */
    ghost predicate SameTables(tables: set<nat>, repr: set<object>)
      reads pt
    {
      pt.tables == tables && pt.Repr == repr
    }

    // -------------------------------------------------------------- what the policies look at

    /** The frame number in the entry that frame i points back to: i itself. */
    method EntryFrame(i: nat) returns (f: nat)
      requires Valid() && Filled(Mem()) && i < memsize
      ensures f == i
    {
      assert coremap[..][i] == coremap[i];
      var p := coremap[i].pte;
      pt.TouchedIsPresent(p);
      f := pt.FrameOf(p);
    }

    method IsReferenced(i: nat) returns (b: bool)
      requires Valid() && Filled(Mem()) && i < memsize
      ensures b == ViewSlot(Mem(), i).ref
    {
      assert coremap[..][i] == coremap[i];
      var p := coremap[i].pte;
      pt.TouchedIsPresent(p);
      b := pt.TestFlag(p, PG_REF);
    }

    method TurnOffReference(i: nat)
      requires Valid() && Filled(Mem()) && i < memsize
      modifies pt.Repr
      ensures Valid() && Repr == old(Repr) && SameTables(old(pt.tables), old(pt.Repr))
      ensures Mem() == WithRef(old(Mem()), i, false)
    {
      assert coremap[..][i] == coremap[i];
      var p := coremap[i].pte;
      pt.TouchedIsPresent(p);
      pt.ClearFlag(p, PG_REF);
    }

    /** opt_ref: the frame of the entry remembers the page. */
    method SetPage(f: nat, page: Page)
      requires Valid() && f < memsize
      modifies coremap
      ensures Valid() && Repr == old(Repr) && SameTables(old(pt.tables), old(pt.Repr))
      ensures Mem() == old(Mem()).(coremap := old(Mem()).coremap[f := old(Mem()).coremap[f].(page := page)])
    {
      coremap[f] := coremap[f].(page := page);
    }

    // -------------------------------------------------------------- allocate_frame

    /** The first free frame, or memsize. */
    method FindFreeFrame() returns (f: nat)
      requires Valid()
      ensures f <= memsize
      ensures f < memsize ==> !coremap[f].inUse
      ensures forall g :: 0 <= g < f ==> coremap[g].inUse
    {
      for i := 0 to memsize
        invariant forall g :: 0 <= g < i ==> coremap[g].inUse
      {
        if !coremap[i].inUse {
          return i;
        }
      }
      return memsize;
    }

    /** The victim's page goes to swap if it is dirty, and its entry says so. */
    method EvictPage(f: nat)
      requires Valid() && f < memsize && SlotInFile(Mem(), coremap[f].pte) && pt.Present(coremap[f].pte)
      modifies `clean, `dirty, pt.Repr, swap.Repr
      ensures Valid() && Repr == old(Repr) && SameTables(old(pt.tables), old(pt.Repr))
      ensures Mem() == Evicted(old(Mem()), f)
    {
      var p := coremap[f].pte;
      var isDirty := pt.TestFlag(p, PG_DIRTY);
      if isDirty {
        WriteBack(f, p);
        dirty := dirty + 1;
      } else {
        clean := clean + 1;
      }
      MarkOnSwap(p);
    }

    method WriteBack(f: nat, p: Page)
      requires Valid() && f < memsize && SlotInFile(Mem(), p) && pt.Present(p)
      modifies pt.Repr, swap.Repr
      ensures Valid() && Repr == old(Repr) && SameTables(old(pt.tables), old(pt.Repr))
      ensures var m := old(Mem());
              var out := WriteOut(m.swap, m.physmem[f], m.ptes[p].swapOff);
              Mem() == m.(swap := out.0, ptes := m.ptes[p := m.ptes[p].(swapOff := out.1)])
    {
      var off := pt.SwapOff(p);
      var off' := swap.PageOut(physmem[f], off);
      pt.SetSwapOff(p, off');
    }

    method MarkOnSwap(p: Page)
      requires Valid() && pt.Present(p)
      modifies pt.Repr
      ensures Valid() && Repr == old(Repr) && SameTables(old(pt.tables), old(pt.Repr))
      ensures var m := old(Mem());
              Mem() == m.(ptes := m.ptes[p := m.ptes[p].(valid := false, ref := false, onSwap := true)])
    {
      pt.ClearFlag(p, PG_VALID);
      pt.ClearFlag(p, PG_REF);
      pt.SetFlag(p, PG_ONSWAP);
    }

    method Claim(f: nat, p: Page)
      requires Valid() && f < memsize
      modifies coremap
      ensures Valid() && Repr == old(Repr) && SameTables(old(pt.tables), old(pt.Repr))
      ensures Mem() == Claimed(old(Mem()), f, p)
    {
      coremap[f] := coremap[f].(inUse := true, pte := p);
    }

    // -------------------------------------------------------------- find_physpage

    method CountHit()
      requires Valid()
      modifies `hits
      ensures Valid() && Repr == old(Repr) && SameTables(old(pt.tables), old(pt.Repr))
      ensures Mem() == CountedHit(old(Mem()))
    {
      hits := hits + 1;
    }

    method CountRef()
      requires Valid()
      modifies `refs
      ensures Valid() && Repr == old(Repr) && SameTables(old(pt.tables), old(pt.Repr))
      ensures Mem() == CountedRef(old(Mem()))
    {
      refs := refs + 1;
    }

    /** Makes sure that the second-level table for page p is there. */
    method InitSecondLevel(p: Page)
      requires Valid() && p < PAGES
      modifies `Repr, pt.Repr
      ensures Valid() && fresh(Repr - old(Repr))
      ensures Mem() == old(Mem()) && pt.Present(p)
    {
      pt.InitSecondLevel(p);
      Repr := Repr + pt.Repr;
    }

    /** The page comes in from swap, unless it has no copy there. */
    method SwapIn(f: nat, p: Page) returns (ok: bool)
      requires Valid() && f < memsize && SlotInFile(Mem(), p) && pt.Present(p)
      modifies physmem, pt.Repr
      ensures Valid() && Repr == old(Repr) && SameTables(old(pt.tables), old(pt.Repr))
      ensures var m, e := old(Mem()), old(Mem()).ptes[p];
              && ok == (e.swapOff != INVALID_SWAP)
              && (ok ==> Mem() == m.(physmem := m.physmem[f := m.swap.file[e.swapOff / SIMPAGESIZE]],
                                     ptes := m.ptes[p := Pte(f, false, false, false, false, e.swapOff)]))
    {
      var off := pt.SwapOff(p);
      if off == INVALID_SWAP {
        return false;
      }
      physmem[f] := swap.PageIn(off);
      FrameNumbersFit(f);
      pt.SetFrame(p, f);
      return true;
    }

    /** The page is new: its frame is initialised, and it is dirty because it has no copy in swap. */
    method InitFrame(f: nat, p: Page, vaddr: nat)
      requires Valid() && f < memsize && pt.Present(p)
      modifies physmem, pt.Repr
      ensures Valid() && Repr == old(Repr) && SameTables(old(pt.tables), old(pt.Repr))
      ensures var m := old(Mem());
              Mem() == m.(physmem := m.physmem[f := Content(0, vaddr)],
                          ptes := m.ptes[p := Pte(f, false, true, false, false, INVALID_SWAP)])
    {
      physmem[f] := Content(0, vaddr);
      FrameNumbersFit(f);
      pt.SetSwapOff(p, INVALID_SWAP);
      pt.SetFrame(p, f);
      pt.SetFlag(p, PG_DIRTY);
    }

    /** The miss is counted, and the contents of the page arrive in frame f. */
    method Fetch(f: nat, a: Access, isSwapped: bool) returns (ok: bool)
      requires Valid() && f < memsize && SlotInFile(Mem(), a.Page()) && pt.Present(a.Page())
      requires isSwapped == Mem().ptes[a.Page()].onSwap
      modifies `misses, physmem, pt.Repr
      ensures Valid() && Repr == old(Repr) && SameTables(old(pt.tables), old(pt.Repr))
      ensures ok == !(isSwapped && old(Mem()).ptes[a.Page()].swapOff == INVALID_SWAP)
      ensures ok ==> Mem() == CountedMiss(Fetched(old(Mem()), f, a))
    {
      misses := misses + 1;
      if isSwapped {
        ok := SwapIn(f, a.Page());
      } else {
        InitFrame(f, a.Page(), a.vaddr);
        ok := true;
      }
    }

    /** The entry is marked valid and referenced, and dirty for a write. */
    method Mark(a: Access)
      requires Valid() && pt.Present(a.Page())
      modifies pt.Repr
      ensures Valid() && Repr == old(Repr) && SameTables(old(pt.tables), old(pt.Repr))
      ensures Mem() == Marked(old(Mem()), a)
    {
      pt.SetFlag(a.Page(), PG_VALID);
      pt.SetFlag(a.Page(), PG_REF);
      if a.IsWrite() {
        pt.SetFlag(a.Page(), PG_DIRTY);
      }
    }

    /** A write access increments the version kept in the page. */
    method Bump(g: nat, a: Access)
      requires Valid() && g < memsize
      modifies physmem
      ensures Valid() && Repr == old(Repr) && SameTables(old(pt.tables), old(pt.Repr))
      ensures Mem() == Bumped(old(Mem()), g, a)
    {
      if a.IsWrite() {
        physmem[g] := physmem[g].(version := physmem[g].version + 1);
      }
    }
  }
}
