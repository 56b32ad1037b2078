/**
 kmalloc and kfree of src/mem/malloc.cpp: slabs up to 1024 bytes, whole pages up to a page, and backed
 ranges of addresses above that.
 */
module Malloc {
  import opened PMalloc
  import opened Paging
  import Seqs
  import VMem
  import Slab
  import VSpace

  const READ_WRITE: PageFlags := PageFlags(true, true, false, false)

  /** The slot of an object of this size at ptr. */
  ghost function SlotOf(ptr: nat, size: nat): (nat, nat)
    requires size <= 1024
  {
    (ptr, Slab.SizeOf(Slab.ClassIndex(size)))
  }

  /** Pages that move between the free list and the slabs stay apart from the page tables. */
  lemma StaysApart(free: set<int>, slabs: set<int>, tables: set<int>, free': set<int>, slabs': set<int>)
    requires free + slabs == free' + slabs' && free !! tables && slabs !! tables
    ensures free' !! tables && slabs' !! tables
  {
    forall x | x in tables
      ensures x !in free' && x !in slabs'
    {
      assert x !in free + slabs;
    }
  }

  lemma InAndOut(live: set<(nat, nat)>, x: (nat, nat))
    requires x !in live
    ensures (live + {x}) - {x} == live
  {
  }

  class KernelHeap {
    const slab: Slab.SlabAllocator
    const space: VSpace.VirtualSpace

    ghost predicate Valid()
      reads slab, slab.pages, space.vmem, space.m, space.m.pages, space.kmap
    {
      && slab.pages == space.m.pages && slab.Valid() && space.Valid()
      && slab.slabs.Keys !! space.m.place.Keys
    }

    /** All pages but those that hold data: free, slab and table pages. */
    ghost function Pool(): set<int>
      reads slab, slab.pages, space.m, space.m.pages
    {
      slab.Spare() + space.m.place.Keys
    }

    constructor (slab: Slab.SlabAllocator, space: VSpace.VirtualSpace)
      requires slab.pages == space.m.pages && slab.Valid() && space.Valid() && slab.slabs.Keys !! space.m.place.Keys
      ensures Valid() && this.slab == slab && this.space == space
    {
      this.slab, this.space := slab, space;
    }

    ghost function PageFrame(ptr: nat): nat {
      if ptr < slab.hhdm then 0 else (ptr - slab.hhdm) / PAGE_SIZE
    }

    /** A backed range and the pages mapped there. */
    ghost predicate HoldsRange(ptr: nat, size: nat, frames: seq<nat>)
      reads slab, slab.pages, space.vmem, space.m, space.m.pages, space.kmap
    {
      && |frames| == VSpace.PageCount(size) && (ptr, VSpace.Size(size)) in space.Live()
      && VSpace.MapsAll(space.m.tables, space.kmap.level0, ptr, frames)
      && Seqs.Distinct(frames) && VSpace.Elements(frames) !! Pool()
    }

    /** ptr is an allocation of this size, which has these pages to itself. */
    ghost predicate Holds(ptr: nat, size: nat, frames: seq<nat>)
      reads slab, slab.pages, space.vmem, space.m, space.m.pages, space.kmap
    {
      if size <= 1024 then frames == [] && SlotOf(ptr, size) in slab.Live()
      else if size <= PAGE_SIZE then
        && ptr >= slab.hhdm + PAGE_SIZE && (ptr - slab.hhdm) % PAGE_SIZE == 0
        && frames == [PageFrame(ptr)] && PageFrame(ptr) !in Pool()
      else HoldsRange(ptr, size, frames)
    }

    /** Slab objects, address space and translations are as before. */
    twostate predicate Same()
      reads slab, space.vmem, space.m, space.kmap
    {
      slab.Live() == old(slab.Live()) && SameSpace()
    }

    twostate predicate SameSpace()
      reads space.vmem, space.m, space.kmap
    {
      && space.vmem.tiles == old(space.vmem.tiles)
      && VSpace.SameMap(old(space.m.tables), space.m.tables, space.kmap.level0)
    }

    /** One backed range more, where nothing was mapped. */
    twostate predicate RangeTook(ptr: nat, size: nat, frames: seq<nat>)
      reads space.vmem, space.m, space.kmap
    {
      && space.Live() == old(space.Live()) + {(ptr, VSpace.Size(size))}
         && (ptr, VSpace.Size(size)) !in old(space.Live())
      && VSpace.NoEntries(old(space.m.tables), space.kmap.level0, ptr, |frames|)
      && VSpace.RangeIs(space.m.tables, old(space.m.tables), space.kmap.level0, ptr,
                        VSpace.Mapped(frames, RealFlags(READ_WRITE, WriteBack, false)))
    }

    /** One backed range less, and nothing is mapped there. */
    twostate predicate RangeGave(ptr: nat, size: nat, frames: seq<nat>)
      reads space.vmem, space.m, space.kmap
    {
      && space.Live() == old(space.Live()) - {(ptr, VSpace.Size(size))}
      && VSpace.RangeIs(space.m.tables, old(space.m.tables), space.kmap.level0, ptr, VSpace.Nothing(|frames|))
    }

    /** What an allocation changes besides the pages: one object more, nothing, or one backed range more. */
    twostate predicate Took(ptr: nat, size: nat, frames: seq<nat>)
      reads slab, space.vmem, space.m, space.kmap
    {
      if size <= 1024 then slab.Live() == old(slab.Live()) + {SlotOf(ptr, size)}
          && SlotOf(ptr, size) !in old(slab.Live()) && SameSpace()
      else slab.Live() == old(slab.Live()) && if size <= PAGE_SIZE then SameSpace() else RangeTook(ptr, size, frames)
    }

    twostate predicate Gave(ptr: nat, size: nat, frames: seq<nat>)
      reads slab, space.vmem, space.m, space.kmap
    {
      if size <= 1024 then slab.Live() == old(slab.Live()) - {SlotOf(ptr, size)} && SameSpace()
      else slab.Live() == old(slab.Live()) && if size <= PAGE_SIZE then SameSpace() else RangeGave(ptr, size, frames)
    }

    /** A failure changes nothing; a success takes its pages from the pool. */
    twostate predicate Allocated(ptr: nat, size: nat, frames: seq<nat>)
      reads slab, slab.pages, space.vmem, space.m, space.m.pages, space.kmap
    {
      if ptr == 0 then Pool() == old(Pool()) && Same()
      else
        && Took(ptr, size, frames) && Holds(ptr, size, frames)
        && VSpace.FromFree(frames, old(Pool())) && Pool() == old(Pool()) - VSpace.Elements(frames)
    }

    /** Slab operations leave the address space as it is. */
    twostate lemma SlabMoved()
      requires old(Valid()) && slab.Valid() && unchanged(space.vmem, space.m, space.kmap)
               && slab.Spare() == old(slab.Spare())
      ensures Valid() && Pool() == old(Pool()) && SameSpace()
    {
      StaysApart(old(slab.pages.FreePages()), old(slab.slabs.Keys), space.m.place.Keys, slab.pages.FreePages(),
                 slab.slabs.Keys);
      space.PagesMoved();
    }

    /** A slab object; the address space stays as it is. */
    method AllocObject(size: nat) returns (ptr: nat)
      requires Valid() && size <= 1024
      modifies slab, slab.pages
      ensures Valid() && Pool() == old(Pool()) && SameSpace()
      ensures if ptr == 0 then slab.Live() == old(slab.Live())
              else slab.Live() == old(slab.Live()) + {SlotOf(ptr, size)} && SlotOf(ptr, size) !in old(slab.Live())
    {
      ptr := slab.Alloc(size);
      SlabMoved();
    }

    method SmallAlloc(size: nat) returns (ptr: nat)
      requires Valid() && size <= 1024
      modifies slab, slab.pages
      ensures Valid() && Allocated(ptr, size, [])
    {
      assert VSpace.FromFree([], Pool()) && VSpace.Elements([]) == {};
      ptr := AllocObject(size);
    }

    method SmallFree(ptr: nat, size: nat)
      requires Valid() && size <= 1024 && Holds(ptr, size, [])
      modifies slab, slab.pages
      ensures Valid() && Gave(ptr, size, []) && Pool() == old(Pool())
    {
      slab.Dealloc(ptr, size);
      SlabMoved();
    }

    /** A whole page, through the direct map. */
    method PageAlloc(ghost size: nat) returns (ptr: nat, ghost frames: seq<nat>)
      requires Valid() && 1024 < size <= PAGE_SIZE
      modifies slab.pages
      ensures Valid() && Allocated(ptr, size, frames)
    {
      var phys := slab.pages.Pmalloc();
      slab.PagesMoved();
      space.PagesMoved();
      if phys == 0 {
        return 0, [];
      }
      ptr, frames := slab.hhdm + phys, [phys / PAGE_SIZE];
      VSpace.ElementsAppend([], PageFrame(ptr));
    }

    method PageFree(ptr: nat, ghost size: nat, ghost frames: seq<nat>)
      requires Valid() && 1024 < size <= PAGE_SIZE && Holds(ptr, size, frames)
      modifies slab.pages
      ensures Valid() && Gave(ptr, size, frames) && Pool() == old(Pool()) + VSpace.Elements(frames)
    {
      slab.pages.Pfree(ptr - slab.hhdm);
      slab.PagesMoved();
      space.PagesMoved();
      VSpace.ElementsAppend([], PageFrame(ptr));
    }

    /** Address space operations leave the slabs as they are. */
    twostate lemma SpaceMoved(frames: set<int>)
      requires old(Valid()) && space.Valid() && unchanged(slab) && space.Spare() == old(space.Spare()) - frames
      ensures frames <= old(space.Spare()) ==> Pool() == old(Pool()) - frames
      ensures Valid()
    {
      slab.PagesMoved();
    }

    method LargeAlloc(size: nat) returns (ptr: nat, ghost frames: seq<nat>)
      requires Valid() && PAGE_SIZE < size < VMem.WORD
      modifies space.vmem, space.m`tables, space.m`place, space.m.pages, space.kmap`usedPages
      ensures Valid() && Allocated(ptr, size, frames)
    {
      ptr, frames := space.AllocBacked(0, size, READ_WRITE, WriteBack);
      SpaceMoved(if ptr == 0 then {} else VSpace.Elements(frames));
      if ptr == 0 {
        assert Same();
      } else {
        assert Took(ptr, size, frames);
        VSpace.AllMapped(space.m.tables, old(space.m.tables), space.kmap.level0, ptr, frames,
                         RealFlags(READ_WRITE, WriteBack, false));
      }
    }

    method LargeFree(ptr: nat, size: nat, ghost frames: seq<nat>)
      requires Valid() && size > PAGE_SIZE && Holds(ptr, size, frames)
      modifies space.vmem, space.m`tables, space.m.pages
      ensures Valid() && Gave(ptr, size, frames) && Pool() == old(Pool()) + VSpace.Elements(frames)
    {
      space.FreeBacked(ptr, size, frames);
      slab.PagesMoved();
    }

    /** Allocates `size` bytes, or nothing: 0 bytes are never allocated. */
    method Kmalloc(size: nat) returns (ptr: nat, ghost frames: seq<nat>)
      requires Valid() && size < VMem.WORD
      modifies slab, space.vmem, space.m`tables, space.m`place, space.m.pages, space.kmap`usedPages
      ensures Valid() && Allocated(ptr, size, frames) && (size == 0 ==> ptr == 0)
    {
      ptr, frames := 0, [];
      if size == 0 {
        return;
      }
      if size <= 1024 {
        ptr := SmallAlloc(size);
      } else if size <= PAGE_SIZE {
        ptr, frames := PageAlloc(size);
      } else {
        ptr, frames := LargeAlloc(size);
      }
    }

    /** Gives an allocation back; null pointers and sizes of 0 are ignored. */
    method Kfree(ptr: nat, size: nat, ghost frames: seq<nat>)
      requires Valid() && (ptr != 0 && size != 0 ==> Holds(ptr, size, frames))
      modifies slab, space.vmem, space.m`tables, space.m.pages
      ensures Valid()
      ensures ptr == 0 || size == 0 ==> Pool() == old(Pool()) && Same()
      ensures ptr != 0 && size != 0 ==> Gave(ptr, size, frames) && Pool() == old(Pool()) + VSpace.Elements(frames)
    {
      if ptr == 0 || size == 0 {
        return;
      }
      if size <= 1024 {
        SmallFree(ptr, size);
        assert VSpace.Elements(frames) == {};
      } else if size <= PAGE_SIZE {
        PageFree(ptr, size, frames);
      } else {
        LargeFree(ptr, size, frames);
      }
    }

    /** For every size: freeing what was just allocated leaves objects, addresses, translations and pages
        as they were. */
    method AllocThenFree(size: nat)
      requires Valid() && size < VMem.WORD
      modifies slab, space.vmem, space.m`tables, space.m`place, space.m.pages, space.kmap`usedPages
      ensures Valid() && Pool() == old(Pool()) && Same()
    {
      var ptr;
      ghost var frames;
      ptr, frames := Kmalloc(size);
      if ptr == 0 {
        return;
      }
      ghost var tb, flags := space.m.tables, RealFlags(READ_WRITE, WriteBack, false);
      VSpace.Returned(frames, old(Pool()));
      if size <= 1024 {
        InAndOut(old(slab.Live()), SlotOf(ptr, size));
      } else if size > PAGE_SIZE {
        InAndOut(old(space.Live()), (ptr, VSpace.Size(size)));
        space.LiveFits(ptr, VSpace.Size(size));
      }
      Kfree(ptr, size, frames);
      if size <= PAGE_SIZE {
        VSpace.SameMapTwice(old(space.m.tables), tb, space.m.tables, space.kmap.level0);
      } else {
        VSpace.Undone(space.m.tables, tb, old(space.m.tables), space.kmap.level0, ptr, frames, flags);
        space.vmem.SameLiveSameTiles();
      }
    }
  }
}
