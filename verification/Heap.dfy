/**
 Runs of kmalloc and kfree of src/mem/malloc.cpp over all sizes: slab objects, pages and backed ranges
 side by side.  The allocations of a run are known by names that its operations choose.
 */
module Heap {
  import opened PMalloc
  import opened Paging
  import Seqs
  import VMem
  import Slab
  import VSpace
  import Malloc

  // ----- sets that share nothing -----

  ghost predicate InSome<T(!new)>(family: map<nat, set<T>>, x: T) {
    exists id :: id in family && x in family[id]
  }

  /** `whole` is made up of `rest` and the sets of the family, no two of which share an element. */
  ghost predicate Split<T(!new)>(whole: set<T>, rest: set<T>, family: map<nat, set<T>>) {
    && (forall x {:trigger InSome(family, x)} {:trigger x in whole} :: x in whole <==> x in rest || InSome(family, x))
    && (forall id :: id in family ==> family[id] !! rest)
    && (forall id, id' :: id in family && id' in family && id != id' ==> family[id] !! family[id'])
  }

  lemma SomeAdded<T(!new)>(family: map<nat, set<T>>, id: nat, s: set<T>, x: T)
    requires id !in family
    ensures InSome(family[id := s], x) <==> InSome(family, x) || x in s
  {
    var family' := family[id := s];
    if InSome(family, x) {
      var n :| n in family && x in family[n];
      assert n in family' && x in family'[n];
    }
    if x in s {
      assert id in family' && x in family'[id];
    }
  }

  lemma SomeRemoved<T(!new)>(family: map<nat, set<T>>, id: nat, x: T)
    requires id in family
    ensures InSome(family, x) <==> InSome(family - {id}, x) || x in family[id]
  {
    var family' := family - {id};
    if InSome(family, x) && x !in family[id] {
      var n :| n in family && x in family[n];
      assert n in family' && x in family'[n];
    }
  }

  /** A set joins, and the whole grows. */
  lemma SplitGrows<T(!new)>(whole: set<T>, rest: set<T>, family: map<nat, set<T>>, id: nat, s: set<T>)
    requires Split(whole, rest, family) && id !in family && s !! whole
    ensures Split(whole + s, rest, family[id := s])
  {
    forall x
      ensures InSome(family[id := s], x) <==> InSome(family, x) || x in s
    {
      SomeAdded(family, id, s, x);
    }
    forall n | n in family
      ensures family[n] !! s
    {
      forall x | x in family[n]
        ensures x !in s
      {
        assert InSome(family, x);
      }
    }
  }

  /** A set joins, at the cost of the rest. */
  lemma SplitTakes<T(!new)>(whole: set<T>, rest: set<T>, family: map<nat, set<T>>, id: nat, s: set<T>)
    requires Split(whole, rest, family) && id !in family && s <= rest
    ensures Split(whole, rest - s, family[id := s])
  {
    forall x
      ensures InSome(family[id := s], x) <==> InSome(family, x) || x in s
    {
      SomeAdded(family, id, s, x);
    }
  }

  /** A set leaves, and the whole shrinks. */
  lemma SplitShrinks<T(!new)>(whole: set<T>, rest: set<T>, family: map<nat, set<T>>, id: nat)
    requires Split(whole, rest, family) && id in family
    ensures Split(whole - family[id], rest, family - {id})
  {
    forall x
      ensures InSome(family - {id}, x) <==> InSome(family, x) && x !in family[id]
    {
      SomeRemoved(family, id, x);
    }
  }

  /** A set leaves, to the benefit of the rest. */
  lemma SplitGives<T(!new)>(whole: set<T>, rest: set<T>, family: map<nat, set<T>>, id: nat)
    requires Split(whole, rest, family) && id in family
    ensures Split(whole, rest + family[id], family - {id})
  {
    forall x
      ensures InSome(family - {id}, x) <==> InSome(family, x) && x !in family[id]
    {
      SomeRemoved(family, id, x);
    }
  }

  lemma SplitOfNone<T(!new)>(whole: set<T>, rest: set<T>)
    ensures Split(whole, rest, map[]) <==> whole == rest
  {
  }

  // ----- allocations -----

  /** An allocation and the pages it has to itself; a slab object has none. */
  datatype Allocation = Allocation(ptr: nat, size: nat, frames: seq<nat>)

  type Allocations = map<nat, Allocation>

  ghost function ObjectOf(a: Allocation): set<(nat, nat)> {
    if a.size <= 1024 then {Malloc.SlotOf(a.ptr, a.size)} else {}
  }

  ghost function RangeOf(a: Allocation): set<(nat, nat)> {
    if a.size > PAGE_SIZE then {(a.ptr, VSpace.Size(a.size))} else {}
  }

  ghost function Objects(allocs: Allocations): map<nat, set<(nat, nat)>> {
    map id | id in allocs :: ObjectOf(allocs[id])
  }

  ghost function Ranges(allocs: Allocations): map<nat, set<(nat, nat)>> {
    map id | id in allocs :: RangeOf(allocs[id])
  }

  ghost function Frames(allocs: Allocations): map<nat, set<int>> {
    map id | id in allocs :: VSpace.Elements(allocs[id].frames)
  }

  /** What the sizes say about the pages. */
  ghost predicate Shaped(hhdm: nat, a: Allocation) {
    && a.ptr != 0 && a.size != 0 && Seqs.Distinct(a.frames)
    && if a.size <= 1024 then a.frames == []
       else if a.size <= PAGE_SIZE then
         && a.ptr >= hhdm + PAGE_SIZE && (a.ptr - hhdm) % PAGE_SIZE == 0
         && a.frames == [(a.ptr - hhdm) / PAGE_SIZE]
       else |a.frames| == VSpace.PageCount(a.size)
  }

  /** p is a page of a backed range. */
  ghost predicate Uses(a: Allocation, p: Path) {
    a.size > PAGE_SIZE && VSpace.InRange(a.ptr, |a.frames|, p)
  }

  ghost predicate Used(allocs: Allocations, p: Path) {
    exists id :: id in allocs && Uses(allocs[id], p)
  }

  /** A backed range maps its pages, and had no entries at first. */
  ghost predicate Mapped(tb: Tables, tb0: Tables, root: Frame, a: Allocation) {
    a.size > PAGE_SIZE ==>
      VSpace.MapsAll(tb, root, a.ptr, a.frames) && VSpace.NoEntries(tb0, root, a.ptr, |a.frames|)
  }

  /** Backed ranges are mapped; all other pages have the entries they had at first. */
  ghost predicate MapOk(tb: Tables, tb0: Tables, root: Frame, allocs: Allocations) {
    && (forall id :: id in allocs ==> Mapped(tb, tb0, root, allocs[id]))
    && (forall p {:trigger Used(allocs, p)} :: IsPath(p) && !Used(allocs, p) ==>
          Lookup(tb, root, p) == Lookup(tb0, root, p))
  }

  /** What the books say: objects, ranges, pages to be had, and translations. */
  datatype Books = Books(objects: set<(nat, nat)>, ranges: set<(nat, nat)>, pool: set<int>, tables: Tables)

  /** The books now are those of then, but for the allocations, which share nothing. */
  ghost predicate Balanced(now: Books, then0: Books, root: Frame, hhdm: nat, allocs: Allocations) {
    && Split(now.objects, then0.objects, Objects(allocs))
    && Split(now.ranges, then0.ranges, Ranges(allocs))
    && Split(then0.pool, now.pool, Frames(allocs))
    && MapOk(now.tables, then0.tables, root, allocs)
    && forall id :: id in allocs ==> Shaped(hhdm, allocs[id])
  }

  // ----- translations -----

  lemma NoneIfUsed(tb: Tables, tb0: Tables, root: Frame, a: Allocation, p: Path)
    requires Mapped(tb, tb0, root, a) && Uses(a, p)
    ensures IsPath(p) && Lookup(tb, root, p) != NOTHING && Lookup(tb0, root, p) == NOTHING
    ensures Lookup(tb, root, p).e.frame in VSpace.Elements(a.frames)
  {
    var i :| 0 <= i < |a.frames| && p == VSpace.PageAt(a.ptr, i);
    SameIndicesIffSamePage(a.ptr + i * PAGE_SIZE, a.ptr);
    assert VSpace.MapsTo(tb, root, VSpace.PageAt(a.ptr, i), a.frames[i]);
  }

  /** The pages of a range stay mapped if nothing changes there. */
  lemma StaysMapped(tb: Tables, tb': Tables, tb0: Tables, root: Frame, a: Allocation)
    requires Mapped(tb, tb0, root, a)
    requires forall p :: IsPath(p) && Uses(a, p) ==> Lookup(tb', root, p) == Lookup(tb, root, p)
    ensures Mapped(tb', tb0, root, a)
  {
    if a.size > PAGE_SIZE {
      forall i | 0 <= i < |a.frames|
        ensures VSpace.MapsTo(tb', root, VSpace.PageAt(a.ptr, i), a.frames[i])
      {
        SameIndicesIffSamePage(a.ptr + i * PAGE_SIZE, a.ptr);
        assert Uses(a, VSpace.PageAt(a.ptr, i));
        assert VSpace.MapsTo(tb, root, VSpace.PageAt(a.ptr, i), a.frames[i]);
      }
    }
  }

  lemma UsedAdded(allocs: Allocations, id: nat, a: Allocation, p: Path)
    requires id !in allocs
    ensures Used(allocs[id := a], p) <==> Used(allocs, p) || Uses(a, p)
  {
    var allocs' := allocs[id := a];
    if Used(allocs, p) {
      var n :| n in allocs && Uses(allocs[n], p);
      assert n in allocs' && allocs'[n] == allocs[n];
    }
    if Uses(a, p) {
      assert id in allocs' && allocs'[id] == a;
    }
  }

  lemma UsedRemoved(allocs: Allocations, id: nat, p: Path)
    requires id in allocs
    ensures Used(allocs, p) <==> Used(allocs - {id}, p) || Uses(allocs[id], p)
  {
    var allocs' := allocs - {id};
    if Used(allocs, p) && !Uses(allocs[id], p) {
      var n :| n in allocs && Uses(allocs[n], p);
      assert n in allocs' && allocs'[n] == allocs[n];
    }
  }

  lemma FreshPagesUnused(tb: Tables, tb0: Tables, root: Frame, allocs: Allocations, a: Allocation, p: Path)
    requires MapOk(tb, tb0, root, allocs) && VSpace.NoEntries(tb, root, a.ptr, |a.frames|) && Uses(a, p)
    ensures IsPath(p) && !Used(allocs, p) && Lookup(tb0, root, p) == NOTHING
  {
    var i :| 0 <= i < |a.frames| && p == VSpace.PageAt(a.ptr, i);
    SameIndicesIffSamePage(a.ptr + i * PAGE_SIZE, a.ptr);
    UsedIsMapped(tb, tb0, root, allocs, p);
  }

  lemma UsedIsMapped(tb: Tables, tb0: Tables, root: Frame, allocs: Allocations, p: Path)
    requires MapOk(tb, tb0, root, allocs) && |p| == 4
    ensures Used(allocs, p) ==> Lookup(tb, root, p) != NOTHING
  {
    if Used(allocs, p) {
      var n :| n in allocs && Uses(allocs[n], p);
      NoneIfUsed(tb, tb0, root, allocs[n], p);
    }
  }

  /** A new backed range, where nothing was mapped. */
  lemma MapAdded(tb: Tables, tb': Tables, tb0: Tables, root: Frame, allocs: Allocations, id: nat, a: Allocation,
                 flags: Flags)
    requires MapOk(tb, tb0, root, allocs) && id !in allocs && a.size > PAGE_SIZE
    requires VSpace.NoEntries(tb, root, a.ptr, |a.frames|) && VSpace.MapsAll(tb', root, a.ptr, a.frames)
    requires VSpace.RangeIs(tb', tb, root, a.ptr, VSpace.Mapped(a.frames, flags))
    ensures MapOk(tb', tb0, root, allocs[id := a])
  {
    var allocs' := allocs[id := a];
    forall i | 0 <= i < |a.frames|
      ensures Lookup(tb0, root, VSpace.PageAt(a.ptr, i)) == NOTHING
    {
      assert Uses(a, VSpace.PageAt(a.ptr, i));
      FreshPagesUnused(tb, tb0, root, allocs, a, VSpace.PageAt(a.ptr, i));
    }
    forall n | n in allocs
      ensures Mapped(tb', tb0, root, allocs[n])
    {
      forall p | IsPath(p) && Uses(allocs[n], p)
        ensures Lookup(tb', root, p) == Lookup(tb, root, p)
      {
        assert Used(allocs, p);
        if Uses(a, p) {
          FreshPagesUnused(tb, tb0, root, allocs, a, p);
        }
      }
      StaysMapped(tb, tb', tb0, root, allocs[n]);
    }
    forall p {:trigger Used(allocs', p)} | IsPath(p) && !Used(allocs', p)
      ensures Lookup(tb', root, p) == Lookup(tb0, root, p)
    {
      UsedAdded(allocs, id, a, p);
    }
  }

  /** Two backed ranges have no page in common, since they have no frame in common. */
  lemma NoCommonPage(tb: Tables, tb0: Tables, root: Frame, allocs: Allocations, n: nat, id: nat, whole: set<int>,
                     rest: set<int>, p: Path)
    requires MapOk(tb, tb0, root, allocs) && n in allocs && id in allocs && n != id
             && Split(whole, rest, Frames(allocs))
    ensures !(Uses(allocs[n], p) && Uses(allocs[id], p))
  {
    assert Frames(allocs)[n] !! Frames(allocs)[id];
    assert Mapped(tb, tb0, root, allocs[n]) && Mapped(tb, tb0, root, allocs[id]);
    if Uses(allocs[n], p) {
      NoneIfUsed(tb, tb0, root, allocs[n], p);
      if Uses(allocs[id], p) {
        NoneIfUsed(tb, tb0, root, allocs[id], p);
        assert false;
      }
    }
  }

  /** A backed range is unmapped; no other range has a page of it. */
  lemma MapRemoved(tb: Tables, tb': Tables, tb0: Tables, root: Frame, allocs: Allocations, id: nat, whole: set<int>,
                   rest: set<int>)
    requires MapOk(tb, tb0, root, allocs) && id in allocs && allocs[id].size > PAGE_SIZE
             && Split(whole, rest, Frames(allocs))
    requires VSpace.RangeIs(tb', tb, root, allocs[id].ptr, VSpace.Nothing(|allocs[id].frames|))
    ensures MapOk(tb', tb0, root, allocs - {id})
  {
    var a, allocs' := allocs[id], allocs - {id};
    forall n | n in allocs'
      ensures Mapped(tb', tb0, root, allocs'[n])
    {
      forall p | IsPath(p) && Uses(allocs[n], p)
        ensures Lookup(tb', root, p) == Lookup(tb, root, p)
      {
        NoCommonPage(tb, tb0, root, allocs, n, id, whole, rest, p);
      }
      StaysMapped(tb, tb', tb0, root, allocs[n]);
    }
    forall p {:trigger Used(allocs', p)} | IsPath(p) && !Used(allocs', p)
      ensures Lookup(tb', root, p) == Lookup(tb0, root, p)
    {
      UsedRemoved(allocs, id, p);
      if Uses(a, p) {
        NoneIfUsed(tb, tb0, root, a, p);
        var i :| 0 <= i < |a.frames| && p == VSpace.PageAt(a.ptr, i);
        assert VSpace.Nothing(|a.frames|)[i] == NOTHING;
      }
    }
  }

  /** Nothing is mapped or unmapped for objects and pages. */
  lemma MapSame(tb: Tables, tb': Tables, tb0: Tables, root: Frame, allocs: Allocations, allocs': Allocations)
    requires MapOk(tb, tb0, root, allocs) && VSpace.SameMap(tb, tb', root)
    requires forall id :: id in allocs' && allocs'[id].size > PAGE_SIZE ==> id in allocs && allocs[id] == allocs'[id]
    requires forall id :: id in allocs && allocs[id].size > PAGE_SIZE ==> id in allocs' && allocs[id] == allocs'[id]
    ensures MapOk(tb', tb0, root, allocs')
  {
    forall n | n in allocs' && allocs'[n].size > PAGE_SIZE
      ensures Mapped(tb', tb0, root, allocs'[n])
    {
      StaysMapped(tb, tb', tb0, root, allocs[n]);
    }
    forall p {:trigger Used(allocs', p)} | IsPath(p) && !Used(allocs', p)
      ensures Lookup(tb', root, p) == Lookup(tb0, root, p)
    {
      SameUsed(allocs, allocs', p);
    }
  }

  lemma SameUsed(allocs: Allocations, allocs': Allocations, p: Path)
    requires forall id :: id in allocs && allocs[id].size > PAGE_SIZE ==> id in allocs' && allocs[id] == allocs'[id]
    ensures Used(allocs, p) ==> Used(allocs', p)
  {
    if Used(allocs, p) {
      var n :| n in allocs && Uses(allocs[n], p);
      assert n in allocs' && Uses(allocs'[n], p);
    }
  }

  // ----- the books stay balanced -----

  lemma FamiliesAdded(allocs: Allocations, id: nat, a: Allocation)
    ensures Objects(allocs[id := a]) == Objects(allocs)[id := ObjectOf(a)]
    ensures Ranges(allocs[id := a]) == Ranges(allocs)[id := RangeOf(a)]
    ensures Frames(allocs[id := a]) == Frames(allocs)[id := VSpace.Elements(a.frames)]
  {
  }

  lemma FamiliesRemoved(allocs: Allocations, id: nat)
    ensures Objects(allocs - {id}) == Objects(allocs) - {id}
    ensures Ranges(allocs - {id}) == Ranges(allocs) - {id}
    ensures Frames(allocs - {id}) == Frames(allocs) - {id}
  {
  }

  lemma BalancedAdded(now: Books, now': Books, then0: Books, root: Frame, hhdm: nat, allocs: Allocations, id: nat,
                      a: Allocation)
    requires Balanced(now, then0, root, hhdm, allocs) && id !in allocs && Shaped(hhdm, a)
    requires now'.objects == now.objects + ObjectOf(a) && ObjectOf(a) !! now.objects
    requires now'.ranges == now.ranges + RangeOf(a) && RangeOf(a) !! now.ranges
    requires now'.pool == now.pool - VSpace.Elements(a.frames) && VSpace.Elements(a.frames) <= now.pool
    requires MapOk(now'.tables, then0.tables, root, allocs[id := a])
    ensures Balanced(now', then0, root, hhdm, allocs[id := a])
  {
    FamiliesAdded(allocs, id, a);
    SplitGrows(now.objects, then0.objects, Objects(allocs), id, ObjectOf(a));
    SplitGrows(now.ranges, then0.ranges, Ranges(allocs), id, RangeOf(a));
    SplitTakes(then0.pool, now.pool, Frames(allocs), id, VSpace.Elements(a.frames));
  }

  lemma BalancedRemoved(now: Books, now': Books, then0: Books, root: Frame, hhdm: nat, allocs: Allocations, id: nat)
    requires Balanced(now, then0, root, hhdm, allocs) && id in allocs
    requires now'.objects == now.objects - ObjectOf(allocs[id])
    requires now'.ranges == now.ranges - RangeOf(allocs[id])
    requires now'.pool == now.pool + VSpace.Elements(allocs[id].frames)
    requires MapOk(now'.tables, then0.tables, root, allocs - {id})
    ensures Balanced(now', then0, root, hhdm, allocs - {id})
  {
    FamiliesRemoved(allocs, id);
    SplitShrinks(now.objects, then0.objects, Objects(allocs), id);
    SplitShrinks(now.ranges, then0.ranges, Ranges(allocs), id);
    SplitGives(then0.pool, now.pool, Frames(allocs), id);
  }

  /** With no allocation left, everything is as it was at first. */
  lemma BalancedEmpty(now: Books, then0: Books, root: Frame, hhdm: nat)
    ensures Balanced(now, then0, root, hhdm, map[]) <==>
            && now.objects == then0.objects && now.ranges == then0.ranges && now.pool == then0.pool
            && VSpace.SameMap(then0.tables, now.tables, root)
  {
    var none: Allocations := map[];
    assert Objects(none) == map[] && Ranges(none) == map[] && Frames(none) == map[];
    SplitOfNone(now.objects, then0.objects);
    SplitOfNone(now.ranges, then0.ranges);
    SplitOfNone(then0.pool, now.pool);
    forall p | IsPath(p)
      ensures MapOk(now.tables, then0.tables, root, none) ==>
                Lookup(now.tables, root, p) == Lookup(then0.tables, root, p)
    {
      assert !Used(none, p);
    }
  }

  // ----- the heap -----

  ghost function Open(h: Malloc.KernelHeap): Books
    reads h.slab, h.slab.pages, h.space.vmem, h.space.m, h.space.m.pages
  {
    Books(h.slab.Live(), h.space.Live(), h.Pool(), h.space.m.tables)
  }

  ghost predicate HeapOk(h: Malloc.KernelHeap, then0: Books, allocs: Allocations)
    reads h.slab, h.slab.pages, h.space.vmem, h.space.m, h.space.m.pages, h.space.kmap
  {
    h.Valid() && Balanced(Open(h), then0, h.space.kmap.level0, h.slab.hhdm, allocs)
  }

  /** Every allocation of the run still holds what it was given, whatever happened to the others. */
  lemma StillHeld(h: Malloc.KernelHeap, then0: Books, allocs: Allocations, id: nat)
    requires HeapOk(h, then0, allocs) && id in allocs
    ensures h.Holds(allocs[id].ptr, allocs[id].size, allocs[id].frames)
  {
    var a := allocs[id];
    assert Shaped(h.slab.hhdm, a) && Mapped(h.space.m.tables, then0.tables, h.space.kmap.level0, a);
    if a.size <= 1024 {
      assert Malloc.SlotOf(a.ptr, a.size) in Objects(allocs)[id];
      assert InSome(Objects(allocs), Malloc.SlotOf(a.ptr, a.size));
    } else {
      assert Frames(allocs)[id] !! h.Pool();
      if a.size <= PAGE_SIZE {
        VSpace.ElementsAppend([], h.PageFrame(a.ptr));
      } else {
        assert (a.ptr, VSpace.Size(a.size)) in Ranges(allocs)[id];
        assert InSome(Ranges(allocs), (a.ptr, VSpace.Size(a.size)));
      }
    }
  }

  /** Whether a byte of physical memory belongs to an allocation. */
  ghost predicate Owns(hhdm: nat, a: Allocation, x: nat) {
    if a.size <= 1024 then
      var slot := Malloc.SlotOf(a.ptr, a.size);
      slot.0 <= hhdm + x < slot.0 + slot.1
    else x / PAGE_SIZE in VSpace.Elements(a.frames)
  }

  lemma ObjectPage(h: Malloc.KernelHeap, then0: Books, allocs: Allocations, id: nat, x: nat)
    requires HeapOk(h, then0, allocs) && id in allocs && allocs[id].size <= 1024 && Owns(h.slab.hhdm, allocs[id], x)
    ensures x / PAGE_SIZE in h.slab.slabs
  {
    StillHeld(h, then0, allocs, id);
    assert h.slab.hhdm % PAGE_SIZE == 0;
    var f := Slab.ObjectInPage(h.slab.hhdm, h.slab.slabs, Malloc.SlotOf(allocs[id].ptr, allocs[id].size));
    PageOfByte(f, x);
  }

  lemma PageOfByte(f: nat, x: nat)
    requires f * PAGE_SIZE <= x < (f + 1) * PAGE_SIZE
    ensures x / PAGE_SIZE == f
  {
  }

  lemma ObjectBytes(h: Malloc.KernelHeap, then0: Books, allocs: Allocations, id: nat, n: nat, x: nat)
    requires HeapOk(h, then0, allocs) && id in allocs && n in allocs && id != n && allocs[id].size <= 1024
    ensures !(Owns(h.slab.hhdm, allocs[id], x) && Owns(h.slab.hhdm, allocs[n], x))
  {
    if Owns(h.slab.hhdm, allocs[id], x) {
      ObjectPage(h, then0, allocs, id, x);
      StillHeld(h, then0, allocs, id);
      StillHeld(h, then0, allocs, n);
      if allocs[n].size <= 1024 {
        var s, t := Malloc.SlotOf(allocs[id].ptr, allocs[id].size), Malloc.SlotOf(allocs[n].ptr, allocs[n].size);
        assert s in Objects(allocs)[id] && t in Objects(allocs)[n] && Objects(allocs)[id] !! Objects(allocs)[n];
        Slab.ObjectsApart(h.slab.hhdm, h.slab.slabs, s, t);
      } else {
        assert x / PAGE_SIZE in h.Pool() && Frames(allocs)[n] !! h.Pool();
      }
    }
  }

  /** Two live allocations of any sizes have no byte of memory in common. */
  lemma NoSharedByte(h: Malloc.KernelHeap, then0: Books, allocs: Allocations, id: nat, n: nat, x: nat)
    requires HeapOk(h, then0, allocs) && id in allocs && n in allocs && id != n
    ensures !(Owns(h.slab.hhdm, allocs[id], x) && Owns(h.slab.hhdm, allocs[n], x))
  {
    if allocs[id].size <= 1024 {
      ObjectBytes(h, then0, allocs, id, n, x);
    } else if allocs[n].size <= 1024 {
      ObjectBytes(h, then0, allocs, n, id, x);
    } else {
      assert Frames(allocs)[id] !! Frames(allocs)[n];
    }
  }

  /** Two live backed ranges have no address in common. */
  lemma RangesApart(h: Malloc.KernelHeap, then0: Books, allocs: Allocations, id: nat, n: nat)
    requires HeapOk(h, then0, allocs) && id in allocs && n in allocs && id != n
    requires allocs[id].size > PAGE_SIZE && allocs[n].size > PAGE_SIZE
    ensures var a, b := allocs[id], allocs[n];
            a.ptr + VSpace.Size(a.size) <= b.ptr || b.ptr + VSpace.Size(b.size) <= a.ptr
  {
    var a, b, vmem := allocs[id], allocs[n], h.space.vmem;
    StillHeld(h, then0, allocs, id);
    StillHeld(h, then0, allocs, n);
    assert (a.ptr, VSpace.Size(a.size)) in Ranges(allocs)[id] && (b.ptr, VSpace.Size(b.size)) in Ranges(allocs)[n];
    assert Ranges(allocs)[id] !! Ranges(allocs)[n];
    VMem.LiveDisjoint(vmem.tiles, vmem.base, vmem.base + vmem.size, (a.ptr, VSpace.Size(a.size)),
                      (b.ptr, VSpace.Size(b.size)));
  }

  /** What a successful allocation does to the books. */
  ghost predicate Grew(now: Books, now': Books, root: Frame, hhdm: nat, a: Allocation) {
    && Shaped(hhdm, a)
    && now'.objects == now.objects + ObjectOf(a) && ObjectOf(a) !! now.objects
    && now'.ranges == now.ranges + RangeOf(a) && RangeOf(a) !! now.ranges
    && now'.pool == now.pool - VSpace.Elements(a.frames) && VSpace.Elements(a.frames) <= now.pool
    && if a.size <= PAGE_SIZE then VSpace.SameMap(now.tables, now'.tables, root)
       else
         && VSpace.NoEntries(now.tables, root, a.ptr, |a.frames|) && VSpace.MapsAll(now'.tables, root, a.ptr, a.frames)
         && VSpace.RangeIs(now'.tables, now.tables, root, a.ptr,
                           VSpace.Mapped(a.frames, RealFlags(Malloc.READ_WRITE, WriteBack, false)))
  }

  lemma BalancedGrew(now: Books, now': Books, then0: Books, root: Frame, hhdm: nat, allocs: Allocations, id: nat,
                     a: Allocation)
    requires Balanced(now, then0, root, hhdm, allocs) && id !in allocs && Grew(now, now', root, hhdm, a)
    ensures Balanced(now', then0, root, hhdm, allocs[id := a])
  {
    if a.size <= PAGE_SIZE {
      MapSame(now.tables, now'.tables, then0.tables, root, allocs, allocs[id := a]);
    } else {
      MapAdded(now.tables, now'.tables, then0.tables, root, allocs, id, a,
               RealFlags(Malloc.READ_WRITE, WriteBack, false));
    }
    BalancedAdded(now, now', then0, root, hhdm, allocs, id, a);
  }

  ghost predicate SameBooks(now: Books, now': Books, root: Frame) {
    && now'.objects == now.objects && now'.ranges == now.ranges && now'.pool == now.pool
    && VSpace.SameMap(now.tables, now'.tables, root)
  }

  lemma BalancedSame(now: Books, now': Books, then0: Books, root: Frame, hhdm: nat, allocs: Allocations)
    requires Balanced(now, then0, root, hhdm, allocs) && SameBooks(now, now', root)
    ensures Balanced(now', then0, root, hhdm, allocs)
  {
    MapSame(now.tables, now'.tables, then0.tables, root, allocs, allocs);
  }

  /** What an allocation does to the books, whether it fails or not. */
  ghost predicate Booked(now: Books, now': Books, root: Frame, hhdm: nat, ptr: nat, size: nat, frames: seq<nat>) {
    if ptr == 0 then SameBooks(now, now', root) else Grew(now, now', root, hhdm, Allocation(ptr, size, frames))
  }

  lemma GrewObject(now: Books, now': Books, root: Frame, hhdm: nat, ptr: nat, size: nat)
    requires ptr != 0 && 0 < size <= 1024 && VSpace.SameMap(now.tables, now'.tables, root)
    requires now'.objects == now.objects + {Malloc.SlotOf(ptr, size)} && Malloc.SlotOf(ptr, size) !in now.objects
    requires now'.ranges == now.ranges && now'.pool == now.pool - VSpace.Elements([])
    ensures Grew(now, now', root, hhdm, Allocation(ptr, size, []))
  {
  }

  /** An object. */
  method BookObject(h: Malloc.KernelHeap, size: nat) returns (ptr: nat, ghost frames: seq<nat>)
    requires h.Valid() && 0 < size <= 1024
    modifies h.slab, h.space.vmem, h.space.m`tables, h.space.m`place, h.space.m.pages, h.space.kmap`usedPages
    ensures h.Valid() && Booked(old(Open(h)), Open(h), h.space.kmap.level0, h.slab.hhdm, ptr, size, frames)
  {
    ghost var now := Open(h);
    ptr, frames := h.Kmalloc(size);
    if ptr != 0 {
      GrewObject(now, Open(h), h.space.kmap.level0, h.slab.hhdm, ptr, size);
    }
  }

  /** A page. */
  method BookPage(h: Malloc.KernelHeap, size: nat) returns (ptr: nat, ghost frames: seq<nat>)
    requires h.Valid() && 1024 < size <= PAGE_SIZE
    modifies h.slab, h.space.vmem, h.space.m`tables, h.space.m`place, h.space.m.pages, h.space.kmap`usedPages
    ensures h.Valid() && Booked(old(Open(h)), Open(h), h.space.kmap.level0, h.slab.hhdm, ptr, size, frames)
  {
    ptr, frames := h.Kmalloc(size);
  }

  /** A backed range. */
  method BookRange(h: Malloc.KernelHeap, size: nat) returns (ptr: nat, ghost frames: seq<nat>)
    requires h.Valid() && PAGE_SIZE < size < VMem.WORD
    modifies h.slab, h.space.vmem, h.space.m`tables, h.space.m`place, h.space.m.pages, h.space.kmap`usedPages
    ensures h.Valid() && Booked(old(Open(h)), Open(h), h.space.kmap.level0, h.slab.hhdm, ptr, size, frames)
  {
    ptr, frames := h.Kmalloc(size);
  }

  method Book(h: Malloc.KernelHeap, size: nat) returns (ptr: nat, ghost frames: seq<nat>)
    requires h.Valid() && size < VMem.WORD
    modifies h.slab, h.space.vmem, h.space.m`tables, h.space.m`place, h.space.m.pages, h.space.kmap`usedPages
    ensures h.Valid() && Booked(old(Open(h)), Open(h), h.space.kmap.level0, h.slab.hhdm, ptr, size, frames)
  {
    if size == 0 {
      ptr, frames := h.Kmalloc(size);
    } else if size <= 1024 {
      ptr, frames := BookObject(h, size);
    } else if size <= PAGE_SIZE {
      ptr, frames := BookPage(h, size);
    } else {
      ptr, frames := BookRange(h, size);
    }
  }

  method Alloc(h: Malloc.KernelHeap, size: nat, ghost then0: Books, ghost allocs: Allocations, id: nat)
    returns (ptr: nat, ghost allocs': Allocations)
    requires HeapOk(h, then0, allocs) && size < VMem.WORD && id !in allocs
    modifies h.slab, h.space.vmem, h.space.m`tables, h.space.m`place, h.space.m.pages, h.space.kmap`usedPages
    ensures HeapOk(h, then0, allocs')
    ensures ptr == 0 ==> allocs' == allocs
    ensures ptr != 0 ==>
              && id in allocs' && allocs' == allocs[id := allocs'[id]] && allocs'[id].ptr == ptr
              && allocs'[id].size == size
  {
    ghost var now, root, frames := Open(h), h.space.kmap.level0, [];
    ptr, frames := Book(h, size);
    if ptr == 0 {
      allocs' := allocs;
      BalancedSame(now, Open(h), then0, root, h.slab.hhdm, allocs);
    } else {
      allocs' := allocs[id := Allocation(ptr, size, frames)];
      BalancedGrew(now, Open(h), then0, root, h.slab.hhdm, allocs, id, Allocation(ptr, size, frames));
    }
  }

  /** What giving an allocation back does to the books. */
  ghost predicate Shrank(now: Books, now': Books, root: Frame, a: Allocation) {
    && now'.objects == now.objects - ObjectOf(a) && now'.ranges == now.ranges - RangeOf(a)
    && now'.pool == now.pool + VSpace.Elements(a.frames)
    && if a.size <= PAGE_SIZE then VSpace.SameMap(now.tables, now'.tables, root)
       else VSpace.RangeIs(now'.tables, now.tables, root, a.ptr, VSpace.Nothing(|a.frames|))
  }

  lemma BalancedShrank(now: Books, now': Books, then0: Books, root: Frame, hhdm: nat, allocs: Allocations, id: nat)
    requires Balanced(now, then0, root, hhdm, allocs) && id in allocs && Shrank(now, now', root, allocs[id])
    ensures Balanced(now', then0, root, hhdm, allocs - {id})
  {
    if allocs[id].size <= PAGE_SIZE {
      MapSame(now.tables, now'.tables, then0.tables, root, allocs, allocs - {id});
    } else {
      MapRemoved(now.tables, now'.tables, then0.tables, root, allocs, id, then0.pool, now.pool);
    }
    BalancedRemoved(now, now', then0, root, hhdm, allocs, id);
  }

  method Free(h: Malloc.KernelHeap, ptr: nat, size: nat, ghost then0: Books, ghost allocs: Allocations, id: nat)
    requires HeapOk(h, then0, allocs) && id in allocs && allocs[id].ptr == ptr && allocs[id].size == size
    modifies h.slab, h.space.vmem, h.space.m`tables, h.space.m.pages
    ensures HeapOk(h, then0, allocs - {id})
  {
    ghost var now, root, a := Open(h), h.space.kmap.level0, allocs[id];
    StillHeld(h, then0, allocs, id);
    assert Shaped(h.slab.hhdm, a);
    h.Kfree(ptr, size, a.frames);
    BalancedShrank(now, Open(h), then0, root, h.slab.hhdm, allocs, id);
  }

  // ----- runs -----

  datatype Op = DoAlloc(id: nat, size: nat) | DoFree(id: nat)

  /** The addresses and sizes that the caller remembers are those of the allocations. */
  ghost predicate Known(held: map<nat, (nat, nat)>, allocs: Allocations) {
    held.Keys == allocs.Keys && forall id :: id in held ==> held[id] == (allocs[id].ptr, allocs[id].size)
  }

  lemma KnownAfter(held: map<nat, (nat, nat)>, allocs: Allocations, id: nat, a: Allocation)
    requires Known(held, allocs)
    ensures Known(held[id := (a.ptr, a.size)], allocs[id := a]) && Known(held - {id}, allocs - {id})
  {
  }

  method StepAlloc(h: Malloc.KernelHeap, id: nat, size: nat, held: map<nat, (nat, nat)>, ghost then0: Books,
                   ghost allocs: Allocations)
    returns (held': map<nat, (nat, nat)>, ghost allocs': Allocations)
    requires HeapOk(h, then0, allocs) && Known(held, allocs) && id !in held && size < VMem.WORD
    modifies h.slab, h.space.vmem, h.space.m`tables, h.space.m`place, h.space.m.pages, h.space.kmap`usedPages
    ensures HeapOk(h, then0, allocs') && Known(held', allocs')
  {
    var ptr;
    ptr, allocs' := Alloc(h, size, then0, allocs, id);
    if ptr == 0 {
      held' := held;
    } else {
      held' := held[id := (ptr, size)];
      KnownAfter(held, allocs, id, allocs'[id]);
    }
  }

  method StepFree(h: Malloc.KernelHeap, id: nat, held: map<nat, (nat, nat)>, ghost then0: Books,
                  ghost allocs: Allocations)
    returns (held': map<nat, (nat, nat)>, ghost allocs': Allocations)
    requires HeapOk(h, then0, allocs) && Known(held, allocs) && id in held
    modifies h.slab, h.space.vmem, h.space.m`tables, h.space.m.pages
    ensures HeapOk(h, then0, allocs') && Known(held', allocs') && held' == held - {id}
  {
    KnownAfter(held, allocs, id, allocs[id]);
    Free(h, held[id].0, held[id].1, then0, allocs, id);
    held', allocs' := held - {id}, allocs - {id};
  }

  method Step(h: Malloc.KernelHeap, op: Op, held: map<nat, (nat, nat)>, ghost then0: Books, ghost allocs: Allocations)
    returns (held': map<nat, (nat, nat)>, ghost allocs': Allocations)
    requires HeapOk(h, then0, allocs) && Known(held, allocs)
    modifies h.slab, h.space.vmem, h.space.m`tables, h.space.m`place, h.space.m.pages, h.space.kmap`usedPages
    ensures HeapOk(h, then0, allocs') && Known(held', allocs')
  {
    held', allocs' := held, allocs;
    if op.DoAlloc? && op.id !in held && op.size < VMem.WORD {
      held', allocs' := StepAlloc(h, op.id, op.size, held, then0, allocs);
    } else if op.DoFree? && op.id in held {
      held', allocs' := StepFree(h, op.id, held, then0, allocs);
    }
  }

  /**
   Any run of allocations and frees of any sizes, in any order (operations on names that are taken, or
   not held, are skipped).  Afterwards the books are those of the start but for the allocations held,
   which share no object, range or page: NoSharedByte, RangesApart and StillHeld say what follows.
   */
  method Run(h: Malloc.KernelHeap, ops: seq<Op>) returns (held: map<nat, (nat, nat)>, ghost allocs: Allocations)
    requires h.Valid()
    modifies h.slab, h.space.vmem, h.space.m`tables, h.space.m`place, h.space.m.pages, h.space.kmap`usedPages
    ensures HeapOk(h, old(Open(h)), allocs) && Known(held, allocs)
  {
    ghost var then0 := Open(h);
    held, allocs := map[], map[];
    BalancedEmpty(then0, then0, h.space.kmap.level0, h.slab.hhdm);
    for n := 0 to |ops|
      invariant HeapOk(h, then0, allocs) && Known(held, allocs)
    {
      held, allocs := Step(h, ops[n], held, then0, allocs);
    }
  }

  /** Frees all allocations held, in any order. */
  method FreeAll(h: Malloc.KernelHeap, held: map<nat, (nat, nat)>, ghost then0: Books, ghost allocs0: Allocations)
    requires HeapOk(h, then0, allocs0) && Known(held, allocs0)
    modifies h.slab, h.space.vmem, h.space.m`tables, h.space.m.pages
    ensures h.Valid() && SameBooks(then0, Open(h), h.space.kmap.level0)
  {
    var left := held;
    ghost var allocs := allocs0;
    while left != map[]
      invariant HeapOk(h, then0, allocs) && Known(left, allocs)
      decreases left.Keys
    {
      var id :| id in left;
      left, allocs := StepFree(h, id, left, then0, allocs);
    }
    assert allocs == map[];
    BalancedEmpty(Open(h), then0, h.space.kmap.level0, h.slab.hhdm);
  }

  /** A run after which everything is freed leaves objects, addresses, translations and pages as they were. */
  method RunAndFreeAll(h: Malloc.KernelHeap, ops: seq<Op>)
    requires h.Valid()
    modifies h.slab, h.space.vmem, h.space.m`tables, h.space.m`place, h.space.m.pages, h.space.kmap`usedPages
    ensures h.Valid() && SameBooks(old(Open(h)), Open(h), h.space.kmap.level0)
    ensures h.space.vmem.tiles == old(h.space.vmem.tiles)
  {
    var held;
    ghost var allocs;
    held, allocs := Run(h, ops);
    FreeAll(h, held, old(Open(h)), allocs);
    h.space.vmem.SameLiveSameTiles();
  }
}
