/**
 Backed allocations of src/mem/vspace.cpp: an address range of the kernel's arena, every page of it
 mapped to a page of physical memory.  Puts the arena, the page tables and the page allocator
 together.
 */
module VSpace {
  import opened PMalloc
  import opened Paging
  import Seqs
  import VMem

  const CANONICAL: nat := 0x1_0000_0000_0000

  /** The indices of the i-th page of a range. */
  function PageAt(ptr: nat, i: nat): Path {
    Indices(ptr + i * PAGE_SIZE)
  }

  lemma NearbyNumbersDiffer(a: nat, d: nat)
    requires 0 < d < 0x10_0000_0000
    ensures (a + d) % 0x10_0000_0000 != a % 0x10_0000_0000
  {
  }

  lemma PagesDiffer(ptr: nat, i: nat, j: nat)
    requires i < j && (j - i) * PAGE_SIZE < CANONICAL
    ensures PageAt(ptr, i) != PageAt(ptr, j) && IsPath(PageAt(ptr, i)) && IsPath(PageAt(ptr, j))
  {
    var v, w := ptr + i * PAGE_SIZE, ptr + j * PAGE_SIZE;
    assert w / PAGE_SIZE == v / PAGE_SIZE + (j - i);
    NearbyNumbersDiffer(v / PAGE_SIZE, j - i);
    assert PageNumber(w) != PageNumber(v);
    SameIndicesIffSamePage(v, w);
    SameIndicesIffSamePage(w, v);
  }

  lemma AddressesDiffer(v: nat, w: nat)
    requires v % PAGE_SIZE == 0 && w % PAGE_SIZE == 0 && v < w < v + CANONICAL
    ensures Indices(v) != Indices(w)
  {
    var d := (w - v) / PAGE_SIZE;
    assert w / PAGE_SIZE == v / PAGE_SIZE + d;
    NearbyNumbersDiffer(v / PAGE_SIZE, d);
    SameIndicesIffSamePage(v, w);
  }

  /** Address v lies in one of the n pages that backing the range at ptr maps. */
  ghost predicate BackedAt(ptr: nat, n: nat, v: nat) {
    exists i {:trigger PageAt(ptr, i)} :: 0 <= i < n && Indices(v) == PageAt(ptr, i)
  }

  lemma LastByteUnbacked(ptr: nat, n: nat)
    requires 0 < n && n * PAGE_SIZE < CANONICAL && ptr % PAGE_SIZE != 0
    ensures !BackedAt(ptr, n, ptr + n * PAGE_SIZE - 1)
  {
    var v := ptr + n * PAGE_SIZE - 1;
    forall i {:trigger PageAt(ptr, i)} | 0 <= i < n
      ensures Indices(v) != PageAt(ptr, i)
    {
      var w := ptr + i * PAGE_SIZE;
      assert v / PAGE_SIZE == ptr / PAGE_SIZE + n && w / PAGE_SIZE == ptr / PAGE_SIZE + i;
      NearbyNumbersDiffer(w / PAGE_SIZE, n - i);
      SameIndicesIffSamePage(w, v);
    }
  }

  /** Backing maps the pages of ptr, ptr + PAGE_SIZE, and so on: they hold every address of the range
      exactly if it starts at a page. */
  lemma BackedIffAligned(ptr: nat, n: nat)
    requires 0 < n && n * PAGE_SIZE < CANONICAL
    ensures (forall v :: ptr <= v < ptr + n * PAGE_SIZE ==> BackedAt(ptr, n, v)) <==> ptr % PAGE_SIZE == 0
  {
    if ptr % PAGE_SIZE == 0 {
      forall v | ptr <= v < ptr + n * PAGE_SIZE
        ensures BackedAt(ptr, n, v)
      {
        var i := (v - ptr) / PAGE_SIZE;
        assert v / PAGE_SIZE == (ptr + i * PAGE_SIZE) / PAGE_SIZE;
        SameIndicesIffSamePage(v, ptr + i * PAGE_SIZE);
        assert Indices(v) == PageAt(ptr, i);
      }
    } else {
      LastByteUnbacked(ptr, n);
    }
  }

  ghost function Elements(s: seq<nat>): set<int> {
    set i | 0 <= i < |s| :: s[i]
  }

  /** p is one of the first n pages of the range. */
  ghost predicate InRange(ptr: nat, n: nat, p: Path) {
    exists i :: 0 <= i < n && p == PageAt(ptr, i)
  }

  /** The pages of the range have these entries, and all others are as in `before`. */
  ghost predicate RangeIs(tb: Tables, before: Tables, root: Frame, ptr: nat, leaves: seq<Leaf>) {
    && (forall i :: 0 <= i < |leaves| ==> Lookup(tb, root, PageAt(ptr, i)) == leaves[i])
    && (forall p :: IsPath(p) && !InRange(ptr, |leaves|, p) ==> Lookup(tb, root, p) == Lookup(before, root, p))
  }

  ghost function Mapped(frames: seq<nat>, flags: Flags): seq<Leaf> {
    seq(|frames|, i requires 0 <= i < |frames| => Small(Pte(frames[i], flags)))
  }

  /** Mapping one more page extends the mapped range. */
  lemma RangeGrows(tb: Tables, tb': Tables, before: Tables, roots: set<Frame>, root: Frame, ptr: nat,
                   frames: seq<nat>, f: nat, flags: Flags, virt: nat)
    requires (|frames| + 1) * PAGE_SIZE <= CANONICAL && root in roots && virt == ptr + |frames| * PAGE_SIZE
    requires RangeIs(tb, before, root, ptr, Mapped(frames, flags))
    requires OnlyChanged(tb, tb', roots, root, Indices(virt), Small(Pte(f, flags)))
    ensures RangeIs(tb', before, root, ptr, Mapped(frames + [f], flags))
  {
    var n := |frames|;
    forall i | 0 <= i < n + 1
      ensures Lookup(tb', root, PageAt(ptr, i)) == Mapped(frames + [f], flags)[i]
    {
      SameIndicesIffSamePage(ptr + i * PAGE_SIZE, ptr);
      if i < n {
        PagesDiffer(ptr, i, n);
        assert Mapped(frames, flags)[i] == Mapped(frames + [f], flags)[i];
      }
    }
    forall p | IsPath(p) && !InRange(ptr, n + 1, p)
      ensures Lookup(tb', root, p) == Lookup(before, root, p)
    {
      assert p != PageAt(ptr, n) && !InRange(ptr, n, p);
    }
  }

  /** Unmapping page n of a range, whose first n pages were unmapped. */
  lemma RangeShrinks(tb: Tables, tb': Tables, before: Tables, roots: set<Frame>, root: Frame, ptr: nat, n: nat,
                     virt: nat)
    requires (n + 1) * PAGE_SIZE <= CANONICAL && root in roots && virt == ptr + n * PAGE_SIZE
    requires RangeIs(tb, before, root, ptr, Nothing(n))
    requires OnlyChanged(tb, tb', roots, root, Indices(virt), NOTHING)
    ensures RangeIs(tb', before, root, ptr, Nothing(n + 1))
  {
    forall i | 0 <= i < n + 1
      ensures Lookup(tb', root, PageAt(ptr, i)) == NOTHING
    {
      SameIndicesIffSamePage(ptr + i * PAGE_SIZE, ptr);
      assert i < n ==> Nothing(n)[i] == NOTHING;
    }
    forall p | IsPath(p) && !InRange(ptr, n + 1, p)
      ensures Lookup(tb', root, p) == Lookup(before, root, p)
    {
      assert p != PageAt(ptr, n) && !InRange(ptr, n, p);
    }
  }

  ghost function Nothing(n: nat): seq<Leaf> {
    seq(n, _ => NOTHING)
  }

  // ----- the unmapped part of the arena -----

  ghost predicate Covered(live: set<(nat, nat)>, v: int) {
    exists x :: x in live && x.0 <= v < x.0 + x.1
  }

  /** Pages of the arena outside live allocations have no entry. */
  ghost predicate Unmapped(tb: Tables, root: Frame, live: set<(nat, nat)>, base: nat, end: nat) {
    forall v: nat {:trigger Indices(v)} :: base <= v < end && v % PAGE_SIZE == 0 && !Covered(live, v) ==>
      Lookup(tb, root, Indices(v)) == NOTHING
  }

  ghost predicate AlignedLive(live: set<(nat, nat)>) {
    forall x :: x in live ==> x.0 % PAGE_SIZE == 0 && x.1 % PAGE_SIZE == 0
  }

  lemma Step(ptr: nat, i: nat)
    requires ptr % PAGE_SIZE == 0
    ensures (ptr + i * PAGE_SIZE) % PAGE_SIZE == 0
  {
  }

  lemma OtherPage(base: nat, end: nat, v: nat, w: nat)
    requires base <= v < end && base <= w < end && end - base <= CANONICAL && v != w
    requires v % PAGE_SIZE == 0 && w % PAGE_SIZE == 0
    ensures Indices(v) != Indices(w)
  {
    if v < w {
      AddressesDiffer(v, w);
    } else {
      AddressesDiffer(w, v);
    }
  }

  /** An address of the arena outside a range is in none of its pages. */
  lemma NotInRange(base: nat, end: nat, ptr: nat, n: nat, v: nat)
    requires base <= ptr && ptr + n * PAGE_SIZE <= end && end - base <= CANONICAL
    requires ptr % PAGE_SIZE == 0 && v % PAGE_SIZE == 0 && base <= v < end && !(ptr <= v < ptr + n * PAGE_SIZE)
    ensures !InRange(ptr, n, Indices(v)) && IsPath(Indices(v))
  {
    SameIndicesIffSamePage(v, v);
    forall i | 0 <= i < n
      ensures Indices(v) != PageAt(ptr, i)
    {
      Step(ptr, i);
      OtherPage(base, end, v, ptr + i * PAGE_SIZE);
    }
  }

  lemma PageOf(ptr: nat, n: nat, v: nat) returns (i: nat)
    requires ptr % PAGE_SIZE == 0 && v % PAGE_SIZE == 0 && ptr <= v < ptr + n * PAGE_SIZE
    ensures i < n && v == ptr + i * PAGE_SIZE
  {
    i := (v - ptr) / PAGE_SIZE;
  }

  /** Changing a range and making it live keeps the rest of the arena unmapped. */
  lemma RangeAllocated(tb: Tables, tb': Tables, root: Frame, live: set<(nat, nat)>, base: nat, end: nat, ptr: nat,
                       size: nat, leaves: seq<Leaf>)
    requires Unmapped(tb, root, live, base, end) && RangeIs(tb', tb, root, ptr, leaves) && size == |leaves| * PAGE_SIZE
    requires base <= ptr && ptr + size <= end && end - base <= CANONICAL && ptr % PAGE_SIZE == 0
    ensures Unmapped(tb', root, live + {(ptr, size)}, base, end)
  {
    var live' := live + {(ptr, size)};
    forall v: nat | base <= v < end && v % PAGE_SIZE == 0 && !Covered(live', v)
      ensures Lookup(tb', root, Indices(v)) == NOTHING
    {
      assert (ptr, size) in live';
      assert forall x :: x in live ==> x in live';
      NotInRange(base, end, ptr, |leaves|, v);
    }
  }

  /** Unmapping a range and freeing it keeps the free part of the arena unmapped. */
  lemma RangeFreed(tb: Tables, tb': Tables, root: Frame, live: set<(nat, nat)>, base: nat, end: nat, ptr: nat,
                   size: nat, n: nat)
    requires Unmapped(tb, root, live, base, end) && RangeIs(tb', tb, root, ptr, Nothing(n)) && size == n * PAGE_SIZE
    requires base <= ptr && ptr + size <= end && end - base <= CANONICAL && ptr % PAGE_SIZE == 0
    ensures Unmapped(tb', root, live - {(ptr, size)}, base, end)
  {
    var live' := live - {(ptr, size)};
    forall v: nat | base <= v < end && v % PAGE_SIZE == 0 && !Covered(live', v)
      ensures Lookup(tb', root, Indices(v)) == NOTHING
    {
      if ptr <= v < ptr + n * PAGE_SIZE {
        var i := PageOf(ptr, n, v);
        assert Nothing(n)[i] == NOTHING;
      } else {
        assert forall x :: x in live && x != (ptr, size) ==> x in live';
        NotInRange(base, end, ptr, n, v);
      }
    }
  }

  /** The size of an allocation: whole pages, with the source's 64-bit wrap-around. */
  function Size(sz: nat): nat {
    VMem.AlignUp(sz, PAGE_SIZE)
  }

  function PageCount(sz: nat): (n: nat)
    ensures n * PAGE_SIZE == Size(sz)
  {
    Size(sz) / PAGE_SIZE
  }

  /** The page has a 4 KiB entry with this frame. */
  ghost predicate MapsTo(tb: Tables, root: Frame, p: Path, frame: nat)
    requires |p| == 4
  {
    frame > 0 && Lookup(tb, root, p).Small? && Lookup(tb, root, p).e.frame == frame
  }

  ghost predicate MapsAll(tb: Tables, root: Frame, ptr: nat, frames: seq<nat>) {
    forall i :: 0 <= i < |frames| ==> MapsTo(tb, root, PageAt(ptr, i), frames[i])
  }

  lemma AllMapped(tb: Tables, before: Tables, root: Frame, ptr: nat, frames: seq<nat>, flags: Flags)
    requires RangeIs(tb, before, root, ptr, Mapped(frames, flags)) && forall i :: 0 <= i < |frames| ==> frames[i] > 0
    ensures MapsAll(tb, root, ptr, frames)
  {
    forall i | 0 <= i < |frames|
      ensures MapsTo(tb, root, PageAt(ptr, i), frames[i])
    {
      assert Mapped(frames, flags)[i] == Small(Pte(frames[i], flags));
    }
  }

  /** Page-aligned tiles whose free part is unmapped. */
  ghost predicate Room(tiles: seq<VMem.Tile>, base: nat, end: nat, tb: Tables, root: Frame) {
    && VMem.Tiling(tiles, base, end) && VMem.Settled(tiles) && base % PAGE_SIZE == 0 && end % PAGE_SIZE == 0
    && AlignedLive(VMem.Live(tiles)) && Unmapped(tb, root, VMem.Live(tiles), base, end)
  }

  ghost predicate NoEntries(tb: Tables, root: Frame, ptr: nat, n: nat) {
    forall i :: 0 <= i < n ==> Lookup(tb, root, PageAt(ptr, i)) == NOTHING
  }

  /** A range taken from a free tile of an aligned arena is aligned, inside, and was not mapped. */
  lemma FreshRange(tiles: seq<VMem.Tile>, base: nat, end: nat, tb: Tables, root: Frame, a: nat, size: nat, n: nat,
                   hint: nat)
    requires Room(tiles, base, end, tb, root)
    requires VMem.InFreeTile(tiles, a, size, hint) && 0 < size == n * PAGE_SIZE && hint % PAGE_SIZE == 0
    ensures base <= a && a + size <= end && a % PAGE_SIZE == 0 && (a, size) !in VMem.Live(tiles)
    ensures AlignedLive(VMem.Live(tiles) + {(a, size)})
    ensures NoEntries(tb, root, a, n)
  {
    var k :| 0 <= k < |tiles| && tiles[k].status.FreeTile? && a == VMem.Max(tiles[k].base, hint)
        && a + size <= tiles[k].End();
    VMem.TileInside(tiles, base, end, k);
    VMem.TilesAligned(tiles, base, end, PAGE_SIZE, k);
    VMem.FreeTileNotLive(tiles, base, end, a, size, hint);
    forall i | 0 <= i < n
      ensures Lookup(tb, root, PageAt(a, i)) == NOTHING
    {
      Step(a, i);
      assert !Covered(VMem.Live(tiles), a + i * PAGE_SIZE);
    }
  }

  /** The same translation everywhere. */
  ghost predicate SameMap(tb: Tables, tb': Tables, root: Frame) {
    forall p :: IsPath(p) ==> Lookup(tb', root, p) == Lookup(tb, root, p)
  }

  /** A range that had no entries and has none again. */
  lemma Restored(tb: Tables, before: Tables, root: Frame, ptr: nat, n: nat)
    requires RangeIs(tb, before, root, ptr, Nothing(n))
    requires NoEntries(before, root, ptr, n)
    ensures SameMap(before, tb, root)
  {
    forall p | IsPath(p)
      ensures Lookup(tb, root, p) == Lookup(before, root, p)
    {
      if InRange(ptr, n, p) {
        var i :| 0 <= i < n && p == PageAt(ptr, i);
        assert Nothing(n)[i] == NOTHING;
      }
    }
  }

  lemma NotYet(ptr: nat, i: nat, n: nat)
    requires i < n && n * PAGE_SIZE <= CANONICAL
    ensures !InRange(ptr, i, PageAt(ptr, i)) && IsPath(PageAt(ptr, i))
  {
    SameIndicesIffSamePage(ptr + i * PAGE_SIZE, ptr);
    forall j | 0 <= j < i
      ensures PageAt(ptr, j) != PageAt(ptr, i)
    {
      PagesDiffer(ptr, j, i);
    }
  }

  lemma NotAmongFirst(ptr: nat, i: nat, k: nat, n: nat)
    requires k <= i < n && n * PAGE_SIZE <= CANONICAL
    ensures !InRange(ptr, k, PageAt(ptr, i)) && IsPath(PageAt(ptr, i))
  {
    NotYet(ptr, i, n);
  }

  /** Undoing the pages mapped so far leaves a range that was unmapped as it was. */
  lemma RolledBack(tb: Tables, mid: Tables, before: Tables, root: Frame, ptr: nat, frames: seq<nat>, flags: Flags,
                   n: nat)
    requires |frames| <= n && n * PAGE_SIZE <= CANONICAL
    requires RangeIs(mid, before, root, ptr, Mapped(frames, flags)) && RangeIs(tb, mid, root, ptr, Nothing(|frames|))
    requires NoEntries(before, root, ptr, n)
    ensures RangeIs(tb, before, root, ptr, Nothing(n))
  {
    var k := |frames|;
    forall i | 0 <= i < n
      ensures Lookup(tb, root, PageAt(ptr, i)) == NOTHING
    {
      if i < k {
        assert Nothing(k)[i] == NOTHING;
      } else {
        NotAmongFirst(ptr, i, k, n);
      }
    }
    forall p | IsPath(p) && !InRange(ptr, n, p)
      ensures Lookup(tb, root, p) == Lookup(before, root, p)
    {
      assert !InRange(ptr, k, p);
    }
  }

  /** Mapping a range that had no entries and unmapping it again changes no translation. */
  lemma Undone(tb: Tables, mid: Tables, before: Tables, root: Frame, ptr: nat, frames: seq<nat>, flags: Flags)
    requires |frames| * PAGE_SIZE <= CANONICAL && NoEntries(before, root, ptr, |frames|)
    requires RangeIs(mid, before, root, ptr, Mapped(frames, flags)) && RangeIs(tb, mid, root, ptr, Nothing(|frames|))
    ensures SameMap(before, tb, root)
  {
    RolledBack(tb, mid, before, root, ptr, frames, flags, |frames|);
    Restored(tb, before, root, ptr, |frames|);
  }

  lemma SameMapTwice(tb: Tables, mid: Tables, tb': Tables, root: Frame)
    requires SameMap(tb, mid, root) && SameMap(mid, tb', root)
    ensures SameMap(tb, tb', root)
  {
    forall p | IsPath(p)
      ensures Lookup(tb', root, p) == Lookup(tb, root, p)
    {
      assert Lookup(mid, root, p) == Lookup(tb, root, p);
    }
  }

  lemma SameMapUnmapped(tb: Tables, tb': Tables, root: Frame, live: set<(nat, nat)>, base: nat, end: nat)
    requires SameMap(tb, tb', root) && Unmapped(tb, root, live, base, end)
    ensures Unmapped(tb', root, live, base, end)
  {
    forall v: nat | base <= v < end && v % PAGE_SIZE == 0 && !Covered(live, v)
      ensures Lookup(tb', root, Indices(v)) == NOTHING
    {
      SameIndicesIffSamePage(v, v);
    }
  }

  /** Different pages, all of them free. */
  ghost predicate FromFree(frames: seq<nat>, free: set<int>) {
    Seqs.Distinct(frames) && forall i :: 0 <= i < |frames| ==> frames[i] > 0 && frames[i] in free
  }

  lemma ElementsAppend(s: seq<nat>, x: nat)
    ensures Elements(s + [x]) == Elements(s) + {x} && Elements([]) == {} && [] + [x] == [x]
  {
    assert (s + [x])[|s|] == x;
    forall y | y in Elements(s)
      ensures y in Elements(s + [x])
    {
      var i :| 0 <= i < |s| && s[i] == y;
      assert (s + [x])[i] == y;
    }
  }

  lemma Took(frames: seq<nat>, frame: nat, free: set<int>, spare: set<int>, free': set<int>, spare': set<int>)
    requires FromFree(frames, free) && frame > 0 && frame in free' && free' <= free * spare'
             && spare' == spare - Elements(frames)
    ensures FromFree(frames + [frame], free) && spare' - {frame} == spare - Elements(frames + [frame])
  {
    ElementsAppend(frames, frame);
  }

  lemma Returned(frames: seq<nat>, pool: set<int>)
    requires FromFree(frames, pool)
    ensures (pool - Elements(frames)) + Elements(frames) == pool
  {
  }

  lemma GivenBack(frames: seq<nat>, free: set<int>, tables: set<int>, free': set<int>, tables': set<int>)
    requires FromFree(frames, free) && free' + tables' == (free + tables) - Elements(frames)
    ensures (free' + Elements(frames)) + tables' == free + tables
  {
    forall x | x in free + tables
      ensures x in (free' + Elements(frames)) + tables'
    {
      assert x !in Elements(frames) ==> x in free' + tables';
    }
  }

  lemma NotReached(tb: Tables, before: Tables, root: Frame, ptr: nat, leaves: seq<Leaf>, n: nat, virt: nat)
    requires |leaves| < n && n * PAGE_SIZE <= CANONICAL && virt == ptr + |leaves| * PAGE_SIZE
    requires RangeIs(tb, before, root, ptr, leaves)
    ensures Lookup(tb, root, Indices(virt)) == Lookup(before, root, PageAt(ptr, |leaves|))
  {
    NotYet(ptr, |leaves|, n);
  }

  lemma SameRange(tb: Tables, tb': Tables, before: Tables, roots: set<Frame>, root: Frame, ptr: nat, leaves: seq<Leaf>)
    requires RangeIs(tb, before, root, ptr, leaves) && SameLookups(tb, tb', roots) && root in roots
    ensures RangeIs(tb', before, root, ptr, leaves)
  {
    forall i | 0 <= i < |leaves|
      ensures Lookup(tb', root, PageAt(ptr, i)) == leaves[i]
    {
      SameIndicesIffSamePage(ptr + i * PAGE_SIZE, ptr);
    }
  }

  lemma ElementsStep(s: seq<nat>, i: nat)
    requires i < |s|
    ensures Elements(s[..i + 1]) == Elements(s[..i]) + {s[i]} && s[i] in Elements(s)
    ensures Seqs.Distinct(s) ==> s[i] !in Elements(s[..i])
  {
    assert forall j :: 0 <= j < i ==> s[..i + 1][j] == s[j] && s[..i][j] == s[j];
    assert s[..i + 1][i] == s[i];
    forall x | x in Elements(s[..i])
      ensures x in Elements(s[..i + 1])
    {
      var j :| 0 <= j < i && s[..i][j] == x;
      assert s[..i + 1][j] == x;
    }
  }

  /** The i-th frame is not among those given back before it. */
  lemma Gives(frames: seq<nat>, i: nat, free: set<int>, tables: set<int>)
    requires i < |frames| && Seqs.Distinct(frames) && Elements(frames) !! free + tables
    ensures frames[i] !in (free + Elements(frames[..i])) + tables
    ensures (free + Elements(frames[..i])) + {frames[i]} == free + Elements(frames[..i + 1])
  {
    ElementsStep(frames, i);
  }

  class VirtualSpace {
    const vmem: VMem.Arena
    const m: Memory
    const kmap: PageMap

    ghost function Live(): set<(nat, nat)>
      reads vmem
    {
      VMem.Live(vmem.tiles)
    }

    /** The invariant without its last part: that free addresses are unmapped. */
    ghost predicate Consistent()
      reads vmem, m, m.pages, kmap
    {
      && vmem.Valid() && m.Valid() && kmap.level0 in m.roots
      && vmem.quantum == PAGE_SIZE && vmem.base % PAGE_SIZE == 0 && vmem.size % PAGE_SIZE == 0 && vmem.size <= CANONICAL
      && AlignedLive(Live())
    }

    ghost predicate Valid()
      reads vmem, m, m.pages, kmap
    {
      Consistent() && Unmapped(m.tables, kmap.level0, Live(), vmem.base, vmem.base + vmem.size)
    }

    /** An arena of which nothing is allocated and nothing is mapped. */
    constructor (vmem: VMem.Arena, m: Memory, kmap: PageMap)
      requires vmem.Valid() && m.Valid() && kmap.level0 in m.roots
      requires vmem.quantum == PAGE_SIZE && vmem.base % PAGE_SIZE == 0 && vmem.size % PAGE_SIZE == 0
               && vmem.size <= CANONICAL
      requires VMem.Live(vmem.tiles) == {} && forall p :: IsPath(p) ==> Lookup(m.tables, kmap.level0, p) == NOTHING
      ensures Valid() && this.vmem == vmem && this.m == m && this.kmap == kmap && Live() == {}
    {
      this.vmem, this.m, this.kmap := vmem, m, kmap;
      new;
      forall v: nat
        ensures IsPath(Indices(v))
      {
        SameIndicesIffSamePage(v, v);
      }
    }

    /** A live range is inside the arena. */
    lemma LiveFits(ptr: nat, size: nat)
      requires Consistent() && (ptr, size) in Live()
      ensures vmem.base <= ptr && ptr + size <= vmem.base + vmem.size && ptr % PAGE_SIZE == 0 && size <= CANONICAL
    {
      VMem.LiveDisjoint(vmem.tiles, vmem.base, vmem.base + vmem.size, (ptr, size), (ptr, size));
    }

    /** Only the arena changed, and its allocations are still aligned. */
    twostate lemma ArenaMoved()
      requires old(Consistent()) && unchanged(m, m.pages, kmap) && vmem.Valid() && AlignedLive(Live())
      ensures Consistent()
    {
    }

    /** Only the page allocator changed, and page tables are still not free. */
    twostate lemma PagesMoved()
      requires old(Valid()) && unchanged(vmem, m, kmap) && m.pages.Valid() && m.place.Keys !! m.pages.FreePages()
      ensures Valid()
    {
    }

    /** Pages that are free or hold page tables. */
    ghost function Spare(): set<int>
      reads m, m.pages
    {
      m.pages.FreePages() + m.place.Keys
    }

    /** Unmaps one page and gives its frame back. */
    method UnbackPage(virt: nat, ghost frame: nat)
      requires m.Valid() && kmap.level0 in m.roots && virt % PAGE_SIZE == 0
      requires var leaf := Lookup(m.tables, kmap.level0, Indices(virt)); leaf.Small? && leaf.e.frame == frame
      requires frame > 0 && frame !in Spare()
      modifies m`tables, m.pages
      ensures m.Valid() && OnlyChanged(old(m.tables), m.tables, m.roots, kmap.level0, Indices(virt), NOTHING)
      ensures m.pages.FreePages() == old(m.pages.FreePages()) + {frame}
    {
      var phys := kmap.GetPhys(m, virt);
      kmap.Unmap(m, virt);
      m.pages.Pfree(phys);
    }

    /** Unmaps page i of a range, whose first i pages were unmapped. */
    method UnbackNext(ptr: nat, i: nat, ghost frames: seq<nat>, ghost before: Tables, ghost free: set<int>)
      requires m.Valid() && kmap.level0 in m.roots && i < |frames| && |frames| * PAGE_SIZE <= CANONICAL
               && ptr % PAGE_SIZE == 0
      requires MapsAll(before, kmap.level0, ptr, frames) && Seqs.Distinct(frames)
               && Elements(frames) !! free + m.place.Keys
      requires RangeIs(m.tables, before, kmap.level0, ptr, Nothing(i))
      requires m.pages.FreePages() == free + Elements(frames[..i])
      modifies m`tables, m.pages
      ensures m.Valid() && RangeIs(m.tables, before, kmap.level0, ptr, Nothing(i + 1))
      ensures m.pages.FreePages() == free + Elements(frames[..i + 1])
    {
      Step(ptr, i);
      Gives(frames, i, free, m.place.Keys);
      assert MapsTo(before, kmap.level0, PageAt(ptr, i), frames[i]);
      var virt := ptr + i * PAGE_SIZE;
      ghost var tb := m.tables;
      NotReached(tb, before, kmap.level0, ptr, Nothing(i), |frames|, virt);
      UnbackPage(virt, frames[i]);
      RangeShrinks(tb, m.tables, before, m.roots, kmap.level0, ptr, i, virt);
    }

    /** Unmaps n pages and gives their frames back. */
    method Unback(ptr: nat, n: nat, ghost frames: seq<nat>)
      requires m.Valid() && kmap.level0 in m.roots && n == |frames| && n * PAGE_SIZE <= CANONICAL
               && ptr % PAGE_SIZE == 0
      requires MapsAll(m.tables, kmap.level0, ptr, frames)
      requires Seqs.Distinct(frames) && Elements(frames) !! Spare()
      modifies m`tables, m.pages
      ensures m.Valid() && RangeIs(m.tables, old(m.tables), kmap.level0, ptr, Nothing(n))
      ensures m.pages.FreePages() == old(m.pages.FreePages()) + Elements(frames)
    {
      for i := 0 to n
        invariant m.Valid() && RangeIs(m.tables, old(m.tables), kmap.level0, ptr, Nothing(i))
        invariant m.pages.FreePages() == old(m.pages.FreePages()) + Elements(frames[..i])
      {
        UnbackNext(ptr, i, frames, old(m.tables), old(m.pages.FreePages()));
      }
      assert frames[..n] == frames;
    }

    /** Maps one unmapped page to a newly allocated frame; on failure nothing is kept but tables. */
    method BackPage(virt: nat, f: PageFlags, c: CacheMode) returns (ok: bool, ghost frame: nat)
      requires m.Valid() && kmap.level0 in m.roots && Lookup(m.tables, kmap.level0, Indices(virt)) == NOTHING
      modifies m`tables, m`place, m.pages, kmap`usedPages
      ensures m.Valid()
      ensures ok ==> frame > 0 && frame in old(m.pages.FreePages()) && Spare() == old(Spare()) - {frame}
      ensures ok ==> m.pages.FreePages() <= old(m.pages.FreePages())
      ensures ok ==> OnlyChanged(old(m.tables), m.tables, m.roots, kmap.level0, Indices(virt),
                                 Small(Pte(frame, RealFlags(f, c, false))))
      ensures !ok ==> Spare() == old(Spare()) && SameLookups(old(m.tables), m.tables, m.roots)
    {
      frame := 0;
      var phys := m.pages.Pmalloc();
      if phys == 0 {
        return false, 0;
      }
      frame := phys / PAGE_SIZE;
      ok := kmap.Map(m, virt, phys / PAGE_SIZE, f, c);
      if !ok {
        m.pages.Pfree(phys);
      }
    }

    /** Undoes the pages backed so far. */
    method RollBack(ptr: nat, i: nat, ghost n: nat, ghost frames: seq<nat>, ghost flags: Flags, ghost before: Tables,
                    ghost free: set<int>, ghost spare: set<int>)
      requires m.Valid() && kmap.level0 in m.roots && i == |frames| <= n && n * PAGE_SIZE <= CANONICAL
               && ptr % PAGE_SIZE == 0
      requires RangeIs(m.tables, before, kmap.level0, ptr, Mapped(frames, flags))
      requires FromFree(frames, free) && free <= spare && Spare() == spare - Elements(frames)
      requires NoEntries(before, kmap.level0, ptr, n)
      modifies m`tables, m.pages
      ensures m.Valid() && Spare() == spare && RangeIs(m.tables, before, kmap.level0, ptr, Nothing(n))
    {
      ghost var tb := m.tables;
      Unback(ptr, i, frames);
      RolledBack(m.tables, tb, before, kmap.level0, ptr, frames, flags, n);
    }

    /** Maps n unmapped pages, or none. */
    method Back(ptr: nat, n: nat, f: PageFlags, c: CacheMode) returns (ok: bool, ghost frames: seq<nat>)
      requires m.Valid() && kmap.level0 in m.roots && n * PAGE_SIZE <= CANONICAL && ptr % PAGE_SIZE == 0
      requires NoEntries(m.tables, kmap.level0, ptr, n)
      modifies m`tables, m`place, m.pages, kmap`usedPages
      ensures m.Valid()
      ensures ok ==>
                && |frames| == n
                && RangeIs(m.tables, old(m.tables), kmap.level0, ptr, Mapped(frames, RealFlags(f, c, false)))
      ensures ok ==> FromFree(frames, old(m.pages.FreePages())) && Spare() == old(Spare()) - Elements(frames)
      ensures !ok ==> Spare() == old(Spare()) && RangeIs(m.tables, old(m.tables), kmap.level0, ptr, Nothing(n))
    {
      frames := [];
      for i := 0 to n
        invariant m.Valid() && |frames| == i && FromFree(frames, old(m.pages.FreePages()))
        invariant Spare() == old(Spare()) - Elements(frames) && m.pages.FreePages() <= old(m.pages.FreePages())
        invariant RangeIs(m.tables, old(m.tables), kmap.level0, ptr, Mapped(frames, RealFlags(f, c, false)))
      {
        ghost var tb, flags, spare, free := m.tables, RealFlags(f, c, false), Spare(), m.pages.FreePages();
        ghost var frame;
        var virt := ptr + i * PAGE_SIZE;
        NotReached(tb, old(m.tables), kmap.level0, ptr, Mapped(frames, flags), n, virt);
        ok, frame := BackPage(virt, f, c);
        if !ok {
          SameRange(tb, m.tables, old(m.tables), m.roots, kmap.level0, ptr, Mapped(frames, flags));
          RollBack(ptr, i, n, frames, flags, old(m.tables), old(m.pages.FreePages()), old(Spare()));
          return;
        }
        RangeGrows(tb, m.tables, old(m.tables), m.roots, kmap.level0, ptr, frames, frame, flags, virt);
        Took(frames, frame, old(m.pages.FreePages()), old(Spare()), free, spare);
        frames := frames + [frame];
      }
      ok := true;
    }

    method TakeRange(hint: nat, sz: nat) returns (ptr: nat)
      requires vmem.Valid() && vmem.quantum == PAGE_SIZE && sz < VMem.WORD && hint < VMem.WORD
      modifies vmem
      ensures vmem.Valid() && (ptr == 0 ==> vmem.tiles == old(vmem.tiles)) && (ptr != 0 && hint != 0 ==> ptr == hint)
      ensures ptr != 0 ==> Size(sz) > 0 && VMem.InFreeTile(old(vmem.tiles), ptr, Size(sz), hint)
      ensures ptr != 0 ==> Live() == old(Live()) + {(ptr, Size(sz))}
    {
      ptr := vmem.Xalloc(sz, hint, hint);
    }

    /** Takes a range of addresses; nothing is mapped there. */
    method Reserve(hint: nat, sz: nat, n: nat) returns (ptr: nat)
      requires Valid() && sz < VMem.WORD && hint < VMem.WORD && hint % PAGE_SIZE == 0 && PageCount(sz) == n
      modifies vmem
      ensures Consistent()
      ensures ptr == 0 ==> vmem.tiles == old(vmem.tiles)
      ensures ptr != 0 ==>
                Live() == old(Live()) + {(ptr, Size(sz))} && (ptr, Size(sz)) !in old(Live()) && ptr % PAGE_SIZE == 0
      ensures ptr != 0 ==> vmem.base <= ptr && ptr + Size(sz) <= vmem.base + vmem.size && (hint != 0 ==> ptr == hint)
      ensures ptr != 0 ==> NoEntries(m.tables, kmap.level0, ptr, n)
    {
      ghost var tiles := vmem.tiles;
      HasRoom();
      ptr := TakeRange(hint, sz);
      if ptr != 0 {
        FreshRange(tiles, vmem.base, vmem.base + vmem.size, m.tables, kmap.level0, ptr, Size(sz), n, hint);
      }
      ArenaMoved();
    }

    lemma HasRoom()
      requires Valid()
      ensures Room(vmem.tiles, vmem.base, vmem.base + vmem.size, m.tables, kmap.level0)
    {
    }

    /** Gives a range of addresses back. */
    method Release(ptr: nat, sz: nat)
      requires Consistent() && (ptr, Size(sz)) in Live()
      modifies vmem
      ensures Consistent() && Live() == old(Live()) - {(ptr, Size(sz))}
    {
      VMem.OneSize(vmem.tiles, Live(), vmem.base, vmem.base + vmem.size, ptr, Size(sz));
      vmem.Xfree(ptr, sz);
      ArenaMoved();
    }

    /**
     Allocates a range and backs each of its pages by a page that was free, or does nothing at all:
     the arena, all translations and the spare pages are then as before.
     */
    method AllocBacked(hint: nat, sz: nat, f: PageFlags, c: CacheMode) returns (ptr: nat, ghost frames: seq<nat>)
      requires Valid() && sz < VMem.WORD && hint < VMem.WORD && hint % PAGE_SIZE == 0
      modifies vmem, m`tables, m`place, m.pages, kmap`usedPages
      ensures Valid()
      ensures ptr == 0 ==>
                && vmem.tiles == old(vmem.tiles) && Spare() == old(Spare())
                && SameMap(old(m.tables), m.tables, kmap.level0)
      ensures ptr != 0 ==>
                && Live() == old(Live()) + {(ptr, Size(sz))} && (ptr, Size(sz)) !in old(Live())
                && (hint != 0 ==> ptr == hint)
      ensures ptr != 0 ==> |frames| == PageCount(sz) && NoEntries(old(m.tables), kmap.level0, ptr, |frames|)
      ensures ptr != 0 ==> RangeIs(m.tables, old(m.tables), kmap.level0, ptr, Mapped(frames, RealFlags(f, c, false)))
      ensures ptr != 0 ==> FromFree(frames, old(m.pages.FreePages())) && Spare() == old(Spare()) - Elements(frames)
    {
      frames := [];
      var n := PageCount(sz);
      ptr := Reserve(hint, sz, n);
      if ptr == 0 {
        return;
      }
      var ok;
      ok, frames := Back(ptr, n, f, c);
      if !ok {
        Restored(m.tables, old(m.tables), kmap.level0, ptr, n);
        SameMapUnmapped(old(m.tables), m.tables, kmap.level0, old(Live()), vmem.base, vmem.base + vmem.size);
        Release(ptr, sz);
        assert Live() == old(Live());
        vmem.SameLiveSameTiles();
        return 0, [];
      }
      RangeAllocated(old(m.tables), m.tables, kmap.level0, old(Live()), vmem.base, vmem.base + vmem.size, ptr,
                     Size(sz), Mapped(frames, RealFlags(f, c, false)));
    }

    /** Unmaps a backed range, gives its pages back and frees the range. */
    method FreeBacked(ptr: nat, sz: nat, ghost frames: seq<nat>)
      requires Valid() && |frames| == PageCount(sz) && (ptr, Size(sz)) in Live()
               && MapsAll(m.tables, kmap.level0, ptr, frames)
      requires Seqs.Distinct(frames) && Elements(frames) !! Spare()
      modifies vmem, m`tables, m.pages
      ensures Valid() && Live() == old(Live()) - {(ptr, Size(sz))}
      ensures RangeIs(m.tables, old(m.tables), kmap.level0, ptr, Nothing(|frames|))
      ensures m.pages.FreePages() == old(m.pages.FreePages()) + Elements(frames)
    {
      var n := PageCount(sz);
      LiveFits(ptr, Size(sz));
      Unback(ptr, n, frames);
      RangeFreed(old(m.tables), m.tables, kmap.level0, old(Live()), vmem.base, vmem.base + vmem.size, ptr, Size(sz), n);
      Release(ptr, sz);
    }

    /** Freeing what was just allocated restores the arena, every translation and the spare pages. */
    method AllocThenFree(hint: nat, sz: nat, f: PageFlags, c: CacheMode)
      requires Valid() && sz < VMem.WORD && hint < VMem.WORD && hint % PAGE_SIZE == 0
      modifies vmem, m`tables, m`place, m.pages, kmap`usedPages
      ensures Valid() && vmem.tiles == old(vmem.tiles) && Spare() == old(Spare())
      ensures SameMap(old(m.tables), m.tables, kmap.level0)
    {
      var ptr;
      ghost var frames;
      ptr, frames := AllocBacked(hint, sz, f, c);
      if ptr != 0 {
        ghost var tb, flags := m.tables, RealFlags(f, c, false);
        LiveFits(ptr, Size(sz));
        AllMapped(tb, old(m.tables), kmap.level0, ptr, frames, flags);
        GivenBack(frames, old(m.pages.FreePages()), old(m.place.Keys), m.pages.FreePages(), m.place.Keys);
        FreeBacked(ptr, sz, frames);
        Undone(m.tables, tb, old(m.tables), kmap.level0, ptr, frames, flags);
        assert Live() == old(Live());
        vmem.SameLiveSameTiles();
      }
    }
  }
}
