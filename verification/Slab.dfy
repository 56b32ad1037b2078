/**
 The slab allocator of src/mem/malloc.cpp.  Each of seven size classes keeps a list of the pages that
 have both free and used slots.  The free slots of a page are chained through their own first words,
 which are ordinary memory: the owner of a used slot may overwrite its word at will.
 */
module Slab {
  import opened PMalloc
  import opened Seqs

  const CLASSES: nat := 7

  /** The slot sizes, SIZES[c]. */
  function SizeOf(c: nat): (r: nat)
    requires c < CLASSES
    ensures 0 < r && r * SlotCount(c) == PAGE_SIZE && r % 16 == 0 && SlotCount(c) >= 4
  {
    if c == 0 then 16 else if c == 1 then 32 else if c == 2 then 64 else if c == 3 then 128
    else if c == 4 then 256 else if c == 5 then 512 else 1024
  }

  function SlotCount(c: nat): nat
    requires c < CLASSES
  {
    if c == 0 then 256 else if c == 1 then 128 else if c == 2 then 64 else if c == 3 then 32
    else if c == 4 then 16 else if c == 5 then 8 else 4
  }

  /** c is the first class whose slots hold `size` bytes. */
  ghost predicate ClassOf(size: nat, c: nat) {
    c < CLASSES && size <= SizeOf(c) && forall d :: 0 <= d < c ==> SizeOf(d) < size
  }

  /** Where slot i starts in its page: i times the slot size. */
  function Offset(c: nat, i: nat): nat
    requires c < CLASSES
  {
    if i == 0 then 0 else Offset(c, i - 1) + SizeOf(c)
  }

  lemma {:induction false} OffsetIs(c: nat, i: nat)
    requires c < CLASSES
    ensures Offset(c, i) == i * SizeOf(c)
  {
    if i > 0 {
      OffsetIs(c, i - 1);
    }
  }

  lemma {:induction false} OffsetsApart(c: nat, i: nat, j: nat)
    requires c < CLASSES && i < j
    ensures Offset(c, i) + SizeOf(c) <= Offset(c, j) && Offset(c, j) % 16 == 0 && Offset(c, i) % 16 == 0
    decreases j
  {
    if i < j - 1 {
      OffsetsApart(c, i, j - 1);
    } else if i > 0 {
      OffsetsApart(c, 0, i);
    }
  }

  /** The address of slot i of page f, in the direct map that starts at hhdm. */
  function Addr(hhdm: nat, f: nat, c: nat, i: nat): nat
    requires c < CLASSES
  {
    hhdm + f * PAGE_SIZE + Offset(c, i)
  }

  /** The page that holds an address of the direct map. */
  function FrameOf(hhdm: nat, a: nat): int {
    (a - hhdm) / PAGE_SIZE
  }

  lemma SlotInPage(hhdm: nat, f: nat, c: nat, i: nat)
    requires c < CLASSES && i < SlotCount(c) && hhdm % PAGE_SIZE == 0
    ensures var a := Addr(hhdm, f, c, i);
            hhdm + f * PAGE_SIZE <= a && a + SizeOf(c) <= hhdm + (f + 1) * PAGE_SIZE && a % 16 == 0
                && FrameOf(hhdm, a) == f
  {
    SlotOffset(c, i);
    InFrame(hhdm, f, Offset(c, i));
    Aligned(hhdm, f, Offset(c, i));
  }

  lemma FrameAddress(f: nat)
    ensures f * PAGE_SIZE % PAGE_SIZE == 0 && f * PAGE_SIZE / PAGE_SIZE == f
  {
  }

  lemma InFrame(hhdm: nat, f: nat, off: nat)
    requires off < PAGE_SIZE
    ensures FrameOf(hhdm, hhdm + f * PAGE_SIZE + off) == f
  {
  }

  lemma Aligned(hhdm: nat, f: nat, off: nat)
    requires hhdm % PAGE_SIZE == 0 && off % 16 == 0
    ensures (hhdm + f * PAGE_SIZE + off) % 16 == 0
  {
  }

  lemma SlotOffset(c: nat, i: nat)
    requires c < CLASSES && i < SlotCount(c)
    ensures Offset(c, i) + SizeOf(c) <= PAGE_SIZE && Offset(c, i) % 16 == 0
  {
    OffsetsApart(c, i, SlotCount(c));
    OffsetIs(c, SlotCount(c));
  }

  lemma SlotsApart(hhdm: nat, f: nat, c: nat, i: nat, j: nat)
    requires c < CLASSES && i < j
    ensures Addr(hhdm, f, c, i) + SizeOf(c) <= Addr(hhdm, f, c, j)
  {
    OffsetsApart(c, i, j);
  }

  lemma AddrInjective(hhdm: nat, f: nat, c: nat, i: nat, g: nat, d: nat, j: nat)
    requires c < CLASSES && d < CLASSES && i < SlotCount(c) && j < SlotCount(d) && hhdm % PAGE_SIZE == 0
    requires Addr(hhdm, f, c, i) == Addr(hhdm, g, d, j)
    ensures f == g && (c == d ==> i == j)
  {
    SlotInPage(hhdm, f, c, i);
    SlotInPage(hhdm, g, d, j);
    if c == d && i < j {
      SlotsApart(hhdm, f, c, i, j);
    } else if c == d && j < i {
      SlotsApart(hhdm, f, c, j, i);
    }
  }

  // ----- the state -----

  /** A slab page: its class and the numbers of its free slots, in freelist order. */
  datatype Page = Page(cls: nat, chain: seq<nat>)

  /** What the page structure of a slab page holds: its first free slot and the number of used ones. */
  datatype Info = Info(next: nat, count: nat)

  /** Following the words from `head` gives the addresses of the chain. */
  ghost predicate Linked(mem: map<nat, nat>, hhdm: nat, head: nat, f: nat, p: Page)
    requires p.cls < CLASSES
  {
    && head == LinkAt(hhdm, f, p, 0)
    && forall i :: 0 <= i < |p.chain| ==>
         var a := Addr(hhdm, f, p.cls, p.chain[i]); a in mem && mem[a] == LinkAt(hhdm, f, p, i + 1)
  }

  ghost function LinkAt(hhdm: nat, f: nat, p: Page, i: nat): nat
    requires p.cls < CLASSES
  {
    if i < |p.chain| then Addr(hhdm, f, p.cls, p.chain[i]) else 0
  }

  ghost predicate PageOk(mem: map<nat, nat>, hhdm: nat, info: map<nat, Info>, f: nat, p: Page) {
    && f > 0 && p.cls < CLASSES && f in info
    && info[f].count > 0 && |p.chain| + info[f].count == SlotCount(p.cls)
    && Distinct(p.chain) && (forall x :: x in p.chain ==> x < SlotCount(p.cls))
    && Linked(mem, hhdm, info[f].next, f, p)
  }

  /** The lists have exactly the pages with a free slot. */
  ghost predicate ListsOk(lists: seq<seq<nat>>, slabs: map<nat, Page>) {
    && |lists| == CLASSES
    && (forall c :: 0 <= c < CLASSES ==> Distinct(lists[c]))
    && (forall c, f :: 0 <= c < CLASSES ==>
          (f in lists[c] <==> f in slabs && slabs[f].cls == c && slabs[f].chain != []))
  }

  /** The whole invariant. */
  ghost predicate Shape(mem: map<nat, nat>, hhdm: nat, info: map<nat, Info>, lists: seq<seq<nat>>, slabs: map<nat,
                        Page>) {
    && hhdm % PAGE_SIZE == 0 && ListsOk(lists, slabs)
    && forall f :: f in slabs ==> PageOk(mem, hhdm, info, f, slabs[f])
  }

  // ----- objects -----

  /** Slot i of page f, of class c, is in use. */
  ghost predicate IsUsed(slabs: map<nat, Page>, f: nat, c: nat, i: nat) {
    f in slabs && slabs[f].cls == c < CLASSES && i < SlotCount(c) && i !in slabs[f].chain
  }

  /** The used slots, as addresses and sizes. */
  ghost function Objects(hhdm: nat, slabs: map<nat, Page>): set<(nat, nat)> {
    set f, i: nat | f in slabs && slabs[f].cls < CLASSES && i in Below(SlotCount(slabs[f].cls))
        && IsUsed(slabs, f, slabs[f].cls, i) ::
      (Addr(hhdm, f, slabs[f].cls, i), SizeOf(slabs[f].cls))
  }

  lemma ObjectAt(hhdm: nat, slabs: map<nat, Page>, f: nat, c: nat, i: nat)
    requires c < CLASSES && i < SlotCount(c) && hhdm % PAGE_SIZE == 0
    ensures IsUsed(slabs, f, c, i) <==> (Addr(hhdm, f, c, i), SizeOf(c)) in Objects(hhdm, slabs)
  {
    if (Addr(hhdm, f, c, i), SizeOf(c)) in Objects(hhdm, slabs) {
      var g, j := ObjectSlot(hhdm, slabs, (Addr(hhdm, f, c, i), SizeOf(c)));
      AddrInjective(hhdm, f, c, i, g, slabs[g].cls, j);
    } else {
      assert i in Below(SlotCount(c));
    }
  }

  lemma ObjectSlot(hhdm: nat, slabs: map<nat, Page>, x: (nat, nat)) returns (f: nat, i: nat)
    requires x in Objects(hhdm, slabs)
    ensures f in slabs && IsUsed(slabs, f, slabs[f].cls, i)
            && x == (Addr(hhdm, f, slabs[f].cls, i), SizeOf(slabs[f].cls))
  {
    f, i :| f in slabs && slabs[f].cls < CLASSES && i in Below(SlotCount(slabs[f].cls))
        && IsUsed(slabs, f, slabs[f].cls, i) &&
        x == (Addr(hhdm, f, slabs[f].cls, i), SizeOf(slabs[f].cls));
  }

  /** One more used slot is one more object. */
  lemma Gained(hhdm: nat, slabs: map<nat, Page>, slabs': map<nat, Page>, f: nat, c: nat, i: nat)
    requires c < CLASSES && i < SlotCount(c) && hhdm % PAGE_SIZE == 0 && !IsUsed(slabs, f, c, i)
    requires forall g, d, j :: IsUsed(slabs', g, d, j) <==> IsUsed(slabs, g, d, j) || (g == f && d == c && j == i)
    ensures var x := (Addr(hhdm, f, c, i), SizeOf(c));
            Objects(hhdm, slabs') == Objects(hhdm, slabs) + {x} && x !in Objects(hhdm, slabs)
  {
    var x := (Addr(hhdm, f, c, i), SizeOf(c));
    ObjectAt(hhdm, slabs, f, c, i);
    ObjectAt(hhdm, slabs', f, c, i);
    forall y | y in Objects(hhdm, slabs')
      ensures y in Objects(hhdm, slabs) + {x}
    {
      var g, j := ObjectSlot(hhdm, slabs', y);
      ObjectAt(hhdm, slabs, g, slabs'[g].cls, j);
    }
    forall y | y in Objects(hhdm, slabs)
      ensures y in Objects(hhdm, slabs')
    {
      var g, j := ObjectSlot(hhdm, slabs, y);
      ObjectAt(hhdm, slabs', g, slabs[g].cls, j);
    }
  }

  /** An object lies in one slab page and is aligned to 16. */
  lemma ObjectInPage(hhdm: nat, slabs: map<nat, Page>, x: (nat, nat)) returns (f: nat)
    requires x in Objects(hhdm, slabs) && hhdm % PAGE_SIZE == 0
    ensures f in slabs && hhdm + f * PAGE_SIZE <= x.0 && x.0 + x.1 <= hhdm + (f + 1) * PAGE_SIZE && x.0 % 16 == 0
  {
    var i;
    f, i := ObjectSlot(hhdm, slabs, x);
    SlotInPage(hhdm, f, slabs[f].cls, i);
  }

  /** Two objects never overlap, and each lies in one slab page, aligned to 16. */
  lemma ObjectsApart(hhdm: nat, slabs: map<nat, Page>, x: (nat, nat), y: (nat, nat))
    requires x in Objects(hhdm, slabs) && y in Objects(hhdm, slabs) && x != y && hhdm % PAGE_SIZE == 0
    ensures x.0 + x.1 <= y.0 || y.0 + y.1 <= x.0
    ensures x.0 % 16 == 0 && exists f ::
              f in slabs && hhdm + f * PAGE_SIZE <= x.0 && x.0 + x.1 <= hhdm + (f + 1) * PAGE_SIZE
  {
    var h := ObjectInPage(hhdm, slabs, x);
    var f, i := ObjectSlot(hhdm, slabs, x);
    var g, j := ObjectSlot(hhdm, slabs, y);
    if f == g {
      if i < j {
        SlotsApart(hhdm, f, slabs[f].cls, i, j);
      } else {
        SlotsApart(hhdm, f, slabs[f].cls, j, i);
      }
    } else {
      SlotInPage(hhdm, f, slabs[f].cls, i);
      SlotInPage(hhdm, g, slabs[g].cls, j);
    }
  }

  /** Every slab page has an object: once all objects are freed, no slab page is left. */
  lemma AllFreed(mem: map<nat, nat>, hhdm: nat, info: map<nat, Info>, lists: seq<seq<nat>>, slabs: map<nat, Page>)
    requires Shape(mem, hhdm, info, lists, slabs) && Objects(hhdm, slabs) == {}
    ensures slabs == map[]
  {
    if f :| f in slabs {
      var c := slabs[f].cls;
      SomeLeft(slabs[f].chain, SlotCount(c));
      var i: nat :| i < SlotCount(c) && i !in slabs[f].chain;
      ObjectAt(hhdm, slabs, f, c, i);
    }
  }

  // ----- what one page's change keeps -----

  ghost predicate InPage(hhdm: nat, f: nat, a: nat) {
    hhdm + f * PAGE_SIZE <= a < hhdm + (f + 1) * PAGE_SIZE
  }

  /** Only words of page f changed. */
  ghost predicate SameOutside(mem: map<nat, nat>, mem': map<nat, nat>, hhdm: nat, f: nat) {
    forall a :: a in mem && !InPage(hhdm, f, a) ==> a in mem' && mem'[a] == mem[a]
  }

  lemma PageKept(mem: map<nat, nat>, mem': map<nat, nat>, hhdm: nat, info: map<nat, Info>, info': map<nat, Info>,
                 f: nat, g: nat, p: Page)
    requires PageOk(mem, hhdm, info, g, p) && SameOutside(mem, mem', hhdm, f) && f != g && hhdm % PAGE_SIZE == 0
    requires g in info' && info'[g] == info[g]
    ensures PageOk(mem', hhdm, info', g, p)
  {
    forall i | 0 <= i < |p.chain|
      ensures var a := Addr(hhdm, g, p.cls, p.chain[i]); a in mem' && mem'[a] == LinkAt(hhdm, g, p, i + 1)
    {
      assert p.chain[i] in p.chain;
      SlotInPage(hhdm, g, p.cls, p.chain[i]);
    }
  }

  // ----- the three changes -----

  lemma PageTaken(mem: map<nat, nat>, hhdm: nat, info: map<nat, Info>, f: nat, p: Page)
    requires PageOk(mem, hhdm, info, f, p) && p.chain != []
    ensures var a := info[f].next;
            && a == Addr(hhdm, f, p.cls, p.chain[0]) && a in mem && info[f].count < SlotCount(p.cls)
            && PageOk(mem, hhdm, info[f := Info(mem[a], info[f].count + 1)], f, Page(p.cls, p.chain[1..]))
  {
    var p' := Page(p.cls, p.chain[1..]);
    LinkedTail(mem, hhdm, info[f].next, f, p);
    assert forall i :: 0 <= i < |p'.chain| ==> p'.chain[i] == p.chain[i + 1];
    assert forall x :: x in p'.chain ==> x in p.chain;
    assert p.chain[0] in p.chain;
  }

  /** The chain without its first slot starts at that slot's link. */
  lemma LinkedTail(mem: map<nat, nat>, hhdm: nat, h: nat, f: nat, p: Page)
    requires p.cls < CLASSES && Linked(mem, hhdm, h, f, p) && p.chain != []
    ensures h == Addr(hhdm, f, p.cls, p.chain[0]) && h in mem && Linked(mem, hhdm, mem[h], f, Page(p.cls, p.chain[1..]))
  {
    var p' := Page(p.cls, p.chain[1..]);
    assert forall i :: 0 <= i < |p'.chain| ==> p'.chain[i] == p.chain[i + 1];
    assert forall i :: 0 <= i ==> LinkAt(hhdm, f, p', i) == LinkAt(hhdm, f, p, i + 1);
  }

  /** Storing the head in slot i puts the slot in front of the chain. */
  lemma LinkedPush(mem: map<nat, nat>, mem': map<nat, nat>, hhdm: nat, h: nat, f: nat, p: Page, p': Page, i: nat,
                   a: nat)
    requires p.cls < CLASSES && Linked(mem, hhdm, h, f, p) && i < SlotCount(p.cls) && i !in p.chain
             && hhdm % PAGE_SIZE == 0
    requires forall x :: x in p.chain ==> x < SlotCount(p.cls)
    requires a == Addr(hhdm, f, p.cls, i) && mem' == mem[a := h] && p' == Page(p.cls, [i] + p.chain)
    ensures Linked(mem', hhdm, a, f, p')
  {
    forall j | 0 <= j < |p'.chain|
      ensures var b := Addr(hhdm, f, p'.cls, p'.chain[j]); b in mem' && mem'[b] == LinkAt(hhdm, f, p', j + 1)
    {
      assert LinkAt(hhdm, f, p', j + 1) == LinkAt(hhdm, f, p, j);
      if j > 0 {
        assert p'.chain[j] == p.chain[j - 1] && p.chain[j - 1] in p.chain;
        if Addr(hhdm, f, p.cls, p.chain[j - 1]) == a {
          AddrInjective(hhdm, f, p.cls, i, f, p.cls, p.chain[j - 1]);
        }
      }
    }
  }

  /** The page's slot becomes the first free one. */
  lemma PageGiven(mem: map<nat, nat>, hhdm: nat, info: map<nat, Info>, f: nat, p: Page, i: nat)
    requires PageOk(mem, hhdm, info, f, p) && i < SlotCount(p.cls) && i !in p.chain && info[f].count > 1
             && hhdm % PAGE_SIZE == 0
    ensures var a := Addr(hhdm, f, p.cls, i);
            PageOk(mem[a := info[f].next], hhdm, info[f := Info(a, info[f].count - 1)], f, Page(p.cls, [i] + p.chain))
  {
    var a := Addr(hhdm, f, p.cls, i);
    LinkedPush(mem, mem[a := info[f].next], hhdm, info[f].next, f, p, Page(p.cls, [i] + p.chain), i, a);
  }

  lemma Listed(mem: map<nat, nat>, hhdm: nat, info: map<nat, Info>, lists: seq<seq<nat>>, slabs: map<nat, Page>, c: nat)
    requires Shape(mem, hhdm, info, lists, slabs) && c < CLASSES && lists[c] != []
    ensures var f := lists[c][0];
            && f in slabs && slabs[f].cls == c && slabs[f].chain != [] && f in info
            && info[f].next == Addr(hhdm, f, c, slabs[f].chain[0]) && info[f].next in mem
               && info[f].count < SlotCount(c)
  {
    var f := lists[c][0];
    assert f in lists[c];
    PageTaken(mem, hhdm, info, f, slabs[f]);
  }

  /** The first free slot of the first listed page becomes used. */
  lemma TakeKeeps(mem: map<nat, nat>, hhdm: nat, info: map<nat, Info>, info': map<nat, Info>,
                  lists: seq<seq<nat>>, lists': seq<seq<nat>>, slabs: map<nat, Page>, slabs': map<nat, Page>, c: nat,
                      f: nat)
    requires Shape(mem, hhdm, info, lists, slabs) && c < CLASSES && lists[c] != [] && f == lists[c][0]
    requires f in slabs && slabs[f].cls == c && slabs[f].chain != [] && f in info && info[f].next in mem
    requires info' == info[f := Info(mem[info[f].next], info[f].count + 1)]
             && slabs' == slabs[f := Page(c, slabs[f].chain[1..])]
    requires lists' == if info[f].count + 1 == SlotCount(c) then lists[c := lists[c][1..]] else lists
    ensures Shape(mem, hhdm, info', lists', slabs') && slabs'.Keys == slabs.Keys
  {
    PageTaken(mem, hhdm, info, f, slabs[f]);
    forall g | g in slabs'
      ensures PageOk(mem, hhdm, info', g, slabs'[g])
    {
      if g != f {
        PageKept(mem, mem, hhdm, info, info', f, g, slabs[g]);
      }
    }
    ListsTaken(lists, slabs, c);
  }

  lemma ListsTaken(lists: seq<seq<nat>>, slabs: map<nat, Page>, c: nat)
    requires ListsOk(lists, slabs) && c < CLASSES && lists[c] != []
    requires var f := lists[c][0]; f in slabs && slabs[f].cls == c && slabs[f].chain != []
    ensures var f := lists[c][0]; var p := slabs[f];
            ListsOk(if |p.chain| == 1 then lists[c := lists[c][1..]] else lists, slabs[f := Page(c, p.chain[1..])])
  {
    var f := lists[c][0];
    assert lists[c] == [f] + lists[c][1..];
    assert forall x :: x in lists[c] <==> x == f || x in lists[c][1..];
    assert f !in lists[c][1..];
  }

  /** Page f gets a free slot, and is put in front of its list if it was not listed. */
  lemma ListsGiven(lists: seq<seq<nat>>, slabs: map<nat, Page>, f: nat, p: Page)
    requires ListsOk(lists, slabs) && p.cls < CLASSES && p.chain != [] && (f in slabs ==> slabs[f].cls == p.cls)
    ensures f !in lists[p.cls] ==> ListsOk(lists[p.cls := [f] + lists[p.cls]], slabs[f := p])
    ensures f in lists[p.cls] ==> ListsOk(lists, slabs[f := p])
  {
    var list := [f] + lists[p.cls];
    var lists', slabs' := lists[p.cls := list], slabs[f := p];
    assert forall x :: x in list <==> x == f || x in lists[p.cls];
    forall d, g | 0 <= d < CLASSES && f !in lists[p.cls]
      ensures g in lists'[d] <==> g in slabs' && slabs'[g].cls == d && slabs'[g].chain != []
    {
      assert g in lists[d] <==> g in slabs && slabs[g].cls == d && slabs[g].chain != [];
    }
  }

  /** Page f leaves its list. */
  lemma ListsDropped(lists: seq<seq<nat>>, slabs: map<nat, Page>, f: nat)
    requires ListsOk(lists, slabs) && f in slabs && slabs[f].cls < CLASSES
    ensures ListsOk(lists[slabs[f].cls := Remove(lists[slabs[f].cls], f)], slabs - {f})
  {
    var c, slabs' := slabs[f].cls, slabs - {f};
    var lists' := lists[c := Remove(lists[c], f)];
    RemoveFacts(lists[c], f);
    forall d, g | 0 <= d < CLASSES
      ensures g in lists'[d] <==> g in slabs' && slabs'[g].cls == d && slabs'[g].chain != []
    {
      assert g in lists[d] <==> g in slabs && slabs[g].cls == d && slabs[g].chain != [];
    }
  }

  /** A used slot of a page that has others becomes its first free slot. */
  lemma GiveKeeps(mem: map<nat, nat>, mem': map<nat, nat>, hhdm: nat, info: map<nat, Info>, info': map<nat, Info>,
                  lists: seq<seq<nat>>, lists': seq<seq<nat>>, slabs: map<nat, Page>, slabs': map<nat, Page>, f: nat,
                      c: nat, i: nat, a: nat)
    requires Shape(mem, hhdm, info, lists, slabs) && IsUsed(slabs, f, c, i) && f in info && info[f].count > 1
             && a == Addr(hhdm, f, c, i)
    requires mem' == mem[a := info[f].next] && info' == info[f := Info(a, info[f].count - 1)]
             && slabs' == slabs[f := Page(c, [i] + slabs[f].chain)]
    requires lists' == if info[f].count == SlotCount(c) then lists[c := [f] + lists[c]] else lists
    ensures Shape(mem', hhdm, info', lists', slabs') && slabs'.Keys == slabs.Keys
    ensures Objects(hhdm, slabs') == Objects(hhdm, slabs) - {(a, SizeOf(c))}
  {
    PageGiven(mem, hhdm, info, f, slabs[f], i);
    SlotInPage(hhdm, f, c, i);
    forall g | g in slabs'
      ensures PageOk(mem', hhdm, info', g, slabs'[g])
    {
      if g != f {
        PageKept(mem, mem', hhdm, info, info', f, g, slabs[g]);
      }
    }
    ListsGiven(lists, slabs, f, slabs'[f]);
    Gained(hhdm, slabs', slabs, f, c, i);
  }

  /** The last used slot of a page is freed, and the page with it. */
  lemma LastKeeps(mem: map<nat, nat>, mem': map<nat, nat>, hhdm: nat, info: map<nat, Info>, info': map<nat, Info>,
                  lists: seq<seq<nat>>, lists': seq<seq<nat>>, slabs: map<nat, Page>, slabs': map<nat, Page>, f: nat,
                      c: nat, i: nat, a: nat)
    requires Shape(mem, hhdm, info, lists, slabs) && IsUsed(slabs, f, c, i) && f in info && info[f].count == 1
             && a == Addr(hhdm, f, c, i)
    requires mem' == mem[a := 0] && info' == info[f := Info(info[f].next, 0)] && slabs' == slabs - {f}
    requires lists' == lists[c := Remove(lists[c], f)]
    ensures Shape(mem', hhdm, info', lists', slabs')
    ensures Objects(hhdm, slabs') == Objects(hhdm, slabs) - {(a, SizeOf(c))}
  {
    SlotInPage(hhdm, f, c, i);
    forall g | g in slabs'
      ensures PageOk(mem', hhdm, info', g, slabs'[g])
    {
      PageKept(mem, mem', hhdm, info, info', f, g, slabs[g]);
    }
    ListsDropped(lists, slabs, f);
    AllButOne(slabs[f].chain, SlotCount(c), i);
    Gained(hhdm, slabs', slabs, f, c, i);
  }

  /** A new page: its highest slot is used, the others are chained. */
  lemma NewKeeps(mem: map<nat, nat>, mem': map<nat, nat>, hhdm: nat, info: map<nat, Info>, info': map<nat, Info>,
                 lists: seq<seq<nat>>, lists': seq<seq<nat>>, slabs: map<nat, Page>, slabs': map<nat, Page>, f: nat,
                     c: nat, h: nat)
    requires Shape(mem, hhdm, info, lists, slabs) && f !in slabs && f > 0 && SameOutside(mem, mem', hhdm, f)
    requires c < CLASSES && Linked(mem', hhdm, h, f, Page(c, Down(SlotCount(c) - 1)))
    requires info' == info[f := Info(h, 1)] && lists' == lists[c := [f] + lists[c]]
             && slabs' == slabs[f := Page(c, Down(SlotCount(c) - 1))]
    ensures Shape(mem', hhdm, info', lists', slabs')
    ensures var x := (Addr(hhdm, f, c, SlotCount(c) - 1), SizeOf(c));
            Objects(hhdm, slabs') == Objects(hhdm, slabs) + {x} && x !in Objects(hhdm, slabs) && x.0 != 0
                && FrameOf(hhdm, x.0) == f
  {
    var p := slabs'[f];
    PageNew(mem', hhdm, info', f, p);
    forall g | g in slabs'
      ensures PageOk(mem', hhdm, info', g, slabs'[g])
    {
      if g != f {
        PageKept(mem, mem', hhdm, info, info', f, g, slabs[g]);
      }
    }
    ListsNew(lists, slabs, f, p);
    DownHas(SlotCount(c) - 1);
    Gained(hhdm, slabs, slabs', f, c, SlotCount(c) - 1);
    SlotInPage(hhdm, f, c, SlotCount(c) - 1);
  }

  lemma ListsNew(lists: seq<seq<nat>>, slabs: map<nat, Page>, f: nat, p: Page)
    requires ListsOk(lists, slabs) && p.cls < CLASSES && p.chain != [] && f !in slabs
    ensures ListsOk(lists[p.cls := [f] + lists[p.cls]], slabs[f := p])
  {
    assert f !in lists[p.cls];
    ListsGiven(lists, slabs, f, p);
  }

  lemma PageNew(mem: map<nat, nat>, hhdm: nat, info: map<nat, Info>, f: nat, p: Page)
    requires f > 0 && p.cls < CLASSES && p.chain == Down(SlotCount(p.cls) - 1) && f in info && info[f].count == 1
    requires Linked(mem, hhdm, info[f].next, f, p)
    ensures PageOk(mem, hhdm, info, f, p) && p.chain != []
  {
    assert |p.chain| == SlotCount(p.cls) - 1;
  }

  /** n - 1, ..., 1, 0 */
  function Down(n: nat): seq<nat> {
    seq(n, k requires 0 <= k < n => n - 1 - k)
  }

  lemma DownHas(n: nat)
    ensures forall i: nat :: i in Down(n) <==> i < n
    ensures Down(n + 1) == [n] + Down(n) && Down(n + 1)[1..] == Down(n)
  {
    forall i: nat | i < n
      ensures i in Down(n)
    {
      assert Down(n)[n - 1 - i] == i;
    }
  }

  /** Chaining slot i in front of the slots below it. */
  lemma ChainGrows(mem: map<nat, nat>, mem': map<nat, nat>, hhdm: nat, f: nat, c: nat, i: nat, root: nat)
    requires c < CLASSES && i < SlotCount(c) && hhdm % PAGE_SIZE == 0
    requires Linked(mem, hhdm, root, f, Page(c, Down(i))) && mem' == mem[Addr(hhdm, f, c, i) := root]
    ensures Linked(mem', hhdm, Addr(hhdm, f, c, i), f, Page(c, Down(i + 1)))
    ensures SameOutside(mem, mem', hhdm, f)
  {
    SlotInPage(hhdm, f, c, i);
    DownHas(i);
    LinkedPush(mem, mem', hhdm, root, f, Page(c, Down(i)), Page(c, Down(i + 1)), i, Addr(hhdm, f, c, i));
  }

  // ----- the allocator -----

  /** The first class whose slots hold `size` bytes; CLASSES if there is none. */
  function ClassIndex(size: nat): (c: nat)
    ensures c < CLASSES ==> ClassOf(size, c)
    ensures c <= CLASSES && (c == CLASSES <==> size > 1024)
  {
    if size <= 16 then 0 else if size <= 32 then 1 else if size <= 64 then 2 else if size <= 128 then 3
    else if size <= 256 then 4 else if size <= 512 then 5 else if size <= 1024 then 6 else 7
  }

  /** x is the only object of its page. */
  ghost predicate Alone(hhdm: nat, objects: set<(nat, nat)>, x: (nat, nat)) {
    forall y :: y in objects && y != x ==> FrameOf(hhdm, y.0) != FrameOf(hhdm, x.0)
  }

  /** A used slot is alone in its page exactly if all others are chained. */
  lemma AloneIff(hhdm: nat, slabs: map<nat, Page>, f: nat, c: nat, i: nat)
    requires IsUsed(slabs, f, c, i) && hhdm % PAGE_SIZE == 0
    ensures Alone(hhdm, Objects(hhdm, slabs), (Addr(hhdm, f, c, i), SizeOf(c))) <==>
            forall j :: 0 <= j < SlotCount(c) && j != i ==> j in slabs[f].chain
  {
    var x, objects := (Addr(hhdm, f, c, i), SizeOf(c)), Objects(hhdm, slabs);
    SlotInPage(hhdm, f, c, i);
    if forall j :: 0 <= j < SlotCount(c) && j != i ==> j in slabs[f].chain {
      forall y | y in objects && y != x
        ensures FrameOf(hhdm, y.0) != FrameOf(hhdm, x.0)
      {
        var g, j := ObjectSlot(hhdm, slabs, y);
        SlotInPage(hhdm, g, slabs[g].cls, j);
      }
    } else {
      var j: nat :| j < SlotCount(c) && j != i && j !in slabs[f].chain;
      Neighbour(hhdm, slabs, f, c, i, j);
    }
  }

  lemma Neighbour(hhdm: nat, slabs: map<nat, Page>, f: nat, c: nat, i: nat, j: nat)
    requires IsUsed(slabs, f, c, i) && IsUsed(slabs, f, c, j) && i != j && hhdm % PAGE_SIZE == 0
    ensures !Alone(hhdm, Objects(hhdm, slabs), (Addr(hhdm, f, c, i), SizeOf(c)))
  {
    SlotInPage(hhdm, f, c, i);
    SlotInPage(hhdm, f, c, j);
    ObjectAt(hhdm, slabs, f, c, j);
    assert (Addr(hhdm, f, c, j), SizeOf(c)) in Objects(hhdm, slabs);
    assert Addr(hhdm, f, c, i) != Addr(hhdm, f, c, j) by {
      if Addr(hhdm, f, c, i) == Addr(hhdm, f, c, j) {
        AddrInjective(hhdm, f, c, j, f, c, i);
      }
    }
  }

  lemma LastIff(mem: map<nat, nat>, hhdm: nat, info: map<nat, Info>, lists: seq<seq<nat>>, slabs: map<nat, Page>,
                f: nat, c: nat, i: nat)
    requires Shape(mem, hhdm, info, lists, slabs) && IsUsed(slabs, f, c, i) && f in info
    ensures info[f].count == 1 <==> Alone(hhdm, Objects(hhdm, slabs), (Addr(hhdm, f, c, i), SizeOf(c)))
  {
    AllButOne(slabs[f].chain, SlotCount(c), i);
    AloneIff(hhdm, slabs, f, c, i);
  }

  lemma SizesDiffer(c: nat, d: nat)
    requires c < CLASSES && d < CLASSES && SizeOf(c) == SizeOf(d)
    ensures c == d
  {
  }

  /** The slot of an object, found from its address. */
  lemma UsedSlot(mem: map<nat, nat>, hhdm: nat, info: map<nat, Info>, lists: seq<seq<nat>>, slabs: map<nat, Page>,
                 ptr: nat, c: nat) returns (f: nat, i: nat)
    requires Shape(mem, hhdm, info, lists, slabs) && c < CLASSES && (ptr, SizeOf(c)) in Objects(hhdm, slabs)
    ensures f == FrameOf(hhdm, ptr) && IsUsed(slabs, f, c, i) && ptr == Addr(hhdm, f, c, i) && f in info
            && info[f].count > 0
    ensures info[f].count == 1 <==> Alone(hhdm, Objects(hhdm, slabs), (ptr, SizeOf(c)))
  {
    f, i := ObjectSlot(hhdm, slabs, (ptr, SizeOf(c)));
    SizesDiffer(slabs[f].cls, c);
    SlotInPage(hhdm, f, c, i);
    LastIff(mem, hhdm, info, lists, slabs, f, c, i);
  }

  /** Unchaining the first free slot of a page makes it an object. */
  lemma TakeGains(mem: map<nat, nat>, hhdm: nat, info: map<nat, Info>, lists: seq<seq<nat>>,
                  slabs: map<nat, Page>, slabs': map<nat, Page>, f: nat, c: nat, a: nat)
    requires Shape(mem, hhdm, info, lists, slabs) && f in slabs && slabs[f].chain != [] && c == slabs[f].cls
    requires slabs' == slabs[f := Page(c, slabs[f].chain[1..])] && c < CLASSES
             && a == Addr(hhdm, f, c, slabs[f].chain[0])
    ensures Objects(hhdm, slabs') == Objects(hhdm, slabs) + {(a, SizeOf(c))}
            && (a, SizeOf(c)) !in Objects(hhdm, slabs) && a != 0
  {
    var chain := slabs[f].chain;
    assert chain == [chain[0]] + chain[1..];
    assert forall j :: j in chain <==> j == chain[0] || j in chain[1..];
    assert chain[0] !in chain[1..];
    Gained(hhdm, slabs, slabs', f, c, chain[0]);
    SlotInPage(hhdm, f, c, chain[0]);
  }

  /** No chained slot starts inside an object. */
  lemma ChainOutside(hhdm: nat, slabs: map<nat, Page>, x: (nat, nat), g: nat, j: nat, a: nat)
    requires x in Objects(hhdm, slabs) && hhdm % PAGE_SIZE == 0 && x.0 <= a < x.0 + x.1
    requires g in slabs && slabs[g].cls < CLASSES && j in slabs[g].chain && j < SlotCount(slabs[g].cls)
    ensures Addr(hhdm, g, slabs[g].cls, j) != a
  {
    var f, i := ObjectSlot(hhdm, slabs, x);
    SlotInPage(hhdm, f, slabs[f].cls, i);
    SlotInPage(hhdm, g, slabs[g].cls, j);
    if f == g {
      if i < j {
        SlotsApart(hhdm, f, slabs[f].cls, i, j);
      } else {
        SlotsApart(hhdm, f, slabs[f].cls, j, i);
      }
    }
  }

  lemma OverwriteKeeps(mem: map<nat, nat>, hhdm: nat, info: map<nat, Info>, lists: seq<seq<nat>>, slabs: map<nat, Page>,
                       x: (nat, nat), a: nat, v: nat)
    requires Shape(mem, hhdm, info, lists, slabs) && x in Objects(hhdm, slabs) && x.0 <= a < x.0 + x.1
    ensures Shape(mem[a := v], hhdm, info, lists, slabs)
  {
    forall g | g in slabs
      ensures PageOk(mem[a := v], hhdm, info, g, slabs[g])
    {
      var p := slabs[g];
      forall j | 0 <= j < |p.chain|
        ensures Addr(hhdm, g, p.cls, p.chain[j]) != a
      {
        assert p.chain[j] in p.chain;
        ChainOutside(hhdm, slabs, x, g, p.chain[j], a);
      }
    }
  }

  class SlabAllocator {
    const hhdm: nat
    const pages: PageAllocator
    var lists: seq<seq<nat>>
    var info: map<nat, Info>
    // the words that hold links
    var mem: map<nat, nat>
    ghost var slabs: map<nat, Page>

    ghost predicate Valid()
      reads this, pages
    {
      && Shape(mem, hhdm, info, lists, slabs) && pages.Valid()
      && forall f :: f in slabs ==> f !in pages.FreePages()
    }

    ghost function Live(): set<(nat, nat)>
      reads this
    {
      Objects(hhdm, slabs)
    }

    /** Pages that are free or hold slots. */
    ghost function Spare(): set<int>
      reads this, pages
    {
      pages.FreePages() + slabs.Keys
    }

    constructor (hhdm: nat, pages: PageAllocator)
      requires pages.Valid() && hhdm % PAGE_SIZE == 0
      ensures Valid() && Live() == {} && this.hhdm == hhdm && this.pages == pages && Spare() == pages.FreePages()
    {
      this.hhdm, this.pages := hhdm, pages;
      lists, info, mem, slabs := seq(CLASSES, _ => []), map[], map[], map[];
    }

    /** Only the page allocator changed, and slab pages are still not free. */
    twostate lemma PagesMoved()
      requires old(Valid()) && unchanged(this) && pages.Valid() && slabs.Keys !! pages.FreePages()
      ensures Valid()
    {
    }

    static method FindClass(size: nat) returns (c: nat)
      ensures c == ClassIndex(size)
    {
      c := 0;
      while c < CLASSES
        invariant c <= CLASSES && forall d :: 0 <= d < c ==> SizeOf(d) < size
      {
        if size <= SizeOf(c) {
          return;
        }
        c := c + 1;
      }
    }

    /** Uses the first free slot of the first page of the list. */
    method TakeSlot(c: nat) returns (ptr: nat)
      requires Valid() && c < CLASSES && lists[c] != []
      modifies this`lists, this`info, this`slabs
      ensures Valid() && ptr != 0 && slabs.Keys == old(slabs.Keys)
      ensures Live() == old(Live()) + {(ptr, SizeOf(c))} && (ptr, SizeOf(c)) !in old(Live())
    {
      Listed(mem, hhdm, info, lists, slabs, c);
      var page := lists[c][0];
      ptr := info[page].next;
      info := info[page := Info(mem[ptr], info[page].count + 1)];
      if info[page].count == SlotCount(c) {
        lists := lists[c := lists[c][1..]];
      }
      slabs := slabs[page := Page(c, slabs[page].chain[1..])];
      TakeKeeps(mem, hhdm, old(info), info, old(lists), lists, old(slabs), slabs, c, page);
      TakeGains(mem, hhdm, old(info), old(lists), old(slabs), slabs, page, c, ptr);
    }

    /** Chains all slots of a page, the highest first. */
    method ChainSlots(page: nat, c: nat) returns (root: nat)
      requires c < CLASSES && hhdm % PAGE_SIZE == 0
      modifies this`mem
      ensures Linked(mem, hhdm, root, page, Page(c, Down(SlotCount(c)))) && SameOutside(old(mem), mem, hhdm, page)
    {
      root := 0;
      for i := 0 to SlotCount(c)
        invariant Linked(mem, hhdm, root, page, Page(c, Down(i))) && SameOutside(old(mem), mem, hhdm, page)
      {
        OffsetIs(c, i);
        var node := hhdm + (page * PAGE_SIZE + i * SizeOf(c));
        ChainGrows(mem, mem[node := root], hhdm, page, c, i, root);
        mem := mem[node := root];
        root := node;
      }
    }

    /** Uses the highest slot of a new page; 0 if no page is free. */
    method NewPage(c: nat) returns (ptr: nat)
      requires Valid() && c < CLASSES
      modifies this, pages
      ensures Valid()
      ensures ptr == 0 <==> old(pages.FreePages()) == {}
      ensures ptr == 0 ==> unchanged(this) && pages.FreePages() == old(pages.FreePages())
      ensures ptr != 0 ==> Live() == old(Live()) + {(ptr, SizeOf(c))} && (ptr, SizeOf(c)) !in old(Live())
      ensures ptr != 0 ==> var f := FrameOf(hhdm, ptr);
                f in old(pages.FreePages()) && pages.FreePages() == old(pages.FreePages()) - {f}
                    && slabs.Keys == old(slabs.Keys) + {f}
    {
      var phys := pages.Pmalloc();
      if phys == 0 {
        return 0;
      }
      ptr := InitPage(phys / PAGE_SIZE, c);
    }

    /** Makes a page a slab page and uses its highest slot. */
    method InitPage(page: nat, c: nat) returns (ptr: nat)
      requires Shape(mem, hhdm, info, lists, slabs) && c < CLASSES && page > 0 && page !in slabs
      modifies this
      ensures Shape(mem, hhdm, info, lists, slabs) && slabs.Keys == old(slabs.Keys) + {page}
      ensures Live() == old(Live()) + {(ptr, SizeOf(c))} && (ptr, SizeOf(c)) !in old(Live()) && ptr != 0
              && FrameOf(hhdm, ptr) == page
    {
      ptr := ChainSlots(page, c);
      LinkedTail(mem, hhdm, ptr, page, Page(c, Down(SlotCount(c))));
      DownHas(SlotCount(c) - 1);
      info := info[page := Info(mem[ptr], 1)];
      lists := lists[c := [page] + lists[c]];
      slabs := slabs[page := Page(c, Down(SlotCount(c) - 1))];
      NewKeeps(old(mem), mem, hhdm, old(info), info, old(lists), lists, old(slabs), slabs, page, c, mem[ptr]);
    }

    /**
     A slot of the first class that holds `size` bytes; 0 if the size is too large or if neither a
     free slot nor a free page is left.  A page is taken only if its list is empty.
     */
    method Alloc(size: nat) returns (ptr: nat)
      requires Valid()
      modifies this, pages
      ensures Valid() && Spare() == old(Spare())
      ensures ptr == 0 ==> unchanged(this) && pages.FreePages() == old(pages.FreePages())
      ensures size > 1024 ==> ptr == 0
      ensures var c := ClassIndex(size);
              c < CLASSES ==>
                && (ptr == 0 <==> old(lists)[c] == [] && old(pages.FreePages()) == {})
                && (ptr != 0 ==> Live() == old(Live()) + {(ptr, SizeOf(c))} && (ptr, SizeOf(c)) !in old(Live()))
                && (old(lists)[c] != [] ==> pages.FreePages() == old(pages.FreePages()))
    {
      var c := FindClass(size);
      if c == CLASSES {
        return 0;
      }
      if lists[c] != [] {
        ptr := TakeSlot(c);
      } else {
        ptr := NewPage(c);
      }
    }

    /** Frees an object.  Its page goes back to the page allocator exactly if it was the page's last. */
    method Dealloc(ptr: nat, size: nat)
      requires Valid() && (size <= 1024 ==> (ptr, SizeOf(ClassIndex(size))) in Live())
      modifies this, pages
      ensures Valid() && Spare() == old(Spare())
      ensures size > 1024 ==> unchanged(this, pages)
      ensures size <= 1024 ==> Live() == old(Live()) - {(ptr, SizeOf(ClassIndex(size)))}
      ensures size <= 1024 ==> var last :=
              if old(Alone(hhdm, Live(), (ptr, SizeOf(ClassIndex(size))))) then {FrameOf(hhdm, ptr)} else {};
                pages.FreePages() == old(pages.FreePages()) + last
    {
      var c := FindClass(size);
      if c == CLASSES {
        return;
      }
      ghost var f, slot := UsedSlot(mem, hhdm, info, lists, slabs, ptr, c);
      var page: nat := FrameOf(hhdm, ptr);
      if info[page].count - 1 == 0 {
        FreeLast(ptr, page, c, slot);
      } else {
        FreeOther(ptr, page, c, slot);
      }
    }

    method FreeLast(ptr: nat, page: nat, c: nat, ghost slot: nat)
      requires Valid() && IsUsed(slabs, page, c, slot) && ptr == Addr(hhdm, page, c, slot) && page in info
               && info[page].count == 1
      modifies this, pages
      ensures Valid() && Live() == old(Live()) - {(ptr, SizeOf(c))} && Spare() == old(Spare())
      ensures pages.FreePages() == old(pages.FreePages()) + {page}
    {
      assert PageOk(mem, hhdm, info, page, slabs[page]);
      FrameAddress(page);
      mem := mem[ptr := 0];
      info := info[page := Info(info[page].next, info[page].count - 1)];
      lists := lists[c := Remove(lists[c], page)];
      slabs := slabs - {page};
      LastKeeps(old(mem), mem, hhdm, old(info), info, old(lists), lists, old(slabs), slabs, page, c, slot, ptr);
      pages.Pfree(page * PAGE_SIZE);
    }

    method FreeOther(ptr: nat, page: nat, c: nat, ghost slot: nat)
      requires Valid() && IsUsed(slabs, page, c, slot) && ptr == Addr(hhdm, page, c, slot) && page in info
               && info[page].count > 1
      modifies this
      ensures Valid() && Live() == old(Live()) - {(ptr, SizeOf(c))} && Spare() == old(Spare())
    {
      var next, used := info[page].next, info[page].count;
      if used == SlotCount(c) {
        lists := lists[c := [page] + lists[c]];
      }
      mem := mem[ptr := next];
      info := info[page := Info(ptr, used - 1)];
      slabs := slabs[page := Page(c, [slot] + slabs[page].chain)];
      assert mem == old(mem)[ptr := next] && info == old(info)[page := Info(ptr, used - 1)];
      assert slabs == old(slabs)[page := Page(c, [slot] + old(slabs)[page].chain)];
      assert lists == if used == SlotCount(c) then old(lists)[c := [page] + old(lists)[c]] else old(lists);
      GiveKeeps(old(mem), mem, hhdm, old(info), info, old(lists), lists, old(slabs), slabs, page, c, slot, ptr);
    }

    /** The owner of an object may write any word of it: no link is stored there. */
    method Overwrite(ghost ptr: nat, ghost size: nat, a: nat, value: nat)
      requires Valid() && (ptr, size) in Live() && ptr <= a && a + 8 <= ptr + size
      modifies this`mem
      ensures Valid()
    {
      OverwriteKeeps(mem, hhdm, info, lists, slabs, (ptr, size), a, value);
      mem := mem[a := value];
    }
  }
}
