/**
 The four-level page tables of src/arch/x86/mem/paging.cpp, read as section 4.5 of the Intel SDM
 Volume 3A describes.

 Tables live in a shared physical memory.  An entry is a frame number and its flags; EntryWord below
 shows that this is the 64-bit word of the source for page-aligned addresses.  A page is named by
 its four table indices.  The kernel's map fills the upper half of its top-level table once, and
 every other map copies those entries, so the upper-half subtrees are shared and nothing else is.
 */
module Paging {
  import opened PMalloc
  import opened Wrappers

  type Frame = nat

  const ENTRIES: nat := 512
  const HALF: nat := 256
  const LARGE_PAGE_SIZE: nat := 0x20_0000

  // ----- entries -----

  datatype Flags = Flags(present: bool, rw: bool, user: bool, wt: bool, cd: bool, huge: bool, nx: bool)

  datatype Pte = Pte(frame: Frame, flags: Flags)

  const ZERO: Pte := Pte(0, Flags(false, false, false, false, false, false, false))

  const PAGE_ADDR_MASK: bv64 := 0x000F_FFFF_FFFF_F000

  function Bit(b: bool, mask: bv64): bv64 {
    if b then mask else 0
  }

  function FlagBits(f: Flags): bv64 {
    Bit(f.present, 1) | Bit(f.rw, 2) | Bit(f.user, 4) | Bit(f.wt, 8) | Bit(f.cd, 16) | Bit(f.huge, 128) | Bit(f.nx,
          0x8000_0000_0000_0000)
  }

  /** `address | flags` can be taken apart again, and masking it leaves the address: an entry is a pair. */
  lemma EntryWord(address: bv64, f: Flags)
    requires address & PAGE_ADDR_MASK == address
    ensures var word := address | FlagBits(f);
            && word & PAGE_ADDR_MASK == address
            && (word & 1 != 0 <==> f.present) && (word & 2 != 0 <==> f.rw) && (word & 4 != 0 <==> f.user)
            && (word & 8 != 0 <==> f.wt) && (word & 16 != 0 <==> f.cd) && (word & 128 != 0 <==> f.huge)
            && (word & 0x8000_0000_0000_0000 != 0 <==> f.nx)
  {
    assert FlagBits(f) & PAGE_ADDR_MASK == 0;
  }

  datatype PageFlags = PageFlags(read: bool, write: bool, execute: bool, user: bool)

  datatype CacheMode = WriteBack | WriteCombine | WriteThrough | Uncached

  function RealFlags(f: PageFlags, c: CacheMode, huge: bool): Flags {
    Flags(f.read, f.write, f.user, c.WriteCombine? || c.Uncached?, c.WriteThrough? || c.Uncached?, huge, !f.execute)
  }

  /** The flags of an entry that points to a table. */
  function TableFlags(f: PageFlags): Flags {
    Flags(true, true, f.user, false, false, false, false)
  }

  // ----- pages -----

  type Path = seq<nat>

  ghost predicate IsPath(p: Path) {
    |p| == 4 && forall i :: 0 <= i < 4 ==> p[i] < ENTRIES
  }

  /** The indices of an address, top level first. */
  function Indices(virt: nat): Path {
    var page := virt / PAGE_SIZE;
    [page / 0x800_0000 % ENTRIES, page / 0x4_0000 % ENTRIES, page / ENTRIES % ENTRIES, page % ENTRIES]
  }

  function PageNumber(virt: nat): nat {
    virt / PAGE_SIZE % 0x10_0000_0000
  }

  /** Two addresses have the same indices exactly when they are in the same page. */
  lemma SameIndicesIffSamePage(v: nat, w: nat)
    ensures IsPath(Indices(v))
    ensures Indices(v) == Indices(w) <==> PageNumber(v) == PageNumber(w)
  {
    PageFromIndices(v);
    PageFromIndices(w);
    if PageNumber(v) == PageNumber(w) {
      IndicesFromPage(v / PAGE_SIZE, w / PAGE_SIZE);
    }
  }

  lemma PageFromIndices(v: nat)
    ensures var p := Indices(v);
            PageNumber(v) == p[0] * 0x800_0000 + p[1] * 0x4_0000 + p[2] * ENTRIES + p[3]
  {
    var page := v / PAGE_SIZE;
    assert page == page / ENTRIES * ENTRIES + page % ENTRIES;
    assert page / 0x4_0000 == page / ENTRIES / ENTRIES;
    assert page / 0x800_0000 == page / 0x4_0000 / ENTRIES;
  }

  lemma DropDigit(y: nat, r: nat)
    ensures (y * ENTRIES + r) % ENTRIES == r % ENTRIES && (y * ENTRIES + r) / ENTRIES == y + r / ENTRIES
  {
  }

  lemma IndicesFromPage(a: nat, b: nat)
    requires a % 0x10_0000_0000 == b % 0x10_0000_0000
    ensures a % ENTRIES == b % ENTRIES && a / ENTRIES % ENTRIES == b / ENTRIES % ENTRIES
    ensures a / 0x4_0000 % ENTRIES == b / 0x4_0000 % ENTRIES && a / 0x800_0000 % ENTRIES == b / 0x800_0000 % ENTRIES
  {
    IndicesOfRest(a);
    IndicesOfRest(b);
  }

  /** The four lowest digits in base 512 are those of the number modulo 512^4. */
  lemma IndicesOfRest(a: nat)
    ensures var r := a % 0x10_0000_0000;
            && a % ENTRIES == r % ENTRIES && a / ENTRIES % ENTRIES == r / ENTRIES % ENTRIES
            && a / 0x4_0000 % ENTRIES == r / ENTRIES / ENTRIES % ENTRIES
            && a / 0x800_0000 % ENTRIES == r / ENTRIES / ENTRIES / ENTRIES % ENTRIES
  {
    var x, r := a / 0x10_0000_0000, a % 0x10_0000_0000;
    DropDigit(x * 0x800_0000, r);
    DropDigit(x * 0x4_0000, r / ENTRIES);
    DropDigit(x * ENTRIES, r / ENTRIES / ENTRIES);
    DropDigit(x, r / ENTRIES / ENTRIES / ENTRIES);
    assert a / 0x4_0000 == a / ENTRIES / ENTRIES;
    assert a / 0x800_0000 == a / ENTRIES / ENTRIES / ENTRIES;
  }

  // ----- walking the tables -----

  type Table = seq<Pte>
  type Tables = map<Frame, Table>

  function EntryAt(tb: Tables, t: Frame, i: nat): Pte {
    if t in tb && i < |tb[t]| then tb[t][i] else ZERO
  }

  /** Whether an entry of a table at this depth points to a table of the next. */
  predicate Links(e: Pte, depth: nat) {
    e.flags.present && !(depth == 2 && e.flags.huge)
  }

  /** The table reached after d steps. */
  function TableAt(tb: Tables, root: Frame, p: Path, d: nat): Option<Frame>
    requires d <= |p|
  {
    if d == 0 then Some(root)
    else
      match TableAt(tb, root, p, d - 1)
      case None => None
      case Some(t) =>
        var e := EntryAt(tb, t, p[d - 1]);
        if Links(e, d - 1) then Some(e.frame) else None
  }

  datatype Leaf = Small(e: Pte) | Large(e: Pte)

  const NOTHING: Leaf := Small(ZERO)

  function HugeOr(e: Pte, leaf: Leaf): Leaf {
    if e.flags.present && e.flags.huge then Large(e) else leaf
  }

  /** What the tables hold for a page: its 4 KiB entry (zero if there is none) or a 2 MiB entry. */
  function Lookup(tb: Tables, root: Frame, p: Path): Leaf
    requires |p| == 4
  {
    match TableAt(tb, root, p, 3)
    case Some(t) => Small(EntryAt(tb, t, p[3]))
    case None =>
      match TableAt(tb, root, p, 2)
      case Some(t) => HugeOr(EntryAt(tb, t, p[2]), NOTHING)
      case None => NOTHING
  }

  /** The hardware's view: the frame and the flags, if the entry is present. */
  function Translate(l: Leaf): Option<(Frame, Flags)> {
    if l.e.flags.present then Some((l.e.frame, l.e.flags)) else None
  }

  /** What the processor allows: it combines the flags of all entries on the way. */
  datatype Access = Access(user: bool, write: bool, execute: bool) {
    function Under(f: Flags): Access {
      Access(user && f.user, write && f.rw, execute && !f.nx)
    }
  }

  /** What the entries that point to tables allow, d steps down or as far as there are tables. */
  function Along(tb: Tables, root: Frame, p: Path, d: nat): Access
    requires d <= |p|
  {
    if d == 0 then Access(true, true, true)
    else if TableAt(tb, root, p, d).None? then Along(tb, root, p, d - 1)
    else Along(tb, root, p, d - 1).Under(EntryAt(tb, TableAt(tb, root, p, d - 1).value, p[d - 1]).flags)
  }

  function Rights(tb: Tables, root: Frame, p: Path): Option<Access>
    requires |p| == 4
  {
    var leaf := Lookup(tb, root, p);
    if Translate(leaf).None? then None else Some(Along(tb, root, p, 3).Under(leaf.e.flags))
  }

  /** The bitwise or of the low `bits` bits. */
  function Or(a: nat, b: nat, bits: nat): nat {
    if bits == 0 then 0
    else (if a % 2 == 1 || b % 2 == 1 then 1 else 0) + 2 * Or(a / 2, b / 2, bits - 1)
  }

  /** The address inside a 2 MiB page: the offset is or-ed into the frame, aligned or not. */
  function LargeAddress(frame: Frame, virt: nat): nat {
    (frame / ENTRIES * ENTRIES + Or(frame % ENTRIES, virt / PAGE_SIZE % ENTRIES, 9)) * PAGE_SIZE + virt % PAGE_SIZE
  }

  function Pow2(n: nat): nat {
    if n == 0 then 1 else 2 * Pow2(n - 1)
  }

  lemma {:induction false} OrZero(b: nat, bits: nat)
    requires b < Pow2(bits)
    ensures Or(0, b, bits) == b
  {
    if bits > 0 {
      OrZero(b / 2, bits - 1);
    }
  }

  lemma LargeIsSum(frame: Frame, virt: nat)
    ensures frame % ENTRIES == 0 ==> LargeAddress(frame, virt) == frame * PAGE_SIZE + virt % LARGE_PAGE_SIZE
  {
    assert Pow2(4) == 16;
    assert Pow2(9) == ENTRIES;
    OrZero(virt / PAGE_SIZE % ENTRIES, 9);
    OffsetSplits(virt);
  }

  lemma OffsetSplits(virt: nat)
    ensures virt % LARGE_PAGE_SIZE == virt / PAGE_SIZE % ENTRIES * PAGE_SIZE + virt % PAGE_SIZE
  {
    var page := virt / PAGE_SIZE;
    assert page == page / ENTRIES * ENTRIES + page % ENTRIES;
    assert virt == page / ENTRIES * LARGE_PAGE_SIZE + (page % ENTRIES * PAGE_SIZE + virt % PAGE_SIZE);
  }

  // ----- the shape of the tables -----

  /** Tables below the lower half of a top-level table belong to it; those below the upper half are shared. */
  datatype Owner = Shared | Of(root: Frame)

  datatype Place = Place(owner: Owner, path: seq<nat>)

  function Child(p: Place, i: nat): Place {
    Place(if p.path == [] && i >= HALF then Shared else p.owner, p.path + [i])
  }

  function PlaceOf(root: Frame, p: Path, d: nat): Place
    requires d <= |p|
  {
    Place(if d > 0 && p[0] >= HALF then Shared else Of(root), p[..d])
  }

  type Places = map<Frame, Place>

  ghost predicate TableOk(tb: Tables, place: Places, t: Frame)
    requires t in place
  {
    && t in tb && |tb[t]| == ENTRIES && |place[t].path| <= 3
    && (|place[t].path| < 3 ==>
          forall i :: 0 <= i < ENTRIES && Links(tb[t][i], |place[t].path|) ==>
            && tb[t][i].frame in place && place[tb[t][i].frame] == Child(place[t], i)
            && tb[t][i].flags.rw && !tb[t][i].flags.nx)
  }

  /** Every table has one place, and each entry points to the table of the place it stands for: the
      tables form a tree, except that the upper-half subtrees hang under every root. */
  ghost predicate WellPlaced(tb: Tables, place: Places, roots: set<Frame>) {
    && (forall t :: t in place ==> TableOk(tb, place, t))
    && (forall r :: r in roots ==> r in place && place[r] == Place(Of(r), []))
  }

  /** The upper halves of all top-level tables are full, equal, and closed to user mode. */
  ghost predicate HighShared(tb: Tables, roots: set<Frame>) {
    && (forall r, i :: r in roots && HALF <= i < ENTRIES ==>
          EntryAt(tb, r, i).flags.present && !EntryAt(tb, r, i).flags.user)
    && (forall r, r', i :: r in roots && r' in roots && HALF <= i < ENTRIES ==> EntryAt(tb, r, i) == EntryAt(tb, r', i))
  }

  lemma {:induction false} Placed(tb: Tables, place: Places, roots: set<Frame>, r: Frame, p: Path, d: nat)
    requires WellPlaced(tb, place, roots) && r in roots && IsPath(p) && d <= 3
    requires TableAt(tb, r, p, d).Some?
    ensures var t := TableAt(tb, r, p, d).value; t in place && place[t] == PlaceOf(r, p, d)
  {
    if d > 0 {
      Placed(tb, place, roots, r, p, d - 1);
      var t := TableAt(tb, r, p, d - 1).value;
      assert TableOk(tb, place, t);
      assert p[..d - 1] + [p[d - 1]] == p[..d];
    }
  }

  // ----- which pages a write to one entry changes -----

  function SetEntry(tb: Tables, t: Frame, i: nat, e: Pte): Tables
    requires t in tb && i < |tb[t]|
  {
    tb[t := tb[t][i := e]]
  }

  /** Root r' sees what root r has at page p. */
  predicate Sees(r': Frame, r: Frame, p: Path)
    requires |p| == 4
  {
    r' == r || p[0] >= HALF
  }

  /** Of all pages of all maps, only p changed, in r and in those that share it. */
  ghost predicate OnlyChanged(tb: Tables, tb': Tables, roots: set<Frame>, r: Frame, p: Path, leaf: Leaf)
    requires |p| == 4
  {
    forall r', q :: r' in roots && IsPath(q) ==>
      Lookup(tb', r', q) == if q == p && Sees(r', r, p) then leaf else Lookup(tb, r', q)
  }

  ghost predicate SameLookups(tb: Tables, tb': Tables, roots: set<Frame>) {
    forall r, q :: r in roots && IsPath(q) ==> Lookup(tb', r, q) == Lookup(tb, r, q)
  }

  /** The tables of `place` are the same in both memories, except perhaps for entry i of t. */
  ghost predicate AgreeExcept(tb: Tables, tb': Tables, place: Places, t: Frame, i: nat) {
    forall u, j :: u in place && (u != t || j != i) ==> EntryAt(tb', u, j) == EntryAt(tb, u, j)
  }

  /** The walk of q from r passes entry i of t. */
  ghost predicate Hits(tb: Tables, r: Frame, q: Path, k: nat, t: Frame, i: nat)
    requires k < |q|
  {
    TableAt(tb, r, q, k) == Some(t) && q[k] == i
  }

  /** A walk that does not pass the entry ends as before. */
  lemma {:induction false} WalkSame(tb: Tables, tb': Tables, place: Places, roots: set<Frame>, t: Frame, i: nat,
                                    r: Frame, q: Path, d: nat)
    requires WellPlaced(tb, place, roots) && t in place && AgreeExcept(tb, tb', place, t, i)
    requires r in roots && IsPath(q) && d <= 3
    requires |place[t].path| < d ==> !Hits(tb, r, q, |place[t].path|, t, i)
    ensures TableAt(tb', r, q, d) == TableAt(tb, r, q, d)
  {
    if d > 0 {
      WalkSame(tb, tb', place, roots, t, i, r, q, d - 1);
      if TableAt(tb, r, q, d - 1).Some? {
        Placed(tb, place, roots, r, q, d - 1);
      }
    }
  }

  lemma LookupSame(tb: Tables, tb': Tables, place: Places, roots: set<Frame>, t: Frame, i: nat, r: Frame, q: Path)
    requires WellPlaced(tb, place, roots) && t in place && AgreeExcept(tb, tb', place, t, i)
    requires r in roots && IsPath(q) && !Hits(tb, r, q, |place[t].path|, t, i)
    ensures Lookup(tb', r, q) == Lookup(tb, r, q)
  {
    WalkSame(tb, tb', place, roots, t, i, r, q, 3);
    WalkSame(tb, tb', place, roots, t, i, r, q, 2);
    if TableAt(tb, r, q, 3).Some? {
      Placed(tb, place, roots, r, q, 3);
    } else if TableAt(tb, r, q, 2).Some? {
      Placed(tb, place, roots, r, q, 2);
    }
  }

  /** Walks of equal indices meet, from the same root or in the shared half. */
  lemma {:induction false} SameWalk(tb: Tables, roots: set<Frame>, r: Frame, r': Frame, p: Path, q: Path, d: nat)
    requires HighShared(tb, roots) && r in roots && r' in roots && IsPath(p) && IsPath(q)
    requires d <= 4 && p[..d] == q[..d] && (r == r' || (d > 0 && p[0] >= HALF))
    ensures TableAt(tb, r, p, d) == TableAt(tb, r', q, d)
  {
    if d > 0 {
      assert p[d - 1] == p[..d][d - 1] == q[..d][d - 1] == q[d - 1];
      if d > 1 || r == r' {
        assert p[..d - 1] == p[..d][..d - 1] == q[..d][..d - 1] == q[..d - 1];
        SameWalk(tb, roots, r, r', p, q, d - 1);
      }
    }
  }

  /** Which walks pass the entry that the walk of p from r ends at: those of the same indices. */
  lemma HitsIff(tb: Tables, place: Places, roots: set<Frame>, r: Frame, p: Path, k: nat, r': Frame, q: Path)
    requires WellPlaced(tb, place, roots) && HighShared(tb, roots)
    requires r in roots && r' in roots && IsPath(p) && IsPath(q) && k <= 3 && TableAt(tb, r, p, k).Some?
    ensures Hits(tb, r', q, k, TableAt(tb, r, p, k).value, p[k])
            <==> q[..k + 1] == p[..k + 1] && (r' == r || (k > 0 && p[0] >= HALF))
  {
    assert p[..k + 1] == p[..k] + [p[k]] && q[..k + 1] == q[..k] + [q[k]];
    Placed(tb, place, roots, r, p, k);
    if Hits(tb, r', q, k, TableAt(tb, r, p, k).value, p[k]) {
      Placed(tb, place, roots, r', q, k);
      assert PlaceOf(r', q, k) == PlaceOf(r, p, k);
      assert k > 0 ==> p[..k][0] == p[0] && q[..k][0] == q[0];
    }
    if q[..k + 1] == p[..k + 1] && (r' == r || (k > 0 && p[0] >= HALF)) {
      assert q[..k + 1][..k] == q[..k] && p[..k + 1][..k] == p[..k] && q[..k + 1][k] == q[k] && p[..k + 1][k] == p[k];
      SameWalk(tb, roots, r, r', p, q, k);
    }
  }

  /** Only a write to the upper half of a root could break its equality with the others. */
  lemma HighKept(tb: Tables, tb': Tables, place: Places, roots: set<Frame>, t: Frame, i: nat)
    requires WellPlaced(tb, place, roots) && HighShared(tb, roots) && t in place && AgreeExcept(tb, tb', place, t, i)
    requires place[t].path != [] || i < HALF
    ensures HighShared(tb', roots)
  {
    forall r, j | r in roots && HALF <= j < ENTRIES
      ensures EntryAt(tb', r, j) == EntryAt(tb, r, j)
    {
      assert r in place && place[r] == Place(Of(r), []);
    }
  }

  /** Writing the 4 KiB entry of a page changes that page and no other. */
  lemma LeafWritten(tb: Tables, place: Places, roots: set<Frame>, r: Frame, p: Path, e: Pte)
    requires WellPlaced(tb, place, roots) && HighShared(tb, roots) && r in roots && IsPath(p)
    requires TableAt(tb, r, p, 3).Some?
    ensures var t := TableAt(tb, r, p, 3).value;
            && t in tb && p[3] < |tb[t]|
            && var tb' := SetEntry(tb, t, p[3], e);
               WellPlaced(tb', place, roots) && HighShared(tb', roots) && OnlyChanged(tb, tb', roots, r, p, Small(e))
  {
    var t := TableAt(tb, r, p, 3).value;
    Placed(tb, place, roots, r, p, 3);
    assert TableOk(tb, place, t);
    var tb' := SetEntry(tb, t, p[3], e);
    forall u | u in place
      ensures TableOk(tb', place, u)
    {
      assert TableOk(tb, place, u);
    }
    HighKept(tb, tb', place, roots, t, p[3]);
    forall r', q | r' in roots && IsPath(q)
      ensures Lookup(tb', r', q) == if q == p && Sees(r', r, p) then Small(e) else Lookup(tb, r', q)
    {
      HitsIff(tb, place, roots, r, p, 3, r', q);
      assert q[..4] == q && p[..4] == p;
      if !Hits(tb, r', q, 3, t, p[3]) {
        LookupSame(tb, tb', place, roots, t, p[3], r', q);
      } else {
        WalkSame(tb, tb', place, roots, t, p[3], r', q, 3);
      }
    }
  }

  /** Writing a 2 MiB entry changes the 512 pages it covers and no other. */
  lemma LargeWritten(tb: Tables, place: Places, roots: set<Frame>, r: Frame, p: Path, e: Pte)
    requires WellPlaced(tb, place, roots) && HighShared(tb, roots) && r in roots && IsPath(p)
    requires TableAt(tb, r, p, 2).Some? && e.flags.huge
    ensures var t := TableAt(tb, r, p, 2).value;
            && t in tb && p[2] < |tb[t]|
            && var tb' := SetEntry(tb, t, p[2], e);
               WellPlaced(tb', place, roots) && HighShared(tb', roots)
                   && OnlyLargeChanged(tb, tb', roots, r, p, HugeOr(e, NOTHING))
  {
    var t := TableAt(tb, r, p, 2).value;
    Placed(tb, place, roots, r, p, 2);
    assert TableOk(tb, place, t);
    var tb' := SetEntry(tb, t, p[2], e);
    forall u | u in place
      ensures TableOk(tb', place, u)
    {
      assert TableOk(tb, place, u);
    }
    HighKept(tb, tb', place, roots, t, p[2]);
    forall r', q | r' in roots && IsPath(q)
      ensures Lookup(tb', r', q) == if q[..3] == p[..3] && Sees(r', r, p) then HugeOr(e, NOTHING) else Lookup(tb, r', q)
    {
      HitsIff(tb, place, roots, r, p, 2, r', q);
      if !Hits(tb, r', q, 2, t, p[2]) {
        LookupSame(tb, tb', place, roots, t, p[2], r', q);
      } else {
        WalkSame(tb, tb', place, roots, t, p[2], r', q, 2);
      }
    }
  }

  ghost predicate OnlyLargeChanged(tb: Tables, tb': Tables, roots: set<Frame>, r: Frame, p: Path, leaf: Leaf)
    requires |p| == 4
  {
    forall r', q :: r' in roots && IsPath(q) ==>
      Lookup(tb', r', q) == if q[..3] == p[..3] && Sees(r', r, p) then leaf else Lookup(tb, r', q)
  }

  function EmptyTable(): Table {
    seq(ENTRIES, _ => ZERO)
  }

  /** A fresh table gets the place its entry stands for. */
  lemma LinkPlaced(tb: Tables, place: Places, roots: set<Frame>, t: Frame, i: nat, n: Frame, f: Flags)
    requires WellPlaced(tb, place, roots) && t in place && |place[t].path| < 3 && i < ENTRIES && n !in place
    requires f.rw && !f.nx
    ensures TableOk(tb, place, t) && t != n
    ensures WellPlaced(SetEntry(tb[n := EmptyTable()], t, i, Pte(n, f)), place[n := Child(place[t], i)], roots)
    ensures AgreeExcept(tb, SetEntry(tb[n := EmptyTable()], t, i, Pte(n, f)), place, t, i)
  {
    assert TableOk(tb, place, t);
    var tb', place' := SetEntry(tb[n := EmptyTable()], t, i, Pte(n, f)), place[n := Child(place[t], i)];
    forall u | u in place'
      ensures TableOk(tb', place', u)
    {
      assert u != n ==> TableOk(tb, place, u);
    }
  }

  /** Hanging an empty table under an absent entry changes no page of any map. */
  lemma TableLinked(tb: Tables, place: Places, roots: set<Frame>, r: Frame, p: Path, k: nat, n: Frame, f: Flags)
    requires WellPlaced(tb, place, roots) && HighShared(tb, roots) && r in roots && IsPath(p) && k < 3
    requires TableAt(tb, r, p, k).Some? && n !in place && f.present && !f.huge && f.rw && !f.nx
    requires !EntryAt(tb, TableAt(tb, r, p, k).value, p[k]).flags.present
    ensures var t := TableAt(tb, r, p, k).value;
            && t in place && TableOk(tb, place, t) && t != n && |place[t].path| == k
            && var tb', place' := SetEntry(tb[n := EmptyTable()], t, p[k], Pte(n, f)),
               place[n := Child(place[t], p[k])];
               && WellPlaced(tb', place', roots) && HighShared(tb', roots) && SameLookups(tb, tb', roots)
               && TableAt(tb', r, p, k + 1) == Some(n)
  {
    var t := TableAt(tb, r, p, k).value;
    Placed(tb, place, roots, r, p, k);
    LinkPlaced(tb, place, roots, t, p[k], n, f);
    var tb' := SetEntry(tb[n := EmptyTable()], t, p[k], Pte(n, f));
    HighKept(tb, tb', place, roots, t, p[k]);
    forall r', q | r' in roots && IsPath(q)
      ensures Lookup(tb', r', q) == Lookup(tb, r', q)
    {
      if !Hits(tb, r', q, k, t, p[k]) {
        LookupSame(tb, tb', place, roots, t, p[k], r', q);
      } else {
        EmptySubtree(tb, tb', place, roots, r', q, k, t, n);
      }
    }
    WalkSame(tb, tb', place, roots, t, p[k], r, p, k);
  }

  lemma EmptySubtree(tb: Tables, tb': Tables, place: Places, roots: set<Frame>, r: Frame, q: Path, k: nat, t: Frame,
                     n: Frame)
    requires WellPlaced(tb, place, roots) && r in roots && IsPath(q) && k < 3 && t in place && |place[t].path| == k
    requires AgreeExcept(tb, tb', place, t, q[k]) && Hits(tb, r, q, k, t, q[k])
    requires !EntryAt(tb, t, q[k]).flags.present && Links(EntryAt(tb', t, q[k]), k) && EntryAt(tb', t, q[k]).frame == n
    requires forall j :: EntryAt(tb', n, j) == ZERO
    ensures Lookup(tb, r, q) == NOTHING && Lookup(tb', r, q) == NOTHING
  {
    WalkSame(tb, tb', place, roots, t, q[k], r, q, k);
    assert TableAt(tb, r, q, k + 1).None? && TableAt(tb', r, q, k + 1) == Some(n);
    if k == 0 {
      assert TableAt(tb, r, q, 2).None? && TableAt(tb', r, q, 2).None?;
    } else if k == 1 {
      assert TableAt(tb, r, q, 3).None? && TableAt(tb', r, q, 3).None?;
    }
  }

  // ----- what the processor allows -----

  /** Tables never hide a right to write or execute, so only user access depends on them. */
  lemma {:induction false} TablesOnlyHideUser(tb: Tables, place: Places, roots: set<Frame>, r: Frame, p: Path, d: nat)
    requires WellPlaced(tb, place, roots) && r in roots && IsPath(p) && d <= 3
    ensures Along(tb, r, p, d).write && Along(tb, r, p, d).execute
  {
    if d > 0 {
      TablesOnlyHideUser(tb, place, roots, r, p, d - 1);
      if TableAt(tb, r, p, d).Some? {
        Placed(tb, place, roots, r, p, d - 1);
        assert TableOk(tb, place, TableAt(tb, r, p, d - 1).value);
      }
    }
  }

  /** User mode reaches no page of the upper half, in any map and whatever its flags. */
  lemma {:induction false} HighHalfClosed(tb: Tables, roots: set<Frame>, r: Frame, p: Path, d: nat)
    requires HighShared(tb, roots) && r in roots && IsPath(p) && p[0] >= HALF && 0 < d <= 4
    ensures !Along(tb, r, p, d).user
  {
    if d == 1 {
      assert TableAt(tb, r, p, 1).Some?;
    } else {
      HighHalfClosed(tb, roots, r, p, d - 1);
    }
  }

  /** A walk that does not pass the entry collects what it collected before. */
  lemma {:induction false} AlongSame(tb: Tables, tb': Tables, place: Places, roots: set<Frame>, t: Frame, i: nat,
                                     r: Frame, q: Path, d: nat)
    requires WellPlaced(tb, place, roots) && t in place && AgreeExcept(tb, tb', place, t, i)
    requires r in roots && IsPath(q) && d <= 3
    requires |place[t].path| < d ==> !Hits(tb, r, q, |place[t].path|, t, i)
    ensures Along(tb', r, q, d) == Along(tb, r, q, d)
  {
    if d > 0 {
      AlongSame(tb, tb', place, roots, t, i, r, q, d - 1);
      WalkSame(tb, tb', place, roots, t, i, r, q, d - 1);
      WalkSame(tb, tb', place, roots, t, i, r, q, d);
      if TableAt(tb, r, q, d).Some? {
        Placed(tb, place, roots, r, q, d - 1);
      }
    }
  }

  /** Every page that was mapped keeps what the tables above it allow. */
  ghost predicate AlongKept(tb: Tables, tb': Tables, roots: set<Frame>) {
    forall r, q {:trigger Along(tb', r, q, 3)} :: r in roots && IsPath(q) && Translate(Lookup(tb, r, q)).Some? ==>
      Along(tb', r, q, 3) == Along(tb, r, q, 3)
  }

  /** For a user page, the tables above it allow what those that were there allowed. */
  ghost predicate UserKept(tb: Tables, tb': Tables, r: Frame, p: Path, f: PageFlags)
    requires |p| == 4
  {
    f.user ==> Along(tb', r, p, 3).user == Along(tb, r, p, 3).user
  }

  /** The rights that flags ask for, under tables that may keep user mode out. */
  function Asked(f: PageFlags, userTables: bool): Option<Access> {
    if f.read then Some(Access(f.user && userTables, f.write, f.execute)) else None
  }

  lemma OnlyOneChanged(tb: Tables, tb': Tables, tb'': Tables, roots: set<Frame>, r: Frame, p: Path, leaf: Leaf)
    requires IsPath(p) && SameLookups(tb, tb', roots) && OnlyChanged(tb', tb'', roots, r, p, leaf)
    ensures OnlyChanged(tb, tb'', roots, r, p, leaf)
  {
  }

  /** Every page but p, which r and those that share it see, keeps its rights. */
  ghost predicate RightsKept(tb: Tables, tb': Tables, roots: set<Frame>, r: Frame, p: Path)
    requires |p| == 4
  {
    forall r', q :: r' in roots && IsPath(q) && !(q == p && Sees(r', r, p)) ==> Rights(tb', r', q) == Rights(tb, r', q)
  }

  /** The rights after the entry of one page was written. */
  lemma RightsAfter(tb: Tables, tb': Tables, place: Places, roots: set<Frame>, r: Frame, p: Path, e: Pte)
    requires WellPlaced(tb', place, roots) && r in roots && IsPath(p)
    requires OnlyChanged(tb, tb', roots, r, p, Small(e)) && AlongKept(tb, tb', roots)
    ensures RightsKept(tb, tb', roots, r, p)
    ensures Rights(tb', r, p) == if e.flags.present then
                                   Some(Access(e.flags.user && Along(tb', r, p, 3).user, e.flags.rw, !e.flags.nx))
                                 else None
  {
    TablesOnlyHideUser(tb', place, roots, r, p, 3);
    assert Lookup(tb', r, p) == Small(e);
  }

  lemma AlongKeptTwice(tb: Tables, tb': Tables, tb'': Tables, roots: set<Frame>)
    requires SameLookups(tb, tb', roots) && AlongKept(tb, tb', roots) && AlongKept(tb', tb'', roots)
    ensures AlongKept(tb, tb'', roots)
  {
    forall r, q {:trigger Along(tb'', r, q, 3)} | r in roots && IsPath(q) && Translate(Lookup(tb, r, q)).Some?
      ensures Along(tb'', r, q, 3) == Along(tb, r, q, 3)
    {
      assert Lookup(tb', r, q) == Lookup(tb, r, q);
      assert Along(tb', r, q, 3) == Along(tb, r, q, 3);
    }
  }

  lemma LeafKeepsAlong(tb: Tables, place: Places, roots: set<Frame>, r: Frame, p: Path, e: Pte)
    requires WellPlaced(tb, place, roots) && r in roots && IsPath(p) && TableAt(tb, r, p, 3).Some?
    ensures var t := TableAt(tb, r, p, 3).value;
            && t in tb && p[3] < |tb[t]|
            && var tb' := SetEntry(tb, t, p[3], e);
               AlongKept(tb, tb', roots) && Along(tb', r, p, 3) == Along(tb, r, p, 3)
  {
    var t := TableAt(tb, r, p, 3).value;
    Placed(tb, place, roots, r, p, 3);
    assert TableOk(tb, place, t);
    var tb' := SetEntry(tb, t, p[3], e);
    forall r', q {:trigger Along(tb', r', q, 3)} | r' in roots && IsPath(q)
      ensures Along(tb', r', q, 3) == Along(tb, r', q, 3)
    {
      AlongSame(tb, tb', place, roots, t, p[3], r', q, 3);
    }
  }

  lemma NothingBelow(tb: Tables, r: Frame, q: Path, k: nat)
    requires |q| == 4 && k < 3 && TableAt(tb, r, q, k).Some? && TableAt(tb, r, q, k + 1).None?
    ensures Along(tb, r, q, 3) == Along(tb, r, q, k)
  {
    if k == 0 {
      assert TableAt(tb, r, q, 2).None?;
      assert Along(tb, r, q, 2) == Along(tb, r, q, 1);
    } else if k == 1 {
      assert TableAt(tb, r, q, 3).None?;
    }
  }

  /** A new table under an absent entry hides user access only from pages below it. */
  lemma LinkKeepsAlong(tb: Tables, place: Places, roots: set<Frame>, r: Frame, p: Path, k: nat, n: Frame, f: Flags)
    requires WellPlaced(tb, place, roots) && r in roots && IsPath(p) && k < 3
    requires TableAt(tb, r, p, k).Some? && n !in place && f.present && !f.huge && f.rw && !f.nx
    requires !EntryAt(tb, TableAt(tb, r, p, k).value, p[k]).flags.present
    ensures var t := TableAt(tb, r, p, k).value;
            && t in place && TableOk(tb, place, t) && t != n
            && var tb' := SetEntry(tb[n := EmptyTable()], t, p[k], Pte(n, f));
               AlongKept(tb, tb', roots) && Along(tb', r, p, 3) == Along(tb, r, p, 3).Under(f)
  {
    var t := TableAt(tb, r, p, k).value;
    Placed(tb, place, roots, r, p, k);
    LinkPlaced(tb, place, roots, t, p[k], n, f);
    var tb' := SetEntry(tb[n := EmptyTable()], t, p[k], Pte(n, f));
    forall r', q {:trigger Along(tb', r', q, 3)} | r' in roots && IsPath(q) && Translate(Lookup(tb, r', q)).Some?
      ensures Along(tb', r', q, 3) == Along(tb, r', q, 3)
    {
      if Hits(tb, r', q, k, t, p[k]) {
        AbsentBelow(tb, r', q, k);
      }
      AlongSame(tb, tb', place, roots, t, p[k], r', q, 3);
    }
    AlongSame(tb, tb', place, roots, t, p[k], r, p, k);
    WalkSame(tb, tb', place, roots, t, p[k], r, p, k);
    assert TableAt(tb', r, p, k + 1) == Some(n) && TableAt(tb, r, p, k + 1).None?;
    NothingBelow(tb, r, p, k);
    if k < 2 {
      assert EntryAt(tb', n, p[k + 1]) == ZERO;
      NothingBelow(tb', r, p, k + 1);
    }
  }

  lemma AbsentBelow(tb: Tables, r: Frame, q: Path, k: nat)
    requires |q| == 4 && k < 3 && TableAt(tb, r, q, k).Some?
    requires !EntryAt(tb, TableAt(tb, r, q, k).value, q[k]).flags.present
    ensures Translate(Lookup(tb, r, q)).None?
  {
    assert TableAt(tb, r, q, k + 1).None?;
    if k == 0 {
      assert TableAt(tb, r, q, 2).None?;
    }
  }

  // ----- several maps -----

  /** Every upper-half page is the same in all maps. */
  lemma HighHalfAgrees(tb: Tables, roots: set<Frame>, r: Frame, r': Frame, p: Path)
    requires HighShared(tb, roots) && r in roots && r' in roots && IsPath(p) && p[0] >= HALF
    ensures Lookup(tb, r, p) == Lookup(tb, r', p)
  {
    SameWalk(tb, roots, r, r', p, p, 2);
    SameWalk(tb, roots, r, r', p, p, 3);
  }

  /** A new top-level table with the upper half of an existing one. */
  function CopyHigh(tb: Tables, kernel: Frame): Table
    requires kernel in tb && |tb[kernel]| == ENTRIES
  {
    EmptyTable()[..HALF] + tb[kernel][HALF..]
  }

  lemma RootAdded(tb: Tables, place: Places, roots: set<Frame>, kernel: Frame, n: Frame)
    requires WellPlaced(tb, place, roots) && HighShared(tb, roots) && kernel in roots && n !in place
    ensures TableOk(tb, place, kernel)
    ensures var tb', place', roots' := tb[n := CopyHigh(tb, kernel)], place[n := Place(Of(n), [])], roots + {n};
            && WellPlaced(tb', place', roots') && HighShared(tb', roots') && SameLookups(tb, tb', roots)
            && (forall q :: IsPath(q) ==> Lookup(tb', n, q) == if q[0] >= HALF then Lookup(tb, kernel, q) else NOTHING)
  {
    assert TableOk(tb, place, kernel);
    var tb', place', roots' := tb[n := CopyHigh(tb, kernel)], place[n := Place(Of(n), [])], roots + {n};
    forall u | u in place'
      ensures TableOk(tb', place', u)
    {
      if u != n {
        assert TableOk(tb, place, u);
      } else {
        forall i | 0 <= i < ENTRIES && Links(tb'[n][i], 0)
          ensures tb'[n][i].frame in place' && place'[tb'[n][i].frame] == Child(place'[n], i)
          ensures tb'[n][i].flags.rw && !tb'[n][i].flags.nx
        {
          assert i >= HALF && tb'[n][i] == tb[kernel][i];
        }
      }
    }
    forall r, i | r in roots' && HALF <= i < ENTRIES
      ensures EntryAt(tb', r, i) == EntryAt(tb, kernel, i)
    {
      assert r != n ==> EntryAt(tb, r, i) == EntryAt(tb, kernel, i);
    }
    forall r, q | r in roots && IsPath(q)
      ensures Lookup(tb', r, q) == Lookup(tb, r, q)
    {
      assert AgreeExcept(tb, tb', place, kernel, ENTRIES);
      LookupSame(tb, tb', place, roots, kernel, ENTRIES, r, q);
    }
    forall q | IsPath(q)
      ensures Lookup(tb', n, q) == if q[0] >= HALF then Lookup(tb, kernel, q) else NOTHING
    {
      if q[0] >= HALF {
        HighHalfAgrees(tb', roots', n, kernel, q);
      } else {
        assert EntryAt(tb', n, q[0]) == ZERO;
        assert TableAt(tb', n, q, 1).None?;
        assert TableAt(tb', n, q, 2).None?;
      }
    }
  }

  /** Entry j of the top-level table points to an empty table of its own. */
  ghost predicate FreshTable(tb: Tables, place: Places, root: Frame, j: nat) {
    var e := EntryAt(tb, root, j);
    && e.flags.present && !e.flags.user && e.frame in place && e.frame != root
    && forall x :: EntryAt(tb, e.frame, x) == ZERO
  }

  lemma RootNotNew(tb: Tables, place: Places, roots: set<Frame>, r: Frame)
    requires WellPlaced(tb, place, roots) && r in roots
    ensures TableOk(tb, place, r) && roots <= place.Keys
  {
    assert TableOk(tb, place, r);
  }

  lemma NothingChanged(tb: Tables, roots: set<Frame>, r: Frame, p: Path)
    requires HighShared(tb, roots) && r in roots && IsPath(p)
    ensures OnlyChanged(tb, tb, roots, r, p, Lookup(tb, r, p))
  {
    forall r', q | r' in roots && IsPath(q) && q == p && Sees(r', r, p)
      ensures Lookup(tb, r', q) == Lookup(tb, r, p)
    {
      if r' != r {
        HighHalfAgrees(tb, roots, r, r', p);
      }
    }
  }

  // ----- the operations -----

  /** Physical memory as far as it holds page tables, and the allocator of its pages. */
  class Memory {
    var tables: Tables
    const pages: PageAllocator
    ghost var place: Places
    ghost var roots: set<Frame>

    ghost predicate Shaped()
      reads this, pages
    {
      pages.Valid() && WellPlaced(tables, place, roots) && place.Keys !! pages.FreePages()
    }

    ghost predicate Valid()
      reads this, pages
    {
      Shaped() && HighShared(tables, roots)
    }

    constructor (pages: PageAllocator)
      requires pages.Valid()
      ensures Valid() && this.pages == pages && roots == {} && place == map[]
    {
      this.pages := pages;
      tables, place, roots := map[], map[], {};
    }

    /** pmalloc and memset: a zeroed page, linked nowhere yet. */
    method NewTable() returns (ok: bool, n: Frame)
      requires Shaped()
      modifies this`tables, pages
      ensures pages.Valid()
      ensures ok <==> old(pages.FreePages()) != {}
      ensures !ok ==> pages.FreePages() == old(pages.FreePages()) && tables == old(tables)
      ensures ok ==> n in old(pages.FreePages()) && pages.FreePages() == old(pages.FreePages()) - {n}
      ensures ok ==> tables == old(tables)[n := EmptyTable()]
    {
      var phys := pages.Pmalloc();
      if phys == 0 {
        return false, 0;
      }
      n := phys / PAGE_SIZE;
      tables := tables[n := EmptyTable()];
      return true, n;
    }

    method Write(t: Frame, i: nat, e: Pte)
      requires t in tables && i < |tables[t]|
      modifies this`tables
      ensures tables == SetEntry(old(tables), t, i, e)
    {
      tables := tables[t := tables[t][i := e]];
    }
  }

  class PageMap {
    var level0: Frame
    var usedPages: seq<Frame>

    /** The constructor for a map that shares the kernel's upper half. */
    constructor (m: Memory, kernel: PageMap)
      requires m.Valid() && kernel.level0 in m.roots && m.pages.FreePages() != {}
      modifies m, m.pages
      ensures m.Valid() && level0 !in old(m.roots) && m.roots == old(m.roots) + {level0}
      ensures SameLookups(old(m.tables), m.tables, old(m.roots))
      ensures forall q :: IsPath(q) ==>
                Lookup(m.tables, level0, q) == if q[0] >= HALF then old(Lookup(m.tables, kernel.level0, q)) else NOTHING
    {
      new;
      RootNotNew(m.tables, m.place, m.roots, kernel.level0);
      var ok;
      ok, level0 := m.NewTable();
      usedPages := [level0];
      RootAdded(old(m.tables), m.place, m.roots, kernel.level0, level0);
      m.tables := m.tables[level0 := CopyHigh(m.tables, kernel.level0)];
      assert m.tables == old(m.tables)[level0 := CopyHigh(old(m.tables), kernel.level0)];
      m.place := m.place[level0 := Place(Of(level0), [])];
      m.roots := m.roots + {level0};
    }

    /** The kernel's own map, whose upper half is filled at once. */
    constructor Kernel(m: Memory)
      requires m.Valid() && m.roots == {} && |m.pages.FreePages()| > HALF
      modifies m, m.pages
      ensures m.Valid() && m.roots == {level0}
      ensures forall q :: IsPath(q) ==> Lookup(m.tables, level0, q) == NOTHING
    {
      new;
      var ok;
      ok, level0 := m.NewTable();
      usedPages := [level0];
      m.place := m.place[level0 := Place(Of(level0), [])];
      m.roots := {level0};
      forall u | u in m.place
        ensures TableOk(m.tables, m.place, u)
      {
        assert u != level0 ==> TableOk(old(m.tables), old(m.place), u);
      }
      forall q | IsPath(q)
        ensures Lookup(m.tables, level0, q) == NOTHING
      {
        assert EntryAt(m.tables, level0, q[0]) == ZERO;
        assert TableAt(m.tables, level0, q, 1).None?;
        assert TableAt(m.tables, level0, q, 2).None?;
      }
      FillHighHalf(m);
    }

    /** Gives every upper-half entry of the top-level table a table of its own. */
    method FillHighHalf(m: Memory)
      requires m.Shaped() && m.roots == {level0} && |m.pages.FreePages()| >= HALF
      modifies m`tables, m`place, m.pages
      ensures m.Valid()
      ensures forall q :: IsPath(q) ==>
                Lookup(m.tables, level0, q) == if q[0] >= HALF then NOTHING else old(Lookup(m.tables, level0, q))
    {
      for i := HALF to ENTRIES
        invariant m.Shaped() && |m.pages.FreePages()| >= ENTRIES - i
        invariant forall j :: HALF <= j < i ==> FreshTable(m.tables, m.place, level0, j)
        invariant forall q :: IsPath(q) && q[0] < HALF ==>
                    Lookup(m.tables, level0, q) == old(Lookup(m.tables, level0, q))
      {
        ghost var tb, place := m.tables, m.place;
        assert level0 in place;
        var ok, n := m.NewTable();
        LinkPlaced(tb, place, m.roots, level0, i, n, Flags(true, true, false, false, false, false, false));
        m.Write(level0, i, Pte(n, Flags(true, true, false, false, false, false, false)));
        m.place := m.place[n := Child(m.place[level0], i)];
        assert FreshTable(m.tables, m.place, level0, i);
        forall j | HALF <= j < i
          ensures FreshTable(m.tables, m.place, level0, j)
        {
          assert FreshTable(tb, place, level0, j);
        }
        forall q | IsPath(q) && q[0] < HALF
          ensures Lookup(m.tables, level0, q) == Lookup(tb, level0, q)
        {
          LookupSame(tb, m.tables, place, m.roots, level0, i, level0, q);
        }
      }
      forall q | IsPath(q) && q[0] >= HALF
        ensures Lookup(m.tables, level0, q) == NOTHING
      {
        assert FreshTable(m.tables, m.place, level0, q[0]);
        var t := EntryAt(m.tables, level0, q[0]).frame;
        assert TableAt(m.tables, level0, q, 1) == Some(t) && EntryAt(m.tables, t, q[1]) == ZERO;
        assert TableAt(m.tables, level0, q, 2).None?;
      }
      forall i | HALF <= i < ENTRIES
        ensures EntryAt(m.tables, level0, i).flags.present && !EntryAt(m.tables, level0, i).flags.user
      {
        assert FreshTable(m.tables, m.place, level0, i);
      }
    }

    /** The table under entry i = p[k] of table t, allocated if there is none. */
    method Descend(m: Memory, t: Frame, i: nat, k: nat, f: PageFlags, ghost p: Path) returns (ok: bool, child: Frame)
      requires m.Valid() && level0 in m.roots && IsPath(p) && k < 3 && i == p[k]
      requires TableAt(m.tables, level0, p, k) == Some(t) && (k == 2 ==> Lookup(m.tables, level0, p).Small?)
      modifies this`usedPages, m`tables, m`place, m.pages
      ensures m.Valid() && SameLookups(old(m.tables), m.tables, m.roots)
      ensures ok ==> TableAt(m.tables, level0, p, k + 1) == Some(child)
      ensures AlongKept(old(m.tables), m.tables, m.roots)
      ensures UserKept(old(m.tables), m.tables, level0, p, f)
      ensures old(m.place).Keys <= m.place.Keys
      ensures m.pages.FreePages() + m.place.Keys == old(m.pages.FreePages() + m.place.Keys)
    {
      Placed(m.tables, m.place, m.roots, level0, p, k);
      assert TableOk(m.tables, m.place, t);
      var e := m.tables[t][i];
      if e.flags.present {
        assert Links(e, k);
        return true, e.frame;
      }
      ok, child := m.NewTable();
      if !ok {
        return;
      }
      usedPages := usedPages + [child];
      TableLinked(old(m.tables), m.place, m.roots, level0, p, k, child, TableFlags(f));
      LinkKeepsAlong(old(m.tables), m.place, m.roots, level0, p, k, child, TableFlags(f));
      m.Write(t, i, Pte(child, TableFlags(f)));
      m.place := m.place[child := Child(m.place[t], i)];
    }

    /** The level-2 table of page p, with the tables on the way allocated. */
    method Level2(m: Memory, p: Path, f: PageFlags) returns (ok: bool, level2: Frame)
      requires m.Valid() && level0 in m.roots && IsPath(p)
      modifies this`usedPages, m`tables, m`place, m.pages
      ensures m.Valid() && SameLookups(old(m.tables), m.tables, m.roots)
      ensures ok ==> TableAt(m.tables, level0, p, 2) == Some(level2)
      ensures AlongKept(old(m.tables), m.tables, m.roots)
      ensures UserKept(old(m.tables), m.tables, level0, p, f)
      ensures old(m.place).Keys <= m.place.Keys
      ensures m.pages.FreePages() + m.place.Keys == old(m.pages.FreePages() + m.place.Keys)
    {
      var level1;
      ok, level1 := Descend(m, level0, p[0], 0, f, p);
      if !ok {
        return false, 0;
      }
      ghost var between := m.tables;
      ok, level2 := Descend(m, level1, p[1], 1, f, p);
      AlongKeptTwice(old(m.tables), between, m.tables, m.roots);
    }

    /** The last table of page p, with the tables on the way allocated. */
    method Level3(m: Memory, p: Path, f: PageFlags) returns (ok: bool, large: bool, level3: Frame)
      requires m.Valid() && level0 in m.roots && IsPath(p)
      modifies this`usedPages, m`tables, m`place, m.pages
      ensures m.Valid() && SameLookups(old(m.tables), m.tables, m.roots)
      ensures ok ==> large == old(Lookup(m.tables, level0, p).Large?)
      ensures ok && !large ==> TableAt(m.tables, level0, p, 3) == Some(level3)
      ensures AlongKept(old(m.tables), m.tables, m.roots)
      ensures UserKept(old(m.tables), m.tables, level0, p, f)
      ensures old(m.place).Keys <= m.place.Keys
      ensures m.pages.FreePages() + m.place.Keys == old(m.pages.FreePages() + m.place.Keys)
    {
      var level2;
      ok, level2 := Level2(m, p, f);
      if !ok {
        return false, false, 0;
      }
      Placed(m.tables, m.place, m.roots, level0, p, 2);
      assert TableOk(m.tables, m.place, level2);
      var e := m.tables[level2][p[2]];
      large := e.flags.present && e.flags.huge;
      assert large == Lookup(m.tables, level0, p).Large?;
      if large {
        return true, true, e.frame;
      }
      ghost var between := m.tables;
      ok, level3 := Descend(m, level2, p[2], 2, f, p);
      AlongKeptTwice(old(m.tables), between, m.tables, m.roots);
    }

    /**
     Maps one 4 KiB page; fails, without changing any page, if a table cannot be allocated.  There is
     no test for a 2 MiB entry: its first page is taken for a table and written to, which maps
     nothing (and must not be a page that really is a table).
     */
    method Map(m: Memory, virt: nat, frame: Frame, f: PageFlags, c: CacheMode) returns (ok: bool)
      requires m.Valid() && level0 in m.roots
      requires var leaf := Lookup(m.tables, level0, Indices(virt)); leaf.Small? || leaf.e.frame !in m.place
      modifies this`usedPages, m`tables, m`place, m.pages
      ensures m.Valid()
      ensures ok && old(Lookup(m.tables, level0, Indices(virt)).Small?) ==>
                OnlyChanged(old(m.tables), m.tables, m.roots, level0, Indices(virt),
                            Small(Pte(frame, RealFlags(f, c, false))))
      ensures ok && old(Lookup(m.tables, level0, Indices(virt)).Large?) ==>
                SameLookups(old(m.tables), m.tables, m.roots)
      // user mode is let in exactly if the tables that were there already let it in
      ensures ok && old(Lookup(m.tables, level0, Indices(virt)).Small?) ==>
                && RightsKept(old(m.tables), m.tables, m.roots, level0, Indices(virt))
                && Rights(m.tables, level0, Indices(virt))
                   == Asked(f, old(Along(m.tables, level0, Indices(virt), 3).user))
      ensures !ok ==> SameLookups(old(m.tables), m.tables, m.roots)
      ensures old(m.place).Keys <= m.place.Keys
      ensures m.pages.FreePages() + m.place.Keys == old(m.pages.FreePages() + m.place.Keys)
    {
      SameIndicesIffSamePage(virt, virt);
      var p, e := Indices(virt), Pte(frame, RealFlags(f, c, false));
      var large, level3;
      ok, large, level3 := Level3(m, p, f);
      if !ok || large {
        return;
      }
      ghost var between := m.tables;
      LeafWritten(m.tables, m.place, m.roots, level0, p, e);
      LeafKeepsAlong(m.tables, m.place, m.roots, level0, p, e);
      m.Write(level3, p[3], e);
      OnlyOneChanged(old(m.tables), between, m.tables, m.roots, level0, p, Small(e));
      AlongKeptTwice(old(m.tables), between, m.tables, m.roots);
      RightsAfter(old(m.tables), m.tables, m.place, m.roots, level0, p, e);
    }

    /** Maps a 2 MiB page over the 512 pages of its slot. */
    method Map2mb(m: Memory, virt: nat, frame: Frame, f: PageFlags, c: CacheMode) returns (ok: bool)
      requires m.Valid() && level0 in m.roots
      modifies this`usedPages, m`tables, m`place, m.pages
      ensures m.Valid()
      ensures ok ==> OnlyLargeChanged(old(m.tables), m.tables, m.roots, level0, Indices(virt),
                                      HugeOr(Pte(frame, RealFlags(f, c, true)), NOTHING))
      ensures !ok ==> SameLookups(old(m.tables), m.tables, m.roots)
    {
      SameIndicesIffSamePage(virt, virt);
      var p := Indices(virt);
      var level2;
      ok, level2 := Level2(m, p, f);
      if !ok {
        return;
      }
      LargeWritten(m.tables, m.place, m.roots, level0, p, Pte(frame, RealFlags(f, c, true)));
      m.Write(level2, p[2], Pte(frame, RealFlags(f, c, true)));
    }

    /** Walks to the last table, if there is one and no 2 MiB entry on the way. */
    method Walk(m: Memory, virt: nat) returns (found: bool, t: Frame, large: bool, e: Pte)
      requires m.Valid() && level0 in m.roots
      ensures found <==> TableAt(m.tables, level0, Indices(virt), 3) == Some(t)
      ensures !found ==> TableAt(m.tables, level0, Indices(virt), 3).None?
      ensures found ==> t in m.place && TableOk(m.tables, m.place, t) && m.place[t].path == Indices(virt)[..3]
      ensures large == Lookup(m.tables, level0, Indices(virt)).Large?
              && (large ==> Lookup(m.tables, level0, Indices(virt)) == Large(e))
    {
      SameIndicesIffSamePage(virt, virt);
      var p := Indices(virt);
      t, large, e := level0, false, ZERO;
      for k := 0 to 3
        invariant TableAt(m.tables, level0, p, k) == Some(t) && !large
      {
        Placed(m.tables, m.place, m.roots, level0, p, k);
        assert TableOk(m.tables, m.place, t);
        e := m.tables[t][p[k]];
        if !e.flags.present {
          assert k == 0 ==> TableAt(m.tables, level0, p, 2).None?;
          return false, 0, false, e;
        }
        if k == 2 && e.flags.huge {
          return false, 0, true, e;
        }
        t := e.frame;
      }
      Placed(m.tables, m.place, m.roots, level0, p, 3);
      found := true;
    }

    /** Removes the page's 4 KiB entry; a 2 MiB entry stays. */
    method Unmap(m: Memory, virt: nat)
      requires m.Valid() && level0 in m.roots
      modifies m`tables
      ensures m.Valid()
      ensures OnlyChanged(old(m.tables), m.tables, m.roots, level0, Indices(virt),
                          if old(Lookup(m.tables, level0, Indices(virt)).Large?) then
                              old(Lookup(m.tables, level0, Indices(virt))) else NOTHING)
      ensures m.tables.Keys == old(m.tables).Keys
    {
      SameIndicesIffSamePage(virt, virt);
      var p := Indices(virt);
      var found, t, large, e := Walk(m, virt);
      if found {
        LeafWritten(m.tables, m.place, m.roots, level0, p, ZERO);
        m.Write(t, p[3], ZERO);
      } else {
        NothingChanged(m.tables, m.roots, level0, p);
      }
    }

    /** The physical address of virt, or 0; the low bits of virt are added even to an empty entry. */
    method GetPhys(m: Memory, virt: nat) returns (phys: nat)
      requires m.Valid() && level0 in m.roots
      ensures var p, leaf := Indices(virt), Lookup(m.tables, level0, Indices(virt));
              match leaf
              case Large(e) =>
                && phys == LargeAddress(e.frame, virt)
                && (e.frame % ENTRIES == 0 ==> phys == e.frame * PAGE_SIZE + virt % LARGE_PAGE_SIZE)
              case Small(e) =>
                && (TableAt(m.tables, level0, p, 3).None? ==> phys == 0)
                && (TableAt(m.tables, level0, p, 3).Some? ==> phys == e.frame * PAGE_SIZE + virt % PAGE_SIZE)
                && (virt % PAGE_SIZE == 0 ==> phys == e.frame * PAGE_SIZE)
    {
      var p := Indices(virt);
      var found, t, large, e := Walk(m, virt);
      if large {
        LargeIsSum(e.frame, virt);
        return LargeAddress(e.frame, virt);
      }
      if !found {
        return 0;
      }
      phys := m.tables[t][p[3]].frame * PAGE_SIZE + virt % PAGE_SIZE;
    }

    /** Replaces the flags of a page that has a table, and keeps its frame. */
    method Protect(m: Memory, virt: nat, f: PageFlags, c: CacheMode)
      requires m.Valid() && level0 in m.roots
      modifies m`tables
      ensures m.Valid()
      ensures var p, before := Indices(virt), old(Lookup(m.tables, level0, Indices(virt)));
              OnlyChanged(old(m.tables), m.tables, m.roots, level0, p,
                          if old(TableAt(m.tables, level0, p, 3).Some?) then
                              Small(Pte(before.e.frame, RealFlags(f, c, false))) else before)
      // an absent page does not stay absent, whatever frame its entry has
      ensures var p, before := Indices(virt), old(Lookup(m.tables, level0, Indices(virt)));
              Translate(before).None? ==>
                var after := Translate(Lookup(m.tables, level0, p));
                && (after.Some? <==> old(TableAt(m.tables, level0, p, 3).Some?) && f.read)
                && (after.Some? ==> after.value.0 == before.e.frame)
      ensures RightsKept(old(m.tables), m.tables, m.roots, level0, Indices(virt))
      ensures old(TableAt(m.tables, level0, Indices(virt), 3).Some?) ==>
                Rights(m.tables, level0, Indices(virt)) == Asked(f, old(Along(m.tables, level0, Indices(virt), 3).user))
    {
      SameIndicesIffSamePage(virt, virt);
      var p := Indices(virt);
      var found, t, large, e := Walk(m, virt);
      if found {
        var kept := Pte(m.tables[t][p[3]].frame, RealFlags(f, c, false));
        LeafWritten(m.tables, m.place, m.roots, level0, p, kept);
        LeafKeepsAlong(m.tables, m.place, m.roots, level0, p, kept);
        m.Write(t, p[3], kept);
        RightsAfter(old(m.tables), m.tables, m.place, m.roots, level0, p, kept);
      } else {
        NothingChanged(m.tables, m.roots, level0, p);
      }
    }
  }

  // ----- runs over several maps -----

  datatype MapOp =
    | DoMap(map_: nat, virt: nat, frame: Frame, f: PageFlags, c: CacheMode)
    | DoMap2mb(map_: nat, virt: nat, frame: Frame, f: PageFlags, c: CacheMode)
    | DoUnmap(map_: nat, virt: nat)
    | DoProtect(map_: nat, virt: nat, f: PageFlags, c: CacheMode)
    | DoCreate

  ghost predicate Distinct(maps: seq<PageMap>)
    reads maps
  {
    forall i, j :: 0 <= i < j < |maps| ==> maps[i] != maps[j] && maps[i].level0 != maps[j].level0
  }

  ghost predicate Rooted(m: Memory, maps: seq<PageMap>)
    reads m, maps
  {
    forall i :: 0 <= i < |maps| ==> maps[i].level0 in m.roots
  }

  ghost predicate Names(op: MapOp, k: nat) {
    !op.DoCreate? && op.map_ == k
  }

  /** The lower half of a map is as it was. */
  ghost predicate LowKept(tb: Tables, tb': Tables, r: Frame) {
    forall p :: IsPath(p) && p[0] < HALF ==> Lookup(tb', r, p) == Lookup(tb, r, p)
  }

  /** Adds a map created from the first one. */
  method Create(m: Memory, maps: seq<PageMap>) returns (maps': seq<PageMap>)
    requires m.Valid() && maps != [] && Distinct(maps) && Rooted(m, maps) && m.pages.FreePages() != {}
    modifies m, m.pages
    ensures m.Valid() && Distinct(maps') && Rooted(m, maps') && maps <= maps'
    ensures forall i :: 0 <= i < |maps'| ==> maps'[i] in maps || fresh(maps'[i])
    ensures forall k :: 0 <= k < |maps| ==> LowKept(old(m.tables), m.tables, maps[k].level0)
  {
    var created := new PageMap(m, maps[0]);
    maps' := maps + [created];
  }

  /** One operation on one map leaves the lower half of every other map alone. */
  method ApplyTo(m: Memory, target: PageMap, op: MapOp)
    requires m.Valid() && target.level0 in m.roots && !op.DoCreate?
    modifies target`usedPages, m`tables, m`place, m.pages
    ensures m.Valid() && forall r :: r in m.roots && r != target.level0 ==> LowKept(old(m.tables), m.tables, r)
  {
    match op {
      case DoMap(_, virt, frame, f, c) =>
        if Lookup(m.tables, target.level0, Indices(virt)).Small? {
          var ok := target.Map(m, virt, frame, f, c);
        }
      case DoMap2mb(_, virt, frame, f, c) => var ok := target.Map2mb(m, virt, frame, f, c);
      case DoUnmap(_, virt) => target.Unmap(m, virt);
      case DoProtect(_, virt, f, c) => target.Protect(m, virt, f, c);
    }
  }

  /** Applies one operation; those the source does not support (no such map, a 2 MiB entry in the
      way, no memory for a new map) are skipped. */
  method Apply(m: Memory, maps: seq<PageMap>, op: MapOp) returns (maps': seq<PageMap>)
    requires m.Valid() && maps != [] && Distinct(maps) && Rooted(m, maps)
    modifies m, m.pages, maps
    ensures m.Valid() && Distinct(maps') && Rooted(m, maps') && maps <= maps'
    ensures forall i :: 0 <= i < |maps'| ==> maps'[i] in maps || fresh(maps'[i])
    ensures forall k :: 0 <= k < |maps| ==> maps[k].level0 == old(maps[k].level0)
    ensures forall k :: 0 <= k < |maps| && !Names(op, k) ==> LowKept(old(m.tables), m.tables, maps[k].level0)
  {
    maps' := maps;
    if op.DoCreate? {
      if m.pages.list != [] {
        assert m.pages.list[0].start in m.pages.list[0].Pages();
        assert m.pages.list[0].start in m.pages.FreePages();
        maps' := Create(m, maps);
      }
    } else if op.map_ < |maps| {
      ApplyTo(m, maps[op.map_], op);
    }
  }

  /**
   Any run of map, unmap, protect and map creation: afterwards all maps agree on every upper-half
   page, user mode reaches none of those, and a map that no operation named has every lower-half page
   as before.
   */
  method RunMaps(m: Memory, start: seq<PageMap>, ops: seq<MapOp>) returns (maps: seq<PageMap>)
    requires m.Valid() && start != [] && Distinct(start) && Rooted(m, start)
    modifies m, m.pages, start
    ensures m.Valid() && Distinct(maps) && Rooted(m, maps) && start <= maps
    ensures forall i, j, p :: 0 <= i < |maps| && 0 <= j < |maps| && IsPath(p) && p[0] >= HALF ==>
              Lookup(m.tables, maps[i].level0, p) == Lookup(m.tables, maps[j].level0, p)
    ensures forall i, p :: 0 <= i < |maps| && IsPath(p) && p[0] >= HALF ==>
              Rights(m.tables, maps[i].level0, p).None? || !Rights(m.tables, maps[i].level0, p).value.user
    ensures forall k :: 0 <= k < |start| && (forall n :: 0 <= n < |ops| ==> !Names(ops[n], k)) ==>
              start[k].level0 == old(start[k].level0) && LowKept(old(m.tables), m.tables, start[k].level0)
  {
    maps := start;
    for n := 0 to |ops|
      invariant m.Valid() && Distinct(maps) && Rooted(m, maps) && start <= maps
      invariant forall i :: 0 <= i < |maps| ==> maps[i] in start || fresh(maps[i])
      invariant forall k :: 0 <= k < |start| ==> start[k].level0 == old(start[k].level0)
      invariant forall k :: 0 <= k < |start| && (forall i :: 0 <= i < n ==> !Names(ops[i], k)) ==>
                  LowKept(old(m.tables), m.tables, start[k].level0)
    {
      maps := Apply(m, maps, ops[n]);
    }
    forall i, j, p | 0 <= i < |maps| && 0 <= j < |maps| && IsPath(p) && p[0] >= HALF
      ensures Lookup(m.tables, maps[i].level0, p) == Lookup(m.tables, maps[j].level0, p)
    {
      HighHalfAgrees(m.tables, m.roots, maps[i].level0, maps[j].level0, p);
    }
    forall i, p | 0 <= i < |maps| && IsPath(p) && p[0] >= HALF
      ensures Rights(m.tables, maps[i].level0, p).None? || !Rights(m.tables, maps[i].level0, p).value.user
    {
      HighHalfClosed(m.tables, m.roots, maps[i].level0, p, 3);
    }
  }
}
