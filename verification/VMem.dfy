/**
 The boundary-tag address allocator of src/mem/vmem.cpp.

 The arena is tiled by segments.  Their descriptors are records in a store indexed by pointer, with
 the raw prev/next links the source edits by hand; free segments are also on the freelist of their
 size class, allocated ones in a hash bucket of their base.  Two ghost sequences follow the links:
 `order`, the descriptors from the span on, and `tiles`, the intervals they stand for.  While an
 operation moves a segment between the lists, its tile is `Moving`.
 */
module VMem {
  import opened Seqs

  const WORD: nat := 0x1_0000_0000_0000_0000
  const FREELISTS: nat := 64
  const BUCKETS: nat := 16
  const SEGMENTS_PER_PAGE: nat := 73

  type Ptr = nat

  const NULL: Ptr := 0

  // ----- size classes -----

  /** The index of the highest set bit. */
  function Log2(n: nat): nat {
    if n < 2 then 0 else 1 + Log2(n / 2)
  }

  lemma {:induction false} Log2Monotone(a: nat, b: nat)
    requires a <= b
    ensures Log2(a) <= Log2(b)
  {
    if a >= 2 {
      Log2Monotone(a / 2, b / 2);
    }
  }

  function Pow2(n: nat): nat {
    if n == 0 then 1 else 2 * Pow2(n - 1)
  }

  lemma {:induction false} Log2Bound(n: nat, k: nat)
    requires n < Pow2(k)
    ensures k > 0 ==> Log2(n) < k
  {
    if n >= 2 {
      Log2Bound(n / 2, k - 1);
    }
  }

  lemma {:induction false} Pow2Add(a: nat, b: nat)
    ensures Pow2(a + b) == Pow2(a) * Pow2(b)
  {
    if a > 0 {
      Pow2Add(a - 1, b);
    }
  }

  /** Every size of a class above that of the request is large enough for it. */
  lemma HigherClassFits(size: nat, need: nat)
    requires Log2(size) > Log2(need)
    ensures size > need
  {
    if size <= need {
      Log2Monotone(size, need);
    }
  }

  /** Every size falls into one of the 64 classes. */
  lemma ClassBound(n: nat)
    requires n < WORD
    ensures Log2(n) < FREELISTS
  {
    assert Pow2(16) == 0x1_0000 by {
      assert Pow2(4) == 16;
      Pow2Add(4, 4);
      Pow2Add(8, 8);
    }
    assert Pow2(32) == 0x1_0000_0000 by {
      Pow2Add(16, 16);
    }
    assert Pow2(64) == WORD by {
      Pow2Add(32, 32);
    }
    Log2Bound(n, 64);
  }

  /** `FREELIST_COUNT - countl_zero(size) - 1` in 32 bits: size 0 wraps to an index past every list. */
  function SizeToIndex(size: nat): nat {
    if size == 0 then 0xFFFF_FFFF else Log2(size)
  }

  /** ALIGNUP for a power-of-two quantum, in 64 bits. */
  function AlignUp(size: nat, quantum: nat): nat
    requires quantum > 0
  {
    var sum := (size + quantum - 1) % WORD;
    sum - sum % quantum
  }

  // ----- tilings -----

  datatype Status = FreeTile | UsedTile | Moving

  datatype Tile = Tile(base: nat, size: nat, status: Status) {
    function End(): nat {
      base + size
    }
  }

  /** The tiles cover [base, end) without gap or overlap, and no two neighbours are free. */
  ghost predicate Tiling(tiles: seq<Tile>, base: nat, end: nat) {
    && tiles != [] && tiles[0].base == base && tiles[|tiles| - 1].End() == end
    && (forall i :: 0 <= i < |tiles| ==> tiles[i].size > 0)
    && (forall i {:trigger Joined(tiles, i)} :: 0 <= i < |tiles| - 1 ==> Joined(tiles, i))
  }

  /** Tile i + 1 starts where tile i ends, and they are not both free. */
  ghost predicate Joined(tiles: seq<Tile>, i: nat)
    requires i + 1 < |tiles|
  {
    tiles[i].End() == tiles[i + 1].base && !(tiles[i].status.FreeTile? && tiles[i + 1].status.FreeTile?)
  }

  /** The live allocations: base and size of every used tile. */
  ghost function Live(tiles: seq<Tile>): set<(nat, nat)> {
    set i | 0 <= i < |tiles| && tiles[i].status.UsedTile? :: (tiles[i].base, tiles[i].size)
  }

  lemma {:induction false} TilesOrdered(tiles: seq<Tile>, base: nat, end: nat, i: nat, j: nat)
    requires Tiling(tiles, base, end) && i < j < |tiles|
    ensures tiles[i].End() <= tiles[j].base
  {
    assert Joined(tiles, j - 1);
    if i < j - 1 {
      TilesOrdered(tiles, base, end, i, j - 1);
    }
  }

  lemma TileInside(tiles: seq<Tile>, base: nat, end: nat, i: nat)
    requires Tiling(tiles, base, end) && i < |tiles|
    ensures base <= tiles[i].base && tiles[i].End() <= end
  {
    if i > 0 {
      TilesOrdered(tiles, base, end, 0, i);
    }
    if i < |tiles| - 1 {
      TilesOrdered(tiles, base, end, i, |tiles| - 1);
    }
  }

  // ----- a tiling is determined by its used tiles -----

  ghost predicate Settled(tiles: seq<Tile>) {
    forall i :: 0 <= i < |tiles| ==> !tiles[i].status.Moving?
  }

  lemma UsedTileOf(tiles: seq<Tile>, base: nat, end: nat, b: nat, n: nat) returns (i: nat)
    requires Tiling(tiles, base, end) && (b, n) in Live(tiles)
    ensures i < |tiles| && tiles[i] == Tile(b, n, UsedTile)
  {
    i :| 0 <= i < |tiles| && tiles[i].status.UsedTile? && (tiles[i].base, tiles[i].size) == (b, n);
  }

  /** Dropping the first tile. */
  lemma TilingTail(tiles: seq<Tile>, base: nat, end: nat)
    requires Tiling(tiles, base, end) && |tiles| > 1
    ensures Tiling(tiles[1..], tiles[0].End(), end)
    ensures Live(tiles[1..]) == Live(tiles) - {(tiles[0].base, tiles[0].size)}
  {
    var rest := tiles[1..];
    assert Joined(tiles, 0);
    forall i | 0 <= i < |rest| - 1
      ensures Joined(rest, i)
    {
      assert Joined(tiles, i + 1);
    }
    forall x | x in Live(rest)
      ensures x in Live(tiles) && x != (tiles[0].base, tiles[0].size)
    {
      var i :| 0 <= i < |rest| && rest[i].status.UsedTile? && x == (rest[i].base, rest[i].size);
      assert rest[i] == tiles[i + 1];
      TilesOrdered(tiles, base, end, 0, i + 1);
    }
    forall x | x in Live(tiles) && x != (tiles[0].base, tiles[0].size)
      ensures x in Live(rest)
    {
      var i :| 0 <= i < |tiles| && tiles[i].status.UsedTile? && x == (tiles[i].base, tiles[i].size);
      assert rest[i - 1] == tiles[i];
    }
  }

  /** If the first tiles differ, one of the tilings has a used tile inside the other's first tile. */
  lemma FirstTileEqual(s: seq<Tile>, t: seq<Tile>, base: nat, end: nat)
    requires Tiling(s, base, end) && Tiling(t, base, end) && Settled(s) && Settled(t) && Live(s) == Live(t)
    requires s[0].size <= t[0].size
    ensures s[0] == t[0]
  {
    if s[0].status.UsedTile? {
      assert (s[0].base, s[0].size) in Live(s);
      var i := UsedTileOf(t, base, end, s[0].base, s[0].size);
      if i > 0 {
        TilesOrdered(t, base, end, 0, i);
      }
    } else if t[0].status.UsedTile? {
      assert (t[0].base, t[0].size) in Live(t);
      var i := UsedTileOf(s, base, end, t[0].base, t[0].size);
      if i > 0 {
        TilesOrdered(s, base, end, 0, i);
      }
    } else if s[0].size < t[0].size {
      TileInside(t, base, end, 0);
      assert |s| > 1 && Joined(s, 0) && s[1].status.UsedTile?;
      assert (s[1].base, s[1].size) in Live(s);
      var i := UsedTileOf(t, base, end, s[1].base, s[1].size);
      if i > 0 {
        TilesOrdered(t, base, end, 0, i);
      }
    }
  }

  /** The intervals and their types are a function of the set of live allocations. */
  lemma {:induction false} TilingIsCanonical(s: seq<Tile>, t: seq<Tile>, base: nat, end: nat)
    requires Tiling(s, base, end) && Tiling(t, base, end) && Settled(s) && Settled(t) && Live(s) == Live(t)
    ensures s == t
    decreases |s| + |t|
  {
    if s[0].size <= t[0].size {
      FirstTileEqual(s, t, base, end);
    } else {
      FirstTileEqual(t, s, base, end);
    }
    if |s| > 1 && |t| > 1 {
      TilingTail(s, base, end);
      TilingTail(t, base, end);
      TilingIsCanonical(s[1..], t[1..], s[0].End(), end);
      assert s == [s[0]] + s[1..] && t == [t[0]] + t[1..];
    } else if |s| > 1 {
      assert Joined(s, 0);
      TileInside(s, base, end, 1);
    } else if |t| > 1 {
      assert Joined(t, 0);
      TileInside(t, base, end, 1);
    }
  }

  /** With nothing live, one free tile covers the arena. */
  lemma EmptyArenaIsOneFreeTile(tiles: seq<Tile>, base: nat, end: nat)
    requires Tiling(tiles, base, end) && Settled(tiles) && Live(tiles) == {} && base < end
    ensures tiles == [Tile(base, end - base, FreeTile)]
  {
    var one := [Tile(base, end - base, FreeTile)];
    assert Tiling(one, base, end) && Live(one) == {};
    TilingIsCanonical(tiles, one, base, end);
  }

  // ----- changing one tile -----

  function SetStatus(tiles: seq<Tile>, k: nat, status: Status): seq<Tile>
    requires k < |tiles|
  {
    tiles[k := tiles[k].(status := status)]
  }

  lemma OtherTilesDiffer(tiles: seq<Tile>, base: nat, end: nat, i: nat, k: nat)
    requires Tiling(tiles, base, end) && i < |tiles| && k < |tiles| && i != k
    ensures tiles[i].base != tiles[k].base
  {
    if i < k {
      TilesOrdered(tiles, base, end, i, k);
    } else {
      TilesOrdered(tiles, base, end, k, i);
    }
  }

  lemma LiveAfter(tiles: seq<Tile>, base: nat, end: nat, k: nat, status: Status)
    requires Tiling(tiles, base, end) && k < |tiles|
    ensures Live(SetStatus(tiles, k, status))
            == Live(tiles) - {(tiles[k].base, tiles[k].size)}
                + if status.UsedTile? then {(tiles[k].base, tiles[k].size)} else {}
  {
    var changed, x0 := SetStatus(tiles, k, status), (tiles[k].base, tiles[k].size);
    forall x | x in Live(changed)
      ensures (x in Live(tiles) && x != x0) || (x == x0 && status.UsedTile?)
    {
      var i :| 0 <= i < |changed| && changed[i].status.UsedTile? && x == (changed[i].base, changed[i].size);
      if i != k {
        assert changed[i] == tiles[i];
        OtherTilesDiffer(tiles, base, end, i, k);
      }
    }
    forall x | x in Live(tiles) && x != x0
      ensures x in Live(changed)
    {
      var i :| 0 <= i < |tiles| && tiles[i].status.UsedTile? && x == (tiles[i].base, tiles[i].size);
      assert changed[i] == tiles[i];
    }
    assert changed[k] == Tile(tiles[k].base, tiles[k].size, status);
  }

  lemma StatusSet(tiles: seq<Tile>, base: nat, end: nat, k: nat, status: Status)
    requires Tiling(tiles, base, end) && k < |tiles|
    requires status.FreeTile? ==>
               (k > 0 ==> !tiles[k - 1].status.FreeTile?) && (k + 1 < |tiles| ==> !tiles[k + 1].status.FreeTile?)
    ensures Tiling(SetStatus(tiles, k, status), base, end)
    ensures Live(SetStatus(tiles, k, status))
            == Live(tiles) - {(tiles[k].base, tiles[k].size)}
                + if status.UsedTile? then {(tiles[k].base, tiles[k].size)} else {}
  {
    LiveAfter(tiles, base, end, k, status);
    var changed := SetStatus(tiles, k, status);
    forall i | 0 <= i < |changed| - 1
      ensures Joined(changed, i)
    {
      assert Joined(tiles, i);
    }
  }

  /** Tile k, split after its first n addresses. */
  function Split(tiles: seq<Tile>, k: nat, n: nat): seq<Tile>
    requires k < |tiles| && n <= tiles[k].size
  {
    tiles[..k] + [Tile(tiles[k].base, n, Moving), Tile(tiles[k].base + n, tiles[k].size - n, Moving)] + tiles[k + 1..]
  }

  lemma SplitFacts(tiles: seq<Tile>, base: nat, end: nat, k: nat, n: nat)
    requires Tiling(tiles, base, end) && k < |tiles| && 0 < n < tiles[k].size && tiles[k].status.Moving?
    ensures Tiling(Split(tiles, k, n), base, end) && Live(Split(tiles, k, n)) == Live(tiles)
  {
    var cut := Split(tiles, k, n);
    forall i | 0 <= i < |cut| - 1
      ensures Joined(cut, i)
    {
      assert i < k ==> cut[i] == tiles[i] && Joined(tiles, i);
      assert i > k ==> cut[i + 1] == tiles[i] && Joined(tiles, i - 1);
    }
    forall x | x in Live(tiles)
      ensures x in Live(cut)
    {
      var i :| 0 <= i < |tiles| && tiles[i].status.UsedTile? && x == (tiles[i].base, tiles[i].size);
      assert cut[if i < k then i else i + 1] == tiles[i];
    }
  }

  /** Tiles k and k + 1 as one. */
  function Merge(tiles: seq<Tile>, k: nat): seq<Tile>
    requires k + 1 < |tiles|
  {
    tiles[..k] + [Tile(tiles[k].base, tiles[k].size + tiles[k + 1].size, Moving)] + tiles[k + 2..]
  }

  lemma MergeFacts(tiles: seq<Tile>, base: nat, end: nat, k: nat)
    requires Tiling(tiles, base, end) && k + 1 < |tiles| && tiles[k].status.Moving? && tiles[k + 1].status.Moving?
    ensures Tiling(Merge(tiles, k), base, end) && Live(Merge(tiles, k)) == Live(tiles)
  {
    var one := Merge(tiles, k);
    assert Joined(tiles, k);
    forall i | 0 <= i < |one| - 1
      ensures Joined(one, i)
    {
      assert i < k ==> one[i] == tiles[i] && Joined(tiles, i);
      assert i >= k ==> one[i + 1] == tiles[i + 2] && Joined(tiles, i + 1);
    }
    forall x | x in Live(tiles)
      ensures x in Live(one)
    {
      var i :| 0 <= i < |tiles| && tiles[i].status.UsedTile? && x == (tiles[i].base, tiles[i].size);
      assert one[if i < k then i else i - 1] == tiles[i];
    }
  }

  // ----- descriptors -----

  datatype Kind = Free | Used | Span

  datatype Segment = Segment(base: nat, size: nat, kind: Kind, prev: Ptr, next: Ptr)

  type Store = map<Ptr, Segment>

  function Before(span: Ptr, order: seq<Ptr>, i: nat): Ptr
    requires i <= |order|
  {
    if i == 0 then span else order[i - 1]
  }

  function At(order: seq<Ptr>, i: nat): Ptr {
    if i < |order| then order[i] else NULL
  }

  /** Following `next` from the span gives `order`, and `prev` leads back. */
  ghost predicate Linked(store: Store, span: Ptr, order: seq<Ptr>) {
    && span != NULL && span in store && span !in order && store[span].kind.Span?
    && store[span].prev == NULL && store[span].next == At(order, 0)
    && Distinct(order)
    && (forall i :: 0 <= i < |order| ==> LinkOk(store, span, order, i))
  }

  ghost predicate LinkOk(store: Store, span: Ptr, order: seq<Ptr>, i: nat)
    requires i < |order|
  {
    var p := order[i];
    p != NULL && p in store && store[p].prev == Before(span, order, i) && store[p].next == At(order, i + 1)
  }

  /** Descriptor p describes tile t. */
  ghost predicate Describes(s: Segment, t: Tile, moving: bool) {
    && s.base == t.base && s.size == t.size && !s.kind.Span?
    && t.status == if moving then Moving else if s.kind.Free? then FreeTile else UsedTile
  }

  ghost predicate Matches(store: Store, order: seq<Ptr>, tiles: seq<Tile>, moving: set<Ptr>) {
    && |order| == |tiles|
    && (forall i :: 0 <= i < |order| ==> order[i] in store && Describes(store[order[i]], tiles[i], order[i] in moving))
  }

  ghost predicate IsSeg(store: Store, order: seq<Ptr>, moving: set<Ptr>, p: Ptr, kind: Kind) {
    p in order && p !in moving && p in store && store[p].kind == kind
  }

  /** Each free segment is on the freelist of its size class and on no other. */
  ghost predicate FreeOk(store: Store, order: seq<Ptr>, moving: set<Ptr>, lists: seq<seq<Ptr>>) {
    && |lists| == FREELISTS
    && (forall k :: 0 <= k < FREELISTS ==> Distinct(lists[k]))
    && (forall k, p {:trigger p in lists[k]} :: 0 <= k < FREELISTS ==>
          (p in lists[k] <==> IsSeg(store, order, moving, p, Free) && Log2(store[p].size) == k))
  }

  /** Each used segment is in the bucket of its base and in no other. */
  ghost predicate HashOk(store: Store, order: seq<Ptr>, moving: set<Ptr>, table: seq<seq<Ptr>>, hash: nat -> nat) {
    && |table| == BUCKETS
    && (forall k :: 0 <= k < BUCKETS ==> Distinct(table[k]))
    && (forall k, p {:trigger p in table[k]} :: 0 <= k < BUCKETS ==>
          (p in table[k] <==> IsSeg(store, order, moving, p, Used) && hash(store[p].base) % BUCKETS == k))
  }

  // ----- lists -----

  lemma PushFacts(s: seq<Ptr>, p: Ptr)
    requires Distinct(s) && p !in s
    ensures Distinct([p] + s) && forall q :: q in [p] + s <==> q in s || q == p
  {
  }

  // ----- what each edit keeps -----

  /** A segment leaves its freelist. */
  lemma FreeTaken(store: Store, order: seq<Ptr>, moving: set<Ptr>, lists: seq<seq<Ptr>>, p: Ptr)
    requires FreeOk(store, order, moving, lists) && IsSeg(store, order, moving, p, Free) && store[p].size < WORD
    ensures var k := Log2(store[p].size);
            k < FREELISTS && p in lists[k] && FreeOk(store, order, moving + {p}, lists[k := Remove(lists[k], p)])
  {
    ClassBound(store[p].size);
    RemoveFacts(lists[Log2(store[p].size)], p);
  }

  /** A moving segment is put on the freelist of its size class. */
  lemma FreePut(store: Store, order: seq<Ptr>, moving: set<Ptr>, lists: seq<seq<Ptr>>, p: Ptr)
    requires FreeOk(store, order, moving, lists) && p in order && p in moving && p in store && store[p].size < WORD
    ensures var k, store' := Log2(store[p].size), store[p := store[p].(kind := Free)];
            k < FREELISTS && FreeOk(store', order, moving - {p}, lists[k := [p] + lists[k]])
  {
    var k := Log2(store[p].size);
    ClassBound(store[p].size);
    assert p !in lists[k];
    PushFacts(lists[k], p);
  }

  lemma HashTaken(store: Store, order: seq<Ptr>, moving: set<Ptr>, table: seq<seq<Ptr>>, hash: nat -> nat, p: Ptr)
    requires HashOk(store, order, moving, table, hash) && IsSeg(store, order, moving, p, Used)
    ensures var k := hash(store[p].base) % BUCKETS;
            p in table[k] && HashOk(store, order, moving + {p}, table[k := Remove(table[k], p)], hash)
  {
    RemoveFacts(table[hash(store[p].base) % BUCKETS], p);
  }

  lemma HashPut(store: Store, order: seq<Ptr>, moving: set<Ptr>, table: seq<seq<Ptr>>, hash: nat -> nat, p: Ptr)
    requires HashOk(store, order, moving, table, hash) && p in order && p in moving && p in store
    ensures var k, store' := hash(store[p].base) % BUCKETS, store[p := store[p].(kind := Used)];
            HashOk(store', order, moving - {p}, table[k := [p] + table[k]], hash)
  {
    var k := hash(store[p].base) % BUCKETS;
    assert p !in table[k];
    PushFacts(table[k], p);
  }

  /** The segments that are not moving are the same, with the same intervals. */
  ghost predicate SameSettled(store: Store, order: seq<Ptr>, moving: set<Ptr>, store': Store, order': seq<Ptr>,
                              moving': set<Ptr>) {
    && (forall p, kind :: IsSeg(store', order', moving', p, kind) <==> IsSeg(store, order, moving, p, kind))
    && (forall p, kind :: IsSeg(store, order, moving, p, kind) ==>
          store'[p].base == store[p].base && store'[p].size == store[p].size)
  }

  lemma ListsKept(store: Store, order: seq<Ptr>, moving: set<Ptr>, store': Store, order': seq<Ptr>, moving': set<Ptr>,
                  lists: seq<seq<Ptr>>, table: seq<seq<Ptr>>, hash: nat -> nat)
    requires FreeOk(store, order, moving, lists) && HashOk(store, order, moving, table, hash)
    requires SameSettled(store, order, moving, store', order', moving')
    ensures FreeOk(store', order', moving', lists) && HashOk(store', order', moving', table, hash)
  {
  }

  lemma LinksKept(store: Store, store': Store, span: Ptr, order: seq<Ptr>)
    requires Linked(store, span, order)
    requires forall p :: p in store ==>
               p in store' && store'[p].prev == store[p].prev && store'[p].next == store[p].next
    requires store'[span].kind.Span?
    ensures Linked(store', span, order)
  {
    forall i | 0 <= i < |order|
      ensures LinkOk(store', span, order, i)
    {
      assert LinkOk(store, span, order, i);
    }
  }

  function Insert(order: seq<Ptr>, k: nat, n: Ptr): seq<Ptr>
    requires k <= |order|
  {
    order[..k] + [n] + order[k..]
  }

  /** Descriptor n, linked in before the k-th. */
  function LinkIn(store: Store, span: Ptr, order: seq<Ptr>, k: nat, n: Ptr, s: Segment): Store
    requires k < |order| && order[k] in store && Before(span, order, k) in store
  {
    var p, c := Before(span, order, k), order[k];
    store[n := s.(prev := p, next := c)][p := store[p].(next := n)][c := store[c].(prev := n)]
  }

  lemma LinkedIn(store: Store, span: Ptr, order: seq<Ptr>, k: nat, n: Ptr, s: Segment)
    requires Linked(store, span, order) && k < |order| && n != NULL && n != span && n !in order
    ensures order[k] in store && Before(span, order, k) in store
    ensures Linked(LinkIn(store, span, order, k, n, s), span, Insert(order, k, n))
  {
    assert LinkOk(store, span, order, k);
    assert k > 0 ==> LinkOk(store, span, order, k - 1);
    var order' := Insert(order, k, n);
    var store' := LinkIn(store, span, order, k, n, s);
    forall i | 0 <= i < |order'|
      ensures LinkOk(store', span, order', i)
    {
      if i < k {
        assert order'[i] == order[i] && LinkOk(store, span, order, i);
      } else if i > k {
        assert order'[i] == order[i - 1] && LinkOk(store, span, order, i - 1);
      }
    }
  }

  function Delete(order: seq<Ptr>, k: nat): seq<Ptr>
    requires k < |order|
  {
    order[..k] + order[k + 1..]
  }

  /** The links with the k-th descriptor, k > 0, taken out. */
  function LinkOut(store: Store, order: seq<Ptr>, k: nat): Store
    requires 0 < k < |order| && order[k - 1] in store && order[k] in store
             && (k + 1 < |order| ==> order[k + 1] in store)
  {
    var p, c, n := order[k - 1], order[k], At(order, k + 1);
    var store' := if k + 1 < |order| then store[n := store[n].(prev := p)] else store;
    store'[p := store'[p].(next := store[c].next)]
  }

  lemma LinkedOut(store: Store, span: Ptr, order: seq<Ptr>, k: nat)
    requires Linked(store, span, order) && 0 < k < |order|
    ensures order[k - 1] in store && order[k] in store && (k + 1 < |order| ==> order[k + 1] in store)
    ensures Linked(LinkOut(store, order, k), span, Delete(order, k))
  {
    assert LinkOk(store, span, order, k) && LinkOk(store, span, order, k - 1);
    assert k + 1 < |order| ==> LinkOk(store, span, order, k + 1);
    var order', store' := Delete(order, k), LinkOut(store, order, k);
    forall i | 0 <= i < |order'|
      ensures LinkOk(store', span, order', i)
    {
      if i < k {
        assert order'[i] == order[i] && LinkOk(store, span, order, i);
      } else {
        assert order'[i] == order[i + 1] && LinkOk(store, span, order, i + 1);
      }
    }
  }

  /** The store after the first n addresses of the k-th segment went to a new descriptor. */
  function SplitStore(store: Store, span: Ptr, order: seq<Ptr>, k: nat, n: Ptr, len: nat, kind: Kind): Store
    requires k < |order| && order[k] in store && Before(span, order, k) in store && len <= store[order[k]].size
  {
    var c := store[order[k]];
    var linked := LinkIn(store, span, order, k, n, Segment(c.base, len, kind, NULL, NULL));
    linked[order[k] := linked[order[k]].(base := c.base + len, size := c.size - len)]
  }

  lemma SplitKeeps(store: Store, span: Ptr, order: seq<Ptr>, tiles: seq<Tile>, moving: set<Ptr>, k: nat, n: Ptr,
                   len: nat, kind: Kind)
    requires Linked(store, span, order) && Matches(store, order, tiles, moving) && k < |order| && order[k] in moving
    requires n != NULL && n != span && n !in order && len <= tiles[k].size && !kind.Span?
    ensures order[k] in store && Before(span, order, k) in store && len <= store[order[k]].size
    ensures var store', order', moving' := SplitStore(store, span, order, k, n, len, kind), Insert(order, k, n),
            moving + {n};
            && Linked(store', span, order') && Matches(store', order', Split(tiles, k, len), moving')
            && SameSettled(store, order, moving, store', order', moving')
  {
    var c := store[order[k]];
    var seg := Segment(c.base, len, kind, NULL, NULL);
    LinkedIn(store, span, order, k, n, seg);
    var linked, order', moving', tiles' := LinkIn(store, span, order, k, n, seg), Insert(order, k, n), moving + {n},
        Split(tiles, k, len);
    var store' := SplitStore(store, span, order, k, n, len, kind);
    LinksKept(linked, store', span, order');
    forall i | 0 <= i < |order'|
      ensures order'[i] in store' && Describes(store'[order'[i]], tiles'[i], order'[i] in moving')
    {
      if i < k {
        assert order'[i] == order[i] && tiles'[i] == tiles[i];
      } else if i > k {
        assert order'[i] == order[i - 1] && (i > k + 1 ==> tiles'[i] == tiles[i - 1]);
      }
    }
    InsertMembers(order, k, n);
  }

  lemma InsertMembers(order: seq<Ptr>, k: nat, n: Ptr)
    requires k <= |order|
    ensures forall p :: p in Insert(order, k, n) <==> p in order || p == n
  {
    assert order == order[..k] + order[k..];
  }

  /** The store after the k-th segment took over the one after it. */
  function MergeStore(store: Store, order: seq<Ptr>, k: nat): Store
    requires k + 1 < |order| && order[k] in store && order[k + 1] in store
             && (k + 2 < |order| ==> order[k + 2] in store)
  {
    var unlinked := LinkOut(store, order, k + 1);
    unlinked[order[k] := unlinked[order[k]].(size := unlinked[order[k]].size + store[order[k + 1]].size)]
  }

  lemma MergeMatches(store: Store, order: seq<Ptr>, tiles: seq<Tile>, moving: set<Ptr>, k: nat)
    requires Distinct(order) && Matches(store, order, tiles, moving) && k + 1 < |order|
    requires order[k] in moving && order[k + 1] in moving
    ensures Matches(MergeStore(store, order, k), Delete(order, k + 1), Merge(tiles, k), moving - {order[k + 1]})
  {
    var store', order', moving', tiles' := MergeStore(store, order, k), Delete(order, k + 1), moving - {order[k + 1]},
        Merge(tiles, k);
    forall i | 0 <= i < |order'|
      ensures order'[i] in store' && Describes(store'[order'[i]], tiles'[i], order'[i] in moving')
    {
      if i <= k {
        assert order'[i] == order[i] && (i < k ==> tiles'[i] == tiles[i]);
      } else {
        assert order'[i] == order[i + 1] && tiles'[i] == tiles[i + 1];
      }
    }
  }

  lemma DeleteMembers(order: seq<Ptr>, k: nat)
    requires Distinct(order) && k < |order|
    ensures forall p :: p in Delete(order, k) <==> p in order && p != order[k]
  {
    forall p
      ensures p in Delete(order, k) <==> p in order && p != order[k]
    {
      if p in order && p != order[k] {
        var i :| 0 <= i < |order| && order[i] == p;
        assert Delete(order, k)[if i < k then i else i - 1] == p;
      }
    }
  }

  lemma MergeSettled(store: Store, span: Ptr, order: seq<Ptr>, moving: set<Ptr>, k: nat)
    requires Linked(store, span, order) && k + 1 < |order| && order[k] in store && order[k + 1] in store
    requires k + 2 < |order| ==> order[k + 2] in store
    requires order[k] in moving && order[k + 1] in moving
    ensures SameSettled(store, order, moving, MergeStore(store, order, k), Delete(order, k + 1),
                        moving - {order[k + 1]})
    ensures order[k + 1] !in Delete(order, k + 1)
  {
    DeleteMembers(order, k + 1);
  }

  lemma MergeKeeps(store: Store, span: Ptr, order: seq<Ptr>, tiles: seq<Tile>, moving: set<Ptr>, k: nat)
    requires Linked(store, span, order) && Matches(store, order, tiles, moving) && k + 1 < |order|
    requires order[k] in moving && order[k + 1] in moving
    ensures order[k] in store && order[k + 1] in store && (k + 2 < |order| ==> order[k + 2] in store)
    ensures var store', order', moving' := MergeStore(store, order, k), Delete(order, k + 1), moving - {order[k + 1]};
            && Linked(store', span, order') && Matches(store', order', Merge(tiles, k), moving')
            && SameSettled(store, order, moving, store', order', moving')
            && order[k + 1] !in order'
  {
    LinkedOut(store, span, order, k + 1);
    LinksKept(LinkOut(store, order, k + 1), MergeStore(store, order, k), span, Delete(order, k + 1));
    MergeMatches(store, order, tiles, moving, k);
    MergeSettled(store, span, order, moving, k);
  }

  /** Links, tiles and lists agree. */
  ghost predicate Shape(store: Store, span: Ptr, order: seq<Ptr>, tiles: seq<Tile>, moving: set<Ptr>,
                        lists: seq<seq<Ptr>>, table: seq<seq<Ptr>>, hash: nat -> nat, base: nat, end: nat)
  {
    && Linked(store, span, order)
    && Matches(store, order, tiles, moving)
    && FreeOk(store, order, moving, lists) && HashOk(store, order, moving, table, hash)
    && Tiling(tiles, base, end)
  }

  lemma FreeSettled(store: Store, span: Ptr, order: seq<Ptr>, tiles: seq<Tile>, moving: set<Ptr>,
                    lists: seq<seq<Ptr>>, table: seq<seq<Ptr>>, hash: nat -> nat, base: nat, end: nat, p: Ptr, k: nat)
    requires Shape(store, span, order, tiles, moving, lists, table, hash, base, end) && end < WORD
    requires k < |order| && order[k] == p && p in moving && NoFreeNeighbour(tiles, k)
    ensures p in store && Log2(store[p].size) < FREELISTS
    ensures var index := Log2(store[p].size);
            Shape(store[p := store[p].(kind := Free)], span, order, SetStatus(tiles, k, FreeTile), moving - {p},
                  lists[index := [p] + lists[index]], table, hash, base, end)
    ensures Live(SetStatus(tiles, k, FreeTile)) == Live(tiles)
  {
    TileInside(tiles, base, end, k);
    FreePut(store, order, moving, lists, p);
    KindKeeps(store, span, order, moving, table, hash, p, Free);
    StatusSet(tiles, base, end, k, FreeTile);
    OnlyUsedAreLive(tiles, base, end, k);
    MatchesSet(store, order, tiles, moving, store[p := store[p].(kind := Free)], SetStatus(tiles, k, FreeTile),
               moving - {p}, k);
  }

  lemma UsedUnsettled(store: Store, span: Ptr, order: seq<Ptr>, tiles: seq<Tile>, moving: set<Ptr>,
                      lists: seq<seq<Ptr>>, table: seq<seq<Ptr>>, hash: nat -> nat, base: nat, end: nat, p: Ptr, k: nat)
    requires Shape(store, span, order, tiles, moving, lists, table, hash, base, end)
    requires k < |order| && order[k] == p && IsSeg(store, order, moving, p, Used)
    ensures var index := hash(store[p].base) % BUCKETS;
            Shape(store, span, order, SetStatus(tiles, k, Moving), moving + {p},
                  lists, table[index := Remove(table[index], p)], hash, base, end)
    ensures p != NULL && tiles[k].status.UsedTile?
  {
    assert Describes(store[order[k]], tiles[k], false);
    LinkFacts(store, span, order, k);
    HashTaken(store, order, moving, table, hash, p);
    StatusSet(tiles, base, end, k, Moving);
    FreeUntouched(store, order, moving, lists, p);
    MatchesSet(store, order, tiles, moving, store, SetStatus(tiles, k, Moving), moving + {p}, k);
  }

  /** The allocations that the first n of a list of addresses and requested sizes stand for. */
  ghost function Rounded(allocs: seq<(nat, nat)>, n: nat, quantum: nat): set<(nat, nat)>
    requires n <= |allocs| && quantum > 0
  {
    set i | 0 <= i < n :: (allocs[i].0, AlignUp(allocs[i].1, quantum))
  }

  lemma RoundedStep(allocs: seq<(nat, nat)>, n: nat, quantum: nat)
    requires n < |allocs| && quantum > 0
    ensures var x := (allocs[n].0, AlignUp(allocs[n].1, quantum));
            Rounded(allocs, n + 1, quantum) == Rounded(allocs, n, quantum) + {x}
                && x in Rounded(allocs, |allocs|, quantum)
  {
  }

  /** Live allocations lie in the arena, and two different ones do not overlap. */
  lemma LiveDisjoint(tiles: seq<Tile>, base: nat, end: nat, x: (nat, nat), y: (nat, nat))
    requires Tiling(tiles, base, end) && x in Live(tiles) && y in Live(tiles)
    ensures base <= x.0 && x.0 + x.1 <= end && x.1 > 0
    ensures x != y ==> x.0 + x.1 <= y.0 || y.0 + y.1 <= x.0
  {
    var i := UsedTileOf(tiles, base, end, x.0, x.1);
    var j := UsedTileOf(tiles, base, end, y.0, y.1);
    TileInside(tiles, base, end, i);
    if i < j {
      TilesOrdered(tiles, base, end, i, j);
    } else if j < i {
      TilesOrdered(tiles, base, end, j, i);
    }
  }

  /** Only one live allocation starts at an address. */
  lemma OneSize(tiles: seq<Tile>, live: set<(nat, nat)>, base: nat, end: nat, a: nat, n: nat)
    requires Tiling(tiles, base, end) && (a, n) in Live(tiles) && live <= Live(tiles)
    ensures forall n' :: (a, n') in live ==> n' == n
  {
    forall n' | (a, n') in live
      ensures n' == n
    {
      LiveDisjoint(tiles, base, end, (a, n'), (a, n));
    }
  }

  /** An interval taken from a free tile overlaps no live allocation. */
  lemma FreeTileNotLive(tiles: seq<Tile>, base: nat, end: nat, a: nat, n: nat, min: nat)
    requires Tiling(tiles, base, end) && InFreeTile(tiles, a, n, min) && n > 0
    ensures forall x :: x in Live(tiles) ==> x.0 + x.1 <= a || a + n <= x.0
  {
    var k :| 0 <= k < |tiles| && tiles[k].status.FreeTile? && a == Max(tiles[k].base, min) && a + n <= tiles[k].End();
    forall x | x in Live(tiles)
      ensures x.0 + x.1 <= a || a + n <= x.0
    {
      var i := UsedTileOf(tiles, base, end, x.0, x.1);
      if i < k {
        TilesOrdered(tiles, base, end, i, k);
      } else {
        TilesOrdered(tiles, base, end, k, i);
      }
    }
  }

  /** An allocation taken from a free tile is the only one at its address. */
  lemma TakenIsNew(before: seq<Tile>, tiles: seq<Tile>, base: nat, end: nat, a: nat, n: nat, min: nat)
    requires Tiling(before, base, end) && Tiling(tiles, base, end) && InFreeTile(before, a, n, min) && n > 0
    requires Live(tiles) == Live(before) + {(a, n)}
    ensures Live(tiles) - {(a, n)} == Live(before) && forall n' :: (a, n') in Live(tiles) ==> n' == n
  {
    FreeTileNotLive(before, base, end, a, n, min);
    OneSize(tiles, Live(tiles), base, end, a, n);
  }

  /** If the arena and all live allocations are aligned to q, so is every tile. */
  lemma TilesAligned(tiles: seq<Tile>, base: nat, end: nat, q: nat, k: nat)
    requires Tiling(tiles, base, end) && Settled(tiles) && q > 0 && base % q == 0 && end % q == 0 && k < |tiles|
    requires forall x :: x in Live(tiles) ==> x.0 % q == 0 && (x.0 + x.1) % q == 0
    ensures tiles[k].base % q == 0 && tiles[k].End() % q == 0
  {
    assert tiles[k].status.UsedTile? ==> (tiles[k].base, tiles[k].size) in Live(tiles);
    if k > 0 {
      assert Joined(tiles, k - 1);
      assert tiles[k - 1].status.UsedTile? ==> (tiles[k - 1].base, tiles[k - 1].size) in Live(tiles);
    }
    if k + 1 < |tiles| {
      assert Joined(tiles, k);
      assert tiles[k + 1].status.UsedTile? ==> (tiles[k + 1].base, tiles[k + 1].size) in Live(tiles);
    }
  }

  /** [a, a + n) is the lowest part of a free tile at or above min. */
  ghost predicate InFreeTile(tiles: seq<Tile>, a: nat, n: nat, min: nat) {
    exists k :: 0 <= k < |tiles| && tiles[k].status.FreeTile? && a == Max(tiles[k].base, min) && a + n <= tiles[k].End()
  }

  /** The upper limit as the source computes it, in 64 bits. */
  function Limit(need: nat, min: nat, max: nat): nat {
    if max == 0 then WORD - 1 else if max == min then (min + need) % WORD else max
  }

  function Max(a: nat, b: nat): nat {
    if a < b then b else a
  }

  function Min(a: nat, b: nat): nat {
    if a < b then a else b
  }

  lemma FreeUntouched(store: Store, order: seq<Ptr>, moving: set<Ptr>, lists: seq<seq<Ptr>>, p: Ptr)
    requires FreeOk(store, order, moving, lists) && p in store && !store[p].kind.Free?
    ensures FreeOk(store, order, moving + {p}, lists)
  {
  }

  lemma LinkFacts(store: Store, span: Ptr, order: seq<Ptr>, k: nat)
    requires Linked(store, span, order) && k < |order|
    ensures order[k] != NULL && order[k] != span && order[k] in store
    ensures store[order[k]].prev == Before(span, order, k) && store[order[k]].next == At(order, k + 1)
    ensures At(order, k + 1) != NULL <==> k + 1 < |order|
  {
    assert LinkOk(store, span, order, k);
    assert k + 1 < |order| ==> LinkOk(store, span, order, k + 1);
  }

  /** Settling a moving segment as free does not touch the hash table. */
  lemma KindKeeps(store: Store, span: Ptr, order: seq<Ptr>, moving: set<Ptr>, table: seq<seq<Ptr>>, hash: nat -> nat,
                  p: Ptr, kind: Kind)
    requires HashOk(store, order, moving, table, hash) && p in store && p in moving && kind.Free?
             && Linked(store, span, order) && p != span
    ensures HashOk(store[p := store[p].(kind := kind)], order, moving - {p}, table, hash)
    ensures Linked(store[p := store[p].(kind := kind)], span, order)
  {
    LinksKept(store, store[p := store[p].(kind := kind)], span, order);
  }

  /** Settling a moving segment as used does not touch the freelists. */
  lemma KindKeepsFree(store: Store, span: Ptr, order: seq<Ptr>, moving: set<Ptr>, lists: seq<seq<Ptr>>, p: Ptr)
    requires FreeOk(store, order, moving, lists) && p in store && p in moving && Linked(store, span, order) && p != span
    ensures FreeOk(store[p := store[p].(kind := Used)], order, moving - {p}, lists)
    ensures Linked(store[p := store[p].(kind := Used)], span, order)
  {
    LinksKept(store, store[p := store[p].(kind := Used)], span, order);
  }

  /** Only the k-th tile and its descriptor changed. */
  lemma MatchesSet(store: Store, order: seq<Ptr>, tiles: seq<Tile>, moving: set<Ptr>, store': Store,
                   tiles': seq<Tile>, moving': set<Ptr>, k: nat)
    requires Matches(store, order, tiles, moving) && Distinct(order) && k < |order|
    requires |tiles'| == |tiles| && order[k] in store' && store' == store[order[k] := store'[order[k]]]
    requires moving' - {order[k]} == moving - {order[k]}
    requires forall i :: 0 <= i < |tiles| && i != k ==> tiles'[i] == tiles[i]
    requires Describes(store'[order[k]], tiles'[k], order[k] in moving')
    ensures Matches(store', order, tiles', moving')
  {
    forall i | 0 <= i < |order|
      ensures order[i] in store' && Describes(store'[order[i]], tiles'[i], order[i] in moving')
    {
      if i != k {
        assert order[i] != order[k];
        assert order[i] in moving' <==> order[i] in moving' - {order[k]};
        assert order[i] in moving <==> order[i] in moving - {order[k]};
      }
    }
  }

  /** A segment neither prev nor next of which is free. */
  ghost predicate NoFreeNeighbour(tiles: seq<Tile>, k: nat) {
    && (0 < k <= |tiles| ==> !tiles[k - 1].status.FreeTile?)
    && (k + 1 < |tiles| ==> !tiles[k + 1].status.FreeTile?)
  }

  lemma FreeIsAlone(tiles: seq<Tile>, base: nat, end: nat, k: nat)
    requires Tiling(tiles, base, end) && k < |tiles| && tiles[k].status.FreeTile?
    ensures NoFreeNeighbour(tiles, k)
  {
    assert k > 0 ==> Joined(tiles, k - 1);
    assert k + 1 < |tiles| ==> Joined(tiles, k);
  }

  lemma OnlyUsedAreLive(tiles: seq<Tile>, base: nat, end: nat, k: nat)
    requires Tiling(tiles, base, end) && k < |tiles| && !tiles[k].status.UsedTile?
    ensures (tiles[k].base, tiles[k].size) !in Live(tiles)
  {
    if (tiles[k].base, tiles[k].size) in Live(tiles) {
      var i := UsedTileOf(tiles, base, end, tiles[k].base, tiles[k].size);
      OtherTilesDiffer(tiles, base, end, i, k);
    }
  }

  // ----- what an allocation may choose from -----

  datatype Offer = Offer(store: Store, lists: seq<seq<Ptr>>, supply: nat) {
    predicate LargeEnough(p: Ptr, need: nat) {
      p in store && store[p].size >= need
    }

    /** The segments that are tried: the head of a freelist if it is large enough, else all that are. */
    predicate Tries(i: nat, j: nat, need: nat) {
      && i < |lists| && j < |lists[i]|
      && LargeEnough(lists[i][j], need) && (j == 0 || !LargeEnough(lists[i][0], need))
    }

    /** Whether `need` addresses fit in segment p between min and max. */
    predicate Fits(p: Ptr, need: nat, min: nat, max: nat) {
      p in store &&
      var start, end := Max(store[p].base, min), Min(store[p].base + store[p].size, max);
      start <= end && end - start >= need
    }

    /** Segment p can be allocated from: `need` addresses fit, and there are descriptors for the parts
        before and behind them. */
    predicate Takes(p: Ptr, need: nat, min: nat, max: nat) {
      Fits(p, need, min, max) && (store[p].size == need || supply >= if store[p].base < min then 2 else 1)
    }

    predicate InVain(i: nat, j: nat, need: nat, min: nat, limit: nat) {
      Tries(i, j, need) ==> !Takes(lists[i][j], need, min, limit)
    }

    /** No segment tried in the freelists [from, to) can be allocated from. */
    ghost predicate NoneTakes(from: nat, to: nat, need: nat, min: nat, limit: nat) {
      forall i: nat, j: nat {:trigger InVain(i, j, need, min, limit)} :: from <= i < to ==>
            InVain(i, j, need, min, limit)
    }
  }

  // ----- the allocator -----

  class Arena {
    const hash: nat -> nat
    const base: nat
    const size: nat
    const quantum: nat
    var span: Ptr
    var store: Store
    var freelists: seq<seq<Ptr>>
    var hashTab: seq<seq<Ptr>>
    var freeSegs: seq<Ptr>
    // descriptor memory: the next address, and how many pages pmalloc would still hand out
    var nextPtr: Ptr
    var pages: nat
    ghost var order: seq<Ptr>
    ghost var tiles: seq<Tile>
    ghost var moving: set<Ptr>

    /** A descriptor that is neither linked nor on the descriptor freelist. */
    ghost predicate Unused(p: Ptr)
      reads this
    {
      NULL != p < nextPtr && p != span && p !in order && p !in freeSegs
    }

    ghost predicate DescriptorsOk()
      reads this
    {
      && span < nextPtr && Distinct(freeSegs)
      && (forall i :: 0 <= i < |order| ==> order[i] < nextPtr)
      && (forall i :: 0 <= i < |freeSegs| ==>
            NULL != freeSegs[i] < nextPtr && freeSegs[i] != span && freeSegs[i] !in order)
    }

    ghost predicate Inv()
      reads this
    {
      && 0 < base && base + size < WORD && quantum > 0
      && Shape(store, span, order, tiles, moving, freelists, hashTab, hash, base, base + size)
      && DescriptorsOk()
    }

    ghost predicate Valid()
      reads this
    {
      Inv() && moving == {}
    }

    /** Descriptors that can still be obtained. */
    ghost function Supply(): nat
      reads this
    {
      |freeSegs| + (SEGMENTS_PER_PAGE - 1) * pages
    }

    ghost function Offered(): Offer
      reads this
    {
      Offer(store, freelists, Supply())
    }

    method SegAlloc() returns (p: Ptr)
      requires Inv()
      modifies this`freeSegs, this`nextPtr, this`pages
      ensures Inv()
      ensures p == NULL <==> old(Supply()) == 0
      ensures p != NULL ==> Unused(p)
      ensures forall q :: old(Unused(q)) ==> q != p && Unused(q)
      ensures Supply() == if p == NULL then old(Supply()) else old(Supply()) - 1
    {
      if freeSegs == [] {
        if pages == 0 {
          return NULL;
        }
        pages := pages - 1;
        // the first descriptor of the page links the pages; the others are chained one by one
        var page := nextPtr;
        nextPtr := nextPtr + SEGMENTS_PER_PAGE;
        for i := 1 to SEGMENTS_PER_PAGE
          invariant pages == old(pages) - 1 && nextPtr == page + SEGMENTS_PER_PAGE
          invariant |freeSegs| == i - 1 && Distinct(freeSegs)
          invariant forall j :: 0 <= j < |freeSegs| ==> page < freeSegs[j] < page + i
        {
          freeSegs := [page + i] + freeSegs;
        }
      }
      p := freeSegs[0];
      freeSegs := freeSegs[1..];
    }

    method SegFree(p: Ptr)
      requires Inv() && Unused(p)
      modifies this`freeSegs
      ensures Inv() && Supply() == old(Supply()) + 1
    {
      freeSegs := [p] + freeSegs;
    }

    lemma SizeBound(k: nat)
      requires Inv() && k < |order|
      ensures order[k] in store && 0 < store[order[k]].size < WORD
    {
      TileInside(tiles, base, base + size, k);
    }

    /** Takes the k-th segment, which is free, off its freelist. */
    method FreelistRemove(p: Ptr, ghost k: nat)
      requires Inv() && k < |order| && order[k] == p && tiles[k].status.FreeTile?
      modifies this`freelists, this`tiles, this`moving
      ensures Inv() && tiles == SetStatus(old(tiles), k, Moving) && moving == old(moving) + {p}
      ensures Live(tiles) == Live(old(tiles))
    {
      SizeBound(k);
      FreeTaken(store, order, moving, freelists, p);
      var index := Log2(store[p].size);
      freelists := freelists[index := Remove(freelists[index], p)];
      StatusSet(tiles, base, base + size, k, Moving);
      OnlyUsedAreLive(tiles, base, base + size, k);
      tiles := SetStatus(tiles, k, Moving);
      moving := moving + {p};
    }

    /** Puts the k-th segment, which is moving, on its freelist. */
    method FreelistInsertNoMerge(p: Ptr, ghost k: nat)
      requires Inv() && k < |order| && order[k] == p && p in moving && NoFreeNeighbour(tiles, k)
      modifies this`store, this`freelists, this`tiles, this`moving
      ensures Inv() && tiles == SetStatus(old(tiles), k, FreeTile) && moving == old(moving) - {p}
      ensures Live(tiles) == Live(old(tiles))
    {
      FreeSettled(store, span, order, tiles, moving, freelists, hashTab, hash, base, base + size, p, k);
      var index := Log2(store[p].size);
      store, freelists := store[p := store[p].(kind := Free)], freelists[index := [p] + freelists[index]];
      tiles, moving := SetStatus(tiles, k, FreeTile), moving - {p};
    }

    /** Puts the k-th segment, which is moving, into the hash table. */
    method HashtabInsert(p: Ptr, ghost k: nat)
      requires Inv() && k < |order| && order[k] == p && p in moving
      modifies this`store, this`hashTab, this`tiles, this`moving
      ensures Inv() && tiles == SetStatus(old(tiles), k, UsedTile) && moving == old(moving) - {p}
      ensures Live(tiles) == Live(old(tiles)) + {(tiles[k].base, tiles[k].size)}
    {
      HashPut(store, order, moving, hashTab, hash, p);
      KindKeepsFree(store, span, order, moving, freelists, p);
      var index := hash(store[p].base) % BUCKETS;
      StatusSet(tiles, base, base + size, k, UsedTile);
      var mem := store[p := store[p].(kind := Used)];
      MatchesSet(store, order, tiles, moving, mem, SetStatus(tiles, k, UsedTile), moving - {p}, k);
      store, hashTab := mem, hashTab[index := [p] + hashTab[index]];
      tiles, moving := SetStatus(tiles, k, UsedTile), moving - {p};
    }

    /** Gives the first `len` addresses of the k-th segment, which is moving, to descriptor n. */
    method SplitSegment(c: Ptr, n: Ptr, len: nat, kind: Kind, ghost k: nat)
      requires Inv() && k < |order| && order[k] == c && c in moving && Unused(n) && 0 < len < tiles[k].size
               && !kind.Span?
      modifies this`store, this`order, this`tiles, this`moving
      ensures Inv() && order == Insert(old(order), k, n) && tiles == Split(old(tiles), k, len)
              && moving == old(moving) + {n}
      ensures Live(tiles) == Live(old(tiles))
    {
      SplitKeeps(store, span, order, tiles, moving, k, n, len, kind);
      SplitFacts(tiles, base, base + size, k, len);
      InsertMembers(order, k, n);
      var s := store[c];
      LinkFacts(store, span, order, k);
      var mem := store[n := Segment(s.base, len, kind, s.prev, c)];
      mem := mem[s.prev := mem[s.prev].(next := n)];
      mem := mem[c := Segment(s.base + len, s.size - len, s.kind, n, s.next)];
      assert mem == SplitStore(store, span, order, k, n, len, kind);
      ListsKept(store, order, moving, mem, Insert(order, k, n), moving + {n}, freelists, hashTab, hash);
      store, order, tiles, moving := mem, Insert(order, k, n), Split(tiles, k, len), moving + {n};
    }

    /** Joins the segments k and k + 1, both moving; the second descriptor is left unused. */
    method MergeSegments(p: Ptr, c: Ptr, ghost k: nat)
      requires Inv() && k + 1 < |order| && order[k] == p && order[k + 1] == c && p in moving && c in moving
      modifies this`store, this`order, this`tiles, this`moving
      ensures Inv() && order == Delete(old(order), k + 1) && tiles == Merge(old(tiles), k)
              && moving == old(moving) - {c}
      ensures Live(tiles) == Live(old(tiles)) && Unused(c)
    {
      MergeKeeps(store, span, order, tiles, moving, k);
      MergeFacts(tiles, base, base + size, k);
      DeleteMembers(order, k + 1);
      LinkFacts(store, span, order, k + 1);
      var next := store[c].next;
      var mem := store;
      if next != NULL {
        mem := mem[next := mem[next].(prev := p)];
      }
      mem := mem[p := mem[p].(next := next, size := mem[p].size + mem[c].size)];
      assert mem == MergeStore(store, order, k);
      ListsKept(store, order, moving, mem, Delete(order, k + 1), moving - {c}, freelists, hashTab, hash);
      store, order, tiles, moving := mem, Delete(order, k + 1), Merge(tiles, k), moving - {c};
    }

    /** The segment before the k-th, which is free, takes it over. */
    method MergeWithPrev(prev: Ptr, seg: Ptr, ghost k: nat)
      requires Inv() && 0 < k < |order| && order[k] == seg && order[k - 1] == prev && moving == {seg}
               && store[prev].kind.Free?
      modifies this`store, this`freelists, this`freeSegs, this`order, this`tiles, this`moving
      ensures Inv() && |order| == |old(order)| - 1 && order[k - 1] == prev && moving == {prev}
      ensures Live(tiles) == Live(old(tiles)) && Supply() == old(Supply()) + 1
    {
      assert prev != seg && Describes(store[order[k - 1]], tiles[k - 1], false);
      FreelistRemove(prev, k - 1);
      assert moving - {seg} == {prev};
      MergeSegments(prev, seg, k - 1);
      assert order[k - 1] == prev;
      SegFree(seg);
    }

    /** The k-th segment takes over the one after it, which is free. */
    method MergeWithNext(seg: Ptr, next: Ptr, ghost k: nat)
      requires Inv() && k + 1 < |order| && order[k] == seg && order[k + 1] == next && moving == {seg}
               && store[next].kind.Free?
      modifies this`store, this`freelists, this`freeSegs, this`order, this`tiles, this`moving
      ensures Inv() && |order| == |old(order)| - 1 && order[k] == seg && moving == {seg}
      ensures Live(tiles) == Live(old(tiles)) && Supply() == old(Supply()) + 1
    {
      assert next != seg && Describes(store[order[k + 1]], tiles[k + 1], false);
      FreelistRemove(next, k + 1);
      assert moving - {next} == {seg};
      MergeSegments(seg, next, k);
      assert order[k] == seg;
      SegFree(next);
    }

    lemma NeighbourFacts(k: nat)
      requires Inv() && k < |order|
      ensures order[k] != NULL && order[k] in store && order[k] != span
      ensures var p := store[order[k]].prev;
              && p != NULL && p in store && (p == span <==> k == 0) && (k > 0 ==> p == order[k - 1])
              && (store[p].kind.Free? ==> k > 0) && (k > 0 ==> store[p].base + store[p].size == store[order[k]].base)
      ensures var n := store[order[k]].next;
              && (n == NULL <==> k + 1 == |order|) && (k + 1 < |order| ==> n == order[k + 1] && n in store)
              && (k + 1 < |order| ==> store[order[k]].base + store[order[k]].size == store[n].base)
    {
      LinkFacts(store, span, order, k);
      if k > 0 {
        LinkFacts(store, span, order, k - 1);
        assert Joined(tiles, k - 1);
      }
      assert k + 1 < |order| ==> Joined(tiles, k);
    }

    /** Frees the k-th segment, the only one moving: merges it with its free neighbours and puts the
        result on a freelist. */
    method FreelistInsert(p: Ptr, ghost k: nat)
      requires Inv() && k < |order| && order[k] == p && moving == {p}
      modifies this`store, this`freelists, this`freeSegs, this`order, this`tiles, this`moving
      ensures Valid() && Live(tiles) == Live(old(tiles)) && Supply() >= old(Supply())
    {
      var seg := p;
      ghost var at: nat := k;
      while true
        invariant Inv() && at < |order| && order[at] == seg && moving == {seg}
        invariant Live(tiles) == Live(old(tiles)) && Supply() >= old(Supply())
        decreases |order|
      {
        NeighbourFacts(at);
        var prev, next := store[seg].prev, store[seg].next;
        if prev != NULL && store[prev].kind.Free? && store[prev].base + store[prev].size == store[seg].base {
          MergeWithPrev(prev, seg, at);
          seg := prev;
          at := at - 1;
        } else if next != NULL && store[next].kind.Free? && store[seg].base + store[seg].size == store[next].base {
          MergeWithNext(seg, next, at);
        } else {
          FreelistInsertNoMerge(seg, at);
          break;
        }
      }
    }

    /** Takes the used segment at address `key` out of its bucket; NULL if there is none. */
    method HashtabRemove(key: nat) returns (p: Ptr, ghost k: nat)
      requires Valid()
      modifies this`hashTab, this`tiles, this`moving
      ensures Inv()
      ensures p == NULL ==> Valid() && tiles == old(tiles) && forall n :: (key, n) !in Live(tiles)
      ensures p != NULL ==> k < |order| && order[k] == p && moving == {p} && old(tiles)[k].base == key == store[p].base
      ensures p != NULL ==> old(tiles)[k].status.UsedTile? && tiles == SetStatus(old(tiles), k, Moving)
    {
      var index := hash(key) % BUCKETS;
      var bucket := hashTab[index];
      k := 0;
      for j := 0 to |bucket|
        invariant forall i :: 0 <= i < j ==> bucket[i] in store && store[bucket[i]].base != key
      {
        p := bucket[j];
        assert p in hashTab[index];
        if store[p].base == key {
          k :| 0 <= k < |order| && order[k] == p;
          UsedUnsettled(store, span, order, tiles, moving, freelists, hashTab, hash, base, base + size, p, k);
          hashTab := hashTab[index := Remove(bucket, p)];
          tiles, moving := SetStatus(tiles, k, Moving), moving + {p};
          return;
        }
      }
      p := NULL;
      NotInBucket(key, index);
    }

    lemma NotInBucket(key: nat, index: nat)
      requires Valid() && index == hash(key) % BUCKETS
      requires forall i :: 0 <= i < |hashTab[index]| ==>
                 hashTab[index][i] in store && store[hashTab[index][i]].base != key
      ensures forall n :: (key, n) !in Live(tiles)
    {
      forall i | 0 <= i < |tiles| && tiles[i].status.UsedTile?
        ensures tiles[i].base != key
      {
        assert Describes(store[order[i]], tiles[i], false);
        assert IsSeg(store, order, moving, order[i], Used);
        assert order[i] in hashTab[hash(store[order[i]].base) % BUCKETS];
      }
    }

    /** Frees the allocation at `ptr`; an address that is not allocated is ignored.  The source asserts
        that the size matches. */
    method Xfree(ptr: nat, sz: nat)
      requires Valid() && forall n :: (ptr, n) in Live(tiles) ==> n == AlignUp(sz, quantum)
      modifies this`store, this`freelists, this`hashTab, this`freeSegs, this`order, this`tiles, this`moving
      ensures Valid() && Live(tiles) == Live(old(tiles)) - {(ptr, AlignUp(sz, quantum))}
    {
      var seg, k := HashtabRemove(ptr);
      if seg == NULL {
        return;
      }
      StatusSet(old(tiles), base, base + size, k, Moving);
      assert old(tiles)[k] == Tile(ptr, old(tiles)[k].size, UsedTile);
      assert (ptr, old(tiles)[k].size) in Live(old(tiles));
      FreelistInsert(seg, k);
    }

    /** One free segment covers the arena.  The source takes two descriptors without a check. */
    constructor (base: nat, size: nat, quantum: nat, hash: nat -> nat, pages: nat)
      requires 0 < base && 0 < size && base + size < WORD && quantum > 0 && pages > 0
      ensures Valid() && this.base == base && this.size == size && this.quantum == quantum && this.hash == hash
      ensures tiles == [Tile(base, size, FreeTile)] && Live(tiles) == {}
    {
      this.base, this.size, this.quantum, this.hash := base, size, quantum, hash;
      // the two highest descriptors of the first page
      var first, second := 72, 71;
      span := first;
      nextPtr := SEGMENTS_PER_PAGE;
      freeSegs := seq(70, i requires 0 <= i < 70 => 70 - i);
      this.pages := pages - 1;
      store := map[first := Segment(base, size, Span, NULL, second), second := Segment(base, size, Free, first, NULL)];
      freelists := seq(FREELISTS, i => if i == Log2(size) then [second] else []);
      hashTab := seq(BUCKETS, _ => []);
      order, tiles, moving := [second], [Tile(base, size, FreeTile)], {};
      new;
      ClassBound(size);
    }

    /** Everything but the supply of descriptors. */
    twostate predicate OnlyDescriptorsChanged()
      reads this
    {
      && store == old(store) && order == old(order) && tiles == old(tiles) && moving == old(moving)
      && freelists == old(freelists) && hashTab == old(hashTab)
    }

    /** The tile of a segment on a freelist. */
    lemma ListedTile(i: nat, j: nat) returns (k: nat)
      requires Valid() && i < FREELISTS && j < |freelists[i]|
      ensures k < |order| && k < |tiles| && order[k] == freelists[i][j] && order[k] in store
      ensures tiles[k] == Tile(store[order[k]].base, store[order[k]].size, FreeTile)
    {
      assert freelists[i][j] in freelists[i];
      k :| 0 <= k < |order| && order[k] == freelists[i][j];
      assert Describes(store[order[k]], tiles[k], false);
    }

    /** Tries to allocate from the j-th segment of freelist i; 0 if it does not fit, or if it must be
        split and a descriptor is missing. */
    method SegFit(i: nat, j: nat, need: nat, min: nat, max: nat) returns (addr: nat)
      requires Valid() && i < FREELISTS && j < |freelists[i]| && 0 < need
      requires freelists[i][j] in store && store[freelists[i][j]].size >= need
      modifies this`store, this`freelists, this`hashTab, this`freeSegs, this`nextPtr, this`pages, this`order,
               this`tiles, this`moving
      ensures Valid()
      ensures addr == 0 ==> OnlyDescriptorsChanged() && Supply() == old(Supply())
      ensures addr == 0 <==> !old(Offered().Takes(freelists[i][j], need, min, max))
      ensures addr != 0 ==> Allocated(addr, need, min, max)
    {
      var seg := freelists[i][j];
      ghost var k := ListedTile(i, j);
      var start, end := Max(store[seg].base, min), Min(store[seg].base + store[seg].size, max);
      if start > end || end - start < need {
        return 0;
      }
      assert InFreeTile(tiles, start, need, min);
      addr := TakeFrom(seg, start, need, k);
    }

    /** Allocates [start, start + need), which lies in the k-th, free, segment; 0 if it must be split
        and a descriptor is missing. */
    method TakeFrom(seg: Ptr, start: nat, need: nat, ghost k: nat) returns (addr: nat)
      requires Valid() && k < |order| && order[k] == seg && tiles[k].status.FreeTile? && 0 < need
      requires tiles[k].base <= start && start + need <= tiles[k].End()
      modifies this`store, this`freelists, this`hashTab, this`freeSegs, this`nextPtr, this`pages, this`order,
               this`tiles, this`moving
      ensures Valid()
      ensures addr == 0 ==> OnlyDescriptorsChanged() && Supply() == old(Supply())
      ensures addr == 0 <==> old(tiles[k].size != need && Supply() < if start != tiles[k].base then 2 else 1)
      ensures addr != 0 ==> addr == start && Live(tiles) == Live(old(tiles)) + {(start, need)}
    {
      TileInside(tiles, base, base + size, k);
      if store[seg].size == need {
        FreelistRemove(seg, k);
        assert Live(tiles) == Live(old(tiles));
        HashtabInsert(seg, k);
        assert tiles[k].base == start && tiles[k].size == need;
        return start;
      }
      var ok, allocSeg, newSeg := GetDescriptors(start != store[seg].base);
      if !ok {
        return 0;
      }
      Carve(seg, allocSeg, newSeg, start, need, k);
      return start;
    }

    /** One descriptor, or two; none if not all can be had. */
    method GetDescriptors(two: bool) returns (ok: bool, allocSeg: Ptr, newSeg: Ptr)
      requires Inv()
      modifies this`freeSegs, this`nextPtr, this`pages
      ensures Inv() && (!ok ==> Supply() == old(Supply())) && (ok <==> old(Supply()) >= if two then 2 else 1)
      ensures ok ==> Unused(allocSeg) && (two ==> Unused(newSeg) && newSeg != allocSeg)
    {
      newSeg := NULL;
      allocSeg := SegAlloc();
      if allocSeg == NULL {
        return false, NULL, NULL;
      }
      if two {
        newSeg := SegAlloc();
        if newSeg == NULL {
          SegFree(allocSeg);
          return false, NULL, NULL;
        }
      }
      ok := true;
    }

    /** Allocates [start, start + need) from the k-th segment, which is free and larger.  A free part
        before it gets descriptor newSeg; a part after it leaves the allocation to allocSeg. */
    method Carve(seg: Ptr, allocSeg: Ptr, newSeg: Ptr, start: nat, need: nat, ghost k: nat)
      requires Valid() && k < |order| && order[k] == seg && tiles[k].status.FreeTile? && 0 < need < tiles[k].size
      requires tiles[k].base <= start && start + need <= tiles[k].End()
      requires Unused(allocSeg) && (start != tiles[k].base ==> Unused(newSeg) && newSeg != allocSeg)
      modifies this`store, this`freelists, this`hashTab, this`freeSegs, this`order, this`tiles, this`moving
      ensures Valid() && Live(tiles) == Live(old(tiles)) + {(start, need)}
    {
      ghost var at: nat := k;
      var front := start - store[seg].base;
      FreeIsAlone(tiles, base, base + size, k);
      FreelistRemove(seg, k);
      if front != 0 {
        CarveFront(seg, newSeg, front, k);
        at := k + 1;
      }
      assert tiles[at].base == start && Live(tiles) == Live(old(tiles));
      CarveRest(seg, allocSeg, need, at);
    }

    /** Gives the addresses before the allocation back as a free segment. */
    method CarveFront(seg: Ptr, newSeg: Ptr, front: nat, ghost k: nat)
      requires Inv() && k < |order| && order[k] == seg && moving == {seg} && 0 < front < tiles[k].size && Unused(newSeg)
      requires NoFreeNeighbour(tiles, k)
      modifies this`store, this`freelists, this`order, this`tiles, this`moving
      ensures Inv() && k + 1 < |order| && order[k + 1] == seg && moving == {seg}
      ensures tiles[k + 1] == Tile(old(tiles)[k].base + front, old(tiles)[k].size - front, Moving)
      ensures Live(tiles) == Live(old(tiles))
      ensures forall q :: old(Unused(q)) && q != newSeg ==> Unused(q)
    {
      InsertMembers(order, k, newSeg);
      SplitSegment(seg, newSeg, front, Free, k);
      assert order[k] == newSeg && order[k + 1] == seg;
      assert forall i :: 0 <= i < k ==> tiles[i] == old(tiles)[i];
      assert moving - {newSeg} == {seg};
      FreelistInsertNoMerge(newSeg, k);
    }

    /** Allocates the first `need` addresses of the k-th segment, which is moving. */
    method CarveRest(seg: Ptr, allocSeg: Ptr, need: nat, ghost k: nat)
      requires Inv() && k < |order| && order[k] == seg && moving == {seg} && 0 < need <= tiles[k].size
               && Unused(allocSeg)
      modifies this`store, this`freelists, this`hashTab, this`freeSegs, this`order, this`tiles, this`moving
      ensures Valid() && Live(tiles) == Live(old(tiles)) + {(old(tiles)[k].base, need)}
    {
      if store[seg].size == need {
        SegFree(allocSeg);
        HashtabInsert(seg, k);
        return;
      }
      SplitSegment(seg, allocSeg, need, Used, k);
      assert order[k] == allocSeg && order[k + 1] == seg && tiles[k] == Tile(old(tiles)[k].base, need, Moving);
      assert moving - {allocSeg} == {seg};
      HashtabInsert(allocSeg, k);
      FreelistInsert(seg, k + 1);
    }

    /** In the classes above that of the request only the first segment is ever tried. */
    lemma OnlyHeadTried(i: nat, j: nat, need: nat)
      requires Valid() && need > 0 && SizeToIndex(need) < i && Offered().Tries(i, j, need)
      ensures j == 0
    {
      var p := freelists[i][0];
      assert p in freelists[i];
      assert IsSeg(store, order, moving, p, Free);
      HigherClassFits(store[p].size, need);
    }

    /** Success takes [addr, addr + need) from a free tile, in range. */
    twostate predicate Allocated(addr: nat, need: nat, min: nat, limit: nat)
      reads this
    {
      && Live(tiles) == Live(old(tiles)) + {(addr, need)} && InFreeTile(old(tiles), addr, need, min)
      && min <= addr && addr + need <= limit
    }

    /**
     Allocates `sz` addresses, rounded up to the quantum, inside [min, max); 0 on failure.  A max of 0
     is no limit; max == min asks for exactly min.  The call fails exactly if no segment it tries can
     be allocated from; without limits and with a descriptor to be had, exactly if no free tile is
     large enough.
     */
    method Xalloc(sz: nat, min: nat, max: nat) returns (addr: nat)
      requires Valid() && sz < WORD && min < WORD && max < WORD
      modifies this`store, this`freelists, this`hashTab, this`freeSegs, this`nextPtr, this`pages, this`order,
               this`tiles, this`moving
      ensures Valid()
      ensures var need := AlignUp(sz, quantum);
              && (addr != 0 ==> need > 0 && Allocated(addr, need, min, Limit(need, min, max)))
              && (addr == 0 ==> OnlyDescriptorsChanged())
              && (addr == 0 <==> old(Offered()).NoneTakes(SizeToIndex(need), FREELISTS, need, min,
                                                          Limit(need, min, max)))
      ensures addr != 0 && min == max != 0 ==> addr == min
      ensures old(Supply()) >= 1 && min == max == 0 ==>
                var need := AlignUp(sz, quantum);
                (addr == 0 <==> need == 0 || forall k :: 0 <= k < |old(tiles)| && old(tiles)[k].status.FreeTile? ==>
                   old(tiles)[k].size < need)
    {
      var need := AlignUp(sz, quantum);
      if min == max == 0 {
        UnhintedCandidates(need);
      }
      addr := Search(need, min, Limit(need, min, max));
    }

    /** Without limits, a free segment that is large enough means that one of those tried fits. */
    lemma UnhintedCandidates(need: nat)
      requires Valid()
      ensures need > 0 && Supply() >= 1 && Offered().NoneTakes(SizeToIndex(need), FREELISTS, need, 0, WORD - 1) ==>
                forall k :: 0 <= k < |tiles| && tiles[k].status.FreeTile? ==> tiles[k].size < need
    {
      if need > 0 && Supply() >= 1 && Offered().NoneTakes(SizeToIndex(need), FREELISTS, need, 0, WORD - 1) {
        forall k | 0 <= k < |tiles| && tiles[k].status.FreeTile?
          ensures tiles[k].size < need
        {
          if tiles[k].size >= need {
            TriedCandidate(need, k);
          }
        }
      }
    }

    lemma TriedCandidate(need: nat, k: nat)
      requires Valid() && need > 0 && k < |tiles| && tiles[k].status.FreeTile? && tiles[k].size >= need && Supply() >= 1
      ensures exists i: nat, j: nat {:trigger Offered().InVain(i, j, need, 0, WORD - 1)} ::
                SizeToIndex(need) <= i < FREELISTS && !Offered().InVain(i, j, need, 0, WORD - 1)
    {
      var p := order[k];
      assert Describes(store[p], tiles[k], false);
      assert IsSeg(store, order, moving, p, Free);
      SizeBound(k);
      var i := Log2(store[p].size);
      ClassBound(store[p].size);
      Log2Monotone(need, store[p].size);
      assert p in freelists[i];
      var j :| 0 <= j < |freelists[i]| && freelists[i][j] == p;
      var j' := if Offered().LargeEnough(freelists[i][0], need) then 0 else j;
      var q := freelists[i][j'];
      assert q in freelists[i] && Offered().Tries(i, j', need) && SizeToIndex(need) <= i < FREELISTS;
      var n :| 0 <= n < |order| && order[n] == q;
      assert Describes(store[q], tiles[n], false);
      TileInside(tiles, base, base + size, n);
      assert Offered().Takes(q, need, 0, WORD - 1) && !Offered().InVain(i, j', need, 0, WORD - 1);
    }

    /** Allocating and freeing again restores every interval and its type. */
    method AllocThenFree(sz: nat, min: nat, max: nat) returns (addr: nat)
      requires Valid() && sz < WORD && min < WORD && max < WORD
      modifies this
      ensures Valid() && tiles == old(tiles)
    {
      addr := Xalloc(sz, min, max);
      if addr == 0 {
        return;
      }
      TakenIsNew(old(tiles), tiles, base, base + size, addr, AlignUp(sz, quantum), min);
      Xfree(addr, sz);
      SameLiveSameTiles();
    }

    twostate lemma SameLiveSameTiles()
      requires old(Valid()) && Valid() && Live(tiles) == Live(old(tiles))
      ensures tiles == old(tiles)
    {
      TilingIsCanonical(tiles, old(tiles), base, base + size);
    }

    /** Freeing all live allocations, in any order, leaves one free segment. */
    method FreeAll(allocs: seq<(nat, nat)>)
      requires Valid() && Live(tiles) == Rounded(allocs, |allocs|, quantum)
      modifies this`store, this`freelists, this`hashTab, this`freeSegs, this`order, this`tiles, this`moving
      ensures Valid() && tiles == [Tile(base, size, FreeTile)]
    {
      for i := 0 to |allocs|
        invariant Valid() && Live(tiles) == Live(old(tiles)) - Rounded(allocs, i, quantum)
      {
        RoundedStep(allocs, i, quantum);
        OneSize(old(tiles), Live(tiles), base, base + size, allocs[i].0, AlignUp(allocs[i].1, quantum));
        Xfree(allocs[i].0, allocs[i].1);
      }
      TileInside(tiles, base, base + size, 0);
      EmptyArenaIsOneFreeTile(tiles, base, base + size);
    }

    method Search(need: nat, min: nat, limit: nat) returns (addr: nat)
      requires Valid()
      modifies this`store, this`freelists, this`hashTab, this`freeSegs, this`nextPtr, this`pages, this`order,
               this`tiles, this`moving
      ensures Valid()
      ensures addr != 0 ==> need > 0 && Allocated(addr, need, min, limit)
      ensures addr == 0 ==> OnlyDescriptorsChanged()
      ensures addr == 0 <==> old(Offered()).NoneTakes(SizeToIndex(need), FREELISTS, need, min, limit)
    {
      var i := SizeToIndex(need);
      while i < FREELISTS
        invariant Valid() && OnlyDescriptorsChanged() && Offered() == old(Offered()) && SizeToIndex(need) <= i
        invariant old(Offered()).NoneTakes(SizeToIndex(need), i, need, min, limit)
      {
        addr := TryList(i, need, min, limit);
        if addr != 0 {
          return;
        }
        i := i + 1;
      }
      return 0;
    }

    /** Tries one freelist. */
    method TryList(i: nat, need: nat, min: nat, limit: nat) returns (addr: nat)
      requires Valid() && i < FREELISTS && need > 0
      modifies this`store, this`freelists, this`hashTab, this`freeSegs, this`nextPtr, this`pages, this`order,
               this`tiles, this`moving
      ensures Valid()
      ensures addr != 0 ==> Allocated(addr, need, min, limit)
      ensures addr == 0 ==> OnlyDescriptorsChanged() && Offered() == old(Offered())
      ensures addr == 0 <==> old(Offered()).NoneTakes(i, i + 1, need, min, limit)
    {
      if freelists[i] == [] {
        return 0;
      }
      assert freelists[i][0] in freelists[i];
      if store[freelists[i][0]].size >= need {
        // popped, and pushed back to the front if it does not fit
        assert Offered().InVain(i, 0, need, min, limit) <==> !Offered().Takes(freelists[i][0], need, min, limit);
        addr := SegFit(i, 0, need, min, limit);
        return;
      }
      addr := ScanList(i, need, min, limit);
    }

    method ScanList(i: nat, need: nat, min: nat, limit: nat) returns (addr: nat)
      requires Valid() && i < FREELISTS && need > 0 && freelists[i] != []
               && !Offered().LargeEnough(freelists[i][0], need)
      modifies this`store, this`freelists, this`hashTab, this`freeSegs, this`nextPtr, this`pages, this`order,
               this`tiles, this`moving
      ensures Valid()
      ensures addr != 0 ==> Allocated(addr, need, min, limit)
      ensures addr == 0 ==> OnlyDescriptorsChanged() && Offered() == old(Offered())
      ensures addr == 0 <==> old(Offered()).NoneTakes(i, i + 1, need, min, limit)
    {
      ghost var offer := Offered();
      var j := 0;
      while j < |freelists[i]|
        invariant Valid() && OnlyDescriptorsChanged() && Offered() == offer
        invariant forall n: nat {:trigger offer.InVain(i, n, need, min, limit)} :: n < j ==>
                    offer.InVain(i, n, need, min, limit)
        decreases |freelists[i]| - j
      {
        assert freelists[i][j] in freelists[i];
        assert offer.InVain(i, j, need, min, limit) <==>
               (offer.Tries(i, j, need) ==> !offer.Takes(freelists[i][j], need, min, limit));
        if store[freelists[i][j]].size >= need {
          addr := SegFit(i, j, need, min, limit);
          if addr != 0 {
            return;
          }
        }
        j := j + 1;
      }
      return 0;
    }
  }

  // ----- an address that is free but cannot be asked for -----

  function ExampleTiles(): seq<Tile> {
    [Tile(1, 1, FreeTile), Tile(2, 1, UsedTile), Tile(3, 1, FreeTile), Tile(4, 1, UsedTile)]
  }

  function ExampleStore(): Store {
    map[
      5 := Segment(1, 4, Span, NULL, 4),
      4 := Segment(1, 1, Free, 5, 3),
      3 := Segment(2, 1, Used, 4, 2),
      2 := Segment(3, 1, Free, 3, 1),
      1 := Segment(4, 1, Used, 2, NULL)
    ]
  }

  function ExampleLists(n: nat, first: seq<Ptr>): seq<seq<Ptr>> {
    seq(n, i => if i == 0 then first else [])
  }

  function ZeroHash(x: nat): nat {
    0
  }

  lemma ExampleLinked()
    ensures Linked(ExampleStore(), 5, [4, 3, 2, 1]) && Matches(ExampleStore(), [4, 3, 2, 1], ExampleTiles(), {})
    ensures Tiling(ExampleTiles(), 1, 5)
  {
  }

  lemma ExampleListed()
    ensures FreeOk(ExampleStore(), [4, 3, 2, 1], {}, ExampleLists(FREELISTS, [2, 4]))
    ensures HashOk(ExampleStore(), [4, 3, 2, 1], {}, ExampleLists(BUCKETS, [1, 3]), ZeroHash)
  {
  }

  lemma ExampleInVain(supply: nat)
    ensures Offer(ExampleStore(), ExampleLists(FREELISTS, [2, 4]), supply).NoneTakes(SizeToIndex(1), FREELISTS, 1, 1,
              Limit(1, 1, 1))
  {
  }

  lemma ExampleShape()
    ensures Shape(ExampleStore(), 5, [4, 3, 2, 1], ExampleTiles(), {}, ExampleLists(FREELISTS, [2, 4]),
                  ExampleLists(BUCKETS, [1, 3]), ZeroHash, 1, 5)
  {
    ExampleLinked();
    ExampleListed();
  }

  method FillExample(a: Arena)
    requires a.base == 1 && a.size == 4 && a.quantum == 1 && a.hash == ZeroHash
    modifies a
    ensures a.Valid() && a.tiles == ExampleTiles()
    ensures a.Offered() == Offer(ExampleStore(), ExampleLists(FREELISTS, [2, 4]), SEGMENTS_PER_PAGE - 1)
  {
    a.span, a.freeSegs, a.nextPtr, a.pages := 5, [], 6, 1;
    a.store, a.order, a.tiles, a.moving := ExampleStore(), [4, 3, 2, 1], ExampleTiles(), {};
    a.freelists, a.hashTab := ExampleLists(FREELISTS, [2, 4]), ExampleLists(BUCKETS, [1, 3]);
    ExampleShape();
  }

  /** A consistent arena of four addresses, two of them allocated, with descriptors to be had, in which
      address 1 is free but cannot be asked for: the search looks at the head of the freelist, at
      address 3, and no further. */
  method HintMissed() returns (a: Arena, addr: nat)
    ensures fresh(a) && a.Valid() && a.tiles == ExampleTiles() && a.quantum == 1 && addr == 0
  {
    a := new Arena(1, 4, 1, ZeroHash, 2);
    FillExample(a);
    ExampleInVain(a.Supply());
    addr := a.Xalloc(1, 1, 1);
  }
}
