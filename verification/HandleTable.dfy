/**
 The handle table of src/sched/handle_table.cpp: a growing array whose free slots are chained through
 their object fields.  It refines a map from handles to objects.
 */
module HandleTable {
  import opened Seqs
  import opened Wrappers

  const NULL: nat := 0
  const INVALID: nat := 0xFFFF_FFFF_FFFF_FFFF
  // no allocation can be larger than the address space, at 16 bytes a slot
  const MAX_SIZE: nat := 0x1000_0000_0000_0000

  datatype Handle = Handle(obj: nat, free: bool, inherit: bool)

  const UNUSED: Handle := Handle(NULL, false, false)

  /** The size of the table after it has grown. */
  function NewSize(size: nat): nat {
    if size < 8 then 8 else size + size / 2
  }

  datatype Entry = Entry(obj: nat, inherit: bool)

  // ----- the free chain -----

  ghost function Link(chain: seq<nat>, i: nat): nat {
    if i < |chain| then chain[i] else INVALID
  }

  ghost predicate LinkOk(t: seq<Handle>, chain: seq<nat>, i: nat) {
    i < |chain| && chain[i] < |t| && t[chain[i]].obj == Link(chain, i + 1)
  }

  /** A used slot is free and chained, or holds the object of its handle. */
  ghost predicate SlotOk(t: seq<Handle>, chain: seq<nat>, handles: map<nat, Entry>, h: nat) {
    && h < |t|
    && if t[h].free then
         h in chain && h !in handles
       else
         h !in chain && h in handles && handles[h] == Entry(t[h].obj, t[h].inherit) && t[h].obj != NULL
  }

  ghost predicate TableOk(t: seq<Handle>, used: nat, freeIndex: nat, chain: seq<nat>, handles: map<nat, Entry>) {
    && used <= |t| < MAX_SIZE && Distinct(chain) && freeIndex == Link(chain, 0)
    && (forall h :: h in chain ==> h < used) && (forall h :: h in handles ==> h < used)
    && (forall i {:trigger LinkOk(t, chain, i)} :: 0 <= i < |chain| ==> LinkOk(t, chain, i))
    && (forall h {:trigger SlotOk(t, chain, handles, h)} :: 0 <= h < used ==> SlotOk(t, chain, handles, h))
    && (forall h {:trigger t[h]} :: used <= h < |t| ==> t[h] == UNUSED)
  }

  /** Reusing the first free slot. */
  lemma ReuseKeeps(t: seq<Handle>, used: nat, freeIndex: nat, chain: seq<nat>, handles: map<nat, Entry>, obj: nat,
                   inherit: bool)
    requires TableOk(t, used, freeIndex, chain, handles) && freeIndex != INVALID && obj != NULL
    ensures freeIndex < used && freeIndex !in handles && chain != []
    ensures TableOk(t[freeIndex := Handle(obj, false, inherit)], used, t[freeIndex].obj, chain[1..],
                    handles[freeIndex := Entry(obj, inherit)])
  {
    var a, rest := freeIndex, chain[1..];
    assert chain == [a] + rest && a in chain;
    assert SlotOk(t, chain, handles, a) && a !in rest && LinkOk(t, chain, 0);
    assert Link(chain, 1) == Link(rest, 0);
    assert forall h :: h in chain <==> h == a || h in rest;
    var t', handles' := t[a := Handle(obj, false, inherit)], handles[a := Entry(obj, inherit)];
    forall i | 0 <= i < |rest|
      ensures LinkOk(t', rest, i)
    {
      assert LinkOk(t, chain, i + 1) && rest[i] in rest && Link(chain, i + 2) == Link(rest, i + 1);
    }
    forall h | 0 <= h < used
      ensures SlotOk(t', rest, handles', h)
    {
      assert SlotOk(t, chain, handles, h);
    }
  }

  /** Using a slot for the first time. */
  lemma AppendKeeps(t: seq<Handle>, used: nat, freeIndex: nat, chain: seq<nat>, handles: map<nat, Entry>, obj: nat,
                    inherit: bool)
    requires TableOk(t, used, freeIndex, chain, handles) && used < |t| && obj != NULL
    ensures used !in handles
    ensures TableOk(t[used := Handle(obj, false, inherit)], used + 1, freeIndex, chain,
                    handles[used := Entry(obj, inherit)])
  {
    var t', handles' := t[used := Handle(obj, false, inherit)], handles[used := Entry(obj, inherit)];
    forall i | 0 <= i < |chain|
      ensures LinkOk(t', chain, i)
    {
      assert LinkOk(t, chain, i) && chain[i] in chain;
    }
    forall h | 0 <= h < used + 1
      ensures SlotOk(t', chain, handles', h)
    {
      assert h < used ==> SlotOk(t, chain, handles, h);
    }
  }

  /** Freeing a slot. */
  lemma RemoveKeeps(t: seq<Handle>, used: nat, freeIndex: nat, chain: seq<nat>, handles: map<nat, Entry>, a: nat)
    requires TableOk(t, used, freeIndex, chain, handles) && a in handles
    ensures a < used && TableOk(t[a := Handle(freeIndex, true, t[a].inherit)], used, a, [a] + chain, handles - {a})
  {
    var t', chain' := t[a := Handle(freeIndex, true, t[a].inherit)], [a] + chain;
    assert SlotOk(t, chain, handles, a);
    forall i | 0 <= i < |chain'|
      ensures LinkOk(t', chain', i)
    {
      if i > 0 {
        assert LinkOk(t, chain, i - 1) && chain[i - 1] in chain;
      }
    }
    forall h | 0 <= h < used
      ensures SlotOk(t', chain', handles - {a}, h)
    {
      assert SlotOk(t, chain, handles, h);
    }
  }

  /** A larger table that starts with the old one. */
  lemma GrowKeeps(t: seq<Handle>, t': seq<Handle>, used: nat, freeIndex: nat, chain: seq<nat>, handles: map<nat, Entry>)
    requires TableOk(t, used, freeIndex, chain, handles) && t <= t' && |t'| < MAX_SIZE
    requires forall h {:trigger t'[h]} :: |t| <= h < |t'| ==> t'[h] == UNUSED
    ensures TableOk(t', used, freeIndex, chain, handles)
  {
    forall i | 0 <= i < |chain|
      ensures LinkOk(t', chain, i)
    {
      assert LinkOk(t, chain, i);
    }
    forall h | 0 <= h < used
      ensures SlotOk(t', chain, handles, h)
    {
      assert SlotOk(t, chain, handles, h);
    }
  }

  // ----- references -----

  function Refs(refs: map<nat, int>, o: nat): int {
    if o in refs then refs[o] else 0
  }

  function Plus(refs: map<nat, int>, o: nat, d: int): map<nat, int> {
    refs[o := Refs(refs, o) + d]
  }

  /** Dereferencing a null object does nothing. */
  function Dereference(refs: map<nat, int>, o: nat): map<nat, int> {
    if o == NULL then refs else Plus(refs, o, -1)
  }

  ghost function Holders(handles: map<nat, Entry>, o: nat): set<nat> {
    set h | h in handles && handles[h].obj == o
  }

  ghost predicate Balanced(refs: map<nat, int>, handles: map<nat, Entry>, taken: multiset<nat>, o: nat) {
    Refs(refs, o) == |Holders(handles, o)| + taken[o]
  }

  /** Each object has one reference for each of its handles, and one for each time it was looked up. */
  ghost predicate RefsOk(refs: map<nat, int>, handles: map<nat, Entry>, taken: multiset<nat>) {
    forall o {:trigger Balanced(refs, handles, taken, o)} :: Balanced(refs, handles, taken, o)
  }

  lemma InsertRefs(refs: map<nat, int>, handles: map<nat, Entry>, taken: multiset<nat>, h: nat, e: Entry)
    requires RefsOk(refs, handles, taken) && h !in handles
    ensures RefsOk(Plus(refs, e.obj, 1), handles[h := e], taken)
  {
    var refs', handles' := Plus(refs, e.obj, 1), handles[h := e];
    forall o
      ensures Balanced(refs', handles', taken, o)
    {
      assert Balanced(refs, handles, taken, o);
      if o == e.obj {
        assert Holders(handles', o) == Holders(handles, o) + {h};
      } else {
        assert Holders(handles', o) == Holders(handles, o);
      }
    }
  }

  lemma RemoveRefs(refs: map<nat, int>, handles: map<nat, Entry>, taken: multiset<nat>, h: nat)
    requires RefsOk(refs, handles, taken) && h in handles
    ensures RefsOk(Plus(refs, handles[h].obj, -1), handles - {h}, taken)
  {
    var e := handles[h];
    forall o
      ensures Balanced(Plus(refs, e.obj, -1), handles - {h}, taken, o)
    {
      assert Balanced(refs, handles, taken, o);
      if o == e.obj {
        assert Holders(handles, o) == Holders(handles - {h}, o) + {h};
      } else {
        assert Holders(handles - {h}, o) == Holders(handles, o);
      }
    }
  }

  lemma TakeRefs(refs: map<nat, int>, handles: map<nat, Entry>, taken: multiset<nat>, o: nat)
    requires RefsOk(refs, handles, taken)
    ensures RefsOk(Plus(refs, o, 1), handles, taken + multiset{o})
  {
    forall x
      ensures Balanced(Plus(refs, o, 1), handles, taken + multiset{o}, x)
    {
      assert Balanced(refs, handles, taken, x);
    }
  }

  class Table {
    var table: array<Handle>
    var used: nat
    var freeIndex: nat
    // reference counts of the objects, relative to when they were first inserted
    var refs: map<nat, int>
    ghost var chain: seq<nat>
    ghost var handles: map<nat, Entry>
    ghost var taken: multiset<nat>

    ghost predicate Valid()
      reads this, table
    {
      TableOk(table[..], used, freeIndex, chain, handles) && RefsOk(refs, handles, taken)
    }

    constructor ()
      ensures Valid() && handles == map[] && fresh(table)
    {
      table := new Handle[0];
      used, freeIndex, refs := 0, INVALID, map[];
      chain, handles, taken := [], map[], multiset{};
      new;
      assert forall o :: Holders(map[], o) == {};
    }

    /** Looks a handle up and references its object. */
    method Get(handle: nat) returns (r: Option<nat>)
      requires Valid()
      modifies this`refs, this`taken
      ensures Valid() && r == if handle in handles then Some(handles[handle].obj) else None
      ensures refs == if r.Some? then Plus(old(refs), r.value, 1) else old(refs)
      ensures taken == if r.Some? then old(taken) + multiset{r.value} else old(taken)
    {
      if handle >= used {
        return None;
      }
      assert SlotOk(table[..], chain, handles, handle);
      var loc := table[handle];
      if loc.free {
        return None;
      }
      TakeRefs(refs, handles, taken, loc.obj);
      refs, taken := Plus(refs, loc.obj, 1), taken + multiset{loc.obj};
      r := Some(loc.obj);
    }

    /** Copies the table into a larger one, if there is memory. */
    method Grow(memory: bool) returns (ok: bool)
      requires Valid()
      modifies this`table
      ensures Valid() && (ok <==> memory && NewSize(old(table.Length)) < MAX_SIZE) && (!ok ==> table == old(table))
      ensures ok ==> table.Length == NewSize(old(table.Length)) && fresh(table)
    {
      var size := table.Length;
      var newSize := NewSize(size);
      if !memory || newSize >= MAX_SIZE {
        return false;
      }
      var newTable := new Handle[newSize](_ => UNUSED);
      for i := 0 to size
        modifies newTable
        invariant newTable[..i] == table[..i] && forall h :: i <= h < newSize ==> newTable[h] == UNUSED
      {
        newTable[i] := table[i];
      }
      assert table[..] <= newTable[..];
      GrowKeeps(table[..], newTable[..], used, freeIndex, chain, handles);
      table := newTable;
      ok := true;
    }

    /** A new handle for the object; INVALID if the table is full and cannot grow.  The reference is
        counted in front of the object, without a null test, so there must be one. */
    method Insert(obj: nat, inherit: bool, memory: bool) returns (ret: nat)
      requires Valid() && obj != NULL
      modifies this, table
      ensures Valid() && (table == old(table) || fresh(table))
      ensures ret == INVALID <==> old(freeIndex == INVALID && used == table.Length
                                      && !(memory && NewSize(table.Length) < MAX_SIZE))
      ensures ret == INVALID ==> handles == old(handles) && refs == old(refs)
      ensures old(freeIndex) != INVALID ==> ret == old(freeIndex)
      ensures ret != INVALID ==>
                && ret !in old(handles) && handles == old(handles)[ret := Entry(obj, inherit)]
                && refs == Plus(old(refs), obj, 1)
    {
      if freeIndex != INVALID {
        ret := freeIndex;
        ReuseKeeps(table[..], used, freeIndex, chain, handles, obj, inherit);
        freeIndex, chain := table[ret].obj, chain[1..];
      } else {
        if table.Length == used {
          var ok := Grow(memory);
          if !ok {
            return INVALID;
          }
        }
        AppendKeeps(table[..], used, freeIndex, chain, handles, obj, inherit);
        ret, used := used, used + 1;
      }
      InsertRefs(refs, handles, taken, ret, Entry(obj, inherit));
      refs, handles := Plus(refs, obj, 1), handles[ret := Entry(obj, inherit)];
      ghost var t := table[..];
      table[ret] := Handle(obj, false, inherit);
      assert table[..] == t[ret := Handle(obj, false, inherit)];
    }

    /** Frees a handle and drops its reference; a handle that is not in use is refused. */
    method Remove(handle: nat) returns (ret: bool)
      requires Valid()
      modifies this`freeIndex, this`refs, this`chain, this`handles, table
      ensures Valid() && (ret <==> handle in old(handles)) && handles == old(handles) - {handle}
      ensures refs == if ret then Plus(old(refs), old(handles)[handle].obj, -1) else old(refs)
    {
      if handle >= used {
        assert handles - {handle} == handles;
        return false;
      }
      assert SlotOk(table[..], chain, handles, handle);
      var loc := table[handle];
      if loc.free {
        assert handles - {handle} == handles;
        return false;
      }
      RemoveKeeps(table[..], used, freeIndex, chain, handles, handle);
      RemoveRefs(refs, handles, taken, handle);
      ghost var t := table[..];
      table[handle] := Handle(freeIndex, true, loc.inherit);
      assert table[..] == t[handle := Handle(freeIndex, true, loc.inherit)];
      refs, handles := Dereference(refs, loc.obj), handles - {handle};
      freeIndex, chain := handle, [handle] + chain;
      ret := true;
    }

    /**
     The destructor drops a reference for every slot that is not marked free.  Slots that were never
     used are not marked either, but hold a null object, which has no reference to drop.
     */
    method Destroy()
      requires Valid()
      modifies this`refs, this`handles
      ensures handles == map[] && RefsOk(refs, map[], taken)
    {
      for i := 0 to table.Length
        invariant TableOk(table[..], used, freeIndex, chain, old(handles))
        invariant forall h :: h in handles <==> h in old(handles) && h >= i
        invariant forall h :: h in handles ==> handles[h] == old(handles)[h]
        invariant RefsOk(refs, handles, taken)
      {
        var loc := table[i];
        assert if i < used then SlotOk(table[..], chain, old(handles), i) else table[..][i] == UNUSED;
        if !loc.free {
          if i < used {
            RemoveRefs(refs, handles, taken, i);
          }
          refs := Dereference(refs, loc.obj);
          handles := handles - {i};
        }
      }
      assert handles == map[];
    }
  }
}
