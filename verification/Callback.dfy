/**
 Callback objects of src/misc/callback.cpp.  Each method is one section that runs under the object's
 lock; the lock is dropped while a callback runs, so sections of different notifications,
 registrations and unregistrations interleave in any order.
 */
module Callback {
  import opened Seqs

  // ----- positions in the list -----

  /** The entries behind x. */
  function After(s: seq<nat>, x: nat): seq<nat> {
    if s == [] then [] else if s[0] == x then s[1..] else After(s[1..], x)
  }

  lemma {:induction false} AfterFacts(s: seq<nat>, x: nat)
    requires Distinct(s)
    ensures Distinct(After(s, x)) && x !in After(s, x) && forall y :: y in After(s, x) ==> y in s
  {
    if s != [] {
      assert s == [s[0]] + s[1..];
      AfterFacts(s[1..], x);
      assert s[0] !in s[1..];
    }
  }

  /** Moving on from x: what is behind the next entry. */
  lemma {:induction false} AfterNext(s: seq<nat>, x: nat)
    requires Distinct(s) && After(s, x) != []
    ensures After(s, After(s, x)[0]) == After(s, x)[1..] && After(s, x)[0] in s
  {
    assert s == [s[0]] + s[1..];
    if s[0] == x {
      assert s[1] != s[0];
    } else {
      AfterNext(s[1..], x);
      AfterFacts(s[1..], x);
      assert s[0] !in s[1..];
    }
  }

  lemma {:induction false} AfterRemove(s: seq<nat>, x: nat, c: nat)
    requires Distinct(s) && x != c
    ensures After(Remove(s, c), x) == Remove(After(s, x), c)
  {
    if s != [] {
      assert s == [s[0]] + s[1..];
      AfterRemove(s[1..], x, c);
      assert s[0] !in s[1..];
      if s[0] == c {
        AfterFacts(s[1..], x);
        RemoveAbsent(After(s[1..], x), c);
      }
    }
  }

  lemma {:induction false} RemoveAbsent(s: seq<nat>, c: nat)
    requires c !in s
    ensures Remove(s, c) == s
  {
    if s != [] {
      assert s == [s[0]] + s[1..];
      RemoveAbsent(s[1..], c);
    }
  }

  // ----- notifications -----

  /** The callbacks that were listed when a notification began, and its calls so far. */
  datatype History = History(start: set<nat>, calls: multiset<nat>)

  ghost predicate CalledOnce(h: History) {
    forall c :: h.calls[c] <= if c in h.start then 1 else 0
  }

  /** A notification that is in callback c: the entry is linked, those behind it are still to be called,
      the others were called. */
  ghost predicate Progress(list: seq<nat>, c: nat, h: History) {
    && CalledOnce(h) && c in list
    && (forall d :: d in After(list, c) ==> d in h.start && h.calls[d] == 0)
    && (forall d :: d in list && d in h.start && d !in After(list, c) ==> h.calls[d] == 1)
  }

  /** A notification that has ended has called each callback it began with, but for unregistered ones. */
  ghost predicate Finished(removed: set<nat>, h: History) {
    CalledOnce(h) && forall c :: c in h.start && c !in removed ==> h.calls[c] == 1
  }

  ghost function Runners(cursor: map<nat, nat>, c: nat): set<nat> {
    set n | n in cursor && cursor[n] == c
  }

  /** refs counts the notifications that are in the callback. */
  ghost predicate CountsOk(refs: map<nat, nat>, cursor: map<nat, nat>) {
    forall c {:trigger Runners(cursor, c)} :: c in refs ==> refs[c] == |Runners(cursor, c)|
  }

  /** Notification n is under way, or has ended. */
  ghost predicate HistoryOk(list: seq<nat>, cursor: map<nat, nat>, removed: set<nat>, n: nat, h: History) {
    if n in cursor then Progress(list, cursor[n], h) else Finished(removed, h)
  }

  ghost predicate HistoriesOk(list: seq<nat>, cursor: map<nat, nat>, hist: map<nat, History>, removed: set<nat>) {
    && cursor.Keys <= hist.Keys
    && forall n {:trigger HistoryOk(list, cursor, removed, n, hist[n])} :: n in hist ==>
         HistoryOk(list, cursor, removed, n, hist[n])
  }

  /** Callbacks are listed or unregistered, not both. */
  ghost predicate KnownOk(list: seq<nat>, refs: map<nat, nat>, hist: map<nat, History>, removed: set<nat>) {
    && Distinct(list)
    && refs.Keys == Members(list) + removed && Members(list) !! removed
    && (forall n {:trigger hist[n].start} :: n in hist ==> hist[n].start <= refs.Keys)
  }

  /** The whole invariant. */
  ghost predicate Shape(list: seq<nat>, refs: map<nat, nat>, cursor: map<nat, nat>, hist: map<nat, History>,
                        removed: set<nat>) {
    KnownOk(list, refs, hist, removed) && CountsOk(refs, cursor) && HistoriesOk(list, cursor, hist, removed)
  }

  // ----- what the steps keep -----

  lemma RunnersEnter(cursor: map<nat, nat>, n: nat, c: nat, e: nat)
    requires n !in cursor
    ensures |Runners(cursor[n := c], e)| == |Runners(cursor, e)| + if e == c then 1 else 0
  {
    if e == c {
      assert Runners(cursor[n := c], e) == Runners(cursor, e) + {n};
    } else {
      assert Runners(cursor[n := c], e) == Runners(cursor, e);
    }
  }

  lemma RunnersLeave(cursor: map<nat, nat>, n: nat, e: nat)
    requires n in cursor
    ensures |Runners(cursor - {n}, e)| == |Runners(cursor, e)| - if e == cursor[n] then 1 else 0
  {
    if e == cursor[n] {
      assert Runners(cursor, e) == Runners(cursor - {n}, e) + {n};
    } else {
      assert Runners(cursor - {n}, e) == Runners(cursor, e);
    }
  }

  lemma CountsEnter(refs: map<nat, nat>, cursor: map<nat, nat>, n: nat, c: nat)
    requires CountsOk(refs, cursor) && n !in cursor && c in refs
    ensures CountsOk(refs[c := refs[c] + 1], cursor[n := c])
  {
    forall e | e in refs
      ensures refs[c := refs[c] + 1][e] == |Runners(cursor[n := c], e)|
    {
      RunnersEnter(cursor, n, c, e);
    }
  }

  lemma CountsLeave(refs: map<nat, nat>, cursor: map<nat, nat>, n: nat)
    requires CountsOk(refs, cursor) && n in cursor && cursor[n] in refs
    ensures refs[cursor[n]] > 0 && CountsOk(refs[cursor[n] := refs[cursor[n]] - 1], cursor - {n})
  {
    var c := cursor[n];
    assert n in Runners(cursor, c);
    forall e | e in refs
      ensures refs[c := refs[c] - 1][e] == |Runners(cursor - {n}, e)|
    {
      RunnersLeave(cursor, n, e);
    }
  }

  /** The first callback of a notification. */
  lemma FirstProgress(list: seq<nat>)
    requires Distinct(list) && list != []
    ensures Progress(list, list[0], History(Members(list), multiset{list[0]}))
  {
    assert list == [list[0]] + list[1..];
    AfterFacts(list, list[0]);
  }

  lemma NextProgress(list: seq<nat>, c: nat, h: History)
    requires Distinct(list) && Progress(list, c, h) && After(list, c) != []
    ensures var d := After(list, c)[0]; d in list && Progress(list, d, History(h.start, h.calls + multiset{d}))
  {
    var rest := After(list, c);
    var d := rest[0];
    AfterNext(list, c);
    AfterFacts(list, c);
    assert rest == [d] + rest[1..] && d in rest && d !in rest[1..];
    assert forall e :: e in rest <==> e == d || e in rest[1..];
  }

  lemma LastProgress(list: seq<nat>, refs: map<nat, nat>, hist: map<nat, History>, removed: set<nat>, c: nat, n: nat)
    requires KnownOk(list, refs, hist, removed) && n in hist && Progress(list, c, hist[n]) && After(list, c) == []
    ensures Finished(removed, hist[n])
  {
  }

  /** A notification begins. */
  lemma BeginKeeps(list: seq<nat>, refs: map<nat, nat>, cursor: map<nat, nat>, hist: map<nat, History>,
                   removed: set<nat>, n: nat)
    requires Shape(list, refs, cursor, hist, removed) && n !in hist && list != []
    ensures list[0] in refs
    ensures Shape(list, refs[list[0] := refs[list[0]] + 1], cursor[n := list[0]],
                  hist[n := History(Members(list), multiset{list[0]})], removed)
  {
    var c, h := list[0], History(Members(list), multiset{list[0]});
    assert c in Members(list);
    FirstProgress(list);
    CountsEnter(refs, cursor, n, c);
    HistoriesMove(list, cursor, hist, removed, n, c, h);
  }

  /** Notification n goes on to callback d. */
  lemma HistoriesMove(list: seq<nat>, cursor: map<nat, nat>, hist: map<nat, History>, removed: set<nat>, n: nat,
                      d: nat, h: History)
    requires HistoriesOk(list, cursor, hist, removed) && Progress(list, d, h)
    ensures HistoriesOk(list, cursor[n := d], hist[n := h], removed)
  {
    var cursor', hist' := cursor[n := d], hist[n := h];
    forall m | m in hist'
      ensures HistoryOk(list, cursor', removed, m, hist'[m])
    {
      assert m != n ==> HistoryOk(list, cursor, removed, m, hist[m]);
    }
  }

  /** A notification moves on to the next callback. */
  lemma NextKeeps(list: seq<nat>, refs: map<nat, nat>, mid: map<nat, nat>, cursor: map<nat, nat>, hist: map<nat,
                  History>, removed: set<nat>, n: nat, c: nat, d: nat)
    requires Shape(list, refs, cursor, hist, removed) && n in cursor && c == cursor[n] && After(list, c) != []
             && d == After(list, c)[0]
    requires c in refs && refs[c] > 0 && mid == refs[c := refs[c] - 1]
    ensures d in mid && n in hist
    ensures Shape(list, mid[d := mid[d] + 1], cursor[n := d],
                  hist[n := History(hist[n].start, hist[n].calls + multiset{d})], removed)
  {
    assert HistoryOk(list, cursor, removed, n, hist[n]);
    NextProgress(list, c, hist[n]);
    assert d in Members(list);
    CountsMove(refs, mid, cursor, n, d);
    HistoriesMove(list, cursor, hist, removed, n, d, History(hist[n].start, hist[n].calls + multiset{d}));
  }

  lemma CountsMove(refs: map<nat, nat>, mid: map<nat, nat>, cursor: map<nat, nat>, n: nat, d: nat)
    requires CountsOk(refs, cursor) && n in cursor && cursor[n] in refs && refs[cursor[n]] > 0
    requires mid == refs[cursor[n] := refs[cursor[n]] - 1] && d in mid
    ensures CountsOk(mid[d := mid[d] + 1], cursor[n := d])
  {
    CountsLeave(refs, cursor, n);
    CountsEnter(mid, cursor - {n}, n, d);
    assert (cursor - {n})[n := d] == cursor[n := d];
  }

  /** A notification ends. */
  lemma EndKeeps(list: seq<nat>, refs: map<nat, nat>, cursor: map<nat, nat>, hist: map<nat, History>,
                 removed: set<nat>, n: nat, c: nat)
    requires Shape(list, refs, cursor, hist, removed) && n in cursor && c == cursor[n] && After(list, c) == []
             && c in refs && refs[c] > 0
    ensures Shape(list, refs[c := refs[c] - 1], cursor - {n}, hist, removed)
  {
    CountsLeave(refs, cursor, n);
    forall m | m in hist
      ensures HistoryOk(list, cursor - {n}, removed, m, hist[m])
    {
      assert HistoryOk(list, cursor, removed, m, hist[m]);
      if m == n {
        LastProgress(list, refs, hist, removed, c, n);
      }
    }
  }

  /** The callback a notification is in is counted. */
  lemma InCallback(list: seq<nat>, refs: map<nat, nat>, cursor: map<nat, nat>, hist: map<nat, History>,
                   removed: set<nat>, n: nat)
    requires Shape(list, refs, cursor, hist, removed) && n in cursor
    ensures n in hist && cursor[n] in list && cursor[n] in refs && refs[cursor[n]] > 0
  {
    assert HistoryOk(list, cursor, removed, n, hist[n]) && cursor[n] in Members(list);
    CountsLeave(refs, cursor, n);
  }

  /** A callback is put in front of the list. */
  lemma RegisterKeeps(list: seq<nat>, refs: map<nat, nat>, cursor: map<nat, nat>, hist: map<nat, History>,
                      removed: set<nat>, id: nat)
    requires Shape(list, refs, cursor, hist, removed) && id !in refs
    ensures Shape([id] + list, refs[id := 0], cursor, hist, removed)
  {
    var list' := [id] + list;
    assert id !in list by {
      assert id in list ==> id in Members(list);
    }
    assert Members(list') == Members(list) + {id};
    forall n | n in hist
      ensures HistoryOk(list', cursor, removed, n, hist[n])
    {
      assert HistoryOk(list, cursor, removed, n, hist[n]);
      if n in cursor {
        RegisterProgress(list, id, cursor[n], hist[n]);
      }
    }
    assert Runners(cursor, id) == {} by {
      forall n | n in cursor
        ensures cursor[n] != id
      {
        InCallback(list, refs, cursor, hist, removed, n);
      }
    }
  }

  lemma RegisterProgress(list: seq<nat>, id: nat, c: nat, h: History)
    requires Progress(list, c, h) && id !in list && id !in h.start
    ensures Progress([id] + list, c, h)
  {
    assert ([id] + list)[1..] == list;
    assert After([id] + list, c) == After(list, c);
  }

  /** A callback that no notification is in leaves the list. */
  lemma UnregisterKeeps(list: seq<nat>, refs: map<nat, nat>, cursor: map<nat, nat>, hist: map<nat, History>,
                        removed: set<nat>, c: nat)
    requires Shape(list, refs, cursor, hist, removed) && c in list && c in refs && refs[c] == 0
    ensures Shape(Remove(list, c), refs, cursor, hist, removed + {c})
  {
    RemoveFacts(list, c);
    assert Members(list) == Members(Remove(list, c)) + {c};
    forall n | n in hist
      ensures HistoryOk(Remove(list, c), cursor, removed + {c}, n, hist[n])
    {
      assert HistoryOk(list, cursor, removed, n, hist[n]);
      if n in cursor {
        assert n in Runners(cursor, cursor[n]);
        UnregisterProgress(list, c, cursor[n], hist[n]);
      }
    }
  }

  lemma UnregisterProgress(list: seq<nat>, c: nat, d: nat, h: History)
    requires Distinct(list) && Progress(list, d, h) && c != d
    ensures Progress(Remove(list, c), d, h)
  {
    RemoveFacts(list, c);
    AfterRemove(list, d, c);
    AfterFacts(list, d);
    RemoveFacts(After(list, d), c);
  }

  /** The sections that can follow each other. */
  datatype Op = Begin | Next(n: nat) | Add(id: nat, memory: bool) | Drop(c: nat)

  /** Every notification has gone on from where it was. */
  ghost predicate Later(hist: map<nat, History>, hist': map<nat, History>) {
    forall n :: n in hist ==> n in hist' && hist'[n].start == hist[n].start && hist[n].calls <= hist'[n].calls
  }

  lemma LaterTwice(hist: map<nat, History>, mid: map<nat, History>, hist': map<nat, History>)
    requires Later(hist, mid) && Later(mid, hist')
    ensures Later(hist, hist')
  {
  }

  class CallbackObject {
    const multiple: bool
    var list: seq<nat>
    var refs: map<nat, nat>
    // the callback each running notification is in, and how many notifications there were
    var cursor: map<nat, nat>
    var begun: nat
    ghost var hist: map<nat, History>
    ghost var removed: set<nat>

    ghost predicate Valid()
      reads this
    {
      Shape(list, refs, cursor, hist, removed) && forall n: nat :: n in hist <==> n < begun
    }

    constructor (multiple: bool)
      ensures Valid() && list == [] && this.multiple == multiple && removed == {} && hist == map[]
    {
      this.multiple := multiple;
      list, refs, cursor, begun, hist, removed := [], map[], map[], 0, map[], {};
    }

    /** The first section of ExNotifyCallback: enters the first callback, if there is one. */
    method NotifyBegin() returns (n: nat)
      requires Valid()
      modifies this`refs, this`cursor, this`begun, this`hist
      ensures Valid() && n !in old(hist) && (n in cursor <==> list != []) && refs.Keys == old(refs.Keys)
      ensures hist == old(hist)[n := History(Members(list), if list == [] then multiset{} else multiset{list[0]})]
    {
      n, begun := begun, begun + 1;
      if list == [] {
        hist := hist[n := History(Members(list), multiset{})];
        return;
      }
      BeginKeeps(list, refs, cursor, hist, removed, n);
      var c := list[0];
      refs := refs[c := refs[c] + 1];
      cursor := cursor[n := c];
      hist := hist[n := History(Members(list), multiset{c})];
    }

    /** The section between two callbacks: leaves one and enters the next one, or ends the notification. */
    method NotifyNext(n: nat)
      requires Valid() && n in cursor
      modifies this`refs, this`cursor, this`hist
      ensures Valid() && n in old(hist) && refs.Keys == old(refs.Keys)
      ensures var rest := After(list, old(cursor)[n]);
              && (n in cursor <==> rest != [])
              && (rest == [] ==> hist == old(hist))
              && (rest != [] ==>
                        && cursor[n] == rest[0]
                        && hist == old(hist)[n := History(old(hist)[n].start, old(hist)[n].calls + multiset{rest[0]})])
    {
      InCallback(list, refs, cursor, hist, removed, n);
      var c := cursor[n];
      var rest := After(list, c);
      if rest == [] {
        Leave(n, c);
      } else {
        Move(n, c, rest[0]);
      }
    }

    method Leave(n: nat, c: nat)
      requires Valid() && n in cursor && cursor[n] == c && After(list, c) == [] && c in refs && refs[c] > 0
      modifies this`refs, this`cursor
      ensures Valid() && cursor == old(cursor) - {n} && refs.Keys == old(refs.Keys)
    {
      EndKeeps(list, refs, cursor, hist, removed, n, c);
      refs := refs[c := refs[c] - 1];
      cursor := cursor - {n};
    }

    method Move(n: nat, c: nat, d: nat)
      requires Valid() && n in cursor && cursor[n] == c && c in refs && refs[c] > 0 && n in hist
      requires After(list, c) != [] && d == After(list, c)[0]
      modifies this`refs, this`cursor, this`hist
      ensures Valid() && cursor == old(cursor)[n := d] && refs.Keys == old(refs.Keys)
      ensures hist == old(hist)[n := History(old(hist)[n].start, old(hist)[n].calls + multiset{d})]
    {
      NextKeeps(list, refs, refs[c := refs[c] - 1], cursor, hist, removed, n, c, d);
      refs := refs[c := refs[c] - 1];
      refs := refs[d := refs[d] + 1];
      cursor := cursor[n := d];
      hist := hist[n := History(hist[n].start, hist[n].calls + multiset{d})];
    }

    /** ExRegisterCallback: refused if only one callback is allowed, or if memory is short. */
    method Register(id: nat, memory: bool) returns (ok: bool)
      requires Valid() && id !in refs
      modifies this`list, this`refs
      ensures Valid() && (ok <==> memory && (multiple || old(list) == []))
      ensures list == if ok then [id] + old(list) else old(list)
      ensures refs.Keys == if ok then old(refs.Keys) + {id} else old(refs.Keys)
    {
      if !multiple && list != [] {
        return false;
      }
      if !memory {
        return false;
      }
      RegisterKeeps(list, refs, cursor, hist, removed, id);
      list, refs := [id] + list, refs[id := 0];
      ok := true;
    }

    /** One pass of ExUnregisterCallback: it waits as long as a notification is in the callback. */
    method TryUnregister(c: nat) returns (gone: bool)
      requires Valid() && c in list
      modifies this`list, this`removed
      ensures Valid() && (gone <==> forall n :: n in cursor ==> cursor[n] != c)
      ensures list == if gone then Remove(old(list), c) else old(list)
      ensures removed == if gone then old(removed) + {c} else old(removed)
    {
      assert c in Members(list);
      assert forall n :: n in Runners(cursor, c) <==> n in cursor && cursor[n] == c;
      if refs[c] != 0 {
        return false;
      }
      UnregisterKeeps(list, refs, cursor, hist, removed, c);
      list, removed := Remove(list, c), removed + {c};
      gone := true;
    }

    /** Any interleaving of sections; those that cannot happen are skipped. */
    method Run(ops: seq<Op>)
      requires Valid()
      modifies this
      ensures Valid() && old(removed) <= removed && Later(old(hist), hist)
    {
      for i := 0 to |ops|
        invariant Valid() && old(removed) <= removed && Later(old(hist), hist)
      {
        ghost var h := hist;
        Step(ops[i]);
        LaterTwice(old(hist), h, hist);
      }
    }

    method Step(op: Op)
      requires Valid()
      modifies this
      ensures Valid() && old(removed) <= removed && Later(old(hist), hist)
    {
      match op
      case Begin =>
        var _ := NotifyBegin();
      case Next(n) =>
        if n in cursor {
          NotifyNext(n);
        }
      case Add(id, memory) =>
        if id !in refs {
          var _ := Register(id, memory);
        }
      case Drop(c) =>
        if c in list {
          var _ := TryUnregister(c);
        }
    }
  }

  /** Once unregistered, a callback is in no notification and is not listed, so none will enter it. */
  lemma UnregisteredIsIdle(list: seq<nat>, refs: map<nat, nat>, cursor: map<nat, nat>, hist: map<nat, History>,
                           removed: set<nat>, c: nat)
    requires Shape(list, refs, cursor, hist, removed) && c in removed
    ensures c !in list && forall n :: n in cursor ==> cursor[n] != c
  {
    assert c in list ==> c in Members(list);
    forall n | n in cursor
      ensures cursor[n] != c
    {
      InCallback(list, refs, cursor, hist, removed, n);
    }
  }

  /** A notification that has ended called each callback that was registered all along exactly once, and
      none that came later. */
  lemma ExactlyOnce(list: seq<nat>, refs: map<nat, nat>, cursor: map<nat, nat>, hist: map<nat, History>,
                    removed: set<nat>, n: nat, c: nat)
    requires Shape(list, refs, cursor, hist, removed) && n in hist && n !in cursor
    ensures c in hist[n].start && c in list ==> hist[n].calls[c] == 1
    ensures c !in hist[n].start ==> hist[n].calls[c] == 0
  {
    assert HistoryOk(list, cursor, removed, n, hist[n]);
    assert c in list ==> c in Members(list);
  }
}
