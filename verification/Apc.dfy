/**
 Asynchronous procedure calls of a thread: src/sched/apc.cpp and the disable counters of
 src/sched/thread.cpp.

 Each method is one section under the thread's lock.  Routines run with the lock released; the
 thread's stack of routines under way is `frames`.  Kernel routines run at APC level, where no
 delivery can start; normal routines run at passive level, where one can.
 */
module Apc {
  import opened Wrappers

  datatype Mode = KernelMode | UserMode

  /** Special APCs have no normal routine and are always kernel APCs. */
  datatype Apc = Special | Normal(normalMode: Mode) {
    function ApcMode(): Mode {
      if Special? then KernelMode else normalMode
    }
  }

  /** A routine under way.  `user` is set if the delivery it belongs to returns to user mode. */
  datatype Frame = SpecialPart(a: nat, user: bool) | KernelPart(a: nat, user: bool) | NormalPart(a: nat,
        user: bool) | UserPart(a: nat)

  // ----- queues -----

  predicate IsSpecial(apcs: map<nat, Apc>, a: nat) {
    a in apcs && apcs[a].Special?
  }

  ghost predicate InMode(apcs: map<nat, Apc>, a: nat, mode: Mode) {
    a in apcs && apcs[a].ApcMode() == mode
  }

  ghost predicate Ordered(apcs: map<nat, Apc>, a: nat, b: nat) {
    IsSpecial(apcs, b) ==> IsSpecial(apcs, a)
  }

  /** Special APCs precede all others. */
  ghost predicate SpecialsFirst(apcs: map<nat, Apc>, list: seq<nat>) {
    forall i, j {:trigger Ordered(apcs, list[i], list[j])} :: 0 <= i < j < |list| ==> Ordered(apcs, list[i], list[j])
  }

  /** The APCs of a thread, the set of those marked as inserted, and the two queues. */
  datatype Queues = Queues(apcs: map<nat, Apc>, inserted: set<nat>, kernelList: seq<nat>, userList: seq<nat>)

  /** How often an APC is queued. */
  ghost function Count(q: Queues, a: nat): nat {
    multiset(q.kernelList)[a] + multiset(q.userList)[a]
  }

  /** An inserted APC is in exactly one queue, once; others are in none. */
  ghost predicate QueuesOk(q: Queues) {
    && (forall a {:trigger Count(q, a)} :: Count(q, a) == if a in q.inserted then 1 else 0)
    && SpecialsFirst(q.apcs, q.kernelList)
    && (forall x {:trigger InMode(q.apcs, x, KernelMode)} :: x in q.kernelList ==> InMode(q.apcs, x, KernelMode))
    && (forall x {:trigger InMode(q.apcs, x, UserMode)} :: x in q.userList ==> InMode(q.apcs, x, UserMode))
  }

  /** At most one normal routine is under way, and only special APCs run on top of it. */
  ghost predicate FramesOk(frames: seq<Frame>, inProgress: bool) {
    if inProgress then |frames| in {1, 2} && frames[0].NormalPart?
        && (|frames| == 2 ==> frames[1].SpecialPart? && !frames[1].user)
    else |frames| == 0 || (|frames| == 1 && !frames[0].NormalPart?)
  }

  lemma NoSpecialLeft(apcs: map<nat, Apc>, list: seq<nat>)
    requires SpecialsFirst(apcs, list) && (list != [] ==> !IsSpecial(apcs, list[0]))
    ensures forall x :: x in list ==> !IsSpecial(apcs, x)
  {
    forall x | x in list
      ensures !IsSpecial(apcs, x)
    {
      var i :| 0 <= i < |list| && list[i] == x;
      assert i > 0 ==> Ordered(apcs, list[0], list[i]);
    }
  }

  lemma Queued(q: Queues, a: nat)
    requires QueuesOk(q)
    ensures a in q.kernelList || a in q.userList <==> a in q.inserted
  {
    assert Count(q, a) == if a in q.inserted then 1 else 0;
  }

  /** Taking the first kernel or user APC off its queue. */
  function Popped(q: Queues, mode: Mode): Queues
    requires if mode == KernelMode then q.kernelList != [] else q.userList != []
  {
    if mode == KernelMode then q.(kernelList := q.kernelList[1..], inserted := q.inserted - {q.kernelList[0]})
    else q.(userList := q.userList[1..], inserted := q.inserted - {q.userList[0]})
  }

  lemma PopKernel(q: Queues)
    requires QueuesOk(q) && q.kernelList != []
    ensures QueuesOk(Popped(q, KernelMode)) && q.kernelList[0] in q.inserted
  {
    var a, rest, q' := q.kernelList[0], q.kernelList[1..], Popped(q, KernelMode);
    assert q.kernelList == [a] + rest;
    Queued(q, a);
    forall x
      ensures Count(q', x) == if x in q'.inserted then 1 else 0
    {
      assert Count(q, x) == if x in q.inserted then 1 else 0;
    }
    forall i, j | 0 <= i < j < |rest|
      ensures Ordered(q.apcs, rest[i], rest[j])
    {
      assert Ordered(q.apcs, q.kernelList[i + 1], q.kernelList[j + 1]);
    }
  }

  lemma PopUser(q: Queues)
    requires QueuesOk(q) && q.userList != []
    ensures QueuesOk(Popped(q, UserMode)) && q.userList[0] in q.inserted
  {
    var a, q' := q.userList[0], Popped(q, UserMode);
    assert q.userList == [a] + q.userList[1..];
    Queued(q, a);
    forall x
      ensures Count(q', x) == if x in q'.inserted then 1 else 0
    {
      assert Count(q, x) == if x in q.inserted then 1 else 0;
    }
  }

  /** Special APCs go to the front of the kernel queue, others to the back of their queue. */
  function Pushed(q: Queues, a: nat): Queues
    requires a in q.apcs
  {
    var q' := q.(inserted := q.inserted + {a});
    if q.apcs[a].Special? then q'.(kernelList := [a] + q.kernelList)
    else if q.apcs[a].ApcMode() == KernelMode then q'.(kernelList := q.kernelList + [a])
    else q'.(userList := q.userList + [a])
  }

  lemma PushKeeps(q: Queues, a: nat)
    requires QueuesOk(q) && a in q.apcs && a !in q.inserted
    ensures QueuesOk(Pushed(q, a))
  {
    var q', list := Pushed(q, a), Pushed(q, a).kernelList;
    forall x
      ensures Count(q', x) == if x in q'.inserted then 1 else 0
    {
      assert Count(q, x) == if x in q.inserted then 1 else 0;
    }
    forall i, j | 0 <= i < j < |list|
      ensures Ordered(q.apcs, list[i], list[j])
    {
      if q.apcs[a].Special? {
        assert i > 0 ==> Ordered(q.apcs, q.kernelList[i - 1], q.kernelList[j - 1]);
      } else {
        assert j < |q.kernelList| ==> Ordered(q.apcs, q.kernelList[i], q.kernelList[j]);
      }
    }
  }

  /** Redefining an APC that is not queued. */
  lemma DefineKeeps(q: Queues, a: nat, apc: Apc)
    requires QueuesOk(q) && a !in q.inserted
    ensures QueuesOk(q.(apcs := q.apcs[a := apc]))
  {
    var apcs := q.apcs[a := apc];
    Queued(q, a);
    forall x
      ensures Count(q.(apcs := apcs), x) == if x in q.inserted then 1 else 0
    {
      assert Count(q, x) == if x in q.inserted then 1 else 0;
    }
    forall x | x in q.kernelList
      ensures InMode(apcs, x, KernelMode)
    {
      assert InMode(q.apcs, x, KernelMode);
    }
    forall x | x in q.userList
      ensures InMode(apcs, x, UserMode)
    {
      assert InMode(q.apcs, x, UserMode);
    }
    forall i, j | 0 <= i < j < |q.kernelList|
      ensures Ordered(apcs, q.kernelList[i], q.kernelList[j])
    {
      assert Ordered(q.apcs, q.kernelList[i], q.kernelList[j]) && q.kernelList[i] in q.kernelList
             && q.kernelList[j] in q.kernelList;
    }
  }

  /** Every insertion is delivered once, or still queued. */
  ghost predicate Conserved(queued: multiset<nat>, delivered: multiset<nat>, inserted: set<nat>) {
    forall a {:trigger Balance(queued, delivered, inserted, a)} :: Balance(queued, delivered, inserted, a)
  }

  ghost predicate Balance(queued: multiset<nat>, delivered: multiset<nat>, inserted: set<nat>, a: nat) {
    queued[a] == delivered[a] + if a in inserted then 1 else 0
  }

  lemma ConservedPush(queued: multiset<nat>, delivered: multiset<nat>, inserted: set<nat>, a: nat)
    requires Conserved(queued, delivered, inserted) && a !in inserted
    ensures Conserved(queued + multiset{a}, delivered, inserted + {a})
  {
    forall x
      ensures Balance(queued + multiset{a}, delivered, inserted + {a}, x)
    {
      assert Balance(queued, delivered, inserted, x);
    }
  }

  lemma ConservedPop(queued: multiset<nat>, delivered: multiset<nat>, inserted: set<nat>, a: nat)
    requires Conserved(queued, delivered, inserted) && a in inserted
    ensures Conserved(queued, delivered + multiset{a}, inserted - {a})
  {
    forall x
      ensures Balance(queued, delivered + multiset{a}, inserted - {a}, x)
    {
      assert Balance(queued, delivered, inserted, x);
    }
  }

  // ----- what a delivery starts next -----

  /** The next routine that a delivery starts; None if it is over. */
  function NextFrame(q: Queues, user: bool, inProgress: bool, disabled: bool, userPending: bool): Option<Frame> {
    if q.kernelList != [] then
      var a := q.kernelList[0];
      if IsSpecial(q.apcs, a) then Some(SpecialPart(a, user)) else if inProgress || disabled then None
          else Some(KernelPart(a, user))
    else if user && userPending && !disabled && q.userList != [] then Some(UserPart(q.userList[0]))
    else None
  }

  /** A delivery only ends when no special APC is left, and leaves normal ones only if they are held back. */
  lemma EndsDrained(q: Queues, user: bool, inProgress: bool, disabled: bool, userPending: bool)
    requires QueuesOk(q) && NextFrame(q, user, inProgress, disabled, userPending).None?
    ensures forall a :: a in q.kernelList ==> !IsSpecial(q.apcs, a)
    ensures q.kernelList != [] ==> inProgress || disabled
  {
    NoSpecialLeft(q.apcs, q.kernelList);
  }

  /** The state after a delivery went on: the routine is started and its APC taken off its queue, or nothing changed. */
  ghost predicate WentOn(next: Option<Frame>, q: Queues, q': Queues, frames: seq<Frame>, frames': seq<Frame>,
                         delivered: multiset<nat>, delivered': multiset<nat>) {
    match next
    case None => q' == q && frames' == frames && delivered' == delivered
    case Some(f) =>
      && frames' == frames + [f] && delivered' == delivered + multiset{f.a}
      && (if f.UserPart? then q.userList != [] && q' == Popped(q, UserMode)
          else q.kernelList != [] && q' == Popped(q, KernelMode))
  }

  // ----- what an undisturbed delivery runs -----

  datatype Event = KernelRoutine(a: nat) | NormalRoutine(a: nat)

  /** The special APCs of a queue, or the others. */
  function Filter(apcs: map<nat, Apc>, list: seq<nat>, special: bool): seq<nat> {
    if list == [] then []
    else if IsSpecial(apcs, list[0]) == special then [list[0]] + Filter(apcs, list[1..], special)
    else Filter(apcs, list[1..], special)
  }

  /** The routines of an APC; the kernel routines of those in `nulls` remove the normal routine. */
  function RoutinesOf(apcs: map<nat, Apc>, a: nat, nulls: set<nat>): seq<Event> {
    if IsSpecial(apcs, a) || a in nulls then [KernelRoutine(a)] else [KernelRoutine(a), NormalRoutine(a)]
  }

  function Calls(apcs: map<nat, Apc>, list: seq<nat>, nulls: set<nat>): seq<Event> {
    if list == [] then [] else RoutinesOf(apcs, list[0], nulls) + Calls(apcs, list[1..], nulls)
  }

  lemma {:induction false} SpecialsThenNormals(apcs: map<nat, Apc>, list: seq<nat>)
    requires SpecialsFirst(apcs, list)
    ensures list == Filter(apcs, list, true) + Filter(apcs, list, false)
  {
    if list != [] {
      var rest := list[1..];
      forall i, j | 0 <= i < j < |rest|
        ensures Ordered(apcs, rest[i], rest[j])
      {
        assert Ordered(apcs, list[i + 1], list[j + 1]);
      }
      SpecialsThenNormals(apcs, rest);
      assert list == [list[0]] + rest;
      if !IsSpecial(apcs, list[0]) {
        NoSpecialLeft(apcs, list);
        NoneSpecial(apcs, rest);
      }
    }
  }

  lemma {:induction false} NoneSpecial(apcs: map<nat, Apc>, list: seq<nat>)
    requires forall x :: x in list ==> !IsSpecial(apcs, x)
    ensures Filter(apcs, list, true) == [] && Filter(apcs, list, false) == list
  {
    if list != [] {
      NoneSpecial(apcs, list[1..]);
      assert list == [list[0]] + list[1..];
    }
  }

  lemma {:induction false} CallsAppend(apcs: map<nat, Apc>, s: seq<nat>, t: seq<nat>, nulls: set<nat>)
    ensures Calls(apcs, s + t, nulls) == Calls(apcs, s, nulls) + Calls(apcs, t, nulls)
  {
    if s == [] {
      assert s + t == t;
    } else {
      CallsAppend(apcs, s[1..], t, nulls);
      assert (s + t)[1..] == s[1..] + t && (s + t)[0] == s[0];
    }
  }

  // ----- the thread -----

  /** Sections that can follow each other in any order. */
  datatype Op =
    | Init(a: nat, hasNormal: bool, mode: Mode)
    | Insert(a: nat, wait: Wait)
    | Enter(guarded: bool)
    | Leave(guarded: bool)
    | TestAlert(mode: Mode)
    | Exit
    | Deliver(user: bool)
    | KernelReturns(nulls: bool)
    | NormalReturns

  /** What an insertion finds out about the thread: is it another one, in an alertable wait in user mode,
      and could it be unblocked? */
  datatype Wait = Wait(other: bool, waiting: bool, alertable: bool, unblocked: bool)

  /** All special APCs were run, then the normal ones unless they are held back. */
  ghost predicate Delivered(apcs: map<nat, Apc>, list: seq<nat>, left: seq<nat>, blocked: bool, nulls: set<nat>,
                            trace: seq<Event>) {
    var specials, normals := Filter(apcs, list, true), Filter(apcs, list, false);
    && trace == Calls(apcs, specials, nulls) + (if blocked then [] else Calls(apcs, normals, nulls))
    && left == if blocked then normals else []
  }

  ghost predicate OnlySpecials(apcs: map<nat, Apc>, list: seq<nat>) {
    forall x {:trigger IsSpecial(apcs, x)} :: x in list ==> IsSpecial(apcs, x)
  }

  /** A delivery of `list` has run the APCs in `done`, and `left` are left. */
  ghost predicate Delivering(apcs: map<nat, Apc>, list: seq<nat>, done: seq<nat>, left: seq<nat>, blocked: bool,
                             nulls: set<nat>, trace: seq<Event>) {
    list == done + left && trace == Calls(apcs, done, nulls) && (blocked ==> OnlySpecials(apcs, done))
  }

  lemma CallsOne(apcs: map<nat, Apc>, a: nat, nulls: set<nat>)
    ensures Calls(apcs, [a], nulls) == RoutinesOf(apcs, a, nulls)
  {
    assert Calls(apcs, [a][1..], nulls) == [];
  }

  lemma DeliveringStep(apcs: map<nat, Apc>, list: seq<nat>, done: seq<nat>, left: seq<nat>, blocked: bool,
                       nulls: set<nat>, trace: seq<Event>)
    requires Delivering(apcs, list, done, left, blocked, nulls, trace) && left != []
             && (blocked ==> IsSpecial(apcs, left[0]))
    ensures Delivering(apcs, list, done + [left[0]], left[1..], blocked, nulls,
                       trace + RoutinesOf(apcs, left[0], nulls))
  {
    CallsAppend(apcs, done, [left[0]], nulls);
    CallsOne(apcs, left[0], nulls);
    assert done + left == (done + [left[0]]) + left[1..];
  }

  lemma {:induction false} FilterAppend(apcs: map<nat, Apc>, s: seq<nat>, t: seq<nat>, special: bool)
    ensures Filter(apcs, s + t, special) == Filter(apcs, s, special) + Filter(apcs, t, special)
  {
    if s == [] {
      assert s + t == t;
    } else {
      FilterAppend(apcs, s[1..], t, special);
      assert (s + t)[1..] == s[1..] + t && (s + t)[0] == s[0];
    }
  }

  lemma {:induction false} AllSpecial(apcs: map<nat, Apc>, list: seq<nat>)
    requires OnlySpecials(apcs, list)
    ensures Filter(apcs, list, true) == list && Filter(apcs, list, false) == []
  {
    if list != [] {
      AllSpecial(apcs, list[1..]);
      assert list == [list[0]] + list[1..];
    }
  }

  lemma DeliveredAre(apcs: map<nat, Apc>, list: seq<nat>, done: seq<nat>, left: seq<nat>, blocked: bool,
                     nulls: set<nat>, trace: seq<Event>)
    requires Delivering(apcs, list, done, left, blocked, nulls, trace) && SpecialsFirst(apcs, list)
             && SpecialsFirst(apcs, left)
    requires left != [] ==> blocked && !IsSpecial(apcs, left[0])
    ensures Delivered(apcs, list, left, blocked, nulls, trace)
  {
    SpecialsThenNormals(apcs, list);
    if blocked {
      NoSpecialLeft(apcs, left);
      FilterAppend(apcs, done, left, true);
      FilterAppend(apcs, done, left, false);
      NoneSpecial(apcs, left);
      AllSpecial(apcs, done);
      assert Filter(apcs, list, true) == done;
    } else {
      assert list == done;
      CallsAppend(apcs, Filter(apcs, list, true), Filter(apcs, list, false), nulls);
    }
  }

  class ApcThread {
    var q: Queues
    var kernelPending: bool
    var userPending: bool
    var inProgress: bool
    var kernelDisable: int
    var specialDisable: int
    var exiting: bool
    var alertedKernel: bool
    var alertedUser: bool
    var frames: seq<Frame>
    // all insertions, and all deliveries
    ghost var queued: multiset<nat>
    ghost var delivered: multiset<nat>

    ghost predicate Valid()
      reads this
    {
      && QueuesOk(q) && FramesOk(frames, inProgress)
      && (userPending ==> q.userList != [])
      && Conserved(queued, delivered, q.inserted)
    }

    constructor ()
      ensures Valid() && q == Queues(map[], {}, [], []) && frames == []
    {
      q := Queues(map[], {}, [], []);
      kernelPending, userPending, inProgress, exiting := false, false, false, false;
      kernelDisable, specialDisable := 0, 0;
      alertedKernel, alertedUser, frames := false, false, [];
      queued, delivered := multiset{}, multiset{};
    }

    /** KeInitializeApc: an APC without a normal routine is a kernel APC. */
    method Initialize(a: nat, hasNormal: bool, mode: Mode)
      requires Valid() && a !in q.inserted
      modifies this`q
      ensures Valid() && q == old(q).(apcs := old(q).apcs[a := if hasNormal then Normal(mode) else Special])
    {
      var apc := if hasNormal then Normal(mode) else Special;
      DefineKeeps(q, a, apc);
      q := q.(apcs := q.apcs[a := apc]);
    }

    /** KeInsertQueueApc: refused if the APC is inserted already or the thread is about to exit. */
    method InsertQueue(a: nat, w: Wait) returns (ok: bool)
      requires Valid() && a in q.apcs
      modifies this`q, this`kernelPending, this`userPending, this`queued
      ensures Valid() && (ok <==> old(a !in q.inserted && !exiting))
      ensures !ok ==> unchanged(this)
      ensures ok ==> q == Pushed(old(q), a) && queued == old(queued) + multiset{a}
      ensures ok ==> (kernelPending <==> old(kernelPending) || q.apcs[a].ApcMode() == KernelMode)
      ensures ok ==> (userPending <==>
                      old(userPending) || (q.apcs[a].ApcMode() == UserMode && w.other && w.waiting && w.alertable
                                           && w.unblocked))
    {
      if a in q.inserted || exiting {
        return false;
      }
      var kernel := q.apcs[a].ApcMode() == KernelMode;
      var wakes := !kernel && w.other && w.waiting && (w.alertable || userPending) && w.unblocked;
      Enqueue(a);
      kernelPending, userPending := kernelPending || kernel, userPending || wakes;
      ok := true;
    }

    method Enqueue(a: nat)
      requires Valid() && a in q.apcs && a !in q.inserted
      modifies this`q, this`queued
      ensures Valid() && q == Pushed(old(q), a) && queued == old(queued) + multiset{a}
    {
      var q' := Pushed(q, a);
      PushKeeps(q, a);
      ConservedPush(queued, delivered, q.inserted, a);
      q, queued := q', queued + multiset{a};
    }

    method EnterRegion(guarded: bool)
      requires Valid()
      modifies this`kernelDisable, this`specialDisable
      ensures Valid()
      ensures kernelDisable == old(kernelDisable) + (if guarded then 0 else 1)
              && specialDisable == old(specialDisable) + (if guarded then 1 else 0)
    {
      if guarded {
        specialDisable := specialDisable + 1;
      } else {
        kernelDisable := kernelDisable + 1;
      }
    }

    /**
     Leaving the last region asks for a delivery if kernel APCs wait.  The level is always dispatch
     when the source tests it, so it never delivers by itself.
     */
    method LeaveRegion(guarded: bool) returns (interrupt: bool)
      requires Valid()
      modifies this`kernelDisable, this`specialDisable, this`kernelPending
      ensures Valid() && (interrupt ==> kernelPending) && (!interrupt ==> kernelPending == old(kernelPending))
      ensures kernelDisable == old(kernelDisable) - (if guarded then 0 else 1)
              && specialDisable == old(specialDisable) - (if guarded then 1 else 0)
      ensures interrupt <==> q.kernelList != [] && (if guarded then specialDisable else kernelDisable) == 0
    {
      if guarded {
        specialDisable := specialDisable - 1;
      } else {
        kernelDisable := kernelDisable - 1;
      }
      interrupt := (if guarded then specialDisable else kernelDisable) == 0 && q.kernelList != [];
      if interrupt {
        kernelPending := true;
      }
    }

    /** KeTestAlertThread. */
    method TestAlertThread(mode: Mode) returns (state: bool)
      requires Valid()
      modifies this`alertedKernel, this`alertedUser, this`userPending
      ensures Valid() && state == old(if mode == KernelMode then alertedKernel else alertedUser)
      ensures alertedKernel == (mode != KernelMode && old(alertedKernel))
              && alertedUser == (mode != UserMode && old(alertedUser))
      ensures userPending <==> old(userPending) || (!state && mode == UserMode && q.userList != [])
    {
      if mode == KernelMode {
        state, alertedKernel := alertedKernel, false;
      } else {
        state, alertedUser := alertedUser, false;
        if !state && q.userList != [] {
          userPending := true;
        }
      }
    }

    /** Below APC level: nothing is under way, or a normal routine is. */
    ghost predicate Interruptible()
      reads this
    {
      frames == [] || frames[|frames| - 1].NormalPart?
    }

    /** The head of deliver_apc's loop and what follows the loop. */
    method Next(user: bool)
      requires Valid() && Interruptible() && (user ==> frames == [])
      modifies this`q, this`kernelPending, this`userPending, this`alertedKernel, this`frames, this`delivered
      ensures Valid()
      ensures var next := NextFrame(old(q), user, inProgress, kernelDisable != 0, old(userPending));
              && WentOn(next, old(q), q, old(frames), frames, old(delivered), delivered)
              && (userPending <==> old(userPending) && !(next.Some? && next.value.UserPart?))
              && (alertedKernel <==> old(alertedKernel) && (next.None? || next.value.SpecialPart?))
      ensures kernelPending <==> old(kernelPending) && old(q).kernelList == []
    {
      if q.kernelList != [] {
        kernelPending := false;
        if !IsSpecial(q.apcs, q.kernelList[0]) && (inProgress || kernelDisable != 0) {
          return;
        }
        StartKernel(user);
        return;
      }
      if !user || !userPending || kernelDisable != 0 {
        return;
      }
      StartUser();
    }

    /** Takes the first kernel APC off the queue and starts its kernel routine. */
    method StartKernel(user: bool)
      requires Valid() && Interruptible() && (user ==> frames == [])
      requires q.kernelList != [] && (IsSpecial(q.apcs, q.kernelList[0]) || (!inProgress && kernelDisable == 0))
      modifies this`q, this`alertedKernel, this`frames, this`delivered
      ensures Valid() && q == Popped(old(q), KernelMode) && delivered == old(delivered) + multiset{old(q).kernelList[0]}
      ensures alertedKernel <==> old(alertedKernel) && IsSpecial(q.apcs, old(q).kernelList[0])
      ensures var a := old(q).kernelList[0];
              frames == old(frames) + [if IsSpecial(q.apcs, a) then SpecialPart(a, user) else KernelPart(a, user)]
    {
      var a := q.kernelList[0];
      if IsSpecial(q.apcs, a) {
        frames := frames + [SpecialPart(a, user)];
      } else {
        alertedKernel := false;
        frames := frames + [KernelPart(a, user)];
      }
      a := DequeueKernel();
    }

    method DequeueKernel() returns (a: nat)
      requires Valid() && q.kernelList != []
      modifies this`q, this`delivered
      ensures Valid() && a == old(q).kernelList[0] && q == Popped(old(q), KernelMode)
              && delivered == old(delivered) + multiset{a}
    {
      a := q.kernelList[0];
      var q' := Popped(q, KernelMode);
      PopKernel(q);
      ConservedPop(queued, delivered, q.inserted, a);
      q, delivered := q', delivered + multiset{a};
    }

    /** The queue is not empty, as userPending is set. */
    method StartUser()
      requires Valid() && frames == [] && userPending && kernelDisable == 0
      modifies this`q, this`userPending, this`alertedKernel, this`frames, this`delivered
      ensures Valid() && !userPending && !alertedKernel && old(q).userList != [] && q == Popped(old(q), UserMode)
      ensures delivered == old(delivered) + multiset{old(q).userList[0]} && frames == [UserPart(old(q).userList[0])]
    {
      userPending := false;
      alertedKernel := false;
      frames := [UserPart(q.userList[0])];
      var _ := DequeueUser();
    }

    method DequeueUser() returns (a: nat)
      requires Valid() && q.userList != [] && !userPending
      modifies this`q, this`delivered
      ensures Valid() && a == old(q).userList[0] && q == Popped(old(q), UserMode)
              && delivered == old(delivered) + multiset{a}
    {
      a := q.userList[0];
      var q' := Popped(q, UserMode);
      PopUser(q);
      ConservedPop(queued, delivered, q.inserted, a);
      q, delivered := q', delivered + multiset{a};
    }

    /** deliver_apc is entered at passive level, so with nothing under way or on top of a normal routine. */
    method DeliverApc(user: bool)
      requires Valid() && Interruptible() && (user ==> frames == [])
      modifies this`q, this`kernelPending, this`userPending, this`alertedKernel, this`frames, this`delivered
      ensures Valid() && (specialDisable != 0 ==> unchanged(this)) && (specialDisable == 0 ==> !kernelPending)
      ensures specialDisable == 0 ==>
                WentOn(NextFrame(old(q), user, inProgress, kernelDisable != 0, old(userPending)), old(q), q,
                       old(frames), frames, old(delivered), delivered)
    {
      if specialDisable != 0 {
        return;
      }
      kernelPending := false;
      Next(user);
    }

    /** A kernel routine returns; it may have removed the normal routine, which otherwise starts now. */
    method KernelReturned(nulls: bool)
      requires Valid() && frames != [] && !frames[|frames| - 1].NormalPart?
      modifies this`q, this`kernelPending, this`userPending, this`inProgress, this`alertedKernel, this`alertedUser,
               this`frames, this`delivered
      ensures Valid()
      ensures var top, below := old(frames)[|old(frames)| - 1], old(frames)[..|old(frames)| - 1];
              if top.UserPart? then q == old(q) && frames == below && delivered == old(delivered)
              else if top.KernelPart? && !nulls then
                q == old(q) && frames == below + [NormalPart(top.a, top.user)] && delivered == old(delivered)
                    && inProgress
              else
                && inProgress == old(inProgress)
                && WentOn(NextFrame(old(q), top.user, inProgress, kernelDisable != 0, old(userPending)), old(q), q,
                          below, frames, old(delivered), delivered)
    {
      var top := frames[|frames| - 1];
      frames := frames[..|frames| - 1];
      match top
      case SpecialPart(_, user) =>
        Next(user);
      case KernelPart(a, user) =>
        if nulls {
          inProgress := false;
          Next(user);
        } else {
          inProgress := true;
          frames := frames + [NormalPart(a, user)];
        }
      case UserPart(_) =>
        if nulls {
          var _ := TestAlertThread(UserMode);
        }
    }

    /** A normal routine returns, and the delivery goes on. */
    method NormalReturned()
      requires Valid() && frames != [] && frames[|frames| - 1].NormalPart?
      modifies this`q, this`kernelPending, this`userPending, this`inProgress, this`alertedKernel, this`frames,
               this`delivered
      ensures Valid() && !inProgress && |old(frames)| == 1
      ensures WentOn(NextFrame(old(q), old(frames)[0].user, false, kernelDisable != 0, old(userPending)), old(q), q,
                     [], frames, old(delivered), delivered)
    {
      var user := frames[|frames| - 1].user;
      frames := frames[..|frames| - 1];
      inProgress := false;
      Next(user);
    }

    /** Any run: sections of this thread and of others, in any order; those that cannot happen are skipped. */
    method Run(ops: seq<Op>)
      requires Valid()
      modifies this
      ensures Valid() && old(queued) <= queued && old(delivered) <= delivered
    {
      for i := 0 to |ops|
        invariant Valid() && old(queued) <= queued && old(delivered) <= delivered
      {
        Step(ops[i]);
      }
    }

    method Step(op: Op)
      requires Valid()
      modifies this
      ensures Valid() && old(queued) <= queued && old(delivered) <= delivered
    {
      match op
      case Init(a, hasNormal, mode) =>
        if a !in q.inserted {
          Initialize(a, hasNormal, mode);
        }
      case Insert(a, wait) =>
        if a in q.apcs {
          var _ := InsertQueue(a, wait);
        }
      case Exit =>
        exiting := true;
      case Deliver(_) =>
        DeliveryStep(op);
      case KernelReturns(_) =>
        DeliveryStep(op);
      case NormalReturns =>
        DeliveryStep(op);
      case _ =>
        RegionStep(op);
    }

    method RegionStep(op: Op)
      requires Valid()
      modifies this
      ensures Valid() && queued == old(queued) && delivered == old(delivered)
    {
      if op.Enter? {
        EnterRegion(op.guarded);
      } else if op.Leave? {
        var _ := LeaveRegion(op.guarded);
      } else if op.TestAlert? {
        var _ := TestAlertThread(op.mode);
      }
    }

    method DeliveryStep(op: Op)
      requires Valid()
      modifies this
      ensures Valid() && queued == old(queued) && old(delivered) <= delivered
    {
      if op.Deliver? {
        if frames == [] || (!op.user && frames[|frames| - 1].NormalPart?) {
          DeliverApc(op.user);
        }
      } else if frames != [] {
        if op.KernelReturns? && !frames[|frames| - 1].NormalPart? {
          KernelReturned(op.nulls);
        } else if op.NormalReturns? && frames[|frames| - 1].NormalPart? {
          NormalReturned();
        }
      }
    }

    /**
     The whole loop of deliver_apc when nothing interferes: no routine queues an APC or enters a
     region.  It ends; all special APCs run, and the normal ones unless they are held back.
     */
    method DeliverKernel(nulls: set<nat>) returns (trace: seq<Event>)
      requires Valid() && specialDisable == 0
      modifies this`q, this`kernelPending, this`alertedKernel, this`delivered
      ensures Valid() && q.apcs == old(q).apcs
      ensures Delivered(q.apcs, old(q).kernelList, q.kernelList, inProgress || kernelDisable != 0, nulls, trace)
    {
      trace := [];
      kernelPending := false;
      ghost var apcs, list, done: seq<nat>, blocked := q.apcs, q.kernelList, [], inProgress || kernelDisable != 0;
      assert SpecialsFirst(apcs, list);
      while q.kernelList != [] && (IsSpecial(q.apcs, q.kernelList[0]) || !(inProgress || kernelDisable != 0))
        invariant Valid() && q.apcs == apcs && Delivering(apcs, list, done, q.kernelList, blocked, nulls, trace)
        decreases |q.kernelList|
      {
        DeliveringStep(apcs, list, done, q.kernelList, blocked, nulls, trace);
        var a, calls := DeliverOne(nulls);
        trace := trace + calls;
        done := done + [a];
      }
      assert SpecialsFirst(apcs, q.kernelList);
      DeliveredAre(apcs, list, done, q.kernelList, blocked, nulls, trace);
    }

    method DeliverOne(nulls: set<nat>) returns (a: nat, calls: seq<Event>)
      requires Valid() && q.kernelList != []
      modifies this`q, this`kernelPending, this`alertedKernel, this`delivered
      ensures Valid() && a == old(q).kernelList[0] && q.kernelList == old(q).kernelList[1..] && q.apcs == old(q).apcs
      ensures calls == RoutinesOf(q.apcs, a, nulls)
    {
      kernelPending := false;
      if !IsSpecial(q.apcs, q.kernelList[0]) {
        alertedKernel := false;
      }
      a := DequeueKernel();
      calls := [KernelRoutine(a)];
      if !IsSpecial(q.apcs, a) && a !in nulls {
        calls := calls + [NormalRoutine(a)];
      }
    }
  }
}
