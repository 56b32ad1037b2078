/**
 The scheduler of one processor: src/sched/sched.cpp and the priority levels of src/sched/sched.hpp.

 Threads are numbers.  Between two steps of an operation a thread may be on no queue without the
 status that goes with that; such threads are `loose`.  Outside operations there are none.
 */
module Sched {
  import opened Seqs
  import opened Wrappers

  datatype ThreadPriority = Idle | Lowest | BelowNormal | Normal | AboveNormal | Highest | TimeCritical

  datatype ProcessPriority = IdleClass | NormalClass | HighClass | RealTimeClass | BelowNormalClass | AboveNormalClass

  datatype Status = Ready | Running | Waiting | Sleeping | Terminated

  datatype Thread = Thread(priority: ThreadPriority, process: ProcessPriority, status: Status, dontBlock: bool,
                           sleepEnd: nat)

  const LEVELS: nat := 32
  const WORD: nat := 0x1_0000_0000_0000_0000

  /** The level of a thread: always one of 1 to 31. */
  function Level(t: Thread): (l: nat)
    ensures 1 <= l < LEVELS
    ensures l >= 16 ==> t.process.RealTimeClass?
  {
    if t.priority.Idle? then (if t.process.RealTimeClass? then 16 else 1)
    else if t.priority.TimeCritical? then (if t.process.RealTimeClass? then 31 else 15)
    else
      var base := match t.process
        case IdleClass => 4
        case NormalClass => 8
        case HighClass => 13
        case RealTimeClass => 14
        case BelowNormalClass => 6
        case AboveNormalClass => 10;
      base + match t.priority
        case Lowest => -2
        case BelowNormal => -1
        case AboveNormal => 1
        case Highest => 2
        case _ => 0
  }

  /** The priorities in their order. */
  function Rank(p: ThreadPriority): int {
    match p
    case Idle => 0
    case Lowest => 1
    case BelowNormal => 2
    case Normal => 3
    case AboveNormal => 4
    case Highest => 5
    case TimeCritical => 6
  }

  /** The process classes in their order. */
  function ClassRank(p: ProcessPriority): int {
    match p
    case IdleClass => 0
    case BelowNormalClass => 1
    case NormalClass => 2
    case AboveNormalClass => 3
    case HighClass => 4
    case RealTimeClass => 5
  }

  /** A higher priority in the same process never means a lower level, but for one family: in a
      real-time process an idle thread is above those from lowest to above normal. */
  lemma LevelMonotoneIff(t: Thread, u: Thread)
    requires t.process == u.process && Rank(t.priority) <= Rank(u.priority)
    ensures Level(t) <= Level(u) <==>
            !(t.process.RealTimeClass? && t.priority.Idle? && 0 < Rank(u.priority) < Rank(Highest))
  {
  }

  /** A higher process class never means a lower level. */
  lemma LevelMonotoneInClass(t: Thread, u: Thread)
    requires t.priority == u.priority && ClassRank(t.process) <= ClassRank(u.process)
    ensures Level(t) <= Level(u)
  {
  }

  /** The thread of a real-time process is above every thread of the others exactly if it is idle,
      highest or time-critical. */
  lemma RealTimeAboveIff(t: Thread)
    requires t.process.RealTimeClass?
    ensures (forall u: Thread :: !u.process.RealTimeClass? ==> Level(u) < Level(t)) <==>
            t.priority.Idle? || t.priority.Highest? || t.priority.TimeCritical?
  {
    var critical := Thread(TimeCritical, NormalClass, Ready, false, 0);
    assert Level(critical) == 15;
  }

  // ----- the ready queues -----

  ghost predicate InLevel(levels: seq<seq<nat>>, l: int, t: nat) {
    0 <= l < |levels| && t in levels[l]
  }

  /** Bit l of the summary is set exactly if level l is not empty; lv says which level a thread is in. */
  ghost predicate LevelsOk(levels: seq<seq<nat>>, summary: seq<bool>, lv: map<nat, nat>) {
    && |levels| == |summary| == LEVELS
    && (forall l {:trigger summary[l]} :: 0 <= l < LEVELS ==> (summary[l] <==> levels[l] != []))
    && (forall l {:trigger levels[l]} :: 0 <= l < LEVELS ==> Distinct(levels[l]))
    && (forall l, t {:trigger InLevel(levels, l, t)} :: InLevel(levels, l, t) <==> t in lv && lv[t] == l)
  }

  /** The highest level that is not empty; -1 if all are. */
  function Top(levels: seq<seq<nat>>): (h: int)
    ensures -1 <= h < |levels| && (h >= 0 ==> levels[h] != [])
    ensures forall l :: h < l < |levels| ==> levels[l] == []
  {
    if levels == [] then -1
    else if levels[|levels| - 1] != [] then |levels| - 1
    else Top(levels[..|levels| - 1])
  }

  lemma {:induction false} TopIs(levels: seq<seq<nat>>, h: int)
    requires -1 <= h < |levels| && (h >= 0 ==> levels[h] != [])
    requires forall l {:trigger levels[l]} :: h < l < |levels| ==> levels[l] == []
    ensures Top(levels) == h
  {
    if levels != [] && h < |levels| - 1 {
      TopIs(levels[..|levels| - 1], h);
    }
  }

  function Pushed(levels: seq<seq<nat>>, l: nat, t: nat): seq<seq<nat>>
    requires l < |levels|
  {
    levels[l := levels[l] + [t]]
  }

  function Popped(levels: seq<seq<nat>>, l: nat): seq<seq<nat>>
    requires l < |levels| && levels[l] != []
  {
    levels[l := levels[l][1..]]
  }

  lemma PushKeeps(levels: seq<seq<nat>>, summary: seq<bool>, lv: map<nat, nat>, l: nat, t: nat)
    requires LevelsOk(levels, summary, lv) && l < LEVELS && t !in lv
    ensures LevelsOk(Pushed(levels, l, t), summary[l := true], lv[t := l])
  {
    var levels' := Pushed(levels, l, t);
    assert !InLevel(levels, l, t);
    assert Distinct(levels'[l]);
    forall k, u
      ensures InLevel(levels', k, u) <==> u in lv[t := l] && lv[t := l][u] == k
    {
      assert InLevel(levels, k, u) <==> u in lv && lv[u] == k;
      assert k == l ==> (u in levels'[l] <==> u in levels[l] || u == t);
    }
  }

  lemma PopKeeps(levels: seq<seq<nat>>, summary: seq<bool>, lv: map<nat, nat>, l: nat)
    requires LevelsOk(levels, summary, lv) && l < LEVELS && levels[l] != []
    ensures levels[l][0] in lv
    ensures LevelsOk(Popped(levels, l), summary[l := |levels[l]| > 1], lv - {levels[l][0]})
  {
    var t, levels' := levels[l][0], Popped(levels, l);
    assert levels[l] == [t] + levels'[l];
    assert InLevel(levels, l, t);
    assert t !in levels'[l];
    forall k, u
      ensures InLevel(levels', k, u) <==> u in lv - {t} && (lv - {t})[u] == k
    {
      assert InLevel(levels, k, u) <==> u in lv && lv[u] == k;
    }
  }

  // ----- threads and the queue each one is on -----

  datatype State = State(threads: map<nat, Thread>, lv: map<nat, nat>, sleeping: seq<nat>, destroy: seq<nat>,
                         current: nat, idle: nat, loose: set<nat>)

  /** A thread is on the queue that goes with its status, and on no other; the idle thread may be ready
      without being queued. */
  ghost predicate ThreadOk(s: State, t: nat) {
    && t in s.threads
    && var status := s.threads[t].status;
       if t in s.loose then t !in s.lv && t !in s.sleeping && t !in s.destroy
       else
         && (t in s.lv ==> status.Ready? && s.lv[t] == Level(s.threads[t]))
            && (status.Ready? ==> t in s.lv || t == s.idle)
         && (t in s.sleeping <==> status.Sleeping?) && (t in s.destroy <==> status.Terminated?)
         && (status.Running? ==> t == s.current)
         && (t == s.idle ==> status.Ready? || status.Running?)
  }

  ghost predicate EndsBefore(threads: map<nat, Thread>, a: nat, b: nat) {
    a in threads && b in threads && threads[a].sleepEnd <= threads[b].sleepEnd
  }

  ghost predicate Sorted(threads: map<nat, Thread>, list: seq<nat>) {
    forall i, j {:trigger EndsBefore(threads, list[i], list[j])} :: 0 <= i <= j < |list| ==>
          EndsBefore(threads, list[i], list[j])
  }

  ghost predicate ThreadsOk(s: State) {
    && s.idle in s.threads && s.current in s.threads && s.lv.Keys <= s.threads.Keys && s.loose <= s.threads.Keys
    && Distinct(s.sleeping) && Distinct(s.destroy) && Sorted(s.threads, s.sleeping)
    && (forall t {:trigger ThreadOk(s, t)} :: t in s.threads ==> ThreadOk(s, t))
    && (forall t :: t in s.destroy ==> t in s.threads)
  }

  /** s' differs from s only in thread t. */
  ghost predicate OnlyDiffers(s: State, s': State, t: nat) {
    && s'.threads.Keys == s.threads.Keys && s'.idle == s.idle
    && forall u {:trigger SameThread(s, s', u)} :: u in s.threads && u != t ==> SameThread(s, s', u)
  }

  ghost predicate SameThread(s: State, s': State, u: nat) {
    && u in s.threads && u in s'.threads && s'.threads[u] == s.threads[u]
    && (u in s'.lv <==> u in s.lv) && (u in s.lv ==> s'.lv[u] == s.lv[u]) && (u in s'.sleeping <==> u in s.sleeping)
       && (u in s'.destroy <==> u in s.destroy)
    && (u in s'.loose <==> u in s.loose)
    && (s'.current == s.current || (u !in s.loose ==> !s.threads[u].status.Running?))
  }

  /** To keep the invariant it is enough to look at the thread that changed. */
  lemma DiffersKeeps(s: State, s': State, t: nat)
    requires ThreadsOk(s) && OnlyDiffers(s, s', t) && t in s.threads && ThreadOk(s', t) && s'.current in s'.threads
    requires s'.lv.Keys <= s'.threads.Keys && s'.loose <= s'.threads.Keys && Distinct(s'.sleeping)
             && Distinct(s'.destroy) && Sorted(s'.threads, s'.sleeping)
    requires forall u :: u in s'.destroy ==> u in s'.threads
    ensures ThreadsOk(s')
  {
    forall u | u in s'.threads
      ensures ThreadOk(s', u)
    {
      assert ThreadOk(s, u);
      assert u != t ==> SameThread(s, s', u);
    }
  }

  /** The order of the sleepers only depends on their deadlines. */
  lemma SameEnds(threads: map<nat, Thread>, threads': map<nat, Thread>, list: seq<nat>)
    requires Sorted(threads, list) && forall u :: u in list && u in threads ==>
               u in threads' && threads'[u].sleepEnd == threads[u].sleepEnd
    ensures Sorted(threads', list)
  {
    forall i, j | 0 <= i <= j < |list|
      ensures EndsBefore(threads', list[i], list[j])
    {
      assert EndsBefore(threads, list[i], list[j]) && list[i] in list && list[j] in list;
    }
  }

  /** A thread that is on no queue gets another status, or is let loose. */
  lemma StatusKeeps(s: State, t: nat, th: Thread, loose: set<nat>)
    requires ThreadsOk(s) && t in s.threads && t !in s.lv && t !in s.sleeping && t !in s.destroy
    requires loose == s.loose + {t}
             || (loose == s.loose - {t} && (th.status.Waiting? ==> t != s.idle)
                 && (th.status.Running? ==> t == s.current)
                                       && (th.status.Ready? ==> t == s.idle) && !th.status.Sleeping?
                                          && !th.status.Terminated?)
    ensures ThreadsOk(s.(threads := s.threads[t := th], loose := loose))
  {
    var s' := s.(threads := s.threads[t := th], loose := loose);
    SameEnds(s.threads, s'.threads, s.sleeping);
    forall u | u in s.threads && u != t
      ensures SameThread(s, s', u)
    {
    }
    DiffersKeeps(s, s', t);
  }

  /** A loose thread is put on a ready queue. */
  lemma ReadyKeeps(s: State, t: nat, th: Thread, l: nat)
    requires ThreadsOk(s) && t in s.loose && th.status.Ready? && l == Level(th)
    ensures ThreadsOk(s.(threads := s.threads[t := th], lv := s.lv[t := l], loose := s.loose - {t}))
  {
    var s' := s.(threads := s.threads[t := th], lv := s.lv[t := l], loose := s.loose - {t});
    assert ThreadOk(s, t);
    SameEnds(s.threads, s'.threads, s.sleeping);
    forall u | u in s.threads && u != t
      ensures SameThread(s, s', u)
    {
    }
    DiffersKeeps(s, s', t);
  }

  /** A thread is taken off its ready queue. */
  lemma TakeKeeps(s: State, t: nat)
    requires ThreadsOk(s) && t in s.lv
    ensures t in s.threads && t !in s.loose && ThreadsOk(s.(lv := s.lv - {t}, loose := s.loose + {t}))
  {
    var s' := s.(lv := s.lv - {t}, loose := s.loose + {t});
    assert ThreadOk(s, t);
    forall u | u in s.threads && u != t
      ensures SameThread(s, s', u)
    {
    }
    DiffersKeeps(s, s', t);
  }

  /** A loose thread starts to run, when no other does. */
  lemma RunKeeps(s: State, t: nat, th: Thread)
    requires ThreadsOk(s) && t in s.loose && th.status.Running?
             && (s.current !in s.loose ==> !s.threads[s.current].status.Running?)
    ensures ThreadsOk(s.(threads := s.threads[t := th], current := t, loose := s.loose - {t}))
  {
    var s' := s.(threads := s.threads[t := th], current := t, loose := s.loose - {t});
    assert ThreadOk(s, t);
    SameEnds(s.threads, s'.threads, s.sleeping);
    forall u | u in s.threads && u != t
      ensures SameThread(s, s', u)
    {
      assert ThreadOk(s, u);
    }
    DiffersKeeps(s, s', t);
  }

  /** A loose thread ends. */
  lemma BuryKeeps(s: State, t: nat)
    requires ThreadsOk(s) && t in s.loose && t != s.idle && s.threads[t].status.Terminated?
    ensures ThreadsOk(s.(destroy := s.destroy + [t], loose := s.loose - {t}))
  {
    var s' := s.(destroy := s.destroy + [t], loose := s.loose - {t});
    assert ThreadOk(s, t);
    forall u | u in s.threads && u != t
      ensures SameThread(s, s', u)
    {
    }
    DiffersKeeps(s, s', t);
  }

  lemma {:induction false} RemoveSorted(threads: map<nat, Thread>, list: seq<nat>, t: nat)
    requires Sorted(threads, list)
    ensures Sorted(threads, Remove(list, t)) && forall u :: u in Remove(list, t) ==> u in list
  {
    if list != [] {
      var rest := list[1..];
      assert list == [list[0]] + rest;
      TailSorted(threads, list);
      if list[0] != t {
        RemoveSorted(threads, rest, t);
        PrependSorted(threads, list, Remove(rest, t));
      }
    }
  }

  lemma TailSorted(threads: map<nat, Thread>, list: seq<nat>)
    requires Sorted(threads, list) && list != []
    ensures Sorted(threads, list[1..])
  {
    var rest := list[1..];
    forall i, j | 0 <= i <= j < |rest|
      ensures EndsBefore(threads, rest[i], rest[j])
    {
      assert EndsBefore(threads, list[i + 1], list[j + 1]);
    }
  }

  lemma PrependSorted(threads: map<nat, Thread>, list: seq<nat>, rest: seq<nat>)
    requires Sorted(threads, list) && list != [] && Sorted(threads, rest) && forall u :: u in rest ==> u in list
    ensures Sorted(threads, [list[0]] + rest)
  {
    var s := [list[0]] + rest;
    forall i, j | 0 <= i <= j < |s|
      ensures EndsBefore(threads, s[i], s[j])
    {
      if i > 0 {
        assert EndsBefore(threads, rest[i - 1], rest[j - 1]);
      } else {
        assert s[j] in list;
        var k :| 0 <= k < |list| && list[k] == s[j];
        assert EndsBefore(threads, list[0], list[k]);
      }
    }
  }

  lemma SleepersKnown(s: State)
    requires ThreadsOk(s)
    ensures forall t :: t in s.sleeping ==> t in s.threads
  {
    forall t | t in s.sleeping
      ensures t in s.threads
    {
      var i :| 0 <= i < |s.sleeping| && s.sleeping[i] == t;
      assert EndsBefore(s.threads, s.sleeping[i], s.sleeping[i]);
    }
  }

  /** A sleeper is let loose. */
  lemma WakeKeeps(s: State, t: nat)
    requires ThreadsOk(s) && t in s.sleeping
    ensures t in s.threads && t !in s.loose && s.threads[t].status.Sleeping?
    ensures ThreadsOk(s.(sleeping := Remove(s.sleeping, t), loose := s.loose + {t}))
  {
    var s' := s.(sleeping := Remove(s.sleeping, t), loose := s.loose + {t});
    SleepersKnown(s);
    assert ThreadOk(s, t);
    RemoveFacts(s.sleeping, t);
    RemoveSorted(s.threads, s.sleeping, t);
    forall u | u in s.threads && u != t
      ensures SameThread(s, s', u)
    {
    }
    DiffersKeeps(s, s', t);
  }

  /** Inserting t before position k: all before it end no later, all from k on end later. */
  lemma InsertSorted(threads: map<nat, Thread>, list: seq<nat>, k: nat, t: nat)
    requires Sorted(threads, list) && k <= |list| && t in threads
    requires forall i :: 0 <= i < k ==> EndsBefore(threads, list[i], t)
    requires forall i :: k <= i < |list| ==> EndsBefore(threads, t, list[i])
    ensures Sorted(threads, list[..k] + [t] + list[k..])
  {
    var s := list[..k] + [t] + list[k..];
    forall i, j | 0 <= i <= j < |s|
      ensures EndsBefore(threads, s[i], s[j])
    {
      var i', j' := if i < k then i else i - 1, if j < k then j else j - 1;
      if i != k && j != k {
        assert EndsBefore(threads, list[i'], list[j']);
      } else if i != k {
        assert EndsBefore(threads, list[i'], t);
      } else if j != k {
        assert EndsBefore(threads, t, list[j']);
      }
    }
  }

  /** A loose thread goes to sleep. */
  lemma SleepKeeps(s: State, t: nat, th: Thread, k: nat)
    requires ThreadsOk(s) && t in s.loose && t != s.idle && th.status.Sleeping? && k <= |s.sleeping|
    requires forall i :: 0 <= i < k ==> s.sleeping[i] in s.threads && s.threads[s.sleeping[i]].sleepEnd <= th.sleepEnd
    requires k < |s.sleeping| ==> s.sleeping[k] in s.threads && s.threads[s.sleeping[k]].sleepEnd > th.sleepEnd
    ensures ThreadsOk(s.(threads := s.threads[t := th], sleeping := s.sleeping[..k] + [t] + s.sleeping[k..],
                         loose := s.loose - {t}))
  {
    var threads, list := s.threads[t := th], s.sleeping[..k] + [t] + s.sleeping[k..];
    var s' := s.(threads := threads, sleeping := list, loose := s.loose - {t});
    assert ThreadOk(s, t);
    assert s.sleeping == s.sleeping[..k] + s.sleeping[k..];
    SameEnds(s.threads, threads, s.sleeping);
    forall i | k <= i < |s.sleeping|
      ensures EndsBefore(threads, t, s.sleeping[i])
    {
      assert EndsBefore(threads, s.sleeping[k], s.sleeping[i]);
    }
    InsertSorted(threads, s.sleeping, k, t);
    forall u | u in s.threads && u != t
      ensures SameThread(s, s', u)
    {
    }
    assert Distinct(list);
    DiffersKeeps(s, s', t);
  }

  /** A new thread, on no queue yet. */
  lemma AddKeeps(s: State, t: nat, th: Thread)
    requires ThreadsOk(s) && t !in s.threads
    ensures ThreadsOk(s.(threads := s.threads[t := th], loose := s.loose + {t}))
  {
    var s' := s.(threads := s.threads[t := th], loose := s.loose + {t});
    SleepersKnown(s);
    SameEnds(s.threads, s'.threads, s.sleeping);
    forall u | u in s'.threads
      ensures ThreadOk(s', u)
    {
      assert u != t ==> ThreadOk(s, u);
    }
  }

  /** A waiting thread is gone. */
  lemma WaitingGone(s: State, t: nat)
    requires ThreadsOk(s) && t in s.threads && t !in s.loose && s.threads[t].status.Waiting? && t != s.current
    ensures ThreadsOk(s.(threads := s.threads - {t}))
  {
    var s' := s.(threads := s.threads - {t});
    assert ThreadOk(s, t);
    SameEnds(s.threads, s'.threads, s.sleeping);
    forall u | u in s'.threads
      ensures ThreadOk(s', u)
    {
      assert ThreadOk(s, u);
    }
  }

  /** The first thread of the destroy queue is gone. */
  lemma DropKeeps(s: State)
    requires ThreadsOk(s) && s.destroy != [] && s.destroy[0] != s.current && s.destroy[0] !in s.loose
    ensures ThreadsOk(s.(threads := s.threads - {s.destroy[0]}, destroy := s.destroy[1..]))
  {
    var t, s' := s.destroy[0], s.(threads := s.threads - {s.destroy[0]}, destroy := s.destroy[1..]);
    assert s.destroy == [t] + s.destroy[1..] && t in s.destroy;
    assert ThreadOk(s, t) && t !in s.destroy[1..];
    SameEnds(s.threads, s'.threads, s.sleeping);
    forall u | u in s'.threads
      ensures ThreadOk(s', u)
    {
      assert ThreadOk(s, u);
    }
  }

  // ----- the scheduler -----

  /** The first thread of the highest level; if there is none, the idle thread, unless the current one runs on. */
  function Choice(levels: seq<seq<nat>>, running: bool, idle: nat): Option<nat> {
    if Top(levels) >= 0 then Some(levels[Top(levels)][0]) else if running then None else Some(idle)
  }

  /** The levels without that thread. */
  function Rest(levels: seq<seq<nat>>): seq<seq<nat>> {
    if Top(levels) >= 0 then Popped(levels, Top(levels)) else levels
  }

  lemma RestTop(levels: seq<seq<nat>>)
    ensures |Rest(levels)| == |levels| && Top(Rest(levels)) <= Top(levels)
  {
    assert forall k {:trigger levels[k]} :: Top(levels) < k < |levels| ==> Rest(levels)[k] == levels[k];
  }

  lemma PushedTop(levels: seq<seq<nat>>, l: nat, t: nat)
    requires l < |levels|
    ensures Top(Pushed(levels, l, t)) == if l > Top(levels) then l else Top(levels)
  {
    var levels' := Pushed(levels, l, t);
    assert levels'[l] != [] && forall k {:trigger levels'[k]} :: 0 <= k < |levels| && k != l ==>
             levels'[k] == levels[k];
    TopIs(levels', if l > Top(levels) then l else Top(levels));
  }

  /** The level of the running thread against the highest of those that are ready after it was chosen
      and the previous one, of level l, was queued. */
  lemma TopAfter(levels: seq<seq<nat>>, l: nat, t: nat)
    requires l < |levels| && Top(levels) >= 0
    ensures Top(Pushed(Rest(levels), l, t)) <= Top(levels) <==> l <= Top(levels)
  {
    RestTop(levels);
    PushedTop(Rest(levels), l, t);
  }

  datatype Op =
    | DoYield
    | DoBlock(ends: bool)
    | DoUnblock(t: nat)
    | DoSleep(now: nat, ns: nat)
    | DoQuantumEnd(now: nat, limit: nat)
    | DoQueue(t: nat, th: Thread)
    | DoDestroy

  /** k is the place of a deadline: behind all that are not later, in front of the first that is. */
  ghost predicate InsertedAt(threads: map<nat, Thread>, sleeping: seq<nat>, end: nat, k: int) {
    && 0 <= k <= |sleeping|
    && (forall i :: 0 <= i < k ==> sleeping[i] in threads && threads[sleeping[i]].sleepEnd <= end)
    && (k < |sleeping| ==> sleeping[k] in threads && threads[sleeping[k]].sleepEnd > end)
  }

  /** The current thread and the sleepers are as they were. */
  ghost predicate SameThreads(threads: map<nat, Thread>, threads': map<nat, Thread>, sleeping: seq<nat>, current: nat) {
    && current in threads && current in threads' && threads'[current] == threads[current]
    && forall t :: t in sleeping ==> t in threads && t in threads' && threads'[t] == threads[t]
  }

  /** The levels once these threads are queued, in order. */
  ghost function Awake(threads: map<nat, Thread>, levels: seq<seq<nat>>, list: seq<nat>): (r: seq<seq<nat>>)
    requires |levels| == LEVELS && forall t :: t in list ==> t in threads
    ensures |r| == LEVELS
  {
    if list == [] then levels
    else
      var last := list[|list| - 1];
      Pushed(Awake(threads, levels, list[..|list| - 1]), Level(threads[last]), last)
  }

  /** The threads once these are made ready. */
  ghost function Readied(threads: map<nat, Thread>, list: seq<nat>): (r: map<nat, Thread>)
    requires forall t :: t in list ==> t in threads
    ensures r.Keys == threads.Keys
  {
    if list == [] then threads
    else
      var before, last := Readied(threads, list[..|list| - 1]), list[|list| - 1];
      before[last := before[last].(status := Ready)]
  }

  ghost predicate Expired(threads: map<nat, Thread>, t: nat, now: nat) {
    t in threads && threads[t].sleepEnd <= now
  }

  /** The first `woken` of the sleepers, all expired, were made ready. */
  ghost predicate Waking(threads0: map<nat, Thread>, levels0: seq<seq<nat>>, sleeping0: seq<nat>, woken: nat, now: nat,
                         threads: map<nat, Thread>, levels: seq<seq<nat>>, sleeping: seq<nat>, current: nat) {
    && |levels0| == LEVELS && woken <= |sleeping0| && sleeping == sleeping0[woken..]
       && (forall t :: t in sleeping0 ==> t in threads0)
    && (forall i :: 0 <= i < woken ==> Expired(threads0, sleeping0[i], now))
    && levels == Awake(threads0, levels0, sleeping0[..woken]) && threads == Readied(threads0, sleeping0[..woken])
    && SameThreads(threads0, threads, sleeping, current)
  }

  lemma WakingStep(threads0: map<nat, Thread>, levels0: seq<seq<nat>>, sleeping0: seq<nat>, woken: nat, now: nat,
                   threads: map<nat, Thread>, levels: seq<seq<nat>>, sleeping: seq<nat>, current: nat)
    requires Waking(threads0, levels0, sleeping0, woken, now, threads, levels, sleeping, current)
    requires sleeping != [] && sleeping[0] in threads && threads[sleeping[0]].sleepEnd <= now && Distinct(sleeping)
             && sleeping[0] != current
    ensures |levels| == LEVELS
    ensures var t := sleeping[0];
            Waking(threads0, levels0, sleeping0, woken + 1, now, threads[t := threads[t].(status := Ready)],
                   Pushed(levels, Level(threads[t]), t), sleeping[1..], current)
  {
    var t := sleeping[0];
    assert t == sleeping0[woken] && t in sleeping;
    assert sleeping0[..woken + 1][..woken] == sleeping0[..woken] && sleeping0[..woken + 1][woken] == t;
    assert sleeping[1..] == sleeping0[woken + 1..] && t !in sleeping[1..];
    assert forall u :: u in sleeping[1..] ==> u in sleeping;
  }

  class Scheduler {
    const idle: nat
    var threads: map<nat, Thread>
    var levels: seq<seq<nat>>
    var summary: seq<bool>
    var sleeping: seq<nat>
    var destroyQueue: seq<nat>
    var current: nat
    ghost var lv: map<nat, nat>
    ghost var loose: set<nat>

    ghost function View(): State
      reads this
    {
      State(threads, lv, sleeping, destroyQueue, current, idle, loose)
    }

    ghost predicate Inv()
      reads this
    {
      LevelsOk(levels, summary, lv) && ThreadsOk(View())
    }

    ghost predicate Valid()
      reads this
    {
      Inv() && loose == {} && threads[current].status.Running?
    }

    /** No thread that is ready is above the one that runs. */
    ghost predicate NoneAbove()
      reads this
      requires Inv()
    {
      Top(levels) <= Level(threads[current])
    }

    /** The thread that starts the processor runs; the idle thread is ready, on no queue. */
    constructor (idle: nat, first: nat, idleThread: Thread, firstThread: Thread)
      requires idle != first && idleThread.status.Ready? && firstThread.status.Running?
      ensures Valid() && current == first && this.idle == idle && Top(levels) == -1 && sleeping == []
      ensures threads == map[idle := idleThread, first := firstThread]
    {
      this.idle := idle;
      threads := map[idle := idleThread, first := firstThread];
      levels, summary := seq(LEVELS, _ => []), seq(LEVELS, _ => false);
      sleeping, destroyQueue, current := [], [], first;
      lv, loose := map[], {};
    }

    ghost method Loosen(t: nat)
      requires Inv() && t in threads && t !in lv && t !in sleeping && t !in destroyQueue
      modifies this`loose
      ensures Inv() && loose == old(loose) + {t}
    {
      StatusKeeps(View(), t, threads[t], loose + {t});
      assert threads[t := threads[t]] == threads;
      loose := loose + {t};
    }

    /** A thread becomes ready, at the end of the queue of its level. */
    method QueuePrivate(t: nat)
      requires Inv() && t in loose
      modifies this`threads, this`levels, this`summary, this`lv, this`loose
      ensures Inv() && loose == old(loose) - {t} && t in old(threads)
      ensures threads == old(threads)[t := old(threads)[t].(status := Ready)]
      ensures levels == Pushed(old(levels), Level(old(threads)[t]), t)
    {
      assert ThreadOk(View(), t);
      var th := threads[t].(status := Ready);
      var l := Level(th);
      ReadyKeeps(View(), t, th, l);
      PushKeeps(levels, summary, lv, l, t);
      threads := threads[t := th];
      levels := Pushed(levels, l, t);
      summary := summary[l := true];
      lv, loose := lv[t := l], loose - {t};
    }

    /** The number of the highest set bit, counted from 1; 0 if there is none. */
    method FindLevel() returns (index: nat)
      requires Inv()
      ensures index == Top(levels) + 1
    {
      index := LEVELS;
      while index > 0 && !summary[index - 1]
        invariant index <= LEVELS && forall l {:trigger levels[l]} :: index <= l < LEVELS ==> levels[l] == []
      {
        index := index - 1;
        assert summary[index] <==> levels[index] != [];
      }
      assert index > 0 ==> (summary[index - 1] <==> levels[index - 1] != []);
      TopIs(levels, index - 1);
    }

    /** Takes the first thread off a level. */
    method PopLevel(l: nat) returns (t: nat)
      requires Inv() && l < LEVELS && levels[l] != []
      modifies this`levels, this`summary, this`lv, this`loose
      ensures Inv() && t == old(levels)[l][0] && t in threads && t !in old(loose) && loose == old(loose) + {t}
              && levels == Popped(old(levels), l)
      ensures Level(threads[t]) == l
    {
      t := levels[l][0];
      assert InLevel(levels, l, t);
      assert ThreadOk(View(), t);
      PopKeeps(levels, summary, lv, l);
      TakeKeeps(View(), t);
      var empty := |levels[l]| == 1;
      levels := Popped(levels, l);
      if empty {
        summary := summary[l := false];
      }
      assert summary == old(summary)[l := |old(levels)[l]| > 1];
      lv, loose := lv - {t}, loose + {t};
    }

    /** With all levels empty and nothing running, the idle thread is on no queue. */
    lemma IdleIsFree()
      requires Inv() && Top(levels) == -1 && idle !in loose && (current !in loose ==> !threads[current].status.Running?)
      ensures idle !in lv && idle !in sleeping && idle !in destroyQueue
    {
      assert ThreadOk(View(), idle);
      assert idle in lv ==> InLevel(levels, lv[idle], idle);
    }

    /** Buries the current thread if it has ended, and takes the thread to run next. */
    method UpdateSchedule() returns (next: Option<nat>)
      requires Inv() && loose <= {current} && !threads[current].status.Ready?
      requires (threads[current].status.Terminated? <==> current in loose) && (current in loose ==> current != idle)
      modifies this`levels, this`summary, this`destroyQueue, this`lv, this`loose
      ensures Inv() && loose == (if next.Some? then {next.value} else {})
      ensures destroyQueue == if threads[current].status.Terminated? then old(destroyQueue) + [current]
              else old(destroyQueue)
      ensures next == Choice(old(levels), threads[current].status.Running?, idle) && levels == Rest(old(levels))
      ensures next.Some? ==> next.value in threads && next.value != current
      ensures Top(old(levels)) >= 0 ==> Level(threads[next.value]) == Top(old(levels))
    {
      if threads[current].status.Terminated? {
        BuryKeeps(View(), current);
        destroyQueue := destroyQueue + [current];
        loose := loose - {current};
      }
      assert loose == {} && ThreadOk(View(), current);
      var index := FindLevel();
      if index == 0 {
        if !threads[current].status.Running? {
          IdleIsFree();
          assert ThreadOk(View(), idle);
          Loosen(idle);
          return Some(idle);
        }
        return None;
      }
      assert InLevel(levels, index - 1, levels[index - 1][0]);
      var t := PopLevel(index - 1);
      next := Some(t);
    }

    /** The chosen thread becomes the current one and runs. */
    method SwitchTo(next: nat)
      requires Inv() && loose == {next} && next != current && !threads[current].status.Running?
      modifies this`threads, this`current, this`loose
      ensures Valid() && current == next && next in old(threads)
              && threads == old(threads)[next := old(threads)[next].(status := Running)]
    {
      assert ThreadOk(View(), next);
      var th := threads[next].(status := Running);
      RunKeeps(View(), next, th);
      current, threads, loose := next, threads[next := th], loose - {next};
    }

    /** The current thread is on no queue. */
    lemma CurrentIsFree()
      requires Inv() && current !in loose && threads[current].status.Running?
      ensures current !in lv && current !in sleeping && current !in destroyQueue
    {
      assert ThreadOk(View(), current);
    }

    /** What is left of the levels once a thread was chosen and the current one is queued again. */
    ghost function Requeued(): seq<seq<nat>>
      reads this
      requires Inv()
    {
      Pushed(Rest(levels), Level(threads[current]), current)
    }

    /** Gives the processor to the chosen thread; the current one is queued again. */
    method Preempt(next: nat)
      requires Inv() && loose == {next} && next != current && threads[current].status.Running?
      modifies this`threads, this`levels, this`summary, this`current, this`lv, this`loose
      ensures Valid() && current == next && levels == Pushed(old(levels), Level(old(threads[current])), old(current))
      ensures next in old(threads) && old(current) in old(threads)
              && Level(threads[current]) == old(Level(threads[next]))
      ensures threads == old(threads)[old(current) := old(threads[current]).(status := Ready)][next :=
              old(threads)[next].(status := Running)]
    {
      CurrentIsFree();
      assert ThreadOk(View(), next);
      Loosen(current);
      QueuePrivate(current);
      assert loose == {next};
      SwitchTo(next);
    }

    /** Lets another ready thread run, if there is one. */
    method Yield()
      requires Valid()
      modifies this
      ensures Valid() && sleeping == old(sleeping) && destroyQueue == old(destroyQueue)
      ensures Top(old(levels)) == -1 ==> current == old(current) && threads == old(threads) && levels == old(levels)
      ensures Top(old(levels)) >= 0 ==> current == old(levels)[Top(old(levels))][0] && levels == old(Requeued())
      ensures Top(old(levels)) >= 0 ==> current in old(threads)
      ensures Top(old(levels)) >= 0 ==>
                threads == old(threads)[old(current) := old(threads[current]).(status := Ready)][current :=
                    old(threads)[current].(status := Running)]
      ensures Top(old(levels)) >= 0 ==> Level(threads[current]) == Top(old(levels))
      // the processor is given away even to a lower level: afterwards no ready thread is above the
      // running one exactly if the old one was not above all that were ready
      ensures NoneAbove() <==> Top(old(levels)) == -1 || old(Level(threads[current])) <= Top(old(levels))
    {
      var next := UpdateSchedule();
      if next.None? {
        return;
      }
      Preempt(next.value);
      TopAfter(old(levels), old(Level(threads[current])), old(current));
    }

    /** The current thread has stopped running; the chosen one goes on. */
    method SwitchAway()
      requires Inv() && loose <= {current} && !threads[current].status.Ready? && !threads[current].status.Running?
      requires (threads[current].status.Terminated? <==> current in loose) && (current in loose ==> current != idle)
      modifies this
      ensures Valid() && sleeping == old(sleeping) && NoneAbove()
      ensures Some(current) == Choice(old(levels), false, idle) && levels == Rest(old(levels))
      ensures current != old(current) && current in old(threads)
      ensures threads == old(threads)[current := old(threads)[current].(status := Running)]
      ensures destroyQueue == if old(threads[current]).status.Terminated? then old(destroyQueue) + [old(current)]
              else old(destroyQueue)
    {
      RestTop(levels);
      var next := UpdateSchedule();
      assert Top(levels) <= Level(threads[next.value]);
      SwitchTo(next.value);
    }

    /** The current thread waits or ends, unless it was unblocked already.  There is always a thread to go on with. */
    method Block(status: Status)
      requires Valid() && (status.Waiting? || status.Terminated?) && current != idle
      modifies this
      ensures Valid() && sleeping == old(sleeping)
      ensures old(threads[current]).dontBlock ==>
                current == old(current) && levels == old(levels)
                    && threads == old(threads)[current := old(threads[current]).(dontBlock := false)]
      ensures !old(threads[current]).dontBlock ==>
                && Some(current) == Choice(old(levels), false, idle) && levels == Rest(old(levels))
                   && current in old(threads) && current != old(current)
                && threads == old(threads)[old(current) := old(threads[current]).(status := status)][current :=
                   old(threads)[current].(status := Running)]
                && destroyQueue == if status.Terminated? then old(destroyQueue) + [old(current)] else old(destroyQueue)
      ensures !old(threads[current]).dontBlock ==> NoneAbove()
    {
      CurrentIsFree();
      var th := threads[current];
      if th.dontBlock {
        StatusKeeps(View(), current, th.(dontBlock := false), loose - {current});
        threads := threads[current := th.(dontBlock := false)];
        loose := loose - {current};
        return;
      }
      var left := if status.Waiting? then loose - {current} else loose + {current};
      StatusKeeps(View(), current, th.(status := status), left);
      threads := threads[current := th.(status := status)];
      loose := left;
      SwitchAway();
    }

    /** The current thread waits, and the chosen one goes on. */
    method StopHere() returns (t: nat, th: Thread)
      requires Valid() && current != idle
      modifies this
      ensures Valid() && sleeping == old(sleeping) && destroyQueue == old(destroyQueue) && NoneAbove()
      ensures Some(current) == Choice(old(levels), false, idle) && levels == Rest(old(levels))
      ensures t == old(current) && current != t && current in old(threads)
              && th == old(threads[current]).(status := Waiting)
      ensures threads == old(threads)[t := th][current := old(threads)[current].(status := Running)]
    {
      CurrentIsFree();
      t, th := current, threads[current].(status := Waiting);
      StatusKeeps(View(), t, th, loose - {t});
      threads := threads[t := th];
      loose := loose - {t};
      SwitchAway();
    }

    /**
     The other branch of yield: the current thread may not run on this processor any more, and goes to
     the scheduler of one where it may.  If there is none it waits, on no queue of any processor.
     */
    method YieldAway(target: Scheduler?)
      requires Valid() && current != idle
      requires target != null ==> target != this && target.Valid() && current !in target.threads
      modifies this, target
      ensures Valid() && sleeping == old(sleeping) && destroyQueue == old(destroyQueue) && NoneAbove()
      ensures Some(current) == Choice(old(levels), false, idle) && levels == Rest(old(levels))
      ensures current != old(current) && current in old(threads)
      ensures var t, th, ran := old(current), old(threads[current]),
              old(threads)[current := old(threads)[current].(status := Running)];
              if target == null then threads == ran[t := th.(status := Waiting)]
              else
                && threads == ran - {t} && target.Valid() && target.current == old(target.current)
                && target.threads == old(target.threads)[t := th.(status := Ready)]
                && target.levels == Pushed(old(target.levels), Level(th), t)
    {
      var t, th := StopHere();
      if target != null {
        WaitingGone(View(), t);
        threads := threads - {t};
        target.Queue(t, th);
      }
    }

    /** Makes a waiting or sleeping thread ready.  A running one will not block the next time it tries to. */
    method Unblock(t: nat) returns (ok: bool)
      requires Valid() && t in threads
      modifies this
      ensures Valid() && current == old(current) && destroyQueue == old(destroyQueue)
      ensures var th := old(threads)[t];
              && (ok <==> th.status.Waiting? || th.status.Sleeping?)
              && levels == (if ok then Pushed(old(levels), Level(th), t) else old(levels))
              && sleeping == (if th.status.Sleeping? then Remove(old(sleeping), t) else old(sleeping))
              && threads == old(threads)[t := if ok then th.(status := Ready)
                                         else if th.status.Running? then th.(dontBlock := true) else th]
    {
      assert ThreadOk(View(), t);
      var th := threads[t];
      if !th.status.Waiting? && !th.status.Sleeping? {
        if th.status.Running? {
          StatusKeeps(View(), t, th.(dontBlock := true), loose - {t});
          threads := threads[t := th.(dontBlock := true)];
          loose := loose - {t};
        } else {
          assert threads[t := th] == threads;
        }
        return false;
      }
      if th.status.Sleeping? {
        WakeKeeps(View(), t);
        sleeping := Remove(sleeping, t);
        loose := loose + {t};
      } else {
        Loosen(t);
      }
      QueuePrivate(t);
      ok := true;
    }

    /** A thread that is new to the scheduler, or that waits, becomes ready. */
    method Queue(t: nat, th: Thread)
      requires Valid() && (t in threads ==> threads[t] == th && th.status.Waiting?)
      modifies this
      ensures Valid() && current == old(current) && sleeping == old(sleeping) && destroyQueue == old(destroyQueue)
      ensures threads == old(threads)[t := th.(status := Ready)] && levels == Pushed(old(levels), Level(th), t)
    {
      if t in threads {
        assert ThreadOk(View(), t);
        Loosen(t);
      } else {
        AddKeeps(View(), t, th);
        threads := threads[t := th];
        loose := loose + {t};
      }
      QueuePrivate(t);
    }

    /** The number of sleepers whose deadline is not after `end`. */
    method FindSleeper(end: nat) returns (k: nat)
      requires Inv()
      ensures k <= |sleeping|
      ensures forall i :: 0 <= i < k ==> sleeping[i] in threads && threads[sleeping[i]].sleepEnd <= end
      ensures k < |sleeping| ==> sleeping[k] in threads && threads[sleeping[k]].sleepEnd > end
    {
      SleepersKnown(View());
      k := 0;
      while k < |sleeping|
        invariant k <= |sleeping| && forall i :: 0 <= i < k ==>
                    sleeping[i] in threads && threads[sleeping[i]].sleepEnd <= end
      {
        assert sleeping[k] in sleeping;
        if threads[sleeping[k]].sleepEnd > end {
          return;
        }
        k := k + 1;
      }
    }

    /** The current thread sleeps until now + ns, in 64-bit arithmetic, unless it was unblocked already. */
    method Sleep(now: nat, ns: nat)
      requires Valid() && current != idle && now < WORD && ns < WORD
      modifies this
      ensures Valid() && destroyQueue == old(destroyQueue)
      ensures ns == 0 ==>
                current == old(current) && levels == old(levels) && threads == old(threads) && sleeping == old(sleeping)
      ensures ns != 0 && old(threads[current]).dontBlock ==>
                sleeping == old(sleeping) && levels == old(levels) && current == old(current)
                    && threads == old(threads)[current := old(threads[current]).(dontBlock := false)]
      ensures ns != 0 && !old(threads[current]).dontBlock ==>
                Slept(old(threads), old(levels), old(sleeping), old(current), (now + ns) % WORD) && NoneAbove()
    {
      if ns == 0 {
        return;
      }
      CurrentIsFree();
      var th := threads[current];
      if th.dontBlock {
        StatusKeeps(View(), current, th.(dontBlock := false), loose - {current});
        threads := threads[current := th.(dontBlock := false)];
        loose := loose - {current};
        return;
      }
      var end := (now + ns) % WORD;
      var k := FindSleeper(end);
      var asleep := th.(sleepEnd := end, status := Sleeping);
      Loosen(current);
      SleepKeeps(View(), current, asleep, k);
      sleeping := sleeping[..k] + [current] + sleeping[k..];
      threads := threads[current := asleep];
      loose := loose - {current};
      assert InsertedAt(old(threads), old(sleeping), end, k);
      SwitchAway();
    }

    /** Thread t went to sleep until `end`, and the next one runs. */
    ghost predicate Slept(threads0: map<nat, Thread>, levels0: seq<seq<nat>>, sleeping0: seq<nat>, t: nat, end: nat)
      reads this
    {
      && t in threads0 && current in threads0 && current != t && Some(current) == Choice(levels0, false, idle)
         && levels == Rest(levels0)
      && threads == threads0[t := threads0[t].(sleepEnd := end, status := Sleeping)][current :=
         threads0[current].(status := Running)]
      && exists k {:trigger InsertedAt(threads0, sleeping0, end, k)} ::
           InsertedAt(threads0, sleeping0, end, k) && sleeping == sleeping0[..k] + [t] + sleeping0[k..]
    }

    /**
     Wakes sleepers whose deadline has passed, from the front of the queue.  The source removes
     entries while it iterates; `limit` is how many it gets to.
     */
    method WakeExpired(now: nat, limit: nat) returns (woken: nat)
      requires Valid()
      modifies this`threads, this`levels, this`summary, this`sleeping, this`lv, this`loose
      ensures Valid() && Waking(old(threads), old(levels), old(sleeping), woken, now, threads, levels, sleeping,
                                current)
    {
      woken := 0;
      SleepersKnown(View());
      assert old(sleeping)[..0] == [] && old(sleeping)[0..] == old(sleeping);
      while woken < limit && sleeping != [] && sleeping[0] in threads && threads[sleeping[0]].sleepEnd <= now
        invariant Valid() && Waking(old(threads), old(levels), old(sleeping), woken, now, threads, levels, sleeping,
                                    current)
        decreases |sleeping|
      {
        assert sleeping[0] != current by {
          CurrentIsFree();
        }
        WakingStep(old(threads), old(levels), old(sleeping), woken, now, threads, levels, sleeping, current);
        var _ := WakeFirst();
        woken := woken + 1;
      }
    }

    method WakeFirst() returns (t: nat)
      requires Valid() && sleeping != []
      modifies this`threads, this`levels, this`summary, this`sleeping, this`lv, this`loose
      ensures Valid() && t == old(sleeping)[0] && sleeping == old(sleeping)[1..] && t !in sleeping && t != current
              && t in old(threads)
      ensures threads == old(threads)[t := old(threads)[t].(status := Ready)]
              && levels == Pushed(old(levels), Level(old(threads)[t]), t)
    {
      t := sleeping[0];
      assert sleeping == [t] + sleeping[1..] && t !in sleeping[1..];
      WakeKeeps(View(), t);
      sleeping := Remove(sleeping, t);
      loose := loose + {t};
      QueuePrivate(t);
    }

    /** Wakes sleepers, then lets the first thread of the highest level run, if there is one. */
    method HandleQuantumEnd(now: nat, limit: nat) returns (woken: nat)
      requires Valid()
      modifies this
      ensures Valid() && destroyQueue == old(destroyQueue)
      ensures woken <= |old(sleeping)| && sleeping == old(sleeping)[woken..]
      ensures forall i :: 0 <= i < woken ==> Expired(old(threads), old(sleeping)[i], now)
      ensures forall t :: t in old(sleeping) ==> t in old(threads)
      ensures var awake, ready := Awake(old(threads), old(levels), old(sleeping)[..woken]),
              Readied(old(threads), old(sleeping)[..woken]);
              if Top(awake) == -1 then current == old(current) && levels == awake && threads == ready
              else
                && current == awake[Top(awake)][0]
                   && levels == Pushed(Rest(awake), Level(old(threads[current])), old(current))
                && current in ready && old(current) in ready
                && threads == ready[old(current) := ready[old(current)].(status := Ready)][current :=
                   ready[current].(status := Running)]
      ensures var awake := Awake(old(threads), old(levels), old(sleeping)[..woken]);
              && (Top(awake) >= 0 ==> Level(threads[current]) == Top(awake))
              && (NoneAbove() <==> Top(awake) == -1 || old(Level(threads[current])) <= Top(awake))
    {
      woken := WakeExpired(now, limit);
      ghost var awake := levels;
      var next := UpdateSchedule();
      if next.None? {
        return;
      }
      Preempt(next.value);
      TopAfter(awake, old(Level(threads[current])), old(current));
    }

    /** The thread destroyer takes the first thread that has ended. */
    method DestroyNext()
      requires Valid() && destroyQueue != []
      modifies this`threads, this`destroyQueue
      ensures Valid() && threads == old(threads) - {old(destroyQueue)[0]} && destroyQueue == old(destroyQueue)[1..]
    {
      assert destroyQueue[0] in destroyQueue && ThreadOk(View(), destroyQueue[0]);
      DropKeeps(View());
      threads := threads - {destroyQueue[0]};
      destroyQueue := destroyQueue[1..];
    }

    /** Any run; operations that cannot happen are skipped.  The idle thread neither blocks nor sleeps. */
    method Run(ops: seq<Op>)
      requires Valid()
      modifies this
      ensures Valid()
    {
      for i := 0 to |ops|
        invariant Valid()
      {
        Step(ops[i]);
      }
    }

    /** A sleeper is only woken by an unblock, or by a quantum end after its deadline. */
    method Step(op: Op)
      requires Valid()
      modifies this
      ensures Valid()
      ensures forall t :: t in old(sleeping) && t !in sleeping ==>
                op == DoUnblock(t) || (op.DoQuantumEnd? && Expired(old(threads), t, op.now))
    {
      match op
      case DoYield =>
        Yield();
      case DoBlock(ends) =>
        if current != idle {
          Block(if ends then Terminated else Waiting);
        }
      case DoUnblock(t) =>
        if t in threads {
          var _ := Unblock(t);
          RemoveFacts(old(sleeping), t);
        }
      case DoSleep(now, ns) =>
        if current != idle {
          Sleep(now % WORD, ns % WORD);
        }
      case DoQuantumEnd(now, limit) =>
        var woken := HandleQuantumEnd(now, limit);
        assert old(sleeping) == old(sleeping)[..woken] + old(sleeping)[woken..];
      case DoQueue(t, th) =>
        if t !in threads {
          Queue(t, th);
        } else if threads[t].status.Waiting? {
          Queue(t, threads[t]);
        }
      case DoDestroy =>
        if destroyQueue != [] {
          DestroyNext();
        }
    }
  }

  /** A thread of level 15 runs and one of level 1 is ready: after a yield that one runs. */
  method LowerLevelRuns() returns (s: Scheduler)
    ensures fresh(s) && s.Valid() && s.current == 3 && Level(s.threads[3]) == 1
    ensures 2 in s.threads && s.threads[2].status.Ready? && Level(s.threads[2]) == 15 && !s.NoneAbove()
  {
    var first, low := Thread(TimeCritical, NormalClass, Running, false, 0),
        Thread(Idle, NormalClass, Waiting, false, 0);
    s := new Scheduler(1, 2, Thread(Idle, IdleClass, Ready, false, 0), first);
    assert s.levels[1] == [];
    PushedTop(s.levels, 1, 3);
    s.Queue(3, low);
    assert s.levels[1] == [3] && Top(s.levels) == 1;
    s.Yield();
  }
}
