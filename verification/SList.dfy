/**
 The interlocked singly linked list of src/std/list.cpp.

 Push, pop and flush are instruction sequences ending in a 128-bit compare-exchange on a header
 that packs a 16-bit depth and a 48-bit sequence (the low word) with the first entry (the high
 word).  The model interleaves single instructions of any number of threads: the two words of the
 header are first read by two separate loads, and the owner of an entry that is not on the list
 may overwrite it at any time.  The abstract stack exists only as the replay of the log of
 successful compare-exchanges.
 */
module SList {
  import opened Wrappers

  type Ptr = nat
  type Tid = nat

  const NULL: Ptr := 0
  const DEPTHS: nat := 0x1_0000
  const SEQUENCES: nat := 0x1_0000_0000_0000
  const WORD: nat := 0x1_0000_0000_0000_0000

  // ----- the header -----

  datatype Header = Header(low: nat, next: Ptr)

  function Depth(low: nat): nat {
    low % DEPTHS
  }

  function Sequence(low: nat): nat {
    low / DEPTHS
  }

  /** `lea rbx, [rax + 0x10001]`: a 64-bit addition, so a full depth carries into the sequence. */
  function PushTag(low: nat): nat {
    (low + 0x1_0001) % WORD
  }

  /** `dec bx`: only the low 16 bits change. */
  function PopTag(low: nat): nat {
    low - Depth(low) + (Depth(low) + DEPTHS - 1) % DEPTHS
  }

  /** `xor bx, bx` */
  function FlushTag(low: nat): nat {
    low - Depth(low)
  }

  // ----- the abstract stack -----

  /** One successful compare-exchange and the value it returns to its caller. */
  datatype Event = Pushed(entry: Ptr, oldFirst: Ptr) | Popped(entry: Ptr) | Flushed(first: Ptr)

  function First(stack: seq<Ptr>): Ptr {
    At(stack, 0)
  }

  /** Entry i of the stack, or the null link past its end. */
  function At(stack: seq<Ptr>, i: nat): Ptr {
    if i < |stack| then stack[i] else NULL
  }

  /** An atomic stack; a returned value that an atomic stack would not return is refused. */
  function Apply(stack: seq<Ptr>, e: Event): Option<seq<Ptr>> {
    match e
    case Pushed(entry, oldFirst) => if oldFirst == First(stack) then Some([entry] + stack) else None
    case Popped(entry) => if stack != [] && entry == stack[0] then Some(stack[1..]) else None
    case Flushed(first) => if first == First(stack) then Some([]) else None
  }

  function Replay(log: seq<Event>): Option<seq<Ptr>> {
    if log == [] then Some([])
    else
      match Replay(log[..|log| - 1])
      case None => None
      case Some(stack) => Apply(stack, log[|log| - 1])
  }

  function Pushes(log: seq<Event>): nat {
    if log == [] then 0
    else Pushes(log[..|log| - 1]) + if log[|log| - 1].Pushed? then 1 else 0
  }

  /** How far a log has moved the sequence: one for each push, and one more for a push onto
      2^16 - 1 entries (or 2^17 - 1, and so on), which carries out of the depth. */
  function Ticks(log: seq<Event>): nat {
    if log == [] then 0
    else
      var before := log[..|log| - 1];
      Ticks(before) + if log[|log| - 1].Pushed? then PushTicks(Replay(before)) else 0
  }

  function PushTicks(stack: Option<seq<Ptr>>): nat {
    if stack.Some? && |stack.value| % DEPTHS == DEPTHS - 1 then 2 else 1
  }

  /** What is left of a stack after pops. */
  ghost predicate Suffix(a: seq<Ptr>, b: seq<Ptr>) {
    |a| <= |b| && a == b[|b| - |a|..]
  }

  // ----- threads -----

  /** What a thread has in its registers: rax and rdx hold the expected header, rcx the next entry. */
  datatype Local =
    | Idle
    | PushLow(entry: Ptr)
    | PushNext(entry: Ptr, rax: nat)
    | PushLink(entry: Ptr, rax: nat, rdx: Ptr)
    | PushSwap(entry: Ptr, rax: nat, rdx: Ptr)
    | PopLow
    | PopNext(rax: nat)
    | PopLoad(rax: nat, rdx: Ptr)
    | PopSwap(rax: nat, rdx: Ptr, rcx: Ptr)
    | FlushLow
    | FlushNext(rax: nat)
    | FlushSwap(rax: nat, rdx: Ptr)
    | Faulted
  {
    predicate Pushing() {
      PushLow? || PushNext? || PushLink? || PushSwap?
    }

    predicate HasLow() {
      PushNext? || PushLink? || PushSwap? || PopNext? || PopLoad? || PopSwap? || FlushNext? || FlushSwap?
    }

    predicate HasNext() {
      PushLink? || PushSwap? || PopLoad? || PopSwap? || FlushSwap?
    }
  }

  datatype State = State(header: Header, mem: map<Ptr, Ptr>, locals: map<Tid, Local>, log: seq<Event>)

  datatype Action =
    | StartPush(t: Tid, entry: Ptr)
    | StartPop(t: Tid)
    | StartFlush(t: Tid)
    | Run(t: Tid)
    | Overwrite(entry: Ptr, value: Ptr)

  function Load(mem: map<Ptr, Ptr>, p: Ptr): Ptr {
    if p in mem then mem[p] else NULL
  }

  /** Whether p belongs to the list or to a push in flight. */
  ghost predicate Taken(s: State, p: Ptr) {
    || (Replay(s.log).Some? && p in Replay(s.log).value)
    || exists t :: t in s.locals && s.locals[t].Pushing() && s.locals[t].entry == p
  }

  /** Thread t executes its next instruction. */
  function Exec(s: State, t: Tid): State
    requires t in s.locals
  {
    var header := s.header;
    match s.locals[t]
    case Idle => s
    case Faulted => s
    case PushLow(e) => s.(locals := s.locals[t := PushNext(e, header.low)])
    case PushNext(e, rax) => s.(locals := s.locals[t := PushLink(e, rax, header.next)])
    case PushLink(e, rax, rdx) => s.(mem := s.mem[e := rdx], locals := s.locals[t := PushSwap(e, rax, rdx)])
    case PushSwap(e, rax, rdx) =>
      if header == Header(rax, rdx) then
        State(Header(PushTag(rax), e), s.mem, s.locals[t := Idle], s.log + [Pushed(e, rdx)])
      else
        s.(locals := s.locals[t := PushLink(e, header.low, header.next)])
    case PopLow => s.(locals := s.locals[t := PopNext(header.low)])
    case PopNext(rax) => s.(locals := s.locals[t := PopLoad(rax, header.next)])
    case PopLoad(rax, rdx) =>
      // the load goes through rdx without a test for the empty list
      if rdx == NULL then s.(locals := s.locals[t := Faulted])
      else s.(locals := s.locals[t := PopSwap(rax, rdx, Load(s.mem, rdx))])
    case PopSwap(rax, rdx, rcx) =>
      if header == Header(rax, rdx) then
        State(Header(PopTag(rax), rcx), s.mem, s.locals[t := Idle], s.log + [Popped(rdx)])
      else
        s.(locals := s.locals[t := PopLoad(header.low, header.next)])
    case FlushLow => s.(locals := s.locals[t := FlushNext(header.low)])
    case FlushNext(rax) => s.(locals := s.locals[t := FlushSwap(rax, header.next)])
    case FlushSwap(rax, rdx) =>
      if header == Header(rax, rdx) then
        State(Header(FlushTag(rax), NULL), s.mem, s.locals[t := Idle], s.log + [Flushed(rdx)])
      else
        s.(locals := s.locals[t := FlushSwap(header.low, header.next)])
  }

  /** The guards are what callers owe: an entry is pushed, or written, only by its owner. */
  ghost predicate Next(s: State, a: Action, s': State) {
    match a
    case StartPush(t, e) =>
      t in s.locals && s.locals[t].Idle? && e != NULL && !Taken(s, e) && s' == s.(locals := s.locals[t := PushLow(e)])
    case StartPop(t) => t in s.locals && s.locals[t].Idle? && s' == s.(locals := s.locals[t := PopLow])
    case StartFlush(t) => t in s.locals && s.locals[t].Idle? && s' == s.(locals := s.locals[t := FlushLow])
    case Run(t) => t in s.locals && s' == Exec(s, t)
    case Overwrite(e, v) => !Taken(s, e) && s' == s.(mem := s.mem[e := v])
  }

  ghost predicate Init(s: State) {
    s.header == Header(0, NULL) && s.log == [] && forall t :: t in s.locals ==> s.locals[t].Idle?
  }

  /** The sequence has not run out of its 48 bits. */
  ghost predicate InBounds(s: State) {
    Ticks(s.log) < SEQUENCES
  }

  // ----- the invariant -----

  /** The chain from `first` through memory is exactly `stack`. */
  ghost predicate Linked(stack: seq<Ptr>, first: Ptr, mem: map<Ptr, Ptr>) {
    && first == First(stack)
    && (forall i :: 0 <= i < |stack| ==>
          stack[i] != NULL && stack[i] in mem && mem[stack[i]] == At(stack, i + 1))
    && (forall i, j :: 0 <= i < j < |stack| ==> stack[i] != stack[j])
  }

  ghost predicate HeaderOk(s: State, stack: seq<Ptr>) {
    && Replay(s.log) == Some(stack)
    && Linked(stack, s.header.next, s.mem)
    && s.header.low < WORD
    && Depth(s.header.low) == |stack| % DEPTHS
    && Sequence(s.header.low) == Ticks(s.log)
  }

  /**
   If the sequence a thread read is still current, the first entry it read is either still the first
   or has left the list; while it is the first, the next entry a pop read is still the second.
   The depth is no help here: a list of 2^16 entries and an empty one have the same.
   */
  ghost predicate LocalOk(l: Local, header: Header, mem: map<Ptr, Ptr>, stack: seq<Ptr>) {
    && (l.Pushing() ==> l.entry != NULL && l.entry !in stack)
    && (l.HasLow() ==> Sequence(l.rax) <= Sequence(header.low))
    && (l.HasNext() && Sequence(l.rax) == Sequence(header.low) ==>
          l.rdx == header.next || (l.rdx != NULL && l.rdx !in stack))
    && (l.PushSwap? ==> l.entry in mem && mem[l.entry] == l.rdx)
    && (l.PopSwap? ==> l.rdx != NULL)
    && (l.PopSwap? && Sequence(l.rax) == Sequence(header.low) && l.rdx == header.next ==>
          l.rcx == Load(mem, header.next))
  }

  ghost predicate LocalsOk(s: State, stack: seq<Ptr>) {
    && (forall t :: t in s.locals ==> LocalOk(s.locals[t], s.header, s.mem, stack))
    && (forall t, u :: t in s.locals && u in s.locals && t != u && s.locals[t].Pushing() && s.locals[u].Pushing() ==>
          s.locals[t].entry != s.locals[u].entry)
  }

  ghost predicate Inv(s: State) {
    Replay(s.log).Some? && HeaderOk(s, Replay(s.log).value) && LocalsOk(s, Replay(s.log).value)
  }

  /** What the header can do from one instant to a later one. */
  ghost predicate Moved(s: State, s': State) {
    && Replay(s.log).Some? && Replay(s'.log).Some?
    && (|| Sequence(s.header.low) < Sequence(s'.header.low)
        || (&& Sequence(s.header.low) == Sequence(s'.header.low)
            && Suffix(Replay(s'.log).value, Replay(s.log).value)))
  }

  // ----- tags -----

  /** What the three operations do to the depth and the sequence. */
  lemma TagsCount(low: nat)
    requires low < WORD
    ensures var ticks := if Depth(low) == DEPTHS - 1 then 2 else 1;
            Sequence(low) + ticks < SEQUENCES ==>
              && PushTag(low) < WORD && Depth(PushTag(low)) == (Depth(low) + 1) % DEPTHS
              && Sequence(PushTag(low)) == Sequence(low) + ticks
    ensures PopTag(low) < WORD && Depth(PopTag(low)) == (Depth(low) + DEPTHS - 1) % DEPTHS
    ensures FlushTag(low) < WORD && Depth(FlushTag(low)) == 0
    ensures Sequence(PopTag(low)) == Sequence(low) == Sequence(FlushTag(low))
  {
    assert low == Sequence(low) * DEPTHS + Depth(low);
  }

  lemma LengthCounts(n: nat)
    ensures (n + 1) % DEPTHS == (n % DEPTHS + 1) % DEPTHS
    ensures n > 0 ==> (n - 1) % DEPTHS == (n % DEPTHS + DEPTHS - 1) % DEPTHS
  {
  }

  lemma LowIsItsFields(a: nat, b: nat)
    requires Sequence(a) == Sequence(b) && Depth(a) == Depth(b)
    ensures a == b
  {
    assert a == Sequence(a) * DEPTHS + Depth(a) && b == Sequence(b) * DEPTHS + Depth(b);
  }

  /** So 2^47 pushes are always within bounds. */
  lemma {:induction false} TicksBound(log: seq<Event>)
    ensures Pushes(log) <= Ticks(log) <= 2 * Pushes(log)
  {
    if log != [] {
      TicksBound(log[..|log| - 1]);
    }
  }

  // ----- preservation -----

  lemma ReplayAppend(log: seq<Event>, e: Event)
    ensures Replay(log).Some? ==> Replay(log + [e]) == Apply(Replay(log).value, e)
    ensures Ticks(log + [e]) == Ticks(log) + if e.Pushed? then PushTicks(Replay(log)) else 0
  {
    assert (log + [e])[..|log|] == log;
  }

  lemma PushKeepsLinked(stack: seq<Ptr>, first: Ptr, mem: map<Ptr, Ptr>, e: Ptr)
    requires Linked(stack, first, mem) && e != NULL && e !in stack && e in mem && mem[e] == first
    ensures Linked([e] + stack, e, mem)
  {
    var longer := [e] + stack;
    forall i | 0 <= i < |longer|
      ensures longer[i] != NULL && longer[i] in mem && mem[longer[i]] == At(longer, i + 1)
    {
      assert i > 0 ==> longer[i] == stack[i - 1];
    }
  }

  lemma PopKeepsLinked(stack: seq<Ptr>, first: Ptr, mem: map<Ptr, Ptr>)
    requires stack != [] && Linked(stack, first, mem)
    ensures Linked(stack[1..], First(stack[1..]), mem)
  {
    var tail := stack[1..];
    forall i | 0 <= i < |tail|
      ensures tail[i] != NULL && tail[i] in mem && mem[tail[i]] == At(tail, i + 1)
    {
      assert tail[i] == stack[i + 1];
    }
  }

  lemma WriteKeepsLinked(stack: seq<Ptr>, first: Ptr, mem: map<Ptr, Ptr>, e: Ptr, v: Ptr)
    requires Linked(stack, first, mem) && e !in stack
    ensures Linked(stack, first, mem[e := v])
  {
    forall i | 0 <= i < |stack|
      ensures stack[i] != e
    {
      assert stack[i] in stack;
    }
  }

  /** After the sequence moved, or the list lost its first entries, what other threads read is
      merely out of date. */
  lemma OthersStayOk(s: State, s': State, t: Tid, stack: seq<Ptr>, stack': seq<Ptr>)
    requires t in s.locals && LocalsOk(s, stack)
    requires s'.mem == s.mem && s'.locals == s.locals[t := Idle]
    requires Linked(stack, s.header.next, s.mem) && s'.header.next == First(stack')
    requires || (Sequence(s.header.low) < Sequence(s'.header.low) && s.locals[t].Pushing()
                 && stack' == [s.locals[t].entry] + stack)
             || (Sequence(s.header.low) == Sequence(s'.header.low) && Suffix(stack', stack) && stack' != stack)
    ensures LocalsOk(s', stack')
  {
    if Suffix(stack', stack) {
      assert First(stack) !in stack';
      assert forall p :: p in stack' ==> p in stack;
    }
    forall u | u in s'.locals
      ensures LocalOk(s'.locals[u], s'.header, s'.mem, stack')
    {
      assert LocalOk(s.locals[u], s.header, s.mem, stack);
    }
  }

  lemma PopFacts(s: State, t: Tid)
    requires Inv(s) && t in s.locals && s.locals[t].PopSwap?
    requires s.header == Header(s.locals[t].rax, s.locals[t].rdx)
    ensures var stack := Replay(s.log).value;
            stack != [] && s.locals[t].rdx == stack[0] && s.locals[t].rcx == First(stack[1..])
  {
    var stack := Replay(s.log).value;
    assert LocalOk(s.locals[t], s.header, s.mem, stack);
    assert stack[0] in s.mem;
    assert |stack| > 1 ==> stack[1..][0] == stack[1];
  }

  lemma PushSwapKeepsInv(s: State, t: Tid)
    requires Inv(s) && t in s.locals && InBounds(Exec(s, t))
    requires s.locals[t].PushSwap? && s.header == Header(s.locals[t].rax, s.locals[t].rdx)
    ensures Inv(Exec(s, t)) && Moved(s, Exec(s, t))
  {
    var l, s', stack := s.locals[t], Exec(s, t), Replay(s.log).value;
    ReplayAppend(s.log, Pushed(l.entry, l.rdx));
    assert Replay(s'.log) == Some([l.entry] + stack);
    TagsCount(s.header.low);
    LengthCounts(|stack|);
    assert LocalOk(l, s.header, s.mem, stack);
    PushKeepsLinked(stack, l.rdx, s.mem, l.entry);
    assert HeaderOk(s', [l.entry] + stack);
    OthersStayOk(s, s', t, stack, [l.entry] + stack);
  }

  lemma PopSwapKeepsInv(s: State, t: Tid)
    requires Inv(s) && t in s.locals
    requires s.locals[t].PopSwap? && s.header == Header(s.locals[t].rax, s.locals[t].rdx)
    ensures Inv(Exec(s, t)) && Moved(s, Exec(s, t))
  {
    var l, s', stack := s.locals[t], Exec(s, t), Replay(s.log).value;
    PopFacts(s, t);
    ReplayAppend(s.log, Popped(l.rdx));
    assert Replay(s'.log) == Some(stack[1..]);
    TagsCount(s.header.low);
    LengthCounts(|stack|);
    PopKeepsLinked(stack, l.rdx, s.mem);
    assert HeaderOk(s', stack[1..]);
    OthersStayOk(s, s', t, stack, stack[1..]);
  }

  lemma FlushSwapKeepsInv(s: State, t: Tid)
    requires Inv(s) && t in s.locals
    requires s.locals[t].FlushSwap? && s.header == Header(s.locals[t].rax, s.locals[t].rdx)
    ensures Inv(Exec(s, t))
    ensures Moved(s, Exec(s, t))
  {
    var l, s', stack := s.locals[t], Exec(s, t), Replay(s.log).value;
    ReplayAppend(s.log, Flushed(l.rdx));
    assert Replay(s'.log) == Some([]);
    TagsCount(s.header.low);
    if stack != [] {
      OthersStayOk(s, s', t, stack, []);
    }
  }

  /** A step that leaves the header alone keeps the invariant if it keeps what each thread knows. */
  lemma QuietKeepsInv(s: State, s': State, t: Tid)
    requires Inv(s) && s'.header == s.header && s'.log == s.log
    requires t in s.locals && t in s'.locals && s'.locals == s.locals[t := s'.locals[t]]
    requires s'.mem == s.mem || (s.locals[t].PushLink? && s'.mem == s.mem[s.locals[t].entry := s.locals[t].rdx])
    requires LocalOk(s'.locals[t], s.header, s'.mem, Replay(s.log).value)
    requires s'.locals[t].Pushing() ==>
               (s.locals[t].Pushing() && s'.locals[t].entry == s.locals[t].entry) || !Taken(s, s'.locals[t].entry)
    ensures Inv(s')
  {
    var l, stack := s.locals[t], Replay(s.log).value;
    assert LocalOk(l, s.header, s.mem, stack);
    if s'.mem != s.mem {
      WriteKeepsLinked(stack, s.header.next, s.mem, l.entry, l.rdx);
      assert stack != [] ==> stack[0] in stack;
    }
    forall u | u in s'.locals
      ensures LocalOk(s'.locals[u], s'.header, s'.mem, stack)
    {
      assert LocalOk(s.locals[u], s.header, s.mem, stack);
    }
  }

  lemma RunLocalOk(s: State, t: Tid, stack: seq<Ptr>)
    requires t in s.locals && LocalOk(s.locals[t], s.header, s.mem, stack)
    requires Exec(s, t).log == s.log
    requires s.header.next == First(stack)
    ensures var l, s' := s.locals[t], Exec(s, t);
            && t in s'.locals && s'.header == s.header && s'.locals == s.locals[t := s'.locals[t]]
            && (s'.mem == s.mem || (l.PushLink? && s'.mem == s.mem[l.entry := l.rdx]))
            && (s'.locals[t].Pushing() ==> l.Pushing() && s'.locals[t].entry == l.entry)
            && LocalOk(s'.locals[t], s.header, s'.mem, stack)
  {
  }

  /** Loads, the write of a link, and a failed exchange. */
  lemma RunKeepsInv(s: State, t: Tid)
    requires Inv(s) && t in s.locals && Exec(s, t).log == s.log
    ensures Inv(Exec(s, t)) && Exec(s, t).header == s.header
  {
    RunLocalOk(s, t, Replay(s.log).value);
    QuietKeepsInv(s, Exec(s, t), t);
  }

  lemma CallerStepKeepsInv(s: State, a: Action, s': State)
    requires Inv(s) && Next(s, a, s') && !a.Run?
    ensures Inv(s') && s'.header == s.header && s'.log == s.log
  {
    var stack := Replay(s.log).value;
    if a.Overwrite? {
      WriteKeepsLinked(stack, s.header.next, s.mem, a.entry, a.value);
      assert stack != [] ==> stack[0] in stack;
      forall u | u in s'.locals
        ensures LocalOk(s'.locals[u], s'.header, s'.mem, stack)
      {
        assert LocalOk(s.locals[u], s.header, s.mem, stack);
      }
    } else {
      QuietKeepsInv(s, s', a.t);
    }
  }

  /** Each step keeps the invariant, and moves the sequence forward or only shortens the list. */
  lemma StepKeepsInv(s: State, a: Action, s': State)
    requires Inv(s) && Next(s, a, s') && InBounds(s')
    ensures Inv(s')
    ensures Moved(s, s')
  {
    if !a.Run? {
      CallerStepKeepsInv(s, a, s');
    } else if s'.log == s.log {
      RunKeepsInv(s, a.t);
    } else {
      match s.locals[a.t] {
        case PushSwap(_, _, _) => PushSwapKeepsInv(s, a.t);
        case PopSwap(_, _, _) => PopSwapKeepsInv(s, a.t);
        case FlushSwap(_, _) => FlushSwapKeepsInv(s, a.t);
      }
    }
  }

  // ----- results -----

  ghost predicate IsRun(states: seq<State>, actions: seq<Action>) {
    && |states| == |actions| + 1
    && Init(states[0])
    && (forall i {:trigger StepAt(states, actions, i)} :: 0 <= i < |actions| ==> StepAt(states, actions, i))
  }

  ghost predicate StepAt(states: seq<State>, actions: seq<Action>, i: nat) {
    i < |actions| && i + 1 < |states| && InBounds(states[i + 1]) && Next(states[i], actions[i], states[i + 1])
  }

  lemma RunPrefix(states: seq<State>, actions: seq<Action>, n: nat)
    requires IsRun(states, actions) && n <= |actions|
    ensures IsRun(states[..n + 1], actions[..n])
  {
    var states', actions' := states[..n + 1], actions[..n];
    forall i {:trigger StepAt(states', actions', i)} | 0 <= i < n
      ensures StepAt(states', actions', i)
    {
      assert StepAt(states, actions, i);
    }
  }

  /** Any interleaving is linearizable: the compare-exchanges, in the order they succeeded and with
      the values they returned, are a history of an atomic stack, and the memory holds that stack. */
  lemma {:induction false} EveryRunIsLinearizable(states: seq<State>, actions: seq<Action>)
    requires IsRun(states, actions)
    ensures var last := states[|actions|];
            && Inv(last)
            && Replay(last.log).Some?
            && Linked(Replay(last.log).value, last.header.next, last.mem)
  {
    var n := |actions|;
    if n > 0 {
      RunPrefix(states, actions, n - 1);
      EveryRunIsLinearizable(states[..n], actions[..n - 1]);
      assert StepAt(states, actions, n - 1);
      StepKeepsInv(states[n - 1], actions[n - 1], states[n]);
    }
  }

  lemma EveryStateIsOk(states: seq<State>, actions: seq<Action>, j: nat)
    requires IsRun(states, actions) && j < |states|
    ensures Inv(states[j])
  {
    RunPrefix(states, actions, j);
    EveryRunIsLinearizable(states[..j + 1], actions[..j]);
  }

  /** The depth that can be asked for is the length of the list modulo 2^16, so it is right exactly
      while there are fewer entries than that. */
  lemma DepthRightIffBelowLimit(states: seq<State>, actions: seq<Action>)
    requires IsRun(states, actions)
    ensures var last := states[|actions|];
            && Replay(last.log).Some?
            && Depth(last.header.low) == |Replay(last.log).value| % DEPTHS
            && (Depth(last.header.low) == |Replay(last.log).value| <==> |Replay(last.log).value| < DEPTHS)
  {
    EveryRunIsLinearizable(states, actions);
  }

  lemma MovedTwice(a: State, b: State, c: State)
    ensures Moved(a, b) && Moved(b, c) ==> Moved(a, c)
    ensures Replay(a.log).Some? ==> Moved(a, a)
  {
  }

  lemma StepInRun(states: seq<State>, actions: seq<Action>, j: nat)
    requires IsRun(states, actions) && j < |actions|
    ensures Moved(states[j], states[j + 1])
  {
    EveryStateIsOk(states, actions, j);
    assert StepAt(states, actions, j);
    StepKeepsInv(states[j], actions[j], states[j + 1]);
  }

  lemma {:induction false} MovesInRun(states: seq<State>, actions: seq<Action>, i: nat, j: nat)
    requires IsRun(states, actions) && i <= j < |states|
    ensures Moved(states[i], states[j])
    decreases j
  {
    if i < j {
      MovesInRun(states, actions, i, j - 1);
      StepInRun(states, actions, j - 1);
      MovedTwice(states[i], states[j - 1], states[j]);
    } else {
      EveryStateIsOk(states, actions, i);
      MovedTwice(states[i], states[i], states[i]);
    }
  }

  /** While the sequence stands still, a list with the same first entry is the same list. */
  lemma SameHeaderSameList(s: State, s': State)
    requires Inv(s) && Inv(s') && Moved(s, s') && s.header == s'.header
    ensures Replay(s.log) == Replay(s'.log)
  {
    var a, b := Replay(s.log).value, Replay(s'.log).value;
    if b != [] {
      assert b[0] == a[|a| - |b|] && a[0] == b[0];
    }
  }

  /** In every run, equal headers at two instants mean that neither the header nor the list changed
      between them. */
  lemma NoABA(states: seq<State>, actions: seq<Action>, i: nat, k: nat, j: nat)
    requires IsRun(states, actions) && i <= k <= j < |states| && states[i].header == states[j].header
    ensures states[k].header == states[i].header && Replay(states[k].log) == Replay(states[i].log)
  {
    EveryStateIsOk(states, actions, i);
    EveryStateIsOk(states, actions, k);
    EveryStateIsOk(states, actions, j);
    MovesInRun(states, actions, i, k);
    MovesInRun(states, actions, k, j);
    MovesInRun(states, actions, i, j);
    SameHeaderSameList(states[i], states[j]);
    var a, b, c := Replay(states[i].log).value, Replay(states[k].log).value, Replay(states[j].log).value;
    assert Suffix(b, a) && Suffix(c, b);
    assert a == b;
    LowIsItsFields(states[k].header.low, states[i].header.low);
  }

  /** A successful pop removes the top even though it read the next entry long before: that value
      is the second entry of the stack at the instant of the exchange. */
  lemma PopIsAtomic(s: State, t: Tid)
    requires Inv(s) && t in s.locals && s.locals[t].PopSwap?
    requires s.header == Header(s.locals[t].rax, s.locals[t].rdx)
    ensures var stack := Replay(s.log).value;
            && stack != []
            && s.locals[t].rdx == stack[0]
            && s.locals[t].rcx == First(stack[1..])
            && Replay(Exec(s, t).log) == Some(stack[1..])
  {
    PopFacts(s, t);
    ReplayAppend(s.log, Popped(s.locals[t].rdx));
  }

  /** Step i of the run is the first load of thread t, and it is still in that operation at j. */
  ghost predicate Attempting(states: seq<State>, actions: seq<Action>, t: Tid, i: nat, j: nat)
    requires IsRun(states, actions)
  {
    && i < j < |states| && actions[i] == Run(t)
    && (forall k :: i <= k <= j ==> t in states[k].locals)
    && !states[i].locals[t].HasLow()
    && (forall k :: i < k <= j ==> states[k].locals[t].HasLow())
  }

  ghost predicate SwapBetween(states: seq<State>, actions: seq<Action>, t: Tid, i: nat, j: nat, k: nat)
    requires IsRun(states, actions)
  {
    i <= k < j < |states| && actions[k].Run? && actions[k].t != t && |states[k + 1].log| > |states[k].log|
  }

  ghost predicate Agrees(s: State, t: Tid) {
    && t in s.locals && s.locals[t].HasLow() && s.header.low == s.locals[t].rax
    && (s.locals[t].HasNext() ==> s.header.next == s.locals[t].rdx)
  }

  lemma StepAgrees(s: State, a: Action, s': State, t: Tid)
    requires Next(s, a, s') && t in s.locals && t in s'.locals && s'.locals[t].HasLow()
    requires Agrees(s, t) || (a == Run(t) && !s.locals[t].HasLow())
    requires !(a.Run? && a.t != t && |s'.log| > |s.log|)
    ensures Agrees(s', t)
  {
  }

  lemma {:induction false} UndisturbedAgrees(states: seq<State>, actions: seq<Action>, t: Tid, i: nat, j: nat)
    requires IsRun(states, actions) && Attempting(states, actions, t, i, j)
    requires forall k :: !SwapBetween(states, actions, t, i, j, k)
    ensures Agrees(states[j], t)
    decreases j
  {
    var n := j - 1;
    assert StepAt(states, actions, n) && !SwapBetween(states, actions, t, i, j, n);
    if i < n {
      forall k {:trigger SwapBetween(states, actions, t, i, n, k)}
        ensures !SwapBetween(states, actions, t, i, n, k)
      {
        assert !SwapBetween(states, actions, t, i, j, k);
      }
      UndisturbedAgrees(states, actions, t, i, n);
    }
    StepAgrees(states[n], actions[n], states[n + 1], t);
  }

  /** A compare-exchange fails only if another thread's succeeded since this thread's first load. */
  lemma FailureMeansProgressElsewhere(states: seq<State>, actions: seq<Action>, t: Tid, i: nat, j: nat)
    requires IsRun(states, actions) && Attempting(states, actions, t, i, j)
    requires states[j].locals[t].PushSwap? || states[j].locals[t].PopSwap? || states[j].locals[t].FlushSwap?
    requires states[j].header != Header(states[j].locals[t].rax, states[j].locals[t].rdx)
    ensures exists k :: SwapBetween(states, actions, t, i, j, k)
  {
    if forall k :: !SwapBetween(states, actions, t, i, j, k) {
      UndisturbedAgrees(states, actions, t, i, j);
    }
  }

  lemma {:induction false} Waiting(states: seq<State>, actions: seq<Action>, t: Tid, i: nat, k: nat)
    requires IsRun(states, actions) && i <= k < |states| && t in states[i].locals && states[i].locals[t].PopLoad?
    requires forall j :: i <= j < k ==> actions[j] != Run(t)
    ensures t in states[k].locals && states[k].locals[t] == states[i].locals[t]
    decreases k
  {
    if i < k {
      Waiting(states, actions, t, i, k - 1);
      assert StepAt(states, actions, k - 1);
    }
  }

  /** Pop has no empty case: whatever other threads do in between, it faults exactly if the list was
      empty at the instant it last read the first entry. */
  lemma PopFaultsIffEmpty(states: seq<State>, actions: seq<Action>, t: Tid, i: nat, k: nat)
    requires IsRun(states, actions) && i < k < |actions| && actions[i] == Run(t) && actions[k] == Run(t)
    requires forall j :: i < j < k ==> actions[j] != Run(t)
    requires t in states[i + 1].locals && states[i + 1].locals[t].PopLoad?
    ensures Replay(states[i].log).Some? && t in states[k + 1].locals
    ensures states[k + 1].locals[t].Faulted? <==> Replay(states[i].log).value == []
  {
    EveryStateIsOk(states, actions, i);
    Waiting(states, actions, t, i + 1, k);
    assert StepAt(states, actions, i) && StepAt(states, actions, k);
    LoadedFirst(states[i], t);
    assert states[k].locals[t].rdx == states[i].header.next;
  }

  lemma LoadedFirst(s: State, t: Tid)
    requires Inv(s) && t in s.locals && Exec(s, t).locals[t].PopLoad?
    requires t in Exec(s, t).locals
    ensures Exec(s, t).locals[t].rdx == s.header.next
    ensures s.header.next == NULL <==> Replay(s.log).value == []
  {
  }

  /** Run alone, it returns the top, or faults exactly on the empty list. */
  lemma PopAloneFaultsIffEmpty(s: State, t: Tid)
    requires Inv(s) && t in s.locals && s.locals[t].PopLow?
    ensures var stack := Replay(s.log).value;
            var s3 := Exec(Exec(Exec(s, t), t), t);
            && (s3.locals[t].Faulted? <==> stack == [])
            && (stack != [] ==> Exec(s3, t).log == s.log + [Popped(stack[0])])
  {
  }

  // ----- the bound is needed -----

  ghost predicate ReachesIn(s: State, s': State, n: nat)
    decreases n
  {
    if n == 0 then s == s' else exists a, m :: Next(s, a, m) && ReachesIn(m, s', n - 1)
  }

  /** Some steps lead from s to s'. */
  ghost predicate Reaches(s: State, s': State) {
    exists n: nat :: ReachesIn(s, s', n)
  }

  lemma {:induction false} InSteps(s: State, m: State, s': State, i: nat, j: nat)
    requires ReachesIn(s, m, i) && ReachesIn(m, s', j)
    ensures ReachesIn(s, s', i + j)
    decreases i
  {
    if i > 0 {
      var a, next :| Next(s, a, next) && ReachesIn(next, m, i - 1);
      InSteps(next, m, s', i - 1, j);
    }
  }

  lemma ReachesOn(s: State, m: State, s': State)
    requires Reaches(s, m) && Reaches(m, s')
    ensures Reaches(s, s')
  {
    var i: nat :| ReachesIn(s, m, i);
    var j: nat :| ReachesIn(m, s', j);
    InSteps(s, m, s', i, j);
  }

  lemma OneStep(s: State, a: Action, s': State)
    requires Next(s, a, s')
    ensures Reaches(s, s')
  {
    assert ReachesIn(s', s', 0);
    assert ReachesIn(s, s', 1);
  }

  lemma Executes(s: State, m: State, t: Tid)
    requires Reaches(s, m) && t in m.locals
    ensures Reaches(s, Exec(m, t))
  {
    OneStep(m, Run(t), Exec(m, t));
    ReachesOn(s, m, Exec(m, t));
  }

  /** Thread t is idle, no thread is pushing, and the list is `stack`. */
  ghost predicate Quiet(s: State, t: Tid, stack: seq<Ptr>) {
    && t in s.locals && s.locals[t].Idle? && Replay(s.log) == Some(stack) && s.header.next == First(stack)
    && forall u :: u in s.locals ==> !s.locals[u].Pushing()
  }

  function AfterPush(s: State, e: Ptr): State {
    State(Header(PushTag(s.header.low), e), s.mem[e := s.header.next], s.locals, s.log + [Pushed(e, s.header.next)])
  }

  function AfterPop(s: State): State {
    State(Header(PopTag(s.header.low), Load(s.mem, s.header.next)), s.mem, s.locals, s.log + [Popped(s.header.next)])
  }

  lemma PushRuns(s: State, t: Tid, stack: seq<Ptr>, e: Ptr)
    requires Quiet(s, t, stack) && e != NULL && e !in stack
    ensures Reaches(s, AfterPush(s, e)) && Quiet(AfterPush(s, e), t, [e] + stack)
    ensures Pushes(AfterPush(s, e).log) == Pushes(s.log) + 1
  {
    var s0 := s.(locals := s.locals[t := PushLow(e)]);
    assert !Taken(s, e);
    OneStep(s, StartPush(t, e), s0);
    var s1 := Exec(s0, t);
    Executes(s, s0, t);
    var s2 := Exec(s1, t);
    Executes(s, s1, t);
    var s3 := Exec(s2, t);
    Executes(s, s2, t);
    var s4 := Exec(s3, t);
    Executes(s, s3, t);
    assert s4.locals == s.locals;
    assert s4 == AfterPush(s, e);
    ReplayAppend(s.log, Pushed(e, s.header.next));
    PushesAppend(s.log, Pushed(e, s.header.next));
  }

  /** Thread t starts a pop and loads the header and the second entry. */
  lemma PopLoads(s: State, t: Tid)
    requires t in s.locals && s.locals[t].Idle? && s.header.next != NULL
    ensures Reaches(s, s.(locals := s.locals[t := PopSwap(s.header.low, s.header.next, Load(s.mem, s.header.next))]))
  {
    var low, next := s.header.low, s.header.next;
    var s0 := s.(locals := s.locals[t := PopLow]);
    OneStep(s, StartPop(t), s0);
    Executes(s, s0, t);
    var s1 := s.(locals := s.locals[t := PopNext(low)]);
    assert Exec(s0, t) == s1;
    Executes(s, s1, t);
    var s2 := s.(locals := s.locals[t := PopLoad(low, next)]);
    assert Exec(s1, t) == s2;
    Executes(s, s2, t);
    assert Exec(s2, t).locals == s.locals[t := PopSwap(low, next, Load(s.mem, next))];
  }

  lemma PopSteps(s: State, t: Tid)
    requires t in s.locals && s.locals[t].Idle? && s.header.next != NULL
    ensures Reaches(s, AfterPop(s))
  {
    PopLoads(s, t);
    var s3 := s.(locals := s.locals[t := PopSwap(s.header.low, s.header.next, Load(s.mem, s.header.next))]);
    Executes(s, s3, t);
    assert Exec(s3, t).locals == s.locals;
  }

  lemma PopRuns(s: State, t: Tid, stack: seq<Ptr>)
    requires Quiet(s, t, stack) && stack != [] && s.header.next != NULL && Load(s.mem, stack[0]) == First(stack[1..])
    ensures Reaches(s, AfterPop(s)) && Quiet(AfterPop(s), t, stack[1..])
    ensures Pushes(AfterPop(s).log) == Pushes(s.log)
  {
    PopSteps(s, t);
    ReplayAppend(s.log, Popped(s.header.next));
    PushesAppend(s.log, Popped(s.header.next));
  }

  lemma PushesAppend(log: seq<Event>, e: Event)
    ensures Pushes(log + [e]) == Pushes(log) + if e.Pushed? then 1 else 0
  {
    assert (log + [e])[..|log|] == log;
  }

  /** A push and a pop leave the depth as it was and move the sequence by one, until it wraps. */
  lemma CycleTag(low: nat)
    requires low < WORD && Depth(low) < DEPTHS - 1
    ensures PopTag(PushTag(low)) == (low + DEPTHS) % WORD && Depth((low + DEPTHS) % WORD) == Depth(low)
  {
    assert low == Sequence(low) * DEPTHS + Depth(low);
    assert low + 0x1_0001 == (Sequence(low) + 1) * DEPTHS + (Depth(low) + 1);
    if low + 0x1_0001 >= WORD {
      assert PushTag(low) == low + 0x1_0001 - WORD == Depth(low) + 1;
    }
  }

  lemma Wraps(low: nat, n: nat)
    ensures ((low + DEPTHS) % WORD + n * DEPTHS) % WORD == (low + (n + 1) * DEPTHS) % WORD
  {
    var x := low + DEPTHS;
    assert x == x / WORD * WORD + x % WORD;
    assert low + (n + 1) * DEPTHS == (x % WORD + n * DEPTHS) + x / WORD * WORD;
  }

  /** Thread t pushes and pops entry e. */
  lemma Cycle(s: State, t: Tid, stack: seq<Ptr>, e: Ptr) returns (s': State)
    requires Quiet(s, t, stack) && e != NULL && e !in stack && s.header.low < WORD && Depth(s.header.low) < DEPTHS - 1
    ensures Reaches(s, s') && Quiet(s', t, stack) && s'.locals == s.locals && Pushes(s'.log) == Pushes(s.log) + 1
    ensures s'.header == Header((s.header.low + DEPTHS) % WORD, s.header.next)
  {
    var up := AfterPush(s, e);
    PushRuns(s, t, stack, e);
    s' := AfterPop(up);
    assert ([e] + stack)[1..] == stack && ([e] + stack)[0] == e;
    PopRuns(up, t, [e] + stack);
    ReachesOn(s, up, s');
    CycleTag(s.header.low);
  }

  /** Thread t pushes and pops entry e n times. */
  lemma {:induction false} Churn(s: State, t: Tid, stack: seq<Ptr>, e: Ptr, n: nat) returns (s': State)
    requires Quiet(s, t, stack) && e != NULL && e !in stack && s.header.low < WORD && Depth(s.header.low) < DEPTHS - 1
    ensures Reaches(s, s') && Quiet(s', t, stack) && s'.locals == s.locals && Pushes(s'.log) == Pushes(s.log) + n
    ensures s'.header == Header((s.header.low + n * DEPTHS) % WORD, s.header.next)
    decreases n
  {
    if n == 0 {
      assert ReachesIn(s, s, 0);
      return s;
    }
    var next := Cycle(s, t, stack, e);
    CycleTag(s.header.low);
    s' := Churn(next, t, stack, e, n - 1);
    ReachesOn(s, next, s');
    Wraps(s.header.low, n - 1);
  }

  function ListOfTwo(): State {
    State(Header(0x2_0002, 1), map[2 := NULL, 1 := 2], map[0 := Idle, 1 := Idle], [Pushed(2, NULL), Pushed(1, 2)])
  }

  lemma TwoPushed() returns (s: State)
    ensures Init(s) && Reaches(s, ListOfTwo()) && Quiet(ListOfTwo(), 1, [1, 2]) && Pushes(ListOfTwo().log) == 2
  {
    s := State(Header(0, NULL), map[], map[0 := Idle, 1 := Idle], []);
    var p1 := AfterPush(s, 2);
    PushRuns(s, 1, [], 2);
    assert [2] + [] == [2];
    PushRuns(p1, 1, [2], 1);
    assert [1] + [2] == [1, 2];
    assert AfterPush(p1, 1) == ListOfTwo();
    ReachesOn(s, p1, ListOfTwo());
  }

  /** Thread 0 has loaded the header and the second entry of that list. */
  function StalledPop(): State {
    ListOfTwo().(locals := map[0 := PopSwap(0x2_0002, 1, 2), 1 := Idle])
  }

  lemma Stalls()
    ensures Reaches(ListOfTwo(), StalledPop())
  {
    PopLoads(ListOfTwo(), 0);
    assert ListOfTwo().locals[0 := PopSwap(0x2_0002, 1, 2)] == StalledPop().locals;
  }

  lemma PoppedTwice(q: State) returns (r: State)
    requires Quiet(q, 1, [1, 2]) && q.header == Header(0x2_0002, 1) && q.mem == map[2 := NULL, 1 := 2]
    ensures Reaches(q, r) && Quiet(r, 1, []) && r.header == Header(0x2_0000, NULL) && r.locals == q.locals
    ensures Pushes(r.log) == Pushes(q.log)
  {
    var r1 := AfterPop(q);
    assert [1, 2][1..] == [2] && [2][1..] == [];
    PopRuns(q, 1, [1, 2]);
    r := AfterPop(r1);
    PopRuns(r1, 1, [2]);
    ReachesOn(q, r1, r);
  }

  lemma PushedTwice(q: State) returns (r: State)
    requires Quiet(q, 1, []) && q.header == Header(0x2_0000, NULL)
    ensures Reaches(q, r) && Quiet(r, 1, [1, 4]) && r.header == Header(0x4_0002, 1) && r.locals == q.locals
    ensures Pushes(r.log) == Pushes(q.log) + 2
  {
    var r1 := AfterPush(q, 4);
    PushRuns(q, 1, [], 4);
    assert [4] + [] == [4] && [1] + [4] == [1, 4];
    r := AfterPush(r1, 1);
    PushRuns(r1, 1, [4], 1);
    ReachesOn(q, r1, r);
  }

  /** While thread 0 waits, thread 1 replaces entry 2 by entry 4. */
  lemma Replaced() returns (s: State, r: State)
    ensures Init(s) && Reaches(s, r) && Quiet(r, 1, [1, 4]) && Pushes(r.log) == 4
    ensures r.header == Header(0x4_0002, 1) && r.locals == map[0 := PopSwap(0x2_0002, 1, 2), 1 := Idle]
  {
    s := TwoPushed();
    Stalls();
    var q := StalledPop();
    ReachesOn(s, ListOfTwo(), q);
    var empty := PoppedTwice(q);
    ReachesOn(s, q, empty);
    r := PushedTwice(empty);
    ReachesOn(s, empty, r);
  }

  /** Then it pushes and pops entry 3 until the header is the one that thread 0 loaded. */
  lemma SameHeaderOtherList() returns (s: State, w: State)
    ensures Init(s) && Reaches(s, w) && Quiet(w, 1, [1, 4]) && Pushes(w.log) == SEQUENCES + 2
    ensures w.header == Header(0x2_0002, 1) && w.locals == map[0 := PopSwap(0x2_0002, 1, 2), 1 := Idle]
  {
    var r;
    s, r := Replaced();
    w := Churn(r, 1, [1, 4], 3, SEQUENCES - 2);
    ReachesOn(s, r, w);
    TagComesBack();
  }

  lemma TagComesBack()
    ensures (0x4_0002 + (SEQUENCES - 2) * DEPTHS) % WORD == 0x2_0002
  {
  }

  /** Past the bound the list breaks: the exchange of thread 0 succeeds, and the list is entry 2, which
      left it long ago, instead of entry 4. */
  lemma WrapBreaksTheList() returns (s: State, s': State)
    ensures Init(s) && Reaches(s, s') && Pushes(s'.log) == SEQUENCES + 2
    ensures Replay(s'.log) == Some([4]) && s'.header.next == 2 && !Linked([4], s'.header.next, s'.mem)
  {
    var w;
    s, w := SameHeaderOtherList();
    s' := Exec(w, 0);
    Executes(s, w, 0);
    ReplayAppend(w.log, Popped(1));
    PushesAppend(w.log, Popped(1));
    assert [1, 4][1..] == [4];
  }
}
