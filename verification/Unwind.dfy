/**
 RtlVirtualUnwind of src/arch/x86/arch_except.cpp, for the unwind data of Microsoft's "x64 exception
 handling" document.

 A prolog has an operational semantics here (Exec): it pushes and stores nonvolatile registers,
 allocates stack and may set a frame register.  Its unwind data is the list of its operations,
 encoded as one to three 16-bit slots each, last operation first.  The unwinder only sees those
 slots, the program counter, the registers and the memory at the point of interruption.
 */
module Unwind {
  import opened Wrappers

  const U64: int := 0x1_0000_0000_0000_0000
  const RSP: nat := 4

  /** 64-bit addition of a signed displacement. */
  function Add64(a: nat, d: int): (r: nat)
    requires a < U64 && -U64 < d < U64
    ensures r < U64
  {
    if a + d < 0 then a + d + U64 else if a + d >= U64 then a + d - U64 else a + d
  }

  // ----- memory -----

  type Mem = map<nat, nat>

  function Byte(mem: Mem, a: nat): nat {
    if a in mem then mem[a] % 256 else 0
  }

  /** The bytes in [a, end), little-endian. */
  function Read(mem: Mem, a: nat, end: nat): nat
    decreases end - a
  {
    if a >= end then 0 else Byte(mem, a) + 256 * Read(mem, a + 1, end)
  }

  function Write(mem: Mem, a: nat, end: nat, v: nat): Mem
    decreases end - a
  {
    if a >= end then mem else Write(mem[a := v % 256], a + 1, end, v / 256)
  }

  function Pow256(n: nat): nat {
    if n == 0 then 1 else 256 * Pow256(n - 1)
  }

  function Read64(mem: Mem, a: nat): nat {
    Read(mem, a, a + 8)
  }

  function Write64(mem: Mem, a: nat, v: nat): Mem {
    Write(mem, a, a + 8, v)
  }

  datatype M128 = M128(lo: nat, hi: nat)

  function Read128(mem: Mem, a: nat): M128 {
    M128(Read64(mem, a), Read64(mem, a + 8))
  }

  function Write128(mem: Mem, a: nat, v: M128): Mem {
    Write64(Write64(mem, a, v.lo), a + 8, v.hi)
  }

  /** The n bytes at a are the same in both memories. */
  ghost predicate Intact(m1: Mem, m2: Mem, a: nat, n: nat) {
    forall x :: a <= x < a + n ==> Byte(m1, x) == Byte(m2, x)
  }

  lemma {:induction false} IntactRead(m1: Mem, m2: Mem, a: nat, end: nat)
    requires a <= end && Intact(m1, m2, a, end - a)
    ensures Read(m1, a, end) == Read(m2, a, end)
    decreases end - a
  {
    if a < end {
      IntactRead(m1, m2, a + 1, end);
    }
  }

  lemma {:induction false} WriteElsewhere(mem: Mem, a: nat, end: nat, v: nat, x: nat)
    requires x < a || end <= x
    ensures Byte(Write(mem, a, end, v), x) == Byte(mem, x)
    decreases end - a
  {
    if a < end {
      WriteElsewhere(mem[a := v % 256], a + 1, end, v / 256, x);
    }
  }

  lemma {:induction false} ReadWrite(mem: Mem, a: nat, end: nat, v: nat)
    requires a <= end && v < Pow256(end - a)
    ensures Read(Write(mem, a, end, v), a, end) == v
    decreases end - a
  {
    if a < end {
      var mem' := mem[a := v % 256];
      ReadWrite(mem', a + 1, end, v / 256);
      WriteElsewhere(mem', a + 1, end, v / 256, a);
    }
  }

  lemma Word64()
    ensures Pow256(8) == U64
  {
    assert Pow256(2) == 0x1_0000;
    assert Pow256(4) == 0x1_0000_0000;
    assert Pow256(6) == 0x1_0000_0000_0000;
  }

  lemma {:induction false} ReadBelow(mem: Mem, a: nat, end: nat)
    requires a <= end
    ensures Read(mem, a, end) < Pow256(end - a)
    decreases end - a
  {
    if a < end {
      ReadBelow(mem, a + 1, end);
    }
  }

  lemma ReadWrite64(mem: Mem, a: nat, v: nat)
    requires v < U64
    ensures Read64(Write64(mem, a, v), a) == v
  {
    Word64();
    ReadWrite(mem, a, a + 8, v);
  }

  lemma ReadWrite128(mem: Mem, a: nat, v: M128)
    requires v.lo < U64 && v.hi < U64
    ensures Read128(Write128(mem, a, v), a) == v
  {
    var mem' := Write64(mem, a, v.lo);
    ReadWrite64(mem, a, v.lo);
    ReadWrite64(mem', a + 8, v.hi);
    forall x | a <= x < a + 8
      ensures Byte(Write64(mem', a + 8, v.hi), x) == Byte(mem', x)
    {
      WriteElsewhere(mem', a + 8, a + 16, v.hi, x);
    }
    IntactRead(Write128(mem, a, v), mem', a, a + 8);
  }

  lemma ReadBound(mem: Mem, a: nat)
    ensures Read64(mem, a) < U64
  {
    Word64();
    ReadBelow(mem, a, a + 8);
  }

  // ----- prologs -----

  datatype Regs = Regs(gpr: seq<nat>, xmm: seq<M128>, rip: nat)

  ghost predicate RegsOk(r: Regs) {
    && |r.gpr| == 16 && (forall i :: 0 <= i < 16 ==> r.gpr[i] < U64)
    && |r.xmm| == 16 && (forall i :: 0 <= i < 16 ==> r.xmm[i].lo < U64 && r.xmm[i].hi < U64)
  }

  /** What one unwind code describes.  An allocation read back from its code may be negative. */
  datatype Op =
    | Push(reg: nat)
    | Alloc(n: int)
    | SetFrame
    | SaveReg(reg: nat, disp: nat)
    | SaveXmm(xmm: nat, disp: nat)
    | MachFrame(errorCode: bool)
    | Epilog
  {
    predicate Ok() {
      match this
      case Push(r) => r < 16
      case Alloc(n) => -0x8000_0000 <= n < 0x8000_0000
      case SaveReg(r, d) => r < 16 && d < 0x1_0000_0000
      case SaveXmm(x, d) => x < 16 && d < 0x1_0000_0000
      case _ => true
    }

    predicate SavesReg() {
      Push? || SaveReg?
    }

    /** The number of bytes stored on the stack. */
    function SlotSize(): nat {
      if SavesReg() then 8 else if SaveXmm? then 16 else 0
    }
  }

  /** One instruction of a prolog, the number of slots that encode it, and where it ends. */
  datatype Step = Step(op: Op, slots: nat, offset: nat) {
    /** The encodings a compiler may choose; rsp is never a saved register. */
    predicate Encodable() {
      && offset < 256
      && match op
         case Push(r) => r < 16 && r != RSP && slots == 1
         case Alloc(n) =>
           || (slots == 1 && 8 <= n <= 128 && n % 8 == 0)
           || (slots == 2 && 0 <= n < 0x8_0000 && n % 8 == 0)
           || (slots == 3 && 0 <= n < 0x8000_0000)
         case SetFrame => slots == 1
         case SaveReg(r, d) => r < 16 && r != RSP && EncodableDisp(d, 8)
         case SaveXmm(x, d) => x < 16 && EncodableDisp(d, 16)
         case _ => false
    }

    predicate EncodableDisp(d: nat, scale: nat) {
      (slots == 2 && d < scale * 0x1_0000 && scale > 0 && d % scale == 0) || (slots == 3 && d < 0x1_0000_0000)
    }
  }

  /** Entered by a call, or by a trap whose hardware frame may include an error code. */
  datatype Entry = Call | Trap(errorCode: bool) {
    function FrameSize(): nat {
      if Call? then 8 else if errorCode then 48 else 40
    }
  }

  datatype Prolog = Prolog(entry: Entry, steps: seq<Step>, frameReg: nat, frameOff: nat, size: nat)

  datatype Machine = Machine(gpr: seq<nat>, xmm: seq<M128>, mem: Mem) {
    ghost predicate Ok() {
      RegsOk(Regs(gpr, xmm, 0))
    }
  }

  /** The address an instruction stores to. */
  function SlotAddr(rsp: nat, op: Op): nat
    requires rsp < U64 && op.Ok()
  {
    match op
    case Push(_) => Add64(rsp, -8)
    case SaveReg(_, d) => Add64(rsp, d)
    case SaveXmm(_, d) => Add64(rsp, d)
    case _ => 0
  }

  function RspAfter(rsp: nat, op: Op): (r: nat)
    requires rsp < U64 && op.Ok()
    ensures r < U64
  {
    match op
    case Push(_) => Add64(rsp, -8)
    case Alloc(n) => Add64(rsp, -n)
    case _ => rsp
  }

  /** The processor executes one instruction of the prolog. */
  ghost function Exec(m: Machine, op: Op, frameReg: nat, frameOff: nat): (r: Machine)
    requires m.Ok() && op.Ok() && frameReg < 16 && frameOff < 16
    ensures r.Ok()
  {
    var rsp := m.gpr[RSP];
    var a := SlotAddr(rsp, op);
    var mem := if op.SavesReg() then Write64(m.mem, a, m.gpr[op.reg])
               else if op.SaveXmm? then Write128(m.mem, a, m.xmm[op.xmm])
               else m.mem;
    var gpr := if op.SetFrame? then m.gpr[frameReg := Add64(rsp, frameOff * 16)]
               else m.gpr[RSP := RspAfter(rsp, op)];
    Machine(gpr, m.xmm, mem)
  }

  /** Steps that can be encoded, in order, with at most one frame register set, after which the
      prolog only allocates. */
  ghost predicate WellFormed(p: Prolog) {
    && p.frameReg < 16 && p.frameReg != RSP && p.frameOff < 16
    && (forall i :: 0 <= i < |p.steps| ==> p.steps[i].Encodable() && p.steps[i].offset <= p.size)
    && (forall i, j :: 0 <= i < j < |p.steps| && p.steps[i].op.SetFrame? ==> p.steps[j].op.Alloc?)
    && (p.frameReg != 0 <==> FrameSet(p, |p.steps|))
  }

  /** The frame register is set by one of the first k instructions. */
  ghost predicate FrameSet(p: Prolog, k: nat)
    requires k <= |p.steps|
  {
    exists i :: 0 <= i < k && p.steps[i].op.SetFrame?
  }

  /** The machine after the first k instructions of the prolog. */
  ghost function After(m: Machine, p: Prolog, k: nat): (r: Machine)
    requires WellFormed(p) && m.Ok() && k <= |p.steps|
    ensures r.Ok()
  {
    if k == 0 then m else Exec(After(m, p, k - 1), p.steps[k - 1].op, p.frameReg, p.frameOff)
  }

  /** The address the i-th instruction stores to. */
  ghost function Slot(m: Machine, p: Prolog, i: nat): nat
    requires WellFormed(p) && m.Ok() && i < |p.steps|
  {
    SlotAddr(After(m, p, i).gpr[RSP], p.steps[i].op)
  }

  ghost predicate Disjoint(a: nat, n: nat, b: nat, m: nat) {
    a + n <= b || b + m <= a
  }

  /** No two of the slots overlap, nor does one overlap the entry frame. */
  ghost predicate GoodFrame(m: Machine, p: Prolog)
    requires WellFormed(p)
  {
    && m.Ok()
    && 0 < m.gpr[RSP] && m.gpr[RSP] + 48 <= U64
    && (forall i {:trigger Slot(m, p, i)} :: 0 <= i < |p.steps| ==>
          Disjoint(m.gpr[RSP], p.entry.FrameSize(), Slot(m, p, i), p.steps[i].op.SlotSize()))
    && (forall i, j {:trigger Slot(m, p, i), Slot(m, p, j)} :: 0 <= i < j < |p.steps| ==>
          Disjoint(Slot(m, p, i), p.steps[i].op.SlotSize(), Slot(m, p, j), p.steps[j].op.SlotSize()))
  }

  /** The slots of the first k instructions, and the entry frame, are as in `mem'`. */
  ghost predicate SlotsIntact(m: Machine, p: Prolog, k: nat, mem: Mem, mem': Mem)
    requires WellFormed(p) && m.Ok() && k <= |p.steps|
  {
    && Intact(mem, mem', m.gpr[RSP], p.entry.FrameSize())
    && (forall i {:trigger Slot(m, p, i)} :: 0 <= i < k ==> Intact(mem, mem', Slot(m, p, i), p.steps[i].op.SlotSize()))
  }

  /** rsp is where the prolog left it or, once the frame register is set, that register is. */
  ghost predicate FrameKnown(p: Prolog, k: nat, mk: Machine, regs: Regs)
    requires p.frameReg < 16 && mk.Ok() && RegsOk(regs) && k <= |p.steps|
  {
    if FrameSet(p, k) then regs.gpr[p.frameReg] == mk.gpr[p.frameReg] else regs.gpr[RSP] == mk.gpr[RSP]
  }

  /**
   What may be seen when a thread is interrupted after the first k instructions, in the prolog or in
   the body: registers and memory are arbitrary except for the frame and the slots written so far.
   */
  ghost predicate Interrupted(m: Machine, p: Prolog, k: nat, regs: Regs, mem: Mem)
    requires WellFormed(p) && m.Ok() && k <= |p.steps|
  {
    RegsOk(regs) && FrameKnown(p, k, After(m, p, k), regs) && SlotsIntact(m, p, k, mem, After(m, p, k).mem)
  }

  // ----- unwind codes -----

  type Code = c: nat | c < 0x1_0000

  function Offset(c: Code): nat {
    c % 256
  }

  function Opcode(c: Code): nat {
    c / 256 % 16
  }

  function OpInfo(c: Code): nat {
    c / 4096
  }

  const UWOP_PUSH_NONVOL := 0
  const UWOP_ALLOC_LARGE := 1
  const UWOP_ALLOC_SMALL := 2
  const UWOP_SET_FPREG := 3
  const UWOP_SAVE_NONVOL := 4
  const UWOP_SAVE_NONVOL_FAR := 5
  const UWOP_EPILOG := 6
  const UWOP_SAVE_XMM128 := 8
  const UWOP_SAVE_XMM128_FAR := 9
  const UWOP_PUSH_MACHFRAME := 10

  function MakeCode(offset: nat, opcode: nat, info: nat): (c: Code)
    requires offset < 256 && opcode < 16 && info < 16
    ensures Offset(c) == offset && Opcode(c) == opcode && OpInfo(c) == info
  {
    offset + 256 * opcode + 4096 * info
  }

  /** A 32-bit operand in two slots. */
  function Wide(v: nat): seq<Code>
    requires v < 0x1_0000_0000
  {
    [v % 0x1_0000, v / 0x1_0000]
  }

  function EncodeStep(s: Step): seq<Code>
    requires s.Encodable()
  {
    match s.op
    case Push(r) => [MakeCode(s.offset, UWOP_PUSH_NONVOL, r)]
    case Alloc(n) =>
      if s.slots == 1 then [MakeCode(s.offset, UWOP_ALLOC_SMALL, n / 8 - 1)]
      else if s.slots == 2 then [MakeCode(s.offset, UWOP_ALLOC_LARGE, 0), n / 8]
      else [MakeCode(s.offset, UWOP_ALLOC_LARGE, 1)] + Wide(n)
    case SetFrame => [MakeCode(s.offset, UWOP_SET_FPREG, 0)]
    case SaveReg(r, d) =>
      if s.slots == 2 then [MakeCode(s.offset, UWOP_SAVE_NONVOL, r), d / 8]
      else [MakeCode(s.offset, UWOP_SAVE_NONVOL_FAR, r)] + Wide(d)
    case SaveXmm(x, d) =>
      if s.slots == 2 then [MakeCode(s.offset, UWOP_SAVE_XMM128, x), d / 16]
      else [MakeCode(s.offset, UWOP_SAVE_XMM128_FAR, x)] + Wide(d)
  }

  function EncodeEntry(e: Entry): seq<Code> {
    match e
    case Call => []
    case Trap(errorCode) => [MakeCode(0, UWOP_PUSH_MACHFRAME, if errorCode then 1 else 0)]
  }

  /** The unwind codes of the first k operations, last operation first. */
  ghost function Encode(p: Prolog, k: nat): seq<Code>
    requires WellFormed(p) && k <= |p.steps|
  {
    if k == 0 then EncodeEntry(p.entry) else EncodeStep(p.steps[k - 1]) + Encode(p, k - 1)
  }

  // ----- the unwinder, as a function -----

  /** Slots an operation occupies; None where the source panics. */
  function Slots(c: Code): Option<nat> {
    var op := Opcode(c);
    if op == UWOP_PUSH_NONVOL || op == UWOP_ALLOC_SMALL || op == UWOP_SET_FPREG || op == UWOP_EPILOG
        || op == UWOP_PUSH_MACHFRAME then
      Some(1)
    else if op == UWOP_ALLOC_LARGE then Some(if OpInfo(c) == 0 then 2 else 3)
    else if op == UWOP_SAVE_NONVOL || op == UWOP_SAVE_XMM128 then Some(2)
    else if op == UWOP_SAVE_NONVOL_FAR || op == UWOP_SAVE_XMM128_FAR then Some(3)
    else None
  }

  /** Slots, where they all lie inside the array; None also where the source would read past it. */
  function SlotsIn(codes: seq<Code>): (n: Option<nat>)
    requires codes != []
    ensures n.Some? ==> 0 < n.value <= |codes|
  {
    var n := Slots(codes[0]);
    if n.Some? && n.value <= |codes| then n else None
  }

  /** `whole | whole << 16` is an int: from 2^31 on, it is negative when added to rsp. */
  function SignedPair(lo: Code, hi: Code): int {
    var v := lo + 0x1_0000 * hi;
    if v < 0x8000_0000 then v else v - 0x1_0000_0000
  }

  /** The operation at the head of the codes, with its operands. */
  function Decode(codes: seq<Code>): (op: Op)
    requires codes != [] && SlotsIn(codes).Some?
    ensures op.Ok()
  {
    var opcode, info := Opcode(codes[0]), OpInfo(codes[0]);
    if opcode == UWOP_PUSH_NONVOL then Push(info)
    else if opcode == UWOP_ALLOC_LARGE then Alloc(if info == 0 then codes[1] * 8 else SignedPair(codes[1], codes[2]))
    else if opcode == UWOP_ALLOC_SMALL then Alloc(8 + info * 8)
    else if opcode == UWOP_SET_FPREG then SetFrame
    else if opcode == UWOP_SAVE_NONVOL then SaveReg(info, (codes[1] as int) * 8)
    else if opcode == UWOP_SAVE_NONVOL_FAR then SaveReg(info, (codes[1] as int) + 0x1_0000 * (codes[2] as int))
    else if opcode == UWOP_SAVE_XMM128 then SaveXmm(info, (codes[1] as int) * 16)
    else if opcode == UWOP_SAVE_XMM128_FAR then SaveXmm(info, (codes[1] as int) + 0x1_0000 * (codes[2] as int))
    else if opcode == UWOP_PUSH_MACHFRAME then MachFrame(info != 0)
    else Epilog
  }

  datatype Info = Info(frameReg: nat, frameOff: nat) {
    predicate Ok() {
      frameReg < 16 && frameOff < 16
    }
  }

  ghost function FrameBase(info: Info, regs: Regs): nat
    requires RegsOk(regs) && info.Ok()
  {
    Add64(regs.gpr[info.frameReg], -(info.frameOff * 16))
  }

  /** The registers before an operation, from those after it. */
  ghost function UndoOp(op: Op, info: Info, regs: Regs, mem: Mem): (r: Regs)
    requires RegsOk(regs) && info.Ok() && op.Ok()
    ensures RegsOk(r)
  {
    var rsp := regs.gpr[RSP];
    match op
    case Push(r) =>
      ReadBound(mem, rsp);
      var gpr := regs.gpr[r := Read64(mem, rsp)];
      regs.(gpr := gpr[RSP := Add64(gpr[RSP], 8)])
    case Alloc(n) => regs.(gpr := regs.gpr[RSP := Add64(rsp, n)])
    case SetFrame => regs.(gpr := regs.gpr[RSP := FrameBase(info, regs)])
    case SaveReg(r, d) =>
      ReadBound(mem, Add64(rsp, d));
      regs.(gpr := regs.gpr[r := Read64(mem, Add64(rsp, d))])
    case SaveXmm(x, d) =>
      ReadBound(mem, Add64(rsp, d));
      ReadBound(mem, Add64(rsp, d) + 8);
      regs.(xmm := regs.xmm[x := Read128(mem, Add64(rsp, d))])
    case _ => regs
  }

  /** The return address is popped unless rsp is zero. */
  ghost function PopReturn(regs: Regs, mem: Mem): Regs
    requires RegsOk(regs)
  {
    var rsp := regs.gpr[RSP];
    if rsp == 0 then regs else Regs(regs.gpr[RSP := Add64(rsp, 8)], regs.xmm, Read64(mem, rsp))
  }

  ghost function PopMachineFrame(errorCode: bool, regs: Regs, mem: Mem): Regs
    requires RegsOk(regs)
  {
    var a := Add64(regs.gpr[RSP], if errorCode then 8 else 0);
    Regs(regs.gpr[RSP := Read64(mem, Add64(a, 24))], regs.xmm, Read64(mem, a))
  }

  /** Undoes all of `codes`. */
  ghost function Undo(codes: seq<Code>, info: Info, regs: Regs, mem: Mem): Option<Regs>
    requires RegsOk(regs) && info.Ok()
    decreases |codes|
  {
    if codes == [] then Some(PopReturn(regs, mem))
    else if SlotsIn(codes).None? then None
    else
      var op := Decode(codes);
      if op.MachFrame? then
        if |codes| == 1 then Some(PopMachineFrame(op.errorCode, regs, mem)) else None
      else
        Undo(codes[SlotsIn(codes).value..], info, UndoOp(op, info, regs, mem), mem)
  }

  /** Drops the codes of instructions that have not executed at pc. */
  ghost function Skip(codes: seq<Code>, pc: nat): Option<seq<Code>> {
    if codes == [] || Offset(codes[0]) <= pc then Some(codes)
    else if SlotsIn(codes).None? then None
    else Skip(codes[SlotsIn(codes).value..], pc)
  }

  /** Whether the establisher frame is read from the frame register, during the prolog. */
  ghost function FindFrame(codes: seq<Code>, pc: nat): Option<bool> {
    if codes == [] then Some(false)
    else if Offset(codes[0]) <= pc && Opcode(codes[0]) == UWOP_SET_FPREG then Some(true)
    else if SlotsIn(codes).None? then None
    else FindFrame(codes[SlotsIn(codes).value..], pc)
  }

  ghost function Establisher(codes: seq<Code>, info: Info, size: nat, pc: nat, regs: Regs): Option<nat>
    requires RegsOk(regs) && info.Ok()
  {
    if info.frameReg == 0 then Some(regs.gpr[RSP])
    else if pc >= size then Some(FrameBase(info, regs))
    else
      match FindFrame(codes, pc)
      case None => None
      case Some(found) => Some(if found then FrameBase(info, regs) else regs.gpr[RSP])
  }

  // ----- decoding undoes encoding -----

  lemma EncodedStep(s: Step, rest: seq<Code>)
    requires s.Encodable()
    ensures var codes := EncodeStep(s) + rest;
            && Offset(codes[0]) == s.offset
            && (Opcode(codes[0]) == UWOP_SET_FPREG <==> s.op.SetFrame?)
            && SlotsIn(codes) == Some(s.slots)
            && codes[s.slots..] == rest
            && Decode(codes) == s.op
  {
    assert EncodeStep(s) + rest == [EncodeStep(s)[0]] + EncodeStep(s)[1..] + rest;
  }

  lemma EncodedEntry(e: Entry)
    ensures e.Trap? ==> var codes := EncodeEntry(e);
                        Offset(codes[0]) == 0 && SlotsIn(codes) == Some(1) && Decode(codes) == MachFrame(e.errorCode)
  {
  }

  /** The 3-slot allocation is undone exactly when its size is below 2^31. */
  lemma HugeAllocUndoneIff(rsp: nat, n: int)
    requires rsp < U64 && 0 <= n < 0x1_0000_0000
    ensures Add64(Add64(rsp, -n), SignedPair(Wide(n)[0], Wide(n)[1])) == rsp <==> n < 0x8000_0000
  {
  }

  // ----- one step back -----

  lemma ExecFacts(m: Machine, op: Op, frameReg: nat, frameOff: nat)
    requires m.Ok() && op.Ok() && frameReg < 16 && frameOff < 16
    ensures var m', a := Exec(m, op, frameReg, frameOff), SlotAddr(m.gpr[RSP], op);
            && (op.SavesReg() ==> Read64(m'.mem, a) == m.gpr[op.reg])
            && (op.SaveXmm? ==> Read128(m'.mem, a) == m.xmm[op.xmm])
  {
    var a := SlotAddr(m.gpr[RSP], op);
    if op.SavesReg() {
      ReadWrite64(m.mem, a, m.gpr[op.reg]);
    } else if op.SaveXmm? {
      ReadWrite128(m.mem, a, m.xmm[op.xmm]);
    }
  }

  lemma ExecElsewhere(m: Machine, op: Op, frameReg: nat, frameOff: nat, b: nat, n: nat)
    requires m.Ok() && op.Ok() && frameReg < 16 && frameOff < 16
    requires Disjoint(b, n, SlotAddr(m.gpr[RSP], op), op.SlotSize())
    ensures Intact(Exec(m, op, frameReg, frameOff).mem, m.mem, b, n)
  {
    var a := SlotAddr(m.gpr[RSP], op);
    forall x | b <= x < b + n
      ensures Byte(Exec(m, op, frameReg, frameOff).mem, x) == Byte(m.mem, x)
    {
      if op.SavesReg() {
        WriteElsewhere(m.mem, a, a + 8, m.gpr[op.reg], x);
      } else if op.SaveXmm? {
        WriteElsewhere(m.mem, a, a + 8, m.xmm[op.xmm].lo, x);
        WriteElsewhere(Write64(m.mem, a, m.xmm[op.xmm].lo), a + 8, a + 16, m.xmm[op.xmm].hi, x);
      }
    }
  }

  lemma {:induction false} RegistersKept(m: Machine, p: Prolog, k: nat, r: nat)
    requires WellFormed(p) && k <= |p.steps| && m.Ok()
    requires r < 16 && r != RSP && !(FrameSet(p, k) && r == p.frameReg)
    ensures After(m, p, k).gpr[r] == m.gpr[r]
  {
    if k > 0 {
      assert FrameSet(p, k - 1) ==> FrameSet(p, k);
      if p.steps[k - 1].op.SetFrame? {
        assert FrameSet(p, k);
      }
      RegistersKept(m, p, k - 1, r);
    }
  }

  lemma {:induction false} XmmKept(m: Machine, p: Prolog, k: nat)
    requires WellFormed(p) && k <= |p.steps| && m.Ok()
    ensures After(m, p, k).xmm == m.xmm
  {
    if k > 0 {
      XmmKept(m, p, k - 1);
    }
  }

  /** Nothing is stored after the frame register is set. */
  lemma NoFrameYet(p: Prolog, k: nat)
    requires WellFormed(p) && 0 < k <= |p.steps| && (p.steps[k - 1].op.SavesReg() || p.steps[k - 1].op.SaveXmm?)
    ensures !FrameSet(p, k) && !FrameSet(p, k - 1)
  {
  }

  /** The slot of the k-th instruction, if intact, holds the value its register had on entry. */
  lemma LastReg(m: Machine, p: Prolog, k: nat, mem: Mem)
    requires WellFormed(p) && m.Ok() && 0 < k <= |p.steps| && p.steps[k - 1].op.SavesReg()
    requires Intact(mem, After(m, p, k).mem, Slot(m, p, k - 1), 8)
    ensures Read64(mem, Slot(m, p, k - 1)) == m.gpr[p.steps[k - 1].op.reg]
  {
    var op, before := p.steps[k - 1].op, After(m, p, k - 1);
    var a := SlotAddr(before.gpr[RSP], op);
    NoFrameYet(p, k);
    RegistersKept(m, p, k - 1, op.reg);
    ExecFacts(before, op, p.frameReg, p.frameOff);
    IntactRead(mem, After(m, p, k).mem, a, a + 8);
  }

  lemma LastXmm(m: Machine, p: Prolog, k: nat, mem: Mem)
    requires WellFormed(p) && m.Ok() && 0 < k <= |p.steps| && p.steps[k - 1].op.SaveXmm?
    requires Intact(mem, After(m, p, k).mem, Slot(m, p, k - 1), 16)
    ensures Read128(mem, Slot(m, p, k - 1)) == m.xmm[p.steps[k - 1].op.xmm]
  {
    var op, before := p.steps[k - 1].op, After(m, p, k - 1);
    var a := SlotAddr(before.gpr[RSP], op);
    XmmKept(m, p, k - 1);
    ExecFacts(before, op, p.frameReg, p.frameOff);
    IntactRead(mem, After(m, p, k).mem, a, a + 8);
    IntactRead(mem, After(m, p, k).mem, a + 8, a + 16);
  }

  lemma SlotsStayIntact(m: Machine, p: Prolog, k: nat, mem: Mem)
    requires WellFormed(p) && GoodFrame(m, p) && 0 < k <= |p.steps|
    requires SlotsIntact(m, p, k, mem, After(m, p, k).mem)
    ensures SlotsIntact(m, p, k - 1, mem, After(m, p, k - 1).mem)
  {
    var op, before := p.steps[k - 1].op, After(m, p, k - 1);
    assert Disjoint(m.gpr[RSP], p.entry.FrameSize(), Slot(m, p, k - 1), op.SlotSize());
    ExecElsewhere(before, op, p.frameReg, p.frameOff, m.gpr[RSP], p.entry.FrameSize());
    forall i | 0 <= i < k - 1
      ensures Intact(mem, before.mem, Slot(m, p, i), p.steps[i].op.SlotSize())
    {
      assert Disjoint(Slot(m, p, i), p.steps[i].op.SlotSize(), Slot(m, p, k - 1), op.SlotSize());
      ExecElsewhere(before, op, p.frameReg, p.frameOff, Slot(m, p, i), p.steps[i].op.SlotSize());
    }
  }

  lemma FrameStaysKnown(m: Machine, p: Prolog, k: nat, regs: Regs, mem: Mem)
    requires WellFormed(p) && m.Ok() && RegsOk(regs) && 0 < k <= |p.steps|
    requires FrameKnown(p, k, After(m, p, k), regs)
    ensures FrameKnown(p, k - 1, After(m, p, k - 1), UndoOp(p.steps[k - 1].op, Info(p.frameReg, p.frameOff), regs, mem))
  {
    var op := p.steps[k - 1].op;
    assert FrameSet(p, k) <==> FrameSet(p, k - 1) || op.SetFrame?;
    if op.SetFrame? {
      assert !FrameSet(p, k - 1);
    } else if FrameSet(p, k - 1) {
      assert op.Alloc?;
    }
  }

  // ----- the whole prolog -----

  ghost predicate SavedReg(p: Prolog, k: nat, r: nat)
    requires k <= |p.steps|
  {
    exists i :: 0 <= i < k && p.steps[i].op.SavesReg() && p.steps[i].op.reg == r
  }

  ghost predicate SavedXmm(p: Prolog, k: nat, x: nat)
    requires k <= |p.steps|
  {
    exists i :: 0 <= i < k && p.steps[i].op.SaveXmm? && p.steps[i].op.xmm == x
  }

  /** The caller's rip and rsp, as a function of the machine on entry. */
  ghost predicate CallerState(m: Machine, entry: Entry, r: Regs)
    requires m.Ok() && RegsOk(r)
  {
    var rsp := m.gpr[RSP];
    match entry
    case Call => r.rip == Read64(m.mem, rsp) && r.gpr[RSP] == rsp + 8
    case Trap(e) => var a := rsp + if e then 8 else 0; r.rip == Read64(m.mem, a) && r.gpr[RSP] == Read64(m.mem, a + 24)
  }

  /** Every register that was saved, or still held its value, has the value it had on entry. */
  ghost predicate RegistersRestored(m: Machine, p: Prolog, k: nat, regs: Regs, r: Regs)
    requires m.Ok() && RegsOk(regs) && RegsOk(r) && k <= |p.steps|
  {
    && (forall i :: 0 <= i < 16 && i != RSP && (regs.gpr[i] == m.gpr[i] || SavedReg(p, k, i)) ==> r.gpr[i] == m.gpr[i])
    && (forall i :: 0 <= i < 16 && (regs.xmm[i] == m.xmm[i] || SavedXmm(p, k, i)) ==> r.xmm[i] == m.xmm[i])
  }

  ghost predicate Restored(m: Machine, p: Prolog, k: nat, regs: Regs, r: Option<Regs>)
    requires m.Ok() && RegsOk(regs) && k <= |p.steps|
  {
    r.Some? && RegsOk(r.value) && CallerState(m, p.entry, r.value) && RegistersRestored(m, p, k, regs, r.value)
  }

  /** What undoing the entry itself comes to. */
  ghost function EntryUndone(entry: Entry, regs: Regs, mem: Mem): Regs
    requires RegsOk(regs)
  {
    match entry
    case Call => PopReturn(regs, mem)
    case Trap(e) => PopMachineFrame(e, regs, mem)
  }

  lemma UndoneEntry(entry: Entry, info: Info, regs: Regs, mem: Mem)
    requires RegsOk(regs) && info.Ok()
    ensures Undo(EncodeEntry(entry), info, regs, mem) == Some(EntryUndone(entry, regs, mem))
  {
    EncodedEntry(entry);
  }

  lemma EntryRestores(m: Machine, entry: Entry, regs: Regs, mem: Mem)
    requires m.Ok() && RegsOk(regs) && regs.gpr[RSP] == m.gpr[RSP] && 0 < m.gpr[RSP] && m.gpr[RSP] + 48 <= U64
    requires Intact(mem, m.mem, m.gpr[RSP], entry.FrameSize())
    ensures var r := EntryUndone(entry, regs, mem);
            RegsOk(r) && CallerState(m, entry, r) && r.gpr == regs.gpr[RSP := r.gpr[RSP]] && r.xmm == regs.xmm
  {
    var rsp := m.gpr[RSP];
    match entry {
      case Call =>
        IntactRead(mem, m.mem, rsp, rsp + 8);
        ReadBound(mem, rsp);
      case Trap(e) =>
        var a := rsp + if e then 8 else 0;
        IntactRead(mem, m.mem, a, a + 8);
        IntactRead(mem, m.mem, a + 24, a + 32);
        ReadBound(mem, a + 24);
    }
  }

  lemma UndoEntry(m: Machine, p: Prolog, info: Info, regs: Regs, mem: Mem)
    requires m.Ok() && RegsOk(regs) && info.Ok() && regs.gpr[RSP] == m.gpr[RSP] && 0 < m.gpr[RSP]
             && m.gpr[RSP] + 48 <= U64
    requires Intact(mem, m.mem, m.gpr[RSP], p.entry.FrameSize())
    ensures Restored(m, p, 0, regs, Undo(EncodeEntry(p.entry), info, regs, mem))
  {
    UndoneEntry(p.entry, info, regs, mem);
    EntryRestores(m, p.entry, regs, mem);
    OnlyRspChanged(m, p, regs, EntryUndone(p.entry, regs, mem));
  }

  lemma OnlyRspChanged(m: Machine, p: Prolog, regs: Regs, r: Regs)
    requires m.Ok() && RegsOk(regs) && RegsOk(r) && r.gpr == regs.gpr[RSP := r.gpr[RSP]] && r.xmm == regs.xmm
    ensures RegistersRestored(m, p, 0, regs, r)
  {
  }

  lemma RestoredTwice(m: Machine, p: Prolog, k: nat, regs: Regs, regs': Regs, r: Regs)
    requires m.Ok() && RegsOk(regs) && RegsOk(regs') && RegsOk(r) && k <= |p.steps|
    requires RegistersRestored(m, p, k, regs, regs') && RegistersRestored(m, p, 0, regs', r)
    ensures RegistersRestored(m, p, k, regs, r)
  {
  }

  /** If undoing the last operation restored its register, the rest restores the others. */
  lemma RestoredStep(m: Machine, p: Prolog, k: nat, regs: Regs, regs': Regs, r: Regs)
    requires m.Ok() && RegsOk(regs) && RegsOk(regs') && RegsOk(r) && 0 < k <= |p.steps|
    requires RegistersRestored(m, p, k - 1, regs', r)
    requires var op := p.steps[k - 1].op;
             && (forall i :: 0 <= i < 16 && i != RSP && (regs.gpr[i] == m.gpr[i] || (op.SavesReg() && op.reg == i)) ==>
                   regs'.gpr[i] == m.gpr[i])
             && (forall i :: 0 <= i < 16 && (regs.xmm[i] == m.xmm[i] || (op.SaveXmm? && op.xmm == i)) ==>
                   regs'.xmm[i] == m.xmm[i])
    ensures RegistersRestored(m, p, k, regs, r)
  {
    var op := p.steps[k - 1].op;
    forall i | 0 <= i < 16
      ensures SavedReg(p, k, i) ==> SavedReg(p, k - 1, i) || (op.SavesReg() && op.reg == i)
      ensures SavedXmm(p, k, i) ==> SavedXmm(p, k - 1, i) || (op.SaveXmm? && op.xmm == i)
    {
    }
  }

  /** Undoing an operation keeps every register that holds its value, and restores the one it saved. */
  lemma UndoOpRestores(op: Op, info: Info, regs: Regs, mem: Mem, gpr: seq<nat>, xmm: seq<M128>, rsp: nat)
    requires RegsOk(regs) && info.Ok() && op.Ok() && |gpr| == 16 && |xmm| == 16 && rsp < U64
    requires op.SavesReg() || op.SaveXmm? ==> regs.gpr[RSP] == RspAfter(rsp, op)
    requires op.SavesReg() ==> op.reg != RSP && Read64(mem, SlotAddr(rsp, op)) == gpr[op.reg]
    requires op.SaveXmm? ==> Read128(mem, SlotAddr(rsp, op)) == xmm[op.xmm]
    ensures var regs' := UndoOp(op, info, regs, mem);
            && (forall i :: 0 <= i < 16 && i != RSP && (regs.gpr[i] == gpr[i] || (op.SavesReg() && op.reg == i)) ==>
                  regs'.gpr[i] == gpr[i])
            && (forall i :: 0 <= i < 16 && (regs.xmm[i] == xmm[i] || (op.SaveXmm? && op.xmm == i)) ==>
                  regs'.xmm[i] == xmm[i])
  {
  }

  /** Undoing the last of k operations gives a state interrupted after k - 1, with its register restored. */
  lemma StepBack(m: Machine, p: Prolog, k: nat, regs: Regs, mem: Mem)
    requires WellFormed(p) && GoodFrame(m, p) && 0 < k <= |p.steps| && Interrupted(m, p, k, regs, mem)
    ensures Interrupted(m, p, k - 1, UndoOp(p.steps[k - 1].op, Info(p.frameReg, p.frameOff), regs, mem), mem)
  {
    SlotsStayIntact(m, p, k, mem);
    FrameStaysKnown(m, p, k, regs, mem);
  }

  lemma StepBackRestores(m: Machine, p: Prolog, k: nat, regs: Regs, mem: Mem, r: Regs)
    requires WellFormed(p) && m.Ok() && 0 < k <= |p.steps| && Interrupted(m, p, k, regs, mem) && RegsOk(r)
    requires RegistersRestored(m, p, k - 1, UndoOp(p.steps[k - 1].op, Info(p.frameReg, p.frameOff), regs, mem), r)
    ensures RegistersRestored(m, p, k, regs, r)
  {
    var op, info, before := p.steps[k - 1].op, Info(p.frameReg, p.frameOff), After(m, p, k - 1);
    assert After(m, p, k) == Exec(before, op, p.frameReg, p.frameOff);
    assert Slot(m, p, k - 1) == SlotAddr(before.gpr[RSP], op);
    assert Intact(mem, After(m, p, k).mem, Slot(m, p, k - 1), op.SlotSize());
    if op.SavesReg() || op.SaveXmm? {
      NoFrameYet(p, k);
      if op.SavesReg() { LastReg(m, p, k, mem); } else { LastXmm(m, p, k, mem); }
      assert regs.gpr[RSP] == RspAfter(before.gpr[RSP], op);
    }
    UndoOpRestores(op, info, regs, mem, m.gpr, m.xmm, before.gpr[RSP]);
    RestoredStep(m, p, k, regs, UndoOp(op, info, regs, mem), r);
  }

  /** What the loops of the unwinder do at the codes of one operation. */
  lemma AtStep(s: Step, rest: seq<Code>, pc: nat)
    requires s.Encodable()
    ensures Skip(EncodeStep(s) + rest, pc) == if s.offset <= pc then Some(EncodeStep(s) + rest) else Skip(rest, pc)
    ensures FindFrame(EncodeStep(s) + rest, pc) == if s.offset <= pc && s.op.SetFrame? then Some(true)
            else FindFrame(rest, pc)
  {
    EncodedStep(s, rest);
  }

  lemma UndoAtStep(s: Step, rest: seq<Code>, info: Info, regs: Regs, mem: Mem)
    requires s.Encodable() && RegsOk(regs) && info.Ok()
    ensures Undo(EncodeStep(s) + rest, info, regs, mem) == Undo(rest, info, UndoOp(s.op, info, regs, mem), mem)
  {
    EncodedStep(s, rest);
  }

  lemma FrameSetStep(p: Prolog, k: nat)
    requires 0 < k <= |p.steps|
    ensures FrameSet(p, k) <==> FrameSet(p, k - 1) || p.steps[k - 1].op.SetFrame?
  {
  }

  /** Undoes the first k operations, last one first. */
  ghost function UndoSteps(p: Prolog, k: nat, regs: Regs, mem: Mem): (r: Regs)
    requires WellFormed(p) && k <= |p.steps| && RegsOk(regs)
    ensures RegsOk(r)
  {
    if k == 0 then regs
    else UndoSteps(p, k - 1, UndoOp(p.steps[k - 1].op, Info(p.frameReg, p.frameOff), regs, mem), mem)
  }

  lemma {:induction false} UndoDecodes(p: Prolog, k: nat, regs: Regs, mem: Mem)
    requires WellFormed(p) && k <= |p.steps| && RegsOk(regs)
    ensures var info := Info(p.frameReg, p.frameOff);
            Undo(Encode(p, k), info, regs, mem) == Undo(EncodeEntry(p.entry), info, UndoSteps(p, k, regs, mem), mem)
  {
    if k > 0 {
      UndoAtStep(p.steps[k - 1], Encode(p, k - 1), Info(p.frameReg, p.frameOff), regs, mem);
      UndoDecodes(p, k - 1, UndoOp(p.steps[k - 1].op, Info(p.frameReg, p.frameOff), regs, mem), mem);
    }
  }

  lemma {:induction false} StepsRestore(m: Machine, p: Prolog, k: nat, regs: Regs, mem: Mem)
    requires WellFormed(p) && GoodFrame(m, p) && k <= |p.steps| && Interrupted(m, p, k, regs, mem)
    ensures Interrupted(m, p, 0, UndoSteps(p, k, regs, mem), mem)
    ensures RegistersRestored(m, p, k, regs, UndoSteps(p, k, regs, mem))
    decreases k
  {
    if k > 0 {
      var regs' := UndoOp(p.steps[k - 1].op, Info(p.frameReg, p.frameOff), regs, mem);
      StepBack(m, p, k, regs, mem);
      StepsRestore(m, p, k - 1, regs', mem);
      StepBackRestores(m, p, k, regs, mem, UndoSteps(p, k - 1, regs', mem));
    }
  }

  lemma UndoRestores(m: Machine, p: Prolog, k: nat, regs: Regs, mem: Mem)
    requires WellFormed(p) && GoodFrame(m, p) && k <= |p.steps| && Interrupted(m, p, k, regs, mem)
    ensures Restored(m, p, k, regs, Undo(Encode(p, k), Info(p.frameReg, p.frameOff), regs, mem))
  {
    var regs0 := UndoSteps(p, k, regs, mem);
    UndoDecodes(p, k, regs, mem);
    StepsRestore(m, p, k, regs, mem);
    UndoEntry(m, p, Info(p.frameReg, p.frameOff), regs0, mem);
    RestoredTwice(m, p, k, regs, regs0, Undo(EncodeEntry(p.entry), Info(p.frameReg, p.frameOff), regs0, mem).value);
  }

  // ----- the program counter -----

  /** At pc, exactly the first k instructions of the prolog have executed. */
  ghost predicate ExecutedAt(p: Prolog, pc: nat, k: nat) {
    k <= |p.steps| && forall i :: 0 <= i < |p.steps| ==> (p.steps[i].offset <= pc <==> i < k)
  }

  lemma {:induction false} SkipEncoded(p: Prolog, n: nat, pc: nat, k: nat)
    requires WellFormed(p) && ExecutedAt(p, pc, k) && k <= n <= |p.steps|
    ensures Skip(Encode(p, n), pc) == Some(Encode(p, k))
  {
    if n == 0 {
      EncodedEntry(p.entry);
    } else {
      AtStep(p.steps[n - 1], Encode(p, n - 1), pc);
      if n > k {
        SkipEncoded(p, n - 1, pc, k);
      }
    }
  }

  lemma {:induction false} FindEncoded(p: Prolog, n: nat, pc: nat, k: nat)
    requires WellFormed(p) && ExecutedAt(p, pc, k) && n <= |p.steps|
    ensures FindFrame(Encode(p, n), pc) == Some(FrameSet(p, if n < k then n else k))
  {
    if n == 0 {
      EncodedEntry(p.entry);
    } else {
      AtStep(p.steps[n - 1], Encode(p, n - 1), pc);
      FindEncoded(p, n - 1, pc, k);
      if n <= k {
        FrameSetStep(p, n);
      }
    }
  }

  /** Version 2 unwind data puts descriptions of the epilogs before the prolog's codes. */
  ghost predicate EpilogCodes(codes: seq<Code>) {
    forall i :: 0 <= i < |codes| ==> Opcode(codes[i]) == UWOP_EPILOG
  }

  lemma {:induction false} SkipPastEpilogs(epilogs: seq<Code>, codes: seq<Code>, pc: nat)
    requires EpilogCodes(epilogs) && forall i :: 0 <= i < |epilogs| ==> Offset(epilogs[i]) > pc
    ensures Skip(epilogs + codes, pc) == Skip(codes, pc)
  {
    if epilogs == [] {
      assert epilogs + codes == codes;
    } else {
      assert (epilogs + codes)[1..] == epilogs[1..] + codes;
      SkipPastEpilogs(epilogs[1..], codes, pc);
    }
  }

  lemma {:induction false} FindPastEpilogs(epilogs: seq<Code>, codes: seq<Code>, pc: nat)
    requires EpilogCodes(epilogs)
    ensures FindFrame(epilogs + codes, pc) == FindFrame(codes, pc)
  {
    if epilogs == [] {
      assert epilogs + codes == codes;
    } else {
      assert (epilogs + codes)[1..] == epilogs[1..] + codes;
      FindPastEpilogs(epilogs[1..], codes, pc);
    }
  }

  lemma {:induction false} UndoPastEpilogs(epilogs: seq<Code>, codes: seq<Code>, info: Info, regs: Regs, mem: Mem)
    requires RegsOk(regs) && info.Ok() && EpilogCodes(epilogs)
    ensures Undo(epilogs + codes, info, regs, mem) == Undo(codes, info, regs, mem)
    decreases |epilogs|
  {
    if epilogs == [] {
      assert epilogs + codes == codes;
    } else {
      assert (epilogs + codes)[1..] == epilogs[1..] + codes;
      UndoPastEpilogs(epilogs[1..], codes, info, regs, mem);
    }
  }

  /** Where the search for the first executed operation stops, if it stops among epilog codes. */
  lemma {:induction false} SkipStopsInEpilogs(epilogs: seq<Code>, codes: seq<Code>, pc: nat)
    requires EpilogCodes(epilogs) && exists i :: 0 <= i < |epilogs| && Offset(epilogs[i]) <= pc
    ensures exists j :: 0 <= j < |epilogs| && Skip(epilogs + codes, pc) == Some(epilogs[j..] + codes)
  {
    if Offset(epilogs[0]) <= pc {
      assert epilogs[0..] + codes == epilogs + codes;
    } else {
      assert (epilogs + codes)[1..] == epilogs[1..] + codes;
      SkipStopsInEpilogs(epilogs[1..], codes, pc);
      var j :| 0 <= j < |epilogs[1..]| && Skip(epilogs[1..] + codes, pc) == Some(epilogs[1..][j..] + codes);
      assert epilogs[1..][j..] == epilogs[j + 1..];
    }
  }

  // ----- results -----

  ghost function Unwound(codes: seq<Code>, info: Info, size: nat, pc: nat, regs: Regs, mem: Mem): Option<Regs>
    requires RegsOk(regs) && info.Ok()
  {
    match if pc <= size then Skip(codes, pc) else Some(codes)
    case None => None
    case Some(toUndo) => Undo(toUndo, info, regs, mem)
  }

  /** An epilog code at or before pc stops the search for the first executed operation. */
  ghost predicate StopsEarly(epilogs: seq<Code>, pc: nat) {
    exists i :: 0 <= i < |epilogs| && Offset(epilogs[i]) <= pc
  }

  /** If the search stops early, or if the prolog is over, all operations are undone. */
  lemma AllUndone(p: Prolog, epilogs: seq<Code>, pc: nat, regs: Regs, mem: Mem)
    requires WellFormed(p) && EpilogCodes(epilogs) && RegsOk(regs) && (StopsEarly(epilogs, pc) || pc > p.size)
    ensures var info, n := Info(p.frameReg, p.frameOff), |p.steps|;
            Unwound(epilogs + Encode(p, n), info, p.size, pc, regs, mem) == Undo(Encode(p, n), info, regs, mem)
  {
    var info, codes := Info(p.frameReg, p.frameOff), Encode(p, |p.steps|);
    if pc > p.size {
      UndoPastEpilogs(epilogs, codes, info, regs, mem);
    } else {
      SkipStopsInEpilogs(epilogs, codes, pc);
      var j :| 0 <= j < |epilogs| && Skip(epilogs + codes, pc) == Some(epilogs[j..] + codes);
      UndoPastEpilogs(epilogs[j..], codes, info, regs, mem);
    }
  }

  /** Otherwise those that have executed are undone. */
  lemma ExecutedUndone(p: Prolog, epilogs: seq<Code>, pc: nat, k: nat, regs: Regs, mem: Mem)
    requires WellFormed(p) && ExecutedAt(p, pc, k) && EpilogCodes(epilogs) && RegsOk(regs) && !StopsEarly(epilogs, pc)
             && pc <= p.size
    ensures var info, n := Info(p.frameReg, p.frameOff), |p.steps|;
            Unwound(epilogs + Encode(p, n), info, p.size, pc, regs, mem) == Undo(Encode(p, k), info, regs, mem)
  {
    SkipPastEpilogs(epilogs, Encode(p, |p.steps|), pc);
    SkipEncoded(p, |p.steps|, pc, k);
  }

  // ----- a search that stops too early -----

  /** Undoes the operations from n down to k, which have not executed. */
  ghost function UndoRange(p: Prolog, n: nat, k: nat, regs: Regs, mem: Mem): (r: Regs)
    requires WellFormed(p) && k <= n <= |p.steps| && RegsOk(regs)
    ensures RegsOk(r)
    decreases n
  {
    if n == k then regs
    else UndoRange(p, n - 1, k, UndoOp(p.steps[n - 1].op, Info(p.frameReg, p.frameOff), regs, mem), mem)
  }

  lemma {:induction false} UndoInTwoParts(p: Prolog, n: nat, k: nat, regs: Regs, mem: Mem)
    requires WellFormed(p) && k <= n <= |p.steps| && RegsOk(regs)
    ensures UndoSteps(p, n, regs, mem) == UndoSteps(p, k, UndoRange(p, n, k, regs, mem), mem)
    decreases n
  {
    if k < n {
      UndoInTwoParts(p, n - 1, k, UndoOp(p.steps[n - 1].op, Info(p.frameReg, p.frameOff), regs, mem), mem);
    }
  }

  /** How far an operation moves rsp down. */
  function Grows(op: Op): int {
    if op.Push? then 8 else if op.Alloc? then op.n else 0
  }

  /** The stack that the operations from k up to n take. */
  ghost function Sum(p: Prolog, k: nat, n: nat): int
    requires k <= n <= |p.steps|
    decreases n
  {
    if n == k then 0 else Sum(p, k, n - 1) + Grows(p.steps[n - 1].op)
  }

  /** Equal as 64-bit values. */
  predicate Same64(a: int, b: int) {
    (a - b) % U64 == 0
  }

  lemma Same64Add(a: int, b: int, c: int)
    requires Same64(a, b)
    ensures Same64(a + c, b + c) && Same64(b, a)
    ensures 0 <= a < U64 && 0 <= b < U64 ==> a == b
  {
    assert a + c - (b + c) == a - b;
    var q := (a - b) / U64;
    assert a - b == q * U64;
    assert b - a == (-q) * U64;
  }

  lemma Same64Trans(a: int, b: int, c: int)
    requires Same64(a, b) && Same64(b, c)
    ensures Same64(a, c)
  {
    var q, r := (a - b) / U64, (b - c) / U64;
    assert a - c == (q + r) * U64;
  }

  lemma Add64Same(a: nat, d: int)
    requires a < U64 && -U64 < d < U64
    ensures Same64(Add64(a, d), a + d)
  {
  }

  /** Undoing operations that set no frame register moves rsp by exactly what they take. */
  lemma {:induction false} RangeMovesRsp(p: Prolog, n: nat, k: nat, regs: Regs, mem: Mem)
    requires WellFormed(p) && k <= n <= |p.steps| && RegsOk(regs)
    requires forall i :: k <= i < n ==> !p.steps[i].op.SetFrame?
    ensures Same64(UndoRange(p, n, k, regs, mem).gpr[RSP], regs.gpr[RSP] + Sum(p, k, n))
    decreases n
  {
    if k < n {
      var op := p.steps[n - 1].op;
      var regs' := UndoOp(op, Info(p.frameReg, p.frameOff), regs, mem);
      RangeMovesRsp(p, n - 1, k, regs', mem);
      var g, rest := Grows(op), Sum(p, k, n - 1);
      assert regs'.gpr[RSP] == Add64(regs.gpr[RSP], g);
      Add64Same(regs.gpr[RSP], g);
      Same64Add(regs'.gpr[RSP], regs.gpr[RSP] + g, rest);
      Same64Trans(UndoRange(p, n, k, regs, mem).gpr[RSP], regs'.gpr[RSP] + rest, regs.gpr[RSP] + g + rest);
    }
  }

  /** The processor moves rsp down by as much. */
  lemma {:induction false} AfterMovesRsp(m: Machine, p: Prolog, k: nat, n: nat)
    requires WellFormed(p) && m.Ok() && k <= n <= |p.steps|
    ensures Same64(After(m, p, k).gpr[RSP], After(m, p, n).gpr[RSP] + Sum(p, k, n))
    decreases n
  {
    if k < n {
      AfterMovesRsp(m, p, k, n - 1);
      var op := p.steps[n - 1].op;
      var g, rest, before, after := Grows(op), Sum(p, k, n - 1), After(m, p, n - 1).gpr[RSP], After(m, p, n).gpr[RSP];
      assert after == Add64(before, -g);
      Add64Same(before, -g);
      Same64Add(after, before - g, g);
      Same64Add(before, after + g, rest);
      Same64Trans(After(m, p, k).gpr[RSP], before + rest, after + g + rest);
    }
  }

  lemma {:induction false} UndoRangeSplits(p: Prolog, n: nat, j: nat, k: nat, regs: Regs, mem: Mem)
    requires WellFormed(p) && k <= j <= n <= |p.steps| && RegsOk(regs)
    ensures UndoRange(p, n, k, regs, mem) == UndoRange(p, j, k, UndoRange(p, n, j, regs, mem), mem)
    decreases n
  {
    if j < n {
      UndoRangeSplits(p, n - 1, j, k, UndoOp(p.steps[n - 1].op, Info(p.frameReg, p.frameOff), regs, mem), mem);
    }
  }

  /** Undoing allocations changes rsp only. */
  lemma {:induction false} AllocsMoveOnlyRsp(p: Prolog, n: nat, k: nat, regs: Regs, mem: Mem)
    requires WellFormed(p) && k <= n <= |p.steps| && RegsOk(regs)
    requires forall i :: k <= i < n ==> p.steps[i].op.Alloc?
    ensures var r := UndoRange(p, n, k, regs, mem); r == regs.(gpr := regs.gpr[RSP := r.gpr[RSP]])
    decreases n
  {
    if k < n {
      AllocsMoveOnlyRsp(p, n - 1, k, UndoOp(p.steps[n - 1].op, Info(p.frameReg, p.frameOff), regs, mem), mem);
    }
  }

  /**
   Undoing what has not executed leaves rsp where the executed part of the prolog left it: either the
   rest takes no stack, or it sets a frame register that happens to hold its future value already.
   */
  ghost predicate InStep(m: Machine, p: Prolog, k: nat, regs: Regs)
    requires WellFormed(p) && m.Ok() && RegsOk(regs) && k <= |p.steps|
  {
    if FrameSet(p, |p.steps|) then
      forall f :: k <= f < |p.steps| && p.steps[f].op.SetFrame? ==>
        FrameBase(Info(p.frameReg, p.frameOff), regs) == After(m, p, f).gpr[RSP]
    else
      Sum(p, k, |p.steps|) % U64 == 0
  }

  lemma NoFrameInStepIff(m: Machine, p: Prolog, k: nat, regs: Regs, mem: Mem)
    requires WellFormed(p) && m.Ok() && RegsOk(regs) && k <= |p.steps| && !FrameSet(p, |p.steps|)
    requires regs.gpr[RSP] == After(m, p, k).gpr[RSP]
    ensures UndoRange(p, |p.steps|, k, regs, mem).gpr[RSP] == After(m, p, k).gpr[RSP] <==> InStep(m, p, k, regs)
  {
    RangeMovesRsp(p, |p.steps|, k, regs, mem);
    ShiftZeroIff(UndoRange(p, |p.steps|, k, regs, mem).gpr[RSP], regs.gpr[RSP], Sum(p, k, |p.steps|));
  }

  lemma ShiftZeroIff(got: int, rsp: int, sum: int)
    requires 0 <= got < U64 && 0 <= rsp < U64 && Same64(got, rsp + sum)
    ensures got == rsp <==> sum % U64 == 0
  {
    var q := (got - rsp - sum) / U64;
    assert got - rsp == sum + q * U64;
    if sum % U64 == 0 {
      Same64Add(sum, 0, rsp);
      Same64Trans(got, rsp + sum, rsp);
      Same64Add(got, rsp, 0);
    } else if got == rsp {
      Same64Add(got, rsp + sum, -rsp);
    }
  }

  /** Undoing the frame register takes rsp from it, whatever was undone before. */
  lemma FrameMovesRsp(p: Prolog, k: nat, f: nat, regs: Regs, mem: Mem)
    requires WellFormed(p) && RegsOk(regs) && k <= f < |p.steps| && p.steps[f].op.SetFrame?
    ensures Same64(UndoRange(p, |p.steps|, k, regs, mem).gpr[RSP],
                   FrameBase(Info(p.frameReg, p.frameOff), regs) + Sum(p, k, f))
  {
    var n := |p.steps|;
    var late := UndoRange(p, n, f + 1, regs, mem);
    UndoRangeSplits(p, n, f + 1, k, regs, mem);
    AllocsMoveOnlyRsp(p, n, f + 1, regs, mem);
    FrameUndone(p, k, f, regs, late, mem);
  }

  lemma FrameUndone(p: Prolog, k: nat, f: nat, regs: Regs, late: Regs, mem: Mem)
    requires WellFormed(p) && RegsOk(regs) && RegsOk(late) && k <= f < |p.steps| && p.steps[f].op.SetFrame?
    requires late.gpr == regs.gpr[RSP := late.gpr[RSP]]
    ensures Same64(UndoRange(p, f + 1, k, late, mem).gpr[RSP],
                   FrameBase(Info(p.frameReg, p.frameOff), regs) + Sum(p, k, f))
  {
    RangeMovesRsp(p, f, k, UndoOp(SetFrame, Info(p.frameReg, p.frameOff), late, mem), mem);
  }

  lemma OnlyFrame(m: Machine, p: Prolog, k: nat, f: nat, regs: Regs)
    requires WellFormed(p) && m.Ok() && RegsOk(regs) && k <= f < |p.steps| && p.steps[f].op.SetFrame?
    ensures InStep(m, p, k, regs) <==> FrameBase(Info(p.frameReg, p.frameOff), regs) == After(m, p, f).gpr[RSP]
  {
    forall g | k <= g < |p.steps| && p.steps[g].op.SetFrame?
      ensures g == f
    {
    }
  }

  /** Starting from base and going up by what the operations from k to f take, got is the rsp before
      them exactly if base is the rsp after them. */
  lemma ReachedIff(m: Machine, p: Prolog, k: nat, f: nat, got: nat, base: nat)
    requires WellFormed(p) && m.Ok() && k <= f <= |p.steps|
    requires got < U64 && base < U64 && Same64(got, base + Sum(p, k, f))
    ensures got == After(m, p, k).gpr[RSP] <==> base == After(m, p, f).gpr[RSP]
  {
    AfterMovesRsp(m, p, k, f);
    EqualModulo(got, base, After(m, p, k).gpr[RSP], After(m, p, f).gpr[RSP], Sum(p, k, f));
  }

  lemma FrameReachedIff(m: Machine, p: Prolog, k: nat, f: nat, regs: Regs, mem: Mem)
    requires WellFormed(p) && m.Ok() && RegsOk(regs) && k <= f < |p.steps| && p.steps[f].op.SetFrame?
    ensures UndoRange(p, |p.steps|, k, regs, mem).gpr[RSP] == After(m, p, k).gpr[RSP] <==>
            FrameBase(Info(p.frameReg, p.frameOff), regs) == After(m, p, f).gpr[RSP]
  {
    FrameMovesRsp(p, k, f, regs, mem);
    ReachedIff(m, p, k, f, UndoRange(p, |p.steps|, k, regs, mem).gpr[RSP],
               FrameBase(Info(p.frameReg, p.frameOff), regs));
  }

  lemma FrameInStepIff(m: Machine, p: Prolog, k: nat, f: nat, regs: Regs, mem: Mem)
    requires WellFormed(p) && m.Ok() && RegsOk(regs) && k <= f < |p.steps| && p.steps[f].op.SetFrame?
    ensures UndoRange(p, |p.steps|, k, regs, mem).gpr[RSP] == After(m, p, k).gpr[RSP] <==> InStep(m, p, k, regs)
  {
    FrameReachedIff(m, p, k, f, regs, mem);
    OnlyFrame(m, p, k, f, regs);
  }

  lemma EqualModulo(got: int, base: int, goal: int, want: int, sum: int)
    requires 0 <= got < U64 && 0 <= base < U64 && 0 <= goal < U64 && 0 <= want < U64
    requires Same64(got, base + sum) && Same64(goal, want + sum)
    ensures got == goal <==> base == want
  {
    Same64Add(got, base + sum, -sum);
    Same64Add(goal, want + sum, -sum);
    if got == goal {
      Same64Trans(base, got - sum, want);
      Same64Add(base, want, 0);
    } else if base == want {
      Same64Add(goal, want + sum, 0);
      Same64Trans(got, base + sum, goal);
      Same64Add(got, goal, 0);
    }
  }

  lemma RspReachedIff(m: Machine, p: Prolog, k: nat, regs: Regs, mem: Mem)
    requires WellFormed(p) && m.Ok() && RegsOk(regs) && k <= |p.steps| && !FrameSet(p, k)
    requires regs.gpr[RSP] == After(m, p, k).gpr[RSP]
    ensures UndoRange(p, |p.steps|, k, regs, mem).gpr[RSP] == After(m, p, k).gpr[RSP] <==> InStep(m, p, k, regs)
  {
    if FrameSet(p, |p.steps|) {
      var f :| 0 <= f < |p.steps| && p.steps[f].op.SetFrame?;
      FrameInStepIff(m, p, k, f, regs, mem);
    } else {
      NoFrameInStepIff(m, p, k, regs, mem);
    }
  }

  lemma UndoMovesRsp(p: Prolog, k: nat, regs: Regs, mem: Mem)
    requires WellFormed(p) && RegsOk(regs) && k <= |p.steps| && !FrameSet(p, k)
    ensures Same64(UndoSteps(p, k, regs, mem).gpr[RSP], regs.gpr[RSP] + Sum(p, 0, k))
  {
    UndoInTwoParts(p, k, 0, regs, mem);
    RangeMovesRsp(p, k, 0, regs, mem);
  }

  /** The first k operations, undone from any rsp, end at the rsp of the entry exactly if they start
      where those operations left it. */
  lemma EntryReachedIff(m: Machine, p: Prolog, k: nat, regs: Regs, mem: Mem)
    requires WellFormed(p) && m.Ok() && RegsOk(regs) && k <= |p.steps| && !FrameSet(p, k)
    ensures UndoSteps(p, k, regs, mem).gpr[RSP] == m.gpr[RSP] <==> regs.gpr[RSP] == After(m, p, k).gpr[RSP]
  {
    UndoMovesRsp(p, k, regs, mem);
    ReachedIff(m, p, 0, k, UndoSteps(p, k, regs, mem).gpr[RSP], regs.gpr[RSP]);
  }

  /** However the function was entered, the entry frame is looked for where it is exactly if undoing what
      has not executed leaves rsp in step. */
  lemma EntryFrameFoundIff(m: Machine, p: Prolog, k: nat, regs: Regs, mem: Mem)
    requires WellFormed(p) && m.Ok() && RegsOk(regs) && k <= |p.steps| && !FrameSet(p, k)
    requires regs.gpr[RSP] == After(m, p, k).gpr[RSP]
    ensures UndoSteps(p, |p.steps|, regs, mem).gpr[RSP] == m.gpr[RSP] <==> InStep(m, p, k, regs)
  {
    UndoInTwoParts(p, |p.steps|, k, regs, mem);
    EntryReachedIff(m, p, k, UndoRange(p, |p.steps|, k, regs, mem), mem);
    RspReachedIff(m, p, k, regs, mem);
  }

  lemma {:induction false} UnsavedUntouched(p: Prolog, k: nat, regs: Regs, mem: Mem, i: nat)
    requires WellFormed(p) && RegsOk(regs) && k <= |p.steps| && i < 16
    ensures i != RSP && !SavedReg(p, k, i) ==> UndoSteps(p, k, regs, mem).gpr[i] == regs.gpr[i]
    ensures !SavedXmm(p, k, i) ==> UndoSteps(p, k, regs, mem).xmm[i] == regs.xmm[i]
    decreases k
  {
    if k > 0 {
      assert SavedReg(p, k - 1, i) ==> SavedReg(p, k, i);
      assert SavedXmm(p, k - 1, i) ==> SavedXmm(p, k, i);
      UnsavedUntouched(p, k - 1, UndoOp(p.steps[k - 1].op, Info(p.frameReg, p.frameOff), regs, mem), mem, i);
    }
  }

  /** Registers that no executed operation saved, and that still held their value, hold it in regs'. */
  ghost predicate UnsavedKept(m: Machine, p: Prolog, k: nat, regs: Regs, regs': Regs)
    requires m.Ok() && RegsOk(regs) && RegsOk(regs') && k <= |p.steps|
  {
    && (forall i :: 0 <= i < 16 && i != RSP && regs.gpr[i] == m.gpr[i] && !SavedReg(p, k, i) ==>
          regs'.gpr[i] == m.gpr[i])
    && (forall i :: 0 <= i < 16 && regs.xmm[i] == m.xmm[i] && !SavedXmm(p, k, i) ==> regs'.xmm[i] == m.xmm[i])
  }

  /**
   When an epilog code ends the search too early, all operations are undone, also those that have not
   executed.  That does no harm if the frame register is set, since only allocations can follow and
   rsp is taken from it; otherwise rsp must stay in step and no register may be clobbered.
   */
  ghost predicate Harmless(m: Machine, p: Prolog, k: nat, regs: Regs, mem: Mem)
    requires WellFormed(p) && m.Ok() && RegsOk(regs) && k <= |p.steps|
  {
    || FrameSet(p, k)
    || (InStep(m, p, k, regs) && UnsavedKept(m, p, k, regs, UndoRange(p, |p.steps|, k, regs, mem)))
  }

  lemma HarmlessInterrupted(m: Machine, p: Prolog, k: nat, regs: Regs, mem: Mem)
    requires WellFormed(p) && m.Ok() && k <= |p.steps| && Interrupted(m, p, k, regs, mem)
    requires Harmless(m, p, k, regs, mem)
    ensures var regs' := UndoRange(p, |p.steps|, k, regs, mem);
            Interrupted(m, p, k, regs', mem) && UnsavedKept(m, p, k, regs, regs')
  {
    if FrameSet(p, k) {
      AllocsMoveOnlyRsp(p, |p.steps|, k, regs, mem);
    } else {
      RspReachedIff(m, p, k, regs, mem);
    }
  }

  lemma RestoredThrough(m: Machine, p: Prolog, k: nat, regs: Regs, regs': Regs, r: Regs)
    requires m.Ok() && RegsOk(regs) && RegsOk(regs') && RegsOk(r) && k <= |p.steps|
    requires UnsavedKept(m, p, k, regs, regs') && RegistersRestored(m, p, k, regs', r)
    ensures RegistersRestored(m, p, k, regs, r)
  {
  }

  lemma HarmlessRestores(m: Machine, p: Prolog, k: nat, regs: Regs, mem: Mem)
    requires WellFormed(p) && GoodFrame(m, p) && k <= |p.steps| && Interrupted(m, p, k, regs, mem)
    requires Harmless(m, p, k, regs, mem)
    ensures Restored(m, p, k, regs, Undo(Encode(p, |p.steps|), Info(p.frameReg, p.frameOff), regs, mem))
  {
    var n, info, regs' := |p.steps|, Info(p.frameReg, p.frameOff), UndoRange(p, |p.steps|, k, regs, mem);
    HarmlessInterrupted(m, p, k, regs, mem);
    UndoDecodes(p, n, regs, mem);
    UndoDecodes(p, k, regs', mem);
    UndoInTwoParts(p, n, k, regs, mem);
    UndoRestores(m, p, k, regs', mem);
    RestoredThrough(m, p, k, regs, regs', Undo(Encode(p, k), info, regs', mem).value);
  }

  lemma CallerRspIff(m: Machine, regs: Regs, mem: Mem)
    requires m.Ok() && RegsOk(regs) && 0 < m.gpr[RSP] && m.gpr[RSP] + 48 <= U64
    ensures PopReturn(regs, mem).gpr[RSP] == m.gpr[RSP] + 8 <==> regs.gpr[RSP] == m.gpr[RSP]
  {
  }

  lemma RestoredIsHarmless(m: Machine, p: Prolog, k: nat, regs: Regs, mem: Mem)
    requires WellFormed(p) && GoodFrame(m, p) && k <= |p.steps| && Interrupted(m, p, k, regs, mem) && p.entry.Call?
    requires Restored(m, p, k, regs, Undo(Encode(p, |p.steps|), Info(p.frameReg, p.frameOff), regs, mem))
    ensures Harmless(m, p, k, regs, mem)
  {
    var n, info, regs' := |p.steps|, Info(p.frameReg, p.frameOff), UndoRange(p, |p.steps|, k, regs, mem);
    var regs0 := UndoSteps(p, k, regs', mem);
    UndoDecodes(p, n, regs, mem);
    UndoInTwoParts(p, n, k, regs, mem);
    UndoneEntry(p.entry, info, regs0, mem);
    if !FrameSet(p, k) {
      CallerRspIff(m, regs0, mem);
      EntryReachedIff(m, p, k, regs', mem);
      RspReachedIff(m, p, k, regs, mem);
      forall i | 0 <= i < 16
        ensures i != RSP && !SavedReg(p, k, i) ==> PopReturn(regs0, mem).gpr[i] == regs'.gpr[i]
        ensures !SavedXmm(p, k, i) ==> PopReturn(regs0, mem).xmm[i] == regs'.xmm[i]
      {
        UnsavedUntouched(p, k, regs', mem, i);
      }
    }
  }

  /**
   The unwinder inverts every prolog, interrupted after any of its instructions or anywhere in the
   body, even if the body moved rsp after the frame register was set: the caller's rip and rsp and
   every saved register come back.  If an epilog code ends the search for the first executed
   operation early, they come back exactly if that is harmless (for a trap, if it is harmless).
   */
  lemma UnwindInvertsProlog(m: Machine, p: Prolog, epilogs: seq<Code>, pc: nat, k: nat, regs: Regs, mem: Mem)
    requires WellFormed(p) && GoodFrame(m, p) && ExecutedAt(p, pc, k) && EpilogCodes(epilogs)
    requires Interrupted(m, p, k, regs, mem)
    ensures var r := Unwound(epilogs + Encode(p, |p.steps|), Info(p.frameReg, p.frameOff), p.size, pc, regs, mem);
            && (!StopsEarly(epilogs, pc) || Harmless(m, p, k, regs, mem) ==> Restored(m, p, k, regs, r))
            && (p.entry.Call? && Restored(m, p, k, regs, r) ==>
                  !StopsEarly(epilogs, pc) || Harmless(m, p, k, regs, mem))
  {
    if StopsEarly(epilogs, pc) {
      AllUndone(p, epilogs, pc, regs, mem);
      StoppedEarly(m, p, k, regs, mem);
    } else {
      if pc > p.size {
        AllUndone(p, epilogs, pc, regs, mem);
        assert k == |p.steps|;
      } else {
        ExecutedUndone(p, epilogs, pc, k, regs, mem);
      }
      UndoRestores(m, p, k, regs, mem);
    }
  }

  lemma StoppedEarly(m: Machine, p: Prolog, k: nat, regs: Regs, mem: Mem)
    requires WellFormed(p) && GoodFrame(m, p) && k <= |p.steps| && Interrupted(m, p, k, regs, mem)
    ensures var r := Undo(Encode(p, |p.steps|), Info(p.frameReg, p.frameOff), regs, mem);
            && (Harmless(m, p, k, regs, mem) ==> Restored(m, p, k, regs, r))
            && (p.entry.Call? && Restored(m, p, k, regs, r) ==> Harmless(m, p, k, regs, mem))
  {
    if Harmless(m, p, k, regs, mem) {
      HarmlessRestores(m, p, k, regs, mem);
    } else if p.entry.Call?
        && Restored(m, p, k, regs, Undo(Encode(p, |p.steps|), Info(p.frameReg, p.frameOff), regs, mem)) {
      RestoredIsHarmless(m, p, k, regs, mem);
    }
  }

  lemma {:induction false} SumBounds(p: Prolog, k: nat, n: nat)
    requires WellFormed(p) && k <= n <= |p.steps|
    ensures 0 <= Sum(p, k, n) <= (n - k) * 0x8000_0000
    ensures Sum(p, k, n) == 0 <==> forall i :: k <= i < n ==> Grows(p.steps[i].op) == 0
    decreases n
  {
    if k < n {
      SumBounds(p, k, n - 1);
      assert p.steps[n - 1].Encodable();
    }
  }

  /** The unwind data counts its codes in a byte: without a frame register, rsp stays in step exactly
      if what is left of the prolog pushes nothing and allocates nothing. */
  lemma InStepIffNothingTaken(m: Machine, p: Prolog, k: nat, regs: Regs)
    requires WellFormed(p) && m.Ok() && RegsOk(regs) && k <= |p.steps| < 256 && !FrameSet(p, |p.steps|)
    ensures InStep(m, p, k, regs) <==> forall i :: k <= i < |p.steps| ==> Grows(p.steps[i].op) == 0
  {
    SumBounds(p, k, |p.steps|);
  }

  ghost function EightBytes(): Prolog {
    Prolog(Call, [Step(Alloc(8), 1, 4)], 0, 0, 4)
  }

  lemma EightBytesOk(m: Machine)
    requires m.Ok() && 0 < m.gpr[RSP] && m.gpr[RSP] + 48 <= U64
    ensures var p, regs := EightBytes(), Regs(m.gpr, m.xmm, 0);
            && WellFormed(p) && GoodFrame(m, p) && ExecutedAt(p, 1, 0) && Interrupted(m, p, 0, regs, m.mem)
            && !Harmless(m, p, 0, regs, m.mem)
  {
    var p := EightBytes();
    assert p.steps[0].op == Alloc(8) && Sum(p, 0, 0) == 0;
    assert Sum(p, 0, 1) == 8;
  }

  /** A prolog that an epilog code breaks: it allocates 8 bytes, and has not done so yet. */
  lemma EpilogCodeBreaksProlog(m: Machine)
    requires m.Ok() && 0 < m.gpr[RSP] && m.gpr[RSP] + 48 <= U64
    ensures var p, epilogs, regs := EightBytes(), [MakeCode(1, UWOP_EPILOG, 0)], Regs(m.gpr, m.xmm, 0);
            && WellFormed(p) && GoodFrame(m, p) && ExecutedAt(p, 1, 0) && Interrupted(m, p, 0, regs, m.mem)
            && !Restored(m, p, 0, regs, Unwound(epilogs + Encode(p, |p.steps|), Info(0, 0), p.size, 1, regs, m.mem))
  {
    var epilogs := [MakeCode(1, UWOP_EPILOG, 0)];
    assert Offset(epilogs[0]) <= 1;
    EightBytesOk(m);
    UnwindInvertsProlog(m, EightBytes(), epilogs, 1, 0, Regs(m.gpr, m.xmm, 0), m.mem);
  }

  /** The establisher frame is rsp as the prolog had it when it set the frame register, or the
      current rsp if it has not done so. */
  lemma EstablisherIsFrameBase(m: Machine, p: Prolog, epilogs: seq<Code>, pc: nat, k: nat, regs: Regs, mem: Mem)
    requires WellFormed(p) && m.Ok() && ExecutedAt(p, pc, k) && EpilogCodes(epilogs)
    requires Interrupted(m, p, k, regs, mem)
    ensures var est := Establisher(epilogs + Encode(p, |p.steps|), Info(p.frameReg, p.frameOff), p.size, pc, regs);
            && est.Some?
            && (!FrameSet(p, k) ==> est.value == regs.gpr[RSP])
            && (forall i :: 0 <= i < k && p.steps[i].op.SetFrame? ==> est.value == After(m, p, i).gpr[RSP])
  {
    FindPastEpilogs(epilogs, Encode(p, |p.steps|), pc);
    FindEncoded(p, |p.steps|, pc, k);
    if pc >= p.size {
      assert p.steps != [] ==> p.steps[|p.steps| - 1].offset <= pc;
    }
    forall i | 0 <= i < k && p.steps[i].op.SetFrame?
      ensures After(m, p, k).gpr[p.frameReg] == Add64(After(m, p, i).gpr[RSP], p.frameOff * 16)
    {
      FrameRegisterKept(m, p, i, k);
    }
  }

  lemma {:induction false} FrameRegisterKept(m: Machine, p: Prolog, i: nat, k: nat)
    requires WellFormed(p) && m.Ok() && i < k <= |p.steps| && p.steps[i].op.SetFrame?
    ensures After(m, p, k).gpr[p.frameReg] == Add64(After(m, p, i).gpr[RSP], p.frameOff * 16)
  {
    if i < k - 1 {
      FrameRegisterKept(m, p, i, k - 1);
      assert p.steps[k - 1].op.Alloc?;
    }
  }

  // ----- the unwinder, as written -----

  class Context {
    var gpr: seq<nat>
    var xmm: seq<M128>
    var rip: nat

    ghost function View(): Regs
      reads this
    {
      Regs(gpr, xmm, rip)
    }
  }

  method GetUnwindSlots(codes: seq<Code>, i: nat) returns (ok: bool, n: nat)
    requires i < |codes|
    ensures ok == SlotsIn(codes[i..]).Some? && (ok ==> n == SlotsIn(codes[i..]).value)
  {
    var slots := Slots(codes[i]);
    ok := slots.Some? && slots.value <= |codes| - i;
    n := if ok then slots.value else 0;
  }

  method FindEstablisher(codes: seq<Code>, info: Info, size: nat, pc: nat, ctx: Context) returns (ok: bool, frame: nat)
    requires RegsOk(ctx.View()) && info.Ok()
    ensures var est := Establisher(codes, info, size, pc, ctx.View());
            ok == est.Some? && (ok ==> frame == est.value)
  {
    ok, frame := true, ctx.gpr[RSP];
    if info.frameReg != 0 {
      var base := Add64(ctx.gpr[info.frameReg], -(info.frameOff * 16));
      if pc >= size {
        return true, base;
      }
      var i := 0;
      while i < |codes|
        invariant i <= |codes| && FindFrame(codes[i..], pc) == FindFrame(codes, pc)
      {
        if Offset(codes[i]) <= pc && Opcode(codes[i]) == UWOP_SET_FPREG {
          return true, base;
        }
        var n;
        ok, n := GetUnwindSlots(codes, i);
        if !ok {
          return;
        }
        assert codes[i..][n..] == codes[i + n..];
        i := i + n;
      }
    }
  }

  /** Undoes the operation at codes[i] in place. */
  method UndoCode(codes: seq<Code>, i: nat, info: Info, ctx: Context, mem: Mem)
    requires i < |codes| && SlotsIn(codes[i..]).Some? && !Decode(codes[i..]).MachFrame?
    requires RegsOk(ctx.View()) && info.Ok()
    modifies ctx
    ensures ctx.View() == UndoOp(Decode(codes[i..]), info, old(ctx.View()), mem)
  {
    var opcode, n, rsp := Opcode(codes[i]), OpInfo(codes[i]), ctx.gpr[RSP];
    if opcode == UWOP_PUSH_NONVOL {
      ctx.gpr := ctx.gpr[n := Read64(mem, rsp)];
      ReadBound(mem, rsp);
      ctx.gpr := ctx.gpr[RSP := Add64(ctx.gpr[RSP], 8)];
    } else if opcode == UWOP_ALLOC_LARGE {
      if n == 0 {
        ctx.gpr := ctx.gpr[RSP := Add64(rsp, (codes[i + 1] as int) * 8)];
      } else {
        ctx.gpr := ctx.gpr[RSP := Add64(rsp, SignedPair(codes[i + 1], codes[i + 2]))];
      }
    } else if opcode == UWOP_ALLOC_SMALL {
      ctx.gpr := ctx.gpr[RSP := Add64(rsp, 8 + n * 8)];
    } else if opcode == UWOP_SET_FPREG {
      ctx.gpr := ctx.gpr[RSP := Add64(ctx.gpr[info.frameReg], -(info.frameOff * 16))];
    } else if opcode == UWOP_SAVE_NONVOL {
      ctx.gpr := ctx.gpr[n := Read64(mem, Add64(rsp, (codes[i + 1] as int) * 8))];
    } else if opcode == UWOP_SAVE_NONVOL_FAR {
      ctx.gpr := ctx.gpr[n := Read64(mem, Add64(rsp, (codes[i + 1] as int) + 0x1_0000 * (codes[i + 2] as int)))];
    } else if opcode == UWOP_SAVE_XMM128 {
      ctx.xmm := ctx.xmm[n := Read128(mem, Add64(rsp, (codes[i + 1] as int) * 16))];
    } else if opcode == UWOP_SAVE_XMM128_FAR {
      ctx.xmm := ctx.xmm[n := Read128(mem, Add64(rsp, (codes[i + 1] as int) + 0x1_0000 * (codes[i + 2] as int)))];
    }
  }

  /** The index of the first code whose instruction has executed. */
  method SkipToExecuted(codes: seq<Code>, pc: nat) returns (ok: bool, i: nat)
    ensures ok == Skip(codes, pc).Some?
    ensures ok ==> i <= |codes| && Skip(codes, pc).value == codes[i..]
  {
    ok, i := true, 0;
    while i < |codes| && Offset(codes[i]) > pc
      invariant i <= |codes| && Skip(codes[i..], pc) == Skip(codes, pc) && ok
    {
      var n;
      ok, n := GetUnwindSlots(codes, i);
      if !ok {
        return;
      }
      assert codes[i..][n..] == codes[i + n..];
      i := i + n;
    }
  }

  /** Undoing the code at index i, then those behind it. */
  lemma UndoNext(codes: seq<Code>, i: nat, n: nat, info: Info, regs: Regs, mem: Mem)
    requires i < |codes| && RegsOk(regs) && info.Ok() && SlotsIn(codes[i..]) == Some(n)
             && Opcode(codes[i]) != UWOP_PUSH_MACHFRAME
    ensures i + n <= |codes| && RegsOk(UndoOp(Decode(codes[i..]), info, regs, mem))
    ensures Undo(codes[i..], info, regs, mem)
            == Undo(codes[i + n..], info, UndoOp(Decode(codes[i..]), info, regs, mem), mem)
  {
    assert codes[i..][n..] == codes[i + n..];
  }

  lemma UndoLast(codes: seq<Code>, i: nat, info: Info, regs: Regs, mem: Mem)
    requires i <= |codes| && RegsOk(regs) && info.Ok()
    ensures i == |codes| ==> Undo(codes[i..], info, regs, mem) == Some(PopReturn(regs, mem))
    ensures i < |codes| && SlotsIn(codes[i..]).None? ==> Undo(codes[i..], info, regs, mem) == None
    ensures i < |codes| && Opcode(codes[i]) == UWOP_PUSH_MACHFRAME ==>
              Undo(codes[i..], info, regs, mem) == if i + 1
                  == |codes| then Some(PopMachineFrame(OpInfo(codes[i]) != 0, regs, mem)) else None
  {
  }

  method UndoMachineFrame(errorCode: bool, ctx: Context, mem: Mem)
    requires RegsOk(ctx.View())
    modifies ctx
    ensures ctx.View() == PopMachineFrame(errorCode, old(ctx.View()), mem)
  {
    var a := Add64(ctx.gpr[RSP], if errorCode then 8 else 0);
    ctx.rip := Read64(mem, a);
    ctx.gpr := ctx.gpr[RSP := Read64(mem, Add64(a, 24))];
  }

  method UndoCall(ctx: Context, mem: Mem)
    requires RegsOk(ctx.View())
    modifies ctx
    ensures ctx.View() == PopReturn(old(ctx.View()), mem)
  {
    if ctx.gpr[RSP] != 0 {
      ctx.rip := Read64(mem, ctx.gpr[RSP]);
      ctx.gpr := ctx.gpr[RSP := Add64(ctx.gpr[RSP], 8)];
    }
  }

  /** Undoing the codes from index i on comes to this result. */
  ghost predicate Leads(codes: seq<Code>, i: nat, info: Info, regs: Regs, mem: Mem, result: Option<Regs>) {
    i <= |codes| && RegsOk(regs) && info.Ok() && Undo(codes[i..], info, regs, mem) == result
  }

  /** Undoes the code at index i; the rest then leads to the same result. */
  method UndoOne(codes: seq<Code>, i: nat, ghost n: nat, info: Info, ctx: Context, mem: Mem, ghost result: Option<Regs>)
    requires i < |codes| && SlotsIn(codes[i..]) == Some(n) && Opcode(codes[i]) != UWOP_PUSH_MACHFRAME
    requires Leads(codes, i, info, ctx.View(), mem, result)
    modifies ctx
    ensures Leads(codes, i + n, info, ctx.View(), mem, result)
  {
    ghost var before := ctx.View();
    UndoNext(codes, i, n, info, before, mem);
    UndoCode(codes, i, info, ctx, mem);
  }

  method UndoFrom(codes: seq<Code>, start: nat, info: Info, ctx: Context, mem: Mem) returns (ok: bool)
    requires start <= |codes| && RegsOk(ctx.View()) && info.Ok()
    modifies ctx
    ensures var regs := Undo(codes[start..], info, old(ctx.View()), mem);
            ok == regs.Some? && (ok ==> ctx.View() == regs.value)
  {
    ok := true;
    var i := start;
    ghost var result := Undo(codes[start..], info, ctx.View(), mem);
    while i < |codes|
      invariant ok && Leads(codes, i, info, ctx.View(), mem, result)
    {
      ghost var before := ctx.View();
      UndoLast(codes, i, info, before, mem);
      var n;
      ok, n := GetUnwindSlots(codes, i);
      if !ok {
        return;
      }
      if Opcode(codes[i]) == UWOP_PUSH_MACHFRAME {
        UndoMachineFrame(OpInfo(codes[i]) != 0, ctx, mem);
        ok := i + 1 == |codes|;
        return;
      }
      assert ctx.View() == before;
      UndoOne(codes, i, n, info, ctx, mem, result);
      i := i + n;
    }
    UndoLast(codes, i, info, ctx.View(), mem);
    UndoCall(ctx, mem);
  }

  // ----- epilogs -----

  const U32: int := 0x1_0000_0000

  /** Where an epilog starts that is this many bytes before the end of the function, in 32 bits. */
  function EpilogStart(length: nat, back: nat): nat {
    (length - back) % U32
  }

  /** How far before the end an epilog code behind the first one puts its epilog. */
  function Back(c: Code): nat {
    Offset(c) + 256 * OpInfo(c)
  }

  /** The epilogs listed by the codes behind the first one. */
  function MoreStarts(codes: seq<Code>, length: nat): seq<nat> {
    if codes == [] || Opcode(codes[0]) != UWOP_EPILOG || Back(codes[0]) == 0 then []
    else [EpilogStart(length, Back(codes[0]))] + MoreStarts(codes[1..], length)
  }

  /** All listed epilogs; bit 0 of the first code puts one at the end of the function. */
  function Starts(codes: seq<Code>, length: nat): seq<nat> {
    if codes == [] || Opcode(codes[0]) != UWOP_EPILOG then []
    else (if OpInfo(codes[0]) % 2 == 1 then [EpilogStart(length, Offset(codes[0]))] else [])
         + MoreStarts(codes[1..], length)
  }

  /** One of these epilogs starts at or before pc. */
  ghost predicate Reached(starts: seq<nat>, pc: nat) {
    exists i :: 0 <= i < |starts| && starts[i] <= pc
  }

  /** The assertions on epilogs fail: the first code gives them no size, or one starts at or before pc. */
  ghost predicate Refused(codes: seq<Code>, length: nat, pc: nat) {
    && codes != [] && Opcode(codes[0]) == UWOP_EPILOG
    && (Offset(codes[0]) == 0 || Reached(Starts(codes, length), pc))
  }

  /** pc is inside one of the listed epilogs, all of the size in the first code. */
  ghost predicate InsideEpilog(codes: seq<Code>, length: nat, pc: nat) {
    && codes != []
    && var starts := Starts(codes, length);
       exists i :: 0 <= i < |starts| && starts[i] <= pc < starts[i] + Offset(codes[0])
  }

  /** Each epilog ends at the end of the function or runs into another one. */
  ghost predicate NothingBehindEpilogs(codes: seq<Code>, length: nat)
    requires codes != []
  {
    var starts, size := Starts(codes, length), Offset(codes[0]);
    forall i :: 0 <= i < |starts| ==> starts[i] + size >= length || InsideEpilog(codes, length, starts[i] + size)
  }

  lemma {:induction false} NoCodeBehind(codes: seq<Code>, length: nat, pc: nat, i: nat)
    requires codes != [] && NothingBehindEpilogs(codes, length) && i < |Starts(codes, length)|
    requires Starts(codes, length)[i] <= pc < length
    ensures InsideEpilog(codes, length, pc)
    decreases pc - Starts(codes, length)[i]
  {
    var starts, size := Starts(codes, length), Offset(codes[0]);
    var end := starts[i] + size;
    if pc >= end {
      var j :| 0 <= j < |starts| && starts[j] <= end < starts[j] + size;
      NoCodeBehind(codes, length, pc, j);
    }
  }

  ghost predicate TestRight(codes: seq<Code>, length: nat, pc: nat) {
    Refused(codes, length, pc) <==> InsideEpilog(codes, length, pc)
  }

  lemma RightWithoutCodeBehind(codes: seq<Code>, length: nat, pc: nat)
    requires codes != [] && Opcode(codes[0]) == UWOP_EPILOG && Offset(codes[0]) != 0
    requires NothingBehindEpilogs(codes, length) && pc < length
    ensures TestRight(codes, length, pc)
  {
    var starts := Starts(codes, length);
    if Reached(starts, pc) {
      var i :| 0 <= i < |starts| && starts[i] <= pc;
      NoCodeBehind(codes, length, pc, i);
    }
  }

  lemma WrongBehind(codes: seq<Code>, length: nat, i: nat)
    requires codes != [] && Opcode(codes[0]) == UWOP_EPILOG && Offset(codes[0]) != 0 && i < |Starts(codes, length)|
    ensures var end := Starts(codes, length)[i] + Offset(codes[0]);
            TestRight(codes, length, end) ==> InsideEpilog(codes, length, end)
  {
    var starts := Starts(codes, length);
    assert starts[i] <= starts[i] + Offset(codes[0]);
    assert Reached(starts, starts[i] + Offset(codes[0]));
  }

  /** The test compares with the starts only: it tells the inside of epilogs from the rest of the
      function exactly if no code follows an epilog. */
  lemma EpilogTestRightIff(codes: seq<Code>, length: nat)
    requires codes != [] && Opcode(codes[0]) == UWOP_EPILOG && Offset(codes[0]) != 0
    ensures (forall pc :: 0 <= pc < length ==> TestRight(codes, length, pc)) <==> NothingBehindEpilogs(codes, length)
  {
    if NothingBehindEpilogs(codes, length) {
      forall pc | 0 <= pc < length
        ensures TestRight(codes, length, pc)
      {
        RightWithoutCodeBehind(codes, length, pc);
      }
    } else {
      var starts, size := Starts(codes, length), Offset(codes[0]);
      var i :| 0 <= i < |starts| && starts[i] + size < length && !InsideEpilog(codes, length, starts[i] + size);
      WrongBehind(codes, length, i);
      assert !TestRight(codes, length, starts[i] + size);
    }
  }

  /** It is right all over a function with one epilog, at its end. */
  lemma OneEpilogIsRight(c: Code, rest: seq<Code>, length: nat, pc: nat)
    requires Opcode(c) == UWOP_EPILOG && 0 < Offset(c) <= length < U32 && OpInfo(c) % 2 == 1 && pc < length
    requires rest == [] || Opcode(rest[0]) != UWOP_EPILOG
    ensures Refused([c] + rest, length, pc) <==> InsideEpilog([c] + rest, length, pc)
  {
    var codes := [c] + rest;
    assert codes[1..] == rest;
    assert Starts(codes, length) == [length - Offset(c)];
    assert Starts(codes, length)[0] == length - Offset(c);
  }

  /** A function of 100 bytes with epilogs of 4 bytes at 40 and at its end is refused at 50. */
  lemma CodeBehindEpilogIsRefused()
    ensures var codes := [MakeCode(4, UWOP_EPILOG, 1), MakeCode(60, UWOP_EPILOG, 0)];
            Refused(codes, 100, 50) && !InsideEpilog(codes, 100, 50)
  {
    var c, d := MakeCode(4, UWOP_EPILOG, 1), MakeCode(60, UWOP_EPILOG, 0);
    var codes := [c, d];
    assert codes[0] == c && codes[1..] == [d] && [d][1..] == [] && [d][0] == d;
    assert MoreStarts([], 100) == [] && Back(d) == 60;
    assert MoreStarts([d], 100) == [40];
    assert Starts(codes, 100) == [96, 40];
    assert Starts(codes, 100)[1] == 40;
  }

  lemma ReachedOneMore(start: nat, starts: seq<nat>, pc: nat)
    ensures Reached([start] + starts, pc) <==> start <= pc || Reached(starts, pc)
  {
    var all := [start] + starts;
    assert all[0] == start;
    if Reached(starts, pc) {
      var i :| 0 <= i < |starts| && starts[i] <= pc;
      assert all[i + 1] == starts[i];
    }
  }

  method CheckEpilogs(codes: seq<Code>, length: nat, pc: nat) returns (ok: bool)
    ensures ok <==> !Refused(codes, length, pc)
  {
    if codes == [] || Opcode(codes[0]) != UWOP_EPILOG {
      return true;
    }
    if Offset(codes[0]) == 0 {
      return false;
    }
    var inEpilog := OpInfo(codes[0]) % 2 == 1 && pc >= EpilogStart(length, Offset(codes[0]));
    ghost var refused := Reached(Starts(codes, length), pc);
    ReachedOneMore(EpilogStart(length, Offset(codes[0])), MoreStarts(codes[1..], length), pc);
    assert [] + MoreStarts(codes[1..], length) == MoreStarts(codes[1..], length);
    var i := 1;
    while i < |codes| && !inEpilog && Opcode(codes[i]) == UWOP_EPILOG && Back(codes[i]) != 0
      invariant 1 <= i <= |codes| && (refused <==> inEpilog || Reached(MoreStarts(codes[i..], length), pc))
    {
      assert codes[i..][1..] == codes[i + 1..];
      ReachedOneMore(EpilogStart(length, Back(codes[i])), MoreStarts(codes[i + 1..], length), pc);
      inEpilog := pc >= EpilogStart(length, Back(codes[i]));
      i := i + 1;
    }
    ok := !inEpilog;
  }

  /** ok is false where the source panics, fails an assertion or reads past the codes. */
  method RtlVirtualUnwind(chained: bool, codes: seq<Code>, info: Info, size: nat, length: nat, pc: nat, ctx: Context,
                          mem: Mem)
    returns (ok: bool, establisher: nat)
    requires RegsOk(ctx.View()) && info.Ok()
    modifies ctx
    ensures var est := Establisher(codes, info, size, pc, old(ctx.View()));
            var regs := Unwound(codes, info, size, pc, old(ctx.View()), mem);
            && ok == (!chained && est.Some? && !Refused(codes, length, pc) && regs.Some?)
            && (ok ==> establisher == est.value && ctx.View() == regs.value)
  {
    if chained {
      return false, 0;
    }
    ok, establisher := FindEstablisher(codes, info, size, pc, ctx);
    if !ok {
      return;
    }
    ok := CheckEpilogs(codes, length, pc);
    if !ok {
      return;
    }
    ghost var regs := ctx.View();
    var i := 0;
    if pc <= size {
      ok, i := SkipToExecuted(codes, pc);
      if !ok {
        return;
      }
    }
    ok := UndoFrom(codes, i, info, ctx, mem);
  }
}
