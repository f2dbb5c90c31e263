/** LIR operands and operations of the SPARC C1 back end, the predicate that says
    an operation is one instruction long, and what the emitters produce. */
module Lir {
  import opened Wrappers

  datatype BasicType =
    | Boolean | Byte | Char | Short | Int | Long | Float | Double | Object | Array | Address | Metadata

  /** Operands; the *Pair forms are the double-word ones. */
  datatype Opr =
    | Cpu(r: nat, t: BasicType)
    | CpuPair(lo: nat, hi: nat, t: BasicType)
    | Fpu(f: nat, t: BasicType)
    | FpuPair(f: nat, t: BasicType)
    | Slot(ix: nat, t: BasicType)
    | SlotPair(ix: nat, t: BasicType)
    | Const(value: int, t: BasicType)
    | Mem(base: nat, index: Option<nat>, disp: int, t: BasicType)
  {
    predicate IsRegister() { Cpu? || CpuPair? || Fpu? || FpuPair? }
    predicate IsFloatKind() { Fpu? || FpuPair? }
    predicate IsSingleWord() { Cpu? || Fpu? || Slot? }
  }

  datatype MoveKind = Normal | Volatile | Unaligned | Wide
  datatype ArithCode = Add | Sub | Mul
  datatype ShiftCode = Shl | Shr | Ushr
  datatype CallKind = StaticCall | VirtualCall | IcVirtualCall | OptVirtualCall | DynamicCall
  datatype Cond = Always | Equal | NotEqual | Less | LessEqual | GreaterEqual | Greater | AboveEqual | BelowEqual

  /** `info` flags debug information attached to an operation; a call's is named by
      its site.  `Other` stands for every operation the peephole treats by default. */
  datatype Op =
    | Move(src: Opr, dst: Opr, patch: bool, kind: MoveKind, info: bool)
    | Arith(acode: ArithCode, left: Opr, right: Opr, result: Opr, info: bool)
    | Shift(scode: ShiftCode, left: Opr, count: Opr, result: Opr, info: bool)
    | NullCheck(opr: Opr, info: bool)
    | Nop
    | Label(id: int)
    | Branch(cond: Cond, isFloat: bool, target: int, toBlock: bool)
    | Call(ckind: CallKind, entry: int, site: int)
    | Delay(op: Op, callInfo: Option<int>)
    | Other(code: int, info: bool)
  {
    predicate IsCti() { Branch? || Call? }
    predicate HasInfo() {
      match this
      case Move(_, _, _, _, i) => i
      case Arith(_, _, _, _, i) => i
      case Shift(_, _, _, _, i) => i
      case NullCheck(_, i) => i
      case Other(_, i) => i
      case _ => false
    }
  }

  const O0: nat := 8
  const O7: nat := 15
  const G3: nat := 3
  const G5: nat := 5

  // ----- is_single_instruction -----

  datatype Flags = Flags(lp64: bool, fillDelaySlots: bool, verifyOops: bool, patchALot: bool,
                         compressedOops: bool, compressedKlass: bool, nullChecks: bool)

  predicate IsSimm13(x: int) { -4096 <= x <= 4095 }

  predicate IsSmallConstant(o: Opr) {
    o.Const? && o.t == Int && IsSimm13(o.value)
  }

  function KlassOffset(fl: Flags): int { if fl.lp64 then 8 else 4 }

  predicate IsOopMem(o: Opr) { o.Mem? && (o.t == Object || o.t == Array) }

  predicate IsSingleMove(fl: Flags, m: Op)
    requires m.Move?
  {
    var src, dst := m.src, m.dst;
    if src == dst then false
    else if fl.verifyOops then false
    else if src.CpuPair? || dst.CpuPair? || m.patch || ((src.FpuPair? || dst.FpuPair?) && m.kind != Normal) then false
    else if fl.compressedOops && (IsOopMem(dst) || IsOopMem(src)) then false
    else if fl.compressedKlass && src.Mem? && src.t == Address && src.disp == KlassOffset(fl) then false
    else if dst.IsRegister() && src.Mem? && IsSimm13(src.disp) then !fl.patchALot
    else if dst.IsRegister() && src.Slot? then true
    else if src.IsRegister() && dst.Mem? && IsSimm13(dst.disp) then !fl.patchALot
    else if src.IsRegister() && dst.Slot? then true
    else dst.IsRegister() && ((src.IsRegister() && src.IsSingleWord() && src.t == dst.t) || IsSmallConstant(src))
  }

  predicate IsSingleInstruction(fl: Flags, op: Op) {
    match op
    case NullCheck(_, _) => true
    case Arith(Add, _, _, result, _) => result.Cpu?
    case Shift(_, _, _, result, _) => result.Cpu?
    case Move(_, _, _, _, _) => IsSingleMove(fl, op)
    case _ => false
  }

  // ----- what the emitters hand to the assembler -----

  /** Calls into the assembler: `SayDelayed` is delayed(), the others emit a word. */
  datatype Event = SayDelayed | Insn(mnemonic: string) | Cti(mnemonic: string)

  /** The parts of the assembler the operand kinds do not determine: macro
      expansions of more than one word, frame displacements and the emitters of
      every other operation. */
  datatype Target = Target(
    verifyOop: seq<Event>, decodeOop: seq<Event>, encodeOop: seq<Event>, decodeKlass: seq<Event>,
    setWide: int -> seq<Event>, longMove: Op -> Option<seq<Event>>, slotDisp: nat -> int, stackBias: int,
    callPrelude: Op -> seq<Event>, other: int -> seq<Event>)

  function One(guard: bool, mnemonic: string): Option<seq<Event>> {
    if guard then Some([Insn(mnemonic)]) else None
  }

  function Then(a: Option<seq<Event>>, b: seq<Event>): Option<seq<Event>> {
    if a.Some? then Some(a.value + b) else None
  }

  function VerifyOop(fl: Flags, tg: Target, t: BasicType): seq<Event> {
    if fl.verifyOops && (t == Object || t == Array) then tg.verifyOop else []
  }

  /** load(base, offset or index, to, type, wide, unaligned).  None is an assertion
      failure or ShouldNotReachHere.  The large-offset guard of the source never
      fires, so a displacement that is not simm13 fails the encoder's assertion. */
  function EmitLoad(fl: Flags, tg: Target, index: bool, disp: int, to: Opr, t: BasicType, wide: bool, unaligned: bool)
    : Option<seq<Event>>
  {
    if !index && !IsSimm13(disp) then None
    else match t
    case Boolean => One(to.Cpu?, "ldsb")
    case Byte => One(to.Cpu?, "ldsb")
    case Char => One(to.Cpu?, "lduh")
    case Short => One(to.Cpu?, "ldsh")
    case Int => One(to.Cpu?, "ld")
    case Long =>
      if !to.CpuPair? then None
      else if !unaligned || index then Some([Insn(if fl.lp64 then "ldx" else "ldd")])
      else if fl.lp64 then Some([Insn("ld"), Insn("lduw"), Insn("sllx"), Insn("or3")])
      else Some([Insn("ld"), Insn("ld")])
    case Metadata => One(to.Cpu? && !index, "ld_ptr")
    case Address =>
      if fl.lp64 && !index && disp == KlassOffset(fl) && fl.compressedKlass
      then Then(One(to.Cpu?, "lduw"), tg.decodeKlass)
      else One(to.Cpu?, "ld_ptr")
    case Float => One(to.Fpu?, "ldf")
    case Double =>
      if !index && (unaligned || fl.patchALot)
      then Then(One(to.FpuPair?, "ldf"), [Insn("ldf")])
      else One(to.FpuPair?, "ldf")
    case _ =>
      Then(if fl.compressedOops && !wide then Then(One(to.Cpu?, "lduw"), tg.decodeOop) else One(to.Cpu?, "ld_ptr"),
           VerifyOop(fl, tg, t))
  }

  /** store(from, base, offset or index, type, wide, unaligned) */
  function EmitStore(fl: Flags, tg: Target, from: Opr, index: bool, disp: int, t: BasicType, wide: bool, unaligned: bool)
    : Option<seq<Event>>
  {
    if !index && !IsSimm13(disp) then None
    else match t
    case Boolean => One(from.Cpu?, "stb")
    case Byte => One(from.Cpu?, "stb")
    case Char => One(from.Cpu?, "sth")
    case Short => One(from.Cpu?, "sth")
    case Int => One(from.Cpu?, "stw")
    case Long =>
      if !from.CpuPair? then None
      else if index then Some([Insn(if fl.lp64 then "stx" else "std")])
      else if !fl.lp64 then Some([Insn("stw"), Insn("stw")])
      else if unaligned || fl.patchALot then Some([Insn("srax"), Insn("stw"), Insn("stw")])
      else Some([Insn("stx")])
    case Metadata => One(from.Cpu? && !index, "st_ptr")
    case Address => One(from.Cpu?, "st_ptr")
    case Float => One(from.Fpu?, "stf")
    case Double =>
      if !index && (unaligned || fl.patchALot)
      then Then(One(from.FpuPair?, "stf"), [Insn("stf")])
      else One(from.FpuPair?, "stf")
    case _ =>
      if !from.Cpu? then None
      else Some(VerifyOop(fl, tg, t) + (if fl.compressedOops && !wide then tg.encodeOop + [Insn("stw")] else [Insn("st_ptr")]))
  }

  function EmitSet(tg: Target, v: int): seq<Event> {
    if IsSimm13(v) then [Insn("or3")] else tg.setWide(v)
  }

  /** The address set-up shared by mem2reg and reg2mem: what is emitted before the
      access, and whether the access is register plus register. */
  function AddressPrelude(fl: Flags, tg: Target, m: Opr, unaligned: bool): (seq<Event>, bool)
    requires m.Mem?
  {
    if m.index.None? then
      if !IsSimm13(m.disp) && (!unaligned || IsSimm13(m.disp + 4)) then (EmitSet(tg, m.disp), true) else ([], false)
    else if unaligned || fl.patchALot then ([Insn("add")], false)
    else ([], true)
  }

  /** A volatile move is never patched, does not exist on 64 bits, and moves a long
      between memory and a register pair only; any other is an ordinary move. */
  predicate VolatileOk(fl: Flags, m: Op)
    requires m.Move?
  {
    m.kind == Volatile ==>
      && !fl.lp64 && !m.patch
      && ((m.src.Mem? && m.src.t == Long) || (m.dst.Mem? && m.dst.t == Long) ==> m.src.CpuPair? || m.dst.CpuPair?)
  }

  /** move_op on operands that are not double-word cpu registers or stack slots;
      longMove stands for the emitters of the remaining combinations. */
  function EmitMove(fl: Flags, tg: Target, m: Op): Option<seq<Event>>
    requires m.Move?
  {
    if !VolatileOk(fl, m) then None else
    var src, dst, unaligned, wide := m.src, m.dst, m.kind == Unaligned, m.kind == Wide;
    if src.CpuPair? || dst.CpuPair? || src.SlotPair? || dst.SlotPair? || m.patch then tg.longMove(m)
    else if src.IsRegister() && dst.IsRegister() then
      if src.IsFloatKind() && dst.IsFloatKind() then One(src.Fpu? == dst.Fpu?, "fmov")
      else if src.Cpu? && dst.Cpu? then Some((if src.r != dst.r then [Insn("or3")] else []) + VerifyOop(fl, tg, dst.t))
      else None
    else if src.IsRegister() && dst.Slot? then
      EmitStore(fl, tg, src, false, tg.slotDisp(dst.ix), src.t, true, (tg.slotDisp(dst.ix) - tg.stackBias) % 8 != 0)
    else if src.Slot? && dst.IsRegister() then
      EmitLoad(fl, tg, false, tg.slotDisp(src.ix), dst, dst.t, true, (tg.slotDisp(src.ix) - tg.stackBias) % 8 != 0)
    else if src.IsRegister() && dst.Mem? then
      if dst.t == Metadata then None
      else
        var (pre, index) := AddressPrelude(fl, tg, dst, unaligned);
        var st := EmitStore(fl, tg, src, index, dst.disp, dst.t, wide, unaligned);
        if st.None? then None else Some(VerifyOop(fl, tg, Object) + pre + st.value)
    else if src.Mem? && dst.IsRegister() then
      if src.t == Metadata then None
      else
        var (pre, index) := AddressPrelude(fl, tg, src, unaligned);
        var ld := EmitLoad(fl, tg, index, src.disp, dst, src.t, wide, unaligned);
        if ld.None? then None else Some(VerifyOop(fl, tg, Object) + pre + ld.value)
    else if src.Const? && dst.IsRegister() && src.t == Int then
      if dst.Cpu? then Some(EmitSet(tg, src.value)) else None
    else tg.longMove(m)
  }

  /** emit_code of one operation. */
  function Emit(fl: Flags, tg: Target, op: Op): Option<seq<Event>> {
    match op
    case Move(_, _, _, _, _) => EmitMove(fl, tg, op)
    case Arith(code, left, right, result, _) =>
      if !left.IsRegister() then None
      else if result.Cpu? then
        if right.Cpu? && left.Cpu? then Some([Insn(if code == Add then "add" else if code == Sub then "sub" else "mulx")])
        else if right.Const? && left.Cpu? then One(IsSimm13(right.value), if code == Add then "add" else if code == Sub then "sub" else "mulx")
        else None
      else tg.longMove(op)
    case Shift(code, left, count, result, _) =>
      if result.Cpu? then
        One(left.Cpu? && (count.Const? || count.Cpu?), if code == Shl then "sll" else if code == Shr then "sra" else "srl")
      else tg.longMove(op)
    case NullCheck(o, _) => if !fl.nullChecks then Some([]) else One(o.Cpu?, "ld_ptr")
    case Nop => Some([Insn("nop")])
    case Label(_) => Some([])
    case Branch(_, isFloat, _, _) => Some([Cti(if isFloat then "fbp" else "bp")])
    case Call(_, _, _) => Some(tg.callPrelude(op) + [Cti("call")])
    case Delay(d, _) =>
      // emit_delay: one instruction only, after saying delayed()
      var e := Emit(fl, tg, d);
      if e.Some? && |e.value| == 1 && e.value[0].Insn? then Some([SayDelayed] + e.value) else None
    case Other(code, _) => Some(tg.other(code))
  }

  // ----- when the length predicate tells the truth -----

  /** The operations the predicate calls one instruction long that are not: a
      single-word access through an index register marked unaligned adds base and
      index first, and a slot whose displacement happens to be the klass offset is
      decoded as a compressed class pointer. */
  predicate Expands(fl: Flags, tg: Target, op: Op) {
    match op
    case NullCheck(_, _) => !fl.nullChecks
    case Move(src, dst, _, kind, _) =>
      || (kind == Unaligned && ((src.Mem? && src.index.Some?) || (dst.Mem? && dst.index.Some?)))
      || (src.Slot? && dst.IsRegister() && dst.t == Address && fl.lp64 && fl.compressedKlass
          && tg.slotDisp(src.ix) == KlassOffset(fl) && tg.decodeKlass != [])
    case _ => false
  }

  /** A register operand's kind fits its type, as validate_type demands. */
  predicate TypedRegister(o: Opr) {
    match o
    case Cpu(_, t) => t != Long && t != Float && t != Double
    case Fpu(_, t) => t == Float
    case FpuPair(_, t) => t == Double
    case _ => true
  }

  /** Registers fit their types, and a double-word register moves to and from
      double-word slots only. */
  predicate WellTyped(op: Op) {
    op.Move? ==>
      && TypedRegister(op.src) && TypedRegister(op.dst)
      && !(op.src.FpuPair? && op.dst.Slot?) && !(op.src.Slot? && op.dst.FpuPair?)
  }

  predicate IsOneWord(e: Option<seq<Event>>) {
    e.Some? && |e.value| == 1 && e.value[0].Insn?
  }

  lemma SingleLoadExact(fl: Flags, tg: Target, op: Op)
    requires op.Move? && IsSingleMove(fl, op) && op.src.Mem? && op.dst.IsRegister()
    requires Emit(fl, tg, op).Some? && WellTyped(op)
    ensures IsOneWord(Emit(fl, tg, op)) <==> !Expands(fl, tg, op)
  {
    assert IsSimm13(op.src.disp);
  }

  lemma SingleStoreExact(fl: Flags, tg: Target, op: Op)
    requires op.Move? && IsSingleMove(fl, op) && op.src.IsRegister() && op.dst.Mem?
    requires Emit(fl, tg, op).Some? && WellTyped(op)
    ensures IsOneWord(Emit(fl, tg, op)) <==> !Expands(fl, tg, op)
  {
    assert IsSimm13(op.dst.disp);
  }

  /** For every operation the predicate accepts and the emitters can assemble, the
      code is exactly one plain instruction if and only if the operation is not one
      of those that expand. */
  lemma SingleInstructionExact(fl: Flags, tg: Target, op: Op)
    requires IsSingleInstruction(fl, op) && Emit(fl, tg, op).Some? && WellTyped(op)
    ensures IsOneWord(Emit(fl, tg, op)) <==> !Expands(fl, tg, op)
  {
    if op.Move? {
      if op.src.Mem? {
        SingleLoadExact(fl, tg, op);
      } else if op.dst.Mem? {
        SingleStoreExact(fl, tg, op);
      }
    }
  }

  /** An int load through base and index, marked unaligned, is accepted by the
      predicate and takes two instructions. */
  lemma UnalignedIndexedLoadExpands(fl: Flags, tg: Target)
    requires !fl.verifyOops && !fl.patchALot
    ensures var op := Move(Mem(8, Some(9), 0, Int), Cpu(10, Int), false, Unaligned, false);
      IsSingleInstruction(fl, op) && Emit(fl, tg, op) == Some([Insn("add"), Insn("ld")])
  {
    assert [] + [Insn("add")] + [Insn("ld")] == [Insn("add"), Insn("ld")];
  }
}
