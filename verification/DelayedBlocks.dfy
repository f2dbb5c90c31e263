/** Meaning of a block of LIR before and after the delay-slot peephole.

    In order: operations run one after another and a transfer takes effect at
    once.  Delayed: a branch decides and a call sets up its registers first, then
    the delay operation runs, then control moves.  The peephole keeps the
    meaning, loses no operation and moves none past a label or transfer. */
module DelayedBlocks {
  import opened Wrappers
  import opened Lir
  import opened Peephole

  /** Machine state as far as LIR sees it; absent entries read 0. */
  datatype State = State(regs: map<nat, int>, fregs: map<nat, int>, slots: map<nat, int>,
                         mem: map<int, int>, icc: int, fcc: int)

  /** What lies outside the block: type conversions of loads and stores, the
      conditions, where dispatch finds its words in memory and how a klass word
      decodes, callees, and all other operations. */
  datatype World = World(
    convert: (BasicType, int) -> int, combine: (Op, int, int) -> int,
    holds: (Cond, bool, int) -> bool,
    klassOffset: int, decodeKlass: int -> int, fromCompiled: int, icData: int,
    callee: (int, State) -> State, other: (Op, State) -> State)

  function Get<K>(m: map<K, int>, k: K): int {
    if k in m then m[k] else 0
  }

  function Reg(s: State, r: nat): int {
    if r == 0 then 0 else Get(s.regs, r)
  }

  function SetReg(s: State, r: nat, v: int): State {
    if r == 0 then s else s.(regs := s.regs[r := v])
  }

  function Addr(s: State, m: Opr): int
    requires m.Mem?
  {
    Reg(s, m.base) + m.disp + if m.index.Some? then Reg(s, m.index.value) else 0
  }

  predicate Simple(o: Opr) { !o.CpuPair? && !o.SlotPair? }

  function Read(w: World, s: State, o: Opr): int
    requires Simple(o)
  {
    match o
    case Cpu(r, _) => Reg(s, r)
    case Fpu(f, _) => Get(s.fregs, f)
    case FpuPair(f, _) => Get(s.fregs, f)
    case Slot(ix, _) => Get(s.slots, ix)
    case Const(v, _) => v
    case Mem(_, _, _, t) => w.convert(t, Get(s.mem, Addr(s, o)))
  }

  function Write(w: World, s: State, o: Opr, v: int): State
    requires Simple(o)
  {
    match o
    case Cpu(r, _) => SetReg(s, r, v)
    case Fpu(f, _) => s.(fregs := s.fregs[f := v])
    case FpuPair(f, _) => s.(fregs := s.fregs[f := v])
    case Slot(ix, _) => s.(slots := s.slots[ix := v])
    case Const(_, _) => s
    case Mem(_, _, _, t) => s.(mem := s.mem[Addr(s, o) := w.convert(t, v)])
  }

  /** One operation that transfers no control. */
  function Exec(w: World, op: Op, s: State): State {
    match op
    case Move(src, dst, _, _, _) =>
      if Simple(src) && Simple(dst) then Write(w, s, dst, Read(w, s, src)) else w.other(op, s)
    case Arith(_, left, right, result, _) =>
      if Simple(left) && Simple(right) && result.Cpu? then SetReg(s, result.r, w.combine(op, Read(w, s, left), Read(w, s, right)))
      else w.other(op, s)
    case Shift(_, left, count, result, _) =>
      if Simple(left) && Simple(count) && result.Cpu? then SetReg(s, result.r, w.combine(op, Read(w, s, left), Read(w, s, count)))
      else w.other(op, s)
    case Other(_, _) => w.other(op, s)
    case _ => s
  }

  /** The three words a virtual call loads: the receiver's klass word, the klass's
      vtable slot, and the method's entry. */
  function KlassAddr(w: World, s: State): int {
    Reg(s, O0) + w.klassOffset
  }

  function SlotAddr(w: World, call: Op, s: State): int
    requires call.Call?
  {
    w.decodeKlass(Get(s.mem, KlassAddr(w, s))) + call.entry
  }

  function EntryAddr(w: World, call: Op, s: State): int
    requires call.Call?
  {
    Get(s.mem, SlotAddr(w, call, s)) + w.fromCompiled
  }

  /** The method and the entry a virtual call dispatches to. */
  function Dispatched(w: World, call: Op, s: State): (int, int)
    requires call.Call?
  {
    (Get(s.mem, SlotAddr(w, call, s)), Get(s.mem, EntryAddr(w, call, s)))
  }

  /** Where a call goes, and the state with G3, G5 and O7 as the call sequence
      leaves them: a virtual call dispatches on the receiver in O0. */
  function CallEntry(w: World, call: Op, s: State): int
    requires call.Call?
  {
    if call.ckind == VirtualCall then Dispatched(w, call, s).1 else call.entry
  }

  function CallSetup(w: World, call: Op, s: State): State
    requires call.Call?
  {
    var s1 :=
      match call.ckind
      case VirtualCall => SetReg(SetReg(s, G5, Dispatched(w, call, s).0), G3, CallEntry(w, call, s))
      case IcVirtualCall => SetReg(s, G5, w.icData)
      case _ => s;
    SetReg(s1, O7, call.site)
  }

  predicate Taken(w: World, br: Op, s: State)
    requires br.Branch?
  {
    br.cond == Always || w.holds(br.cond, br.isFloat, if br.isFloat then s.fcc else s.icc)
  }

  datatype Outcome = Falls(s: State) | Jumps(target: int, s: State) | Stuck

  function RunInOrder(w: World, ops: seq<Op>, s: State): Outcome {
    if ops == [] then Falls(s)
    else
      var op := ops[0];
      if op.Branch? then if Taken(w, op, s) then Jumps(op.target, s) else RunInOrder(w, ops[1..], s)
      else if op.Call? then RunInOrder(w, ops[1..], w.callee(CallEntry(w, op, s), CallSetup(w, op, s)))
      else if op.Delay? then Stuck
      else RunInOrder(w, ops[1..], Exec(w, op, s))
  }

  /** A transfer must be followed by its delay operation, and only a transfer may be. */
  function RunDelayed(w: World, ops: seq<Op>, s: State): Outcome {
    if ops == [] then Falls(s)
    else
      var op := ops[0];
      if op.IsCti() then
        if |ops| < 2 || !ops[1].Delay? then Stuck
        else if op.Branch? then
          var s' := Exec(w, ops[1].op, s);
          if Taken(w, op, s) then Jumps(op.target, s') else RunDelayed(w, ops[2..], s')
        else
          RunDelayed(w, ops[2..], w.callee(CallEntry(w, op, s), Exec(w, ops[1].op, CallSetup(w, op, s))))
      else if op.Delay? then Stuck
      else RunDelayed(w, ops[1..], Exec(w, op, s))
  }

  // ----- one swap -----

  function OprRegs(o: Opr): set<nat> {
    match o
    case Cpu(r, _) => {r}
    case Mem(b, ix, _, _) => {b} + (if ix.Some? then {ix.value} else {})
    case _ => {}
  }

  /** Does the move stay clear of the registers a call sequence writes? */
  predicate CallSafe(m: Op)
    requires m.Move?
  {
    (OprRegs(m.src) + OprRegs(m.dst)) !! {O7, G3, G5}
  }

  lemma SingleIsSimple(fl: Flags, op: Op)
    requires IsSingleInstruction(fl, op)
    ensures op.Move? ==> Simple(op.src) && Simple(op.dst)
    ensures op.Arith? || op.Shift? ==> op.result.Cpu?
    ensures op.Move? || op.Arith? || op.Shift? || op.NullCheck?
  {
  }

  /** Moving a one-instruction operation behind a branch changes neither the
      decision nor the state: nothing it does reaches the condition codes. */
  lemma BranchSwap(fl: Flags, w: World, br: Op, prev: Op, s: State)
    requires br.Branch? && FillsBranch(fl, br, prev) && ConcreteOp(prev)
    ensures Taken(w, br, Exec(w, prev, s)) == Taken(w, br, s)
  {
    SingleIsSimple(fl, prev);
  }

  /** Arithmetic on operands the back end has registers or constants for. */
  predicate ConcreteOp(op: Op) {
    match op
    case Arith(_, left, right, _, _) => Simple(left) && Simple(right)
    case Shift(_, left, count, _, _) => Simple(left) && Simple(count)
    case _ => true
  }

  lemma SetRegCommutes(s: State, a: nat, x: int, b: nat, y: int)
    requires a != b
    ensures SetReg(SetReg(s, a, x), b, y) == SetReg(SetReg(s, b, y), a, x)
  {
    assert s.regs[a := x][b := y] == s.regs[b := y][a := x];
  }

  lemma ReadSetReg(w: World, s: State, o: Opr, r: nat, v: int)
    requires Simple(o) && r !in OprRegs(o)
    ensures Read(w, SetReg(s, r, v), o) == Read(w, s, o)
  {
  }

  lemma MoveSetReg(w: World, m: Op, s: State, r: nat, v: int)
    requires m.Move? && Simple(m.src) && Simple(m.dst) && r !in OprRegs(m.src) && r !in OprRegs(m.dst)
    ensures Exec(w, m, SetReg(s, r, v)) == SetReg(Exec(w, m, s), r, v)
  {
    ReadSetReg(w, s, m.src, r, v);
    if m.dst.Cpu? {
      SetRegCommutes(s, r, v, m.dst.r, Read(w, s, m.src));
    }
  }

  /** What moving `prev` behind a virtual call asks of the state before it: the
      dispatch loads then run before prev instead of after it. */
  predicate SameDispatch(w: World, call: Op, prev: Op, s: State)
    requires call.Call?
  {
    call.ckind == VirtualCall ==> Dispatched(w, call, Exec(w, prev, s)) == Dispatched(w, call, s)
  }

  /** prev stores to none of the words the dispatch reads. */
  predicate StoresClear(w: World, call: Op, prev: Op, s: State)
    requires call.Call? && prev.Move?
  {
    prev.dst.Mem? ==> Addr(s, prev.dst) !in {KlassAddr(w, s), SlotAddr(w, call, s), EntryAddr(w, call, s)}
  }

  lemma ClearKeepsDispatch(fl: Flags, w: World, call: Op, prev: Op, s: State)
    requires call.Call? && FillsCall(fl, call, prev) && StoresClear(w, call, prev, s)
    ensures SameDispatch(w, call, prev, s)
  {
    SingleIsSimple(fl, prev);
  }

  /** Moving a move behind a call: same callee, same state at its entry. */
  lemma CallSwap(fl: Flags, w: World, call: Op, prev: Op, s: State)
    requires call.Call? && FillsCall(fl, call, prev) && CallSafe(prev) && SameDispatch(w, call, prev, s)
    ensures CallEntry(w, call, Exec(w, prev, s)) == CallEntry(w, call, s)
    ensures CallSetup(w, call, Exec(w, prev, s)) == Exec(w, prev, CallSetup(w, call, s))
  {
    SingleIsSimple(fl, prev);
    match call.ckind
    case VirtualCall =>
      var (m, e) := Dispatched(w, call, s);
      MoveSetReg(w, prev, s, G5, m);
      MoveSetReg(w, prev, SetReg(s, G5, m), G3, e);
      MoveSetReg(w, prev, SetReg(SetReg(s, G5, m), G3, e), O7, call.site);
    case IcVirtualCall =>
      MoveSetReg(w, prev, s, G5, w.icData);
      MoveSetReg(w, prev, SetReg(s, G5, w.icData), O7, call.site);
    case _ =>
      MoveSetReg(w, prev, s, O7, call.site);
  }

  // ----- whole blocks -----

  /** Every transfer is followed by exactly one delay operation, and there are no
      others. */
  predicate Closed(ops: seq<Op>) {
    if ops == [] then true
    else if ops[0].IsCti() then |ops| >= 2 && ops[1].Delay? && Closed(ops[2..])
    else !ops[0].Delay? && Closed(ops[1..])
  }

  lemma {:induction false} ClosedConcat(a: seq<Op>, b: seq<Op>)
    requires Closed(a)
    ensures Closed(a + b) <==> Closed(b)
  {
    if a == [] {
      assert a + b == b;
    } else {
      var n := if a[0].IsCti() then 2 else 1;
      assert (a + b)[n..] == a[n..] + b;
      ClosedConcat(a[n..], b);
    }
  }

  lemma {:induction false} DelayedConcat(w: World, a: seq<Op>, b: seq<Op>, s: State)
    requires Closed(a)
    ensures RunDelayed(w, a + b, s) ==
            match RunDelayed(w, a, s) case Falls(s') => RunDelayed(w, b, s') case o => o
    decreases |a|
  {
    if a == [] {
      assert a + b == b;
    } else {
      var op, n := a[0], if a[0].IsCti() then 2 else 1;
      assert (a + b)[n..] == a[n..] + b && (a + b)[0] == op;
      if op.Branch? {
        DelayedConcat(w, a[2..], b, Exec(w, a[1].op, s));
      } else if op.Call? {
        DelayedConcat(w, a[2..], b, w.callee(CallEntry(w, op, s), Exec(w, a[1].op, CallSetup(w, op, s))));
      } else {
        DelayedConcat(w, a[1..], b, Exec(w, op, s));
      }
    }
  }

  lemma {:induction false} InOrderConcat(w: World, a: seq<Op>, b: seq<Op>, s: State)
    ensures RunInOrder(w, a + b, s) ==
            match RunInOrder(w, a, s) case Falls(s') => RunInOrder(w, b, s') case o => o
    decreases |a|
  {
    if a == [] {
      assert a + b == b;
    } else {
      var op := a[0];
      assert (a + b)[1..] == a[1..] + b && (a + b)[0] == op;
      if op.Branch? {
        InOrderConcat(w, a[1..], b, s);
      } else if op.Call? {
        InOrderConcat(w, a[1..], b, w.callee(CallEntry(w, op, s), CallSetup(w, op, s)));
      } else if !op.Delay? {
        InOrderConcat(w, a[1..], b, Exec(w, op, s));
      }
    }
  }

  /** A block as LIR generation produces it: a label first, no delay operations,
      and no move that would be put behind a call touching O7, G3 or G5. */
  predicate BlockOk(fl: Flags, ops: seq<Op>) {
    && (ops != [] ==> ops[0].Label?)
    && (forall i :: 0 <= i < |ops| ==> !ops[i].Delay? && ConcreteOp(ops[i]))
    && (forall i :: 0 < i < |ops| && ops[i].Call? && FillsCall(fl, ops[i], ops[i - 1]) ==> CallSafe(ops[i - 1]))
  }

  /** The virtual call ops[i] takes a store, the operation before it, into its slot. */
  predicate TakesStore(fl: Flags, ops: seq<Op>, i: int) {
    && 0 < i < |ops| && ops[i].Call? && ops[i].ckind == VirtualCall
    && FillsCall(fl, ops[i], ops[i - 1]) && ops[i - 1].dst.Mem?
  }

  /** When the run of ops from s comes to the call ops[i], the store before it does
      not disturb its dispatch. */
  predicate DispatchKept(w: World, ops: seq<Op>, i: int, s: State)
    requires 0 < i < |ops| && ops[i].Call?
  {
    match RunInOrder(w, ops[..i - 1], s)
    case Falls(s') => SameDispatch(w, ops[i], ops[i - 1], s')
    case _ => true
  }

  ghost predicate Undisturbed(fl: Flags, w: World, ops: seq<Op>, s: State) {
    forall i :: TakesStore(fl, ops, i) ==> DispatchKept(w, ops, i, s)
  }

  lemma UndisturbedPrefix(fl: Flags, w: World, ops: seq<Op>, n: nat, s: State)
    requires n <= |ops| && Undisturbed(fl, w, ops, s)
    ensures Undisturbed(fl, w, ops[..n], s)
  {
    forall i | TakesStore(fl, ops[..n], i) ensures DispatchKept(w, ops[..n], i, s) {
      assert TakesStore(fl, ops, i) && ops[..n][..i - 1] == ops[..i - 1];
    }
  }

  /** A call that takes the operation before it has its dispatch kept: a store by
      the premise, any other move because it writes neither memory nor O0. */
  lemma TakenKept(fl: Flags, w: World, ops: seq<Op>, i: int, s: State)
    requires Undisturbed(fl, w, ops, s) && 0 < i < |ops| && ops[i].Call? && FillsCall(fl, ops[i], ops[i - 1])
    ensures DispatchKept(w, ops, i, s)
  {
    if !TakesStore(fl, ops, i) && ops[i].ckind == VirtualCall {
      match RunInOrder(w, ops[..i - 1], s)
      case Falls(s') => ClearKeepsDispatch(fl, w, ops[i], ops[i - 1], s');
      case _ =>
    }
  }

  /** `out` is a finished prefix of the output for the input prefix `before`. */
  ghost predicate Same(w: World, out: seq<Op>, before: seq<Op>, s: State) {
    Closed(out) && RunDelayed(w, out, s) == RunInOrder(w, before, s)
  }

  lemma PlainStep(w: World, out: seq<Op>, before: seq<Op>, op: Op, s: State)
    requires Same(w, out, before, s) && !op.IsCti() && !op.Delay?
    ensures Same(w, out + [op], before + [op], s)
  {
    InOrderConcat(w, before, [op], s);
    ClosedConcat(out, [op]);
    DelayedConcat(w, out, [op], s);
    assert [op][1..] == [];
  }

  lemma NopStep(w: World, out: seq<Op>, before: seq<Op>, op: Op, info: Option<int>, s: State)
    requires Same(w, out, before, s) && op.IsCti()
    ensures Same(w, out + [op, Delay(Nop, info)], before + [op], s)
  {
    var tail := [op, Delay(Nop, info)];
    assert tail[2..] == [] && [op][1..] == [];
    InOrderConcat(w, before, [op], s);
    ClosedConcat(out, tail);
    DelayedConcat(w, out, tail, s);
  }

  lemma SwapStep(fl: Flags, w: World, out: seq<Op>, before: seq<Op>, prev: Op, op: Op, info: Option<int>, s: State)
    requires Same(w, out, before, s)
    requires op.IsCti() && Fills(fl, op, prev) && ConcreteOp(prev) && (op.Call? ==> CallSafe(prev))
    requires op.Call? && RunInOrder(w, before, s).Falls? ==> SameDispatch(w, op, prev, RunInOrder(w, before, s).s)
    ensures Same(w, out + [op, Delay(prev, info)], before + [prev, op], s)
  {
    var tail := [op, Delay(prev, info)];
    assert tail[2..] == [];
    InOrderConcat(w, before, [prev, op], s);
    ClosedConcat(out, tail);
    DelayedConcat(w, out, tail, s);
    match RunInOrder(w, before, s)
    case Falls(s') => SwapPair(fl, w, op, prev, info, s');
    case _ =>
  }

  /** A filled slot holds the operation that came right before the transfer. */
  lemma {:induction false} SwapShape(fl: Flags, init: seq<Op>, op: Op)
    requires op.IsCti()
    requires var out := Rewritten(fl, init); out != [] && Fills(fl, op, out[|out| - 1])
    ensures init != [] && Fills(fl, op, init[|init| - 1])
    ensures Append(fl, Rewritten(fl, init), op)
         == Rewritten(fl, init[..|init| - 1]) + [op, Delay(init[|init| - 1], CallInfo(op))]
  {
    var out, prev := Rewritten(fl, init), init[|init| - 1];
    assert !out[|out| - 1].Delay?;
    assert out == Rewritten(fl, init[..|init| - 1]) + [prev];
    assert out[..|out| - 1] == Rewritten(fl, init[..|init| - 1]);
  }

  /** The last operation of the input is a transfer that takes the one before it. */
  predicate EndsFilled(fl: Flags, ops: seq<Op>)
    requires ops != []
  {
    var op, out := ops[|ops| - 1], Rewritten(fl, ops[..|ops| - 1]);
    op.IsCti() && out != [] && Fills(fl, op, out[|out| - 1])
  }

  lemma FilledShape(fl: Flags, ops: seq<Op>)
    requires ops != [] && EndsFilled(fl, ops)
    ensures |ops| >= 2
    ensures var init, prev, op := ops[..|ops| - 2], ops[|ops| - 2], ops[|ops| - 1];
            && ops == init + [prev, op] && Fills(fl, op, prev)
            && Rewritten(fl, ops) == Rewritten(fl, init) + [op, Delay(prev, CallInfo(op))]
  {
    var n := |ops| - 1;
    var init0, op := ops[..n], ops[n];
    assert Rewritten(fl, ops) == Append(fl, Rewritten(fl, init0), op);
    SwapShape(fl, init0, op);
    assert init0[..n - 1] == ops[..n - 1] && ops == ops[..n - 1] + [ops[n - 1], op];
  }

  lemma FilledMeaning(fl: Flags, w: World, ops: seq<Op>, s: State)
    requires BlockOk(fl, ops) && Undisturbed(fl, w, ops, s) && ops != [] && EndsFilled(fl, ops)
    requires |ops| >= 2 ==> Same(w, Rewritten(fl, ops[..|ops| - 2]), ops[..|ops| - 2], s)
    ensures Same(w, Rewritten(fl, ops), ops, s)
  {
    FilledShape(fl, ops);
    var init, prev, op := ops[..|ops| - 2], ops[|ops| - 2], ops[|ops| - 1];
    if op.Call? {
      TakenKept(fl, w, ops, |ops| - 1, s);
    }
    SwapStep(fl, w, Rewritten(fl, init), init, prev, op, CallInfo(op), s);
  }

  lemma PlainMeaning(fl: Flags, w: World, ops: seq<Op>, s: State)
    requires BlockOk(fl, ops) && ops != [] && !EndsFilled(fl, ops)
    requires Same(w, Rewritten(fl, ops[..|ops| - 1]), ops[..|ops| - 1], s)
    ensures Same(w, Rewritten(fl, ops), ops, s)
  {
    var init, op := ops[..|ops| - 1], ops[|ops| - 1];
    assert ops == init + [op];
    if op.IsCti() {
      NopStep(w, Rewritten(fl, init), init, op, CallInfo(op), s);
    } else {
      PlainStep(w, Rewritten(fl, init), init, op, s);
    }
  }

  /** Peephole output runs, delayed, as the input runs in order. */
  lemma {:induction false} KeepsMeaning(fl: Flags, w: World, ops: seq<Op>, s: State)
    requires BlockOk(fl, ops) && Undisturbed(fl, w, ops, s)
    ensures Same(w, Rewritten(fl, ops), ops, s)
    decreases |ops|
  {
    if ops != [] {
      if EndsFilled(fl, ops) {
        if |ops| >= 2 {
          UndisturbedPrefix(fl, w, ops, |ops| - 2, s);
          KeepsMeaning(fl, w, ops[..|ops| - 2], s);
        }
        FilledMeaning(fl, w, ops, s);
      } else {
        UndisturbedPrefix(fl, w, ops, |ops| - 1, s);
        KeepsMeaning(fl, w, ops[..|ops| - 1], s);
        PlainMeaning(fl, w, ops, s);
      }
    }
  }

  lemma SwapPair(fl: Flags, w: World, op: Op, prev: Op, info: Option<int>, s: State)
    requires op.IsCti() && Fills(fl, op, prev) && ConcreteOp(prev)
    requires op.Call? ==> CallSafe(prev) && SameDispatch(w, op, prev, s)
    ensures RunDelayed(w, [op, Delay(prev, info)], s) == RunInOrder(w, [prev, op], s)
  {
    SingleIsSimple(fl, prev);
    var s' := Exec(w, prev, s);
    assert [op, Delay(prev, info)][2..] == [] && [prev, op][1..] == [op] && [op][1..] == [];
    assert RunInOrder(w, [prev, op], s) == RunInOrder(w, [op], s');
    if op.Branch? {
      BranchSwap(fl, w, op, prev, s);
      var end := if Taken(w, op, s) then Jumps(op.target, s') else Falls(s');
      assert RunInOrder(w, [op], s') == end;
      assert RunDelayed(w, [op, Delay(prev, info)], s) == end;
    } else {
      CallSwap(fl, w, op, prev, s);
      var end := Falls(w.callee(CallEntry(w, op, s), CallSetup(w, op, s')));
      assert RunInOrder(w, [op], s') == end;
      assert RunDelayed(w, [op, Delay(prev, info)], s) == end;
    }
  }

  /** For every block, flag setting, machine state and environment: the rewritten
      block, run with delay slots, ends in the same state and goes to the same
      place as the original run in order, through the same calls, unless a store
      put behind a virtual call would have changed its dispatch. */
  lemma PeepholeKeepsMeaning(fl: Flags, w: World, ops: seq<Op>, s: State)
    requires BlockOk(fl, ops) && Undisturbed(fl, w, ops, s)
    ensures RunDelayed(w, Rewritten(fl, ops), s) == RunInOrder(w, ops, s)
  {
    KeepsMeaning(fl, w, ops, s);
  }

  /** No virtual call of the block comes right behind a store that it would take. */
  predicate NoStoreTaken(fl: Flags, ops: seq<Op>) {
    forall i :: 0 < i < |ops| && ops[i].Call? && ops[i].ckind == VirtualCall && FillsCall(fl, ops[i], ops[i - 1])
                ==> !ops[i - 1].dst.Mem?
  }

  /** For such a block, which its text alone decides, the meaning is kept in every
      state and environment. */
  lemma PeepholeKeepsText(fl: Flags, w: World, ops: seq<Op>, s: State)
    requires BlockOk(fl, ops) && NoStoreTaken(fl, ops)
    ensures RunDelayed(w, Rewritten(fl, ops), s) == RunInOrder(w, ops, s)
  {
    assert forall i :: !TakesStore(fl, ops, i);
    PeepholeKeepsMeaning(fl, w, ops, s);
  }

  /** A method body: blocks by number, each falling into the next one.  Runs at
      most `fuel` blocks; a jump outside the body leaves it. */
  function RunBody(w: World, delayed: bool, blocks: seq<seq<Op>>, b: int, s: State, fuel: nat): (int, Outcome)
    decreases fuel
  {
    if fuel == 0 || b < 0 || b >= |blocks| then (b, Falls(s))
    else
      match if delayed then RunDelayed(w, blocks[b], s) else RunInOrder(w, blocks[b], s)
      case Falls(s') => RunBody(w, delayed, blocks, b + 1, s', fuel - 1)
      case Jumps(target, s') => RunBody(w, delayed, blocks, target, s', fuel - 1)
      case Stuck => (b, Stuck)
  }

  /** Every block is undisturbed in the state in which the run enters it. */
  ghost predicate BodyUndisturbed(fl: Flags, w: World, blocks: seq<seq<Op>>, b: int, s: State, fuel: nat)
    decreases fuel
  {
    fuel != 0 && 0 <= b < |blocks| ==>
      && Undisturbed(fl, w, blocks[b], s)
      && match RunInOrder(w, blocks[b], s)
         case Falls(s') => BodyUndisturbed(fl, w, blocks, b + 1, s', fuel - 1)
         case Jumps(target, s') => BodyUndisturbed(fl, w, blocks, target, s', fuel - 1)
         case Stuck => true
  }

  /** Running the whole body for any number of blocks, loops included, visits the
      same blocks and states before and after every block is rewritten. */
  lemma {:induction false} BodyKeepsMeaning(fl: Flags, w: World, blocks: seq<seq<Op>>, out: seq<seq<Op>>, b: int, s: State, fuel: nat)
    requires |out| == |blocks|
    requires forall i :: 0 <= i < |blocks| ==> BlockOk(fl, blocks[i]) && out[i] == Rewritten(fl, blocks[i])
    requires BodyUndisturbed(fl, w, blocks, b, s, fuel)
    ensures RunBody(w, true, out, b, s, fuel) == RunBody(w, false, blocks, b, s, fuel)
    decreases fuel
  {
    if fuel != 0 && 0 <= b < |blocks| {
      PeepholeKeepsMeaning(fl, w, blocks[b], s);
      match RunInOrder(w, blocks[b], s)
      case Falls(s') => BodyKeepsMeaning(fl, w, blocks, out, b + 1, s', fuel - 1);
      case Jumps(target, s') => BodyKeepsMeaning(fl, w, blocks, out, target, s', fuel - 1);
      case Stuck =>
    }
  }

  /** And for a body of such blocks, from every state. */
  lemma {:induction false} BodyKeepsText(fl: Flags, w: World, blocks: seq<seq<Op>>, out: seq<seq<Op>>, b: int, s: State, fuel: nat)
    requires |out| == |blocks|
    requires forall i :: 0 <= i < |blocks| ==>
               BlockOk(fl, blocks[i]) && NoStoreTaken(fl, blocks[i]) && out[i] == Rewritten(fl, blocks[i])
    ensures RunBody(w, true, out, b, s, fuel) == RunBody(w, false, blocks, b, s, fuel)
    decreases fuel
  {
    if fuel != 0 && 0 <= b < |blocks| {
      PeepholeKeepsText(fl, w, blocks[b], s);
      match RunInOrder(w, blocks[b], s)
      case Falls(s') => BodyKeepsText(fl, w, blocks, out, b + 1, s', fuel - 1);
      case Jumps(target, s') => BodyKeepsText(fl, w, blocks, out, target, s', fuel - 1);
      case Stuck =>
    }
  }

  // ----- the premise on virtual calls is needed -----

  /** For a move put behind a call the swap is right whatever the callee does if and
      only if the dispatch is the same before and after the move. */
  lemma CallSwapExact(fl: Flags, w: World, call: Op, prev: Op, info: Option<int>, s: State)
    requires call.Call? && FillsCall(fl, call, prev) && CallSafe(prev)
    ensures (forall f :: SwapRight(w.(callee := f), call, prev, info, s)) <==> SameDispatch(w, call, prev, s)
  {
    if SameDispatch(w, call, prev, s) {
      forall f ensures SwapRight(w.(callee := f), call, prev, info, s) {
        SingleIsSimple(fl, prev);
        SameExec(w, f, prev, s);
        SameLookup(w, f, call, s);
        SameLookup(w, f, call, Exec(w, prev, s));
        SwapPair(fl, w.(callee := f), call, prev, info, s);
      }
    } else {
      Witnessed(fl, w, call, prev, info, s);
    }
  }

  predicate SwapRight(w: World, call: Op, prev: Op, info: Option<int>, s: State) {
    RunDelayed(w, [call, Delay(prev, info)], s) == RunInOrder(w, [prev, call], s)
  }

  lemma SameExec(w: World, f: (int, State) -> State, prev: Op, s: State)
    requires prev.Move? && Simple(prev.src) && Simple(prev.dst)
    ensures Exec(w.(callee := f), prev, s) == Exec(w, prev, s)
  {
    var w' := w.(callee := f);
    var v := Read(w, s, prev.src);
    assert Read(w', s, prev.src) == v;
    assert Write(w', s, prev.dst, v) == Write(w, s, prev.dst, v);
  }

  lemma SameLookup(w: World, f: (int, State) -> State, call: Op, s: State)
    requires call.Call?
    ensures Dispatched(w.(callee := f), call, s) == Dispatched(w, call, s)
  {
  }

  /** A callee that leaves its entry point in the state tells the two orders apart. */
  function Tell(e: int, s: State): State {
    s.(icc := e)
  }

  lemma PairRuns(w: World, call: Op, prev: Op, info: Option<int>, s: State)
    requires call.Call? && prev.Move?
    ensures var s' := Exec(w, prev, s);
            && RunInOrder(w, [prev, call], s) == Falls(w.callee(CallEntry(w, call, s'), CallSetup(w, call, s')))
            && RunDelayed(w, [call, Delay(prev, info)], s)
               == Falls(w.callee(CallEntry(w, call, s), Exec(w, prev, CallSetup(w, call, s))))
  {
    var s' := Exec(w, prev, s);
    assert [call, Delay(prev, info)][2..] == [] && [prev, call][1..] == [call] && [call][1..] == [];
    assert RunInOrder(w, [prev, call], s) == RunInOrder(w, [call], s');
    assert RunInOrder(w, [call], s') == RunInOrder(w, [], w.callee(CallEntry(w, call, s'), CallSetup(w, call, s')));
  }

  lemma SetupG5(w: World, call: Op, prev: Op, s: State)
    requires call.Call? && call.ckind == VirtualCall && prev.Move? && Simple(prev.src) && Simple(prev.dst) && CallSafe(prev)
    ensures Reg(CallSetup(w, call, s), G5) == Dispatched(w, call, s).0
    ensures Reg(Exec(w, prev, CallSetup(w, call, s)), G5) == Dispatched(w, call, s).0
  {
  }

  lemma Witnessed(fl: Flags, w: World, call: Op, prev: Op, info: Option<int>, s: State)
    requires call.Call? && FillsCall(fl, call, prev) && CallSafe(prev) && !SameDispatch(w, call, prev, s)
    ensures !SwapRight(w.(callee := Tell), call, prev, info, s)
  {
    SingleIsSimple(fl, prev);
    var w', s' := w.(callee := Tell), Exec(w, prev, s);
    SameExec(w, Tell, prev, s);
    SameLookup(w, Tell, call, s);
    SameLookup(w, Tell, call, s');
    PairRuns(w', call, prev, info, s);
    SetupG5(w', call, prev, s);
    SetupG5(w', call, prev, s');
    assert CallEntry(w', call, s) == Dispatched(w, call, s).1 && CallEntry(w', call, s') == Dispatched(w, call, s').1;
  }

  /** Such a store can be written: into the receiver's own klass word. */
  function KlassStore(w: World): Op {
    Move(Cpu(10, Int), Mem(O0, None, w.klassOffset, Int), false, Normal, false)
  }

  /** It disturbs the dispatch whenever the new class has another method there. */
  lemma StoreDisturbsDispatch(fl: Flags, w: World, call: Op, s: State)
    requires call.Call? && call.ckind == VirtualCall && fl.fillDelaySlots && !fl.verifyOops && !fl.patchALot
    requires IsSimm13(w.klassOffset)
    requires var k := w.convert(Int, Reg(s, 10));
      var slot, slot' := SlotAddr(w, call, s), w.decodeKlass(k) + call.entry;
      slot' != KlassAddr(w, s) && Get(s.mem, slot') != Get(s.mem, slot)
    ensures FillsCall(fl, call, KlassStore(w)) && CallSafe(KlassStore(w)) && !SameDispatch(w, call, KlassStore(w), s)
  {
    var k := w.convert(Int, Reg(s, 10));
    assert Exec(w, KlassStore(w), s) == s.(mem := s.mem[KlassAddr(w, s) := k]);
  }

  // ----- nothing is lost or reordered beyond the swap -----

  /** Undo the peephole: put each delay operation back before its transfer. */
  function Restored(ops: seq<Op>): seq<Op> {
    if ops == [] then []
    else if ops[0].IsCti() && |ops| >= 2 && ops[1].Delay?
    then (if ops[1].op.Nop? then [] else [ops[1].op]) + [ops[0]] + Restored(ops[2..])
    else [ops[0]] + Restored(ops[1..])
  }

  lemma {:induction false} RestoredConcat(a: seq<Op>, b: seq<Op>)
    requires Closed(a)
    ensures Restored(a + b) == Restored(a) + Restored(b)
  {
    if a == [] {
      assert a + b == b;
    } else {
      var n := if a[0].IsCti() then 2 else 1;
      assert (a + b)[n..] == a[n..] + b;
      RestoredConcat(a[n..], b);
    }
  }

  lemma FillsNotNop(fl: Flags, op: Op, prev: Op)
    requires op.IsCti() && Fills(fl, op, prev)
    ensures !prev.Nop?
  {
  }

  ghost predicate Undoes(out: seq<Op>, before: seq<Op>) {
    Closed(out) && Restored(out) == before
  }

  lemma TailUndone(out: seq<Op>, before: seq<Op>, op: Op, slot: Op, info: Option<int>)
    requires Undoes(out, before) && op.IsCti()
    ensures Undoes(out + [op, Delay(slot, info)], before + (if slot.Nop? then [op] else [slot, op]))
  {
    var tail := [op, Delay(slot, info)];
    ClosedConcat(out, tail);
    RestoredConcat(out, tail);
    assert tail[2..] == [];
    assert Restored(tail) == if slot.Nop? then [op] else [slot, op];
  }

  lemma PlainUndone(out: seq<Op>, before: seq<Op>, op: Op)
    requires Undoes(out, before) && !op.IsCti() && !op.Delay?
    ensures Undoes(out + [op], before + [op])
  {
    ClosedConcat(out, [op]);
    RestoredConcat(out, [op]);
    assert [op][1..] == [];
  }

  lemma FilledUndone(fl: Flags, ops: seq<Op>)
    requires ops != [] && EndsFilled(fl, ops)
    requires |ops| >= 2 ==> Undoes(Rewritten(fl, ops[..|ops| - 2]), ops[..|ops| - 2])
    ensures Undoes(Rewritten(fl, ops), ops)
  {
    FilledShape(fl, ops);
    var init, prev, op := ops[..|ops| - 2], ops[|ops| - 2], ops[|ops| - 1];
    FillsNotNop(fl, op, prev);
    TailUndone(Rewritten(fl, init), init, op, prev, CallInfo(op));
  }

  lemma PlainTailUndone(fl: Flags, ops: seq<Op>)
    requires ops != [] && !EndsFilled(fl, ops) && !ops[|ops| - 1].Delay?
    requires Undoes(Rewritten(fl, ops[..|ops| - 1]), ops[..|ops| - 1])
    ensures Undoes(Rewritten(fl, ops), ops)
  {
    var init, op := ops[..|ops| - 1], ops[|ops| - 1];
    assert ops == init + [op];
    if op.IsCti() {
      TailUndone(Rewritten(fl, init), init, op, Nop, CallInfo(op));
    } else {
      PlainUndone(Rewritten(fl, init), init, op);
    }
  }

  lemma {:induction false} Undone(fl: Flags, ops: seq<Op>)
    requires forall i :: 0 <= i < |ops| ==> !ops[i].Delay?
    ensures Undoes(Rewritten(fl, ops), ops)
    decreases |ops|
  {
    if ops != [] {
      if EndsFilled(fl, ops) {
        if |ops| >= 2 {
          Undone(fl, ops[..|ops| - 2]);
        }
        FilledUndone(fl, ops);
      } else {
        Undone(fl, ops[..|ops| - 1]);
        PlainTailUndone(fl, ops);
      }
    }
  }

  /** The output determines the input: every transfer has exactly one delay
      operation, and undoing the swaps gives back the original list, so no
      operation is lost, duplicated or moved past a label or a second transfer. */
  lemma PeepholeRestores(fl: Flags, ops: seq<Op>)
    requires forall i :: 0 <= i < |ops| ==> !ops[i].Delay?
    ensures Closed(Rewritten(fl, ops)) && Restored(Rewritten(fl, ops)) == ops
  {
    Undone(fl, ops);
  }

  // ----- which slots are filled -----

  /** What the slot of the transfer ops[i] should hold: the operation before it if
      that one may go there, else a nop. */
  function SlotFor(fl: Flags, ops: seq<Op>, i: nat): Op
    requires i < |ops| && ops[i].IsCti()
  {
    Delay(if i > 0 && Fills(fl, ops[i], ops[i - 1]) then ops[i - 1] else Nop, CallInfo(ops[i]))
  }

  lemma LastRewritten(fl: Flags, ops: seq<Op>)
    requires ops != []
    ensures var out := Rewritten(fl, ops);
            out != [] && if ops[|ops| - 1].IsCti() then out[|out| - 1].Delay? else out[|out| - 1] == ops[|ops| - 1]
  {
  }

  lemma AppendSlot(fl: Flags, out: seq<Op>, op: Op)
    requires op.IsCti()
    ensures var r := Append(fl, out, op);
            |r| >= 2 && r[|r| - 2] == op
            && r[|r| - 1] == Delay(if out != [] && Fills(fl, op, out[|out| - 1]) then out[|out| - 1] else Nop, CallInfo(op))
  {
  }

  lemma SameFill(fl: Flags, op: Op, last: Op, prev: Op)
    requires op.IsCti() && (last == prev || (last.Delay? && prev.IsCti()))
    ensures Fills(fl, op, last) == Fills(fl, op, prev) && (Fills(fl, op, prev) ==> last == prev)
  {
  }

  lemma NewSlot(fl: Flags, ops: seq<Op>, i: nat)
    requires i < |ops| && ops[i].IsCti()
    ensures var out := Rewritten(fl, ops[..i + 1]);
            |out| >= 2 && out[|out| - 2] == ops[i] && out[|out| - 1] == SlotFor(fl, ops, i)
  {
    var out := Rewritten(fl, ops[..i]);
    assert Rewritten(fl, ops[..i + 1]) == Append(fl, out, ops[i]) by { assert ops[..i + 1][..i] == ops[..i]; }
    AppendSlot(fl, out, ops[i]);
    if i > 0 {
      LastRewritten(fl, ops[..i]);
      SameFill(fl, ops[i], out[|out| - 1], ops[i - 1]);
    }
  }

  lemma AppendKeeps(fl: Flags, p: seq<Op>, out: seq<Op>, op: Op)
    requires p <= out && p != [] && p[|p| - 1].Delay?
    ensures p <= Append(fl, out, op)
  {
    assert op.IsCti() ==> !Fills(fl, op, p[|p| - 1]);
  }

  lemma {:induction false} SlotStays(fl: Flags, ops: seq<Op>, i: nat)
    requires i < |ops| && ops[i].IsCti()
    ensures Rewritten(fl, ops[..i + 1]) <= Rewritten(fl, ops)
    decreases |ops|
  {
    if i + 1 == |ops| {
      assert ops[..i + 1] == ops;
    } else {
      var init := ops[..|ops| - 1];
      assert init[..i + 1] == ops[..i + 1];
      SlotStays(fl, init, i);
      LastRewritten(fl, ops[..i + 1]);
      AppendKeeps(fl, Rewritten(fl, ops[..i + 1]), Rewritten(fl, init), ops[|ops| - 1]);
    }
  }

  /** In the whole output every transfer is followed by the slot it should have: a
      slot is filled exactly when the operation before the transfer may fill it. */
  lemma SlotsBestUsed(fl: Flags, ops: seq<Op>, i: nat)
    requires i < |ops| && ops[i].IsCti()
    ensures var at, out := |Rewritten(fl, ops[..i + 1])| - 2, Rewritten(fl, ops);
            0 <= at && at + 1 < |out| && out[at] == ops[i] && out[at + 1] == SlotFor(fl, ops, i)
  {
    NewSlot(fl, ops, i);
    SlotStays(fl, ops, i);
  }
}
