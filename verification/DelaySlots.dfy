/** The assembler's delay-slot automaton, and the proof that emitting a block
    after the peephole never fails one of its checks. */
module DelaySlots {
  import opened Wrappers
  import opened Lir
  import opened Peephole
  import opened DelayedBlocks

  datatype DelayState = NoDelay | AtDelaySlot | FillingDelaySlot

  /** One assembler call on the automaton; None is a failed assertion. */
  function Feed(d: DelayState, e: Event): Option<DelayState> {
    match e
    case SayDelayed => if d == AtDelaySlot then Some(FillingDelaySlot) else None
    case Insn(_) => if d != AtDelaySlot then Some(NoDelay) else None
    case Cti(_) => if d == NoDelay then Some(AtDelaySlot) else None
  }

  function FeedAll(d: DelayState, es: seq<Event>): Option<DelayState>
    decreases |es|
  {
    if es == [] then Some(d)
    else match Feed(d, es[0])
      case None => None
      case Some(d') => FeedAll(d', es[1..])
  }

  /** The instruction words among the calls. */
  function Words(es: seq<Event>): seq<Event> {
    if es == [] then [] else (if es[0].SayDelayed? then [] else [es[0]]) + Words(es[1..])
  }

  lemma {:induction false} FeedConcat(d: DelayState, a: seq<Event>, b: seq<Event>)
    ensures FeedAll(d, a + b) == match FeedAll(d, a) case None => None case Some(d') => FeedAll(d', b)
    decreases |a|
  {
    if a == [] {
      assert a + b == b;
    } else {
      assert (a + b)[1..] == a[1..] + b;
      if Feed(d, a[0]).Some? {
        FeedConcat(Feed(d, a[0]).value, a[1..], b);
      }
    }
  }

  lemma {:induction false} WordsConcat(a: seq<Event>, b: seq<Event>)
    ensures Words(a + b) == Words(a) + Words(b)
  {
    if a == [] {
      assert a + b == b;
    } else {
      assert (a + b)[1..] == a[1..] + b;
      WordsConcat(a[1..], b);
    }
  }

  lemma TakeOne(d: DelayState, es: seq<Event>, i: nat)
    requires i < |es|
    ensures FeedAll(d, es[i..]) == match Feed(d, es[i]) case None => None case Some(d') => FeedAll(d', es[i + 1..])
    ensures Words(es[i..]) == (if es[i].SayDelayed? then [] else [es[i]]) + Words(es[i + 1..])
  {
    assert es[i..][1..] == es[i + 1..] && es[i..][0] == es[i];
  }

  /** In machine code: a transfer is followed by one word that is not a transfer. */
  predicate SlotsFilled(words: seq<Event>) {
    forall i :: 0 <= i < |words| && words[i].Cti? ==> i + 1 < |words| && words[i + 1].Insn?
  }

  class Assembler {
    var delayState: DelayState
    var code: seq<Event>

    constructor ()
      ensures delayState == NoDelay && code == []
    {
      delayState, code := NoDelay, [];
    }

    /** delayed() */
    method Delayed()
      requires delayState == AtDelaySlot
      modifies this
      ensures delayState == FillingDelaySlot && code == old(code)
    {
      delayState := FillingDelaySlot;
    }

    /** check_delay() and the store of the word */
    method EmitInt32(e: Event)
      requires delayState != AtDelaySlot && !e.SayDelayed?
      modifies this
      ensures delayState == NoDelay && code == old(code) + [e]
    {
      delayState := NoDelay;
      code := code + [e];
    }

    /** cti(), the word, has_delay_slot() */
    method EmitCti(e: Event)
      requires delayState == NoDelay && e.Cti?
      modifies this
      ensures delayState == AtDelaySlot && code == old(code) + [e]
    {
      EmitInt32(e);
      delayState := AtDelaySlot;
    }

    /** flush(): code must not end inside a delay slot. */
    method Flush()
      requires delayState == NoDelay
    {
    }

    /** A sequence of assembler calls that passes every check. */
    method EmitAll(es: seq<Event>)
      requires FeedAll(delayState, es).Some?
      modifies this
      ensures Some(delayState) == FeedAll(old(delayState), es) && code == old(code) + Words(es)
    {
      var i := 0;
      while i < |es|
        invariant i <= |es| && FeedAll(delayState, es[i..]) == FeedAll(old(delayState), es)
        invariant code + Words(es[i..]) == old(code) + Words(es)
      {
        var e := es[i];
        TakeOne(delayState, es, i);
        match e {
          case SayDelayed => Delayed();
          case Insn(_) => EmitInt32(e);
          case Cti(_) => EmitCti(e);
        }
        i := i + 1;
      }
    }
  }

  /** Expansions outside the peephole's care stay out of delay slots, or fill the
      ones they open themselves. */
  ghost predicate SelfContained(es: seq<Event>) {
    FeedAll(NoDelay, es) == Some(NoDelay) && SlotsFilled(Words(es))
  }

  /** Operations outside delay slots that the emitters can assemble self-contained. */
  ghost predicate Emittable(fl: Flags, tg: Target, op: Op) {
    match op
    case Branch(_, _, _, _) => true
    case Call(_, _, _) => SelfContained(tg.callPrelude(op))
    case Delay(_, _) => false
    case _ => Emit(fl, tg, op).Some? && SelfContained(Emit(fl, tg, op).value)
               && (IsSingleInstruction(fl, op) ==> WellTyped(op))
  }

  function EmitList(fl: Flags, tg: Target, ops: seq<Op>): Option<seq<Event>> {
    if ops == [] then Some([])
    else
      var e, rest := Emit(fl, tg, ops[0]), EmitList(fl, tg, ops[1..]);
      if e.None? || rest.None? then None else Some(e.value + rest.value)
  }

  /** The operations the peephole puts into delay slots are ones that do not expand. */
  predicate SlotsFit(fl: Flags, tg: Target, ops: seq<Op>) {
    forall i :: 0 < i < |ops| && ops[i].IsCti() && Fills(fl, ops[i], ops[i - 1]) ==> !Expands(fl, tg, ops[i - 1])
  }

  lemma SlotsConcat(a: seq<Event>, b: seq<Event>)
    requires SlotsFilled(a) && SlotsFilled(b)
    ensures SlotsFilled(a + b)
  {
    forall i | 0 <= i < |a + b| && (a + b)[i].Cti?
      ensures i + 1 < |a + b| && (a + b)[i + 1].Insn?
    {
      if i < |a| {
        assert a[i].Cti?;
      } else {
        assert b[i - |a|].Cti?;
      }
    }
  }

  lemma Sequence(a: seq<Event>, b: seq<Event>)
    requires SelfContained(a) && SelfContained(b)
    ensures SelfContained(a + b)
  {
    FeedConcat(NoDelay, a, b);
    WordsConcat(a, b);
    SlotsConcat(Words(a), Words(b));
  }

  /** A transfer together with its delay operation is self-contained. */
  lemma TransferAndSlot(c: string, m: string)
    ensures SelfContained([Cti(c), SayDelayed, Insn(m)])
  {
    var es := [Cti(c), SayDelayed, Insn(m)];
    assert es[1..] == [SayDelayed, Insn(m)] && es[1..][1..] == [Insn(m)] && es[1..][1..][1..] == [];
    assert FeedAll(AtDelaySlot, es[1..]) == Some(NoDelay) by {
      assert FeedAll(FillingDelaySlot, es[1..][1..]) == Some(NoDelay);
    }
    assert Words(es[1..][1..]) == [Insn(m)];
    assert Words(es[1..]) == [Insn(m)];
    assert Words(es) == [Cti(c), Insn(m)];
  }

  /** What a delay operation adds: delayed() and exactly one plain instruction, or a
      failure exactly if it expands. */
  lemma DelayIsOneWord(fl: Flags, tg: Target, op: Op)
    requires op.Delay? && (op.op.Nop? || (IsSingleInstruction(fl, op.op) && Emittable(fl, tg, op.op)))
    ensures Emit(fl, tg, op).Some? <==> op.op.Nop? || !Expands(fl, tg, op.op)
    ensures Emit(fl, tg, op).Some? ==> exists m :: Emit(fl, tg, op) == Some([SayDelayed, Insn(m)])
  {
    var d := op.op;
    if !d.Nop? {
      SingleInstructionExact(fl, tg, d);
    }
    var e := Emit(fl, tg, d).value;
    if Emit(fl, tg, op).Some? {
      assert e == [Insn(e[0].mnemonic)];
      assert [SayDelayed] + e == [SayDelayed, Insn(e[0].mnemonic)];
    }
  }

  lemma {:induction false} EmitConcat(fl: Flags, tg: Target, a: seq<Op>, b: seq<Op>)
    ensures var x, y := EmitList(fl, tg, a), EmitList(fl, tg, b);
            EmitList(fl, tg, a + b) == if x.None? || y.None? then None else Some(x.value + y.value)
  {
    if a == [] {
      assert a + b == b;
      assert EmitList(fl, tg, b).Some? ==> [] + EmitList(fl, tg, b).value == EmitList(fl, tg, b).value;
    } else {
      assert (a + b)[1..] == a[1..] + b && (a + b)[0] == a[0];
      EmitConcat(fl, tg, a[1..], b);
      var e, x, y := Emit(fl, tg, a[0]), EmitList(fl, tg, a[1..]), EmitList(fl, tg, b);
      if e.Some? && x.Some? && y.Some? {
        assert e.value + (x.value + y.value) == (e.value + x.value) + y.value;
      }
    }
  }

  /** A list emits exactly if `fits`, and then self-contained. */
  ghost predicate EmitsIff(fl: Flags, tg: Target, ops: seq<Op>, fits: bool) {
    && (EmitList(fl, tg, ops).Some? <==> fits)
    && (fits ==> SelfContained(EmitList(fl, tg, ops).value))
  }

  lemma EmitsTail(fl: Flags, tg: Target, a: seq<Op>, b: seq<Op>, fa: bool, fb: bool)
    requires EmitsIff(fl, tg, a, fa) && EmitsIff(fl, tg, b, fb)
    ensures EmitsIff(fl, tg, a + b, fa && fb)
  {
    EmitConcat(fl, tg, a, b);
    if fa && fb {
      Sequence(EmitList(fl, tg, a).value, EmitList(fl, tg, b).value);
    }
  }

  lemma PlainEmits(fl: Flags, tg: Target, op: Op)
    requires Emittable(fl, tg, op) && !op.IsCti()
    ensures EmitsIff(fl, tg, [op], true)
  {
    var e := Emit(fl, tg, op).value;
    assert [op][1..] == [] && e + [] == e;
  }

  /** A transfer with its delay operation emits exactly if the operation is one word. */
  lemma TransferEmits(fl: Flags, tg: Target, op: Op, slot: Op)
    requires op.IsCti() && Emittable(fl, tg, op)
    requires slot.Delay? && (slot.op.Nop? || (IsSingleInstruction(fl, slot.op) && Emittable(fl, tg, slot.op)))
    ensures EmitsIff(fl, tg, [op, slot], slot.op.Nop? || !Expands(fl, tg, slot.op))
  {
    DelayIsOneWord(fl, tg, slot);
    assert [op, slot][1..] == [slot] && [slot][1..] == [];
    if Emit(fl, tg, slot).Some? {
      var m :| Emit(fl, tg, slot) == Some([SayDelayed, Insn(m)]);
      TransferWords(fl, tg, op, slot, m);
    }
  }

  lemma TransferWords(fl: Flags, tg: Target, op: Op, slot: Op, m: string)
    requires op.IsCti() && Emittable(fl, tg, op) && Emit(fl, tg, slot) == Some([SayDelayed, Insn(m)])
    ensures EmitsIff(fl, tg, [op, slot], true)
  {
    var pre := if op.Call? then tg.callPrelude(op) else [];
    var c := if op.Call? then "call" else if op.isFloat then "fbp" else "bp";
    assert Emit(fl, tg, op) == Some(pre + [Cti(c)]) by { assert op.Branch? ==> pre + [Cti(c)] == [Cti(c)]; }
    TransferAndSlot(c, m);
    assert SelfContained(pre + [Cti(c), SayDelayed, Insn(m)]) by { Sequence(pre, [Cti(c), SayDelayed, Insn(m)]); }
    assert [op, slot][1..] == [slot] && [slot][1..] == [];
    assert EmitList(fl, tg, [slot]) == Some([SayDelayed, Insn(m)]) by { assert [SayDelayed, Insn(m)] + [] == [SayDelayed, Insn(m)]; }
    assert (pre + [Cti(c)]) + [SayDelayed, Insn(m)] == pre + [Cti(c), SayDelayed, Insn(m)];
  }

  lemma FilledFits(fl: Flags, tg: Target, ops: seq<Op>)
    requires |ops| >= 2 && ops[|ops| - 1].IsCti() && Fills(fl, ops[|ops| - 1], ops[|ops| - 2])
    ensures SlotsFit(fl, tg, ops) <==> SlotsFit(fl, tg, ops[..|ops| - 2]) && !Expands(fl, tg, ops[|ops| - 2])
  {
    var init := ops[..|ops| - 2];
    assert forall i :: 0 <= i < |init| ==> init[i] == ops[i];
    assert !ops[|ops| - 2].IsCti();
  }

  lemma PlainFits(fl: Flags, tg: Target, ops: seq<Op>)
    requires ops != [] && !EndsFilled(fl, ops)
    ensures SlotsFit(fl, tg, ops) <==> SlotsFit(fl, tg, ops[..|ops| - 1])
  {
    var n := |ops| - 1;
    var init, op := ops[..n], ops[n];
    assert forall i :: 0 <= i < n ==> init[i] == ops[i];
    if n > 0 && op.IsCti() {
      LastRewritten(fl, init);
      var out := Rewritten(fl, init);
      SameFill(fl, op, out[|out| - 1], ops[n - 1]);
    }
  }

  lemma FilledEmits(fl: Flags, tg: Target, ops: seq<Op>)
    requires ops != [] && EndsFilled(fl, ops) && forall i :: 0 <= i < |ops| ==> Emittable(fl, tg, ops[i])
    requires |ops| >= 2 ==> EmitsIff(fl, tg, Rewritten(fl, ops[..|ops| - 2]), SlotsFit(fl, tg, ops[..|ops| - 2]))
    ensures EmitsIff(fl, tg, Rewritten(fl, ops), SlotsFit(fl, tg, ops))
  {
    FilledShape(fl, ops);
    FilledFits(fl, tg, ops);
    var init, prev, op := ops[..|ops| - 2], ops[|ops| - 2], ops[|ops| - 1];
    var slot := Delay(prev, CallInfo(op));
    FillsNotNop(fl, op, prev);
    TransferEmits(fl, tg, op, slot);
    EmitsTail(fl, tg, Rewritten(fl, init), [op, slot], SlotsFit(fl, tg, init), !Expands(fl, tg, prev));
  }

  lemma PlainTailEmits(fl: Flags, tg: Target, ops: seq<Op>)
    requires ops != [] && !EndsFilled(fl, ops) && Emittable(fl, tg, ops[|ops| - 1])
    requires EmitsIff(fl, tg, Rewritten(fl, ops[..|ops| - 1]), SlotsFit(fl, tg, ops[..|ops| - 1]))
    ensures EmitsIff(fl, tg, Rewritten(fl, ops), SlotsFit(fl, tg, ops))
  {
    PlainFits(fl, tg, ops);
    var init, op := ops[..|ops| - 1], ops[|ops| - 1];
    var tail := if op.IsCti() then [op, Delay(Nop, CallInfo(op))] else [op];
    assert Rewritten(fl, ops) == Rewritten(fl, init) + tail;
    if op.IsCti() {
      TransferEmits(fl, tg, op, Delay(Nop, CallInfo(op)));
    } else {
      PlainEmits(fl, tg, op);
    }
    EmitsTail(fl, tg, Rewritten(fl, init), tail, SlotsFit(fl, tg, init), true);
  }

  lemma {:induction false} EmissionExact(fl: Flags, tg: Target, ops: seq<Op>)
    requires forall i :: 0 <= i < |ops| ==> Emittable(fl, tg, ops[i])
    ensures EmitsIff(fl, tg, Rewritten(fl, ops), SlotsFit(fl, tg, ops))
    decreases |ops|
  {
    if ops == [] {
    } else if EndsFilled(fl, ops) {
      if |ops| >= 2 {
        EmissionExact(fl, tg, ops[..|ops| - 2]);
      }
      FilledEmits(fl, tg, ops);
    } else {
      EmissionExact(fl, tg, ops[..|ops| - 1]);
      PlainTailEmits(fl, tg, ops);
    }
  }

  /** Emission safety, exactly: the rewritten list assembles without failing a
      delay-slot check if and only if no operation put into a slot expands; the
      automaton then ends in no_delay, and in the machine code every transfer is
      followed by exactly one plain instruction. */
  lemma EmissionSafe(fl: Flags, tg: Target, ops: seq<Op>)
    requires forall i :: 0 <= i < |ops| ==> Emittable(fl, tg, ops[i])
    ensures EmitList(fl, tg, Rewritten(fl, ops)).Some? <==> SlotsFit(fl, tg, ops)
    ensures SlotsFit(fl, tg, ops) ==>
              var es := EmitList(fl, tg, Rewritten(fl, ops)).value;
              FeedAll(NoDelay, es) == Some(NoDelay) && SlotsFilled(Words(es))
  {
    EmissionExact(fl, tg, ops);
  }

  lemma TwoPlain(a: string, b: string)
    ensures SelfContained([Insn(a), Insn(b)])
  {
    var es := [Insn(a), Insn(b)];
    assert es[0..] == es && es[2..] == [];
    TakeOne(NoDelay, es, 0);
    TakeOne(NoDelay, es, 1);
    assert Words(es) == es;
  }

  /** A list the exact condition refuses: an unaligned indexed load before a branch. */
  lemma ExpandingSlotFails(fl: Flags, tg: Target, target: int)
    requires fl.fillDelaySlots && !fl.verifyOops && !fl.patchALot
    ensures var load, br := Move(Mem(8, Some(9), 0, Int), Cpu(10, Int), false, Unaligned, false), Branch(Always, false, target, true);
      EmitList(fl, tg, Rewritten(fl, [Label(0), load, br])).None?
  {
    var load, br := Move(Mem(8, Some(9), 0, Int), Cpu(10, Int), false, Unaligned, false), Branch(Always, false, target, true);
    var ops := [Label(0), load, br];
    UnalignedIndexedLoadExpands(fl, tg);
    TwoPlain("add", "ld");
    assert Fills(fl, ops[2], ops[1]) && Expands(fl, tg, ops[1]);
    EmissionSafe(fl, tg, ops);
  }

  /** Operations `ops[i..]` remain to be assembled; doing so completes `words`. */
  ghost predicate Remaining(fl: Flags, tg: Target, d: DelayState, code: seq<Event>, ops: seq<Op>, i: nat, words: seq<Event>) {
    && i <= |ops| && EmitList(fl, tg, ops[i..]).Some?
    && FeedAll(d, EmitList(fl, tg, ops[i..]).value) == Some(NoDelay)
    && code + Words(EmitList(fl, tg, ops[i..]).value) == words
  }

  lemma {:induction false} RemainingStep(fl: Flags, tg: Target, d: DelayState, code: seq<Event>, ops: seq<Op>, i: nat, words: seq<Event>)
    requires i < |ops| && Remaining(fl, tg, d, code, ops, i, words)
    ensures Emit(fl, tg, ops[i]).Some?
    ensures var e := Emit(fl, tg, ops[i]).value;
      FeedAll(d, e).Some? && Remaining(fl, tg, FeedAll(d, e).value, code + Words(e), ops, i + 1, words)
  {
    assert ops[i..][1..] == ops[i + 1..];
    var e, rest := Emit(fl, tg, ops[i]).value, EmitList(fl, tg, ops[i + 1..]).value;
    FeedConcat(d, e, rest);
    WordsConcat(e, rest);
  }

  /** emit_lir_list: rewrite the block, then assemble it operation by operation. */
  method EmitLirList(fl: Flags, tg: Target, lir: LirList, asm: Assembler)
    requires lir.ops != [] ==> lir.ops[0].Label?
    requires forall i :: 0 <= i < |lir.ops| ==> Emittable(fl, tg, lir.ops[i])
    requires SlotsFit(fl, tg, lir.ops)
    requires asm.delayState == NoDelay
    modifies lir, asm
    ensures lir.ops == Rewritten(fl, old(lir.ops)) && asm.delayState == NoDelay
    ensures EmitList(fl, tg, lir.ops).Some? && asm.code == old(asm.code) + Words(EmitList(fl, tg, lir.ops).value)
    ensures SlotsFilled(Words(EmitList(fl, tg, lir.ops).value))
  {
    ghost var orig := lir.ops;
    Peephole.Peephole(fl, lir);
    EmissionExact(fl, tg, orig);
    ghost var words := asm.code + Words(EmitList(fl, tg, lir.ops).value);
    var i := 0;
    assert lir.ops[0..] == lir.ops;
    while i < |lir.ops|
      invariant lir.ops == Rewritten(fl, orig) && i <= |lir.ops|
      invariant Remaining(fl, tg, asm.delayState, asm.code, lir.ops, i, words)
    {
      RemainingStep(fl, tg, asm.delayState, asm.code, lir.ops, i, words);
      var e := Emit(fl, tg, lir.ops[i]);
      asm.EmitAll(e.value);
      i := i + 1;
    }
    asm.Flush();
  }
}
