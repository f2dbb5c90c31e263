/** The delay-slot peephole: the in-place rewrite of a list, and the list function
    it computes. */
module Peephole {
  import opened Wrappers
  import opened Lir

  // ----- the rewrite -----

  predicate FillsBranch(fl: Flags, br: Op, prev: Op)
    requires br.Branch?
  {
    fl.fillDelaySlots && br.toBlock && IsSingleInstruction(fl, prev) && !prev.HasInfo()
  }

  predicate FillsCall(fl: Flags, call: Op, prev: Op)
    requires call.Call?
  {
    && fl.fillDelaySlots && prev.Move? && !prev.HasInfo()
    && (call.ckind != VirtualCall || !prev.dst.Cpu? || prev.dst.r != O0)
    && IsSingleInstruction(fl, prev)
  }

  predicate Fills(fl: Flags, cti: Op, prev: Op)
    requires cti.IsCti()
  {
    if cti.Branch? then FillsBranch(fl, cti, prev) else FillsCall(fl, cti, prev)
  }

  function CallInfo(cti: Op): Option<int> {
    if cti.Call? then Some(cti.site) else None
  }

  /** The list after one more operation has been processed. */
  function Append(fl: Flags, out: seq<Op>, op: Op): seq<Op> {
    if !op.IsCti() then out + [op]
    else if out != [] && Fills(fl, op, out[|out| - 1])
    then out[..|out| - 1] + [op, Delay(out[|out| - 1], CallInfo(op))]
    else out + [op, Delay(Nop, CallInfo(op))]
  }

  function Rewritten(fl: Flags, ops: seq<Op>): seq<Op> {
    if ops == [] then [] else Append(fl, Rewritten(fl, ops[..|ops| - 1]), ops[|ops| - 1])
  }

  class LirList {
    var ops: seq<Op>

    constructor (ops: seq<Op>)
      ensures this.ops == ops
    {
      this.ops := ops;
    }

    method AtPut(i: nat, op: Op)
      requires i < |ops|
      modifies this
      ensures ops == old(ops)[i := op]
    {
      ops := ops[i := op];
    }

    method InsertBefore(i: nat, op: Op)
      requires i <= |ops|
      modifies this
      ensures ops == old(ops)[..i] + [op] + old(ops)[i..]
    {
      ops := ops[..i] + [op] + ops[i..];
    }
  }

  /** The branch case: swap the previous operation into the slot, or insert a nop. */
  method PlaceBranch(fl: Flags, lir: LirList, i: nat, ghost out: seq<Op>, ghost rest: seq<Op>) returns (filled: bool)
    requires out != [] && i == |out| && |lir.ops| > i && lir.ops[i].Branch? && lir.ops == out + [lir.ops[i]] + rest
    modifies lir
    ensures lir.ops == Append(fl, out, old(lir.ops[i])) + rest
    ensures |Append(fl, out, old(lir.ops[i]))| == if filled then i + 1 else i + 2
  {
    var op, prev := lir.ops[i], lir.ops[i - 1];
    filled := fl.fillDelaySlots && op.toBlock && IsSingleInstruction(fl, prev) && !prev.HasInfo();
    if filled {
      lir.AtPut(i - 1, op);
      lir.AtPut(i, Delay(prev, None));
    } else {
      lir.InsertBefore(i + 1, Delay(Nop, None));
    }
  }

  /** The call case; the call's debug information moves to the delay operation. */
  method PlaceCall(fl: Flags, lir: LirList, i: nat, ghost out: seq<Op>, ghost rest: seq<Op>) returns (filled: bool)
    requires out != [] && i == |out| && |lir.ops| > i && lir.ops[i].Call? && lir.ops == out + [lir.ops[i]] + rest
    modifies lir
    ensures lir.ops == Append(fl, out, old(lir.ops[i])) + rest
    ensures |Append(fl, out, old(lir.ops[i]))| == if filled then i + 1 else i + 2
  {
    var op, prev := lir.ops[i], lir.ops[i - 1];
    filled := fl.fillDelaySlots && prev.Move? && !prev.HasInfo() &&
              (op.ckind != VirtualCall || !prev.dst.Cpu? || prev.dst.r != O0) && IsSingleInstruction(fl, prev);
    if filled {
      lir.AtPut(i - 1, op);
      lir.AtPut(i, Delay(prev, Some(op.site)));
    } else {
      lir.InsertBefore(i + 1, Delay(Nop, Some(op.site)));
    }
  }

  /** The switch on one operation.  `skip` is the extra step the call case takes
      over an inserted nop; the branch case meets its nop on the next turn. */
  method Visit(fl: Flags, lir: LirList, i: nat, ghost out: seq<Op>, ghost rest: seq<Op>) returns (skip: nat)
    requires i == |out| && |lir.ops| > i && lir.ops == out + [lir.ops[i]] + rest
    requires lir.ops[i].IsCti() ==> out != []
    modifies lir
    ensures lir.ops == Append(fl, out, old(lir.ops[i])) + rest
    ensures i + 1 + skip <= |Append(fl, out, old(lir.ops[i]))| <= i + 2
    ensures forall j :: i + 1 + skip <= j < |Append(fl, out, old(lir.ops[i]))| ==> Append(fl, out, old(lir.ops[i]))[j].Delay?
  {
    skip := 0;
    match lir.ops[i] {
      case Branch(_, _, _, _) =>
        var filled := PlaceBranch(fl, lir, i, out, rest);
      case Call(_, _, _) =>
        var filled := PlaceCall(fl, lir, i, out, rest);
        if !filled { skip := 1; }
      case _ =>
    }
  }

  /** The loop invariant: `done` has been rewritten to `out`, `todo` has not been
      looked at, and whatever lies between i and the end of `out` is an inserted nop. */
  ghost predicate AtTurn(fl: Flags, cur: seq<Op>, i: int, done: seq<Op>, todo: seq<Op>, out: seq<Op>) {
    && out == Rewritten(fl, done) && cur == out + todo && (done != [] ==> out != [])
    && (done + todo != [] ==> (done + todo)[0].Label?)
    && 0 <= i <= |out| && forall j :: i <= j < |out| ==> out[j].Delay?
  }

  /** One turn of the loop. */
  method Turn(fl: Flags, lir: LirList, i: nat, ghost done: seq<Op>, ghost todo: seq<Op>, ghost out: seq<Op>)
    returns (j: nat, ghost done': seq<Op>, ghost todo': seq<Op>, ghost out': seq<Op>)
    requires AtTurn(fl, lir.ops, i, done, todo, out) && i < |lir.ops|
    modifies lir
    ensures AtTurn(fl, lir.ops, j, done', todo', out') && done' + todo' == done + todo
    ensures |todo'| < |todo| || (todo' == todo && out' == out && i < j)
  {
    var op, skip := lir.ops[i], 0;
    if !op.Delay? {
      assert todo == [op] + todo[1..];
      assert op.IsCti() ==> done != [];
      skip := Visit(fl, lir, i, out, todo[1..]);
    }
    j := i + 1 + skip;
    done', todo', out' := done, todo, out;
    if i == |out| {
      assert todo == [op] + todo[1..];
      RewrittenSnoc(fl, done, op);
      done', todo', out' := done + [op], todo[1..], Append(fl, out, op);
      assert done' + todo' == done + todo;
    }
  }

  /** The source's loop.  It reads the element before the current one, so a block
      must not start with a branch or call; every block starts with its label. */
  method Peephole(fl: Flags, lir: LirList)
    requires lir.ops != [] ==> lir.ops[0].Label?
    modifies lir
    ensures lir.ops == Rewritten(fl, old(lir.ops))
  {
    ghost var done, todo, out := [], lir.ops, [];
    var i := 0;
    while i < |lir.ops|
      invariant AtTurn(fl, lir.ops, i, done, todo, out) && done + todo == old(lir.ops)
      decreases |todo|, |out| - i
    {
      i, done, todo, out := Turn(fl, lir, i, done, todo, out);
    }
    assert done == old(lir.ops);
  }

  lemma RewrittenSnoc(fl: Flags, ops: seq<Op>, op: Op)
    ensures Rewritten(fl, ops + [op]) == Append(fl, Rewritten(fl, ops), op)
  {
    assert (ops + [op])[..|ops|] == ops;
  }
}
