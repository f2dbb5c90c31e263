/** A step semantics for the SPARC instructions the emitted routines use:
    64-bit registers, 32- and 64-bit condition codes, delay slots and annulment. */
module Sparc {
  import opened Wrappers
  import opened Bits

  /** x brought into [-h, h) by whole turns of 2h: the signed value of the low
      bits of x in a word of 2h values. */
  function Wrap(x: int, h: int): (y: int)
    requires h > 0
    ensures -h <= y < h
    decreases if x < 0 then -x else x, x >= 0
  {
    if x < -h then Wrap(x + 2 * h, h) else if x >= h then Wrap(x - 2 * h, h) else x
  }

  const H32: int := 0x8000_0000
  const H64: int := 0x8000_0000_0000_0000

  function S32(x: int): int { Wrap(x, H32) }
  function S64(x: int): int { Wrap(x, H64) }

  /** The unsigned reading of a signed word. */
  function U32(x: int): int { var y := S32(x); if y < 0 then y + 2 * H32 else y }
  function U64(x: int): int { var y := S64(x); if y < 0 then y + 2 * H64 else y }

  /** Wrap(x, h) differs from x by whole turns, and is the only value in range that does. */
  lemma {:induction false} WrapTurns(x: int, h: int) returns (q: int)
    requires h > 0
    ensures x == Wrap(x, h) + 2 * h * q
    decreases if x < 0 then -x else x, x >= 0
  {
    if x < -h {
      q := WrapTurns(x + 2 * h, h);
      assert 2 * h * (q - 1) == 2 * h * q - 2 * h;
      q := q - 1;
    } else if x >= h {
      q := WrapTurns(x - 2 * h, h);
      assert 2 * h * (q + 1) == 2 * h * q + 2 * h;
      q := q + 1;
    } else {
      q := 0;
    }
  }

  lemma WrapUnique(x: int, h: int, y: int, q: int)
    requires h > 0 && -h <= y < h && x == y + 2 * h * q
    ensures Wrap(x, h) == y
  {
    var r := WrapTurns(x, h);
    SameTurns(2 * h, y, q, Wrap(x, h), r);
  }

  lemma SameTurns(t: int, y: int, q: int, z: int, r: int)
    requires t > 0 && y + t * q == z + t * r && -t < y - z < t
    ensures y == z
  {
    assert t * (r - q) == t * r - t * q;
    MulBound(t, r - q);
  }

  lemma WrapNear(e: int, h: int)
    requires h > 0 && -2 * h < e < 2 * h
    ensures Wrap(e, h) == if e < -h then e + 2 * h else if e >= h then e - 2 * h else e
  {
    assert e < -h ==> Wrap(e + 2 * h, h) == e + 2 * h;
    assert e >= h ==> Wrap(e - 2 * h, h) == e - 2 * h;
  }

  datatype Src = R(r: nat) | Imm(i: int)

  datatype Alu = AddOp | SubOp | AndOp | AndnOp | SllOp | SrlOp | SraOp | SrlxOp | SmulOp

  datatype Cond = Always | Equal | NotEqual | Greater | GreaterEqual | GreaterUnsigned | OverflowSet

  datatype Instr =
    | Arith(op: Alu, rs1: nat, src: Src, rd: nat)
    | ArithCc(op: Alu, rs1: nat, src: Src, rd: nat)
    | Sethi(imm: int, rd: nat)
    | Wry(rs: nat)
    | Sdivcc(rs1: nat, src: Src, rd: nat)
    | Ld(rs1: nat, src: Src, rd: nat)
    | St(rd: nat, rs1: nat, src: Src)
    | Br(cond: Cond, xcc: bool, annul: bool, target: int)

  datatype Codes = Codes(n: bool, z: bool, v: bool, c: bool)

  /** What the condition codes were last set from: they are read off it, for 32 or
      64 bits, when a branch tests them. */
  datatype Result = FromAlu(op: Alu, a: int, b: int) | FromDiv(r: int, v: bool)

  /** `mem` gives what a load at an address delivers, whatever its width; it is
      partial: loading an address it does not hold is a fault. */
  datatype Machine = Machine(pc: int, npc: int, regs: map<nat, int>, y: int, cc: Result, mem: map<int, int>)

  function Reg(m: Machine, r: nat): int {
    if r == 0 || r !in m.regs then 0 else m.regs[r]
  }

  function Val(m: Machine, s: Src): int {
    match s case R(r) => Reg(m, r) case Imm(i) => i
  }

  function Compute(op: Alu, a: int, b: int): int {
    match op
    case AddOp => S64(a + b)
    case SubOp => S64(a - b)
    case AndOp => S64(And(a, b))
    case AndnOp => S64(And(a, -b - 1))
    case SllOp => S64(a * Pow2(b % 32))
    case SrlOp => U32(a) / Pow2(b % 32)
    case SraOp => S32(a) / Pow2(b % 32)
    case SrlxOp => S64(U64(a) / Pow2(b % 64))
    case SmulOp => S64(S32(a) * S32(b))
  }

  /** Condition codes of an addition or subtraction of 32- or 64-bit words. */
  function CodesOf(op: Alu, a: int, b: int, wide: bool): Codes {
    var sa, sb := if wide then S64(a) else S32(a), if wide then S64(b) else S32(b);
    var ua, ub := if wide then U64(a) else U32(a), if wide then U64(b) else U32(b);
    var exact := if op == SubOp then sa - sb else sa + sb;
    var wrapped := if wide then S64(exact) else S32(exact);
    Codes(wrapped < 0, wrapped == 0, wrapped != exact,
          if op == SubOp then ua < ub else ua + ub >= 2 * if wide then H64 else H32)
  }

  predicate Holds(cond: Cond, cc: Result, wide: bool) {
    var f := match cc case FromAlu(op, a, b) => CodesOf(op, a, b, wide) case FromDiv(r, v) => Codes(r < 0, r == 0, v, false);
    match cond
    case Always => true
    case Equal => f.z
    case NotEqual => !f.z
    case Greater => !(f.z || f.n != f.v)
    case GreaterEqual => f.n == f.v
    case GreaterUnsigned => !(f.c || f.z)
    case OverflowSet => f.v
  }

  function Next(m: Machine): Machine {
    m.(pc := m.npc, npc := m.npc + 1)
  }

  function Put(m: Machine, rd: nat, v: int): Machine {
    Next(m.(regs := m.regs[rd := v]))
  }

  /** sdivcc divides Y:rs1 by rs2; an overflowing quotient saturates and sets V. */
  function Quotient(m: Machine, i: Instr): Option<int>
    requires i.Sdivcc?
  {
    var n, d := S32(m.y) * (2 * H32) + U32(Reg(m, i.rs1)), S32(Val(m, i.src));
    if d == 0 then None else Some(TruncDiv(n, d))
  }

  /** Division rounding toward zero. */
  function TruncDiv(n: int, d: int): int
    requires d != 0
  {
    if n >= 0 then n / d else -((-n) / d)
  }

  /** One instruction; None is a trap or a fault. */
  function Exec(i: Instr, m: Machine): Option<Machine> {
    match i
    case Arith(op, rs1, src, rd) => Some(Put(m, rd, Compute(op, Reg(m, rs1), Val(m, src))))
    case ArithCc(op, rs1, src, rd) =>
      var a, b := Reg(m, rs1), Val(m, src);
      Some(Put(m.(cc := FromAlu(op, a, b)), rd, Compute(op, a, b)))
    case Sethi(imm, rd) => Some(Put(m, rd, imm - imm % 1024))
    case Wry(rs) => Some(Next(m.(y := U32(Reg(m, rs)))))
    case Sdivcc(rs1, src, rd) =>
      var q := Quotient(m, i);
      if q.None? then None
      else
        var v := S32(q.value) != q.value;
        var r := if !v then q.value else if q.value > 0 then 0x7fff_ffff else -0x8000_0000;
        Some(Put(m.(cc := FromDiv(r, v)), rd, r))
    case Ld(rs1, src, rd) =>
      var a := S64(Reg(m, rs1) + Val(m, src));
      if a in m.mem then Some(Put(m, rd, m.mem[a])) else None
    case St(rd, rs1, src) =>
      Some(Next(m.(mem := m.mem[S64(Reg(m, rs1) + Val(m, src)) := Reg(m, rd)])))
    case Br(cond, xcc, annul, target) =>
      if Holds(cond, m.cc, xcc) then Some(m.(pc := m.npc, npc := target))
      else if annul then Some(m.(pc := m.npc + 1, npc := m.npc + 2))
      else Some(Next(m))
  }

  function Step(p: seq<Instr>, m: Machine): Option<Machine> {
    if m.pc < 0 || m.pc >= |p| then None else Exec(p[m.pc], m)
  }

  function Run(p: seq<Instr>, m: Machine, n: nat): Option<Machine>
    decreases n
  {
    if n == 0 then Some(m)
    else match Step(p, m)
      case None => None
      case Some(m') => Run(p, m', n - 1)
  }

  lemma {:induction false} RunAdd(p: seq<Instr>, m: Machine, a: nat, b: nat)
    requires Run(p, m, a).Some?
    ensures Run(p, m, a + b) == Run(p, Run(p, m, a).value, b)
    decreases a
  {
    if a > 0 {
      RunAdd(p, Step(p, m).value, a - 1, b);
    }
  }

  /** The program, started in m, is in m' after some number of steps, without a
      trap or fault on the way. */
  ghost predicate Leads(p: seq<Instr>, m: Machine, m': Machine) {
    exists k: nat :: Run(p, m, k) == Some(m')
  }

  lemma OneStep(p: seq<Instr>, m: Machine, m': Machine)
    requires Step(p, m) == Some(m')
    ensures Leads(p, m, m')
  {
    assert Run(p, m', 0) == Some(m');
    assert Run(p, m, 1) == Some(m');
  }

  lemma Trans(p: seq<Instr>, m: Machine, m1: Machine, m2: Machine)
    requires Leads(p, m, m1) && Leads(p, m1, m2)
    ensures Leads(p, m, m2)
  {
    var a: nat :| Run(p, m, a) == Some(m1);
    var b: nat :| Run(p, m1, b) == Some(m2);
    RunAdd(p, m, a, b);
  }

  lemma TwoSteps(p: seq<Instr>, m: Machine, m1: Machine, m2: Machine)
    requires Step(p, m) == Some(m1) && Step(p, m1) == Some(m2)
    ensures Leads(p, m, m2)
  {
    OneStep(p, m, m1);
    OneStep(p, m1, m2);
    Trans(p, m, m1, m2);
  }

  /** The signed conditions mean what their names say after a compare. */
  lemma CompareCodes(a: int, b: int, wide: bool)
    ensures var sa, sb := if wide then S64(a) else S32(a), if wide then S64(b) else S32(b);
      && (Holds(Equal, FromAlu(SubOp, a, b), wide) <==> sa == sb)
      && (Holds(NotEqual, FromAlu(SubOp, a, b), wide) <==> sa != sb)
      && (Holds(Greater, FromAlu(SubOp, a, b), wide) <==> sa > sb)
      && (Holds(GreaterEqual, FromAlu(SubOp, a, b), wide) <==> sa >= sb)
  {
    WrapNear(S64(a) - S64(b), H64);
    WrapNear(S32(a) - S32(b), H32);
  }

  lemma UnsignedCodes(a: int, b: int)
    ensures Holds(GreaterUnsigned, FromAlu(SubOp, a, b), false) <==> U32(a) > U32(b)
  {
    WrapNear(S32(a) - S32(b), H32);
  }
}
