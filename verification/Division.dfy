/** Integer division and remainder as emit_op3 assembles them, and the
    shift-and-add form of multiplication, against Java's arithmetic. */
module Division {
  import opened Wrappers
  import opened Bits
  import opened Sparc

  /** Java's int division and remainder (sections 15.17.2 and 15.17.3 of the Java
      Language Specification): rounding toward zero, and the one overflowing
      quotient wraps around to the dividend. */
  function JavaDiv(n: int, d: int): int
    requires d != 0
  {
    S32(TruncDiv(n, d))
  }

  function JavaRem(n: int, d: int): int
    requires d != 0
  {
    n - d * TruncDiv(n, d)
  }

  // ----- facts about words -----

  lemma SameWord(x: int, y: int, k: int)
    requires x == y + 2 * H32 * k
    ensures S32(x) == S32(y)
  {
    var q := WrapTurns(y, H32);
    assert 2 * H32 * q + 2 * H32 * k == 2 * H32 * (q + k);
    WrapUnique(x, H32, S32(y), q + k);
  }

  /** Truncating to 64 bits does not change the low 32. */
  lemma LowWord(x: int)
    ensures S32(S64(x)) == S32(x)
  {
    var q := WrapTurns(x, H64);
    assert 2 * H64 * q == 2 * H32 * (2 * H32 * q);
    SameWord(x, S64(x), 2 * H32 * q);
  }

  /** Sums and differences depend only on the low words of their operands. */
  lemma LowSum(x: int, c: int)
    ensures S32(x + c) == S32(S32(x) + c)
  {
    var q := WrapTurns(x, H32);
    SameWord(x + c, S32(x) + c, q);
  }

  lemma Pow2Of31()
    ensures Pow2(31) == H32
  {
    assert Pow2(8) == 256;
    PowSum(8, 8);
    PowSum(16, 15);
    PowSum(8, 7);
    assert Pow2(7) == 128;
  }

  lemma {:induction false} PowSum(a: nat, b: nat)
    ensures Pow2(a + b) == Pow2(a) * Pow2(b)
  {
    if a > 0 {
      PowSum(a - 1, b);
    }
  }

  /** 2^k divides the word size, so residues survive wrapping. */
  lemma LowResidue(x: int, k: nat)
    requires k <= 31
    ensures S32(x) % Pow2(k) == x % Pow2(k)
  {
    var q := WrapTurns(x, H32);
    Pow2Of31();
    PowSum(k, 31 - k);
    Regroup(Pow2(k), Pow2(31 - k), q);
    ModPlus(S32(x), Pow2(k), 2 * Pow2(31 - k) * q);
  }

  lemma Regroup(d: int, e: int, q: int)
    ensures 2 * (d * e) * q == d * (2 * e * q)
  {
  }

  // ----- powers of two -----

  /** srl or sra/and3, then add; then sra for a quotient, andn and sub for a
      remainder.  x, s and r are the dividend, scratch and result registers. */
  function PowerCode(rem: bool, x: nat, s: nat, r: nat, k: nat): seq<Instr> {
    var d := Pow2(k);
    if k == 1 && !rem then
      [Arith(SrlOp, x, Imm(31), s), Arith(AddOp, x, R(s), s), Arith(SraOp, s, Imm(k), r)]
    else if k == 1 then
      [Arith(SrlOp, x, Imm(31), s), Arith(AddOp, x, R(s), s),
       Arith(AndnOp, s, Imm(d - 1), s), Arith(SubOp, x, R(s), r)]
    else if !rem then
      [Arith(SraOp, x, Imm(31), s), Arith(AndOp, s, Imm(d - 1), s), Arith(AddOp, x, R(s), s), Arith(SraOp, s, Imm(k), r)]
    else
      [Arith(SraOp, x, Imm(31), s), Arith(AndOp, s, Imm(d - 1), s), Arith(AddOp, x, R(s), s),
       Arith(AndnOp, s, Imm(d - 1), s), Arith(SubOp, x, R(s), r)]
  }

  /** What is added to a negative dividend so that flooring rounds toward zero. */
  function Bias(v: int, k: nat): int { if v < 0 then Pow2(k) - 1 else 0 }

  lemma SignBits(x: int)
    ensures S32(x) / Pow2(31) == (if S32(x) < 0 then -1 else 0)
    ensures U32(x) / Pow2(31) == (if S32(x) < 0 then 1 else 0)
  {
    Pow2Of31();
    var v := S32(x);
    ModUnique(v, H32, if v < 0 then -1 else 0, if v < 0 then v + H32 else v);
    ModUnique(U32(x), H32, if v < 0 then 1 else 0, if v < 0 then U32(x) - H32 else v);
  }

  lemma {:induction false} PowMono(a: nat, b: nat)
    requires a <= b
    ensures Pow2(a) <= Pow2(b)
    decreases b - a
  {
    if a < b {
      PowMono(a, b - 1);
    }
  }

  lemma PowBound(k: nat)
    requires k <= 30
    ensures 1 <= Pow2(k) <= 0x4000_0000
  {
    Pow2Of31();
    assert Pow2(31) == 2 * Pow2(30);
    PowMono(k, 30);
  }

  /** Where scratch holds the dividend plus its bias. */
  ghost predicate BiasAdded(m: Machine, x: nat, s: nat, k: nat, m': Machine) {
    var c := if k == 1 then 2 else 3;
    && m' == m.(pc := c, npc := c + 1, regs := m'.regs)
    && Reg(m', s) == S64(Reg(m, x) + Bias(S32(Reg(m, x)), k)) && Reg(m', x) == Reg(m, x)
  }

  /** The values the first instructions compute. */
  lemma BiasValues(X: int, k: nat)
    requires k <= 30
    ensures k == 1 ==> Compute(SrlOp, X, 31) == Bias(S32(X), k)
    ensures Compute(AndOp, Compute(SraOp, X, 31), Pow2(k) - 1) == Bias(S32(X), k)
  {
    var sign := if S32(X) < 0 then -1 else 0;
    ShiftedSign(X);
    assert Compute(AndOp, sign, Pow2(k) - 1) == (if sign < 0 then Pow2(k) - 1 else 0) by {
      PowBound(k);
      SignMask(sign, Pow2(k) - 1);
    }
    assert k == 1 ==> Pow2(k) == 2;
  }

  lemma ShiftedSign(X: int)
    ensures Compute(SraOp, X, 31) == if S32(X) < 0 then -1 else 0
    ensures Compute(SrlOp, X, 31) == if S32(X) < 0 then 1 else 0
  {
    SignBits(X);
  }

  lemma SignMask(sign: int, mask: int)
    requires -1 <= sign <= 0 && 0 <= mask < 0x4000_0000
    ensures Compute(AndOp, sign, mask) == if sign < 0 then mask else 0
  {
  }

  lemma BiasForTwo(rem: bool, x: nat, s: nat, r: nat, m: Machine) returns (m': Machine)
    requires x != 0 && s != 0 && x != s && m.pc == 0 && m.npc == 1
    ensures Leads(PowerCode(rem, x, s, r, 1), m, m') && BiasAdded(m, x, s, 1, m')
  {
    var p, X := PowerCode(rem, x, s, r, 1), Reg(m, x);
    var b := Compute(SrlOp, X, 31);
    var m1 := m.(pc := 1, npc := 2, regs := m.regs[s := b]);
    m' := m1.(pc := 2, npc := 3, regs := m1.regs[s := Compute(AddOp, X, b)]);
    TwoSteps(p, m, m1, m');
    BiasValues(X, 1);
  }

  lemma BiasForOthers(rem: bool, x: nat, s: nat, r: nat, k: nat, m: Machine) returns (m': Machine)
    requires x != 0 && s != 0 && x != s && k != 1 && k <= 30 && m.pc == 0 && m.npc == 1
    ensures Leads(PowerCode(rem, x, s, r, k), m, m') && BiasAdded(m, x, s, k, m')
  {
    var p, X := PowerCode(rem, x, s, r, k), Reg(m, x);
    var sign := Compute(SraOp, X, 31);
    var b := Compute(AndOp, sign, Pow2(k) - 1);
    var m1 := m.(pc := 1, npc := 2, regs := m.regs[s := sign]);
    var m2 := m1.(pc := 2, npc := 3, regs := m1.regs[s := b]);
    TwoSteps(p, m, m1, m2);
    m' := m2.(pc := 3, npc := 4, regs := m2.regs[s := Compute(AddOp, X, b)]);
    OneStep(p, m2, m');
    Trans(p, m, m2, m');
    BiasValues(X, k);
  }

  lemma BiasRuns(rem: bool, x: nat, s: nat, r: nat, k: nat, m: Machine) returns (m': Machine)
    requires x != 0 && s != 0 && x != s && k <= 30 && m.pc == 0 && m.npc == 1
    ensures Leads(PowerCode(rem, x, s, r, k), m, m') && BiasAdded(m, x, s, k, m')
  {
    if k == 1 {
      m' := BiasForTwo(rem, x, s, r, m);
    } else {
      m' := BiasForOthers(rem, x, s, r, k, m);
    }
  }

  lemma RoundUp(v: int, d: int)
    requires v < 0 && d > 0
    ensures (v + d - 1) / d == -((-v) / d)
    ensures (v + d - 1) % d == v + d * ((-v) / d) + d - 1
  {
    var q, r := (-v) / d, (-v) % d;
    DivMod(-v, d);
    NegMul(d, q);
    ModUnique(v + d - 1, d, -q, d - 1 - r);
  }

  lemma DivMod(n: int, d: int)
    requires d > 0
    ensures n == d * (n / d) + n % d && 0 <= n % d < d
  {
  }

  lemma NegMul(a: int, b: int)
    ensures a * (-b) == -(a * b)
  {
  }

  lemma BiasedQuotient(v: int, k: nat)
    ensures (v + Bias(v, k)) / Pow2(k) == TruncDiv(v, Pow2(k))
    ensures (v + Bias(v, k)) % Pow2(k) - Bias(v, k) == v - Pow2(k) * TruncDiv(v, Pow2(k))
  {
    var d := Pow2(k);
    if v < 0 {
      RoundUp(v, d);
      NegMul(d, (-v) / d);
    } else {
      DivMod(v, d);
    }
  }

  lemma Biased(X: int, k: nat)
    requires k <= 30
    ensures var v := S32(X); S32(S64(X + Bias(v, k))) == v + Bias(v, k)
  {
    PowBound(k);
    var v := S32(X);
    LowWord(X + Bias(v, k));
    LowSum(X, Bias(v, k));
  }

  lemma QuotientValue(X: int, k: nat)
    requires k <= 30
    ensures S32(Compute(SraOp, S64(X + Bias(S32(X), k)), k)) == JavaDiv(S32(X), Pow2(k))
  {
    var a, v := S64(X + Bias(S32(X), k)), S32(X);
    assert k % 32 == k;
    assert Compute(SraOp, a, k) == S32(a) / Pow2(k);
    assert S32(a) == v + Bias(v, k) by { Biased(X, k); }
    assert S32(a) / Pow2(k) == TruncDiv(v, Pow2(k)) by { BiasedQuotient(v, k); }
  }

  /** Division of any int by any positive power of two, whatever the upper half of
      the dividend's register holds. */
  lemma PowerDivision(x: nat, s: nat, r: nat, k: nat, m: Machine) returns (m': Machine)
    requires x != 0 && s != 0 && x != s && r != 0 && k <= 30 && m.pc == 0 && m.npc == 1
    ensures Leads(PowerCode(false, x, s, r, k), m, m') && m'.pc == |PowerCode(false, x, s, r, k)|
    ensures S32(Reg(m', r)) == JavaDiv(S32(Reg(m, x)), Pow2(k))
  {
    var p := PowerCode(false, x, s, r, k);
    var m1 := BiasRuns(false, x, s, r, k, m);
    m' := m1.(pc := m1.npc, npc := m1.npc + 1, regs := m1.regs[r := Compute(SraOp, Reg(m1, s), k)]);
    OneStep(p, m1, m');
    Trans(p, m, m1, m');
    QuotientValue(Reg(m, x), k);
  }

  lemma LowDifference(X: int, t: int)
    ensures S32(S64(X - S64(t))) == S32(X - t)
  {
    LowWord(X - S64(t));
    var q := WrapTurns(t, H64);
    SameWord(X - S64(t), X - t, 2 * H32 * q);
  }

  lemma ClearedDifference(X: int, b: int, c: int)
    ensures S32(X - (S64(X + b) - c)) == S32(c - b)
  {
    var u := WrapTurns(X + b, H64);
    SameWord(X - (S64(X + b) - c), c - b, 2 * H32 * u);
  }

  lemma Cleared(X: int, b: int, k: nat)
    ensures S32(S64(X - S64(And(S64(X + b), -Pow2(k))))) == S32(S64(X + b) % Pow2(k) - b)
  {
    var s := S64(X + b);
    AndHighMask(s, k);
    LowDifference(X, s - s % Pow2(k));
    ClearedDifference(X, b, s % Pow2(k));
  }

  lemma BiasedResidue(X: int, k: nat)
    requires k <= 30
    ensures var v := S32(X); S64(X + Bias(v, k)) % Pow2(k) == (v + Bias(v, k)) % Pow2(k)
  {
    LowResidue(S64(X + Bias(S32(X), k)), k);
    Biased(X, k);
  }

  /** The residue of the biased dividend, less the bias, is the remainder. */
  lemma Remainder(X: int, k: nat)
    requires k <= 30
    ensures var b := Bias(S32(X), k); S32(S64(X + b) % Pow2(k) - b) == JavaRem(S32(X), Pow2(k))
  {
    var v := S32(X);
    BiasedResidue(X, k);
    BiasedQuotient(v, k);
    RemainderRange(v, k);
  }

  lemma RemainderRange(v: int, k: nat)
    requires k <= 30
    ensures -0x8000_0000 <= (v + Bias(v, k)) % Pow2(k) - Bias(v, k) < 0x8000_0000
  {
    PowBound(k);
    DivMod(v + Bias(v, k), Pow2(k));
  }

  lemma ClearAndSubtract(x: nat, s: nat, r: nat, k: nat, m: Machine) returns (m': Machine)
    requires x != 0 && s != 0 && x != s && r != 0 && m.pc == (if k == 1 then 2 else 3) && m.npc == m.pc + 1
    ensures Leads(PowerCode(true, x, s, r, k), m, m') && m'.pc == m.pc + 2
    ensures Reg(m', r) == S64(Reg(m, x) - S64(And(Reg(m, s), -Pow2(k))))
  {
    var cleared := S64(And(Reg(m, s), -Pow2(k)));
    assert -(Pow2(k) - 1) - 1 == -Pow2(k);
    var m1 := m.(pc := m.npc, npc := m.npc + 1, regs := m.regs[s := cleared]);
    m' := m1.(pc := m1.npc, npc := m1.npc + 1, regs := m1.regs[r := S64(Reg(m, x) - cleared)]);
    TwoSteps(PowerCode(true, x, s, r, k), m, m1, m');
  }

  /** Remainder of any int by any positive power of two. */
  lemma PowerRemainder(x: nat, s: nat, r: nat, k: nat, m: Machine) returns (m': Machine)
    requires x != 0 && s != 0 && x != s && r != 0 && k <= 30 && m.pc == 0 && m.npc == 1
    ensures Leads(PowerCode(true, x, s, r, k), m, m') && m'.pc == |PowerCode(true, x, s, r, k)|
    ensures S32(Reg(m', r)) == JavaRem(S32(Reg(m, x)), Pow2(k))
  {
    var m1 := BiasRuns(true, x, s, r, k, m);
    m' := ClearAndSubtract(x, s, r, k, m1);
    Trans(PowerCode(true, x, s, r, k), m, m1, m');
    Cleared(Reg(m, x), Bias(S32(Reg(m, x)), k), k);
    Remainder(Reg(m, x), k);
  }

  // ----- the general path -----

  /** The sign in Y, sdivcc, and the fix-up in the annulled slot of the branch on
      overflow; for a remainder the quotient goes to scratch and is multiplied back. */
  function GeneralCode(rem: bool, x: nat, d: Src, s: nat, r: nat): seq<Instr> {
    if !rem then
      [Arith(SraOp, x, Imm(31), s), Wry(s), Sdivcc(x, d, r), Br(OverflowSet, false, true, 5), Sethi(0x8000_0000, r)]
    else
      [Arith(SraOp, x, Imm(31), s), Wry(s), Sdivcc(x, d, s), Br(OverflowSet, false, true, 5), Sethi(0x8000_0000, s),
       Arith(SmulOp, s, d, s), Arith(SubOp, x, R(s), r)]
  }

  function Abs(n: int): int { if n < 0 then -n else n }

  lemma TruncAbs(n: int, d: int)
    requires d != 0
    ensures TruncDiv(n, d) == if (n < 0) == (d < 0) then Abs(n) / Abs(d) else -(Abs(n) / Abs(d))
  {
    if d < 0 {
      NegativeDivisor(Abs(n), d);
    }
  }

  /** Euclidean division by a negative divisor, for nonnegative dividends. */
  lemma NegativeDivisor(n: int, d: int)
    requires 0 <= n && d < 0
    ensures n / d == -(n / -d)
  {
  }

  lemma MulGrows(e: int, q: int)
    requires 0 <= q
    ensures e >= 1 ==> e * q >= q
    ensures e >= 2 ==> e * q >= 2 * q
  {
    if e >= 2 {
      assert e * q == 2 * q + (e - 2) * q;
      assert (e - 2) * q >= 0;
    }
  }

  lemma QuotientBound(n: int, d: int)
    requires 0 <= n && 1 <= d
    ensures 0 <= n / d <= n
    ensures d >= 2 && n >= 1 ==> n / d < n
  {
    var q := n / d;
    DivMod(n, d);
    MulBound(d, q);
    if q >= 0 {
      MulGrows(d, q);
    }
  }

  lemma Quotients(v: int, d: int)
    requires -0x8000_0000 <= v < 0x8000_0000 && -0x8000_0000 <= d < 0x8000_0000 && d != 0
    ensures if v == -0x8000_0000 && d == -1 then TruncDiv(v, d) == 0x8000_0000
            else -0x8000_0000 <= TruncDiv(v, d) < 0x8000_0000
  {
    TruncAbs(v, d);
    QuotientBound(Abs(v), Abs(d));
  }

  /** The one overflowing quotient: the branch is taken and its slot loads 2^31. */
  lemma OverflowFixed(rem: bool, x: nat, d: Src, s: nat, r: nat, m: Machine) returns (m': Machine)
    requires var q := if rem then s else r; q != 0 && Quotient(m, Sdivcc(x, d, q)) == Some(0x8000_0000)
    requires m.pc == 2 && m.npc == 3
    ensures Leads(GeneralCode(rem, x, d, s, r), m, m') && m'.pc == 5 && m'.npc == 6
    ensures m'.regs == m.regs[if rem then s else r := 0x8000_0000]
  {
    var p, q := GeneralCode(rem, x, d, s, r), if rem then s else r;
    WrapNear(0x8000_0000, H32);
    var m1 := m.(pc := 3, npc := 4, regs := m.regs[q := 0x7fff_ffff], cc := FromDiv(0x7fff_ffff, true));
    var m2 := m1.(pc := 4, npc := 5);
    TwoSteps(p, m, m1, m2);
    m' := m2.(pc := 5, npc := 6, regs := m2.regs[q := 0x8000_0000]);
    OneStep(p, m2, m');
    Trans(p, m, m2, m');
    assert m2.regs[q := 0x8000_0000] == m.regs[q := 0x8000_0000];
  }

  /** Any other quotient: the branch is not taken and the slot is annulled. */
  lemma NoOverflow(rem: bool, x: nat, d: Src, s: nat, r: nat, m: Machine, t: int) returns (m': Machine)
    requires var q := if rem then s else r; q != 0 && Quotient(m, Sdivcc(x, d, q)) == Some(t)
    requires -0x8000_0000 <= t < 0x8000_0000 && m.pc == 2 && m.npc == 3
    ensures Leads(GeneralCode(rem, x, d, s, r), m, m') && m'.pc == 5 && m'.npc == 6
    ensures m'.regs == m.regs[if rem then s else r := t]
  {
    var p, q := GeneralCode(rem, x, d, s, r), if rem then s else r;
    var m1 := m.(pc := 3, npc := 4, regs := m.regs[q := t], cc := FromDiv(t, false));
    m' := m1.(pc := 5, npc := 6);
    TwoSteps(p, m, m1, m');
  }

  /** After the fix-up, the quotient register holds Java's quotient. */
  lemma DivideRuns(rem: bool, x: nat, d: Src, s: nat, r: nat, m: Machine) returns (m': Machine)
    requires x != 0 && s != 0 && x != s && r != 0 && d != R(s) && m.pc == 0 && m.npc == 1 && S32(Val(m, d)) != 0
    ensures Leads(GeneralCode(rem, x, d, s, r), m, m') && m'.pc == 5 && m'.npc == 6
    ensures S32(Reg(m', if rem then s else r)) == JavaDiv(S32(Reg(m, x)), S32(Val(m, d)))
    ensures rem ==> Reg(m', x) == Reg(m, x) && Val(m', d) == Val(m, d)
  {
    var v, n := S32(Reg(m, x)), S32(Val(m, d));
    var m2 := SignInY(rem, x, d, s, r, m);
    DividendValue(m2, Reg(m, x));
    Quotients(v, n);
    var t := TruncDiv(v, n);
    if v == -0x8000_0000 && n == -1 {
      m' := OverflowFixed(rem, x, d, s, r, m2);
    } else {
      m' := NoOverflow(rem, x, d, s, r, m2, t);
    }
    Trans(GeneralCode(rem, x, d, s, r), m, m2, m');
  }

  /** The sign of the dividend is in Y. */
  lemma SignInY(rem: bool, x: nat, d: Src, s: nat, r: nat, m: Machine) returns (m2: Machine)
    requires x != 0 && s != 0 && x != s && d != R(s) && m.pc == 0 && m.npc == 1
    ensures Leads(GeneralCode(rem, x, d, s, r), m, m2)
    ensures m2 == m.(pc := 2, npc := 3, regs := m2.regs, y := U32(if S32(Reg(m, x)) < 0 then -1 else 0))
    ensures m2.regs == m.regs[s := if S32(Reg(m, x)) < 0 then -1 else 0]
  {
    SignBits(Reg(m, x));
    var m1 := m.(pc := 1, npc := 2, regs := m.regs[s := if S32(Reg(m, x)) < 0 then -1 else 0]);
    m2 := m1.(pc := 2, npc := 3, y := U32(Reg(m1, s)));
    TwoSteps(GeneralCode(rem, x, d, s, r), m, m1, m2);
  }

  lemma DividendValue(m: Machine, X: int)
    requires m.y == U32(if S32(X) < 0 then -1 else 0)
    ensures S32(m.y) * (2 * H32) + U32(X) == S32(X)
  {
    WrapNear(m.y, H32);
  }

  /** Division of any int by any nonzero int: Java's quotient, the overflowing case
      included. */
  lemma GeneralDivision(x: nat, d: Src, s: nat, r: nat, m: Machine) returns (m': Machine)
    requires x != 0 && s != 0 && x != s && r != 0 && d != R(s) && m.pc == 0 && m.npc == 1 && S32(Val(m, d)) != 0
    ensures Leads(GeneralCode(false, x, d, s, r), m, m') && m'.pc == |GeneralCode(false, x, d, s, r)|
    ensures S32(Reg(m', r)) == JavaDiv(S32(Reg(m, x)), S32(Val(m, d)))
  {
    m' := DivideRuns(false, x, d, s, r, m);
  }

  /** Java's remainder, also when the quotient overflowed. */
  lemma GeneralRemainder(x: nat, d: Src, s: nat, r: nat, m: Machine) returns (m': Machine)
    requires x != 0 && s != 0 && x != s && r != 0 && d != R(s) && m.pc == 0 && m.npc == 1 && S32(Val(m, d)) != 0
    ensures Leads(GeneralCode(true, x, d, s, r), m, m') && m'.pc == |GeneralCode(true, x, d, s, r)|
    ensures S32(Reg(m', r)) == JavaRem(S32(Reg(m, x)), S32(Val(m, d)))
  {
    var p, X, D := GeneralCode(true, x, d, s, r), Reg(m, x), Val(m, d);
    var m5 := DivideRuns(true, x, d, s, r, m);
    var prod := Compute(SmulOp, Reg(m5, s), D);
    var m6 := m5.(pc := 6, npc := 7, regs := m5.regs[s := prod]);
    m' := m6.(pc := 7, npc := 8, regs := m6.regs[r := Compute(SubOp, X, prod)]);
    TwoSteps(p, m5, m6, m');
    Trans(p, m, m5, m');
    MultiplyBack(X, Reg(m5, s), D);
  }

  lemma MultiplyBack(X: int, q: int, D: int)
    requires S32(D) != 0 && S32(q) == JavaDiv(S32(X), S32(D))
    ensures S32(Compute(SubOp, X, Compute(SmulOp, q, D))) == JavaRem(S32(X), S32(D))
  {
    var v, n := S32(X), S32(D);
    var t := TruncDiv(v, n);
    Quotients(v, n);
    LowDifference(X, S32(q) * n);
    LowSum(X, -(S32(q) * n));
    if v == -0x8000_0000 && n == -1 {
      WrapNear(t, H32);
      assert S32(q) * n == 0x8000_0000;
      SameWord(v - 0x8000_0000, 0, -1);
    } else {
      RemainderFits(v, n);
      MulCommutes(t, n);
    }
  }

  lemma MulCommutes(a: int, b: int)
    ensures a * b == b * a
  {
  }

  lemma RemainderFits(v: int, d: int)
    requires -0x8000_0000 <= v < 0x8000_0000 && d != 0
    ensures -0x8000_0000 <= v - d * TruncDiv(v, d) < 0x8000_0000
  {
    var a, e := Abs(v), Abs(d);
    TruncAbs(v, d);
    DivMod(a, e);
    var q := a / e;
    QuotientBound(a, e);
    MulGrows(e, q);
    NegMul(d, q);
    assert d * TruncDiv(v, d) == if v < 0 then -(e * q) else e * q by {
      assert (-e) * q == -(e * q);
      NegMul(e, q);
      NegMul(-e, q);
    }
  }

  // ----- strength reduction -----

  /** is_power_of_2 and log2_intptr on the positive ints: the k with 2^k == x. */
  function Log2(x: int, k: nat): (r: Option<nat>)
    requires k <= 31
    ensures r.Some? ==> r.value <= 30 && Pow2(r.value) == x
    ensures r.None? ==> forall j :: k <= j <= 30 ==> Pow2(j) != x
    decreases 31 - k
  {
    if k == 31 then None else if Pow2(k) == x then Some(k) else Log2(x, k + 1)
  }

  /** The operations strength_reduce_multiply appends for result := left * c; None
      when it gives up. */
  function ReduceCode(left: nat, c: int, result: nat): Option<seq<Instr>> {
    match Log2(c + 1, 0)
    case Some(k) => Some([Arith(SllOp, left, Imm(k), result), Arith(SubOp, result, R(left), result)])
    case None =>
      match Log2(c - 1, 0)
      case Some(k) => Some([Arith(SllOp, left, Imm(k), result), Arith(AddOp, result, R(left), result)])
      case None => None
  }

  lemma LowSum64(y: int, z: int)
    ensures S32(S64(S64(y) + z)) == S32(y + z)
  {
    var q := WrapTurns(y, H64);
    LowWord(S64(y) + z);
    SameWord(S64(y) + z, y + z, 2 * H32 * (-q));
  }

  lemma ScaledDifference(x: int, p: int)
    ensures x * p - x == x * (p - 1) && x * p + x == x * (p + 1)
  {
  }

  /** Whenever the multiplication is reduced, the two instructions leave the
      product modulo 2^32. */
  lemma ReducedMultiply(left: nat, c: int, result: nat, m: Machine) returns (m': Machine)
    requires left != 0 && result != 0 && left != result && m.pc == 0 && m.npc == 1 && ReduceCode(left, c, result).Some?
    ensures Leads(ReduceCode(left, c, result).value, m, m') && m'.pc == 2
    ensures S32(Reg(m', result)) == S32(Reg(m, left) * c)
  {
    var p, x := ReduceCode(left, c, result).value, Reg(m, left);
    var k, op := p[0].src.i, p[1].op;
    assert k % 32 == k;
    var y := x * Pow2(k);
    var m1 := m.(pc := 1, npc := 2, regs := m.regs[result := S64(y)]);
    m' := m1.(pc := 2, npc := 3, regs := m1.regs[result := Compute(op, S64(y), x)]);
    TwoSteps(p, m, m1, m');
    ReducedValue(x, k, c, op);
  }

  lemma ReducedValue(x: int, k: nat, c: int, op: Alu)
    requires (op == SubOp && c + 1 == Pow2(k)) || (op == AddOp && c - 1 == Pow2(k))
    ensures S32(Compute(op, S64(x * Pow2(k)), x)) == S32(x * c)
  {
    ScaledDifference(x, Pow2(k));
    if op == SubOp {
      LowSum64(x * Pow2(k), -x);
    } else {
      LowSum64(x * Pow2(k), x);
    }
  }
}
