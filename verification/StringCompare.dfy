/** The emitted String.compareTo loop, run on the machine with its annulled and
    plain delay slots, computes Java's string comparison. */
module StringCompare {
  import opened Bits
  import opened Sparc

  const O7: nat := 15
  const L0: nat := 16
  const L1: nat := 17
  const L3: nat := 19
  const I0: nat := 24
  const I1: nat := 25

  const DONE := 18

  /** From the length comparison on: the lengths are in I0 and I1, the addresses of
      the first characters in L0 and L1; the result is left in I0. */
  const CODE: seq<Instr> := [
    ArithCc(SubOp, I0, R(I1), O7),
    Arith(SllOp, I0, Imm(1), L3),
    Br(Greater, false, true, 4),
    Arith(SllOp, I1, Imm(1), L3),
    ArithCc(SubOp, L3, Imm(0), 0),          // Lskip
    Br(Equal, false, true, DONE),
    Arith(AddOp, 0, R(O7), I0),
    Arith(AddOp, L0, R(L3), L0),
    Arith(AddOp, L1, R(L3), L1),
    Arith(SubOp, 0, R(L3), L3),
    Ld(L0, R(L3), I0),
    Ld(L1, R(L3), I1),                    // Lloop
    ArithCc(SubOp, I0, R(I1), I0),
    Br(NotEqual, false, false, DONE),
    ArithCc(AddOp, L3, Imm(2), L3),
    Br(NotEqual, false, true, 11),
    Ld(L0, R(L3), I0),
    Arith(AddOp, 0, R(O7), I0)
  ]

  type Chars = s: seq<int> | |s| < 0x8000_0000 && forall i :: 0 <= i < |s| ==> 0 <= s[i] < 0x1_0000

  /** String.compareTo: the difference of the first differing characters, or else
      of the lengths. */
  function CompareTo(a: Chars, b: Chars, i: nat): int
    requires i <= |a| && i <= |b|
    decreases |a| - i
  {
    if i == |a| || i == |b| then |a| - |b|
    else if a[i] != b[i] then a[i] - b[i]
    else CompareTo(a, b, i + 1)
  }

  function Min(a: int, b: int): int { if a <= b then a else b }

  predicate CharAt(mem: map<int, int>, base: int, i: int, c: int) {
    base + 2 * i in mem && mem[base + 2 * i] == c
  }

  /** The first n characters of s are in memory from `base` on.  Nothing is said
      about other addresses: a run that does not fault for every such memory never
      reads past the common length. */
  ghost predicate Holding(mem: map<int, int>, base: int, s: Chars, n: nat) {
    n <= |s| && 0 <= base && base + 2 * n < 0x4000_0000_0000_0000 && forall i :: 0 <= i < n ==> CharAt(mem, base, i, s[i])
  }

  /** At Lloop with i characters compared equal. */
  ghost predicate AtLoop(m: Machine, base0: int, base1: int, a: Chars, b: Chars, i: nat) {
    var n := Min(|a|, |b|);
    && i < n && m.pc == 11 && m.npc == 12 && Holding(m.mem, base0, a, n) && Holding(m.mem, base1, b, n)
    && Reg(m, L0) == base0 + 2 * n && Reg(m, L1) == base1 + 2 * n && Reg(m, L3) == 2 * (i - n)
    && Reg(m, O7) == |a| - |b| && Reg(m, I0) == a[i]
  }

  lemma WrapAddress(base: int, n: int, i: int)
    requires 0 <= base && 0 <= i < n < 0x8000_0000 && base + 2 * n < 0x4000_0000_0000_0000
    ensures S64(base + 2 * n + 2 * (i - n)) == base + 2 * i
  {
  }

  /** The two instructions that compare one pair of characters. */
  lemma ComparePair(m: Machine, base0: int, base1: int, a: Chars, b: Chars, i: nat) returns (m2: Machine)
    requires AtLoop(m, base0, base1, a, b, i)
    ensures Leads(CODE, m, m2)
    ensures m2 == m.(pc := 13, npc := 14, regs := m.regs[I1 := b[i]][I0 := a[i] - b[i]], cc := FromAlu(SubOp, a[i], b[i]))
  {
    WrapAddress(base1, Min(|a|, |b|), i);
    assert CharAt(m.mem, base1, i, b[i]);
    var m1 := m.(pc := 12, npc := 13, regs := m.regs[I1 := b[i]]);
    m2 := m1.(pc := 13, npc := 14, regs := m1.regs[I0 := a[i] - b[i]], cc := FromAlu(SubOp, a[i], b[i]));
    TwoSteps(CODE, m, m1, m2);
  }

  lemma CharCodes(c: int, d: int)
    requires 0 <= c < 0x1_0000 && 0 <= d < 0x1_0000
    ensures Holds(Equal, FromAlu(SubOp, c, d), false) <==> c == d
    ensures Holds(NotEqual, FromAlu(SubOp, c, d), false) <==> c != d
  {
    CompareCodes(c, d, false);
  }

  /** A differing pair leaves the loop with the difference already in place. */
  lemma Differs(m: Machine, base0: int, base1: int, a: Chars, b: Chars, i: nat) returns (m': Machine)
    requires AtLoop(m, base0, base1, a, b, i) && a[i] != b[i]
    ensures Leads(CODE, m, m') && m'.pc == DONE && Reg(m', I0) == a[i] - b[i]
  {
    var m2 := ComparePair(m, base0, base1, a, b, i);
    CharCodes(a[i], b[i]);
    var m3 := m2.(pc := 14, npc := DONE);
    m' := Step(CODE, m3).value;
    TwoSteps(CODE, m2, m3, m');
    Trans(CODE, m, m2, m');
  }

  /** An equal pair: the branch is not taken, and the counter in its delay slot advances. */
  lemma Agrees(m: Machine, base0: int, base1: int, a: Chars, b: Chars, i: nat) returns (m4: Machine)
    requires AtLoop(m, base0, base1, a, b, i) && a[i] == b[i]
    ensures Leads(CODE, m, m4)
    ensures var c := 2 * (i - Min(|a|, |b|));
      m4 == m.(pc := 15, npc := 16, regs := m.regs[I1 := b[i]][I0 := 0][L3 := c + 2], cc := FromAlu(AddOp, c, 2))
  {
    var c := 2 * (i - Min(|a|, |b|));
    var m2 := ComparePair(m, base0, base1, a, b, i);
    CharCodes(a[i], b[i]);
    var m3 := m2.(pc := 14, npc := 15);
    m4 := m3.(pc := 15, npc := 16, regs := m3.regs[L3 := c + 2], cc := FromAlu(AddOp, c, 2));
    TwoSteps(CODE, m2, m3, m4);
    Trans(CODE, m, m2, m4);
  }

  lemma AddZero(c: int)
    requires -0x1_0000_0000 < c < 0
    ensures Holds(NotEqual, FromAlu(AddOp, c, 2), false) <==> c + 2 != 0
  {
    WrapNear(c, H32);
    WrapNear(S32(c) + 2, H32);
  }

  /** The taken back branch, with the next character loaded in its delay slot. */
  lemma Reload(m: Machine, at: Machine, base0: int, base1: int, a: Chars, b: Chars, i: nat) returns (m2: Machine)
    requires i + 1 < Min(|a|, |b|) && AtLoop(at, base0, base1, a, b, i) && Holds(NotEqual, m.cc, false)
    requires m == at.(pc := 15, npc := 16, regs := at.regs[I1 := b[i]][I0 := 0][L3 := 2 * (i - Min(|a|, |b|)) + 2], cc := m.cc)
    ensures Leads(CODE, m, m2) && AtLoop(m2, base0, base1, a, b, i + 1)
  {
    var n := Min(|a|, |b|);
    WrapAddress(base0, n, i + 1);
    assert CharAt(m.mem, base0, i + 1, a[i + 1]);
    var m1 := m.(pc := 16, npc := 11);
    m2 := m1.(pc := 11, npc := 12, regs := m1.regs[I0 := a[i + 1]]);
    TwoSteps(CODE, m, m1, m2);
  }

  /** The back branch not taken annuls its delay slot; the length difference wins. */
  lemma FallOut(m: Machine) returns (m2: Machine)
    requires m.pc == 15 && m.npc == 16 && !Holds(NotEqual, m.cc, false) && -0x8000_0000 < Reg(m, O7) < 0x8000_0000
    ensures Leads(CODE, m, m2) && m2.pc == DONE && Reg(m2, I0) == Reg(m, O7)
  {
    var m1 := m.(pc := 17, npc := 18);
    m2 := m1.(pc := 18, npc := 19, regs := m1.regs[I0 := Reg(m, O7)]);
    TwoSteps(CODE, m, m1, m2);
  }

  /** From the loop head the code terminates at DONE with the comparison's result. */
  lemma {:induction false} LoopRuns(m: Machine, base0: int, base1: int, a: Chars, b: Chars, i: nat) returns (m': Machine)
    requires AtLoop(m, base0, base1, a, b, i)
    ensures Leads(CODE, m, m') && m'.pc == DONE && Reg(m', I0) == CompareTo(a, b, i)
    decreases |a| - i
  {
    if a[i] != b[i] {
      m' := Differs(m, base0, base1, a, b, i);
    } else {
      var m4 := Agrees(m, base0, base1, a, b, i);
      AddZero(2 * (i - Min(|a|, |b|)));
      if i + 1 < Min(|a|, |b|) {
        var m6 := Reload(m4, m, base0, base1, a, b, i);
        Trans(CODE, m, m4, m6);
        m' := LoopRuns(m6, base0, base1, a, b, i + 1);
        Trans(CODE, m, m6, m');
      } else {
        m' := FallOut(m4);
        Trans(CODE, m, m4, m');
      }
    }
  }

  // ----- up to the loop -----

  /** At Lskip with the scaled minimum in L3. */
  ghost predicate AtSkip(m: Machine, base0: int, base1: int, a: Chars, b: Chars) {
    var n := Min(|a|, |b|);
    && m.pc == 4 && m.npc == 5 && Reg(m, L3) == 2 * n && Reg(m, O7) == |a| - |b|
    && Reg(m, L0) == base0 && Reg(m, L1) == base1 && Holding(m.mem, base0, a, n) && Holding(m.mem, base1, b, n)
  }

  lemma Lengths(m: Machine, la: nat, lb: nat) returns (m2: Machine)
    requires m.pc == 0 && m.npc == 1 && la < 0x8000_0000 && lb < 0x8000_0000
    requires Reg(m, I0) == la && Reg(m, I1) == lb
    ensures Leads(CODE, m, m2)
    ensures m2 == m.(pc := 2, npc := 3, regs := m.regs[O7 := la - lb][L3 := 2 * la], cc := FromAlu(SubOp, la, lb))
  {
    assert Pow2(1) == 2;
    var m1 := m.(pc := 1, npc := 2, regs := m.regs[O7 := la - lb], cc := FromAlu(SubOp, la, lb));
    m2 := m1.(pc := 2, npc := 3, regs := m1.regs[L3 := 2 * la]);
    TwoSteps(CODE, m, m1, m2);
  }

  /** The annulled delay slot picks the shorter length. */
  lemma Shorter(m: Machine, la: nat, lb: nat) returns (m': Machine)
    requires m.pc == 2 && m.npc == 3 && la < 0x8000_0000 && lb < 0x8000_0000
    requires m.cc == FromAlu(SubOp, la, lb) && Reg(m, I1) == lb && Reg(m, L3) == 2 * la
    ensures Leads(CODE, m, m')
    ensures m' == m.(pc := 4, npc := 5, regs := if la > lb then m.regs[L3 := 2 * lb] else m.regs)
  {
    CompareCodes(la, lb, false);
    if la > lb {
      assert Pow2(1) == 2;
      var m3 := m.(pc := 3, npc := 4);
      m' := m3.(pc := 4, npc := 5, regs := m3.regs[L3 := 2 * lb]);
      TwoSteps(CODE, m, m3, m');
    } else {
      m' := m.(pc := 4, npc := 5);
      OneStep(CODE, m, m');
    }
  }

  /** Neither string has characters to compare: the slot of the taken branch puts
      the length difference in place. */
  lemma EmptyString(m: Machine, diff: int) returns (m': Machine)
    requires m.pc == 4 && m.npc == 5 && Reg(m, L3) == 0 && Reg(m, O7) == diff && -0x8000_0000 < diff < 0x8000_0000
    ensures Leads(CODE, m, m') && m'.pc == DONE && Reg(m', I0) == diff
  {
    CompareCodes(0, 0, false);
    var m1 := m.(pc := 5, npc := 6, regs := m.regs[0 := 0], cc := FromAlu(SubOp, 0, 0));
    var m2 := m1.(pc := 6, npc := DONE);
    TwoSteps(CODE, m, m1, m2);
    m' := m2.(pc := DONE, npc := DONE + 1, regs := m2.regs[I0 := diff]);
    OneStep(CODE, m2, m');
    Trans(CODE, m, m2, m');
  }

  /** The branch to DONE is not taken and its delay slot annulled. */
  lemma PastSkip(m: Machine, n: int) returns (m2: Machine)
    requires m.pc == 4 && m.npc == 5 && Reg(m, L3) == 2 * n && 0 < n < 0x8000_0000
    ensures Leads(CODE, m, m2)
    ensures m2 == m.(pc := 7, npc := 8, regs := m.regs[0 := 2 * n], cc := FromAlu(SubOp, 2 * n, 0))
  {
    WrapNear(2 * n, H32);
    CompareCodes(2 * n, 0, false);
    var m1 := m.(pc := 5, npc := 6, regs := m.regs[0 := 2 * n], cc := FromAlu(SubOp, 2 * n, 0));
    m2 := m1.(pc := 7, npc := 8);
    TwoSteps(CODE, m, m1, m2);
  }

  lemma MoveBases(m: Machine, base0: int, base1: int, n: nat) returns (m2: Machine)
    requires m.pc == 7 && m.npc == 8 && Reg(m, L0) == base0 && Reg(m, L1) == base1 && Reg(m, L3) == 2 * n
    requires 0 <= base0 && 0 <= base1 && base0 + 2 * n < 0x4000_0000_0000_0000 && base1 + 2 * n < 0x4000_0000_0000_0000
    ensures Leads(CODE, m, m2)
    ensures m2 == m.(pc := 9, npc := 10, regs := m.regs[L0 := base0 + 2 * n][L1 := base1 + 2 * n])
  {
    var m1 := m.(pc := 8, npc := 9, regs := m.regs[L0 := base0 + 2 * n]);
    m2 := m1.(pc := 9, npc := 10, regs := m1.regs[L1 := base1 + 2 * n]);
    TwoSteps(CODE, m, m1, m2);
  }

  lemma FirstLoad(m: Machine, base0: int, n: nat, c: int) returns (m2: Machine)
    requires m.pc == 9 && m.npc == 10 && Reg(m, L3) == 2 * n && Reg(m, L0) == base0 + 2 * n && 0 < n < 0x8000_0000
    requires 0 <= base0 && base0 + 2 * n < 0x4000_0000_0000_0000 && CharAt(m.mem, base0, 0, c)
    ensures Leads(CODE, m, m2)
    ensures m2 == m.(pc := 11, npc := 12, regs := m.regs[L3 := -2 * n][I0 := c])
  {
    WrapAddress(base0, n, 0);
    var m1 := m.(pc := 10, npc := 11, regs := m.regs[L3 := -2 * n]);
    m2 := m1.(pc := 11, npc := 12, regs := m1.regs[I0 := c]);
    TwoSteps(CODE, m, m1, m2);
  }

  /** Bases moved to the ends, the counter negated, the first character loaded. */
  lemma EnterLoop(m: Machine, at: Machine, base0: int, base1: int, a: Chars, b: Chars) returns (m': Machine)
    requires AtSkip(at, base0, base1, a, b) && 0 < Min(|a|, |b|)
    requires m == at.(pc := 7, npc := 8, regs := at.regs[0 := 2 * Min(|a|, |b|)], cc := m.cc)
    ensures Leads(CODE, m, m') && AtLoop(m', base0, base1, a, b, 0)
  {
    var n := Min(|a|, |b|);
    var m2 := MoveBases(m, base0, base1, n);
    assert CharAt(m.mem, base0, 0, a[0]);
    m' := FirstLoad(m2, base0, n, a[0]);
    Trans(CODE, m, m2, m');
  }

  lemma FromSkip(m: Machine, base0: int, base1: int, a: Chars, b: Chars) returns (m': Machine)
    requires AtSkip(m, base0, base1, a, b)
    ensures Leads(CODE, m, m') && m'.pc == DONE && Reg(m', I0) == CompareTo(a, b, 0)
  {
    if Min(|a|, |b|) == 0 {
      m' := EmptyString(m, |a| - |b|);
    } else {
      var m2 := PastSkip(m, Min(|a|, |b|));
      var m6 := EnterLoop(m2, m, base0, base1, a, b);
      Trans(CODE, m, m2, m6);
      m' := LoopRuns(m6, base0, base1, a, b, 0);
      Trans(CODE, m, m6, m');
    }
  }

  /** The whole routine: for all strings and all memories that hold their common
      part, it reaches DONE without a fault, with compareTo's result in I0. */
  lemma Correct(m: Machine, base0: int, base1: int, a: Chars, b: Chars) returns (m': Machine)
    requires m.pc == 0 && m.npc == 1
    requires Reg(m, I0) == |a| && Reg(m, I1) == |b| && Reg(m, L0) == base0 && Reg(m, L1) == base1
    requires Holding(m.mem, base0, a, Min(|a|, |b|)) && Holding(m.mem, base1, b, Min(|a|, |b|))
    ensures Leads(CODE, m, m') && m'.pc == DONE && Reg(m', I0) == CompareTo(a, b, 0)
  {
    var m2 := Lengths(m, |a|, |b|);
    var m4 := Shorter(m2, |a|, |b|);
    Trans(CODE, m, m2, m4);
    m' := FromSkip(m4, base0, base1, a, b);
    Trans(CODE, m, m4, m');
  }
}
