/** Array allocation: the inline and the stub computation of the array size, and
    the loop that zeroes the body, on the machine. */
module ArrayAllocation {
  import opened Wrappers
  import opened Bits
  import opened Sparc
  import opened Division

  const MAX_LENGTH: int := 0x0100_0000
  const SLOW: int := 1000

  /** Size in bytes of an array: header and elements, rounded up to the object alignment. */
  function AlignUp(x: int, a: nat): int {
    var p := Pow2(a);
    (x + p - 1) - (x + p - 1) % p
  }

  function ArraySize(len: int, e: nat, hdr: int, a: nat): int {
    AlignUp(len * Pow2(e) + hdr, a)
  }

  /** Layouts in use: elements of 1 to 8 bytes, headers of whole words that fit a
      byte, alignment of 8 to 256 bytes. */
  predicate Layout(e: nat, hdr: int, a: nat) {
    e <= 3 && 0 < hdr < 256 && hdr % 8 == 0 && 3 <= a <= 8
  }

  /** allocate_array up to the aligned size, which replaces the limit in `arr`: the
      element shift sits in the delay slot of the branch to the slow case. */
  function InlineCode(len: nat, arr: nat, e: nat, hdr: int, a: nat): seq<Instr> {
    [Sethi(MAX_LENGTH, arr),
     ArithCc(SubOp, len, R(arr), 0),
     Br(GreaterUnsigned, false, false, SLOW),
     if e == 0 then Arith(AddOp, 0, R(len), arr) else Arith(SllOp, len, Imm(e), arr),
     Arith(AddOp, arr, Imm(hdr + Pow2(a) - 1), arr),
     Arith(AndOp, arr, Imm(-Pow2(a)), arr)]
  }

  /** The stub: its own test of the length, and, after the buffer refill behind
      instruction 3, the size. Shift and header size come out of the layout helper
      word, which the load before instruction 4 has put in `t`. */
  function StubCode(len: nat, arr: nat, t: nat, a: nat): seq<Instr> {
    [Sethi(MAX_LENGTH, t),
     ArithCc(SubOp, len, R(t), 0),
     Br(GreaterUnsigned, false, false, SLOW),
     Arith(AddOp, 0, R(0), 0),
     Arith(SllOp, len, R(t), arr),
     Arith(SrlOp, t, Imm(16), t),
     Arith(AndOp, t, Imm(255), t),
     Arith(AddOp, arr, R(t), arr),
     Arith(AddOp, arr, Imm(Pow2(a) - 1), arr),
     Arith(AndOp, arr, Imm(-Pow2(a)), arr)]
  }

  /** The layout helper of an array klass carries log2 of the element size in its low
      byte and the header size in its third. */
  predicate Helper(lh: int, e: nat, hdr: int) {
    lh % 256 == e && U32(lh) / 65536 % 256 == hdr
  }

  /** Below the limit nothing overflows 31 bits. */
  lemma {:induction false} SizeFits(len: int, e: nat, hdr: int, a: nat)
    requires Layout(e, hdr, a) && 0 <= len <= MAX_LENGTH
    ensures 0 <= len * Pow2(e) <= 8 * MAX_LENGTH
    ensures 1 <= Pow2(a) <= 256
    ensures len * Pow2(e) + hdr <= ArraySize(len, e, hdr, a) < 0x8000_0000
    ensures ArraySize(len, e, hdr, a) % Pow2(a) == 0
  {
    assert Pow2(0) == 1 && Pow2(1) == 2 && Pow2(2) == 4 && Pow2(3) == 8;
    assert Pow2(8) == 256;
    PowMono(a, 8);
    var p, x := Pow2(a), len * Pow2(e) + hdr;
    DivMod(x + p - 1, p);
    var q := (x + p - 1) / p;
    assert ArraySize(len, e, hdr, a) == p * q + 0;
    ModUnique(p * q, p, q, 0);
  }

  lemma MaskSize(x: int, a: nat)
    requires 0 <= x < 0x7fff_0000 && 1 <= Pow2(a) <= 256
    ensures Compute(AndOp, x + Pow2(a) - 1, -Pow2(a)) == AlignUp(x, a)
  {
    var y, p := x + Pow2(a) - 1, Pow2(a);
    AndHighMask(y, a);
    assert 0 <= y % p <= y by { ModLe(y, p); }
  }

  lemma ModLe(y: int, p: int)
    requires 0 <= y && 0 < p
    ensures 0 <= y % p <= y
  {
    DivMod(y, p);
    MulBound(p, y / p);
  }

  /** Test of the length against the limit in register t by the three instructions
      at the start of p: control is at the delay slot, bound for SLOW exactly for
      lengths that are negative or above the limit. */
  lemma LengthTest(p: seq<Instr>, len: nat, t: nat, m: Machine) returns (m3: Machine)
    requires len != 0 && t != 0 && len != t && m.pc == 0 && m.npc == 1 && |p| >= 4
    requires p[0] == Sethi(MAX_LENGTH, t) && p[1] == ArithCc(SubOp, len, R(t), 0)
    requires p[2] == Br(GreaterUnsigned, false, false, SLOW)
    requires -0x8000_0000 <= Reg(m, len) < 0x8000_0000
    ensures Leads(p, m, m3) && m3.pc == 3 && m3.npc == (if 0 <= Reg(m, len) <= MAX_LENGTH then 4 else SLOW)
    ensures Reg(m3, len) == Reg(m, len) && m3.mem == m.mem
  {
    var n := Reg(m, len);
    assert MAX_LENGTH % 1024 == 0;
    var m1 := m.(pc := 1, npc := 2, regs := m.regs[t := MAX_LENGTH]);
    var m2 := m1.(pc := 2, npc := 3, regs := m1.regs[0 := Compute(SubOp, n, MAX_LENGTH)], cc := FromAlu(SubOp, n, MAX_LENGTH));
    TwoSteps(p, m, m1, m2);
    UnsignedCodes(n, MAX_LENGTH);
    m3 := m2.(pc := 3, npc := if 0 <= n <= MAX_LENGTH then 4 else SLOW);
    OneStep(p, m2, m3);
    Trans(p, m, m2, m3);
  }

  /** One addition, giving y, then the mask, giving size. */
  lemma AlignSteps(p: seq<Instr>, k: nat, arr: nat, add: int, mask: int, m: Machine, y: int, size: int) returns (m': Machine)
    requires arr != 0 && k + 1 < |p| && 0 <= y < 0x8000_0000 && size == Compute(AndOp, y, mask)
    requires p[k] == Arith(AddOp, arr, Imm(add), arr) && p[k + 1] == Arith(AndOp, arr, Imm(mask), arr)
    requires m.pc == k && m.npc == k + 1 && Reg(m, arr) + add == y
    ensures Leads(p, m, m') && m'.pc == k + 2 && m'.npc == k + 3 && m'.mem == m.mem
    ensures m'.regs == m.regs[arr := size]
  {
    var m1 := m.(pc := k + 1, npc := k + 2, regs := m.regs[arr := y]);
    m' := m1.(pc := k + 2, npc := k + 3, regs := m1.regs[arr := size]);
    TwoSteps(p, m, m1, m');
    assert m1.regs[arr := size] == m.regs[arr := size];
  }

  /** allocate_array goes to the slow case for every negative or excessive length;
      otherwise it computes the exact size, which fits a positive int. */
  lemma InlineSize(len: nat, arr: nat, e: nat, hdr: int, a: nat, m: Machine) returns (m': Machine)
    requires len != 0 && arr != 0 && len != arr && Layout(e, hdr, a) && m.pc == 0 && m.npc == 1
    requires -0x8000_0000 <= Reg(m, len) < 0x8000_0000
    ensures Leads(InlineCode(len, arr, e, hdr, a), m, m')
    ensures var n := Reg(m, len);
      if 0 <= n <= MAX_LENGTH
      then m'.pc == 6 && Reg(m', arr) == ArraySize(n, e, hdr, a) && 0 < ArraySize(n, e, hdr, a) < 0x8000_0000
      else m'.pc == SLOW
  {
    var n := Reg(m, len);
    m' := InlineShift(len, arr, e, hdr, a, m);
    if 0 <= n <= MAX_LENGTH {
      SizeFits(n, e, hdr, a);
      MaskSize(n * Pow2(e) + hdr, a);
      var m4 := m';
      m' := InlineAlign(len, arr, e, hdr, a, m4, n * Pow2(e), ArraySize(n, e, hdr, a));
      Trans(InlineCode(len, arr, e, hdr, a), m, m4, m');
    }
  }

  lemma InlineShift(len: nat, arr: nat, e: nat, hdr: int, a: nat, m: Machine) returns (m4: Machine)
    requires len != 0 && arr != 0 && len != arr && Layout(e, hdr, a) && m.pc == 0 && m.npc == 1
    requires -0x8000_0000 <= Reg(m, len) < 0x8000_0000
    ensures Leads(InlineCode(len, arr, e, hdr, a), m, m4)
    ensures if 0 <= Reg(m, len) <= MAX_LENGTH then m4.pc == 4 && m4.npc == 5 else m4.pc == SLOW
    ensures Reg(m4, arr) == S64(Reg(m, len) * Pow2(e))
  {
    var p := InlineCode(len, arr, e, hdr, a);
    var m3 := LengthTest(p, len, arr, m);
    assert e % 32 == e && Pow2(0) == 1;
    m4 := m3.(pc := m3.npc, npc := m3.npc + 1, regs := m3.regs[arr := S64(Reg(m, len) * Pow2(e))]);
    OneStep(p, m3, m4);
    Trans(p, m, m3, m4);
  }

  lemma InlineAlign(len: nat, arr: nat, e: nat, hdr: int, a: nat, m: Machine, s: int, size: int) returns (m': Machine)
    requires arr != 0 && 0 < hdr < 256 && m.pc == 4 && m.npc == 5 && 1 <= Pow2(a) <= 256
    requires 0 <= s <= 8 * MAX_LENGTH && Reg(m, arr) == S64(s) && size == Compute(AndOp, s + hdr + Pow2(a) - 1, -Pow2(a))
    ensures Leads(InlineCode(len, arr, e, hdr, a), m, m') && m'.pc == 6 && Reg(m', arr) == size
  {
    m' := AlignSteps(InlineCode(len, arr, e, hdr, a), 4, arr, hdr + Pow2(a) - 1, -Pow2(a), m, s + hdr + Pow2(a) - 1, size);
  }

  lemma HelperShift(lh: int, e: nat, hdr: int)
    requires Helper(lh, e, hdr) && e <= 3 && 0 < hdr < 256
    ensures lh % 32 == e
    ensures Compute(AndOp, Compute(SrlOp, lh, 16), 255) == hdr
  {
    assert lh == 256 * (lh / 256) + e;
    ModUnique(lh, 32, 8 * (lh / 256), e);
    assert Pow2(8) == 256;
    PowSum(8, 8);
    AndLowMask(U32(lh) / 65536, 8);
  }

  /** The stub sends exactly the same lengths to the slow path, and for the others,
      whatever the refill did to everything but the length, computes the size the
      inline code computes. */
  lemma StubSize(len: nat, arr: nat, t: nat, e: nat, hdr: int, a: nat, m: Machine, refilled: Machine)
    returns (m1: Machine, m': Machine)
    requires len != 0 && arr != 0 && t != 0 && len != arr && len != t && arr != t && Layout(e, hdr, a)
    requires m.pc == 0 && m.npc == 1 && -0x8000_0000 <= Reg(m, len) < 0x8000_0000
    requires refilled.pc == 4 && refilled.npc == 5 && Reg(refilled, len) == Reg(m, len) && Helper(Reg(refilled, t), e, hdr)
    ensures var n := Reg(m, len);
      && Leads(StubCode(len, arr, t, a), m, m1)
      && m1.pc == (if 0 <= n <= MAX_LENGTH then 4 else SLOW) && Reg(m1, len) == n
      && (0 <= n <= MAX_LENGTH ==>
            && Leads(StubCode(len, arr, t, a), refilled, m') && m'.pc == 10 && m'.npc == 11
            && Reg(m', arr) == ArraySize(n, e, hdr, a) && Reg(m', t) == hdr && m'.mem == refilled.mem)
  {
    var p, n := StubCode(len, arr, t, a), Reg(m, len);
    var m3 := LengthTest(p, len, t, m);
    m1 := m3.(pc := m3.npc, npc := m3.npc + 1, regs := m3.regs[0 := 0]);
    OneStep(p, m3, m1);
    Trans(p, m, m3, m1);
    m' := refilled;
    if 0 <= n <= MAX_LENGTH {
      SizeFits(n, e, hdr, a);
      MaskSize(n * Pow2(e) + hdr, a);
      m' := StubSum(len, arr, t, e, hdr, a, refilled, n * Pow2(e), ArraySize(n, e, hdr, a));
    }
  }

  lemma StubSum(len: nat, arr: nat, t: nat, e: nat, hdr: int, a: nat, m: Machine, s: int, size: int) returns (m': Machine)
    requires len != 0 && arr != 0 && t != 0 && len != arr && len != t && arr != t && Layout(e, hdr, a)
    requires m.pc == 4 && m.npc == 5 && Helper(Reg(m, t), e, hdr) && s == Reg(m, len) * Pow2(e)
    requires 0 <= s <= 8 * MAX_LENGTH && 1 <= Pow2(a) <= 256 && size == Compute(AndOp, s + hdr + Pow2(a) - 1, -Pow2(a))
    ensures Leads(StubCode(len, arr, t, a), m, m') && m'.pc == 10 && m'.npc == 11
    ensures Reg(m', arr) == size && Reg(m', t) == hdr && m'.mem == m.mem
  {
    var p := StubCode(len, arr, t, a);
    var m7 := StubHeader(len, arr, t, e, hdr, a, m, s);
    var m8 := m7.(pc := 8, npc := 9, regs := m7.regs[arr := s + hdr]);
    OneStep(p, m7, m8);
    Trans(p, m, m7, m8);
    m' := AlignSteps(p, 8, arr, Pow2(a) - 1, -Pow2(a), m8, s + hdr + Pow2(a) - 1, size);
    Trans(p, m, m8, m');
  }

  lemma StubHeader(len: nat, arr: nat, t: nat, e: nat, hdr: int, a: nat, m: Machine, s: int) returns (m3: Machine)
    requires len != 0 && arr != 0 && t != 0 && len != arr && len != t && arr != t && Layout(e, hdr, a)
    requires m.pc == 4 && m.npc == 5 && Helper(Reg(m, t), e, hdr) && s == Reg(m, len) * Pow2(e) && 0 <= s <= 8 * MAX_LENGTH
    ensures Leads(StubCode(len, arr, t, a), m, m3) && m3.pc == 7 && m3.npc == 8 && m3.mem == m.mem
    ensures Reg(m3, arr) == s && Reg(m3, t) == hdr
  {
    var p, lh := StubCode(len, arr, t, a), Reg(m, t);
    HelperShift(lh, e, hdr);
    var m1 := m.(pc := 5, npc := 6, regs := m.regs[arr := s]);
    var m2 := m1.(pc := 6, npc := 7, regs := m1.regs[t := Compute(SrlOp, lh, 16)]);
    TwoSteps(p, m, m1, m2);
    m3 := m2.(pc := 7, npc := 8, regs := m2.regs[t := hdr]);
    OneStep(p, m2, m3);
    Trans(p, m, m2, m3);
  }

  // ----- zeroing the body -----

  /** initialize_body at instruction k of p: the store is in the annulled delay slot
      of the back branch. */
  predicate ZeroLoopAt(p: seq<Instr>, k: nat, base: nat, index: nat) {
    && k + 3 <= |p| && base != 0 && index != 0 && base != index
    && p[k] == ArithCc(SubOp, index, Imm(8), index)
    && p[k + 1] == Br(GreaterEqual, true, true, k)
    && p[k + 2] == St(0, base, R(index))
  }

  /** a is one of the n words from b on. */
  predicate IsWord(b: int, n: nat, a: int) {
    b <= a < b + 8 * n && (a - b) % 8 == 0
  }

  /** mem' is mem with exactly the n words from b on set to zero. */
  ghost predicate Zeroed(mem: map<int, int>, mem': map<int, int>, b: int, n: nat) {
    && (forall a :: a in mem' <==> a in mem || IsWord(b, n, a))
    && (forall a :: a in mem' ==> mem'[a] == if IsWord(b, n, a) then 0 else mem[a])
  }

  lemma {:induction false} ZeroRuns(p: seq<Instr>, k: nat, base: nat, index: nat, m: Machine, b: int, n: nat) returns (m': Machine)
    requires ZeroLoopAt(p, k, base, index) && m.pc == k && m.npc == k + 1
    requires Reg(m, base) == b && Reg(m, index) == 8 * n && 0 <= b && b + 8 * n < 0x4000_0000_0000_0000
    ensures Leads(p, m, m') && m'.pc == k + 3 && Zeroed(m.mem, m'.mem, b, n)
    decreases n
  {
    var c := 8 * n - 8;
    CompareCodes(8 * n, 8, true);
    var m1 := m.(pc := k + 1, npc := k + 2, regs := m.regs[index := c], cc := FromAlu(SubOp, 8 * n, 8));
    if n == 0 {
      m' := m1.(pc := k + 3, npc := k + 4);
      TwoSteps(p, m, m1, m');
    } else {
      var m3 := StoreTurn(p, k, base, index, m, m1, b, c);
      m' := ZeroRuns(p, k, base, index, m3, b, n - 1);
      Trans(p, m, m3, m');
      ZeroMore(m.mem, m'.mem, b, n);
    }
  }

  lemma StoreTurn(p: seq<Instr>, k: nat, base: nat, index: nat, m: Machine, m1: Machine, b: int, c: int) returns (m3: Machine)
    requires ZeroLoopAt(p, k, base, index) && m.pc == k && m.npc == k + 1 && Reg(m, base) == b && 0 <= b
    requires 0 <= c && b + c < 0x4000_0000_0000_0000
    requires m1 == m.(pc := k + 1, npc := k + 2, regs := m.regs[index := c], cc := m1.cc) && Holds(GreaterEqual, m1.cc, true)
    requires Step(p, m) == Some(m1)
    ensures Leads(p, m, m3)
    ensures m3 == m1.(pc := k, npc := k + 1, mem := m.mem[b + c := 0])
  {
    var m2 := m1.(pc := k + 2, npc := k);
    TwoSteps(p, m, m1, m2);
    m3 := m2.(pc := k, npc := k + 1, mem := m.mem[b + c := 0]);
    OneStep(p, m2, m3);
    Trans(p, m, m2, m3);
  }

  lemma ZeroMore(mem: map<int, int>, mem': map<int, int>, b: int, n: nat)
    requires n > 0 && Zeroed(mem[b + 8 * n - 8 := 0], mem', b, n - 1)
    ensures Zeroed(mem, mem', b, n)
  {
    forall a
      ensures IsWord(b, n, a) <==> IsWord(b, n - 1, a) || a == b + 8 * n - 8
    {
    }
  }

  /** What follows the allocation: base and index from the object, the size and the
      header size, then the loop. */
  function BodyCode(obj: nat, arr: nat, hdr: int, base: nat, index: nat): seq<Instr> {
    [Arith(AddOp, obj, Imm(hdr), base),
     Arith(SubOp, arr, Imm(hdr), index),
     ArithCc(SubOp, index, Imm(8), index),
     Br(GreaterEqual, true, true, 2),
     St(0, base, R(index))]
  }

  /** In the stub the header size is in a register, which becomes the base. */
  function StubBodyCode(obj: nat, arr: nat, t: nat, index: nat): seq<Instr> {
    [Arith(SubOp, arr, R(t), index),
     Arith(AddOp, obj, R(t), t),
     ArithCc(SubOp, index, Imm(8), index),
     Br(GreaterEqual, true, true, 2),
     St(0, t, R(index))]
  }

  /** The number of words between the header and the end of an array. */
  function BodyWords(len: int, e: nat, hdr: int, a: nat): nat {
    var size := ArraySize(len, e, hdr, a);
    if size < hdr then 0 else (size - hdr) / 8
  }

  lemma BodyExact(len: int, e: nat, hdr: int, a: nat)
    requires Layout(e, hdr, a) && 0 <= len <= MAX_LENGTH
    ensures ArraySize(len, e, hdr, a) == hdr + 8 * BodyWords(len, e, hdr, a) && 8 * BodyWords(len, e, hdr, a) < 0x8000_0000
  {
    var size := ArraySize(len, e, hdr, a);
    assert hdr <= size < 0x8000_0000 && size % 8 == 0 by {
      SizeFits(len, e, hdr, a);
      WordMultiple(size, a);
    }
    WordDifference(size, hdr);
  }

  lemma WordDifference(size: int, hdr: int)
    requires size % 8 == 0 && hdr % 8 == 0
    ensures size == hdr + 8 * ((size - hdr) / 8)
  {
  }

  /** base and index computed, then the loop; n words of body at b. */
  lemma BodyRuns(obj: nat, arr: nat, hdr: int, base: nat, index: nat, m: Machine, b: int, n: nat) returns (m': Machine)
    requires base != 0 && index != 0 && base != index && arr != 0 && arr != base && m.pc == 0 && m.npc == 1
    requires b == Reg(m, obj) + hdr && Reg(m, arr) == hdr + 8 * n && 0 <= b < 0x3000_0000_0000_0000 && 8 * n < 0x8000_0000
    ensures Leads(BodyCode(obj, arr, hdr, base, index), m, m') && m'.pc == 5 && Zeroed(m.mem, m'.mem, b, n)
  {
    var p := BodyCode(obj, arr, hdr, base, index);
    var m1 := m.(pc := 1, npc := 2, regs := m.regs[base := b]);
    var m2 := m1.(pc := 2, npc := 3, regs := m1.regs[index := 8 * n]);
    TwoSteps(p, m, m1, m2);
    m' := ZeroRuns(p, 2, base, index, m2, b, n);
    Trans(p, m, m2, m');
  }

  lemma StubBodyRuns(obj: nat, arr: nat, t: nat, index: nat, m: Machine, b: int, n: nat) returns (m': Machine)
    requires t != 0 && index != 0 && t != index && obj != index && m.pc == 0 && m.npc == 1
    requires b == Reg(m, obj) + Reg(m, t) && Reg(m, arr) == Reg(m, t) + 8 * n && 0 <= b < 0x3000_0000_0000_0000 && 8 * n < 0x8000_0000
    ensures Leads(StubBodyCode(obj, arr, t, index), m, m') && m'.pc == 5 && Zeroed(m.mem, m'.mem, b, n)
  {
    var p := StubBodyCode(obj, arr, t, index);
    var m1 := m.(pc := 1, npc := 2, regs := m.regs[index := 8 * n]);
    var m2 := m1.(pc := 2, npc := 3, regs := m1.regs[t := b]);
    TwoSteps(p, m, m1, m2);
    m' := ZeroRuns(p, 2, t, index, m2, b, n);
    Trans(p, m, m2, m');
  }

  /** Allocation end to end, around any allocator: `got` is what it leaves, the size
      kept and the new object in `obj`. A bad length never gets there; for any other
      the code ends with exactly the body of the array zeroed. */
  lemma ArrayAllocated(len: nat, arr: nat, obj: nat, base: nat, index: nat, e: nat, hdr: int, a: nat, m: Machine, got: Machine)
    returns (m1: Machine, m': Machine)
    requires len != 0 && arr != 0 && len != arr && base != 0 && index != 0 && base != index && arr != base
    requires Layout(e, hdr, a) && m.pc == 0 && m.npc == 1 && -0x8000_0000 <= Reg(m, len) < 0x8000_0000
    requires got.pc == 0 && got.npc == 1 && 0 <= Reg(got, obj) < 0x2000_0000_0000_0000
    ensures Leads(InlineCode(len, arr, e, hdr, a), m, m1)
    ensures var n := Reg(m, len);
      && (m1.pc == SLOW <==> n < 0 || n > MAX_LENGTH)
      && (m1.pc != SLOW && Reg(got, arr) == Reg(m1, arr) ==>
            && m1.pc == 6 && Leads(BodyCode(obj, arr, hdr, base, index), got, m') && m'.pc == 5
            && Zeroed(got.mem, m'.mem, Reg(got, obj) + hdr, BodyWords(n, e, hdr, a)))
  {
    m1 := InlineSize(len, arr, e, hdr, a, m);
    m' := got;
    if m1.pc != SLOW && Reg(got, arr) == Reg(m1, arr) {
      BodyExact(Reg(m, len), e, hdr, a);
      m' := BodyRuns(obj, arr, hdr, base, index, got, Reg(got, obj) + hdr, BodyWords(Reg(m, len), e, hdr, a));
    }
  }

  /** The same for the stub: after the refill its size computation, and around the
      allocator, which leaves the size and the reloaded header size, the body. */
  lemma StubAllocated(len: nat, arr: nat, t: nat, obj: nat, index: nat, e: nat, hdr: int, a: nat,
                      m: Machine, refilled: Machine, got: Machine) returns (m1: Machine, m2: Machine, m': Machine)
    requires len != 0 && arr != 0 && t != 0 && len != arr && len != t && arr != t && Layout(e, hdr, a)
    requires index != 0 && t != index && obj != index && m.pc == 0 && m.npc == 1 && -0x8000_0000 <= Reg(m, len) < 0x8000_0000
    requires refilled.pc == 4 && refilled.npc == 5 && Reg(refilled, len) == Reg(m, len) && Helper(Reg(refilled, t), e, hdr)
    requires got.pc == 0 && got.npc == 1 && Reg(got, t) == hdr && 0 <= Reg(got, obj) < 0x2000_0000_0000_0000
    ensures var n := Reg(m, len);
      && Leads(StubCode(len, arr, t, a), m, m1) && (m1.pc == SLOW <==> n < 0 || n > MAX_LENGTH)
      && (m1.pc != SLOW ==> Leads(StubCode(len, arr, t, a), refilled, m2) && Reg(m2, arr) == ArraySize(n, e, hdr, a))
      && (m1.pc != SLOW && Reg(got, arr) == Reg(m2, arr) ==>
            && Leads(StubBodyCode(obj, arr, t, index), got, m') && m'.pc == 5
            && Zeroed(got.mem, m'.mem, Reg(got, obj) + hdr, BodyWords(n, e, hdr, a)))
  {
    m1, m2 := StubSize(len, arr, t, e, hdr, a, m, refilled);
    m' := got;
    if m1.pc != SLOW && Reg(got, arr) == Reg(m2, arr) {
      BodyExact(Reg(m, len), e, hdr, a);
      m' := StubBodyRuns(obj, arr, t, index, got, Reg(got, obj) + hdr, BodyWords(Reg(m, len), e, hdr, a));
    }
  }

  lemma WordMultiple(s: int, a: nat)
    requires a >= 3 && s % Pow2(a) == 0
    ensures s % 8 == 0
  {
    PowSum(3, a - 3);
    assert Pow2(3) == 8;
    var p, q := Pow2(a - 3), s / Pow2(a);
    DivMod(s, Pow2(a));
    assert (8 * p) * q == 8 * (p * q);
    ModUnique(s, 8, p * q, 0);
  }
}
