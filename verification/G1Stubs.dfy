/** The G1 barrier stubs as instructions: the log's index and buffer pointer in the
    thread, the store of the index in the delay slot of the return, and the restart
    behind the refill call. */
module G1Stubs {
  import opened Wrappers
  import opened Bits
  import opened Sparc

  const G1: nat := 1
  const G2: nat := 2
  const G3: nat := 3
  const G4: nat := 4
  const G5: nat := 5

  /** Where a return goes. */
  const DONE: int := 1000

  const NOP := Arith(AddOp, 0, R(0), 0)

  /** The common tail of both stubs at instruction k: the value in v, the index going
      through x and the buffer through y; ix and bf are the offsets of the index and
      of the buffer pointer in the thread. At k + 9 the refill call comes back, and
      the tail starts again. */
  function TailCode(k: int, ix: int, bf: int, v: nat, x: nat, y: nat): seq<Instr> {
    [Ld(G2, Imm(ix), x),
     ArithCc(SubOp, x, R(0), 0),
     Br(Equal, true, false, k + 9),
     NOP,
     Ld(G2, Imm(bf), y),
     Arith(SubOp, x, Imm(8), x),
     St(v, y, R(x)),
     Br(Always, false, false, DONE),
     St(x, G2, Imm(ix)),
     Br(Always, false, false, k),
     NOP]
  }

  /** Register numbers of a tail: nothing overlaps. */
  predicate TailRegs(v: nat, x: nat, y: nat) {
    x != 0 && y != 0 && v != 0 && x != y && x != v && y != v && x != G2 && y != G2 && v != G2
  }

  /** Program p has the tail at k. */
  predicate HasTail(p: seq<Instr>, k: nat, ix: int, bf: int, v: nat, x: nat, y: nat) {
    TailRegs(v, x, y) && k + 11 <= |p| && p[k..k + 11] == TailCode(k, ix, bf, v, x, y)
  }

  /** A thread at t with a log of sz bytes at b, filled from the top down to index i. */
  predicate QueueAt(mem: map<int, int>, t: int, ix: int, bf: int, b: int, i: int, sz: int) {
    && 0 <= i <= sz && i % 8 == 0 && sz % 8 == 0 && 0 <= b && b + sz < 0x4000_0000_0000_0000
    && 0 <= t + ix < 0x4000_0000_0000_0000 && 0 <= t + bf < 0x4000_0000_0000_0000 && ix != bf
    && t + ix in mem && mem[t + ix] == i && t + bf in mem && mem[t + bf] == b
    && !(b <= t + ix < b + sz) && !(b <= t + bf < b + sz)
    && forall j :: 0 <= j < sz / 8 ==> b + 8 * j in mem
  }

  /** The values from index i up, newest first. */
  function Live(mem: map<int, int>, b: int, i: int, sz: int): (s: seq<int>)
    requires 0 <= i <= sz && i % 8 == 0 && sz % 8 == 0 && forall j :: 0 <= j < sz / 8 ==> b + 8 * j in mem
    decreases sz - i
  {
    if i == sz then [] else [mem[b + 8 * (i / 8)]] + Live(mem, b, i + 8, sz)
  }

  lemma TailAt(p: seq<Instr>, k: nat, ix: int, bf: int, v: nat, x: nat, y: nat, j: nat)
    requires HasTail(p, k, ix, bf, v, x, y) && j < 11
    ensures p[k + j] == TailCode(k, ix, bf, v, x, y)[j]
  {
    assert p[k + j] == p[k..k + 11][j];
  }

  /** The index is loaded and compared: control is behind the branch's delay slot, at
      the refill exactly if the index is 0. */
  lemma TailTest(p: seq<Instr>, k: nat, ix: int, bf: int, v: nat, x: nat, y: nat, m: Machine, i: int) returns (m4: Machine)
    requires HasTail(p, k, ix, bf, v, x, y) && m.pc == k && m.npc == k + 1
    requires var a := Reg(m, G2) + ix; 0 <= a < 0x4000_0000_0000_0000 && a in m.mem && m.mem[a] == i
    requires 0 <= i < 0x4000_0000_0000_0000
    ensures Leads(p, m, m4) && m4.pc == (if i == 0 then k + 9 else k + 4) && m4.npc == m4.pc + 1 && m4.mem == m.mem
    ensures Reg(m4, x) == i && Reg(m4, v) == Reg(m, v) && Reg(m4, G2) == Reg(m, G2)
  {
    TailAt(p, k, ix, bf, v, x, y, 0);
    TailAt(p, k, ix, bf, v, x, y, 1);
    TailAt(p, k, ix, bf, v, x, y, 2);
    TailAt(p, k, ix, bf, v, x, y, 3);
    var m1 := m.(pc := k + 1, npc := k + 2, regs := m.regs[x := i]);
    var m2 := m1.(pc := k + 2, npc := k + 3, regs := m1.regs[0 := i], cc := FromAlu(SubOp, i, 0));
    TwoSteps(p, m, m1, m2);
    CompareCodes(i, 0, true);
    var m3 := m2.(pc := k + 3, npc := if i == 0 then k + 9 else k + 4);
    m4 := m3.(pc := m3.npc, npc := m3.npc + 1, regs := m3.regs[0 := 0]);
    TwoSteps(p, m2, m3, m4);
    Trans(p, m, m2, m4);
  }

  /** Room in the buffer: the value is stored below the last one, and the index in
      the delay slot of the return. */
  lemma TailStores(p: seq<Instr>, k: nat, ix: int, bf: int, v: nat, x: nat, y: nat, m: Machine, b: int, i: int) returns (m': Machine)
    requires HasTail(p, k, ix, bf, v, x, y) && m.pc == k + 4 && m.npc == k + 5 && Reg(m, x) == i && 8 <= i
    requires var a := Reg(m, G2) + bf; 0 <= a < 0x4000_0000_0000_0000 && a in m.mem && m.mem[a] == b
    requires 0 <= b && b + i < 0x4000_0000_0000_0000 && 0 <= Reg(m, G2) + ix < 0x4000_0000_0000_0000
    ensures Leads(p, m, m') && m'.pc == DONE && m'.mem == m.mem[b + i - 8 := Reg(m, v)][Reg(m, G2) + ix := i - 8]
  {
    TailAt(p, k, ix, bf, v, x, y, 4);
    TailAt(p, k, ix, bf, v, x, y, 5);
    TailAt(p, k, ix, bf, v, x, y, 6);
    TailAt(p, k, ix, bf, v, x, y, 7);
    TailAt(p, k, ix, bf, v, x, y, 8);
    var m5 := m.(pc := k + 5, npc := k + 6, regs := m.regs[y := b]);
    var m6 := m5.(pc := k + 6, npc := k + 7, regs := m5.regs[x := i - 8]);
    TwoSteps(p, m, m5, m6);
    var m7 := m6.(pc := k + 7, npc := k + 8, mem := m.mem[b + i - 8 := Reg(m, v)]);
    var m8 := m7.(pc := k + 8, npc := DONE);
    TwoSteps(p, m6, m7, m8);
    Trans(p, m, m6, m8);
    m' := m8.(pc := DONE, npc := DONE + 1, mem := m7.mem[Reg(m, G2) + ix := i - 8]);
    OneStep(p, m8, m');
    Trans(p, m, m8, m');
  }

  /** Behind the refill call the stub goes back to its tail. */
  lemma TailRestarts(p: seq<Instr>, k: nat, ix: int, bf: int, v: nat, x: nat, y: nat, m: Machine) returns (m': Machine)
    requires HasTail(p, k, ix, bf, v, x, y) && m.pc == k + 9 && m.npc == k + 10
    ensures Leads(p, m, m') && m' == m.(pc := k, npc := k + 1, regs := m.regs[0 := 0])
  {
    TailAt(p, k, ix, bf, v, x, y, 9);
    TailAt(p, k, ix, bf, v, x, y, 10);
    var m1 := m.(pc := k + 10, npc := k);
    m' := m1.(pc := k, npc := k + 1, regs := m.regs[0 := 0]);
    TwoSteps(p, m, m1, m');
  }

  // ---------------------------------------------------------------------
  // The log in memory.

  lemma {:induction false} LiveSame(mem: map<int, int>, mem': map<int, int>, b: int, i: int, sz: int)
    requires 0 <= i <= sz && i % 8 == 0 && sz % 8 == 0 && forall j :: 0 <= j < sz / 8 ==> b + 8 * j in mem && b + 8 * j in mem'
    requires forall j :: i / 8 <= j < sz / 8 ==> mem'[b + 8 * j] == mem[b + 8 * j]
    ensures Live(mem', b, i, sz) == Live(mem, b, i, sz)
    decreases sz - i
  {
    if i != sz {
      LiveSame(mem, mem', b, i + 8, sz);
    }
  }

  /** The two stores of the tail add the value to the log and nothing else. */
  lemma StoredLog(mem: map<int, int>, t: int, ix: int, bf: int, b: int, i: int, sz: int, v: int)
    requires QueueAt(mem, t, ix, bf, b, i, sz) && i > 0
    ensures var mem' := mem[b + i - 8 := v][t + ix := i - 8];
            QueueAt(mem', t, ix, bf, b, i - 8, sz) && Live(mem', b, i - 8, sz) == [v] + Live(mem, b, i, sz)
  {
    var mem' := mem[b + i - 8 := v][t + ix := i - 8];
    assert b + i - 8 == b + 8 * ((i - 8) / 8);
    LiveSame(mem, mem', b, i, sz);
  }

  /** What the refill call promises a stub whose value val is in register v and whose
      thread is at t: both are kept, and the thread has a log with room, new or the old
      one with some of its values dropped. */
  predicate Refilled(got: Machine, k: nat, v: nat, val: int, t: int, ix: int, bf: int, b: int, i: int, sz: int) {
    && got.pc == k + 9 && got.npc == k + 10 && Reg(got, v) == val && Reg(got, G2) == t
    && i > 0 && QueueAt(got.mem, t, ix, bf, b, i, sz)
  }

  /** With room, the tail of a stub logs the value and returns. */
  lemma TailEnqueues(p: seq<Instr>, k: nat, ix: int, bf: int, v: nat, x: nat, y: nat, m: Machine, b: int, i: int, sz: int)
    returns (m': Machine)
    requires HasTail(p, k, ix, bf, v, x, y) && m.pc == k && m.npc == k + 1
    requires QueueAt(m.mem, Reg(m, G2), ix, bf, b, i, sz) && i > 0
    ensures Leads(p, m, m') && m'.pc == DONE
    ensures m'.mem == m.mem[b + i - 8 := Reg(m, v)][Reg(m, G2) + ix := i - 8]
    ensures QueueAt(m'.mem, Reg(m, G2), ix, bf, b, i - 8, sz)
    ensures Live(m'.mem, b, i - 8, sz) == [Reg(m, v)] + Live(m.mem, b, i, sz)
  {
    var m4 := TailTest(p, k, ix, bf, v, x, y, m, i);
    m' := TailStores(p, k, ix, bf, v, x, y, m4, b, i);
    Trans(p, m, m4, m');
    StoredLog(m.mem, Reg(m, G2), ix, bf, b, i, sz, Reg(m, v));
  }

  /** Without room, it goes to the refill call with the memory untouched. */
  lemma TailCalls(p: seq<Instr>, k: nat, ix: int, bf: int, v: nat, x: nat, y: nat, m: Machine, b: int, sz: int) returns (m1: Machine)
    requires HasTail(p, k, ix, bf, v, x, y) && m.pc == k && m.npc == k + 1 && QueueAt(m.mem, Reg(m, G2), ix, bf, b, 0, sz)
    ensures Leads(p, m, m1) && m1.pc == k + 9 && m1.mem == m.mem && Reg(m1, v) == Reg(m, v) && Reg(m1, G2) == Reg(m, G2)
  {
    m1 := TailTest(p, k, ix, bf, v, x, y, m, 0);
  }

  /** Whatever log with room the call leaves, the stub then starts again, adds the
      value to that log and returns. */
  lemma TailRefills(p: seq<Instr>, k: nat, ix: int, bf: int, v: nat, x: nat, y: nat, val: int, t: int,
                    got: Machine, b: int, i: int, sz: int) returns (m': Machine)
    requires HasTail(p, k, ix, bf, v, x, y) && Refilled(got, k, v, val, t, ix, bf, b, i, sz)
    ensures Leads(p, got, m') && m'.pc == DONE && m'.mem == got.mem[b + i - 8 := val][t + ix := i - 8]
    ensures QueueAt(m'.mem, t, ix, bf, b, i - 8, sz) && Live(m'.mem, b, i - 8, sz) == [val] + Live(got.mem, b, i, sz)
  {
    var m2 := TailRestarts(p, k, ix, bf, v, x, y, got);
    m' := TailEnqueues(p, k, ix, bf, v, x, y, m2, b, i, sz);
    Trans(p, got, m2, m');
  }

  /** If the call leaves a log without room, the stub only comes back to the call. */
  lemma TailLoops(p: seq<Instr>, k: nat, ix: int, bf: int, v: nat, x: nat, y: nat, got: Machine, b: int, sz: int) returns (m1: Machine)
    requires HasTail(p, k, ix, bf, v, x, y) && got.pc == k + 9 && got.npc == k + 10
    requires QueueAt(got.mem, Reg(got, G2), ix, bf, b, 0, sz)
    ensures Leads(p, got, m1) && m1.pc == k + 9 && m1.mem == got.mem && Reg(m1, v) == Reg(got, v) && Reg(m1, G2) == Reg(got, G2)
  {
    var m2 := TailRestarts(p, k, ix, bf, v, x, y, got);
    m1 := TailCalls(p, k, ix, bf, v, x, y, m2, b, sz);
    Trans(p, got, m2, m1);
  }

  // ---------------------------------------------------------------------
  // The pre barrier: nothing but the tail.

  function PreCode(ix: int, bf: int): (p: seq<Instr>)
    ensures HasTail(p, 0, ix, bf, G4, G1, G3)
  {
    TailCode(0, ix, bf, G4, G1, G3)
  }

  /** The whole pre barrier stub: with room it logs the previous value and returns;
      without, it reaches the refill call with the memory untouched, and from what the
      call leaves it logs the value and returns. */
  lemma PreLogs(ix: int, bf: int, m: Machine, b: int, i: int, sz: int, got: Machine, b': int, i': int, sz': int)
    returns (m1: Machine, m': Machine)
    requires m.pc == 0 && m.npc == 1 && QueueAt(m.mem, Reg(m, G2), ix, bf, b, i, sz)
    requires i == 0 ==> Refilled(got, 0, G4, Reg(m, G4), Reg(m, G2), ix, bf, b', i', sz')
    ensures m'.pc == DONE
    ensures i > 0 ==>
              && Leads(PreCode(ix, bf), m, m') && QueueAt(m'.mem, Reg(m, G2), ix, bf, b, i - 8, sz)
              && Live(m'.mem, b, i - 8, sz) == [Reg(m, G4)] + Live(m.mem, b, i, sz)
    ensures i == 0 ==>
              && Leads(PreCode(ix, bf), m, m1) && m1.pc == 9 && m1.mem == m.mem
              && Leads(PreCode(ix, bf), got, m') && QueueAt(m'.mem, Reg(m, G2), ix, bf, b', i' - 8, sz')
              && Live(m'.mem, b', i' - 8, sz') == [Reg(m, G4)] + Live(got.mem, b', i', sz')
  {
    var p := PreCode(ix, bf);
    m1 := m;
    if i > 0 {
      m' := TailEnqueues(p, 0, ix, bf, G4, G1, G3, m, b, i, sz);
    } else {
      m1 := TailCalls(p, 0, ix, bf, G4, G1, G3, m, b, sz);
      m' := TailRefills(p, 0, ix, bf, G4, G1, G3, Reg(m, G4), Reg(m, G2), got, b', i', sz');
    }
  }

  // ---------------------------------------------------------------------
  // The post barrier: the card is read, fenced and read again before the tail.

  const YOUNG: int := 32
  const YOUNG_CARD: int := 11
  const NOT_DIRTY: int := 13

  function HeadCode(base: int): seq<Instr> {
    [Arith(SrlxOp, G4, Imm(9), G4),
     Arith(AddOp, 0, Imm(base), G5),
     Ld(G4, R(G5), G1),
     ArithCc(SubOp, G1, Imm(YOUNG), 0),
     Br(Equal, false, false, YOUNG_CARD),
     NOP,
     NOP,                                  // the fence
     Ld(G4, R(G5), G1),
     ArithCc(SubOp, G1, R(0), 0),
     Br(NotEqual, false, false, NOT_DIRTY),
     NOP,
     Br(Always, false, false, DONE),       // young card, or dirty already
     NOP,
     Arith(AddOp, G4, R(G5), G3),          // not dirty
     St(0, G3, Imm(0))]
  }

  function PostCode(base: int, ix: int, bf: int): (p: seq<Instr>)
    ensures HasTail(p, 15, ix, bf, G3, G5, G1)
  {
    var p := HeadCode(base) + TailCode(15, ix, bf, G3, G5, G1);
    assert p[15..26] == TailCode(15, ix, bf, G3, G5, G1);
    p
  }

  /** The address of the card of a store at addr. */
  function CardAddr(base: int, addr: int): int {
    base + addr / 512
  }

  predicate CardAt(mem: map<int, int>, base: int, addr: int) {
    && 0 <= addr < 0x4000_0000_0000_0000 && 0 <= base < 0x2000_0000_0000_0000
    && CardAddr(base, addr) in mem && 0 <= mem[CardAddr(base, addr)] < 256
  }

  lemma HeadAt(base: int, ix: int, bf: int, j: nat)
    requires j < 15
    ensures j < |PostCode(base, ix, bf)| && PostCode(base, ix, bf)[j] == HeadCode(base)[j]
  {
  }

  lemma ShiftedCard(addr: int)
    requires 0 <= addr < 0x4000_0000_0000_0000
    ensures Compute(SrlxOp, addr, 9) == addr / 512
  {
    assert Pow2(9) == 512 by { assert Pow2(8) == 256; }
  }

  /** The card's address: its number in G4, the table's base in G5. */
  lemma FindCard(base: int, ix: int, bf: int, m: Machine, addr: int) returns (m2: Machine)
    requires m.pc == 0 && m.npc == 1 && Reg(m, G4) == addr && 0 <= addr < 0x4000_0000_0000_0000
    requires 0 <= base < 0x2000_0000_0000_0000
    ensures Leads(PostCode(base, ix, bf), m, m2) && m2 == m.(pc := 2, npc := 3, regs := m.regs[G4 := addr / 512][G5 := base])
  {
    HeadAt(base, ix, bf, 0);
    HeadAt(base, ix, bf, 1);
    ShiftedCard(addr);
    var m1 := m.(pc := 1, npc := 2, regs := m.regs[G4 := addr / 512]);
    m2 := m1.(pc := 2, npc := 3, regs := m1.regs[G5 := base]);
    TwoSteps(PostCode(base, ix, bf), m, m1, m2);
  }

  /** The first look at the card, its number and the base in place: a young one
      returns at once. */
  lemma TestYoung(base: int, ix: int, bf: int, m: Machine, addr: int) returns (m': Machine)
    requires m.pc == 2 && m.npc == 3 && Reg(m, G4) == addr / 512 && Reg(m, G5) == base && CardAt(m.mem, base, addr)
    ensures Leads(PostCode(base, ix, bf), m, m') && m'.mem == m.mem && m'.npc == m'.pc + 1
    ensures m'.pc == (if m.mem[CardAddr(base, addr)] == YOUNG then YOUNG_CARD else 6)
    ensures Reg(m', G4) == addr / 512 && Reg(m', G5) == base && Reg(m', G2) == Reg(m, G2)
  {
    var p, c := PostCode(base, ix, bf), m.mem[CardAddr(base, addr)];
    HeadAt(base, ix, bf, 2);
    HeadAt(base, ix, bf, 3);
    HeadAt(base, ix, bf, 4);
    HeadAt(base, ix, bf, 5);
    var m3 := m.(pc := 3, npc := 4, regs := m.regs[G1 := c]);
    var m4 := m3.(pc := 4, npc := 5, regs := m3.regs[0 := c - YOUNG], cc := FromAlu(SubOp, c, YOUNG));
    TwoSteps(p, m, m3, m4);
    CompareCodes(c, YOUNG, false);
    var m5 := m4.(pc := 5, npc := if c == YOUNG then YOUNG_CARD else 6);
    m' := m5.(pc := m5.npc, npc := m5.npc + 1, regs := m5.regs[0 := 0]);
    TwoSteps(p, m4, m5, m');
    Trans(p, m, m4, m');
  }

  /** The second look: a dirty card falls through to the return. */
  lemma SecondLook(base: int, ix: int, bf: int, m: Machine, addr: int) returns (m': Machine)
    requires m.pc == 6 && m.npc == 7 && Reg(m, G4) == addr / 512 && Reg(m, G5) == base && CardAt(m.mem, base, addr)
    ensures Leads(PostCode(base, ix, bf), m, m') && m'.mem == m.mem && m'.npc == m'.pc + 1
    ensures m'.pc == (if m.mem[CardAddr(base, addr)] == 0 then YOUNG_CARD else NOT_DIRTY)
    ensures Reg(m', G4) == addr / 512 && Reg(m', G5) == base && Reg(m', G2) == Reg(m, G2)
  {
    var p, c := PostCode(base, ix, bf), m.mem[CardAddr(base, addr)];
    HeadAt(base, ix, bf, 6);
    HeadAt(base, ix, bf, 7);
    HeadAt(base, ix, bf, 8);
    HeadAt(base, ix, bf, 9);
    HeadAt(base, ix, bf, 10);
    var m1 := m.(pc := 7, npc := 8, regs := m.regs[0 := 0]);
    var m2 := m1.(pc := 8, npc := 9, regs := m1.regs[G1 := c]);
    TwoSteps(p, m, m1, m2);
    var m3 := m2.(pc := 9, npc := 10, regs := m2.regs[0 := c], cc := FromAlu(SubOp, c, 0));
    CompareCodes(c, 0, false);
    var m4 := m3.(pc := 10, npc := if c == 0 then 11 else NOT_DIRTY);
    TwoSteps(p, m2, m3, m4);
    Trans(p, m, m2, m4);
    m' := m4.(pc := m4.npc, npc := m4.npc + 1, regs := m4.regs[0 := 0]);
    OneStep(p, m4, m');
    Trans(p, m, m4, m');
  }

  lemma Returns(base: int, ix: int, bf: int, m: Machine) returns (m': Machine)
    requires m.pc == YOUNG_CARD && m.npc == YOUNG_CARD + 1
    ensures Leads(PostCode(base, ix, bf), m, m') && m'.pc == DONE && m'.mem == m.mem
  {
    HeadAt(base, ix, bf, 11);
    HeadAt(base, ix, bf, 12);
    var m1 := m.(pc := 12, npc := DONE);
    m' := m1.(pc := DONE, npc := DONE + 1, regs := m1.regs[0 := 0]);
    TwoSteps(PostCode(base, ix, bf), m, m1, m');
  }

  lemma Dirties(base: int, ix: int, bf: int, m: Machine, addr: int) returns (m': Machine)
    requires m.pc == NOT_DIRTY && m.npc == NOT_DIRTY + 1 && Reg(m, G4) == addr / 512 && Reg(m, G5) == base
    requires CardAt(m.mem, base, addr)
    ensures Leads(PostCode(base, ix, bf), m, m') && m'.pc == 15 && m'.npc == 16
    ensures m'.mem == m.mem[CardAddr(base, addr) := 0] && Reg(m', G3) == CardAddr(base, addr) && Reg(m', G2) == Reg(m, G2)
  {
    HeadAt(base, ix, bf, 13);
    HeadAt(base, ix, bf, 14);
    var c := CardAddr(base, addr);
    var m1 := m.(pc := 14, npc := 15, regs := m.regs[G3 := c]);
    m' := m1.(pc := 15, npc := 16, mem := m.mem[c := 0]);
    TwoSteps(PostCode(base, ix, bf), m, m1, m');
  }

  /** The post barrier stub up to its log: a card that is young or dirty returns with
      nothing changed; any other is dirtied, and the stub is at its tail with the
      card's address as the value to log. */
  lemma PostHead(base: int, ix: int, bf: int, m: Machine, addr: int) returns (m': Machine)
    requires m.pc == 0 && m.npc == 1 && Reg(m, G4) == addr && CardAt(m.mem, base, addr)
    ensures Leads(PostCode(base, ix, bf), m, m')
    ensures var c := CardAddr(base, addr);
      if m.mem[c] == YOUNG || m.mem[c] == 0 then m'.pc == DONE && m'.mem == m.mem
      else m'.pc == 15 && m'.npc == 16 && m'.mem == m.mem[c := 0] && Reg(m', G3) == c && Reg(m', G2) == Reg(m, G2)
  {
    var p, c := PostCode(base, ix, bf), m.mem[CardAddr(base, addr)];
    var m0 := FindCard(base, ix, bf, m, addr);
    var m1 := TestYoung(base, ix, bf, m0, addr);
    Trans(p, m, m0, m1);
    if c != YOUNG {
      var m2 := SecondLook(base, ix, bf, m1, addr);
      Trans(p, m, m1, m2);
      m1 := m2;
    }
    if c == YOUNG || c == 0 {
      m' := Returns(base, ix, bf, m1);
    } else {
      m' := Dirties(base, ix, bf, m1, addr);
    }
    Trans(p, m, m1, m');
  }

  /** The card lies outside the log and the thread's words for it. */
  predicate CardApart(c: int, t: int, ix: int, bf: int, b: int, sz: int) {
    c != t + ix && c != t + bf && !(b <= c < b + sz)
  }

  lemma DirtiedLog(mem: map<int, int>, c: int, t: int, ix: int, bf: int, b: int, i: int, sz: int)
    requires QueueAt(mem, t, ix, bf, b, i, sz) && CardApart(c, t, ix, bf, b, sz)
    ensures QueueAt(mem[c := 0], t, ix, bf, b, i, sz) && Live(mem[c := 0], b, i, sz) == Live(mem, b, i, sz)
  {
    LiveSame(mem, mem[c := 0], b, i, sz);
  }

  /** The post barrier stub on a card that is neither young nor dirty, with room in
      the log: it returns with the card dirty, its address logged, and the rest of
      memory kept. */
  lemma PostLogs(base: int, ix: int, bf: int, m: Machine, addr: int, b: int, i: int, sz: int) returns (m': Machine)
    requires m.pc == 0 && m.npc == 1 && Reg(m, G4) == addr && CardAt(m.mem, base, addr)
    requires var c := CardAddr(base, addr); m.mem[c] != YOUNG && m.mem[c] != 0 && CardApart(c, Reg(m, G2), ix, bf, b, sz)
    requires QueueAt(m.mem, Reg(m, G2), ix, bf, b, i, sz) && i > 0
    ensures Leads(PostCode(base, ix, bf), m, m') && m'.pc == DONE
    ensures var c := CardAddr(base, addr);
      && m'.mem == m.mem[c := 0][b + i - 8 := c][Reg(m, G2) + ix := i - 8] && m'.mem[c] == 0
      && QueueAt(m'.mem, Reg(m, G2), ix, bf, b, i - 8, sz) && Live(m'.mem, b, i - 8, sz) == [c] + Live(m.mem, b, i, sz)
  {
    var p, c, t := PostCode(base, ix, bf), CardAddr(base, addr), Reg(m, G2);
    var m1 := PostHead(base, ix, bf, m, addr);
    DirtiedLog(m.mem, c, t, ix, bf, b, i, sz);
    m' := TailEnqueues(p, 15, ix, bf, G3, G5, G1, m1, b, i, sz);
    Trans(p, m, m1, m');
  }

  /** The same without room: the stub is at the refill call, instruction 24, with the
      card dirty and nothing else changed; from what the call leaves it logs the card
      and returns, and the card is dirty still unless the call itself cleaned it. */
  lemma PostRefills(base: int, ix: int, bf: int, m: Machine, addr: int, b: int, sz: int, got: Machine, b': int, i': int, sz': int)
    returns (m1: Machine, m': Machine)
    requires m.pc == 0 && m.npc == 1 && Reg(m, G4) == addr && CardAt(m.mem, base, addr)
    requires var c := CardAddr(base, addr); m.mem[c] != YOUNG && m.mem[c] != 0 && CardApart(c, Reg(m, G2), ix, bf, b, sz)
    requires QueueAt(m.mem, Reg(m, G2), ix, bf, b, 0, sz)
    requires Refilled(got, 15, G3, CardAddr(base, addr), Reg(m, G2), ix, bf, b', i', sz')
    ensures var p, c := PostCode(base, ix, bf), CardAddr(base, addr);
      && Leads(p, m, m1) && m1.pc == 24 && m1.mem == m.mem[c := 0] && Reg(m1, G3) == c && Reg(m1, G2) == Reg(m, G2)
      && Leads(p, got, m') && m'.pc == DONE && m'.mem == got.mem[b' + i' - 8 := c][Reg(m, G2) + ix := i' - 8]
      && QueueAt(m'.mem, Reg(m, G2), ix, bf, b', i' - 8, sz') && Live(m'.mem, b', i' - 8, sz') == [c] + Live(got.mem, b', i', sz')
      && (CardApart(c, Reg(m, G2), ix, bf, b', sz') && c in got.mem ==> m'.mem[c] == got.mem[c])
  {
    var p, c, t := PostCode(base, ix, bf), CardAddr(base, addr), Reg(m, G2);
    var m0 := PostHead(base, ix, bf, m, addr);
    DirtiedLog(m.mem, c, t, ix, bf, b, 0, sz);
    m1 := TailCalls(p, 15, ix, bf, G3, G5, G1, m0, b, sz);
    Trans(p, m, m0, m1);
    m' := TailRefills(p, 15, ix, bf, G3, G5, G1, c, t, got, b', i', sz');
  }
}
