/** Thin locking as an interleaving of atomic steps.

    Any number of threads run the emitted fast paths of lock_object and
    unlock_object on any objects; every load, store and compare-and-swap is one
    step.  The runtime behind slow_case is an environment that may rewrite the
    header of an object no thread holds and inflate an object that is held. */
module ThinLock {
  import opened Bits

  const WORD: int := 0x1_0000_0000_0000_0000

  type Word = w: int | 0 <= w < WORD

  /** A lock a thread has taken and not released.  `header` is the mark word the
      acquiring compare-and-swap replaced; it is 0 for a recursive acquisition. */
  datatype Record = Record(box: Word, obj: nat, header: Word)

  /** Where a thread stands in the emitted code: each constructor names the next
      memory access, and carries the registers that are live there. */
  datatype Pc =
    | Idle
    | LoadMark(obj: nat, box: Word)
    | StoreObj(obj: nat, box: Word, mark: Word)
    | StoreHeader(obj: nat, box: Word, mark: Word)
    | CasLock(obj: nat, box: Word, mark: Word)
    | StoreMasked(obj: nat, box: Word, seen: Word)
    | LoadHeader(box: Word)
    | LoadObj(box: Word, header: Word)
    | CasUnlock(box: Word, header: Word, obj: nat)

  /** [lo, hi) is the thread's stack; sp is the (biased) stack pointer register. */
  datatype Thread = Thread(lo: Word, hi: Word, sp: Word, held: seq<Record>, pc: Pc)

  /** `headers` and `objs` are the two fields of the lock boxes, by box address. */
  datatype State = State(bias: nat, marks: seq<Word>, headers: map<Word, Word>,
                         objs: map<Word, nat>, threads: seq<Thread>)

  // ----- the arithmetic of the emitted code -----

  /** The lowest bit of a mark, read off its two lock bits. */
  predicate Odd(m: Word) {
    m % 4 == 1 || m % 4 == 3
  }

  /** The mark with the unlocked bit set. */
  function SetUnlocked(m: Word): Word {
    if Odd(m) then m else m + 1
  }

  /** The distance from SP under the mask 0xfffff003, an immediate that
      sign-extends to -4093. */
  function Masked(seen: Word, sp: Word): int {
    And(Distance(seen, sp), -4093)
  }

  /** seen - sp in word arithmetic. */
  function Distance(seen: Word, sp: Word): (d: Word)
    ensures d % 4 == (seen - sp) % 4
  {
    if seen >= sp then seen - sp else seen - sp + WORD
  }

  lemma MaskForm(d: int)
    ensures And(d, -4093) == d - d / 4 % 1024 * 4
  {
    var q := d / 4;
    assert Pow2(10) == 1024;
    AndHighMask(q, 10);
    if d == 0 || d == -1 {
    } else {
      var h := d / 2;
      assert And(d, -4093) == d % 2 + 2 * And(h, -2047);
      if h == 0 || h == -1 {
      } else {
        assert And(h, -2047) == h % 2 + 2 * And(h / 2, -1024);
        assert h / 2 == q;
      }
    }
  }

  lemma MaskZero(d: int)
    requires 0 <= d
    ensures 0 <= And(d, -4093) <= d
    ensures And(d, -4093) == 0 <==> d < 4096 && d % 4 == 0
  {
    MaskForm(d);
    MaskArith(d, And(d, -4093));
  }

  lemma MaskArith(d: int, m: int)
    requires 0 <= d && m == d - d / 4 % 1024 * 4
    ensures 0 <= m <= d && (m == 0 <==> d < 4096 && d % 4 == 0)
  {
    var q := d / 4;
    assert q == 1024 * (q / 1024) + q % 1024;
    assert m == 4096 * (q / 1024) + d % 4;
  }

  /** The mask test passes exactly on the word-aligned distances 0, 4, .., 4092. */
  lemma MaskTest(seen: Word, sp: Word)
    ensures 0 <= Masked(seen, sp) < WORD
    ensures Masked(seen, sp) == 0 <==> Distance(seen, sp) < 4096 && (seen - sp) % 4 == 0
  {
    MaskZero(Distance(seen, sp));
  }

  /** What the test does to a header (low bits not 00): with a bias that is a
      multiple of four it rejects every header; otherwise it accepts exactly those
      that lie numerically within 4096 bytes above SP and are off by the bias. */
  lemma MaskTestOnHeaders(bias: nat, header: Word, sp: Word)
    requires (sp + bias) % 4 == 0 && header % 4 != 0
    ensures Masked(header, sp) == 0 <==> Distance(header, sp) < 4096 && (header + bias) % 4 == 0
    ensures bias % 4 == 0 ==> Masked(header, sp) != 0
  {
    MaskTest(header, sp);
    BiasModFour(header, sp, bias);
  }

  lemma BiasModFour(m: int, sp: int, bias: int)
    requires (sp + bias) % 4 == 0
    ensures (m - sp) % 4 == (m + bias) % 4
    ensures bias % 4 == 0 ==> (m + bias) % 4 == m % 4
    ensures m % 4 == 0 ==> (m + bias) % 4 == bias % 4
  {
    ModPlus(m - sp, 4, (sp + bias) / 4);
    ModPlus(m, 4, bias / 4);
    ModPlus(bias, 4, m / 4);
  }

  // ----- steps -----

  datatype Action =
    | StartLock(t: nat, obj: nat, box: Word)
    | StartUnlock(t: nat)
    | Step(t: nat)
    | MoveSp(t: nat, sp: Word)
    | Rewrite(obj: nat, mark: Word)
    | Inflate(obj: nat, mark: Word)

  predicate InStack(th: Thread, a: Word) {
    th.lo <= a < th.hi
  }

  /** The stack pointer is word aligned once unbiased, and the 4096 bytes above
      the register's value belong to the thread's own stack. */
  predicate SpOk(bias: nat, th: Thread, sp: Word) {
    (sp + bias) % 4 == 0 && th.lo <= sp && sp + 4096 <= th.hi
  }

  predicate HoldsIn(held: seq<Record>, o: nat) {
    exists i :: 0 <= i < |held| && held[i].obj == o
  }

  ghost predicate Holds(s: State, t: nat, o: nat) {
    t < |s.threads| && HoldsIn(s.threads[t].held, o)
  }

  /** A mark that is not a box address.  When the stack bias is not a multiple of
      the word size the mask test no longer rejects headers by their low bits, so
      there headers must also lie outside every stack numerically. */
  ghost predicate FreeMark(s: State, m: Word) {
    (m % 4 != 0 || m == 0) &&
    (s.bias % 4 != 0 ==> forall t :: 0 <= t < |s.threads| ==> !InStack(s.threads[t], m))
  }

  predicate Inflated(m: Word) {
    m == 0 || m % 4 == 2
  }

  predicate FreshBox(th: Thread, box: Word) {
    InStack(th, box) && box % 4 == 0 && forall i :: 0 <= i < |th.held| ==> th.held[i].box != box
  }

  ghost predicate Enabled(s: State, a: Action) {
    match a
    case StartLock(t, o, box) =>
      t < |s.threads| && s.threads[t].pc == Idle && o < |s.marks| && FreshBox(s.threads[t], box)
    case StartUnlock(t) =>
      t < |s.threads| && s.threads[t].pc == Idle && s.threads[t].held != []
    case Step(t) =>
      t < |s.threads| && s.threads[t].pc != Idle && Ready(s, s.threads[t].pc)
    case MoveSp(t, sp) =>
      t < |s.threads| && s.threads[t].pc == Idle && SpOk(s.bias, s.threads[t], sp)
    case Rewrite(o, m) =>
      o < |s.marks| && FreeMark(s, m) && forall t :: 0 <= t < |s.threads| ==> !Holds(s, t, o)
    case Inflate(o, m) =>
      o < |s.marks| && FreeMark(s, m) && Inflated(m) && exists t :: 0 <= t < |s.threads| && Holds(s, t, o)
  }

  /** The memory the next access touches exists. */
  predicate Ready(s: State, pc: Pc) {
    match pc
    case LoadMark(o, _) => o < |s.marks|
    case CasLock(o, _, _) => o < |s.marks|
    case LoadHeader(box) => box in s.headers
    case LoadObj(box, _) => box in s.objs
    case CasUnlock(_, _, o) => o < |s.marks|
    case _ => true
  }

  function SetPc(s: State, t: nat, pc: Pc): State
    requires t < |s.threads|
  {
    s.(threads := s.threads[t := s.threads[t].(pc := pc)])
  }

  function Acquire(s: State, t: nat, r: Record): State
    requires t < |s.threads|
  {
    s.(threads := s.threads[t := s.threads[t].(pc := Idle, held := s.threads[t].held + [r])])
  }

  function Release(s: State, t: nat): State
    requires t < |s.threads|
  {
    var held := s.threads[t].held;
    s.(threads := s.threads[t := s.threads[t].(pc := Idle, held := if held == [] then [] else held[..|held| - 1])])
  }

  /** One memory access of thread t, with the register instructions up to the next. */
  function Access(s: State, t: nat): State
    requires t < |s.threads| && Ready(s, s.threads[t].pc)
  {
    var th := s.threads[t];
    match th.pc
    case Idle => s
    case LoadMark(o, box) => SetPc(s, t, StoreObj(o, box, s.marks[o]))
    case StoreObj(o, box, m) => SetPc(s.(objs := s.objs[box := o]), t, StoreHeader(o, box, SetUnlocked(m)))
    case StoreHeader(o, box, m) => SetPc(s.(headers := s.headers[box := m]), t, CasLock(o, box, m))
    case CasLock(o, box, m) =>
      if s.marks[o] == m then Acquire(s.(marks := s.marks[o := box]), t, Record(box, o, m))
      else SetPc(s, t, StoreMasked(o, box, s.marks[o]))
    case StoreMasked(o, box, seen) =>
      MaskTest(seen, th.sp);
      var masked: Word := Masked(seen, th.sp);
      var s' := s.(headers := s.headers[box := masked]);
      // notZero branches to slow_case, which acquires nothing; the store is in its delay slot
      if masked == 0 then Acquire(s', t, Record(box, o, 0)) else SetPc(s', t, Idle)
    case LoadHeader(box) =>
      if s.headers[box] == 0 then Release(s, t) else SetPc(s, t, LoadObj(box, s.headers[box]))
    case LoadObj(box, h) => SetPc(s, t, CasUnlock(box, h, s.objs[box]))
    case CasUnlock(box, h, o) =>
      // on a mismatch slow_case leaves the inflated monitor; the box is given up either way
      if s.marks[o] == box then Release(s.(marks := s.marks[o := h]), t) else Release(s, t)
  }

  ghost function Do(s: State, a: Action): State
    requires Enabled(s, a)
  {
    match a
    case StartLock(t, o, box) => SetPc(s, t, LoadMark(o, box))
    case StartUnlock(t) => SetPc(s, t, LoadHeader(s.threads[t].held[|s.threads[t].held| - 1].box))
    case Step(t) => Access(s, t)
    case MoveSp(t, sp) => s.(threads := s.threads[t := s.threads[t].(sp := sp)])
    case Rewrite(o, m) => s.(marks := s.marks[o := m])
    case Inflate(o, m) => s.(marks := s.marks[o := m])
  }

  // ----- invariant -----

  /** Record i is the outermost acquisition of its object. */
  predicate Outermost(held: seq<Record>, i: nat)
    requires i < |held|
  {
    forall j :: 0 <= j < i ==> held[j].obj != held[i].obj
  }

  ghost predicate RecordOk(s: State, th: Thread, i: nat)
    requires i < |th.held|
  {
    var r := th.held[i];
    && InStack(th, r.box) && r.box % 4 == 0
    && r.box in s.headers && r.box in s.objs && s.objs[r.box] == r.obj && r.obj < |s.marks|
    && s.headers[r.box] == r.header
    && (if Outermost(th.held, i)
        then Odd(r.header) && FreeMark(s, r.header) && (s.marks[r.obj] == r.box || Inflated(s.marks[r.obj]))
        else r.header == 0)
  }

  ghost predicate PcOk(s: State, th: Thread) {
    match th.pc
    case Idle => true
    case LoadMark(o, box) => o < |s.marks| && FreshBox(th, box)
    case StoreObj(o, box, _) => o < |s.marks| && FreshBox(th, box)
    case StoreHeader(o, box, m) => o < |s.marks| && FreshBox(th, box) && box in s.objs && s.objs[box] == o && Odd(m)
    case CasLock(o, box, m) =>
      && o < |s.marks| && FreshBox(th, box) && box in s.objs && s.objs[box] == o && Odd(m)
      && box in s.headers && s.headers[box] == m
    case StoreMasked(o, box, seen) =>
      && o < |s.marks| && FreshBox(th, box) && box in s.objs && s.objs[box] == o
      && (Masked(seen, th.sp) == 0 ==> HoldsIn(th.held, o) && InStack(th, seen) && s.bias % 4 == 0)
    case LoadHeader(box) => th.held != [] && box == th.held[|th.held| - 1].box
    case LoadObj(box, h) => th.held != [] && box == th.held[|th.held| - 1].box && h == th.held[|th.held| - 1].header && h != 0
    case CasUnlock(box, h, o) => th.held != [] && h != 0 && th.held[|th.held| - 1] == Record(box, o, h)
  }

  ghost predicate ThreadOk(s: State, th: Thread) {
    && 0 < th.lo <= th.hi && SpOk(s.bias, th, th.sp)
    && (forall i :: 0 <= i < |th.held| ==> RecordOk(s, th, i))
    && (forall i, j :: 0 <= i < j < |th.held| ==> th.held[i].box != th.held[j].box)
    && PcOk(s, th)
  }

  ghost predicate Owns(th: Thread, i: nat, o: nat, box: Word) {
    i < |th.held| && Outermost(th.held, i) && th.held[i].obj == o && th.held[i].box == box
  }

  /** A mark is a free one or the address of the box of some outermost record. */
  ghost predicate MarkOk(s: State, o: nat)
    requires o < |s.marks|
  {
    FreeMark(s, s.marks[o]) || exists t, i :: 0 <= t < |s.threads| && Owns(s.threads[t], i, o, s.marks[o])
  }

  ghost predicate Apart(th: Thread, th': Thread) {
    th.hi <= th'.lo || th'.hi <= th.lo
  }

  ghost predicate Inv(s: State) {
    && (forall t, u :: 0 <= t < u < |s.threads| ==> Apart(s.threads[t], s.threads[u]))
    && (forall t :: 0 <= t < |s.threads| ==> ThreadOk(s, s.threads[t]))
    && (forall o :: 0 <= o < |s.marks| ==> MarkOk(s, o))
    && (forall t, u, o :: Holds(s, t, o) && Holds(s, u, o) ==> t == u)
  }

  // ----- preservation -----

  ghost predicate SameStacks(s: State, s': State) {
    && s'.bias == s.bias && |s'.marks| == |s.marks| && |s'.threads| == |s.threads|
    && forall t :: 0 <= t < |s.threads| ==> s'.threads[t].lo == s.threads[t].lo && s'.threads[t].hi == s.threads[t].hi
  }

  /** Boxes inside the stack of `th` read the same in both states. */
  ghost predicate SameBoxes(s: State, s': State, th: Thread) {
    forall b: Word :: InStack(th, b) ==>
      && (b in s.headers ==> b in s'.headers && s'.headers[b] == s.headers[b])
      && (b in s.objs ==> b in s'.objs && s'.objs[b] == s.objs[b])
  }

  /** The marks of the objects `th` holds are unchanged or inflated. */
  ghost predicate KeepsMarks(s: State, s': State, th: Thread)
    requires |s'.marks| == |s.marks|
  {
    forall o :: 0 <= o < |s.marks| && HoldsIn(th.held, o) ==> s'.marks[o] == s.marks[o] || Inflated(s'.marks[o])
  }

  lemma FrameRecords(s: State, s': State, th: Thread)
    requires SameStacks(s, s') && SameBoxes(s, s', th) && KeepsMarks(s, s', th)
    requires forall i :: 0 <= i < |th.held| ==> RecordOk(s, th, i)
    ensures forall i :: 0 <= i < |th.held| ==> RecordOk(s', th, i)
  {
    forall i | 0 <= i < |th.held|
      ensures RecordOk(s', th, i)
    {
      assert RecordOk(s, th, i);
      assert HoldsIn(th.held, th.held[i].obj);
    }
  }

  lemma FrameThread(s: State, s': State, th: Thread)
    requires ThreadOk(s, th)
    requires SameStacks(s, s') && SameBoxes(s, s', th) && KeepsMarks(s, s', th)
    ensures ThreadOk(s', th)
  {
    FrameRecords(s, s', th);
  }

  /** Rebuilds the invariant after a step of thread t from what the step changed. */
  lemma Reassemble(s: State, s': State, t: nat)
    requires Inv(s) && SameStacks(s, s') && t < |s.threads|
    requires forall u :: 0 <= u < |s.threads| && u != t ==>
      s'.threads[u] == s.threads[u] && SameBoxes(s, s', s.threads[u]) && KeepsMarks(s, s', s.threads[u])
    requires ThreadOk(s', s'.threads[t])
    requires forall o :: 0 <= o < |s'.marks| ==> MarkOk(s', o)
    requires forall u, o :: u != t && Holds(s', t, o) ==> !Holds(s, u, o)
    ensures Inv(s')
  {
    forall u | 0 <= u < |s'.threads|
      ensures ThreadOk(s', s'.threads[u])
    {
      if u != t {
        FrameThread(s, s', s.threads[u]);
      }
    }
    forall u, v | 0 <= u < v < |s'.threads|
      ensures Apart(s'.threads[u], s'.threads[v])
    {
      assert Apart(s.threads[u], s.threads[v]);
    }
    forall u, v, o | Holds(s', u, o) && Holds(s', v, o)
      ensures u == v
    {
      assert u != t ==> Holds(s, u, o);
      assert v != t ==> Holds(s, v, o);
    }
  }

  /** The step writes at most `box`, and only when it is a fresh box of `th`. */
  ghost predicate BoxStep(s: State, s': State, th: Thread, box: Word) {
    if FreshBox(th, box) then s'.headers - {box} == s.headers - {box} && s'.objs - {box} == s.objs - {box}
    else s'.headers == s.headers && s'.objs == s.objs
  }

  lemma BoxStepSame(s: State, s': State, th: Thread, box: Word, b: Word)
    requires BoxStep(s, s', th, box) && b != box
    ensures b in s.headers ==> b in s'.headers && s'.headers[b] == s.headers[b]
    ensures b in s.objs ==> b in s'.objs && s'.objs[b] == s.objs[b]
  {
    assert b in s.headers ==> b in s.headers - {box} && (s.headers - {box})[b] == s.headers[b];
    assert b in s.objs ==> b in s.objs - {box} && (s.objs - {box})[b] == s.objs[b];
  }

  /** A box inside thread t's stack is in no other stack. */
  lemma OtherBoxes(s: State, s': State, t: nat, box: Word)
    requires Inv(s) && t < |s.threads| && BoxStep(s, s', s.threads[t], box)
    ensures forall u :: 0 <= u < |s.threads| && u != t ==> SameBoxes(s, s', s.threads[u])
  {
    forall u | 0 <= u < |s.threads| && u != t
      ensures SameBoxes(s, s', s.threads[u])
    {
      assert Apart(s.threads[if t < u then t else u], s.threads[if t < u then u else t]);
      forall b: Word | InStack(s.threads[u], b)
        ensures b in s.headers ==> b in s'.headers && s'.headers[b] == s.headers[b]
        ensures b in s.objs ==> b in s'.objs && s'.objs[b] == s.objs[b]
      {
        if FreshBox(s.threads[t], box) {
          BoxStepSame(s, s', s.threads[t], box, b);
        }
      }
    }
  }

  /** Steps that leave marks and held records alone. */
  lemma LocalStep(s: State, s': State, t: nat, box: Word, th': Thread)
    requires Inv(s) && t < |s.threads| && BoxStep(s, s', s.threads[t], box)
    requires s' == State(s.bias, s.marks, s'.headers, s'.objs, s.threads[t := th'])
    requires th' == Thread(s.threads[t].lo, s.threads[t].hi, th'.sp, s.threads[t].held, th'.pc)
    requires SpOk(s.bias, th', th'.sp) && PcOk(s', th')
    ensures Inv(s')
  {
    var th := s.threads[t];
    OtherBoxes(s, s', t, box);
    forall i | 0 <= i < |th.held|
      ensures RecordOk(s', th', i)
    {
      assert RecordOk(s, th, i);
      if FreshBox(th, box) {
        BoxStepSame(s, s', th, box, th.held[i].box);
      }
    }
    forall o | 0 <= o < |s.marks|
      ensures MarkOk(s', o)
    {
      SameOwners(s, s', o);
    }
    forall u, o | u != t && Holds(s', t, o)
      ensures !Holds(s, u, o)
    {
      assert Holds(s, t, o);
    }
    Reassemble(s, s', t);
  }

  lemma SameOwners(s: State, s': State, o: nat)
    requires o < |s.marks| && MarkOk(s, o) && SameStacks(s, s') && s'.marks[o] == s.marks[o]
    requires forall t :: 0 <= t < |s.threads| ==> s.threads[t].held <= s'.threads[t].held
    ensures MarkOk(s', o)
  {
    if !FreeMark(s, s.marks[o]) {
      var t, i :| 0 <= t < |s.threads| && Owns(s.threads[t], i, o, s.marks[o]);
      assert Owns(s'.threads[t], i, o, s'.marks[o]);
    }
  }

  // ----- the steps of the emitted code -----

  /** A mark that passes the mask test is the address of a box in the tester's
      own stack, and the tester holds the object already. */
  lemma MaskTestSound(s: State, t: nat, o: nat)
    requires Inv(s) && t < |s.threads| && o < |s.marks|
    requires Masked(s.marks[o], s.threads[t].sp) == 0
    ensures InStack(s.threads[t], s.marks[o]) && Holds(s, t, o) && s.bias % 4 == 0
  {
    var th, m := s.threads[t], s.marks[o];
    assert ThreadOk(s, th) && MarkOk(s, o);
    PassingMark(s.bias, m, th);
    assert !FreeMark(s, m);
    var u, i :| 0 <= u < |s.threads| && Owns(s.threads[u], i, o, m);
    assert ThreadOk(s, s.threads[u]);
    assert RecordOk(s, s.threads[u], i);
    StackUnique(s, t, u, m);
  }

  /** A mark that passes lies in the tester's window; it is a box address exactly
      when the bias is a multiple of four. */
  lemma PassingMark(bias: nat, m: Word, th: Thread)
    requires Masked(m, th.sp) == 0 && SpOk(bias, th, th.sp) && 0 < th.lo
    ensures InStack(th, m) && m != 0 && (m % 4 == 0 <==> bias % 4 == 0)
  {
    MaskTest(m, th.sp);
    BiasModFour(m, th.sp, bias);
  }

  lemma StackUnique(s: State, t: nat, u: nat, a: Word)
    requires Inv(s) && t < |s.threads| && u < |s.threads|
    requires InStack(s.threads[t], a) && InStack(s.threads[u], a)
    ensures t == u
  {
    assert t < u ==> Apart(s.threads[t], s.threads[u]);
    assert u < t ==> Apart(s.threads[u], s.threads[t]);
  }

  /** The compare-and-swap found the header it expected: nobody holds the object,
      and the thread's box now holds the replaced mark. */
  lemma CasAcquires(s: State, t: nat)
    requires Inv(s) && Enabled(s, Step(t)) && s.threads[t].pc.CasLock?
    requires s.marks[s.threads[t].pc.obj] == s.threads[t].pc.mark
    ensures forall u :: 0 <= u < |s.threads| ==> !Holds(s, u, s.threads[t].pc.obj)
    ensures Inv(Do(s, Step(t)))
  {
    var th, s' := s.threads[t], Do(s, Step(t));
    var CasLock(o, box, m) := th.pc;
    var th' := s'.threads[t];
    OddMarkFree(s, o);
    forall i | 0 <= i < |th'.held|
      ensures RecordOk(s', th', i)
    {
      if i < |th.held| {
        assert RecordOk(s, th, i);
        assert HoldsIn(th.held, th.held[i].obj);
        OutermostPrefix(th.held, th'.held, i);
      } else {
        assert !Holds(s, t, o);
      }
    }
    forall p | 0 <= p < |s.marks|
      ensures MarkOk(s', p)
    {
      if p == o {
        assert !Holds(s, t, o);
        assert Owns(th', |th.held|, o, box);
      } else {
        SameOwners(s, s', p);
      }
    }
    forall u, p | u != t && Holds(s', t, p)
      ensures !Holds(s, u, p)
    {
      assert p != o ==> Holds(s, t, p);
    }
    OthersKeepMarks(s, s', t, o);
    Reassemble(s, s', t);
  }

  /** An object with an odd mark is held by nobody. */
  lemma OddMarkFree(s: State, o: nat)
    requires Inv(s) && o < |s.marks| && Odd(s.marks[o])
    ensures FreeMark(s, s.marks[o])
    ensures forall u :: !Holds(s, u, o)
  {
    forall u: nat ensures !Holds(s, u, o) {
      HeldMarkEven(s, u, o);
    }
    assert MarkOk(s, o);
    forall t, i | 0 <= t < |s.threads| && Owns(s.threads[t], i, o, s.marks[o])
      ensures Holds(s, t, o)
    {
    }
  }

  lemma HeldMarkEven(s: State, u: nat, o: nat)
    requires Inv(s) && o < |s.marks|
    ensures Holds(s, u, o) ==> !Odd(s.marks[o])
  {
    if Holds(s, u, o) {
      assert ThreadOk(s, s.threads[u]);
      var i := FirstRecord(s.threads[u].held, o);
      OutermostMarkEven(s, s.threads[u], i);
    }
  }

  lemma OutermostMarkEven(s: State, th: Thread, i: nat)
    requires i < |th.held| && RecordOk(s, th, i) && Outermost(th.held, i)
    ensures !Odd(s.marks[th.held[i].obj])
  {
  }

  lemma OutermostPrefix(held: seq<Record>, held': seq<Record>, i: nat)
    requires held <= held' && i < |held|
    ensures Outermost(held, i) == Outermost(held', i)
  {
    assert forall j :: 0 <= j <= i ==> held'[j] == held[j];
  }

  /** What the other threads see of a change to the mark of an object they do not hold. */
  lemma OthersKeepMarks(s: State, s': State, t: nat, o: nat)
    requires |s'.marks| == |s.marks|
    requires forall p :: 0 <= p < |s.marks| && p != o ==> s'.marks[p] == s.marks[p]
    requires forall u :: u != t ==> !Holds(s, u, o)
    ensures forall u :: 0 <= u < |s.threads| && u != t ==> KeepsMarks(s, s', s.threads[u])
  {
    forall u | 0 <= u < |s.threads| && u != t
      ensures KeepsMarks(s, s', s.threads[u])
    {
      assert !Holds(s, u, o);
    }
  }

  lemma FirstRecord(held: seq<Record>, o: nat) returns (i: nat)
    requires HoldsIn(held, o)
    ensures i < |held| && held[i].obj == o && Outermost(held, i)
  {
    i := 0;
    while held[i].obj != o
      invariant i < |held|
      invariant forall j :: 0 <= j < i ==> held[j].obj != o
      decreases |held| - i
    {
      i := i + 1;
    }
  }

  /** The store in the delay slot of the mask test: recursion or slow_case. */
  lemma MaskedStep(s: State, t: nat)
    requires Inv(s) && Enabled(s, Step(t)) && s.threads[t].pc.StoreMasked?
    ensures Inv(Do(s, Step(t)))
  {
    var th, s' := s.threads[t], Do(s, Step(t));
    var StoreMasked(o, box, seen) := th.pc;
    var th' := s'.threads[t];
    MaskTest(seen, th.sp);
    assert ThreadOk(s, th);
    if Masked(seen, th.sp) != 0 {
      LocalStep(s, s', t, box, th');
    } else {
      OtherBoxes(s, s', t, box);
      forall i | 0 <= i < |th'.held|
        ensures RecordOk(s', th', i)
      {
        if i < |th.held| {
          assert RecordOk(s, th, i);
          OutermostPrefix(th.held, th'.held, i);
        } else {
          var j := FirstRecord(th.held, o);
          assert th'.held[j].obj == o;
        }
      }
      forall p | 0 <= p < |s.marks|
        ensures MarkOk(s', p)
      {
        SameOwners(s, s', p);
      }
      forall u, p | u != t && Holds(s', t, p)
        ensures !Holds(s, u, p)
      {
        assert Holds(s, t, p);
      }
      Reassemble(s, s', t);
    }
  }

  ghost predicate Unlocked(s: State, t: nat, s': State)
    requires t < |s.threads| && s.threads[t].held != []
  {
    var r := s.threads[t].held[|s.threads[t].held| - 1];
    && r.obj < |s.marks|
    && s' == if r.header != 0 && s.marks[r.obj] == r.box
             then Release(s.(marks := s.marks[r.obj := r.header]), t)
             else Release(s, t)
  }

  /** Giving up the innermost record, after the mark has been put back or was inflated. */
  lemma ReleaseStep(s: State, t: nat, s': State)
    requires Inv(s) && t < |s.threads| && s.threads[t].held != []
    requires Unlocked(s, t, s')
    ensures Inv(s')
  {
    var th, th', k := s.threads[t], s'.threads[t], |s.threads[t].held| - 1;
    var r := th.held[k];
    assert RecordOk(s, th, k);
    assert HoldsIn(th.held, r.obj);
    forall i | 0 <= i < |th'.held|
      ensures RecordOk(s', th', i)
    {
      assert RecordOk(s, th, i);
      OutermostPrefix(th'.held, th.held, i);
    }
    forall u, p | u != t && Holds(s', t, p)
      ensures !Holds(s, u, p)
    {
      assert Holds(s, t, p);
    }
    forall p | 0 <= p < |s.marks|
      ensures MarkOk(s', p)
    {
      ReleaseMark(s, t, s', p);
    }
    assert Holds(s, t, r.obj);
    OthersKeepMarks(s, s', t, r.obj);
    Reassemble(s, s', t);
  }

  lemma ReleaseMark(s: State, t: nat, s': State, p: nat)
    requires Inv(s) && t < |s.threads| && s.threads[t].held != [] && p < |s.marks|
    requires Unlocked(s, t, s')
    ensures MarkOk(s', p)
  {
    var th, k := s.threads[t], |s.threads[t].held| - 1;
    assert MarkOk(s, p);
    assert RecordOk(s, th, k);
    if s'.marks[p] != s.marks[p] {
      assert FreeMark(s', s'.marks[p]);
    } else if !FreeMark(s, s.marks[p]) {
      var u, i :| 0 <= u < |s.threads| && Owns(s.threads[u], i, p, s.marks[p]);
      assert RecordOk(s, s.threads[u], i);
      assert u == t ==> i != k;
      assert Owns(s'.threads[u], i, p, s'.marks[p]);
    }
  }

  /** Every enabled action keeps the invariant. */
  lemma StepKeepsInv(s: State, a: Action)
    requires Inv(s) && Enabled(s, a)
    ensures Inv(Do(s, a))
  {
    var s' := Do(s, a);
    match a
    case StartLock(t, o, box) => LocalStep(s, s', t, box, s'.threads[t]);
    case StartUnlock(t) => LocalStep(s, s', t, 0, s'.threads[t]);
    case MoveSp(t, sp) => LocalStep(s, s', t, 0, s'.threads[t]);
    case Rewrite(o, m) => MarkStep(s, o, m);
    case Inflate(o, m) => MarkStep(s, o, m);
    case Step(t) => AccessKeepsInv(s, t);
  }

  lemma AccessKeepsInv(s: State, t: nat)
    requires Inv(s) && Enabled(s, Step(t))
    ensures Inv(Access(s, t))
  {
    var th, s' := s.threads[t], Do(s, Step(t));
    match th.pc
    case LoadMark(o, box) => LocalStep(s, s', t, box, s'.threads[t]);
    case StoreObj(o, box, m) => LocalStep(s, s', t, box, s'.threads[t]);
    case StoreHeader(o, box, m) => LocalStep(s, s', t, box, s'.threads[t]);
    case CasLock(o, box, m) => CasLockStep(s, t);
    case StoreMasked(o, box, seen) => MaskedStep(s, t);
    case _ => UnlockStep(s, t);
  }

  lemma CasLockStep(s: State, t: nat)
    requires Inv(s) && Enabled(s, Step(t)) && s.threads[t].pc.CasLock?
    ensures Inv(Access(s, t))
  {
    var th, s' := s.threads[t], Do(s, Step(t));
    var CasLock(o, box, m) := th.pc;
    if s.marks[o] == m {
      CasAcquires(s, t);
    } else {
      if Masked(s.marks[o], th.sp) == 0 {
        MaskTestSound(s, t, o);
      }
      LocalStep(s, s', t, box, s'.threads[t]);
    }
  }

  lemma UnlockStep(s: State, t: nat)
    requires Inv(s) && Enabled(s, Step(t))
    requires s.threads[t].pc.LoadHeader? || s.threads[t].pc.LoadObj? || s.threads[t].pc.CasUnlock?
    ensures Inv(Access(s, t))
  {
    var th, s' := s.threads[t], Do(s, Step(t));
    assert RecordOk(s, th, |th.held| - 1);
    if th.pc.CasUnlock? || (th.pc.LoadHeader? && s.headers[th.pc.box] == 0) {
      ReleaseStep(s, t, s');
    } else {
      LocalStep(s, s', t, 0, s'.threads[t]);
    }
  }

  /** The runtime rewrites an unheld header or inflates a held object. */
  lemma MarkStep(s: State, o: nat, m: Word)
    requires Inv(s) && o < |s.marks| && FreeMark(s, m)
    requires (forall t :: 0 <= t < |s.threads| ==> !Holds(s, t, o)) || Inflated(m)
    ensures Inv(s.(marks := s.marks[o := m]))
  {
    var s' := s.(marks := s.marks[o := m]);
    forall t | 0 <= t < |s.threads|
      ensures ThreadOk(s', s.threads[t])
    {
      assert !Holds(s, t, o) || Inflated(m);
      FrameThread(s, s', s.threads[t]);
    }
    forall p | 0 <= p < |s.marks|
      ensures MarkOk(s', p)
    {
      if p != o {
        SameOwners(s, s', p);
      }
    }
    forall t, u, p | Holds(s', t, p) && Holds(s', u, p)
      ensures t == u
    {
      assert Holds(s, t, p) && Holds(s, u, p);
    }
  }

  // ----- whole runs -----

  /** Threads start idle and lock-free, on disjoint stacks, over unlocked objects. */
  ghost predicate Init(s: State) {
    && (forall t, u :: 0 <= t < u < |s.threads| ==> Apart(s.threads[t], s.threads[u]))
    && (forall t :: 0 <= t < |s.threads| ==>
          var th := s.threads[t];
          0 < th.lo <= th.hi && SpOk(s.bias, th, th.sp) && th.held == [] && th.pc == Idle)
    && (forall o :: 0 <= o < |s.marks| ==> FreeMark(s, s.marks[o]))
  }

  /** A run: run[k + 1] follows from run[k] by acts[k]. */
  ghost predicate IsRun(run: seq<State>, acts: seq<Action>) {
    && |run| == |acts| + 1 && Init(run[0])
    && forall k :: 0 <= k < |acts| ==> Follows(run[k], acts[k], run[k + 1])
  }

  ghost predicate Follows(s: State, a: Action, s': State) {
    Enabled(s, a) && s' == Do(s, a)
  }

  ghost predicate StepsAt(run: seq<State>, acts: seq<Action>, k: nat, t: nat) {
    |run| == |acts| + 1 && k < |acts| && acts[k] == Step(t) && Follows(run[k], acts[k], run[k + 1])
  }

  lemma {:induction false} RunKeepsInv(run: seq<State>, acts: seq<Action>, k: nat)
    requires IsRun(run, acts) && k < |run|
    ensures Inv(run[k])
  {
    if k == 0 {
      forall o | 0 <= o < |run[0].marks|
        ensures MarkOk(run[0], o)
      {
      }
    } else {
      RunKeepsInv(run, acts, k - 1);
      assert Follows(run[k - 1], acts[k - 1], run[k]);
      StepKeepsInv(run[k - 1], acts[k - 1]);
    }
  }

  /** At no point of any run do two threads hold the same object. */
  lemma MutualExclusion(run: seq<State>, acts: seq<Action>, k: nat, t: nat, u: nat, o: nat)
    requires IsRun(run, acts) && k < |run|
    requires Holds(run[k], t, o) && Holds(run[k], u, o)
    ensures t == u
  {
    RunKeepsInv(run, acts, k);
  }

  /** In every run, the mask test of lock_object admits a thread to an object only
      if that thread holds it already, and then the mark it saw is in its own
      stack; a box sent to slow_case holds a nonzero header; and with a stack bias
      that is not a multiple of four the test admits nobody. */
  lemma RecursionTestSound(run: seq<State>, acts: seq<Action>, k: nat, t: nat)
    requires IsRun(run, acts) && StepsAt(run, acts, k, t) && run[k].threads[t].pc.StoreMasked?
    ensures var StoreMasked(o, box, seen) := run[k].threads[t].pc;
      if Masked(seen, run[k].threads[t].sp) == 0
      then Holds(run[k], t, o) && InStack(run[k].threads[t], seen) && run[k].bias % 4 == 0
           && run[k + 1].threads[t].held == run[k].threads[t].held + [Record(box, o, 0)]
      else run[k + 1].threads[t].held == run[k].threads[t].held && run[k + 1].headers[box] != 0
  {
    RunKeepsInv(run, acts, k);
    var s := run[k];
    var th := s.threads[t];
    assert ThreadOk(s, th);
    MaskTest(th.pc.seen, th.sp);
  }

  /** A thread inside the emitted code can always take its next step. */
  lemma NeverStuck(run: seq<State>, acts: seq<Action>, k: nat, t: nat)
    requires IsRun(run, acts) && k < |run| && t < |run[k].threads| && run[k].threads[t].pc != Idle
    ensures Enabled(run[k], Step(t))
  {
    RunKeepsInv(run, acts, k);
    var th := run[k].threads[t];
    assert ThreadOk(run[k], th);
    if th.held != [] {
      assert RecordOk(run[k], th, |th.held| - 1);
    }
  }

  /** How often `held` records o, and how often with a nonzero displaced header. */
  function Depth(held: seq<Record>, o: nat): nat {
    if held == [] then 0
    else Depth(held[..|held| - 1], o) + if held[|held| - 1].obj == o then 1 else 0
  }

  function Displaced(headers: map<Word, Word>, held: seq<Record>, o: nat): nat {
    if held == [] then 0
    else
      var r := held[|held| - 1];
      Displaced(headers, held[..|held| - 1], o) + if r.obj == o && r.box in headers && headers[r.box] != 0 then 1 else 0
  }

  lemma {:induction false} DisplacedPrefix(s: State, th: Thread, o: nat, n: nat)
    requires n <= |th.held| && forall i :: 0 <= i < n ==> RecordOk(s, th, i)
    ensures Displaced(s.headers, th.held[..n], o) == if HoldsIn(th.held[..n], o) then 1 else 0
    ensures Depth(th.held[..n], o) > 0 <==> HoldsIn(th.held[..n], o)
  {
    if n > 0 {
      DisplacedPrefix(s, th, o, n - 1);
      var held, r := th.held[..n], th.held[n - 1];
      assert held[..n - 1] == th.held[..n - 1];
      assert RecordOk(s, th, n - 1);
      assert r.obj != o ==> (HoldsIn(held, o) <==> HoldsIn(held[..n - 1], o));
      if r.obj == o {
        assert held[n - 1].obj == o;
        assert Outermost(th.held, n - 1) <==> !HoldsIn(held[..n - 1], o) by {
          assert forall j :: 0 <= j < n - 1 ==> held[..n - 1][j] == th.held[j];
        }
      }
    }
  }

  /** While a thread holds an object at depth n, exactly one of its n boxes holds a
      nonzero displaced header, so the other n - 1 hold 0. */
  lemma OneDisplacedHeader(run: seq<State>, acts: seq<Action>, k: nat, t: nat, o: nat)
    requires IsRun(run, acts) && k < |run| && Holds(run[k], t, o)
    ensures Depth(run[k].threads[t].held, o) >= 1
    ensures Displaced(run[k].headers, run[k].threads[t].held, o) == 1
  {
    RunKeepsInv(run, acts, k);
    var th := run[k].threads[t];
    assert th.held[..|th.held|] == th.held;
    DisplacedPrefix(run[k], th, o, |th.held|);
  }

  /** Records below the top of a thread's lock stack never change. */
  ghost predicate KeepsHeld(s: State, s': State, t: nat) {
    && t < |s.threads| && t < |s'.threads|
    && forall d :: 0 <= d < |s.threads[t].held| && d < |s'.threads[t].held| ==> s'.threads[t].held[d] == s.threads[t].held[d]
  }

  lemma HeldStep(s: State, a: Action, s': State, t: nat)
    requires Follows(s, a, s') && t < |s.threads|
    ensures KeepsHeld(s, s', t)
  {
  }

  lemma {:induction false} RecordPersists(run: seq<State>, i: nat, j: nat, t: nat, d: nat)
    requires i <= j < |run|
    requires forall k :: i <= k < j ==> KeepsHeld(run[k], run[k + 1], t)
    requires forall k :: i <= k <= j ==> t < |run[k].threads| && d < |run[k].threads[t].held|
    ensures run[j].threads[t].held[d] == run[i].threads[t].held[d]
    decreases j - i
  {
    if i < j {
      RecordPersists(run, i, j - 1, t, d);
      assert KeepsHeld(run[j - 1], run[j - 1 + 1], t);
    }
  }

  /** From the compare-and-swap that takes an object for as long as its record is
      held, the box keeps the mark the object had before: the one displaced header
      of the object is the pre-lock mark, also when the release goes to slow_case. */
  lemma DisplacedIsPreLock(run: seq<State>, acts: seq<Action>, i: nat, k: nat, t: nat)
    requires IsRun(run, acts) && i < k < |run| && StepsAt(run, acts, i, t)
    requires run[i].threads[t].pc.CasLock? && run[i].marks[run[i].threads[t].pc.obj] == run[i].threads[t].pc.mark
    requires var d := |run[i].threads[t].held|;
      forall j :: i < j <= k ==> t < |run[j].threads| && |run[j].threads[t].held| > d
    ensures var CasLock(o, box, _) := run[i].threads[t].pc;
      && run[k].threads[t].held[|run[i].threads[t].held|] == Record(box, o, run[i].marks[o])
      && box in run[k].headers && run[k].headers[box] == run[i].marks[o] && run[i].marks[o] != 0
      && Outermost(run[k].threads[t].held, |run[i].threads[t].held|)
  {
    var d := |run[i].threads[t].held|;
    RunKeepsInv(run, acts, i);
    RunKeepsInv(run, acts, k);
    CasAcquires(run[i], t);
    forall j | i < j < k
      ensures KeepsHeld(run[j], run[j + 1], t)
    {
      HeldStep(run[j], acts[j], run[j + 1], t);
    }
    RecordPersists(run, i + 1, k, t, d);
    assert ThreadOk(run[k], run[k].threads[t]);
    assert RecordOk(run[k], run[k].threads[t], d);
  }

  /** Header conservation over a whole critical section: if step i takes o with the
      compare-and-swap and step j is the matching release by compare-and-swap, the
      object's mark after j is bit for bit its mark before i, whatever the other
      threads and the nested acquisitions did in between. */
  lemma HeaderRestored(run: seq<State>, acts: seq<Action>, i: nat, j: nat, t: nat)
    requires IsRun(run, acts) && i < j && StepsAt(run, acts, i, t) && StepsAt(run, acts, j, t)
    requires run[i].threads[t].pc.CasLock? && run[i].marks[run[i].threads[t].pc.obj] == run[i].threads[t].pc.mark
    requires var d := |run[i].threads[t].held|;
      && (forall k :: i < k <= j ==> t < |run[k].threads| && |run[k].threads[t].held| > d)
      && |run[j].threads[t].held| == d + 1
    requires run[j].threads[t].pc.CasUnlock? && run[j].marks[run[j].threads[t].pc.obj] == run[j].threads[t].pc.box
    ensures run[j].threads[t].pc.obj == run[i].threads[t].pc.obj
    ensures run[j + 1].marks[run[i].threads[t].pc.obj] == run[i].marks[run[i].threads[t].pc.obj]
    ensures !Holds(run[j + 1], t, run[i].threads[t].pc.obj)
  {
    var d := |run[i].threads[t].held|;
    DisplacedIsPreLock(run, acts, i, j, t);
    RunKeepsInv(run, acts, j);
    var th := run[j].threads[t];
    assert ThreadOk(run[j], th);
    assert run[j + 1].threads[t].held == th.held[..d];
  }

  /** unlock_object falls into slow_case exactly when the object was inflated. */
  lemma UnlockSlowIffInflated(run: seq<State>, acts: seq<Action>, k: nat, t: nat)
    requires IsRun(run, acts) && StepsAt(run, acts, k, t) && run[k].threads[t].pc.CasUnlock?
    ensures var CasUnlock(box, h, o) := run[k].threads[t].pc;
      o < |run[k].marks| && (run[k].marks[o] != box <==> Inflated(run[k].marks[o]))
  {
    RunKeepsInv(run, acts, k);
    var th := run[k].threads[t];
    assert ThreadOk(run[k], th);
    assert RecordOk(run[k], th, |th.held| - 1);
  }
}
