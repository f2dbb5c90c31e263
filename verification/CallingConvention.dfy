/** The two-pass register and stack allocator for argument signatures, in its
    three modes, and the native convention beside it. */
module CallingConvention {
  import opened Bits

  const O0 := 1000
  const F0 := 3000
  const F1 := 3001
  const STACK := 4000
  const INT_REGS := 6
  const FLT_REGS := 32

  /** The size of the one signature array the program declares. */
  const CAPACITY := 1000

  datatype Mode = Mode(lp64: bool, longsInOneEntry: bool)

  predicate Supported(m: Mode) {
    m.lp64 ==> m.longsInOneEntry
  }

  /** Where an argument goes: nowhere (the second half of a pair), one place, or two. */
  datatype Loc = Half | Single(at: nat) | Pair(lo: nat, hi: nat)

  predicate IsKind(c: char) {
    c == 'I' || c == 'P' || c == 'F' || c == 'L' || c == 'D' || c == 'h'
  }

  // ---------------------------------------------------------------------
  // The packed words of the signature array.

  function Pack(l: Loc): (w: nat) {
    match l
    case Half => 0
    case Single(n) => n
    case Pair(lo, hi) => Or(lo, hi * 0x10000)
  }

  /** What print_convention reads back out of a word. */
  function Unpack(w: nat): (l: Loc) {
    if w == 0 then Half
    else if w / 0x10000 == 0 then Single(w % 0x10000)
    else Pair(w % 0x10000, w / 0x10000)
  }

  predicate Packable(l: Loc) {
    match l
    case Half => true
    case Single(n) => 0 < n < 0x10000
    case Pair(lo, hi) => lo < 0x10000 && 0 < hi < 0x8000
  }

  lemma PackRoundTrip(l: Loc)
    requires Packable(l)
    ensures Unpack(Pack(l)) == l
    ensures Pack(l) < 0x80000000
  {
    if l.Pair? {
      HalvesJoin(l.lo, l.hi);
    }
  }

  lemma HalvesJoin(lo: nat, hi: nat)
    requires lo < 0x10000
    ensures Or(lo, hi * 0x10000) == lo + hi * 0x10000
  {
    assert Pow2(16) == 0x10000 by { assert Pow2(4) == 16; assert Pow2(8) == 256; assert Pow2(12) == 4096; }
    OrShifted(lo, hi, 16);
  }

  // ---------------------------------------------------------------------
  // The Java convention.

  /** The counting pass: arguments that take a single int register, float
      register or stack slot. */
  datatype Count = Count(ints: nat, flts: nat, stk: nat)

  function CountOne(m: Mode, c: Count, k: char): (r: Count) {
    if k == 'L' then
      if m.longsInOneEntry && c.ints < INT_REGS then c.(ints := c.ints + 1) else c
    else if k == 'P' then
      if c.ints < INT_REGS then c.(ints := c.ints + 1)
      else if !m.lp64 then c.(stk := c.stk + 1)
      else c
    else if k == 'I' then
      if c.ints < INT_REGS then c.(ints := c.ints + 1) else c.(stk := c.stk + 1)
    else if k == 'F' then
      if c.flts < FLT_REGS then c.(flts := c.flts + 1) else c.(stk := c.stk + 1)
    else c
  }

  function CountAll(m: Mode, s: string): (r: Count) {
    if s == "" then Count(0, 0, 0) else CountOne(m, CountAll(m, s[..|s| - 1]), s[|s| - 1])
  }

  function RoundUp(n: nat): (r: nat)
    ensures r % 2 == 0 && n <= r <= n + 1
  {
    assert And(n + 1, -2) == n + 1 - (n + 1) % 2 by { AndMinusTwo(n + 1); }
    And(n + 1, -2)
  }

  /** The layout pass's counters: next single int, float and stack place, then
      next pair of each. */
  datatype Cursor = Cursor(ints: nat, flts: nat, stk: nat, intPairs: nat, fltPairs: nat, stkPairs: nat)

  function Start(m: Mode, s: string): (c: Cursor) {
    var n := CountAll(m, s);
    Cursor(0, 0, 0, RoundUp(n.ints), RoundUp(n.flts), RoundUp(n.stk))
  }

  function IntPlace(m: Mode, r: nat): nat {
    (if m.longsInOneEntry then 2 * r else r) + O0
  }

  function Smear(n: nat): Loc {
    Pair(n, n + 1)
  }

  /** The kind under which an argument is laid out: a pointer is a long or an int. */
  function Treated(m: Mode, k: char): char {
    if k == 'P' then if m.lp64 then 'L' else 'I' else k
  }

  function Place(m: Mode, c: Cursor, k: char): (l: Loc) {
    match Treated(m, k)
    case 'I' => Single(if c.ints < INT_REGS then IntPlace(m, c.ints) else STACK + c.stk)
    case 'F' => Single(if c.flts < FLT_REGS then F0 + c.flts else STACK + c.stk)
    case 'D' => Smear(if c.fltPairs < FLT_REGS then F0 + c.fltPairs else STACK + c.stkPairs)
    case 'L' =>
      Smear(if m.longsInOneEntry then
              if c.ints < INT_REGS then IntPlace(m, c.ints) else STACK + c.stkPairs
            else
              if c.intPairs < INT_REGS then c.intPairs + O0 else STACK + c.stkPairs)
    case _ => Half
  }

  function Advance(m: Mode, c: Cursor, k: char): (r: Cursor) {
    match Treated(m, k)
    case 'I' => if c.ints < INT_REGS then c.(ints := c.ints + 1) else c.(stk := c.stk + 1)
    case 'F' => if c.flts < FLT_REGS then c.(flts := c.flts + 1) else c.(stk := c.stk + 1)
    case 'D' => if c.fltPairs < FLT_REGS then c.(fltPairs := c.fltPairs + 2) else c.(stkPairs := c.stkPairs + 2)
    case 'L' =>
      if m.longsInOneEntry then
        if c.ints < INT_REGS then c.(ints := c.ints + 1) else c.(stkPairs := c.stkPairs + 2)
      else
        if c.intPairs < INT_REGS then c.(intPairs := c.intPairs + 2) else c.(stkPairs := c.stkPairs + 2)
    case _ => c
  }

  /** The counters after the first arguments p, starting from z. */
  function After(m: Mode, z: Cursor, p: string): (c: Cursor) {
    if p == "" then z else Advance(m, After(m, z, p[..|p| - 1]), p[|p| - 1])
  }

  function CursorAt(m: Mode, s: string, i: nat): (c: Cursor)
    requires i <= |s|
  {
    After(m, Start(m, s), s[..i])
  }

  lemma CursorNext(m: Mode, s: string, i: nat)
    requires i < |s|
    ensures CursorAt(m, s, i + 1) == Advance(m, CursorAt(m, s, i), s[i])
  {
    assert s[..i + 1][..i] == s[..i];
  }

  function JavaLoc(m: Mode, s: string, i: nat): (l: Loc)
    requires i < |s|
  {
    Place(m, CursorAt(m, s, i), s[i])
  }

  // ---------------------------------------------------------------------
  // The native conventions.

  function IntOrStack(m: Mode, i: nat): (n: nat) {
    if i < 6 then O0 + (if m.longsInOneEntry then 2 * i else i)
    else STACK + (if m.lp64 then 2 * i else i)
  }

  /** Arguments proper among p, halves not counted. */
  function Wholes(p: string): (n: nat)
    ensures n <= |p|
  {
    if p == "" then 0 else Wholes(p[..|p| - 1]) + if p[|p| - 1] == 'h' then 0 else 1
  }

  function V9Loc(m: Mode, k: char, j: nat): (l: Loc) {
    match k
    case 'I' => Single(IntOrStack(m, j))
    case 'L' => Smear(IntOrStack(m, j))
    case 'P' => Smear(IntOrStack(m, j))
    case 'F' => Single((if j < 16 then F1 else STACK + 1) + 2 * j)
    case 'D' => Smear((if j < 16 then F0 else STACK) + 2 * j)
    case _ => Half
  }

  function V8Loc(m: Mode, k: char, i: nat): (l: Loc) {
    match k
    case 'I' => Single(IntOrStack(m, i))
    case 'P' => Single(IntOrStack(m, i))
    case 'F' => Single(IntOrStack(m, i))
    case 'L' => Pair(IntOrStack(m, i), IntOrStack(m, i + 1))
    case 'D' => Pair(IntOrStack(m, i), IntOrStack(m, i + 1))
    case _ => Half
  }

  function NativeLoc(m: Mode, s: string, i: nat): (l: Loc)
    requires i < |s|
  {
    if m.lp64 then V9Loc(m, s[i], Wholes(s[..i])) else V8Loc(m, s[i], i)
  }

  // ---------------------------------------------------------------------
  // Which signatures are accepted. The half after the last character is read
  // from the array beyond the signature: `next` stands for that word.

  function Following(s: string, i: nat, next: int): int
    requires i < |s|
  {
    if i + 1 < |s| then s[i + 1] as int else next
  }

  predicate JavaAccepts(s: string, i: nat, next: int)
    requires i < |s|
  {
    IsKind(s[i]) && ((s[i] == 'L' || s[i] == 'D') ==> Following(s, i, next) == 'h' as int)
  }

  /** The first n characters are accepted and the next one, if any, is not. */
  predicate JavaPrefix(s: string, n: nat, next: int)
    requires n <= |s|
  {
    && (forall i :: 0 <= i < n ==> JavaAccepts(s, i, next))
    && (n < |s| ==> !JavaAccepts(s, n, next))
  }

  predicate NativeAccepts(m: Mode, s: string, i: nat, next: int)
    requires i < |s|
  {
    IsKind(s[i]) && ((s[i] == 'L' || (s[i] == 'D' && !m.lp64)) ==> Following(s, i, next) == 'h' as int)
  }

  predicate NativePrefix(m: Mode, s: string, n: nat, next: int)
    requires n <= |s|
  {
    && (forall i :: 0 <= i < n ==> NativeAccepts(m, s, i, next))
    && (n < |s| ==> !NativeAccepts(m, s, n, next))
  }

  // ---------------------------------------------------------------------
  // Physical places. With longs in one entry the numbers of an int register's
  // two halves name one register.

  function Home(m: Mode, n: nat): nat {
    if m.longsInOneEntry && O0 <= n < O0 + 2 * INT_REGS then O0 + (n - O0) / 2 else n
  }

  function Homes(m: Mode, l: Loc): set<nat> {
    match l
    case Half => {}
    case Single(n) => {Home(m, n)}
    case Pair(lo, hi) => {Home(m, lo), Home(m, hi)}
  }

  /** The places handed out between the counters z and c. */
  predicate Taken(m: Mode, z: Cursor, c: Cursor, h: nat) {
    || O0 <= h < O0 + c.ints
    || (!m.longsInOneEntry && O0 + z.intPairs <= h < O0 + c.intPairs)
    || F0 <= h < F0 + c.flts
    || F0 + z.fltPairs <= h < F0 + c.fltPairs
    || STACK <= h < STACK + c.stk
    || STACK + z.stkPairs <= h < STACK + c.stkPairs
  }

  /** The regions of singles and pairs keep apart, and pairs stay even. */
  predicate Apart(m: Mode, z: Cursor, c: Cursor) {
    && c.ints <= INT_REGS && c.flts <= FLT_REGS && c.stk <= z.stkPairs
    && (!m.longsInOneEntry ==> c.ints <= z.intPairs)
    && c.flts <= z.fltPairs
    && z.intPairs <= c.intPairs <= INT_REGS && z.fltPairs <= c.fltPairs <= FLT_REGS && z.stkPairs <= c.stkPairs
    && c.intPairs % 2 == 0 && c.fltPairs % 2 == 0 && c.stkPairs % 2 == 0
  }

  lemma PlaceFresh(m: Mode, z: Cursor, c: Cursor, k: char, h: nat)
    requires Supported(m) && Apart(m, z, c) && Apart(m, z, Advance(m, c, k))
    requires h in Homes(m, Place(m, c, k))
    ensures !Taken(m, z, c, h) && Taken(m, z, Advance(m, c, k), h)
  {
  }

  lemma {:induction false} CountGrows(m: Mode, s: string, i: nat)
    requires i <= |s|
    ensures CountAll(m, s[..i]).ints <= CountAll(m, s).ints <= INT_REGS
    ensures CountAll(m, s[..i]).flts <= CountAll(m, s).flts <= FLT_REGS
    ensures CountAll(m, s[..i]).stk <= CountAll(m, s).stk <= |s|
    decreases |s|
  {
    if i == |s| {
      assert s[..i] == s;
      if s != "" {
        CountGrows(m, s[..|s| - 1], |s| - 1);
      }
    } else {
      assert s[..|s| - 1][..i] == s[..i];
      CountGrows(m, s[..|s| - 1], i);
    }
  }

  /** The counting pass predicts the layout pass: after any prefix, the single
      places used are the places counted. */
  lemma {:induction false} CountPredicts(m: Mode, z: Cursor, p: string)
    requires Supported(m) && z.ints == z.flts == z.stk == 0
    ensures var c := After(m, z, p); Count(c.ints, c.flts, c.stk) == CountAll(m, p)
  {
    if p != "" {
      CountPredicts(m, z, p[..|p| - 1]);
    }
  }

  lemma {:induction false} PairsGrow(m: Mode, z: Cursor, p: string)
    requires z.intPairs % 2 == 0 && z.fltPairs % 2 == 0 && z.stkPairs % 2 == 0
    requires z.intPairs <= INT_REGS && z.fltPairs <= FLT_REGS
    ensures var c := After(m, z, p);
            && z.intPairs <= c.intPairs <= INT_REGS && z.fltPairs <= c.fltPairs <= FLT_REGS
            && z.stkPairs <= c.stkPairs <= z.stkPairs + 2 * |p|
            && c.intPairs % 2 == 0 && c.fltPairs % 2 == 0 && c.stkPairs % 2 == 0
  {
    if p != "" {
      PairsGrow(m, z, p[..|p| - 1]);
    }
  }

  lemma StaysApart(m: Mode, s: string, i: nat)
    requires Supported(m) && i <= |s|
    ensures Apart(m, Start(m, s), CursorAt(m, s, i))
  {
    CountGrows(m, s, i);
    CountPredicts(m, Start(m, s), s[..i]);
    PairsGrow(m, Start(m, s), s[..i]);
  }

  lemma TakenStays(m: Mode, z: Cursor, c: Cursor, k: char, h: nat)
    requires Taken(m, z, c, h)
    ensures Taken(m, z, Advance(m, c, k), h)
  {
  }

  /** One argument's places: free before it, taken after it. */
  lemma PlacesTaken(m: Mode, s: string, i: nat, h: nat)
    requires Supported(m) && i < |s| && h in Homes(m, JavaLoc(m, s, i))
    ensures !Taken(m, Start(m, s), CursorAt(m, s, i), h)
    ensures Taken(m, Start(m, s), CursorAt(m, s, i + 1), h)
  {
    StaysApart(m, s, i);
    StaysApart(m, s, i + 1);
    CursorNext(m, s, i);
    PlaceFresh(m, Start(m, s), CursorAt(m, s, i), s[i], h);
  }

  /** The places of an earlier argument are taken by the time of any later one. */
  lemma {:induction false} TakenLater(m: Mode, s: string, i: nat, j: nat, h: nat)
    requires Supported(m) && i < j <= |s|
    requires h in Homes(m, JavaLoc(m, s, i))
    ensures Taken(m, Start(m, s), CursorAt(m, s, j), h)
    decreases j
  {
    if j == i + 1 {
      PlacesTaken(m, s, i, h);
    } else {
      TakenLater(m, s, i, j - 1, h);
      CursorNext(m, s, j - 1);
      TakenStays(m, Start(m, s), CursorAt(m, s, j - 1), s[j - 1], h);
    }
  }

  /** No two arguments share a register or a stack slot. */
  lemma JavaInjective(m: Mode, s: string, i: nat, j: nat)
    requires Supported(m) && i < j < |s|
    ensures Homes(m, JavaLoc(m, s, i)) !! Homes(m, JavaLoc(m, s, j))
  {
    forall h | h in Homes(m, JavaLoc(m, s, i)) ensures h !in Homes(m, JavaLoc(m, s, j)) {
      TakenLater(m, s, i, j, h);
      if h in Homes(m, JavaLoc(m, s, j)) {
        PlacesTaken(m, s, j, h);
      }
    }
  }

  /** Every pair is even-aligned, and every place is in range. */
  lemma JavaShape(m: Mode, s: string, i: nat)
    requires Supported(m) && i < |s| < CAPACITY
    ensures var l := JavaLoc(m, s, i);
            && Packable(l)
            && (l.Pair? ==> l.lo % 2 == 0 && l.hi == l.lo + 1)
            && (l.Half? <==> s[i] !in "IPFLD")
  {
    StaysApart(m, s, i);
    assert Start(m, s).stkPairs <= |s| + 1 by { CountGrows(m, s, 0); }
    PairsGrow(m, Start(m, s), s[..i]);
    PlaceShape(m, Start(m, s), CursorAt(m, s, i), s[i]);
  }

  lemma PlaceShape(m: Mode, z: Cursor, c: Cursor, k: char)
    requires Supported(m) && Apart(m, z, c) && c.stkPairs <= 3 * CAPACITY
    ensures var l := Place(m, c, k);
            && Packable(l)
            && (l.Pair? ==> l.lo % 2 == 0 && l.hi == l.lo + 1)
            && (l.Half? <==> k !in "IPFLD")
  {
  }

  /** The layout pass uses as many single places of each kind as were counted,
      and the single stack slots are exactly the counted ones. */
  lemma CountExact(m: Mode, s: string, n: nat)
    requires Supported(m)
    ensures var c := CursorAt(m, s, |s|); Count(c.ints, c.flts, c.stk) == CountAll(m, s)
    ensures n < CountAll(m, s).stk <==> exists i :: 0 <= i < |s| && JavaLoc(m, s, i) == Single(STACK + n)
  {
    assert s[..|s|] == s;
    CountPredicts(m, Start(m, s), s);
    if n < CountAll(m, s).stk {
      SlotFilled(m, s, |s|, n);
    }
    forall i | 0 <= i < |s| && JavaLoc(m, s, i) == Single(STACK + n) ensures n < CountAll(m, s).stk {
      SlotCounted(m, s, i, n);
    }
  }

  lemma SlotCounted(m: Mode, s: string, i: nat, n: nat)
    requires Supported(m) && i < |s| && JavaLoc(m, s, i) == Single(STACK + n)
    ensures n < CountAll(m, s).stk
  {
    assert CursorAt(m, s, i).ints <= INT_REGS && CursorAt(m, s, i).flts <= FLT_REGS by { StaysApart(m, s, i); }
    assert CursorAt(m, s, i + 1).stk == n + 1 by { CursorNext(m, s, i); }
    CountPredicts(m, Start(m, s), s[..i + 1]);
    CountGrows(m, s, i + 1);
  }

  lemma {:induction false} SlotFilled(m: Mode, s: string, j: nat, n: nat)
    requires j <= |s| && n < CursorAt(m, s, j).stk
    ensures exists i :: 0 <= i < j && JavaLoc(m, s, i) == Single(STACK + n)
    decreases j
  {
    if j != 0 {
      CursorNext(m, s, j - 1);
      if n < CursorAt(m, s, j - 1).stk {
        SlotFilled(m, s, j - 1, n);
      } else {
        assert JavaLoc(m, s, j - 1) == Single(STACK + n);
      }
    }
  }

  // ---------------------------------------------------------------------
  // The native conventions keep arguments apart too.

  lemma {:induction false} WholesGrow(s: string, i: nat, j: nat)
    requires i < j <= |s| && s[i] != 'h'
    ensures Wholes(s[..i]) < Wholes(s[..j])
    decreases j
  {
    assert s[..j][..j - 1] == s[..j - 1];
    if i < j - 1 {
      WholesGrow(s, i, j - 1);
    }
  }

  /** A V9 argument stays within the double-wide slot of its rank. */
  lemma V9Rank(m: Mode, k: char, j: nat, h: nat)
    requires m.lp64 && m.longsInOneEntry && h in Homes(m, V9Loc(m, k, j))
    ensures if h < F0 then h == O0 + j && j < 6
            else if h < STACK then h - F0 < 32 && (h - F0) / 2 == j
            else (h - STACK) / 2 == j
  {
  }

  lemma V8Apart(m: Mode, k: char, i: nat, k': char, i': nat)
    requires !m.lp64 && i < i' && (k == 'L' || k == 'D' ==> i + 1 < i' || k' == 'h')
    ensures Homes(m, V8Loc(m, k, i)) !! Homes(m, V8Loc(m, k', i'))
  {
  }

  lemma NativeInjective(m: Mode, s: string, i: nat, j: nat, next: int)
    requires Supported(m) && i < j < |s| && NativeAccepts(m, s, i, next)
    ensures Homes(m, NativeLoc(m, s, i)) !! Homes(m, NativeLoc(m, s, j))
  {
    if m.lp64 {
      if s[i] != 'h' {
        WholesGrow(s, i, j);
        var a, b := Wholes(s[..i]), Wholes(s[..j]);
        forall h | h in Homes(m, V9Loc(m, s[i], a)) ensures h !in Homes(m, V9Loc(m, s[j], b)) {
          V9Rank(m, s[i], a, h);
          if h in Homes(m, V9Loc(m, s[j], b)) {
            V9Rank(m, s[j], b, h);
          }
        }
      }
    } else {
      V8Apart(m, s[i], i, s[j], j);
    }
  }

  lemma NativeShape(m: Mode, s: string, i: nat)
    requires Supported(m) && i < |s| < CAPACITY
    ensures var l := NativeLoc(m, s, i);
            && Packable(l)
            && (m.lp64 && l.Pair? ==> l.lo % 2 == 0 && l.hi == l.lo + 1)
            && (l.Half? <==> s[i] !in "IPFLD")
  {
    assert Wholes(s[..i]) < CAPACITY;
  }

  /** Some argument before j has the place h. */
  ghost predicate Held(m: Mode, s: string, j: nat, h: nat)
    requires j <= |s|
  {
    exists i :: 0 <= i < j && h in Homes(m, JavaLoc(m, s, i))
  }

  /** The int and the float registers, as the next single place and the base. */
  function Next(c: Cursor, flt: bool): nat {
    if flt then c.flts else c.ints
  }

  function Base(flt: bool): nat {
    if flt then F0 else O0
  }

  lemma {:induction false} RegisterHeld(m: Mode, s: string, j: nat, flt: bool, r: nat)
    requires Supported(m) && j <= |s| && r < Next(CursorAt(m, s, j), flt)
    ensures Held(m, s, j, Base(flt) + r)
    decreases j
  {
    if j != 0 {
      if r < Next(CursorAt(m, s, j - 1), flt) {
        RegisterHeld(m, s, j - 1, flt, r);
      } else {
        assert Base(flt) + r in Homes(m, JavaLoc(m, s, j - 1)) by {
          CursorNext(m, s, j - 1);
          StaysApart(m, s, j - 1);
          FillsNext(m, CursorAt(m, s, j - 1), s[j - 1], flt, r);
        }
      }
    }
  }

  lemma FillsNext(m: Mode, c: Cursor, k: char, flt: bool, r: nat)
    requires Supported(m) && c.ints <= INT_REGS && Next(c, flt) <= r < Next(Advance(m, c, k), flt)
    ensures Base(flt) + r in Homes(m, Place(m, c, k))
  {
  }

  /** Does the argument take a single int register while there are any? */
  predicate TakesInt(m: Mode, k: char) {
    k == 'I' || k == 'P' || (k == 'L' && m.longsInOneEntry)
  }

  /** Is a location on the stack? */
  predicate OnStack(l: Loc) {
    match l
    case Half => false
    case Single(n) => n >= STACK
    case Pair(lo, _) => lo >= STACK
  }

  /** An argument that competes for single registers goes to the stack only when
      earlier arguments hold all of them. */
  lemma SpillsWhenFull(m: Mode, s: string, i: nat, r: nat)
    requires Supported(m) && i < |s| && OnStack(JavaLoc(m, s, i))
    ensures TakesInt(m, s[i]) && r < INT_REGS ==> Held(m, s, i, O0 + r)
    ensures s[i] == 'F' && r < FLT_REGS ==> Held(m, s, i, F0 + r)
  {
    if TakesInt(m, s[i]) && r < INT_REGS {
      RegistersFull(m, s, i, false, r);
    }
    if s[i] == 'F' && r < FLT_REGS {
      RegistersFull(m, s, i, true, r);
    }
  }

  lemma RegistersFull(m: Mode, s: string, i: nat, flt: bool, r: nat)
    requires Supported(m) && i < |s| && OnStack(JavaLoc(m, s, i))
    requires if flt then s[i] == 'F' && r < FLT_REGS else TakesInt(m, s[i]) && r < INT_REGS
    ensures Held(m, s, i, Base(flt) + r)
  {
    assert r < Next(CursorAt(m, s, i), flt) by {
      StaysApart(m, s, i);
      SpillsFull(m, CursorAt(m, s, i), s[i]);
    }
    RegisterHeld(m, s, i, flt, r);
  }

  lemma SpillsFull(m: Mode, c: Cursor, k: char)
    requires Supported(m) && c.ints <= INT_REGS && c.flts <= FLT_REGS && OnStack(Place(m, c, k))
    ensures TakesInt(m, k) ==> c.ints == INT_REGS
    ensures k == 'F' ==> c.flts == FLT_REGS
  {
  }

  // ---------------------------------------------------------------------
  // The program: a signature array overwritten in place.

  method Reset(sig: array<int>, s: string)
    requires |s| < sig.Length
    modifies sig
    ensures forall i :: 0 <= i < |s| ==> sig[i] == s[i] as int
    ensures forall i :: |s| <= i < sig.Length ==> sig[i] == old(sig[i])
  {
    for i := 0 to |s|
      invariant forall k :: 0 <= k < i ==> sig[k] == s[k] as int
      invariant forall k :: i <= k < sig.Length ==> sig[k] == old(sig[k])
    {
      sig[i] := s[i] as int;
    }
  }

  method CountSingles(m: Mode, sig: array<int>, s: string) returns (n: Count)
    requires |s| < sig.Length && forall i :: 0 <= i < |s| ==> sig[i] == s[i] as int
    ensures n == CountAll(m, s)
  {
    var ints, flts, stk := 0, 0, 0;
    for i := 0 to |s|
      invariant Count(ints, flts, stk) == CountAll(m, s[..i])
    {
      assert s[..i + 1][..i] == s[..i];
      match s[i] {
        case 'L' =>
          if m.longsInOneEntry {
            if ints < INT_REGS { ints := ints + 1; }
          }
        case 'P' => if ints < INT_REGS { ints := ints + 1; } else if !m.lp64 { stk := stk + 1; }
        case 'I' => if ints < INT_REGS { ints := ints + 1; } else { stk := stk + 1; }
        case 'F' => if flts < FLT_REGS { flts := flts + 1; } else { stk := stk + 1; }
        case _ =>
      }
    }
    assert s[..|s|] == s;
    n := Count(ints, flts, stk);
  }

  method LayInt(m: Mode, c: Cursor) returns (loc: Loc, d: Cursor)
    ensures loc == Place(m, c, 'I') && d == Advance(m, c, 'I')
  {
    if c.ints < INT_REGS {
      loc, d := Single(IntPlace(m, c.ints)), c.(ints := c.ints + 1);
    } else {
      loc, d := Single(STACK + c.stk), c.(stk := c.stk + 1);
    }
  }

  method LayFloat(m: Mode, c: Cursor) returns (loc: Loc, d: Cursor)
    ensures loc == Place(m, c, 'F') && d == Advance(m, c, 'F')
  {
    if c.flts < FLT_REGS {
      loc, d := Single(F0 + c.flts), c.(flts := c.flts + 1);
    } else {
      loc, d := Single(STACK + c.stk), c.(stk := c.stk + 1);
    }
  }

  method LayDouble(m: Mode, c: Cursor) returns (loc: Loc, d: Cursor)
    ensures loc == Place(m, c, 'D') && d == Advance(m, c, 'D')
  {
    if c.fltPairs < FLT_REGS {
      loc, d := Smear(F0 + c.fltPairs), c.(fltPairs := c.fltPairs + 2);
    } else {
      loc, d := Smear(STACK + c.stkPairs), c.(stkPairs := c.stkPairs + 2);
    }
  }

  method LayLong(m: Mode, c: Cursor) returns (loc: Loc, d: Cursor)
    ensures loc == Place(m, c, 'L') && d == Advance(m, c, 'L')
  {
    if m.longsInOneEntry {
      if c.ints < INT_REGS {
        loc, d := Smear(IntPlace(m, c.ints)), c.(ints := c.ints + 1);
      } else {
        loc, d := Smear(STACK + c.stkPairs), c.(stkPairs := c.stkPairs + 2);
      }
    } else {
      if c.intPairs < INT_REGS {
        loc, d := Smear(c.intPairs + O0), c.(intPairs := c.intPairs + 2);
      } else {
        loc, d := Smear(STACK + c.stkPairs), c.(stkPairs := c.stkPairs + 2);
      }
    }
  }

  /** The switch of the layout loop, on the word at the current place and the one
      after it: fails on a missing half or a bad character. */
  method LayOne(m: Mode, sig: int, next: int, c: Cursor, ghost k: char) returns (ok: bool, word: int, d: Cursor)
    requires Supported(m) && sig == k as int
    ensures ok <==> IsKind(k) && (k == 'L' || k == 'D' ==> next == 'h' as int)
    ensures if ok then word == Pack(Place(m, c, k)) && d == Advance(m, c, k) else word == sig && d == c
  {
    var tmp, loc := sig, Half;
    d := c;
    if tmp == 'P' as int {
      tmp := if m.lp64 then 'L' as int else 'I' as int;
    }
    if tmp == 'I' as int {
      loc, d := LayInt(m, c);
    } else if tmp == 'L' as int {
      if sig != 'P' as int && next != 'h' as int {
        return false, sig, c;
      }
      loc, d := LayLong(m, c);
    } else if tmp == 'F' as int {
      loc, d := LayFloat(m, c);
    } else if tmp == 'D' as int {
      if next != 'h' as int {
        return false, sig, c;
      }
      loc, d := LayDouble(m, c);
    } else if tmp != 'h' as int {
      return false, sig, c;
    }
    ok, word := true, Pack(loc);
  }

  method LayNext(m: Mode, sig: int, next: int, c: Cursor, ghost s: string, ghost i: nat, ghost past: int)
    returns (ok: bool, word: int, d: Cursor)
    requires Supported(m) && i < |s| && sig == s[i] as int && next == Following(s, i, past) && c == CursorAt(m, s, i)
    ensures ok <==> JavaAccepts(s, i, past)
    ensures ok ==> JavaWord(m, s, i, word) && d == CursorAt(m, s, i + 1)
  {
    ok, word, d := LayOne(m, sig, next, c, s[i]);
    CursorNext(m, s, i);
  }

  /** The word for the character s[i]. */
  predicate JavaWord(m: Mode, s: string, i: int, word: int) {
    0 <= i < |s| && word == Pack(JavaLoc(m, s, i))
  }

  method LayOut(m: Mode, sig: array<int>, s: string, n: Count) returns (done: nat)
    requires Supported(m) && |s| < sig.Length && n == CountAll(m, s)
    requires forall i :: 0 <= i < |s| ==> sig[i] == s[i] as int
    modifies sig
    ensures done <= |s| && JavaPrefix(s, done, old(sig[|s|]))
    ensures forall i :: 0 <= i < done ==> JavaWord(m, s, i, sig[i])
    ensures forall i :: done <= i < sig.Length ==> sig[i] == old(sig[i])
  {
    done := 0;
    ghost var past := sig[|s|];
    var c := Cursor(0, 0, 0, RoundUp(n.ints), RoundUp(n.flts), RoundUp(n.stk));
    while done < |s|
      invariant done <= |s| && c == CursorAt(m, s, done)
      invariant forall i :: 0 <= i < done ==> JavaAccepts(s, i, past)
      invariant forall i :: 0 <= i < done ==> JavaWord(m, s, i, sig[i])
      invariant forall i :: done <= i < sig.Length ==> sig[i] == old(sig[i])
    {
      var ok, word, d := LayNext(m, sig[done], sig[done + 1], c, s, done, past);
      if !ok {
        return;
      }
      sig[done] := word;
      c, done := d, done + 1;
    }
  }

  /** Lays out a signature; `done` is the number of characters laid out, all of
      them unless an error stopped the loop at the first character not accepted. */
  method JavaConvention(m: Mode, sig: array<int>, s: string) returns (done: nat)
    requires |s| < sig.Length
    modifies sig
    ensures !Supported(m) ==> sig[..] == old(sig[..])
    ensures Supported(m) ==>
              && done <= |s| && JavaPrefix(s, done, old(sig[|s|]))
              && (forall i :: 0 <= i < done ==> JavaWord(m, s, i, sig[i]))
              && (forall i :: done <= i < |s| ==> sig[i] == s[i] as int)
    ensures forall i :: |s| <= i < sig.Length ==> sig[i] == old(sig[i])
  {
    done := 0;
    if m.lp64 && !m.longsInOneEntry {
      return;
    }
    Reset(sig, s);
    var n := CountSingles(m, sig, s);
    done := LayOut(m, sig, s, n);
  }

  method V9One(m: Mode, sig: int, next: int, j: nat, ghost k: char) returns (ok: bool, word: int)
    requires m.lp64 && sig == k as int
    ensures ok <==> IsKind(k) && (k == 'L' ==> next == 'h' as int)
    ensures word == if ok then Pack(V9Loc(m, k, j)) else sig
  {
    var loc := Half;
    if sig == 'I' as int {
      loc := Single(IntOrStack(m, j));
    } else if sig == 'L' as int || sig == 'P' as int {
      if sig == 'L' as int && next != 'h' as int {
        return false, sig;
      }
      loc := Smear(IntOrStack(m, j));
    } else if sig == 'F' as int {
      loc := Single((if j < 16 then F1 else STACK + 1) + 2 * j);
    } else if sig == 'D' as int {
      loc := Smear((if j < 16 then F0 else STACK) + 2 * j);
    } else if sig != 'h' as int {
      return false, sig;
    }
    ok, word := true, Pack(loc);
  }

  method V8One(m: Mode, sig: int, next: int, i: nat, ghost k: char) returns (ok: bool, word: int)
    requires !m.lp64 && sig == k as int
    ensures ok <==> IsKind(k) && (k == 'L' || k == 'D' ==> next == 'h' as int)
    ensures word == if ok then Pack(V8Loc(m, k, i)) else sig
  {
    var loc := Half;
    if sig == 'I' as int || sig == 'P' as int || sig == 'F' as int {
      loc := Single(IntOrStack(m, i));
    } else if sig == 'L' as int || sig == 'D' as int {
      if next != 'h' as int {
        return false, sig;
      }
      loc := Pair(IntOrStack(m, i), IntOrStack(m, i + 1));
    } else if sig != 'h' as int {
      return false, sig;
    }
    ok, word := true, Pack(loc);
  }

  method NativeNext(m: Mode, sig: int, next: int, j: nat, s: string, i: nat, ghost past: int) returns (ok: bool, word: int)
    requires Supported(m) && i < |s| && sig == s[i] as int && next == Following(s, i, past) && j == Wholes(s[..i])
    ensures ok <==> NativeAccepts(m, s, i, past)
    ensures ok ==> word == Pack(NativeLoc(m, s, i))
  {
    if m.lp64 {
      ok, word := V9One(m, sig, next, j, s[i]);
    } else {
      ok, word := V8One(m, sig, next, i, s[i]);
    }
  }

  lemma WholesNext(s: string, i: nat)
    requires i < |s|
    ensures Wholes(s[..i + 1]) == Wholes(s[..i]) + if s[i] == 'h' then 0 else 1
  {
    assert s[..i + 1][..i] == s[..i];
  }

  method LayOutNative(m: Mode, sig: array<int>, s: string) returns (done: nat)
    requires Supported(m) && |s| < sig.Length && forall i :: 0 <= i < |s| ==> sig[i] == s[i] as int
    modifies sig
    ensures done <= |s| && NativePrefix(m, s, done, old(sig[|s|]))
    ensures forall i :: 0 <= i < done ==> sig[i] == Pack(NativeLoc(m, s, i))
    ensures forall i :: done <= i < sig.Length ==> sig[i] == old(sig[i])
  {
    done := 0;
    ghost var past := sig[|s|];
    var j := 0;
    while done < |s|
      invariant done <= |s| && j == Wholes(s[..done])
      invariant forall i :: 0 <= i < done ==> NativeAccepts(m, s, i, past)
      invariant forall i :: 0 <= i < done ==> sig[i] == Pack(NativeLoc(m, s, i))
      invariant forall i :: done <= i < sig.Length ==> sig[i] == old(sig[i])
    {
      var ok, word := NativeNext(m, sig[done], sig[done + 1], j, s, done, past);
      if !ok {
        return;
      }
      WholesNext(s, done);
      sig[done] := word;
      j := if s[done] == 'h' then j else j + 1;
      done := done + 1;
    }
  }

  method NativeConvention(m: Mode, sig: array<int>, s: string) returns (done: nat)
    requires |s| < sig.Length
    modifies sig
    ensures !Supported(m) ==> sig[..] == old(sig[..])
    ensures Supported(m) ==>
              && done <= |s| && NativePrefix(m, s, done, old(sig[|s|]))
              && (forall i :: 0 <= i < done ==> sig[i] == Pack(NativeLoc(m, s, i)))
              && (forall i :: done <= i < |s| ==> sig[i] == s[i] as int)
    ensures forall i :: |s| <= i < sig.Length ==> sig[i] == old(sig[i])
  {
    done := 0;
    if m.lp64 && !m.longsInOneEntry {
      return;
    }
    Reset(sig, s);
    done := LayOutNative(m, sig, s);
  }
}
