/** Branch instruction words: assembling, decoding and patching them.

    A word is a number below 2^32. Extracting a field is dividing and taking a
    remainder; a displacement x contributes the remainder of x / 4, which for the
    rounding-down `/` is the two's-complement field of the arithmetic shift; and
    joining fields is adding them, since no two of them share a bit (each
    `Decodes` lemma gets every field back, which it could not otherwise). */
module BranchWords {
  import opened Wrappers
  import opened Bits

  const RC_LAST := 7

  /** The op2 field of the branches that test condition codes. */
  const BP_OP2 := 1
  const BR_OP2 := 2
  const BPR_OP2 := 3
  const FBP_OP2 := 5
  const FB_OP2 := 6

  function Bit(b: bool): nat { if b then 1 else 0 }

  // ---------------------------------------------------------------------
  // Fields of a word.

  function InvOp(w: nat): nat { w / 0x40000000 % 4 }
  function InvOp2(w: nat): nat { w / 0x400000 % 8 }
  function InvCond(w: nat): nat { w / 0x2000000 % 16 }
  function InvRs1(w: nat): nat { w / 0x4000 % 32 }
  function InvRs2(w: nat): nat { w % 32 }
  function InvCC(w: nat): nat { w / 0x100000 % 4 }
  function InvCondCbcond(w: nat): nat { w / 0x2000000 % 8 + w / 0x20000000 % 2 * 8 }
  function InvAnnul(w: nat): nat { w / 0x20000000 % 2 }
  function InvPredict(w: nat): nat { w / 0x80000 % 2 }
  function InvImmed(w: nat): nat { w / 0x2000 % 2 }
  function IsCxb(w: nat): nat { w / 0x200000 % 2 }

  predicate IsCbcond(w: nat, hasCbcond: bool) {
    hasCbcond && InvCond(w) > RC_LAST && InvOp(w) == 0 && InvOp2(w) == BPR_OP2
  }

  /** c with a bit inserted above its low three: 8 selects the form. */
  function CondCbcond(c: nat): nat { c / 8 % 2 * 16 + 8 + c % 8 }

  // ---------------------------------------------------------------------
  // Word displacements. A format says where a word keeps its displacement.

  datatype Format = D10 | D16 | D19 | D22 | D30

  /** Half the range of byte displacements. */
  function Span(f: Format): int {
    match f
    case D10 => 0x800
    case D16 => 0x20000
    case D19 => 0x100000
    case D22 => 0x800000
    case D30 => 0x80000000
  }

  predicate Reaches(f: Format, x: int) {
    x % 4 == 0 && -Span(f) <= x < Span(f)
  }

  function Scatter(f: Format, x: int): (d: nat) {
    match f
    case D10 => x / 4 % 0x100 * 0x20 + x / 0x400 % 4 * 0x80000
    case D16 => x / 4 % 0x4000 + x / 0x10000 % 4 * 0x100000
    case D19 => x / 4 % 0x80000
    case D22 => x / 4 % 0x400000
    case D30 => x / 4 % 0x40000000
  }

  /** The bits of w in the displacement field. */
  function Field(f: Format, w: nat): (d: nat) {
    match f
    case D10 => w / 0x20 % 0x100 * 0x20 + w / 0x80000 % 4 * 0x80000
    case D16 => w % 0x4000 + w / 0x100000 % 4 * 0x100000
    case D19 => w % 0x80000
    case D22 => w % 0x400000
    case D30 => w % 0x40000000
  }

  /** Sign extension of a field of n values. */
  function Extend(field: nat, n: nat): int {
    if field >= n / 2 then field - n else field
  }

  function Gather(f: Format, w: nat): (x: int) {
    match f
    case D10 => (Extend(w / 0x80000 % 4, 4) * 0x100 + w / 0x20 % 0x100) * 4
    case D16 => (Extend(w / 0x100000 % 4, 4) * 0x4000 + w % 0x4000) * 4
    case D19 => Extend(w % 0x80000, 0x80000) * 4
    case D22 => Extend(w % 0x400000, 0x400000) * 4
    case D30 => Extend(w % 0x40000000, 0x40000000) * 4
  }

  /** A signed number q and its n-valued field determine each other. */
  lemma Whole(q: int, n: nat)
    requires n % 2 == 0 && -(n / 2) <= q < n / 2
    ensures Extend(q % n, n) == q
  {
    if q < 0 { ModUnique(q, n, -1, q + n); } else { ModUnique(q, n, 0, q); }
  }

  lemma WholeBack(v: nat, n: nat)
    requires n % 2 == 0 && v < n
    ensures -(n / 2) <= Extend(v, n) < n / 2 && Extend(v, n) % n == v
  {
    if v >= n / 2 { ModUnique(v - n, n, -1, v); } else { ModUnique(v, n, 0, v); }
  }

  /** The same with the field split at m: its two high bits are extended alone. */
  lemma Split(q: int, m: nat)
    requires m > 0 && -(2 * m) <= q < 2 * m
    ensures Extend(q / m % 4, 4) * m + q % m == q
  {
    var h := q / m;
    assert q == m * h + q % m;
    MulBound(m, h - 1);
    MulBound(m, h + 2);
    assert m * (h - 1) == m * h - m && m * (h + 2) == m * h + 2 * m;
  }

  lemma SplitBack(lo: nat, hi: nat, m: nat)
    requires lo < m && hi < 4
    ensures var q := Extend(hi, 4) * m + lo; -(2 * m) <= q < 2 * m && q % m == lo && q / m % 4 == hi
  {
    ModUnique(Extend(hi, 4) * m + lo, m, Extend(hi, 4), lo);
  }

  lemma QuarterDiv(x: int, m: nat)
    requires m > 0
    ensures x / (4 * m) == x / 4 / m
  {
    var q := x / 4;
    assert x == 4 * (m * (q / m) + q % m) + x % 4;
    assert 4 * (m * (q / m)) == (4 * m) * (q / m);
    ModUnique(x, 4 * m, q / m, 4 * (q % m) + x % 4);
  }

  lemma SplitBack4(lo: nat, hi: nat, m: nat, x: int)
    requires lo < m && hi < 4 && x == (Extend(hi, 4) * m + lo) * 4
    ensures x % 4 == 0 && -(8 * m) <= x < 8 * m && x / 4 % m == lo && x / (4 * m) % 4 == hi
  {
    SplitBack(lo, hi, m);
    QuarterDiv(x, m);
  }

  lemma WholeBack4(v: nat, n: nat, x: int)
    requires n % 2 == 0 && v < n && x == Extend(v, n) * 4
    ensures x % 4 == 0 && -(2 * n) <= x < 2 * n && x / 4 % n == v
  {
    WholeBack(v, n);
  }

  lemma Split4(lo: nat, hi: nat, m: nat, x: int)
    requires m > 0 && x % 4 == 0 && -(8 * m) <= x < 8 * m && lo == x / 4 % m && hi == x / (4 * m) % 4
    ensures (Extend(hi, 4) * m + lo) * 4 == x
  {
    QuarterDiv(x, m);
    Split(x / 4, m);
  }

  lemma Whole4(v: nat, n: nat, x: int)
    requires n > 0 && n % 2 == 0 && x % 4 == 0 && -(2 * n) <= x < 2 * n && v == x / 4 % n
    ensures Extend(v, n) * 4 == x
  {
    Whole(x / 4, n);
  }

  lemma SameParts(f: Format, lo: nat, hi: nat, lo': nat, hi': nat)
    requires f == D10 ==> lo < 0x100 && lo' < 0x100 && lo * 0x20 + hi * 0x80000 == lo' * 0x20 + hi' * 0x80000
    requires f == D16 ==> lo < 0x4000 && lo' < 0x4000 && lo + hi * 0x100000 == lo' + hi' * 0x100000
    requires f == D10 || f == D16
    ensures lo == lo' && hi == hi'
  {
  }

  /** A word whose displacement field was scattered from x gives back x. */
  lemma GatherScatter(f: Format, x: int, w: nat)
    requires Reaches(f, x) && Field(f, w) == Scatter(f, x)
    ensures Gather(f, w) == x
  {
    match f {
      case D10 =>
        SameParts(f, w / 0x20 % 0x100, w / 0x80000 % 4, x / 4 % 0x100, x / 0x400 % 4);
        Split4(x / 4 % 0x100, x / 0x400 % 4, 0x100, x);
      case D16 =>
        SameParts(f, w % 0x4000, w / 0x100000 % 4, x / 4 % 0x4000, x / 0x10000 % 4);
        Split4(x / 4 % 0x4000, x / 0x10000 % 4, 0x4000, x);
      case D19 => Whole4(w % 0x80000, 0x80000, x);
      case D22 => Whole4(w % 0x400000, 0x400000, x);
      case D30 => Whole4(w % 0x40000000, 0x40000000, x);
    }
  }

  /** Every word's displacement is in range and scatters back into its field. */
  lemma ScatterGather(f: Format, w: nat)
    ensures Reaches(f, Gather(f, w)) && Scatter(f, Gather(f, w)) == Field(f, w)
  {
    var x := Gather(f, w);
    match f {
      case D10 => SplitBack4(w / 0x20 % 0x100, w / 0x80000 % 4, 0x100, x);
      case D16 => SplitBack4(w % 0x4000, w / 0x100000 % 4, 0x4000, x);
      case D19 => WholeBack4(w % 0x80000, 0x80000, x);
      case D22 => WholeBack4(w % 0x400000, 0x400000, x);
      case D30 => WholeBack4(w % 0x40000000, 0x40000000, x);
    }
  }

  // ---------------------------------------------------------------------
  // Taking a word apart from the bottom.

  /** Above position a the word is v in m values, then the rest. */
  lemma Peel(w: nat, a: nat, m: nat, b: nat, v: nat, rest: nat)
    requires a > 0 && b == a * m && v < m && w / a == v + m * rest
    ensures w / a % m == v && w / b == rest
  {
    ModUnique(w / a, m, rest, v);
    DivDiv(w, a, m);
  }

  lemma DivDiv(w: nat, a: nat, m: nat)
    requires a > 0 && m > 0
    ensures a * m > 0 && w / (a * m) == w / a / m
  {
    var q, r := w / a, w % a;
    Digits(w, a, m, q, r, q / m, q % m);
  }

  lemma Digits(w: nat, a: nat, m: nat, q: nat, r: nat, h: nat, s: nat)
    requires w == a * q + r && q == m * h + s && r < a && s < m
    ensures a * m > 0 && w / (a * m) == h
  {
    var b := a * m;
    assert a * q == b * h + a * s by { assert a * (m * h) == (a * m) * h; }
    MulBound(a, m - s);
    assert a * (m - s) == b - a * s;
    ModUnique(w, b, h, a * s + r);
  }

  // ---------------------------------------------------------------------
  // The emitters. The displacement x is the target less the address of the word.

  function Bpr(c: nat, a: bool, p: bool, s1: nat, x: int): (w: nat)
    requires c <= RC_LAST && s1 < 32
  {
    Bit(a) * 0x20000000 + c * 0x2000000 + BPR_OP2 * 0x400000 + Scatter(D16, x) + Bit(p) * 0x80000 + s1 * 0x4000
  }

  /** Bp and its floating-point form. */
  function Bp(op2: nat, c: nat, a: bool, cc: nat, p: bool, x: int): (w: nat)
    requires (op2 == BP_OP2 || op2 == FBP_OP2) && c < 16 && cc < 4
  {
    Bit(a) * 0x20000000 + c * 0x2000000 + op2 * 0x400000 + cc * 0x100000 + Bit(p) * 0x80000 + Scatter(D19, x)
  }

  /** Br and its floating-point form. */
  function Br(op2: nat, c: nat, a: bool, x: int): (w: nat)
    requires (op2 == BR_OP2 || op2 == FB_OP2) && c < 16
  {
    Bit(a) * 0x20000000 + c * 0x2000000 + op2 * 0x400000 + Scatter(D22, x)
  }

  function Call(x: int): (w: nat) {
    0x40000000 + Scatter(D30, x)
  }

  /** The second operand of a compare-and-branch, and the bits it sets. */
  datatype Operand = Reg(r: nat) | Imm(i: int)

  predicate ValidOperand(o: Operand) {
    match o
    case Reg(r) => r < 32
    case Imm(i) => -16 <= i < 16
  }

  function OperandBits(o: Operand): (d: nat) {
    match o
    case Reg(r) => r
    case Imm(i) => 0x2000 + i % 32
  }

  function OperandOf(w: nat): (o: Operand) {
    if InvImmed(w) == 1 then Imm(Extend(w % 32, 32)) else Reg(InvRs2(w))
  }

  /** cc is icc (0) or xcc (2): its low bit belongs to the displacement. */
  function Cbcond(c: nat, cc: nat, s1: nat, o: Operand, x: int): (w: nat)
    requires c < 16 && (cc == 0 || cc == 2) && s1 < 32 && ValidOperand(o)
  {
    CondCbcond(c) * 0x2000000 + BPR_OP2 * 0x400000 + cc * 0x100000 + Scatter(D10, x) + s1 * 0x4000 + OperandBits(o)
  }

  // ---------------------------------------------------------------------
  // Decoding and patching any branch word.

  function FormatOf(w: nat, hasCbcond: bool): (f: Option<Format>) {
    match InvOp(w)
    case 1 => Some(D30)
    case 0 =>
      (match InvOp2(w)
       case 5 => Some(D19)
       case 1 => Some(D19)
       case 6 => Some(D22)
       case 2 => Some(D22)
       case 3 => Some(if IsCbcond(w, hasCbcond) then D10 else D16)
       case _ => None)
    case _ => None
  }

  function BranchDestination(w: nat, pos: int, hasCbcond: bool): (r: Option<int>) {
    match FormatOf(w, hasCbcond)
    case Some(f) => Some(Gather(f, w) + pos)
    case None => None
  }

  /** The word at pos made to branch to dest. */
  function PatchedBranch(dest: int, w: nat, pos: int, hasCbcond: bool): (v: Option<nat>)
  {
    match FormatOf(w, hasCbcond)
    case Some(f) => FieldBelow(f, w); Some(w - Field(f, w) + Scatter(f, dest - pos))
    case None => None
  }

  /** Where the word at pos goes once it has been patched to dest. */
  function DestinationPatched(dest: int, w: nat, pos: int, hasCbcond: bool): (r: Option<int>) {
    match PatchedBranch(dest, w, pos, hasCbcond)
    case Some(v) => BranchDestination(v, pos, hasCbcond)
    case None => None
  }

  lemma FieldBelow(f: Format, w: nat)
    ensures Field(f, w) <= w
  {
    if f == D10 {
      Digits10(w);
    }
  }

  // ---------------------------------------------------------------------
  // Every emitted word decodes to what was assembled.

  /** The digits of a register branch, from the bottom. */
  lemma BprFields(w: nat, lo: nat, s1: nat, p: nat, hi: nat, c: nat, a: nat)
    requires lo < 0x4000 && s1 < 32 && p < 2 && hi < 4 && c < 16 && a < 2
    requires w == lo + 0x4000 * s1 + 0x80000 * p + 0x100000 * hi + 0x400000 * BPR_OP2 + 0x2000000 * c + 0x20000000 * a
    ensures w % 0x4000 == lo && InvRs1(w) == s1 && InvPredict(w) == p && w / 0x100000 % 4 == hi
    ensures InvOp2(w) == BPR_OP2 && InvCond(w) == c && InvAnnul(w) == a && InvOp(w) == 0 && w < 0x100000000
  {
    var h5 := c + 16 * a;
    var h4 := BPR_OP2 + 8 * h5;
    var h3 := hi + 4 * h4;
    var h2 := p + 2 * h3;
    Peel(w, 1, 0x4000, 0x4000, lo, s1 + 32 * h2);
    Peel(w, 0x4000, 32, 0x80000, s1, h2);
    Peel(w, 0x80000, 2, 0x100000, p, h3);
    Peel(w, 0x100000, 4, 0x400000, hi, h4);
    Peel(w, 0x400000, 8, 0x2000000, BPR_OP2, h5);
    Peel(w, 0x2000000, 16, 0x20000000, c, a);
    Peel(w, 0x20000000, 2, 0x40000000, a, 0);
  }

  lemma BprDecodes(c: nat, a: bool, p: bool, s1: nat, target: int, pc: int, hasCbcond: bool)
    requires c <= RC_LAST && s1 < 32 && Reaches(D16, target - pc)
    ensures var w := Bpr(c, a, p, s1, target - pc);
            && !IsCbcond(w, hasCbcond) && BranchDestination(w, pc, hasCbcond) == Some(target)
            && InvCond(w) == c && InvRs1(w) == s1 && InvAnnul(w) == Bit(a) && InvPredict(w) == Bit(p)
            && w < 0x100000000
  {
    var x := target - pc;
    var w := Bpr(c, a, p, s1, x);
    BprFields(w, x / 4 % 0x4000, s1, Bit(p), x / 0x10000 % 4, c, Bit(a));
    GatherScatter(D16, x, w);
  }

  /** How the 22 bits below op2 divide: a displacement of n values, and m above it. */
  predicate Halves(n: nat, m: nat) {
    (n == 0x80000 && m == 8) || (n == 0x400000 && m == 1)
  }

  /** The digits of the other branches: displacement of n values, a middle part of
      m values, op2, condition, annul bit. */
  lemma BranchFields(w: nat, d: nat, n: nat, mid: nat, m: nat, op2: nat, c: nat, a: nat)
    requires Halves(n, m) && d < n && mid < m && op2 < 8 && c < 16 && a < 2
    requires w == d + n * mid + 0x400000 * op2 + 0x2000000 * c + 0x20000000 * a
    ensures w % n == d && w / n % m == mid
    ensures InvOp2(w) == op2 && InvCond(w) == c && InvAnnul(w) == a && InvOp(w) == 0 && w < 0x100000000
  {
    var h := op2 + 8 * (c + 16 * a);
    BottomFields(w, d, n, mid, m, h);
    TopFields(w, op2, c, a);
  }

  lemma BottomFields(w: nat, d: nat, n: nat, mid: nat, m: nat, h: nat)
    requires Halves(n, m) && d < n && mid < m && w == d + n * mid + 0x400000 * h
    ensures w % n == d && w / n % m == mid && w / 0x400000 == h
  {
    assert n * (mid + m * h) == n * mid + 0x400000 * h by { assert n * (m * h) == (n * m) * h; }
    ModUnique(w, n, mid + m * h, d);
    Peel(w, n, m, 0x400000, mid, h);
  }

  lemma TopFields(w: nat, op2: nat, c: nat, a: nat)
    requires op2 < 8 && c < 16 && a < 2 && w / 0x400000 == op2 + 8 * (c + 16 * a)
    ensures InvOp2(w) == op2 && InvCond(w) == c && InvAnnul(w) == a && InvOp(w) == 0 && w < 0x100000000
  {
    Peel(w, 0x400000, 8, 0x2000000, op2, c + 16 * a);
    Peel(w, 0x2000000, 16, 0x20000000, c, a);
    Peel(w, 0x20000000, 2, 0x40000000, a, 0);
  }

  lemma BpDecodes(op2: nat, c: nat, a: bool, cc: nat, p: bool, target: int, pc: int, hasCbcond: bool)
    requires (op2 == BP_OP2 || op2 == FBP_OP2) && c < 16 && cc < 4 && Reaches(D19, target - pc)
    ensures var w := Bp(op2, c, a, cc, p, target - pc);
            && !IsCbcond(w, hasCbcond) && BranchDestination(w, pc, hasCbcond) == Some(target)
            && InvOp2(w) == op2 && InvCond(w) == c && InvCC(w) == cc && InvAnnul(w) == Bit(a)
            && InvPredict(w) == Bit(p) && w < 0x100000000
  {
    var x := target - pc;
    var w := Bp(op2, c, a, cc, p, x);
    BranchFields(w, x / 4 % 0x80000, 0x80000, Bit(p) + 2 * cc, 8, op2, c, Bit(a));
    MiddleFields(w, Bit(p), cc);
    GatherScatter(D19, x, w);
  }

  lemma MiddleFields(w: nat, p: nat, cc: nat)
    requires w / 0x80000 % 8 == p + 2 * cc && p < 2 && cc < 4
    ensures InvPredict(w) == p && InvCC(w) == cc
  {
    var h := w / 0x80000;
    Peel(w, 0x80000, 2, 0x100000, p, cc + 4 * (h / 8));
    Peel(w, 0x100000, 4, 0x400000, cc, h / 8);
  }

  lemma BrDecodes(op2: nat, c: nat, a: bool, target: int, pc: int, hasCbcond: bool)
    requires (op2 == BR_OP2 || op2 == FB_OP2) && c < 16 && Reaches(D22, target - pc)
    ensures var w := Br(op2, c, a, target - pc);
            && !IsCbcond(w, hasCbcond) && BranchDestination(w, pc, hasCbcond) == Some(target)
            && InvOp2(w) == op2 && InvCond(w) == c && InvAnnul(w) == Bit(a) && w < 0x100000000
  {
    var x := target - pc;
    var w := Br(op2, c, a, x);
    BranchFields(w, x / 4 % 0x400000, 0x400000, 0, 1, op2, c, Bit(a));
    GatherScatter(D22, x, w);
  }

  lemma CallDecodes(target: int, pc: int, hasCbcond: bool)
    requires Reaches(D30, target - pc)
    ensures var w := Call(target - pc); BranchDestination(w, pc, hasCbcond) == Some(target) && w < 0x100000000
  {
    var x := target - pc;
    Peel(Call(x), 1, 0x40000000, 0x40000000, x / 4 % 0x40000000, 1);
    GatherScatter(D30, x, Call(x));
  }

  /** The digits of a compare-and-branch word: low operand bits, displacement,
      immediate bit, rs1, displacement, cc bit, condition and its high bit. */
  lemma CbcondFields(w: nat, low: nat, lo: nat, imm: nat, s1: nat, hi: nat, cx: nat, k: nat, b: nat)
    requires low < 32 && lo < 0x100 && imm < 2 && s1 < 32 && hi < 4 && cx < 2 && k < 8 && b < 2
    requires w == low + 0x20 * lo + 0x2000 * imm + 0x4000 * s1 + 0x80000 * hi + 0x200000 * cx
                  + 0x400000 * BPR_OP2 + 0x2000000 * (k + 8 + 16 * b)
    ensures InvRs2(w) == low && InvImmed(w) == imm && InvRs1(w) == s1 && IsCxb(w) == cx
    ensures w / 0x20 % 0x100 == lo && w / 0x80000 % 4 == hi
    ensures InvOp2(w) == BPR_OP2 && InvCond(w) == k + 8 && InvCondCbcond(w) == k + 8 * b && InvOp(w) == 0
    ensures w < 0x100000000
  {
    var h5 := k + 8 + 16 * b;
    var h4 := BPR_OP2 + 8 * h5;
    var h3 := cx + 2 * h4;
    var h2 := hi + 4 * h3;
    var h1 := s1 + 32 * h2;
    Peel(w, 1, 32, 32, low, lo + 0x100 * (imm + 2 * h1));
    Peel(w, 32, 0x100, 0x2000, lo, imm + 2 * h1);
    Peel(w, 0x2000, 2, 0x4000, imm, h1);
    Peel(w, 0x4000, 32, 0x80000, s1, h2);
    Peel(w, 0x80000, 4, 0x200000, hi, h3);
    Peel(w, 0x200000, 2, 0x400000, cx, h4);
    Peel(w, 0x400000, 8, 0x2000000, BPR_OP2, h5);
    Peel(w, 0x2000000, 8, 0x10000000, k, 1 + 2 * b);
    Peel(w, 0x2000000, 16, 0x20000000, k + 8, b);
    Peel(w, 0x20000000, 2, 0x40000000, b, 0);
  }

  lemma OperandSplit(o: Operand)
    requires ValidOperand(o)
    ensures var d := OperandBits(o);
            && d == d % 32 + 0x2000 * (if o.Imm? then 1 else 0)
            && o == if o.Imm? then Imm(Extend(d % 32, 32)) else Reg(d % 32)
  {
    if o.Imm? {
      Whole(o.i, 32);
    }
  }

  lemma CbcondDecodes(c: nat, cc: nat, s1: nat, o: Operand, target: int, pc: int)
    requires c < 16 && (cc == 0 || cc == 2) && s1 < 32 && ValidOperand(o) && Reaches(D10, target - pc)
    ensures var w := Cbcond(c, cc, s1, o, target - pc);
            && IsCbcond(w, true) && BranchDestination(w, pc, true) == Some(target)
            && InvCondCbcond(w) == c && IsCxb(w) == cc / 2 && InvRs1(w) == s1 && OperandOf(w) == o
            && w < 0x100000000
  {
    var x := target - pc;
    var w := Cbcond(c, cc, s1, o, x);
    CbcondAssembled(c, cc, s1, o, x, w);
    GatherScatter(D10, x, w);
  }

  lemma CbcondAssembled(c: nat, cc: nat, s1: nat, o: Operand, x: int, w: nat)
    requires c < 16 && (cc == 0 || cc == 2) && s1 < 32 && ValidOperand(o) && w == Cbcond(c, cc, s1, o, x)
    ensures FormatOf(w, true) == Some(D10) && Field(D10, w) == Scatter(D10, x) && IsCbcond(w, true)
    ensures InvCondCbcond(w) == c && IsCxb(w) == cc / 2 && InvRs1(w) == s1 && OperandOf(w) == o && w < 0x100000000
  {
    var low, imm := OperandBits(o) % 32, if o.Imm? then 1 else 0;
    OperandSplit(o);
    CbcondFields(w, low, x / 4 % 0x100, imm, s1, x / 0x400 % 4, cc / 2, c % 8, c / 8);
  }

  // ---------------------------------------------------------------------
  // Patching.

  /** Replacing the displacement leaves everything above it, and the format. */
  lemma Repatched(f: Format, w: nat, x: int, v: nat)
    requires v == w - Field(f, w) + Scatter(f, x)
    ensures Field(f, v) == Scatter(f, x) && if f == D30 then v / 0x40000000 == w / 0x40000000 else v / 0x400000 == w / 0x400000
  {
    match f {
      case D10 => Repatched10(w, x, v);
      case D16 => Repatched16(w, x, v);
      case D19 =>
        Peel(v, 1, 0x80000, 0x80000, x / 4 % 0x80000, w / 0x80000);
        DivDiv(w, 0x80000, 8);
        DivDiv(v, 0x80000, 8);
      case D22 => Peel(v, 1, 0x400000, 0x400000, x / 4 % 0x400000, w / 0x400000);
      case D30 => Peel(v, 1, 0x40000000, 0x40000000, x / 4 % 0x40000000, w / 0x40000000);
    }
  }

  lemma Repatched16(w: nat, x: int, v: nat)
    requires v == w - Field(D16, w) + Scatter(D16, x)
    ensures Field(D16, v) == Scatter(D16, x) && v / 0x400000 == w / 0x400000
  {
    var mid, top := w / 0x4000 % 0x40, w / 0x400000;
    var lo, hi := x / 4 % 0x4000, x / 0x10000 % 4;
    DivDiv(w, 0x4000, 0x40);
    DivDiv(w, 0x100000, 4);
    assert w == w % 0x4000 + 0x4000 * (mid + 0x40 * (w / 0x100000 % 4 + 4 * top));
    assert v == lo + 0x4000 * (mid + 0x40 * (hi + 4 * top));
    Peel(v, 1, 0x4000, 0x4000, lo, mid + 0x40 * (hi + 4 * top));
    Peel(v, 0x4000, 0x40, 0x100000, mid, hi + 4 * top);
    Peel(v, 0x100000, 4, 0x400000, hi, top);
  }

  lemma Repatched10(w: nat, x: int, v: nat)
    requires v == w - Field(D10, w) + Scatter(D10, x)
    ensures Field(D10, v) == Scatter(D10, x) && v / 0x400000 == w / 0x400000
  {
    Digits10(w);
    Build10(v, w % 0x20, x / 4 % 0x100, w / 0x2000 % 0x40, x / 0x400 % 4, w / 0x200000);
    DivDiv(w, 0x200000, 2);
    DivDiv(v, 0x200000, 2);
  }

  lemma Digits10(w: nat)
    ensures w == w % 0x20 + 0x20 * (w / 0x20 % 0x100) + 0x2000 * (w / 0x2000 % 0x40)
                 + 0x80000 * (w / 0x80000 % 4) + 0x200000 * (w / 0x200000)
  {
    DivDiv(w, 0x20, 0x100);
    DivDiv(w, 0x2000, 0x40);
    DivDiv(w, 0x80000, 4);
  }

  lemma Build10(v: nat, low: nat, lo: nat, mid: nat, hi: nat, top: nat)
    requires low < 0x20 && lo < 0x100 && mid < 0x40 && hi < 4
    requires v == low + 0x20 * lo + 0x2000 * mid + 0x80000 * hi + 0x200000 * top
    ensures v / 0x20 % 0x100 == lo && v / 0x80000 % 4 == hi && v / 0x200000 == top
  {
    var h3 := hi + 4 * top;
    var h2 := mid + 0x40 * h3;
    Peel(v, 1, 0x20, 0x20, low, lo + 0x100 * h2);
    Peel(v, 0x20, 0x100, 0x2000, lo, h2);
    Peel(v, 0x2000, 0x40, 0x80000, mid, h3);
    Peel(v, 0x80000, 4, 0x200000, hi, top);
  }

  lemma SameTop(w: nat, v: nat, hasCbcond: bool)
    requires v / 0x400000 == w / 0x400000
    ensures FormatOf(v, hasCbcond) == FormatOf(w, hasCbcond)
  {
    DivDiv(w, 0x400000, 8);
    DivDiv(v, 0x400000, 8);
    DivDiv(w, 0x400000, 0x100);
    DivDiv(v, 0x400000, 0x100);
  }

  /** A patched word branches to the new destination and differs from the old one
      only in its displacement. */
  lemma PatchReaches(dest: int, w: nat, pos: int, hasCbcond: bool, f: Format)
    requires FormatOf(w, hasCbcond) == Some(f) && Reaches(f, dest - pos)
    ensures DestinationPatched(dest, w, pos, hasCbcond) == Some(dest)
    ensures var v := PatchedBranch(dest, w, pos, hasCbcond).value;
            && FormatOf(v, hasCbcond) == Some(f) && v - Field(f, v) == w - Field(f, w)
  {
    var v := PatchedBranch(dest, w, pos, hasCbcond).value;
    Repatched(f, w, dest - pos, v);
    if f != D30 {
      SameTop(w, v, hasCbcond);
    }
    GatherScatter(f, dest - pos, v);
  }

  /** Patching a word with its own destination changes nothing, whatever the word. */
  lemma PatchSame(w: nat, pos: int, hasCbcond: bool)
    ensures match BranchDestination(w, pos, hasCbcond)
            case Some(dest) => PatchedBranch(dest, w, pos, hasCbcond) == Some(w)
            case None => PatchedBranch(0, w, pos, hasCbcond) == None
  {
    match FormatOf(w, hasCbcond)
    case Some(f) => ScatterGather(f, w);
    case None =>
  }

  // ---------------------------------------------------------------------
  // Choosing the short form.

  /** A label, bound to an address or not: an unbound one counts as here. */
  function TargetDistance(lab: Option<int>, pc: int): int {
    match lab
    case Some(target) => target
    case None => pc
  }

  predicate UseCbcond(enabled: bool, cbcondBefore: bool, lab: Option<int>, pc: int) {
    enabled && !cbcondBefore && -0x800 <= TargetDistance(lab, pc) - pc < 0x800
  }

  /** The short form is chosen, for a bound label, exactly when its displacement
      reaches the target, and for an unbound one always: both unless the word before
      is a compare-and-branch. */
  lemma UseCbcondExact(cbcondBefore: bool, lab: Option<int>, pc: int)
    requires lab.Some? ==> (lab.value - pc) % 4 == 0
    ensures UseCbcond(true, cbcondBefore, lab, pc) <==> !cbcondBefore && (lab.Some? ==> Reaches(D10, lab.value - pc))
    ensures !UseCbcond(false, cbcondBefore, lab, pc)
  {
  }

  /** The word a compare-and-branch emits for a label: an unbound one gets its own
      address, to be patched when the label is bound. */
  function CbcondTo(c: nat, cc: nat, s1: nat, o: Operand, lab: Option<int>, pc: int): (w: nat)
    requires c < 16 && (cc == 0 || cc == 2) && s1 < 32 && ValidOperand(o)
  {
    Cbcond(c, cc, s1, o, TargetDistance(lab, pc) - pc)
  }

  /** When the short form is chosen, its displacement fits, and the word branches to
      the label, or to itself while the label is unbound. */
  lemma UseCbcondFits(cbcondBefore: bool, lab: Option<int>, pc: int, c: nat, cc: nat, s1: nat, o: Operand)
    requires lab.Some? ==> (lab.value - pc) % 4 == 0
    requires c < 16 && (cc == 0 || cc == 2) && s1 < 32 && ValidOperand(o)
    requires UseCbcond(true, cbcondBefore, lab, pc)
    ensures Reaches(D10, TargetDistance(lab, pc) - pc)
    ensures BranchDestination(CbcondTo(c, cc, s1, o, lab, pc), pc, true) == Some(TargetDistance(lab, pc))
  {
    CbcondDecodes(c, cc, s1, o, TargetDistance(lab, pc), pc);
  }

  /** Any branch word, patched to dest, goes there if and only if its format reaches
      that far. */
  lemma PatchExact(dest: int, w: nat, pos: int, hasCbcond: bool, f: Format)
    requires FormatOf(w, hasCbcond) == Some(f)
    ensures DestinationPatched(dest, w, pos, hasCbcond) == Some(dest)
            <==> Reaches(f, dest - pos)
  {
    var v := PatchedBranch(dest, w, pos, hasCbcond).value;
    Repatched(f, w, dest - pos, v);
    assert FormatOf(v, hasCbcond) == Some(f) by {
      if f != D30 {
        SameTop(w, v, hasCbcond);
      }
    }
    ScatterGather(f, v);
    if Reaches(f, dest - pos) {
      GatherScatter(f, dest - pos, v);
    }
  }

  /** The short form chosen for an unbound label is right, once the label is bound,
      if and only if the label is within the 10-bit displacement after all. */
  lemma UnboundExact(dest: int, pc: int, c: nat, cc: nat, s1: nat, o: Operand)
    requires c < 16 && (cc == 0 || cc == 2) && s1 < 32 && ValidOperand(o)
    ensures UseCbcond(true, false, None, pc)
    ensures DestinationPatched(dest, CbcondTo(c, cc, s1, o, None, pc), pc, true) == Some(dest) <==> Reaches(D10, dest - pc)
  {
    var w := CbcondTo(c, cc, s1, o, None, pc);
    CbcondAssembled(c, cc, s1, o, 0, w);
    PatchExact(dest, w, pc, true, D10);
  }

  /** So choosing the short form does not make it fit: a label bound 2048 bytes
      ahead is missed. */
  lemma UnboundMisses(pc: int, c: nat, cc: nat, s1: nat, o: Operand)
    requires c < 16 && (cc == 0 || cc == 2) && s1 < 32 && ValidOperand(o)
    ensures UseCbcond(true, false, None, pc)
    ensures DestinationPatched(pc + 0x800, CbcondTo(c, cc, s1, o, None, pc), pc, true) == Some(pc - 0x800)
  {
    var w := CbcondTo(c, cc, s1, o, None, pc);
    CbcondAssembled(c, cc, s1, o, 0, w);
    PatchMisses(w, pc);
  }

  lemma PatchMisses(w: nat, pc: int)
    requires FormatOf(w, true) == Some(D10)
    ensures DestinationPatched(pc + 0x800, w, pc, true) == Some(pc - 0x800)
  {
    assert Scatter(D10, 0x800) == Scatter(D10, -0x800);
    PatchReaches(pc - 0x800, w, pc, true, D10);
  }
}
