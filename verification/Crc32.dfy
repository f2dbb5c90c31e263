/** The checksum of a separate debug file: a table-driven loop over bytes, proved
    to be the bit-serial reflected CRC-32 of section 8 of RFC 1952. */
module Crc32 {

  const POLY: bv32 := 0xedb88320

  // ---------------------------------------------------------------------
  // The reference: one bit of the message at a time, lowest bit of a byte first.

  function Step(c: bv32): (r: bv32) {
    if c & 1 == 1 then (c >> 1) ^ POLY else c >> 1
  }

  function AddBit(c: bv32, bit: bool): (r: bv32) {
    Step(if bit then c ^ 1 else c)
  }

  function Fold<T>(add: (T, bool) -> T, c: T, bits: seq<bool>): (r: T)
    decreases |bits|
  {
    if bits == [] then c else Fold(add, add(c, bits[0]), bits[1..])
  }

  /** The n lowest bits of b, lowest first. */
  function LowBits<T>(odd: T -> bool, half: T -> T, b: T, n: nat): (r: seq<bool>) {
    if n == 0 then [] else [odd(b)] + LowBits(odd, half, half(b), n - 1)
  }

  predicate Odd(b: bv32) {
    b & 1 == 1
  }

  function Half(b: bv32): bv32 {
    b >> 1
  }

  function ByteBits(b: bv8): (r: seq<bool>) {
    LowBits(Odd, Half, b as bv32, 8)
  }

  function AllBits<B>(bits: B -> seq<bool>, s: seq<B>): (r: seq<bool>) {
    if s == [] then [] else AllBits(bits, s[..|s| - 1]) + bits(s[|s| - 1])
  }

  /** The CRC of s continued from an earlier CRC. */
  function Crc(crc: bv32, s: seq<bv8>): (r: bv32) {
    Not(Fold(AddBit, Not(crc), AllBits(ByteBits, s)))
  }

  function Not(x: bv32): bv32 {
    !x & 0xffffffff
  }

  // ---------------------------------------------------------------------
  // The table, in rows of eight.

  datatype Eight = Eight(v0: bv32, v1: bv32, v2: bv32, v3: bv32, v4: bv32, v5: bv32, v6: bv32, v7: bv32)

  function Rows0(r: bv32): (s: Eight)
    requires r < 8
  {
    match r
    case 0 => Eight(0x00000000, 0x77073096, 0xee0e612c, 0x990951ba, 0x076dc419, 0x706af48f, 0xe963a535, 0x9e6495a3)
    case 1 => Eight(0x0edb8832, 0x79dcb8a4, 0xe0d5e91e, 0x97d2d988, 0x09b64c2b, 0x7eb17cbd, 0xe7b82d07, 0x90bf1d91)
    case 2 => Eight(0x1db71064, 0x6ab020f2, 0xf3b97148, 0x84be41de, 0x1adad47d, 0x6ddde4eb, 0xf4d4b551, 0x83d385c7)
    case 3 => Eight(0x136c9856, 0x646ba8c0, 0xfd62f97a, 0x8a65c9ec, 0x14015c4f, 0x63066cd9, 0xfa0f3d63, 0x8d080df5)
    case 4 => Eight(0x3b6e20c8, 0x4c69105e, 0xd56041e4, 0xa2677172, 0x3c03e4d1, 0x4b04d447, 0xd20d85fd, 0xa50ab56b)
    case 5 => Eight(0x35b5a8fa, 0x42b2986c, 0xdbbbc9d6, 0xacbcf940, 0x32d86ce3, 0x45df5c75, 0xdcd60dcf, 0xabd13d59)
    case 6 => Eight(0x26d930ac, 0x51de003a, 0xc8d75180, 0xbfd06116, 0x21b4f4b5, 0x56b3c423, 0xcfba9599, 0xb8bda50f)
    case _ => Eight(0x2802b89e, 0x5f058808, 0xc60cd9b2, 0xb10be924, 0x2f6f7c87, 0x58684c11, 0xc1611dab, 0xb6662d3d)
  }

  function Rows1(r: bv32): (s: Eight)
    requires 8 <= r < 16
  {
    match r
    case 8 => Eight(0x76dc4190, 0x01db7106, 0x98d220bc, 0xefd5102a, 0x71b18589, 0x06b6b51f, 0x9fbfe4a5, 0xe8b8d433)
    case 9 => Eight(0x7807c9a2, 0x0f00f934, 0x9609a88e, 0xe10e9818, 0x7f6a0dbb, 0x086d3d2d, 0x91646c97, 0xe6635c01)
    case 10 => Eight(0x6b6b51f4, 0x1c6c6162, 0x856530d8, 0xf262004e, 0x6c0695ed, 0x1b01a57b, 0x8208f4c1, 0xf50fc457)
    case 11 => Eight(0x65b0d9c6, 0x12b7e950, 0x8bbeb8ea, 0xfcb9887c, 0x62dd1ddf, 0x15da2d49, 0x8cd37cf3, 0xfbd44c65)
    case 12 => Eight(0x4db26158, 0x3ab551ce, 0xa3bc0074, 0xd4bb30e2, 0x4adfa541, 0x3dd895d7, 0xa4d1c46d, 0xd3d6f4fb)
    case 13 => Eight(0x4369e96a, 0x346ed9fc, 0xad678846, 0xda60b8d0, 0x44042d73, 0x33031de5, 0xaa0a4c5f, 0xdd0d7cc9)
    case 14 => Eight(0x5005713c, 0x270241aa, 0xbe0b1010, 0xc90c2086, 0x5768b525, 0x206f85b3, 0xb966d409, 0xce61e49f)
    case _ => Eight(0x5edef90e, 0x29d9c998, 0xb0d09822, 0xc7d7a8b4, 0x59b33d17, 0x2eb40d81, 0xb7bd5c3b, 0xc0ba6cad)
  }

  function Rows2(r: bv32): (s: Eight)
    requires 16 <= r < 24
  {
    match r
    case 16 => Eight(0xedb88320, 0x9abfb3b6, 0x03b6e20c, 0x74b1d29a, 0xead54739, 0x9dd277af, 0x04db2615, 0x73dc1683)
    case 17 => Eight(0xe3630b12, 0x94643b84, 0x0d6d6a3e, 0x7a6a5aa8, 0xe40ecf0b, 0x9309ff9d, 0x0a00ae27, 0x7d079eb1)
    case 18 => Eight(0xf00f9344, 0x8708a3d2, 0x1e01f268, 0x6906c2fe, 0xf762575d, 0x806567cb, 0x196c3671, 0x6e6b06e7)
    case 19 => Eight(0xfed41b76, 0x89d32be0, 0x10da7a5a, 0x67dd4acc, 0xf9b9df6f, 0x8ebeeff9, 0x17b7be43, 0x60b08ed5)
    case 20 => Eight(0xd6d6a3e8, 0xa1d1937e, 0x38d8c2c4, 0x4fdff252, 0xd1bb67f1, 0xa6bc5767, 0x3fb506dd, 0x48b2364b)
    case 21 => Eight(0xd80d2bda, 0xaf0a1b4c, 0x36034af6, 0x41047a60, 0xdf60efc3, 0xa867df55, 0x316e8eef, 0x4669be79)
    case 22 => Eight(0xcb61b38c, 0xbc66831a, 0x256fd2a0, 0x5268e236, 0xcc0c7795, 0xbb0b4703, 0x220216b9, 0x5505262f)
    case _ => Eight(0xc5ba3bbe, 0xb2bd0b28, 0x2bb45a92, 0x5cb36a04, 0xc2d7ffa7, 0xb5d0cf31, 0x2cd99e8b, 0x5bdeae1d)
  }

  function Rows3(r: bv32): (s: Eight)
  {
    match r
    case 24 => Eight(0x9b64c2b0, 0xec63f226, 0x756aa39c, 0x026d930a, 0x9c0906a9, 0xeb0e363f, 0x72076785, 0x05005713)
    case 25 => Eight(0x95bf4a82, 0xe2b87a14, 0x7bb12bae, 0x0cb61b38, 0x92d28e9b, 0xe5d5be0d, 0x7cdcefb7, 0x0bdbdf21)
    case 26 => Eight(0x86d3d2d4, 0xf1d4e242, 0x68ddb3f8, 0x1fda836e, 0x81be16cd, 0xf6b9265b, 0x6fb077e1, 0x18b74777)
    case 27 => Eight(0x88085ae6, 0xff0f6a70, 0x66063bca, 0x11010b5c, 0x8f659eff, 0xf862ae69, 0x616bffd3, 0x166ccf45)
    case 28 => Eight(0xa00ae278, 0xd70dd2ee, 0x4e048354, 0x3903b3c2, 0xa7672661, 0xd06016f7, 0x4969474d, 0x3e6e77db)
    case 29 => Eight(0xaed16a4a, 0xd9d65adc, 0x40df0b66, 0x37d83bf0, 0xa9bcae53, 0xdebb9ec5, 0x47b2cf7f, 0x30b5ffe9)
    case 30 => Eight(0xbdbdf21c, 0xcabac28a, 0x53b39330, 0x24b4a3a6, 0xbad03605, 0xcdd70693, 0x54de5729, 0x23d967bf)
    case _ => Eight(0xb3667a2e, 0xc4614ab8, 0x5d681b02, 0x2a6f2b94, 0xb40bbe37, 0xc30c8ea1, 0x5a05df1b, 0x2d02ef8d)
  }

  function Row(r: bv32): (s: Eight) {
    if r < 8 then Rows0(r) else if r < 16 then Rows1(r) else if r < 24 then Rows2(r) else Rows3(r)
  }

  function Table(i: bv32): (v: bv32) {
    Pick(Row(i >> 3), i & 7)
  }

  function Pick(s: Eight, k: bv32): (v: bv32)
  {
    match k
    case 0 => s.v0
    case 1 => s.v1
    case 2 => s.v2
    case 3 => s.v3
    case 4 => s.v4
    case 5 => s.v5
    case 6 => s.v6
    case _ => s.v7
  }

  function Step8(c: bv32): (r: bv32) {
    Step(Step(Step(Step(Step(Step(Step(Step(c))))))))
  }

  lemma Octal(j: bv32)
    requires j < 8
    ensures j == 0 || j == 1 || j == 2 || j == 3 || j == 4 || j == 5 || j == 6 || j == 7
  {
  }

  lemma Rows0Correct(r: bv32, j: bv32)
    requires r < 8 && j < 8
    ensures Pick(Rows0(r), j) == Step8((r << 3) | j)
  {
    Octal(r);
    if r == 0 {
      Octal(j);
    } else if r == 1 {
      Octal(j);
    } else if r == 2 {
      Octal(j);
    } else if r == 3 {
      Octal(j);
    } else if r == 4 {
      Octal(j);
    } else if r == 5 {
      Octal(j);
    } else if r == 6 {
      Octal(j);
    } else {
      Octal(j);
    }
  }

  lemma Rows1Correct(r: bv32, j: bv32)
    requires 8 <= r < 16 && j < 8
    ensures Pick(Rows1(r), j) == Step8((r << 3) | j)
  {
    Octal(r - 8);
    if r == 8 {
      Octal(j);
    } else if r == 9 {
      Octal(j);
    } else if r == 10 {
      Octal(j);
    } else if r == 11 {
      Octal(j);
    } else if r == 12 {
      Octal(j);
    } else if r == 13 {
      Octal(j);
    } else if r == 14 {
      Octal(j);
    } else {
      Octal(j);
    }
  }

  lemma Rows2Correct(r: bv32, j: bv32)
    requires 16 <= r < 24 && j < 8
    ensures Pick(Rows2(r), j) == Step8((r << 3) | j)
  {
    Octal(r - 16);
    if r == 16 {
      Octal(j);
    } else if r == 17 {
      Octal(j);
    } else if r == 18 {
      Octal(j);
    } else if r == 19 {
      Octal(j);
    } else if r == 20 {
      Octal(j);
    } else if r == 21 {
      Octal(j);
    } else if r == 22 {
      Octal(j);
    } else {
      Octal(j);
    }
  }

  lemma Rows3Correct(r: bv32, j: bv32)
    requires 24 <= r < 32 && j < 8
    ensures Pick(Rows3(r), j) == Step8((r << 3) | j)
  {
    Octal(r - 24);
    if r == 24 {
      Octal(j);
    } else if r == 25 {
      Octal(j);
    } else if r == 26 {
      Octal(j);
    } else if r == 27 {
      Octal(j);
    } else if r == 28 {
      Octal(j);
    } else if r == 29 {
      Octal(j);
    } else if r == 30 {
      Octal(j);
    } else {
      Octal(j);
    }
  }

  /** Every table entry is its index stepped eight times. */
  lemma TableCorrect(i: bv32)
    requires i <= 0xff
    ensures Table(i) == Step8(i)
  {
    assert i == ((i >> 3) << 3) | (i & 7) && i & 7 < 8;
    var r := i >> 3;
    if r < 8 {
      Rows0Correct(r, i & 7);
    } else if r < 16 {
      Rows1Correct(r, i & 7);
    } else if r < 24 {
      Rows2Correct(r, i & 7);
    } else {
      Rows3Correct(r, i & 7);
    }
  }

  // ---------------------------------------------------------------------
  // Stepping is linear, so a byte's worth of steps splits at the low byte.

  lemma XorParts(x: bv32, y: bv32)
    ensures (x ^ y) >> 1 == (x >> 1) ^ (y >> 1)
    ensures (x ^ y) & 1 == (x & 1) ^ (y & 1)
    ensures x & 1 == 0 || x & 1 == 1
  {
  }

  lemma XorShuffle(a: bv32, b: bv32, p: bv32)
    ensures (a ^ b) ^ p == (a ^ p) ^ b && (a ^ b) ^ p == a ^ (b ^ p) && (a ^ p) ^ (b ^ p) == a ^ b
  {
  }

  lemma StepXor(x: bv32, y: bv32)
    ensures Step(x ^ y) == Step(x) ^ Step(y)
  {
    XorParts(x, y);
    XorParts(y, x);
    XorShuffle(x >> 1, y >> 1, POLY);
  }

  /** Steps of a value whose low byte is clear only shift it. */
  lemma HighShifts(x: bv32)
    requires x & 0xff == 0
    ensures Step8(x) == x >> 8
  {
    assert x & 1 == 0 && (x >> 1) & 1 == 0 && (x >> 2) & 1 == 0 && (x >> 3) & 1 == 0;
    assert (x >> 4) & 1 == 0 && (x >> 5) & 1 == 0 && (x >> 6) & 1 == 0 && (x >> 7) & 1 == 0;
    assert Step(x) == x >> 1 && Step(x >> 1) == x >> 2 && Step(x >> 2) == x >> 3 && Step(x >> 3) == x >> 4;
    assert Step(x >> 4) == x >> 5 && Step(x >> 5) == x >> 6 && Step(x >> 6) == x >> 7 && Step(x >> 7) == x >> 8;
  }

  // ---------------------------------------------------------------------
  // The argument, over any registers with an addition that stepping respects.

  function Iterate<T>(f: T -> T, c: T, n: nat): (r: T) {
    if n == 0 then c else Iterate(f, f(c), n - 1)
  }

  lemma Iterate8<T>(f: T -> T, c: T, n: nat)
    requires n == 8
    ensures Iterate(f, c, n) == f(f(f(f(f(f(f(f(c))))))))
  {
    var d := f(f(f(f(c))));
    assert Iterate(f, c, n) == Iterate(f, d, n - 4);
    assert Iterate(f, d, n - 4) == Iterate(f, f(f(d)), n - 6);
  }

  lemma {:induction false} FoldIterate<T(!new)>(step: T -> T, add: (T, bool) -> T, xor: (T, T) -> T, odd: T -> bool,
                                                half: T -> T, zero: T, c: T, b: T, n: nat)
    requires forall c, b :: step(xor(c, b)) == xor(add(c, odd(b)), half(b))
    requires forall c :: xor(c, zero) == c
    requires Iterate(half, b, n) == zero
    ensures Fold(add, c, LowBits(odd, half, b, n)) == Iterate(step, xor(c, b), n)
    decreases n
  {
    if n != 0 {
      FoldIterate(step, add, xor, odd, half, zero, add(c, odd(b)), half(b), n - 1);
      assert LowBits(odd, half, b, n)[1..] == LowBits(odd, half, half(b), n - 1);
    }
  }

  lemma {:induction false} IterateLinear<T(!new)>(step: T -> T, xor: (T, T) -> T, x: T, y: T, n: nat)
    requires forall a, b :: step(xor(a, b)) == xor(step(a), step(b))
    ensures Iterate(step, xor(x, y), n) == xor(Iterate(step, x, n), Iterate(step, y, n))
    decreases n
  {
    if n != 0 {
      IterateLinear(step, xor, step(x), step(y), n - 1);
    }
  }

  /** Adding a byte w bit by bit is one look-up of the low byte and one shift. */
  lemma ByteAtOnce<T(!new)>(step: T -> T, add: (T, bool) -> T, xor: (T, T) -> T, odd: T -> bool, half: T -> T, zero: T,
                            c: T, w: T, lo: T, hi: T)
    requires forall a, b :: step(xor(a, b)) == xor(step(a), step(b))
    requires forall a, b :: step(xor(a, b)) == xor(add(a, odd(b)), half(b))
    requires forall a :: xor(a, zero) == a
    requires Iterate(half, w, 8) == zero
    requires xor(c, w) == xor(lo, hi)
    ensures Fold(add, c, LowBits(odd, half, w, 8)) == xor(Iterate(step, lo, 8), Iterate(step, hi, 8))
  {
    FoldIterate(step, add, xor, odd, half, zero, c, w, 8);
    IterateLinear(step, xor, lo, hi, 8);
  }

  lemma {:induction false} FoldConcat<T>(add: (T, bool) -> T, c: T, x: seq<bool>, y: seq<bool>)
    ensures Fold(add, c, x + y) == Fold(add, Fold(add, c, x), y)
    decreases |x|
  {
    if x == [] {
      assert x + y == y;
    } else {
      assert (x + y)[1..] == x[1..] + y;
      FoldConcat(add, add(c, x[0]), x[1..], y);
    }
  }

  // ---------------------------------------------------------------------
  // The register of the program.

  function Xor(x: bv32, y: bv32): bv32 {
    x ^ y
  }

  lemma Linear()
    ensures forall a, b :: Step(Xor(a, b)) == Xor(Step(a), Step(b))
  {
    forall a, b ensures Step(Xor(a, b)) == Xor(Step(a), Step(b)) {
      StepXor(a, b);
    }
  }

  lemma FoldBits()
    ensures forall a, b :: Step(Xor(a, b)) == Xor(AddBit(a, Odd(b)), Half(b))
  {
    forall a, b ensures Step(Xor(a, b)) == Xor(AddBit(a, Odd(b)), Half(b)) {
      FoldBit(a, b);
    }
  }

  lemma FoldBit(c: bv32, b: bv32)
    ensures Step(Xor(c, b)) == Xor(AddBit(c, Odd(b)), Half(b))
  {
    XorParts(c, b);
    XorParts(b, c);
    XorParts(c, 1);
    assert c >> 1 == (c ^ 1) >> 1;
    XorShuffle(c >> 1, b >> 1, POLY);
  }

  lemma ByteHalves(w: bv32)
    requires w <= 0xff
    ensures Iterate(Half, w, 8) == 0
  {
    Iterate8(Half, w, 8);
  }

  lemma EightSteps(c: bv32)
    ensures Iterate(Step, c, 8) == Step8(c)
  {
    Iterate8(Step, c, 8);
  }

  lemma LowByte(c: bv32, w: bv32)
    requires w <= 0xff
    ensures var x := c ^ w;
            && x == (x & 0xff) ^ (x & 0xffffff00)
            && (x & 0xffffff00) & 0xff == 0
            && (x & 0xffffff00) >> 8 == c >> 8
            && x & 0xff <= 0xff
  {
  }

  function TableStep(c: bv32, b: bv8): (r: bv32) {
    Table((c ^ (b as bv32)) & 0xff) ^ (c >> 8)
  }

  lemma ByteParts(c: bv32, w: bv32, lo: bv32, hi: bv32)
    requires w <= 0xff && Xor(c, w) == Xor(lo, hi)
    ensures Fold(AddBit, c, LowBits(Odd, Half, w, 8)) == Xor(Iterate(Step, lo, 8), Iterate(Step, hi, 8))
  {
    Linear();
    FoldBits();
    ByteHalves(w);
    assert forall a :: Xor(a, 0) == a;
    ByteAtOnce(Step, AddBit, Xor, Odd, Half, 0, c, w, lo, hi);
  }

  lemma LookUp(lo: bv32, hi: bv32)
    requires lo <= 0xff && hi & 0xff == 0
    ensures Iterate(Step, lo, 8) == Table(lo) && Iterate(Step, hi, 8) == hi >> 8
  {
    EightSteps(lo);
    EightSteps(hi);
    TableCorrect(lo);
    HighShifts(hi);
  }

  lemma ByteJoin(c: bv32, w: bv32, lo: bv32, hi: bv32, high: bv32)
    requires w <= 0xff && Xor(c, w) == Xor(lo, hi) && lo <= 0xff && hi & 0xff == 0 && hi >> 8 == high
    ensures Fold(AddBit, c, LowBits(Odd, Half, w, 8)) == Table(lo) ^ high
  {
    ByteParts(c, w, lo, hi);
    LookUp(lo, hi);
  }

  lemma ByteWord(c: bv32, w: bv32, lo: bv32, high: bv32)
    requires w <= 0xff && lo == (c ^ w) & 0xff && high == c >> 8
    ensures Fold(AddBit, c, LowBits(Odd, Half, w, 8)) == Table(lo) ^ high
  {
    LowByte(c, w);
    ByteJoin(c, w, lo, (c ^ w) & 0xffffff00, high);
  }

  /** One turn of the table loop takes in the byte's bits one by one. */
  lemma ByteSerial(c: bv32, b: bv8)
    ensures Fold(AddBit, c, LowBits(Odd, Half, b as bv32, 8)) == Table((c ^ (b as bv32)) & 0xff) ^ (c >> 8)
  {
    ByteWord(c, b as bv32, (c ^ (b as bv32)) & 0xff, c >> 8);
  }

  // ---------------------------------------------------------------------
  // Messages byte by byte and in pieces.

  function Turns<T, B>(turn: (T, B) -> T, c: T, s: seq<B>): (r: T) {
    if s == [] then c else turn(Turns(turn, c, s[..|s| - 1]), s[|s| - 1])
  }

  lemma {:induction false} TurnsFold<T(!new), B(!new)>(turn: (T, B) -> T, add: (T, bool) -> T, bits: B -> seq<bool>,
                                                      c: T, s: seq<B>)
    requires forall c, b :: Fold(add, c, bits(b)) == turn(c, b)
    ensures Fold(add, c, AllBits(bits, s)) == Turns(turn, c, s)
  {
    if s != [] {
      var rest := s[..|s| - 1];
      TurnsFold(turn, add, bits, c, rest);
      FoldConcat(add, c, AllBits(bits, rest), bits(s[|s| - 1]));
    }
  }

  lemma {:induction false} TurnsConcat<T, B>(turn: (T, B) -> T, c: T, s: seq<B>, t: seq<B>)
    ensures Turns(turn, c, s + t) == Turns(turn, Turns(turn, c, s), t)
  {
    if t == [] {
      assert s + t == s;
    } else {
      assert (s + t)[..|s + t| - 1] == s + t[..|t| - 1];
      TurnsConcat(turn, c, s, t[..|t| - 1]);
    }
  }

  /** Feeding a message in two pieces, turning the register over in between. */
  lemma PiecesConcat<T(!new), B>(not: T -> T, turn: (T, B) -> T, c: T, s: seq<B>, t: seq<B>)
    requires forall r :: not(not(r)) == r
    ensures not(Turns(turn, not(not(Turns(turn, not(c), s))), t)) == not(Turns(turn, not(c), s + t))
  {
    TurnsConcat(turn, not(c), s, t);
  }

  lemma NotNot()
    ensures forall r :: Not(Not(r)) == r
  {
  }

  /** The table-driven CRC. */
  function TableCrc(crc: bv32, s: seq<bv8>): (r: bv32) {
    Not(Turns(TableStep, Not(crc), s))
  }

  lemma StepsSerial()
    ensures forall c, b :: Fold(AddBit, c, ByteBits(b)) == TableStep(c, b)
  {
    forall c, b ensures Fold(AddBit, c, ByteBits(b)) == TableStep(c, b) {
      ByteSerial(c, b);
    }
  }

  /** The table-driven CRC is the bit-serial one. */
  lemma TableCrcCorrect(crc: bv32, s: seq<bv8>)
    ensures TableCrc(crc, s) == Crc(crc, s)
  {
    StepsSerial();
    TurnsFold(TableStep, AddBit, ByteBits, Not(crc), s);
  }

  /** Feeding a message in two pieces gives the CRC of the whole. */
  lemma CrcConcat(crc: bv32, s: seq<bv8>, t: seq<bv8>)
    ensures Crc(Crc(crc, s), t) == Crc(crc, s + t)
  {
    TableCrcCorrect(crc, s);
    TableCrcCorrect(Crc(crc, s), t);
    TableCrcCorrect(crc, s + t);
    NotNot();
    PiecesConcat(Not, TableStep, crc, s, t);
  }

  // ---------------------------------------------------------------------
  // The program.

  method DebuglinkCrc(crc: bv32, buf: array<bv8>, len: nat) returns (r: bv32)
    requires len <= buf.Length
    ensures r == Crc(crc, buf[..len])
  {
    r := TableLoop(crc, buf, len);
    TableCrcCorrect(crc, buf[..len]);
  }

  method TableLoop(crc: bv32, buf: array<bv8>, len: nat) returns (r: bv32)
    requires len <= buf.Length
    ensures r == TableCrc(crc, buf[..len])
  {
    var c := Not(crc);
    var k := 0;
    while k < len
      invariant k <= len && c == Turns(TableStep, Not(crc), buf[..k])
    {
      assert buf[..k + 1][..k] == buf[..k];
      c := TableStep(c, buf[k]);
      k := k + 1;
    }
    r := Not(c);
  }

  /** What the reads of a file deliver until the first that gives nothing. */
  function Contents(chunks: seq<seq<bv8>>): (s: seq<bv8>) {
    if chunks == [] || chunks[0] == [] then [] else chunks[0] + Contents(chunks[1..])
  }

  method Read(chunk: seq<bv8>, buffer: array<bv8>)
    requires |chunk| <= buffer.Length
    modifies buffer
    ensures buffer[..|chunk|] == chunk
  {
    forall i | 0 <= i < |chunk| {
      buffer[i] := chunk[i];
    }
  }

  lemma NextChunk(chunks: seq<seq<bv8>>, k: nat, sofar: seq<bv8>)
    requires k < |chunks| && chunks[k] != [] && Contents(chunks) == sofar + Contents(chunks[k..])
    ensures Contents(chunks) == (sofar + chunks[k]) + Contents(chunks[k + 1..])
  {
    assert chunks[k..][1..] == chunks[k + 1..];
  }

  /** The checksum loop over a file, one buffer at a time; a failed read, like the
      end of the file, ends it. */
  method FileCrc(chunks: seq<seq<bv8>>) returns (crc: bv32)
    requires forall k :: 0 <= k < |chunks| ==> |chunks[k]| <= 8192
    ensures crc == Crc(0, Contents(chunks))
  {
    ghost var sofar;
    crc, sofar := ChunkLoop(0, chunks);
  }

  method ChunkLoop(start: bv32, chunks: seq<seq<bv8>>) returns (crc: bv32, ghost sofar: seq<bv8>)
    requires forall k :: 0 <= k < |chunks| ==> |chunks[k]| <= 8192
    ensures sofar == Contents(chunks) && crc == Crc(start, sofar)
  {
    var buffer := new bv8[8192];
    var k := 0;
    crc, sofar := start, [];
    assert chunks[0..] == chunks;
    EmptyCrc(start);
    while k < |chunks|
      invariant k <= |chunks| && crc == Crc(start, sofar) && Contents(chunks) == sofar + Contents(chunks[k..])
    {
      var len := |chunks[k]|;
      if len <= 0 {
        break;
      }
      Read(chunks[k], buffer);
      crc := DebuglinkCrc(crc, buffer, len);
      CrcConcat(start, sofar, chunks[k]);
      NextChunk(chunks, k, sofar);
      sofar := sofar + chunks[k];
      k := k + 1;
    }
    assert Contents(chunks[k..]) == [] && sofar + [] == sofar;
  }

  lemma EmptyCrc(crc: bv32)
    ensures Crc(crc, []) == crc
  {
    NotNot();
  }
}
