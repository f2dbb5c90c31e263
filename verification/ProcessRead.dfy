/** Reading a live process's memory at any address through peeks at aligned words:
    a head, whole words, and a tail. */
module ProcessRead {
  import opened Wrappers
  import opened Bytes
  import opened Bits

  /** A word, its bytes in memory order. */
  type Long = s: seq<Byte> | |s| == 8 witness [0, 0, 0, 0, 0, 0, 0, 0]

  /** The target: the word at an aligned address, or nothing if the peek fails. */
  type Target = nat -> Option<Long>

  function Align(addr: nat): (r: nat)
    ensures r == addr - addr % 8
  {
    assert And(addr, -8) == addr - addr % 8 by { AndHighMask(addr, 3); assert Pow2(3) == 8; }
    And(addr, -8)
  }

  predicate Readable(t: Target, a: nat) {
    t(Align(a)).Some?
  }

  function ByteAt(t: Target, a: nat): Byte
    requires Readable(t, a)
  {
    t(Align(a)).value[a % 8]
  }

  /** The aligned words from `at` up to `end`. */
  function Touched(at: nat, end: nat): (s: seq<nat>)
    decreases end - at
  {
    if at < end then [at] + Touched(at + 8, end) else []
  }

  /** The words peeked at are those that overlap the range. */
  lemma {:induction false} TouchedExact(at: nat, end: nat, w: nat)
    requires at % 8 == 0
    ensures w in Touched(at, end) <==> at <= w < end && w % 8 == 0
    decreases end - at
  {
    if at < end {
      TouchedExact(at + 8, end, w);
    }
  }

  lemma TouchedOverlap(addr: nat, size: nat, w: nat)
    ensures size > 0 ==> (w in Touched(Align(addr), addr + size) <==> w % 8 == 0 && w < addr + size && addr < w + 8)
    ensures size == 0 ==> (w in Touched(Align(addr), addr + size) <==> w == Align(addr) && addr % 8 != 0)
  {
    TouchedExact(Align(addr), addr + size, w);
  }

  predicate Holds(t: Target, a: nat, x: Byte) {
    Readable(t, a) && x == ByteAt(t, a)
  }

  /** The first n bytes from addr, as the target has them. */
  ghost predicate Filled(t: Target, addr: nat, b: seq<Byte>, n: nat) {
    n <= |b| && forall i :: 0 <= i < n ==> Holds(t, addr + i, b[i])
  }

  ghost predicate AllReadable(t: Target, s: seq<nat>) {
    forall k :: 0 <= k < |s| ==> t(s[k]).Some?
  }

  /** Peeking stopped at the first unreadable word of s. */
  ghost predicate FailedIn(t: Target, peeked: seq<nat>, s: seq<nat>) {
    0 < |peeked| <= |s| && peeked == s[..|peeked|] && AllReadable(t, peeked[..|peeked| - 1]) && t(peeked[|peeked| - 1]).None?
  }

  lemma SameWord(at: nat, p: nat)
    requires at <= p < Align(at) + 8
    ensures Align(p) == Align(at) && p % 8 == p - Align(at)
  {
    ModUnique(p, 8, at / 8, p - Align(at));
  }

  lemma FilledByte(t: Target, addr: nat, b: seq<Byte>, n: nat, x: Byte)
    requires Filled(t, addr, b, n) && n < |b| && Holds(t, addr + n, x)
    ensures Filled(t, addr, b[n := x], n + 1)
  {
    var b' := b[n := x];
    forall i | 0 <= i < n + 1 ensures Holds(t, addr + i, b'[i]) {
      assert i < n ==> Holds(t, addr + i, b[i]);
    }
  }

  lemma FilledWord(t: Target, addr: nat, b: seq<Byte>, n: nat, word: Long)
    requires Filled(t, addr, b, n) && n + 8 <= |b| && (addr + n) % 8 == 0 && t(addr + n) == Some(word)
    ensures Filled(t, addr, b[..n] + word + b[n + 8..], n + 8)
  {
    var b' := b[..n] + word + b[n + 8..];
    forall i | 0 <= i < n + 8 ensures Holds(t, addr + i, b'[i]) {
      if i >= n {
        SameWord(addr + n, addr + i);
        assert Align(addr + n) == addr + n && b'[i] == word[i - n];
      } else {
        assert Holds(t, addr + i, b[i]) && b'[i] == b[i];
      }
    }
  }

  /** Bytes beyond the requested ones keep their values. */
  twostate predicate Beyond(buf: array<Byte>, size: nat)
    reads buf
  {
    forall i :: size <= i < buf.Length ==> buf[i] == old(buf[i])
  }

  /** Copies bytes of the word that holds `at`, up to the word's end or `end`. */
  method CopyBytes(t: Target, word: Long, addr: nat, buf: array<Byte>, at: nat, end: nat) returns (p: nat)
    requires addr <= at <= end <= addr + buf.Length
    requires t(Align(at)) == Some(word) && Filled(t, addr, buf[..], at - addr)
    modifies buf
    ensures p == (if end < Align(at) + 8 then end else Align(at) + 8)
    ensures Filled(t, addr, buf[..], p - addr) && Beyond(buf, end - addr)
  {
    p := at;
    ghost var stop := if end < Align(at) + 8 then end else Align(at) + 8;
    while p < Align(at) + 8 && p < end
      invariant at <= p <= stop && Filled(t, addr, buf[..], p - addr) && Beyond(buf, end - addr)
    {
      SameWord(at, p);
      var x := word[p - Align(at)];
      FilledByte(t, addr, buf[..], p - addr, x);
      ghost var was := buf[..];
      buf[p - addr] := x;
      assert buf[..] == was[p - addr := x];
      p := p + 1;
    }
  }

  method CopyWord(t: Target, word: Long, addr: nat, buf: array<Byte>, at: nat)
    requires addr <= at && at + 8 <= addr + buf.Length && at % 8 == 0
    requires t(at) == Some(word) && Filled(t, addr, buf[..], at - addr)
    modifies buf
    ensures Filled(t, addr, buf[..], at + 8 - addr) && Beyond(buf, at + 8 - addr)
  {
    var n := at - addr;
    FilledWord(t, addr, buf[..], n, word);
    ghost var was := buf[..];
    forall i | n <= i < n + 8 {
      buf[i] := word[i - n];
    }
    assert buf[..] == was[..n] + word + was[n + 8..];
  }

  /** The peeks made before stand, and the next word is the first not yet peeked. */
  lemma TouchedNext(at: nat, end: nat, peeked: seq<nat>, all: seq<nat>)
    requires at < end && all == peeked + Touched(at, end)
    ensures all == peeked + [at] + Touched(at + 8, end)
    ensures all[..|peeked| + 1] == peeked + [at]
  {
    NextOne(peeked, at, Touched(at + 8, end), all);
  }

  lemma NextOne(peeked: seq<nat>, at: nat, rest: seq<nat>, all: seq<nat>)
    requires all == peeked + ([at] + rest)
    ensures all == peeked + [at] + rest && all[..|peeked| + 1] == peeked + [at]
  {
  }

  /** The head: the rest of the word that addr falls inside, if it is not aligned. */
  method ReadHead(t: Target, addr: nat, buf: array<Byte>, end: nat) returns (ok: bool, p: nat, ghost peeked: seq<nat>)
    requires addr <= end <= addr + buf.Length
    modifies buf
    ensures Beyond(buf, end - addr)
    ensures ok ==>
              && addr <= p <= end && (p % 8 == 0 || p == end) && Filled(t, addr, buf[..], p - addr)
              && AllReadable(t, peeked) && Touched(Align(addr), end) == peeked + Touched(p, end)
    ensures !ok ==> FailedIn(t, peeked, Touched(Align(addr), end))
  {
    ok, p, peeked := true, addr, [];
    var at := Align(addr);
    if at != addr {
      peeked := [at];
      var rslt := t(at);
      if rslt.None? {
        HeadFails(t, at, end);
        return false, p, peeked;
      }
      p := CopyBytes(t, rslt.value, addr, buf, addr, end);
      HeadTouched(at, end, p);
    }
  }

  lemma HeadFails(t: Target, at: nat, end: nat)
    requires at < end && t(at).None?
    ensures FailedIn(t, [at], Touched(at, end))
  {
    assert Touched(at, end)[..1] == [at];
  }

  lemma HeadTouched(at: nat, end: nat, p: nat)
    requires at < end && p == if end < at + 8 then end else at + 8
    ensures Touched(at, end) == [at] + Touched(p, end)
  {
  }

  method ReadWords(t: Target, addr: nat, buf: array<Byte>, end: nat, at: nat, ghost before: seq<nat>)
    returns (ok: bool, p: nat, ghost peeked: seq<nat>)
    requires addr <= at <= end <= addr + buf.Length && (at % 8 == 0 || at == end)
    requires Filled(t, addr, buf[..], at - addr) && AllReadable(t, before)
    modifies buf
    ensures Beyond(buf, end - addr)
    ensures ok ==>
              && at <= p <= end < p + 8 && (p % 8 == 0 || p == end) && Filled(t, addr, buf[..], p - addr)
              && AllReadable(t, peeked) && before + Touched(at, end) == peeked + Touched(p, end)
    ensures !ok ==> FailedIn(t, peeked, before + Touched(at, end))
  {
    ghost var all := before + Touched(at, end);
    ok, p, peeked := true, at, before;
    var words := (end - at) / 8;
    for i := 0 to words
      invariant p == at + 8 * i && (p % 8 == 0 || p == end) && p <= end
      invariant Filled(t, addr, buf[..], p - addr) && Beyond(buf, end - addr)
      invariant AllReadable(t, peeked) && all == peeked + Touched(p, end)
    {
      ok, peeked := ReadWord(t, addr, buf, end, p, peeked, all);
      if !ok {
        return;
      }
      p := p + 8;
    }
  }

  method ReadWord(t: Target, addr: nat, buf: array<Byte>, end: nat, p: nat, ghost before: seq<nat>, ghost all: seq<nat>)
    returns (ok: bool, ghost peeked: seq<nat>)
    requires addr <= p && p + 8 <= end <= addr + buf.Length && p % 8 == 0
    requires Filled(t, addr, buf[..], p - addr) && AllReadable(t, before) && all == before + Touched(p, end)
    modifies buf
    ensures Beyond(buf, p + 8 - addr)
    ensures ok ==> Filled(t, addr, buf[..], p + 8 - addr) && AllReadable(t, peeked) && all == peeked + Touched(p + 8, end)
    ensures !ok ==> FailedIn(t, peeked, all)
  {
    TouchedNext(p, end, before, all);
    peeked := before + [p];
    var rslt := t(p);
    if rslt.None? {
      return false, peeked;
    }
    CopyWord(t, rslt.value, addr, buf, p);
    ok := true;
  }

  /** Reads `size` bytes at addr. It peeks at the words of Touched in order, stops
      at the first it cannot read, and otherwise delivers every byte. */
  method ReadData(t: Target, addr: nat, buf: array<Byte>, size: nat) returns (ok: bool, ghost peeked: seq<nat>)
    requires size <= buf.Length
    modifies buf
    ensures Beyond(buf, size)
    ensures ok <==> AllReadable(t, Touched(Align(addr), addr + size))
    ensures ok ==> peeked == Touched(Align(addr), addr + size) && Filled(t, addr, buf[..], size)
    ensures !ok ==> FailedIn(t, peeked, Touched(Align(addr), addr + size))
  {
    var end := addr + size;
    ghost var all := Touched(Align(addr), end);
    var p;
    ok, p, peeked := ReadHead(t, addr, buf, end);
    if !ok {
      FailureSeen(t, peeked, all);
      return;
    }
    ok, p, peeked := ReadWords(t, addr, buf, end, p, peeked);
    if !ok {
      FailureSeen(t, peeked, all);
      return;
    }
    if p != end {
      TouchedNext(p, end, peeked, all);
      peeked := peeked + [p];
      var rslt := t(p);
      if rslt.None? {
        FailureSeen(t, peeked, all);
        return false, peeked;
      }
      p := CopyBytes(t, rslt.value, addr, buf, p, end);
    }
    assert Touched(p, end) == [];
  }

  lemma FailureSeen(t: Target, peeked: seq<nat>, s: seq<nat>)
    requires FailedIn(t, peeked, s)
    ensures !AllReadable(t, s)
  {
    assert s[|peeked| - 1] == peeked[|peeked| - 1];
  }
}
