/** The G1 barrier stubs: a per-thread log filled from its end towards index 0,
    the refill call, and the post barrier over the card table. Indices are in bytes
    and an entry is 8 bytes wide. */
module G1Queue {

  const CARD_SIZE := 512

  /** A byte of the card table. */
  newtype CardValue = x: int | 0 <= x < 256

  const DIRTY: CardValue := 0
  const YOUNG: CardValue := 32

  /** The values of the buffers handed over, newest value first. */
  function Flat(h: seq<seq<int>>): (r: seq<int>) {
    if h == [] then [] else h[|h| - 1] + Flat(h[..|h| - 1])
  }

  /** What a queue does with a full buffer before handing it over: nothing, or drop
      the values that are not `ill` and, if at most `threshold` percent are left, go on
      filling it. */
  datatype Policy = KeepAll | Filtering(ill: int -> bool, threshold: nat)

  function Keep(ill: int -> bool, s: seq<int>): (r: seq<int>) {
    if s == [] then [] else (if ill(s[0]) then [s[0]] else []) + Keep(ill, s[1..])
  }

  /** The values of a log that the policy must not lose, in order. */
  function Wanted(p: Policy, s: seq<int>): (r: seq<int>) {
    match p
    case KeepAll => s
    case Filtering(ill, _) => Keep(ill, s)
  }

  /** The null entries of a filtered buffer are not wanted. */
  predicate NullDropped(p: Policy) {
    p.Filtering? ==> !p.ill(0)
  }

  lemma {:induction false} KeepConcat(ill: int -> bool, s: seq<int>, t: seq<int>)
    ensures Keep(ill, s + t) == Keep(ill, s) + Keep(ill, t)
  {
    if s == [] {
      assert s + t == t;
    } else {
      assert (s + t)[1..] == s[1..] + t && (s + t)[0] == s[0];
      KeepConcat(ill, s[1..], t);
      var h := if ill(s[0]) then [s[0]] else [];
      assert h + (Keep(ill, s[1..]) + Keep(ill, t)) == (h + Keep(ill, s[1..])) + Keep(ill, t);
    }
  }

  lemma WantedConcat(p: Policy, s: seq<int>, t: seq<int>)
    ensures Wanted(p, s + t) == Wanted(p, s) + Wanted(p, t)
  {
    if p.Filtering? {
      KeepConcat(p.ill, s, t);
    }
  }

  lemma {:induction false} KeepTwice(ill: int -> bool, s: seq<int>)
    ensures Keep(ill, Keep(ill, s)) == Keep(ill, s)
  {
    if s != [] {
      KeepTwice(ill, s[1..]);
      var h := if ill(s[0]) then [s[0]] else [];
      assert Keep(ill, h) == h;
      KeepConcat(ill, h, Keep(ill, s[1..]));
    }
  }

  lemma {:induction false} KeepNulls(ill: int -> bool, s: seq<int>)
    requires !ill(0) && forall i :: 0 <= i < |s| ==> s[i] == 0
    ensures Keep(ill, s) == []
  {
    if s != [] {
      KeepNulls(ill, s[1..]);
    }
  }

  /** Percent of n that r is, rounded down, as the filter computes it. */
  function Percent(r: nat, n: nat): nat
    requires n > 0
  {
    r * 100 / n
  }

  lemma PercentFull(r: nat, n: nat)
    requires 0 < n && r <= n
    ensures Percent(r, n) <= 100 && (Percent(r, n) == 100 <==> r == n)
  {
    var q := Percent(r, n);
    assert r * 100 == n * q + r * 100 % n;
    if r == n {
      FullQuotient(n);
    } else if q >= 100 {
      TimesHundred(n, q);
    }
  }

  lemma FullQuotient(n: nat)
    requires n > 0
    ensures n * 100 / n == 100
  {
  }

  lemma TimesHundred(n: nat, q: nat)
    requires q >= 100
    ensures n * q >= n * 100
  {
  }

  /** The loop of filter over the entries from `low` on: from the top down, each entry
      is nulled, and a wanted one stored again below the last one kept. */
  method Compact(ill: int -> bool, buf: array<int>, low: nat) returns (kept: nat)
    requires low <= buf.Length
    modifies buf
    ensures low <= kept <= buf.Length && buf[kept..] == Keep(ill, old(buf[low..]))
    ensures forall x :: low <= x < kept ==> buf[x] == 0
    ensures forall x :: 0 <= x < low ==> buf[x] == old(buf[x])
  {
    ghost var was := buf[..];
    var i := buf.Length;
    kept := i;
    while i > low
      invariant low <= i <= kept <= buf.Length
      invariant buf[kept..] == Keep(ill, was[i..])
      invariant forall x :: i <= x < kept ==> buf[x] == 0
      invariant forall x :: 0 <= x < i ==> buf[x] == was[x]
    {
      i := i - 1;
      var obj := buf[i];
      ghost var top := buf[kept..];
      assert was[i..] == [obj] + was[i + 1..];
      buf[i] := 0;
      assert buf[kept..] == top;
      if ill(obj) {
        kept := kept - 1;
        buf[kept] := obj;
        assert buf[kept..] == [obj] + top;
      }
    }
    assert was[low..] == old(buf[low..]);
  }

  class PtrQueue {
    var buf: array?<int>
    var index: nat
    var sz: nat
    /** The buffer size of the queue set, in bytes. */
    const bufferSize: nat
    /** The queue set's list of completed buffers, oldest first. */
    var completed: seq<array<int>>
    /** The values of every buffer handed over so far, and which of them the
        completed buffers hold (the others were processed on the spot). */
    ghost var handed: seq<seq<int>>
    ghost var place: seq<nat>

    ghost predicate Valid()
      reads this, completed, buf
    {
      && bufferSize > 0 && bufferSize % 8 == 0
      && index % 8 == 0
      && (buf == null ==> index == 0)
      && (buf != null ==> index <= sz && sz == bufferSize && buf.Length * 8 == sz && buf !in completed)
      && (forall k :: 0 <= k < |handed| ==> |handed[k]| * 8 == bufferSize)
      && |place| == |completed|
      && (forall k :: 0 <= k < |completed| ==> place[k] < |handed| && completed[k][..] == handed[place[k]])
    }

    /** The values still in the live buffer, newest first. */
    ghost function Live(): (s: seq<int>)
      requires Valid()
      reads this, completed, buf
    {
      if buf == null then [] else buf[index / 8..]
    }

    /** Every value enqueued so far, newest first. */
    ghost function Log(): (s: seq<int>)
      requires Valid()
      reads this, completed, buf
    {
      Live() + Flat(handed)
    }

    /** Buffers handed over stay handed over, each with its values. */
    twostate predicate Extends()
      reads this
    {
      old(completed) <= completed && old(place) <= place && old(handed) <= handed
    }

    constructor (bufferSize: nat)
      requires bufferSize > 0 && bufferSize % 8 == 0
      ensures Valid() && Log() == [] && this.bufferSize == bufferSize && buf == null && completed == []
    {
      this.bufferSize := bufferSize;
      buf, index, sz, completed := null, 0, 0, [];
      handed, place := [], [];
    }

    /** filter: wanted entries move up to the top of the buffer, in order, and the
        entries below them become null. */
    method Filter(ill: int -> bool)
      requires Valid() && buf != null
      modifies this`index, buf
      ensures Valid() && old(index) <= index && Live() == Keep(ill, old(Live()))
      ensures forall x :: old(index) / 8 <= x < index / 8 ==> buf[x] == 0
      ensures forall x :: 0 <= x < old(index) / 8 ==> buf[x] == old(buf[x])
    {
      var newIndex := Compact(ill, buf, index / 8);
      index := 8 * newIndex;
    }

    /** should_enqueue_buffer on a full buffer. It says no only to a buffer that has
        room again, unless the threshold is 100 percent or more. */
    method ShouldEnqueue(policy: Policy) returns (yes: bool)
      requires Valid() && buf != null && index == 0
      modifies this`index, buf
      ensures Valid() && Wanted(policy, Live()) == Wanted(policy, old(Live()))
      ensures forall x :: 0 <= x < index / 8 ==> buf[x] == 0
      ensures policy.KeepAll? ==> yes && index == 0 && buf[..] == old(buf[..])
      ensures policy.Filtering? ==> Live() == Keep(policy.ill, old(Live()))
      ensures policy.Filtering? ==>
                (!yes && index == 0 <==> policy.threshold >= 100 && Keep(policy.ill, old(Live())) == old(Live()))
    {
      yes := true;
      if policy.Filtering? {
        ghost var full := Live();
        Filter(policy.ill);
        KeepTwice(policy.ill, full);
        var retained := (sz - index) / 8;
        PercentFull(retained, sz / 8);
        KeepAllKept(policy.ill, full);
        yes := Percent(retained, sz / 8) > policy.threshold;
      }
    }

    /** Hands a buffer over, whole: either the mutator processes it and keeps it
        (`recycle`), or it joins the completed list and a new one is allocated. */
    method HandOver(recycle: bool)
      requires Valid()
      modifies this
      ensures Valid() && Extends() && index == sz && index > 0 && Live() == []
      ensures buf == old(buf) || fresh(buf)
      ensures old(buf) == null ==> completed == old(completed) && handed == old(handed)
      ensures old(buf) != null ==>
                && handed == old(handed) + [old(buf[..])]
                && if recycle then buf == old(buf) && completed == old(completed)
                   else fresh(buf) && completed == old(completed) + [old(buf)]
    {
      if buf != null {
        handed := handed + [buf[..]];
        if recycle {
          sz := bufferSize;
          index := sz;
          assert buf[index / 8..] == [];
          return;
        }
        completed, place := completed + [buf], place + [|handed| - 1];
      }
      buf := new int[bufferSize / 8];
      sz := bufferSize;
      index := sz;
      assert buf[index / 8..] == [];
    }

    /** A full buffer whose values are all wanted, under a threshold that no share of
        them exceeds: the queue refuses to enqueue it and stays full. */
    ghost predicate StaysFull(policy: Policy)
      requires Valid()
      reads this, completed, buf
    {
      policy.Filtering? && buf != null && policy.threshold >= 100 && Keep(policy.ill, Live()) == Live()
    }

    /** handle_zero_index on a queue of one thread. No wanted value is lost, and there
        is room afterwards except in the one case. */
    method HandleZeroIndex(policy: Policy, recycle: bool)
      requires Valid() && index == 0 && NullDropped(policy)
      modifies this, buf
      ensures Valid() && Extends() && Wanted(policy, Log()) == Wanted(policy, old(Log()))
      ensures buf == old(buf) || fresh(buf)
      ensures index == 0 <==> old(StaysFull(policy))
      ensures index == 0 ==> buf == old(buf) && handed == old(handed) && Live() == old(Live())
      ensures policy.KeepAll? && old(buf) != null ==>
                && handed == old(handed) + [old(buf[..])]
                && completed == if recycle then old(completed) else old(completed) + [old(buf)]
    {
      if buf != null {
        var enqueue := ShouldEnqueue(policy);
        FilteredLog(policy, Live(), old(Live()), Flat(handed));
        if !enqueue {
          return;
        }
        WholeLog(policy, buf[..], index / 8, Flat(handed));
      }
      ghost var before := handed;
      HandOver(recycle);
      assert Log() == Flat(handed);
      assert handed != before ==> handed[..|handed| - 1] == before;
    }

    /** The tail of both stubs: refill while the index is 0, then store the value
        below the last one. */
    method Enqueue(v: int, policy: Policy, recycle: bool)
      requires Valid() && NullDropped(policy) && (policy.Filtering? ==> policy.threshold < 100)
      modifies this, buf
      ensures Valid() && Extends() && Wanted(policy, Log()) == Wanted(policy, [v] + old(Log()))
      ensures buf == old(buf) || fresh(buf)
    {
      Refill(policy, recycle);
      WantedConcat(policy, [v], Log());
      WantedConcat(policy, [v], old(Log()));
      Push(v);
    }

    method Refill(policy: Policy, recycle: bool)
      requires Valid() && NullDropped(policy) && (policy.Filtering? ==> policy.threshold < 100)
      modifies this, buf
      ensures Valid() && Extends() && index > 0 && Wanted(policy, Log()) == Wanted(policy, old(Log()))
      ensures buf == old(buf) || fresh(buf)
    {
      while index == 0
        invariant Valid() && Extends() && Wanted(policy, Log()) == Wanted(policy, old(Log()))
        invariant buf == old(buf) || fresh(buf)
        decreases index == 0
      {
        HandleZeroIndex(policy, recycle);
      }
    }

    /** Stores the value below the last one. */
    method Push(v: int)
      requires Valid() && index > 0
      modifies this`index, buf
      ensures Valid() && Extends() && index == old(index) - 8 && Log() == [v] + old(Log())
    {
      ghost var live := Live();
      var tmp := index - 8;
      buf[tmp / 8] := v;
      index := tmp;
      assert Live() == [v] + live;
    }
  }

  /** Such a queue exists: one entry, a value that is wanted, a threshold of 100. The
      refill call leaves it as full as it was. */
  method StuckQueue() returns (q: PtrQueue)
    ensures fresh(q) && q.Valid() && q.index == 0 && q.Live() == [5]
    ensures q.StaysFull(Filtering(x => x != 0, 100))
  {
    q := new PtrQueue(8);
    q.Refill(KeepAll, false);
    q.Push(5);
    assert q.Live() == q.Log()[..1];
    assert Keep(x => x != 0, [5]) == [5];
    q.HandleZeroIndex(Filtering(x => x != 0, 100), false);
  }

  lemma {:induction false} KeepAllKept(ill: int -> bool, s: seq<int>)
    ensures |Keep(ill, s)| <= |s| && (|Keep(ill, s)| == |s| <==> Keep(ill, s) == s)
  {
    if s != [] {
      KeepAllKept(ill, s[1..]);
      assert s == [s[0]] + s[1..];
    }
  }

  lemma FilteredLog(p: Policy, live: seq<int>, was: seq<int>, rest: seq<int>)
    requires Wanted(p, live) == Wanted(p, was)
    ensures Wanted(p, live + rest) == Wanted(p, was + rest)
  {
    WantedConcat(p, live, rest);
    WantedConcat(p, was, rest);
  }

  /** Handing over a whole buffer, nulls and all, adds nothing wanted. */
  lemma WholeLog(p: Policy, whole: seq<int>, at: nat, rest: seq<int>)
    requires at <= |whole| && NullDropped(p) && (p.KeepAll? ==> at == 0) && forall x :: 0 <= x < at ==> whole[x] == 0
    ensures Wanted(p, whole + rest) == Wanted(p, whole[at..] + rest)
  {
    if p.KeepAll? {
      assert whole[at..] == whole;
    } else {
      KeepNulls(p.ill, whole[..at]);
      KeepConcat(p.ill, whole[..at], whole[at..]);
      assert whole[..at] + whole[at..] == whole;
      FilteredLog(p, whole, whole[at..], rest);
    }
  }

  // ---------------------------------------------------------------------
  // The post barrier on values: the card table and the log of card addresses.

  datatype Cards = Cards(table: seq<CardValue>, log: seq<int>)

  predicate Marked(v: CardValue) {
    v == YOUNG || v == DIRTY
  }

  /** The store barrier for card c of a table based at `base`. */
  function Mark(w: Cards, base: int, c: nat): (r: Cards)
    requires c < |w.table|
    ensures |r.table| == |w.table|
  {
    if Marked(w.table[c]) then w else Cards(w.table[c := DIRTY], [base + c] + w.log)
  }

  function MarkAll(w: Cards, base: int, cs: seq<nat>): (r: Cards)
    requires forall i :: 0 <= i < |cs| ==> cs[i] < |w.table|
    ensures |r.table| == |w.table|
  {
    if cs == [] then w else Mark(MarkAll(w, base, cs[..|cs| - 1]), base, cs[|cs| - 1])
  }

  /** Is v the address of a card stored to that was neither young nor dirty? */
  predicate Fresh(w: Cards, base: int, cs: seq<nat>, v: int) {
    var c := v - base;
    0 <= c < |w.table| && c in cs && !Marked(w.table[c])
  }

  lemma {:induction false} CardsMarked(w: Cards, base: int, cs: seq<nat>, c: nat)
    requires c < |w.table| && forall i :: 0 <= i < |cs| ==> cs[i] < |w.table|
    ensures MarkAll(w, base, cs).table[c] == if c in cs && w.table[c] != YOUNG then DIRTY else w.table[c]
  {
    if cs != [] {
      CardsMarked(w, base, cs[..|cs| - 1], c);
      InLast(cs, c);
    }
  }

  lemma {:induction false} LoggedOnce(w: Cards, base: int, cs: seq<nat>, v: int)
    requires forall i :: 0 <= i < |cs| ==> cs[i] < |w.table|
    ensures multiset(MarkAll(w, base, cs).log)[v] == multiset(w.log)[v] + (if Fresh(w, base, cs, v) then 1 else 0)
  {
    if cs != [] {
      var rest, last := cs[..|cs| - 1], cs[|cs| - 1];
      LoggedOnce(w, base, rest, v);
      CardsMarked(w, base, rest, last);
      LogStep(MarkAll(w, base, rest), base, last, v);
      InLast(cs, v - base);
    }
  }

  lemma LogStep(w: Cards, base: int, b: nat, v: int)
    requires b < |w.table|
    ensures multiset(Mark(w, base, b).log)[v] == multiset(w.log)[v] + (if v == base + b && !Marked(w.table[b]) then 1 else 0)
  {
    assert multiset([base + b] + w.log) == multiset{base + b} + multiset(w.log);
  }

  /** After any run of barriers: a card that was stored to is young or dirty and the
      others are as before; a card that was neither young nor dirty was logged exactly
      once, and no other value was logged. */
  lemma MarkedOnce(w: Cards, base: int, cs: seq<nat>, v: int)
    requires forall i :: 0 <= i < |cs| ==> cs[i] < |w.table|
    ensures var r, c := MarkAll(w, base, cs), v - base;
            && (0 <= c < |w.table| ==> r.table[c] == if c in cs && w.table[c] != YOUNG then DIRTY else w.table[c])
            && multiset(r.log)[v] == multiset(w.log)[v] + (if Fresh(w, base, cs, v) then 1 else 0)
  {
    if 0 <= v - base < |w.table| {
      CardsMarked(w, base, cs, v - base);
    }
    LoggedOnce(w, base, cs, v);
  }

  lemma InLast(cs: seq<nat>, c: int)
    requires cs != []
    ensures c in cs <==> c in cs[..|cs| - 1] || c == cs[|cs| - 1]
  {
    assert cs == cs[..|cs| - 1] + [cs[|cs| - 1]];
  }

  /** What was logged before is still there, below what the run added. */
  lemma {:induction false} LogKept(w: Cards, base: int, cs: seq<nat>)
    requires forall i :: 0 <= i < |cs| ==> cs[i] < |w.table|
    ensures var r := MarkAll(w, base, cs); |r.log| >= |w.log| && r.log[|r.log| - |w.log|..] == w.log
  {
    if cs != [] {
      LogKept(w, base, cs[..|cs| - 1]);
    }
  }

  /** The pre barrier stub logs the previous value of a field; its queue filters, and
      loses no value that marking still wants. */
  method PreBarrier(q: PtrQueue, preVal: int, ill: int -> bool, threshold: nat, recycle: bool)
    requires q.Valid() && !ill(0) && threshold < 100
    modifies q, q.buf
    ensures q.Valid() && q.Extends() && Keep(ill, q.Log()) == Keep(ill, [preVal] + old(q.Log()))
  {
    q.Enqueue(preVal, Filtering(ill, threshold), recycle);
  }

  /** The post barrier stub for a store at addr; the table is indexed by the
      address shifted by the card size. */
  method PostBarrier(q: PtrQueue, table: array<CardValue>, base: int, addr: nat, recycle: bool)
    requires q.Valid() && addr / CARD_SIZE < table.Length
    modifies q, q.buf, table
    ensures q.Valid() && q.Extends() && (q.buf == old(q.buf) || fresh(q.buf))
    ensures Cards(table[..], q.Log()) == Mark(old(Cards(table[..], q.Log())), base, addr / CARD_SIZE)
  {
    var card := addr / CARD_SIZE;
    var tmp := table[card];
    if tmp == YOUNG {
      return;
    }
    tmp := table[card];
    if tmp == DIRTY {
      return;
    }
    DirtyAndLog(q, table, base, card, recycle);
  }

  /** The card is dirtied first, then logged. */
  method DirtyAndLog(q: PtrQueue, table: array<CardValue>, base: int, card: nat, recycle: bool)
    requires q.Valid() && card < table.Length
    modifies q, q.buf, table
    ensures q.Valid() && q.Extends() && (q.buf == old(q.buf) || fresh(q.buf))
    ensures table[..] == old(table[..])[card := DIRTY] && q.Log() == [base + card] + old(q.Log())
  {
    ghost var was, log := table[..], q.Log();
    table[card] := DIRTY;
    assert table[..] == was[card := DIRTY] && q.Log() == log;
    q.Enqueue(base + card, KeepAll, recycle);
  }

  lemma MarkNext(w: Cards, base: int, cs: seq<nat>, k: nat)
    requires k < |cs| && forall i :: 0 <= i < |cs| ==> cs[i] < |w.table|
    ensures MarkAll(w, base, cs[..k + 1]) == Mark(MarkAll(w, base, cs[..k]), base, cs[k])
  {
    assert cs[..k + 1][..k] == cs[..k];
  }

  /** A run of barriers by one thread. */
  method PostBarriers(q: PtrQueue, table: array<CardValue>, base: int, addrs: seq<nat>, recycle: seq<bool>)
    requires q.Valid() && |recycle| == |addrs|
    requires forall i :: 0 <= i < |addrs| ==> addrs[i] / CARD_SIZE < table.Length
    modifies q, q.buf, table
    ensures q.Valid() && q.Extends()
    ensures Cards(table[..], q.Log()) == MarkAll(old(Cards(table[..], q.Log())), base, CardsOf(addrs))
  {
    ghost var w, cs := Cards(table[..], q.Log()), CardsOf(addrs);
    for k := 0 to |addrs|
      invariant q.Valid() && q.Extends() && (q.buf == old(q.buf) || fresh(q.buf))
      invariant Cards(table[..], q.Log()) == MarkAll(w, base, cs[..k])
    {
      MarkNext(w, base, cs, k);
      PostBarrier(q, table, base, addrs[k], recycle[k]);
    }
    assert cs[..|addrs|] == cs;
  }

  function CardsOf(addrs: seq<nat>): seq<nat> {
    seq(|addrs|, i requires 0 <= i < |addrs| => addrs[i] / CARD_SIZE)
  }
}
