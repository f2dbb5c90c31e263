/** The G1 post barrier run by any number of threads against any number of
    refinement workers: which stores the workers are bound to see. A reference
    store may linger in a store buffer; the barrier's fence waits for it. */
module CardMarking {
  import opened G1Queue

  const CLEAN: CardValue := 255

  /** One reference store into the card c. */
  datatype Write = Write(c: nat, id: nat)

  /** Where a mutator is in the barrier for its store w. */
  datatype Pc =
    | Idle
    | Check(w: Write)       // first card load, young test
    | Fence(w: Write)       // the StoreLoad barrier
    | Recheck(w: Write)     // second card load, dirty test
    | Dirtying(w: Write)
    | Enqueueing(w: Write)

  /** A refinement worker takes a logged card, cleans it, then scans its memory. */
  datatype Worker = Free | Taken(c: nat) | Cleaned(c: nat)

  datatype State = State(
    threads: seq<Pc>,
    workers: seq<Worker>,
    cards: seq<CardValue>,
    log: multiset<nat>,
    buffered: set<Write>,
    visible: set<Write>,
    scanned: set<Write>,
    returned: set<Write>,
    next: nat)

  datatype Action =
    | Store(t: nat, c: nat)
    | Drain(w: Write)
    | Step(t: nat)
    | Take(r: nat, c: nat)
    | Clean(r: nat)
    | Scan(r: nat)

  /** `fenced` is true of the real barrier; false leaves its fence out. */
  predicate Enabled(s: State, a: Action, fenced: bool) {
    match a
    case Store(t, c) => t < |s.threads| && s.threads[t].Idle? && c < |s.cards|
    case Drain(w) => w in s.buffered
    case Step(t) =>
      && t < |s.threads| && !s.threads[t].Idle? && s.threads[t].w.c < |s.cards|
      && (s.threads[t].Fence? && fenced ==> s.threads[t].w !in s.buffered)
    case Take(r, c) => r < |s.workers| && s.workers[r].Free? && s.log[c] > 0
    case Clean(r) => r < |s.workers| && s.workers[r].Taken? && s.workers[r].c < |s.cards|
    case Scan(r) => r < |s.workers| && s.workers[r].Cleaned?
  }

  function Do(s: State, a: Action, fenced: bool): (s': State)
    requires Enabled(s, a, fenced)
  {
    match a
    case Store(t, c) =>
      var w := Write(c, s.next);
      s.(threads := s.threads[t := Check(w)], buffered := s.buffered + {w}, next := s.next + 1)
    case Drain(w) => s.(buffered := s.buffered - {w}, visible := s.visible + {w})
    case Step(t) => Barrier(s, t)
    case Take(r, c) => s.(workers := s.workers[r := Taken(c)], log := s.log - multiset{c})
    case Clean(r) =>
      s.(workers := s.workers[r := Cleaned(s.workers[r].c)], cards := s.cards[s.workers[r].c := CLEAN])
    case Scan(r) =>
      s.(workers := s.workers[r := Free], scanned := s.scanned + OnCard(s.visible, s.workers[r].c))
  }

  function OnCard(ws: set<Write>, c: nat): (r: set<Write>) {
    set w | w in ws && w.c == c
  }

  function Barrier(s: State, t: nat): (s': State)
    requires t < |s.threads| && !s.threads[t].Idle? && s.threads[t].w.c < |s.cards|
  {
    var w := s.threads[t].w;
    var done := s.(threads := s.threads[t := Idle], returned := s.returned + {w});
    match s.threads[t]
    case Check(_) => if s.cards[w.c] == YOUNG then done else s.(threads := s.threads[t := Fence(w)])
    case Fence(_) => s.(threads := s.threads[t := Recheck(w)])
    case Recheck(_) => if s.cards[w.c] != DIRTY then s.(threads := s.threads[t := Dirtying(w)]) else done
    case Dirtying(_) => s.(threads := s.threads[t := Enqueueing(w)], cards := s.cards[w.c := DIRTY])
    case Enqueueing(_) => done.(log := s.log + multiset{w.c})
  }

  ghost predicate Initial(s: State) {
    && (forall t :: 0 <= t < |s.threads| ==> s.threads[t].Idle?)
    && (forall r :: 0 <= r < |s.workers| ==> s.workers[r].Free?)
    && (forall c :: 0 <= c < |s.cards| ==> s.cards[c] == YOUNG || s.cards[c] == CLEAN)
    && s.log == multiset{} && s.buffered == {} && s.visible == {} && s.scanned == {} && s.returned == {}
  }

  ghost predicate Run(s: State, acts: seq<Action>, s': State, fenced: bool)
    decreases acts
  {
    if acts == [] then s == s'
    else Enabled(s, acts[0], fenced) && Run(Do(s, acts[0], fenced), acts[1..], s', fenced)
  }

  // ---------------------------------------------------------------------
  // The invariant.

  predicate NonYoung(s: State, c: nat) {
    c < |s.cards| && s.cards[c] != YOUNG
  }

  predicate Enqueues(p: Pc, c: nat) {
    p.Enqueueing? && p.w.c == c
  }

  ghost predicate BeingEnqueued(s: State, c: nat) {
    exists t :: 0 <= t < |s.threads| && Enqueues(s.threads[t], c)
  }

  ghost predicate BeingTaken(s: State, c: nat) {
    exists r :: 0 <= r < |s.workers| && s.workers[r] == Taken(c)
  }

  ghost predicate BeingScanned(s: State, c: nat) {
    exists r :: 0 <= r < |s.workers| && s.workers[r] == Cleaned(c)
  }

  /** Some worker is still to clean and scan the card. */
  ghost predicate Awaited(s: State, c: nat) {
    s.log[c] > 0 || BeingEnqueued(s, c) || BeingTaken(s, c)
  }

  ghost predicate DirtyAwaited(s: State) {
    forall c :: 0 <= c < |s.cards| && s.cards[c] == DIRTY ==> Awaited(s, c)
  }

  /** The store will be seen by a worker, or has been. */
  ghost predicate Kept(s: State, w: Write) {
    w in s.visible && (w in s.scanned || Awaited(s, w.c) || BeingScanned(s, w.c))
  }

  ghost predicate ReturnedKept(s: State) {
    forall w :: w in s.returned && NonYoung(s, w.c) ==> Kept(s, w)
  }

  predicate PastFence(p: Pc) {
    p.Recheck? || p.Dirtying? || p.Enqueueing?
  }

  predicate ThreadOk(s: State, p: Pc) {
    && (!p.Idle? ==> p.w.c < |s.cards| && (p.w in s.buffered || p.w in s.visible))
    && (!p.Idle? && !p.Check? ==> NonYoung(s, p.w.c))
    && (PastFence(p) ==> p.w in s.visible)
  }

  ghost predicate ThreadsOk(s: State) {
    forall t :: 0 <= t < |s.threads| ==> ThreadOk(s, s.threads[t])
  }

  ghost predicate WorkersOk(s: State) {
    && (forall r :: 0 <= r < |s.workers| && !s.workers[r].Free? ==> NonYoung(s, s.workers[r].c))
    && (forall c: nat :: s.log[c] > 0 ==> NonYoung(s, c))
  }

  ghost predicate Inv(s: State) {
    ThreadsOk(s) && WorkersOk(s) && DirtyAwaited(s) && ReturnedKept(s)
  }

  // ---------------------------------------------------------------------
  // Every step keeps it.

  lemma YoungSame(s: State, a: Action, c: nat)
    requires Inv(s) && Enabled(s, a, true)
    ensures NonYoung(Do(s, a, true), c) == NonYoung(s, c)
  {
  }

  lemma KeepsThreads(s: State, a: Action)
    requires Inv(s) && Enabled(s, a, true)
    ensures ThreadsOk(Do(s, a, true))
  {
    var s' := Do(s, a, true);
    forall t | 0 <= t < |s'.threads| ensures ThreadOk(s', s'.threads[t]) {
      KeepsThread(s, a, t);
    }
  }

  lemma KeepsThread(s: State, a: Action, t: nat)
    requires Inv(s) && Enabled(s, a, true) && t < |s.threads|
    ensures t < |Do(s, a, true).threads| && ThreadOk(Do(s, a, true), Do(s, a, true).threads[t])
  {
    var p := Do(s, a, true).threads[t];
    assert ThreadOk(s, s.threads[t]);
    if !p.Idle? {
      YoungSame(s, a, p.w.c);
    }
  }

  lemma KeepsWorkers(s: State, a: Action)
    requires Inv(s) && Enabled(s, a, true)
    ensures WorkersOk(Do(s, a, true))
  {
    var s' := Do(s, a, true);
    forall r | 0 <= r < |s'.workers| && !s'.workers[r].Free? ensures NonYoung(s', s'.workers[r].c) {
      YoungSame(s, a, s'.workers[r].c);
    }
    forall c: nat | s'.log[c] > 0 ensures NonYoung(s', c) {
      YoungSame(s, a, c);
    }
  }

  /** Work awaited on a card stays awaited until a worker cleans the card, and is
      then being scanned. */
  lemma AwaitedStays(s: State, a: Action, c: nat)
    requires Enabled(s, a, true) && Awaited(s, c)
    ensures if a.Clean? && s.workers[a.r].c == c then BeingScanned(Do(s, a, true), c) else Awaited(Do(s, a, true), c)
  {
    var s' := Do(s, a, true);
    if a.Clean? && s.workers[a.r].c == c {
      assert s'.workers[a.r] == Cleaned(c);
    } else if BeingEnqueued(s, c) {
      EnqueueStays(s, a, c);
    } else if BeingTaken(s, c) {
      var r :| 0 <= r < |s.workers| && s.workers[r] == Taken(c);
      assert s'.workers[r] == Taken(c);
    } else if a.Take? && a.c == c {
      assert s'.workers[a.r] == Taken(c);
    } else {
      assert s'.log[c] > 0;
    }
  }

  lemma EnqueueStays(s: State, a: Action, c: nat)
    requires Enabled(s, a, true) && BeingEnqueued(s, c)
    ensures Do(s, a, true).log[c] > 0 || BeingEnqueued(Do(s, a, true), c)
  {
    var t :| 0 <= t < |s.threads| && Enqueues(s.threads[t], c);
    assert (a == Step(t) && Do(s, a, true).log[c] > 0) || Enqueues(Do(s, a, true).threads[t], c);
  }

  lemma KeepsDirty(s: State, a: Action)
    requires Inv(s) && Enabled(s, a, true)
    ensures DirtyAwaited(Do(s, a, true))
  {
    var s' := Do(s, a, true);
    forall c | 0 <= c < |s'.cards| && s'.cards[c] == DIRTY ensures Awaited(s', c) {
      if s.cards[c] == DIRTY {
        AwaitedStays(s, a, c);
      } else {
        assert Enqueues(s'.threads[a.t], c);
      }
    }
  }

  lemma ScanningStays(s: State, a: Action, c: nat)
    requires Enabled(s, a, true) && BeingScanned(s, c)
    ensures BeingScanned(Do(s, a, true), c) || (a.Scan? && s.workers[a.r].c == c)
  {
    var r :| 0 <= r < |s.workers| && s.workers[r] == Cleaned(c);
    assert Do(s, a, true).workers[r] == Cleaned(c) || (a.Scan? && a.r == r);
  }

  lemma KeptStays(s: State, a: Action, w: Write)
    requires Enabled(s, a, true) && Kept(s, w)
    ensures Kept(Do(s, a, true), w)
  {
    if w !in s.scanned {
      if Awaited(s, w.c) {
        AwaitedStays(s, a, w.c);
      } else {
        ScanningStays(s, a, w.c);
      }
    }
  }

  lemma KeepsReturned(s: State, a: Action)
    requires Inv(s) && Enabled(s, a, true)
    ensures ReturnedKept(Do(s, a, true))
  {
    var s' := Do(s, a, true);
    forall w | w in s'.returned && NonYoung(s', w.c) ensures Kept(s', w) {
      YoungSame(s, a, w.c);
      if w in s.returned {
        KeptStays(s, a, w);
      } else if s.threads[a.t].Recheck? {
        assert Awaited(s, w.c);
        AwaitedStays(s, a, w.c);
      } else {
        assert s'.log[w.c] > 0;
      }
    }
  }

  lemma {:induction false} RunKeepsInv(s: State, acts: seq<Action>, s': State)
    requires Inv(s) && Run(s, acts, s', true)
    ensures Inv(s')
    decreases acts
  {
    if acts != [] {
      KeepsThreads(s, acts[0]);
      KeepsWorkers(s, acts[0]);
      KeepsDirty(s, acts[0]);
      KeepsReturned(s, acts[0]);
      RunKeepsInv(Do(s, acts[0], true), acts[1..], s');
    }
  }

  /** No store is lost: in every run, a store into a card that is not young whose
      barrier has returned was scanned by a worker or has a worker still to come,
      and a dirty card always has one. */
  lemma NoStoreLost(s: State, acts: seq<Action>, s': State)
    requires Initial(s) && Run(s, acts, s', true)
    ensures forall w :: w in s'.returned && NonYoung(s', w.c) ==> Kept(s', w)
    ensures forall c :: 0 <= c < |s'.cards| && s'.cards[c] == DIRTY ==> Awaited(s', c)
  {
    RunKeepsInv(s, acts, s');
  }

  predicate Quiet(s: State) {
    && s.log == multiset{}
    && (forall t :: 0 <= t < |s.threads| ==> s.threads[t].Idle?)
    && (forall r :: 0 <= r < |s.workers| ==> s.workers[r].Free?)
  }

  /** Everything is quiet and some store of a returned barrier was never scanned. */
  predicate LosesStore(s: State) {
    Quiet(s) && exists w :: w in s.returned && NonYoung(s, w.c) && w !in s.scanned
  }

  /** When the log is drained and everyone is idle, every store was scanned. */
  lemma QuietScanned(s: State, acts: seq<Action>, s': State)
    requires Initial(s) && Run(s, acts, s', true) && Quiet(s')
    ensures !LosesStore(s')
    ensures forall c :: 0 <= c < |s'.cards| ==> s'.cards[c] != DIRTY
  {
    NoStoreLost(s, acts, s');
  }

  // ---------------------------------------------------------------------
  // The fence is needed.

  lemma RunAppend(s: State, acts: seq<Action>, m: State, a: Action, fenced: bool)
    requires Run(s, acts, m, fenced) && Enabled(m, a, fenced)
    ensures Run(s, acts + [a], Do(m, a, fenced), fenced)
    decreases acts
  {
    if acts != [] {
      RunAppend(Do(s, acts[0], fenced), acts[1..], m, a, fenced);
      assert (acts + [a])[1..] == acts[1..] + [a];
    }
  }

  lemma Then(s: State, acts: seq<Action>, m: State, a: Action) returns (acts': seq<Action>, m': State)
    requires Run(s, acts, m, false) && Enabled(m, a, false)
    ensures m' == Do(m, a, false) && Run(s, acts', m', false)
  {
    RunAppend(s, acts, m, a, false);
    acts', m' := acts + [a], Do(m, a, false);
  }

  /** One thread and one worker; the first store is fenced and logged. */
  lemma FirstFenced(s: State) returns (acts: seq<Action>, m: State)
    requires s == State([Idle], [Free], [CLEAN], multiset{}, {}, {}, {}, {}, 0)
    ensures Run(s, acts, m, false)
    ensures m == State([Recheck(Write(0, 0))], [Free], [CLEAN], multiset{}, {}, {Write(0, 0)}, {}, {}, 1)
  {
    acts, m := [], s;
    acts, m := Then(s, acts, m, Store(0, 0));
    acts, m := Then(s, acts, m, Drain(Write(0, 0)));
    acts, m := Then(s, acts, m, Step(0));
    acts, m := Then(s, acts, m, Step(0));
  }

  lemma FirstLogged(s: State) returns (acts: seq<Action>, m: State)
    requires s == State([Idle], [Free], [CLEAN], multiset{}, {}, {}, {}, {}, 0)
    ensures Run(s, acts, m, false)
    ensures m == State([Idle], [Free], [DIRTY], multiset{0}, {}, {Write(0, 0)}, {}, {Write(0, 0)}, 1)
  {
    acts, m := FirstFenced(s);
    acts, m := Then(s, acts, m, Step(0));
    acts, m := Then(s, acts, m, Step(0));
    acts, m := Then(s, acts, m, Step(0));
  }

  /** The second store's barrier returns with the store still buffered. */
  lemma SecondMissed(s: State) returns (acts: seq<Action>, m: State)
    requires s == State([Idle], [Free], [CLEAN], multiset{}, {}, {}, {}, {}, 0)
    ensures Run(s, acts, m, false)
    ensures m == State([Idle], [Free], [DIRTY], multiset{0}, {Write(0, 1)}, {Write(0, 0)}, {},
                       {Write(0, 0), Write(0, 1)}, 2)
  {
    acts, m := FirstLogged(s);
    acts, m := Then(s, acts, m, Store(0, 0));
    acts, m := Then(s, acts, m, Step(0));
    acts, m := Then(s, acts, m, Step(0));
    acts, m := Then(s, acts, m, Step(0));
  }

  lemma SecondCleaned(s: State) returns (acts: seq<Action>, m: State)
    requires s == State([Idle], [Free], [CLEAN], multiset{}, {}, {}, {}, {}, 0)
    ensures Run(s, acts, m, false)
    ensures m == State([Idle], [Cleaned(0)], [CLEAN], multiset{}, {Write(0, 1)}, {Write(0, 0)}, {},
                       {Write(0, 0), Write(0, 1)}, 2)
  {
    acts, m := SecondMissed(s);
    acts, m := Then(s, acts, m, Take(0, 0));
    acts, m := Then(s, acts, m, Clean(0));
  }

  /** Without the fence a run loses a store: its barrier returns on seeing the
      card dirty, the worker cleans and scans, and only then would the store leave
      its buffer. */
  lemma FenceNeeded()
    ensures exists s, acts, s' :: Initial(s) && Run(s, acts, s', false) && LosesStore(s')
  {
    var s := State([Idle], [Free], [CLEAN], multiset{}, {}, {}, {}, {}, 0);
    var acts, m := SecondCleaned(s);
    acts, m := Then(s, acts, m, Scan(0));
    assert Write(0, 1) in m.returned && NonYoung(m, 0) && Write(0, 1) !in m.scanned;
  }
}
