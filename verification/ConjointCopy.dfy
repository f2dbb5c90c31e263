/** Copying between overlapping ranges, element by element: forwards when the
    source lies above the destination, backwards otherwise. */
module ConjointCopy {

  predicate Ranges(s: seq<int>, from: nat, to: nat, count: nat) {
    from + count <= |s| && to + count <= |s|
  }

  /** The memory with the old source range at the destination. */
  function Moved(s: seq<int>, from: nat, to: nat, count: nat): (r: seq<int>)
    requires Ranges(s, from, to, count)
    ensures |r| == |s|
    ensures forall k :: 0 <= k < |s| ==> r[k] == if to <= k < to + count then s[from + k - to] else s[k]
  {
    seq(|s|, k requires 0 <= k < |s| => if to <= k < to + count then s[from + k - to] else s[k])
  }

  /** What storing the elements one after another leaves, lowest first. */
  function Forwards(s: seq<int>, from: nat, to: nat, count: nat): (r: seq<int>)
    requires Ranges(s, from, to, count)
    ensures |r| == |s|
    decreases count
  {
    if count == 0 then s else Forwards(s[to := s[from]], from + 1, to + 1, count - 1)
  }

  /** The same, highest first. */
  function Backwards(s: seq<int>, from: nat, to: nat, count: nat): (r: seq<int>)
    requires Ranges(s, from, to, count)
    ensures |r| == |s|
    decreases count
  {
    if count == 0 then s else Backwards(s[to + count - 1 := s[from + count - 1]], from, to, count - 1)
  }

  lemma {:induction false} ForwardsAt(s: seq<int>, from: nat, to: nat, count: nat, k: nat)
    requires Ranges(s, from, to, count) && (from >= to || from + count <= to) && k < |s|
    ensures Forwards(s, from, to, count)[k] == if to <= k < to + count then s[from + k - to] else s[k]
    decreases count
  {
    if count != 0 {
      ForwardsAt(s[to := s[from]], from + 1, to + 1, count - 1, k);
    }
  }

  lemma {:induction false} BackwardsAt(s: seq<int>, from: nat, to: nat, count: nat, k: nat)
    requires Ranges(s, from, to, count) && (from <= to || to + count <= from) && k < |s|
    ensures Backwards(s, from, to, count)[k] == if to <= k < to + count then s[from + k - to] else s[k]
    decreases count
  {
    if count != 0 {
      BackwardsAt(s[to + count - 1 := s[from + count - 1]], from, to, count - 1, k);
    }
  }

  /** Each direction moves the range unless it stores over elements still to be read. */
  lemma ForwardsMoves(s: seq<int>, from: nat, to: nat, count: nat)
    requires Ranges(s, from, to, count) && (from >= to || from + count <= to)
    ensures Forwards(s, from, to, count) == Moved(s, from, to, count)
  {
    forall k | 0 <= k < |s| ensures Forwards(s, from, to, count)[k] == Moved(s, from, to, count)[k] {
      ForwardsAt(s, from, to, count, k);
    }
  }

  lemma BackwardsMoves(s: seq<int>, from: nat, to: nat, count: nat)
    requires Ranges(s, from, to, count) && (from <= to || to + count <= from)
    ensures Backwards(s, from, to, count) == Moved(s, from, to, count)
  {
    forall k | 0 <= k < |s| ensures Backwards(s, from, to, count)[k] == Moved(s, from, to, count)[k] {
      BackwardsAt(s, from, to, count, k);
    }
  }

  /** When a direction stores over its source, what it leaves repeats: each element
      of the destination equals the final element at its source. */
  lemma {:induction false} ForwardsRepeats(s: seq<int>, from: nat, to: nat, count: nat, k: nat)
    requires Ranges(s, from, to, count) && from < to && k < |s|
    ensures var r := Forwards(s, from, to, count);
            (k < to ==> r[k] == s[k]) && (to <= k < to + count ==> r[k] == r[from + k - to])
    decreases count
  {
    if count != 0 {
      ForwardsRepeats(s[to := s[from]], from + 1, to + 1, count - 1, k);
      ForwardsRepeats(s[to := s[from]], from + 1, to + 1, count - 1, from);
    }
  }

  lemma {:induction false} BackwardsRepeats(s: seq<int>, from: nat, to: nat, count: nat, k: nat)
    requires Ranges(s, from, to, count) && to < from && k < |s|
    ensures var r := Backwards(s, from, to, count);
            (to + count <= k ==> r[k] == s[k]) && (to <= k < to + count ==> r[k] == r[from + k - to])
    decreases count
  {
    if count != 0 {
      var s' := s[to + count - 1 := s[from + count - 1]];
      BackwardsRepeats(s', from, to, count - 1, k);
      BackwardsRepeats(s', from, to, count - 1, from + count - 1);
    }
  }

  function Numbers(n: nat): (s: seq<int>)
    ensures |s| == n && forall k :: 0 <= k < n ==> s[k] == k
  {
    seq(n, k => k)
  }

  /** Forwards is right for every memory exactly when the destination does not start
      inside the source. */
  lemma ForwardsExact(n: nat, from: nat, to: nat, count: nat)
    requires from + count <= n && to + count <= n
    ensures (forall s :: |s| == n ==> Forwards(s, from, to, count) == Moved(s, from, to, count))
            <==> !(from < to < from + count)
  {
    if from < to < from + count {
      var s := Numbers(n);
      ForwardsRepeats(s, from, to, count, from);
      ForwardsRepeats(s, from, to, count, to);
      ForwardsRepeats(s, from, to, count, 2 * to - from);
      assert Forwards(s, from, to, count)[2 * to - from] != Moved(s, from, to, count)[2 * to - from];
    } else {
      forall s | |s| == n ensures Forwards(s, from, to, count) == Moved(s, from, to, count) {
        ForwardsMoves(s, from, to, count);
      }
    }
  }

  /** Backwards is right for every memory exactly when the source does not start
      inside the destination. */
  lemma BackwardsExact(n: nat, from: nat, to: nat, count: nat)
    requires from + count <= n && to + count <= n
    ensures (forall s :: |s| == n ==> Backwards(s, from, to, count) == Moved(s, from, to, count))
            <==> !(to < from < to + count)
  {
    if to < from < to + count {
      var s := Numbers(n);
      var last := to + count - 1;
      BackwardsRepeats(s, from, to, count, from + count - 1);
      BackwardsRepeats(s, from, to, count, last);
      BackwardsRepeats(s, from, to, count, last - (from - to));
      assert Backwards(s, from, to, count)[last - (from - to)] != Moved(s, from, to, count)[last - (from - to)];
    } else {
      forall s | |s| == n ensures Backwards(s, from, to, count) == Moved(s, from, to, count) {
        BackwardsMoves(s, from, to, count);
      }
    }
  }

  method CopyForwards(a: array<int>, from: nat, to: nat, count: nat)
    requires Ranges(a[..], from, to, count)
    modifies a
    ensures a[..] == Forwards(old(a[..]), from, to, count)
  {
    var f, t, left := from, to, count;
    while left > 0
      invariant f == from + count - left && t == to + count - left && 0 <= left <= count
      invariant Forwards(a[..], f, t, left) == Forwards(old(a[..]), from, to, count)
    {
      ghost var was := a[..];
      a[t] := a[f];
      assert a[..] == was[t := was[f]];
      f, t, left := f + 1, t + 1, left - 1;
    }
  }

  method CopyBackwards(a: array<int>, from: nat, to: nat, count: nat)
    requires Ranges(a[..], from, to, count)
    modifies a
    ensures a[..] == Backwards(old(a[..]), from, to, count)
  {
    var f, t, left := from + count - 1, to + count - 1, count;
    while left > 0
      invariant f == from + left - 1 && t == to + left - 1 && 0 <= left <= count
      invariant Backwards(a[..], from, to, left) == Backwards(old(a[..]), from, to, count)
    {
      ghost var was := a[..];
      a[t] := a[f];
      assert a[..] == was[t := was[f]];
      f, t, left := f - 1, t - 1, left - 1;
    }
  }

  /** Whatever the overlap, the choice of direction moves the range and changes
      nothing else. */
  method Conjoint(a: array<int>, from: nat, to: nat, count: nat)
    requires Ranges(a[..], from, to, count)
    modifies a
    ensures a[..] == Moved(old(a[..]), from, to, count)
  {
    if from > to {
      ForwardsMoves(a[..], from, to, count);
      CopyForwards(a, from, to, count);
    } else {
      BackwardsMoves(a[..], from, to, count);
      CopyBackwards(a, from, to, count);
    }
  }
}
