/** Hash counting and the best hash, recorded by every mining thread under one filter and one lock. */
module Stats {
  import opened Wrappers
  import opened Bytes
  import opened Hash256

  datatype View = View(hashes: u64, bestZeroBits: nat, best: Hash256)

  const START := View(0, 0, MAXIMUM)

  /** What a call leaves when nothing runs between its steps. */
  function Recorded(v: View, hashes: u64, best: Hash256): View
  {
    var counted := v.(hashes := (v.hashes + hashes) % TWO_64);
    if LeadingZeroBits(best) > v.bestZeroBits && IsBelow(best, v.best) then counted.(best := best, bestZeroBits := LeadingZeroBits(best))
    else counted
  }

  class Stats {
    var hashes: u64
    var bestZeroBits: nat
    var best: Hash256

    constructor ()
      ensures Current() == START
    {
      hashes, bestZeroBits, best := 0, 0, MAXIMUM;
    }

    function Current(): View
      reads this
    {
      View(hashes, bestZeroBits, best)
    }

    method Record(n: u64, candidate: Hash256)
      modifies this
      ensures Current() == Recorded(old(Current()), n, candidate)
    {
      hashes := (hashes + n) % TWO_64;
      var zeroBits := CountLeadingZeroBits(candidate);
      if zeroBits <= bestZeroBits { return; }
      var order := NumericCmp(candidate, best);
      if order == Less {
        best := candidate;
        bestZeroBits := zeroBits;
      }
    }
  }

  // ----- the best is a lowest hash only up to its zero bits -----

  /** `best` is at most every hash recorded. */
  predicate IsLowest(best: Hash256, seen: set<Hash256>) { forall h :: h in seen ==> !IsBelow(h, best) }

  lemma OrderAndZeroBits(a: Hash256, b: Hash256)
    ensures if IsBelow(a, b) then LeadingZeroBits(a) >= LeadingZeroBits(b) else LeadingZeroBits(a) <= LeadingZeroBits(b)
  {
    if IsBelow(a, b) { LeadingZeroBitsAntitone(a, b); } else { LeadingZeroBitsAntitone(b, a); }
  }

  /** A record keeps the best the lowest exactly when it is not a lower hash with the same zero bits, which the filter turns away. */
  lemma LowestIsKept(v: View, seen: set<Hash256>, n: u64, h: Hash256)
    requires v.bestZeroBits == LeadingZeroBits(v.best) && IsLowest(v.best, seen)
    ensures IsLowest(Recorded(v, n, h).best, seen + {h}) <==> !(IsBelow(h, v.best) && LeadingZeroBits(h) == LeadingZeroBits(v.best))
    ensures Recorded(v, n, h).bestZeroBits == LeadingZeroBits(Recorded(v, n, h).best)
  {
    hide LeadingZeroBits, Value;
    OrderAndZeroBits(h, v.best);
    var after := Recorded(v, n, h).best;
    assert h in seen + {h};
    forall k | k in seen
      ensures !IsBelow(k, after)
    {
    }
  }

  lemma CountStep(counted: nat, n: u64)
    ensures (counted % TWO_64 + n) % TWO_64 == (counted + n) % TWO_64
  {
  }

  lemma StartingBits()
    ensures LeadingZeroBits(MAXIMUM) == 0
  {
    AllOnes(32);
    Pow256IsPow2(32);
    LeadingZeroBitsMeaning(MAXIMUM, 1);
    assert Pow2(256) == 2 * Pow2(255);
    AllBitsSet();
  }

  datatype Call = Call(hashes: u64, best: Hash256)

  /** Calls one after another, from the start. */
  function RecordAll(calls: seq<Call>): View
  {
    if calls == [] then START
    else
      var last := calls[|calls| - 1];
      Recorded(RecordAll(calls[..|calls| - 1]), last.hashes, last.best)
  }

  function Total(calls: seq<Call>): nat
  {
    if calls == [] then 0 else Total(calls[..|calls| - 1]) + calls[|calls| - 1].hashes
  }

  /** The starting value and then what the calls brought. */
  function Seen(calls: seq<Call>): (hs: seq<Hash256>)
    ensures |hs| == |calls| + 1 && hs[0] == MAXIMUM && forall i :: 0 <= i < |calls| ==> hs[i + 1] == calls[i].best
  {
    [MAXIMUM] + seq(|calls|, i requires 0 <= i < |calls| => calls[i].best)
  }

  /** `hs[k]` has the most zero bits, and no earlier one has as many. */
  predicate IsFirstMost(hs: seq<Hash256>, k: nat)
  {
    && k < |hs|
    && (forall j :: 0 <= j < |hs| ==> LeadingZeroBits(hs[j]) <= LeadingZeroBits(hs[k]))
    && (forall j :: 0 <= j < k ==> LeadingZeroBits(hs[j]) < LeadingZeroBits(hs[k]))
  }

  lemma FirstMostAfter(hs: seq<Hash256>, k: nat, h: Hash256)
    requires IsFirstMost(hs, k)
    ensures IsFirstMost(hs + [h], if LeadingZeroBits(h) > LeadingZeroBits(hs[k]) then |hs| else k)
  {
    hide LeadingZeroBits;
  }

  lemma SeenAfter(calls: seq<Call>)
    requires calls != []
    ensures Seen(calls) == Seen(calls[..|calls| - 1]) + [calls[|calls| - 1].best]
  {
  }

  lemma {:induction false} BestIsFirstMost(calls: seq<Call>) returns (k: nat)
    ensures IsFirstMost(Seen(calls), k)
    ensures RecordAll(calls) == View(Total(calls) % TWO_64, LeadingZeroBits(Seen(calls)[k]), Seen(calls)[k])
  {
    hide LeadingZeroBits, Value;
    if calls == [] {
      StartingBits();
      k := 0;
    } else {
      var front, last := calls[..|calls| - 1], calls[|calls| - 1];
      k := BestIsFirstMost(front);
      hide Seen, IsFirstMost;
      SeenAfter(calls);
      CountStep(Total(front), last.hashes);
      FirstMostAfter(Seen(front), k, last.best);
      OrderAndZeroBits(last.best, Seen(front)[k]);
      if LeadingZeroBits(last.best) > LeadingZeroBits(Seen(front)[k]) { k := |calls|; }
    }
  }

  /**
    Over any calls one after another, the best is the first hash with the most zero bits; it is the
    lowest of all exactly when none of the later ones with as many zero bits is lower.
   */
  lemma BestOfCalls(calls: seq<Call>) returns (k: nat)
    ensures IsFirstMost(Seen(calls), k)
    ensures RecordAll(calls) == View(Total(calls) % TWO_64, LeadingZeroBits(Seen(calls)[k]), Seen(calls)[k])
    ensures var hs := Seen(calls);
      (forall j :: 0 <= j < |hs| ==> !IsBelow(hs[j], RecordAll(calls).best))
      <==> forall j :: k < j < |hs| && LeadingZeroBits(hs[j]) == LeadingZeroBits(hs[k]) ==> !IsBelow(hs[j], hs[k])
  {
    hide LeadingZeroBits, Value, Seen;
    k := BestIsFirstMost(calls);
    var hs := Seen(calls);
    forall j | 0 <= j < |hs| && IsBelow(hs[j], hs[k])
      ensures k < j && LeadingZeroBits(hs[j]) == LeadingZeroBits(hs[k])
    {
      OrderAndZeroBits(hs[j], hs[k]);
    }
  }

  lemma TurnedAway(first: Hash256, second: Hash256, n: u64)
    requires LeadingZeroBits(first) == LeadingZeroBits(second) > 0 && Value(second) < Value(first) < Value(MAXIMUM)
    ensures Recorded(Recorded(START, n, first), n, second).best == first
  {
    hide LeadingZeroBits, Value;
  }

  /** Three and then two: both have 254 zero bits, so the higher one stays. */
  lemma LowerHashTurnedAway(n: u64)
    ensures var three, two: Hash256 := [3] + Zeros(31), [2] + Zeros(31);
      IsBelow(two, Recorded(Recorded(START, n, three), n, two).best)
  {
    hide LeadingZeroBits, Value, Recorded;
    var three, two: Hash256 := [3] + Zeros(31), [2] + Zeros(31);
    SmallValue(3);
    SmallValue(2);
    AllBitsSet();
    TurnedAway(three, two, n);
  }

  lemma SmallValue(b: byte)
    ensures Value([b] + Zeros(31)) == b && LeadingZeroBits([b] + Zeros(31)) == 256 - BitLength(b)
  {
    assert ([b] + Zeros(31))[1..] == Zeros(31);
    LeValueZeros(31);
  }

  lemma AllBitsSet()
    ensures Value(MAXIMUM) == Pow256(32) - 1 && Value(MAXIMUM) > 3
  {
    AllOnes(32);
    Pow256Widths();
    Pow256Add(8, 24);
    MulAtLeast(TWO_64, Pow256(24));
  }

  // ----- the interleaving -----

  datatype Thread =
    | Idle
    | Filtering(candidate: Hash256)
    | WantsLock(candidate: Hash256)
    | Comparing(candidate: Hash256)
    | Storing(candidate: Hash256)
    | Unlocking(candidate: Hash256)

  /** The shared cells, the lock's holder, the threads, and the history: hashes counted and calls completed. */
  datatype State = State(view: View, lock: Option<nat>, threads: seq<Thread>, counted: nat, done: set<Hash256>)

  datatype Step =
    | Count(i: nat, hashes: u64, candidate: Hash256)
    | Filter(i: nat)
    | Acquire(i: nat)
    | Compare(i: nat)
    | Store(i: nat)
    | Release(i: nat)

  function Initial(threads: nat): State { State(START, None, seq(threads, i => Idle), 0, {}) }

  function Put(s: State, i: nat, t: Thread): State
    requires i < |s.threads|
  {
    s.(threads := s.threads[i := t])
  }

  /** One atomic step, where it is enabled. */
  function Next(s: State, step: Step): Option<State>
  {
    if step.i >= |s.threads| then None
    else
      match (step, s.threads[step.i])
      case (Count(i, n, h), Idle) =>
        Some(Put(s, i, Filtering(h)).(view := s.view.(hashes := (s.view.hashes + n) % TWO_64), counted := s.counted + n))
      case (Filter(i), Filtering(h)) =>
        if LeadingZeroBits(h) <= s.view.bestZeroBits then Some(Put(s, i, Idle).(done := s.done + {h})) else Some(Put(s, i, WantsLock(h)))
      case (Acquire(i), WantsLock(h)) => if s.lock.Some? then None else Some(Put(s, i, Comparing(h)).(lock := Some(i)))
      case (Compare(i), Comparing(h)) =>
        if IsBelow(h, s.view.best) then Some(Put(s, i, Storing(h)).(view := s.view.(best := h))) else Some(Put(s, i, Unlocking(h)))
      case (Store(i), Storing(h)) => Some(Put(s, i, Unlocking(h)).(view := s.view.(bestZeroBits := LeadingZeroBits(h))))
      case (Release(i), Unlocking(h)) => Some(Put(s, i, Idle).(lock := None, done := s.done + {h}))
      case _ => None
  }

  function Run(s: State, steps: seq<Step>): Option<State>
    decreases |steps|
  {
    if steps == [] then Some(s)
    else match Next(s, steps[0]) case None => None case Some(t) => Run(t, steps[1..])
  }

  predicate InLock(t: Thread) { t.Comparing? || t.Storing? || t.Unlocking? }

  /** Where the best hash came from: the start, a completed call, or the call that holds the lock. */
  predicate BestHasOrigin(s: State)
  {
    s.view.best == MAXIMUM || s.view.best in s.done
    || (s.lock.Some? && s.lock.value < |s.threads|
        && (s.threads[s.lock.value] == Storing(s.view.best) || s.threads[s.lock.value] == Unlocking(s.view.best)))
  }

  /** The count is exact, and the lock is held by exactly the thread that is inside it. */
  predicate LockInvariant(s: State)
  {
    && s.view.hashes == s.counted % TWO_64
    && (forall i :: 0 <= i < |s.threads| ==> (InLock(s.threads[i]) <==> s.lock == Some(i)))
    && (s.lock.Some? ==> s.lock.value < |s.threads|)
  }

  /** The cached bits lag the stored hash only between the two writes of the call that holds the lock. */
  predicate BestInvariant(s: State)
    requires LockInvariant(s)
  {
    && s.view.bestZeroBits <= LeadingZeroBits(s.view.best)
    && ((s.lock.None? || !s.threads[s.lock.value].Storing?) ==> s.view.bestZeroBits == LeadingZeroBits(s.view.best))
    && (s.lock.Some? && s.threads[s.lock.value].Storing? ==> s.threads[s.lock.value].candidate == s.view.best)
    && (s.lock.Some? && s.threads[s.lock.value].Unlocking? ==>
          LeadingZeroBits(s.threads[s.lock.value].candidate) <= LeadingZeroBits(s.view.best))
    && (forall h :: h in s.done ==> LeadingZeroBits(h) <= LeadingZeroBits(s.view.best))
    && BestHasOrigin(s)
  }

  predicate Invariant(s: State) { LockInvariant(s) && BestInvariant(s) }

  lemma StepKeepsLock(s: State, step: Step)
    requires LockInvariant(s) && Next(s, step).Some?
    ensures LockInvariant(Next(s, step).value)
  {
    hide LeadingZeroBits, Value;
    if step.Count? { CountStep(s.counted, step.hashes); }
  }

  lemma StepKeepsInvariant(s: State, step: Step)
    requires Invariant(s) && Next(s, step).Some?
    ensures Invariant(Next(s, step).value)
    ensures LeadingZeroBits(s.view.best) <= LeadingZeroBits(Next(s, step).value.view.best)
  {
    hide LeadingZeroBits, Value;
    StepKeepsLock(s, step);
    if step.Compare? { OrderAndZeroBits(s.threads[step.i].candidate, s.view.best); }
  }

  lemma {:induction false} RunKeepsInvariant(s: State, steps: seq<Step>)
    requires Invariant(s) && Run(s, steps).Some?
    ensures Invariant(Run(s, steps).value)
    ensures LeadingZeroBits(s.view.best) <= LeadingZeroBits(Run(s, steps).value.view.best)
    decreases |steps|
  {
    hide Invariant, Next, LeadingZeroBits;
    if steps != [] {
      StepKeepsInvariant(s, steps[0]);
      RunKeepsInvariant(Next(s, steps[0]).value, steps[1..]);
    }
  }

  /** The steps of one call with nothing else running. */
  function CallAlone(v: View, i: nat, n: u64, h: Hash256): seq<Step>
  {
    if LeadingZeroBits(h) <= v.bestZeroBits then [Count(i, n, h), Filter(i)]
    else if IsBelow(h, v.best) then [Count(i, n, h), Filter(i), Acquire(i), Compare(i), Store(i), Release(i)]
    else [Count(i, n, h), Filter(i), Acquire(i), Compare(i), Release(i)]
  }

  lemma RunFrom(s: State, steps: seq<Step>, k: nat)
    requires k < |steps|
    ensures Run(s, steps[k..]) == match Next(s, steps[k]) case None => None case Some(t) => Run(t, steps[k + 1..])
  {
    assert steps[k..][1..] == steps[k + 1..];
  }

  lemma RunEnds(s: State, steps: seq<Step>)
    ensures Run(s, steps[|steps|..]) == Some(s)
  {
  }

  /** The state after the count and the filter of a call run alone. */
  lemma FilterAlone(s: State, i: nat, n: u64, h: Hash256, steps: seq<Step>)
    requires i < |s.threads| && s.threads[i].Idle? && s.lock.None?
    requires |steps| >= 2 && steps[0] == Count(i, n, h) && steps[1] == Filter(i)
    ensures var low := LeadingZeroBits(h) <= s.view.bestZeroBits;
      var t := s.(threads := s.threads[i := if low then Idle else WantsLock(h)], view := s.view.(hashes := (s.view.hashes + n) % TWO_64),
                  counted := s.counted + n, done := s.done + if low then {h} else {});
      Run(s, steps) == Run(t, steps[2..])
  {
    hide LeadingZeroBits, Run;
    assert steps[0..] == steps;
    var s1 := Next(s, steps[0]).value;
    RunFrom(s, steps, 0);
    RunFrom(s1, steps, 1);
    assert s.threads[i := Filtering(h)][i := Idle] == s.threads[i := Idle];
    assert s.threads[i := Filtering(h)][i := WantsLock(h)] == s.threads[i := WantsLock(h)];
    assert s.done + {} == s.done;
  }

  /** From wanting a free lock to having released it. */
  lemma LockAlone(s: State, i: nat, h: Hash256, steps: seq<Step>)
    requires i < |s.threads| && s.threads[i] == WantsLock(h) && s.lock.None?
    requires steps == if IsBelow(h, s.view.best) then [Acquire(i), Compare(i), Store(i), Release(i)] else [Acquire(i), Compare(i), Release(i)]
    ensures var t := Run(s, steps);
      && t.Some? && |t.value.threads| == |s.threads| && t.value.threads[i].Idle? && t.value.lock.None?
      && t.value.view == if IsBelow(h, s.view.best) then s.view.(best := h, bestZeroBits := LeadingZeroBits(h)) else s.view
  {
    hide LeadingZeroBits, Value, Run;
    assert steps[0..] == steps;
    var s1 := Next(s, Acquire(i)).value;
    var s2 := Next(s1, Compare(i)).value;
    RunFrom(s, steps, 0);
    RunFrom(s1, steps, 1);
    RunFrom(s2, steps, 2);
    if IsBelow(h, s.view.best) {
      var s3 := Next(s2, Store(i)).value;
      RunFrom(s3, steps, 3);
      RunEnds(Next(s3, Release(i)).value, steps);
    } else {
      RunEnds(Next(s2, Release(i)).value, steps);
    }
  }

  /** Run alone, a call's atomic steps do what the method does. */
  lemma AloneIsRecorded(s: State, i: nat, n: u64, h: Hash256)
    requires i < |s.threads| && s.threads[i].Idle? && s.lock.None?
    ensures var t := Run(s, CallAlone(s.view, i, n, h));
      && t.Some? && t.value.view == Recorded(s.view, n, h)
      && |t.value.threads| == |s.threads| && t.value.threads[i].Idle? && t.value.lock.None?
  {
    hide LeadingZeroBits, Value, Run, Next;
    var steps := CallAlone(s.view, i, n, h);
    FilterAlone(s, i, n, h, steps);
    if LeadingZeroBits(h) <= s.view.bestZeroBits {
      RunEnds(s.(threads := s.threads[i := Idle], view := s.view.(hashes := (s.view.hashes + n) % TWO_64),
                 counted := s.counted + n, done := s.done + {h}), steps);
    } else {
      LockAlone(s.(threads := s.threads[i := WantsLock(h)], view := s.view.(hashes := (s.view.hashes + n) % TWO_64),
                   counted := s.counted + n, done := s.done + {}), i, h, steps[2..]);
    }
  }

  /**
    However the calls interleave: every hash is counted once, and whenever the lock is free the cached
    bit count is that of the stored hash, which is a completed call's and has the most zero bits of all
    completed calls.
   */
  lemma AccountsAgree(threads: nat, steps: seq<Step>)
    requires Run(Initial(threads), steps).Some?
    ensures var s := Run(Initial(threads), steps).value;
      && s.view.hashes == s.counted % TWO_64
      && (s.lock.None? ==>
            && s.view.bestZeroBits == LeadingZeroBits(s.view.best)
            && (s.view.best == MAXIMUM || s.view.best in s.done)
            && forall h :: h in s.done ==> LeadingZeroBits(h) <= s.view.bestZeroBits)
  {
    hide LeadingZeroBits;
    StartingBits();
    RunKeepsInvariant(Initial(threads), steps);
  }

  /** With the lock free, the stored hash is the lowest completed exactly when no completed one with its zero bits is below it. */
  lemma LowestAtRest(threads: nat, steps: seq<Step>)
    requires Run(Initial(threads), steps).Some? && Run(Initial(threads), steps).value.lock.None?
    ensures var s := Run(Initial(threads), steps).value;
      IsLowest(s.view.best, s.done)
      <==> forall h :: h in s.done && LeadingZeroBits(h) == s.view.bestZeroBits ==> !IsBelow(h, s.view.best)
  {
    hide LeadingZeroBits, Value, Run;
    AccountsAgree(threads, steps);
    var s := Run(Initial(threads), steps).value;
    forall h | h in s.done && IsBelow(h, s.view.best)
      ensures LeadingZeroBits(h) == s.view.bestZeroBits
    {
      OrderAndZeroBits(h, s.view.best);
    }
  }
}
