/**
  The hand-off of work from the network thread to the hashing threads: a mutex around the current
  job, a generation counter bumped after it is released, and a cell naming the solved generation.
 */
module WorkHandOff {
  import opened Wrappers
  import opened Bytes

  const NONE_SOLVED: u64 := 0xFFFF_FFFF_FFFF_FFFF

  datatype Shared<W> = Shared(current: Option<W>, generation: u64, solved: u64)

  // ----- the atomic steps -----

  function Write<W>(s: Shared<W>, work: W): Shared<W> { s.(current := Some(work)) }

  function Bump<W>(s: Shared<W>): Shared<W> { s.(generation := (s.generation + 1) % TWO_64) }

  function Mark<W>(s: Shared<W>, generation: u64): Shared<W> { s.(solved := generation) }

  predicate IsCurrent<W>(s: Shared<W>, generation: u64) { s.generation == generation && s.solved != generation }

  /** The state as its methods change it when nothing runs between their steps. */
  class WorkState<W> {
    var current: Option<W>
    var generation: u64
    var solved: u64

    constructor ()
      ensures View() == Shared(None, 0, 0xFFFF_FFFF_FFFF_FFFF)
    {
      current, generation, solved := None, 0, NONE_SOLVED;
    }

    function View(): Shared<W>
      reads this
    {
      Shared(current, generation, solved)
    }

    method Set(work: W)
      modifies this
      ensures View() == Bump(Write(old(View()), work))
    {
      current := Some(work);
      generation := (generation + 1) % TWO_64;
    }

    method Snapshot() returns (r: Option<(W, u64)>)
      ensures r == if View().current.None? then None else Some((View().current.value, View().generation))
    {
      if current.None? { return None; }
      var work := current.value;
      return Some((work, generation));
    }

    method MarkSolved(g: u64)
      modifies this
      ensures View() == Mark(old(View()), g)
    {
      solved := g;
    }

    method Current(g: u64) returns (r: bool)
      ensures r <==> IsCurrent(View(), g)
    {
      if generation != g { return false; }
      return solved != g;
    }
  }

  // ----- the interleaving -----

  /** How a snapshot's two reads are arranged: as written, the other way round, or in one step. */
  datatype Order = CloneThenLoad | LoadThenClone | Atomic

  /**
    A pair a thread works with: the number of the job it cloned and the count of completed sets it
    read as the generation. `began` and `midSet` are history: the completed sets when the job was
    cloned, and whether another was between its write and its bump.
   */
  datatype Held = Held(work: nat, at: nat, began: nat, midSet: bool)

  datatype Thread =
    | Idle
    | Cloned(work: nat, began: nat, midSet: bool)
    | Loaded(at: nat)
    | Holding(held: Held)
    | Asked(held: Held)
    | Hashing(held: Held)

  /** Jobs are named by the order they were written in; one network thread does all the setting. */
  datatype State = State(shared: Shared<nat>, written: nat, completed: nat, setting: bool, threads: seq<Thread>)

  datatype Step =
    | SetWrite
    | SetBump
    | Clone(i: nat)
    | Load(i: nat)
    | AskGeneration(i: nat)
    | AskSolved(i: nat)
    | EndBatch(i: nat)
    | MarkSolved(i: nat)

  function Initial(threads: nat): State
  {
    State(Shared(None, 0, NONE_SOLVED), 0, 0, false, seq(threads, i => Idle))
  }

  function Put(s: State, i: nat, t: Thread): State
    requires i < |s.threads|
  {
    s.(threads := s.threads[i := t])
  }

  /** The generation a completed count reads as. */
  function AsGeneration(count: nat): u64 { count % TWO_64 }

  function Bumped(count: nat, midSet: bool): nat { count + if midSet then 1 else 0 }

  /** What a thread sees of the job cell: nothing before the first set. */
  function CloneStep(o: Order, s: State, i: nat): State
    requires i < |s.threads|
  {
    if s.shared.current.None? then Put(s, i, Idle)
    else
      match (o, s.threads[i])
      case (LoadThenClone, Loaded(at)) => Put(s, i, Holding(Held(s.shared.current.value, at, s.completed, s.setting)))
      case (Atomic, _) => Put(s, i, Holding(Held(s.shared.current.value, s.completed, s.completed, s.setting)))
      case _ => Put(s, i, Cloned(s.shared.current.value, s.completed, s.setting))
  }

  /** One atomic step, where it is enabled. */
  function Next(o: Order, s: State, step: Step): Option<State>
  {
    match step
    case SetWrite =>
      if s.setting then None
      else Some(s.(shared := Write(s.shared, s.written + 1), written := s.written + 1, setting := true))
    case SetBump =>
      if !s.setting then None
      else Some(s.(shared := Bump(s.shared), completed := s.completed + 1, setting := false))
    case Clone(i) =>
      if i >= |s.threads| || (if o.LoadThenClone? then !s.threads[i].Loaded? else !s.threads[i].Idle?) then None
      else Some(CloneStep(o, s, i))
    case Load(i) =>
      if i >= |s.threads| || o.Atomic? then None
      else if o.LoadThenClone? && s.threads[i].Idle? then Some(Put(s, i, Loaded(s.completed)))
      else if o.CloneThenLoad? && s.threads[i].Cloned? then
        var t := s.threads[i];
        Some(Put(s, i, Holding(Held(t.work, s.completed, t.began, t.midSet))))
      else None
    case AskGeneration(i) =>
      if i >= |s.threads| || !s.threads[i].Holding? then None
      else
        var h := s.threads[i].held;
        Some(Put(s, i, if s.shared.generation == AsGeneration(h.at) then Asked(h) else Idle))
    case AskSolved(i) =>
      if i >= |s.threads| || !s.threads[i].Asked? then None
      else
        var h := s.threads[i].held;
        Some(Put(s, i, if s.shared.solved != AsGeneration(h.at) then Hashing(h) else Idle))
    case EndBatch(i) =>
      if i >= |s.threads| || !s.threads[i].Hashing? then None else Some(Put(s, i, Holding(s.threads[i].held)))
    case MarkSolved(i) =>
      if i >= |s.threads| || !s.threads[i].Hashing? then None
      else Some(Put(s, i, Idle).(shared := Mark(s.shared, AsGeneration(s.threads[i].held.at))))
  }

  function Run(o: Order, s: State, steps: seq<Step>): Option<State>
    decreases |steps|
  {
    if steps == [] then Some(s)
    else match Next(o, s, steps[0]) case None => None case Some(t) => Run(o, t, steps[1..])
  }

  /** Run alone, the atomic steps of a set do what the method does. */
  lemma SetAlone(o: Order, s: State)
    requires !s.setting
    ensures var t := Run(o, s, [SetWrite, SetBump]);
      t.Some? && t.value.shared == Bump(Write(s.shared, s.written + 1)) && t.value.threads == s.threads
  {
    var steps := [SetWrite, SetBump];
    assert steps[1..][0] == SetBump && steps[1..][1..] == [];
  }

  /** And so do those of a snapshot: nothing before the first set, else the current work under the current generation. */
  lemma SnapshotAlone(s: State, i: nat)
    requires Invariant(CloneThenLoad, s) && i < |s.threads| && s.threads[i].Idle?
    ensures s.shared.current.None? ==> Run(CloneThenLoad, s, [Clone(i)]) == Some(Put(s, i, Idle))
    ensures s.shared.current.Some? ==>
              var t := Run(CloneThenLoad, s, [Clone(i), Load(i)]);
              && t.Some? && t.value.shared == s.shared && |t.value.threads| == |s.threads| && t.value.threads[i].Holding?
              && t.value.threads[i].held.work == s.shared.current.value && AsGeneration(t.value.threads[i].held.at) == s.shared.generation
  {
    hide Run;
    var o, once, both := CloneThenLoad, [Clone(i)], [Clone(i), Load(i)];
    assert once[0..] == once && both[0..] == both;
    if s.shared.current.None? {
      Takes(o, s, once, 0, Put(s, i, Idle));
      RunEnds(o, Put(s, i, Idle), once);
    } else {
      var work := s.shared.current.value;
      var cloned := Put(s, i, Cloned(work, s.completed, s.setting));
      var held := Put(cloned, i, Holding(Held(work, s.completed, s.completed, s.setting)));
      Takes(o, s, both, 0, cloned);
      Takes(o, cloned, both, 1, held);
      RunEnds(o, held, both);
    }
  }

  /** And those of a thread's question send it on to hash exactly when the method would say yes. */
  lemma QuestionAlone(o: Order, s: State, i: nat)
    requires i < |s.threads| && s.threads[i].Holding?
    ensures var h := s.threads[i].held;
      if IsCurrent(s.shared, AsGeneration(h.at)) then Run(o, s, [AskGeneration(i), AskSolved(i)]) == Some(Put(s, i, Hashing(h)))
      else if s.shared.generation == AsGeneration(h.at) then Run(o, s, [AskGeneration(i), AskSolved(i)]) == Some(Put(s, i, Idle))
      else Run(o, s, [AskGeneration(i)]) == Some(Put(s, i, Idle))
  {
    hide Run;
    var h, one, both := s.threads[i].held, [AskGeneration(i)], [AskGeneration(i), AskSolved(i)];
    assert one[0..] == one && both[0..] == both;
    if s.shared.generation != AsGeneration(h.at) {
      Takes(o, s, one, 0, Put(s, i, Idle));
      RunEnds(o, Put(s, i, Idle), one);
    } else {
      var after := Put(s, i, if s.shared.solved != AsGeneration(h.at) then Hashing(h) else Idle);
      Takes(o, s, both, 0, Put(s, i, Asked(h)));
      Takes(o, Put(s, i, Asked(h)), both, 1, after);
      RunEnds(o, after, both);
    }
  }

  // ----- what every interleaving keeps -----

  predicate HoldsPair(t: Thread) { t.Holding? || t.Asked? || t.Hashing? }

  predicate HeldInvariant(o: Order, s: State, h: Held)
  {
    && 1 <= h.work <= s.written && h.at <= s.completed
    && match o
       case CloneThenLoad => h.work == Bumped(h.began, h.midSet) && h.began <= h.at
       case LoadThenClone => h.at <= h.work
       case Atomic => h.work == Bumped(h.at, h.midSet)
  }

  predicate ThreadInvariant(o: Order, s: State, t: Thread)
  {
    match t
    case Idle => true
    case Cloned(work, began, midSet) => o.CloneThenLoad? && 1 <= work == Bumped(began, midSet) <= s.written && began <= s.completed
    case Loaded(at) => at <= s.completed
    case _ => HeldInvariant(o, s, t.held)
  }

  predicate Invariant(o: Order, s: State)
  {
    && s.shared.generation == AsGeneration(s.completed)
    && s.written == Bumped(s.completed, s.setting)
    && s.shared.current == (if s.written == 0 then None else Some(s.written))
    && (s.shared.solved != NONE_SOLVED ==> s.shared.solved <= s.completed)
    && forall i :: 0 <= i < |s.threads| ==> ThreadInvariant(o, s, s.threads[i])
  }

  lemma GenerationStep(count: nat)
    ensures (AsGeneration(count) + 1) % TWO_64 == AsGeneration(count + 1)
  {
  }

  lemma MoreSetsKeepThread(o: Order, s: State, t: State, thread: Thread)
    requires ThreadInvariant(o, s, thread) && s.written <= t.written && s.completed <= t.completed
    ensures ThreadInvariant(o, t, thread)
  {
  }

  /** A step of the setter. */
  lemma SetKeepsInvariant(o: Order, s: State, step: Step)
    requires Invariant(o, s) && Next(o, s, step).Some? && (step.SetWrite? || step.SetBump?)
    ensures Invariant(o, Next(o, s, step).value)
  {
    hide ThreadInvariant;
    var t := Next(o, s, step).value;
    if step.SetBump? { GenerationStep(s.completed); }
    forall i | 0 <= i < |t.threads|
      ensures ThreadInvariant(o, t, t.threads[i])
    {
      MoreSetsKeepThread(o, s, t, t.threads[i]);
    }
  }

  /** A step of a thread changes no other thread and no count. */
  lemma ThreadKeepsInvariant(o: Order, s: State, step: Step)
    requires Invariant(o, s) && Next(o, s, step).Some? && !step.SetWrite? && !step.SetBump?
    ensures Invariant(o, Next(o, s, step).value)
  {
    var t := Next(o, s, step).value;
    assert ThreadInvariant(o, s, s.threads[step.i]);
    assert ThreadInvariant(o, t, t.threads[step.i]);
    hide ThreadInvariant, Next;
    forall j | 0 <= j < |t.threads|
      ensures ThreadInvariant(o, t, t.threads[j])
    {
      if j != step.i {
        OtherThreads(o, s, step, j);
        MoreSetsKeepThread(o, s, t, t.threads[j]);
      }
    }
    assert s.shared.current == t.shared.current;
  }

  lemma OtherThreads(o: Order, s: State, step: Step, j: nat)
    requires Next(o, s, step).Some? && !step.SetWrite? && !step.SetBump? && j < |s.threads| && j != step.i
    ensures var t := Next(o, s, step).value;
      |t.threads| == |s.threads| && t.threads[j] == s.threads[j] && t.written == s.written && t.completed == s.completed
  {
  }

  lemma StepKeepsInvariant(o: Order, s: State, step: Step)
    requires Invariant(o, s) && Next(o, s, step).Some?
    ensures Invariant(o, Next(o, s, step).value)
    ensures s.completed <= Next(o, s, step).value.completed
  {
    if step.SetWrite? || step.SetBump? { SetKeepsInvariant(o, s, step); } else { ThreadKeepsInvariant(o, s, step); }
  }

  lemma {:induction false} RunKeepsInvariant(o: Order, s: State, steps: seq<Step>)
    requires Invariant(o, s) && Run(o, s, steps).Some?
    ensures Invariant(o, Run(o, s, steps).value)
    ensures s.completed <= Run(o, s, steps).value.completed
    decreases |steps|
  {
    hide Next, Invariant;
    if steps != [] {
      StepKeepsInvariant(o, s, steps[0]);
      RunKeepsInvariant(o, Next(o, s, steps[0]).value, steps[1..]);
    }
  }

  /**
    In every interleaving the generation counts completed sets, and a held pair (work j, generation g)
    has j <= g + 1 as written. It has j >= g exactly when no set but one already under way at the
    clone completed before the load; with the reads the other way round, or in one step, it always does.
   */
  lemma HeldPairs(o: Order, threads: nat, steps: seq<Step>, i: nat)
    requires Run(o, Initial(threads), steps).Some?
    ensures var s := Run(o, Initial(threads), steps).value;
      && s.shared.generation == AsGeneration(s.completed) && s.written == Bumped(s.completed, s.setting)
      && (i < |s.threads| && HoldsPair(s.threads[i]) ==>
            var h := s.threads[i].held;
            && h.at <= s.completed
            && (o.CloneThenLoad? ==> h.work <= h.at + 1 && (h.work >= h.at <==> h.at - h.began <= Bumped(0, h.midSet)))
            && (!o.CloneThenLoad? ==> h.work >= h.at))
  {
    hide Run;
    RunKeepsInvariant(o, Initial(threads), steps);
    var s := Run(o, Initial(threads), steps).value;
    if i < |s.threads| { assert ThreadInvariant(o, s, s.threads[i]); }
  }

  /** A job that newer, fully announced work has replaced. */
  predicate Superseded(s: State, h: Held) { h.work < s.completed }

  /** With the reads the other way round, or in one step, a thread that is told its generation is current never holds superseded work. */
  lemma CurrentIsNeverSuperseded(o: Order, threads: nat, steps: seq<Step>, i: nat)
    requires !o.CloneThenLoad? && Run(o, Initial(threads), steps).Some?
    ensures var s := Run(o, Initial(threads), steps).value;
      var t := Next(o, s, AskGeneration(i));
      t.Some? && t.value.threads[i].Asked? && s.completed < TWO_64 ==> !Superseded(s, t.value.threads[i].held)
  {
    hide Run;
    RunKeepsInvariant(o, Initial(threads), steps);
    var s := Run(o, Initial(threads), steps).value;
    if i < |s.threads| { assert ThreadInvariant(o, s, s.threads[i]); }
  }

  function StaleRun(): seq<Step>
  {
    [SetWrite, SetBump, Clone(0), SetWrite, SetBump, Load(0), AskGeneration(0), AskSolved(0)]
  }

  /** A run unfolds one step at a time. */
  lemma Takes(o: Order, s: State, steps: seq<Step>, k: nat, t: State)
    requires k < |steps|
    requires var n := Next(o, s, steps[k]);
      && n.Some? && n.value.shared == t.shared && n.value.written == t.written && n.value.completed == t.completed
      && n.value.setting == t.setting && n.value.threads == t.threads
    ensures Run(o, s, steps[k..]) == Run(o, t, steps[k + 1..])
  {
    assert steps[k..][1..] == steps[k + 1..];
  }

  /** The first set done, the second begun, and the second done. */
  function OneSet(threads: seq<Thread>): State { State(Shared(Some(1), 1, NONE_SOLVED), 1, 1, false, threads) }

  function SecondBegun(threads: seq<Thread>): State { State(Shared(Some(2), 1, NONE_SOLVED), 2, 1, true, threads) }

  function TwoSets(solved: u64, threads: seq<Thread>): State { State(Shared(Some(2), 2, solved), 2, 2, false, threads) }

  lemma StaleRunBegins()
    ensures Run(CloneThenLoad, Initial(1), StaleRun()) == Run(CloneThenLoad, OneSet([Cloned(1, 1, false)]), StaleRun()[3..])
  {
    hide Run;
    var o, steps := CloneThenLoad, StaleRun();
    assert steps[0..] == steps;
    Takes(o, Initial(1), steps, 0, State(Shared(Some(1), 0, NONE_SOLVED), 1, 0, true, [Idle]));
    Takes(o, State(Shared(Some(1), 0, NONE_SOLVED), 1, 0, true, [Idle]), steps, 1, OneSet([Idle]));
    Takes(o, OneSet([Idle]), steps, 2, OneSet([Cloned(1, 1, false)]));
  }

  lemma StaleRunEnds()
    ensures Run(CloneThenLoad, Initial(1), StaleRun()) == Some(TwoSets(NONE_SOLVED, [Hashing(Held(1, 2, 1, false))]))
  {
    hide Run;
    var o, steps, h := CloneThenLoad, StaleRun(), Held(1, 2, 1, false);
    StaleRunBegins();
    Takes(o, OneSet([Cloned(1, 1, false)]), steps, 3, SecondBegun([Cloned(1, 1, false)]));
    Takes(o, SecondBegun([Cloned(1, 1, false)]), steps, 4, TwoSets(NONE_SOLVED, [Cloned(1, 1, false)]));
    Takes(o, TwoSets(NONE_SOLVED, [Cloned(1, 1, false)]), steps, 5, TwoSets(NONE_SOLVED, [Holding(h)]));
    Takes(o, TwoSets(NONE_SOLVED, [Holding(h)]), steps, 6, TwoSets(NONE_SOLVED, [Asked(h)]));
    Takes(o, TwoSets(NONE_SOLVED, [Asked(h)]), steps, 7, TwoSets(NONE_SOLVED, [Hashing(h)]));
    RunEnds(o, TwoSets(NONE_SOLVED, [Hashing(h)]), steps);
  }

  /** As written, a whole set between the clone and the load leaves a thread hashing job 1 under generation 2, and it is told that is current. */
  lemma SupersededWorkIsMined()
    ensures var s := Run(CloneThenLoad, Initial(1), StaleRun());
      && s.Some? && s.value.threads == [Hashing(Held(1, 2, 1, false))] && s.value.completed == 2
      && Superseded(s.value, s.value.threads[0].held) && IsCurrent(s.value.shared, 2)
  {
    hide Run;
    StaleRunEnds();
  }

  lemma RunEnds(o: Order, s: State, steps: seq<Step>)
    ensures Run(o, s, steps[|steps|..]) == Some(s)
  {
  }

  // ----- retirement -----

  /** A generation that newer work has passed is never current again, before the counter itself wraps. */
  lemma PassedForGood(o: Order, s: State, steps: seq<Step>, at: nat)
    requires Invariant(o, s) && Run(o, s, steps).Some? && at < s.completed && Run(o, s, steps).value.completed < TWO_64
    ensures !IsCurrent(Run(o, s, steps).value.shared, AsGeneration(at))
  {
    hide Run;
    RunKeepsInvariant(o, s, steps);
  }

  /** A thread past its look at the counter, for another generation than `g`: it may yet mark that one. */
  predicate MayMarkOther(t: Thread, g: u64) { (t.Asked? || t.Hashing?) && t.held.at != g }

  /** Whatever the threads do from here, `g` is never current again (before the counter reaches the empty cell's value). */
  ghost predicate StaysRetired(o: Order, s: State, g: u64)
  {
    forall steps :: Run(o, s, steps).Some? && Run(o, s, steps).value.completed < NONE_SOLVED ==>
                      !IsCurrent(Run(o, s, steps).value.shared, g)
  }

  /** Newer work has passed `g`, or `g` is marked and nobody is about to mark another generation. */
  predicate Retired(s: State, g: u64)
  {
    g < s.completed || (s.completed == g == s.shared.solved && forall i :: 0 <= i < |s.threads| ==> !MayMarkOther(s.threads[i], g))
  }

  lemma StepKeepsRetired(o: Order, s: State, step: Step, g: u64)
    requires Invariant(o, s) && Next(o, s, step).Some? && s.completed < NONE_SOLVED && Retired(s, g)
    ensures Retired(Next(o, s, step).value, g)
  {
    var t := Next(o, s, step).value;
    if t.completed == g && !step.SetWrite? {
      assert ThreadInvariant(o, s, s.threads[step.i]);
      assert !MayMarkOther(s.threads[step.i], g);
      forall j | 0 <= j < |t.threads|
        ensures !MayMarkOther(t.threads[j], g)
      {
        if j != step.i { OtherThreads(o, s, step, j); }
      }
    }
  }

  lemma {:induction false} RunKeepsRetired(o: Order, s: State, steps: seq<Step>, g: u64)
    requires Invariant(o, s) && Run(o, s, steps).Some? && Run(o, s, steps).value.completed < NONE_SOLVED && Retired(s, g)
    ensures !IsCurrent(Run(o, s, steps).value.shared, g)
    decreases |steps|
  {
    RunKeepsInvariant(o, s, steps);
    if steps != [] {
      hide Next, Invariant, Retired, IsCurrent;
      StepKeepsInvariant(o, s, steps[0]);
      StepKeepsRetired(o, s, steps[0], g);
      RunKeepsRetired(o, Next(o, s, steps[0]).value, steps[1..], g);
    }
  }

  /** A thread past its look for another generation can finish its batch, mark that one, and make `g` current again. */
  lemma LateMarkUnretires(o: Order, s: State, g: u64, i: nat)
    requires Invariant(o, s) && s.completed == g == s.shared.solved && g < NONE_SOLVED
    requires i < |s.threads| && MayMarkOther(s.threads[i], g)
    ensures !StaysRetired(o, s, g)
  {
    hide Run;
    var h := s.threads[i].held;
    assert ThreadInvariant(o, s, s.threads[i]);
    var marked := Put(s, i, Idle).(shared := Mark(s.shared, AsGeneration(h.at)));
    var steps := if s.threads[i].Asked? then [AskSolved(i), MarkSolved(i)] else [MarkSolved(i)];
    assert steps[0..] == steps;
    if s.threads[i].Asked? {
      Takes(o, s, steps, 0, Put(s, i, Hashing(h)));
      Takes(o, Put(s, i, Hashing(h)), steps, 1, marked);
    } else {
      Takes(o, s, steps, 0, marked);
    }
    RunEnds(o, marked, steps);
    assert Run(o, s, steps) == Some(marked) && IsCurrent(marked.shared, g);
  }

  /** A solved generation is retired for good exactly when no thread is between its look at the counter and the end of its batch for another one. */
  lemma RetiredForGood(o: Order, s: State, g: u64)
    requires Invariant(o, s) && s.completed == g == s.shared.solved && g < NONE_SOLVED
    ensures StaysRetired(o, s, g) <==> forall i :: 0 <= i < |s.threads| ==> !MayMarkOther(s.threads[i], g)
  {
    hide Run, Invariant, IsCurrent, MayMarkOther;
    if i :| 0 <= i < |s.threads| && MayMarkOther(s.threads[i], g) {
      LateMarkUnretires(o, s, g, i);
    } else {
      forall steps | Run(o, s, steps).Some? && Run(o, s, steps).value.completed < NONE_SOLVED
        ensures !IsCurrent(Run(o, s, steps).value.shared, g)
      {
        RunKeepsRetired(o, s, steps, g);
      }
    }
  }

  /** So a thread's own mark on the current generation is final exactly when no other thread is past its look for another one. */
  lemma MarkIsFinal(o: Order, s: State, i: nat)
    requires Invariant(o, s) && i < |s.threads| && s.threads[i].Hashing? && s.threads[i].held.at == s.completed < NONE_SOLVED
    ensures var t := Next(o, s, MarkSolved(i));
      && t.Some? && !IsCurrent(t.value.shared, s.completed)
      && (StaysRetired(o, t.value, s.completed) <==>
            forall j :: 0 <= j < |s.threads| && j != i ==> !MayMarkOther(s.threads[j], s.completed))
  {
    StepKeepsInvariant(o, s, MarkSolved(i));
    var t := Next(o, s, MarkSolved(i)).value;
    RetiredForGood(o, t, s.completed);
    hide StaysRetired, Invariant;
    assert forall j :: 0 <= j < |s.threads| ==> t.threads[j] == if j == i then Idle else s.threads[j];
  }

  function UnretiringRun(): seq<Step>
  {
    [SetWrite, SetBump, Clone(0), Load(0), AskGeneration(0), AskSolved(0),
     SetWrite, SetBump, Clone(1), Load(1), AskGeneration(1), AskSolved(1), MarkSolved(1), MarkSolved(0)]
  }

  /** A thread finishing its last batch on generation 1 marks it after generation 2 was marked, and generation 2 is current again. */
  lemma StaleMarkUnretires()
    ensures var before, after := Run(CloneThenLoad, Initial(2), UnretiringRun()[..13]), Run(CloneThenLoad, Initial(2), UnretiringRun());
      && before.Some? && after.Some?
      && !IsCurrent(before.value.shared, 2) && IsCurrent(after.value.shared, 2) && before.value.completed == after.value.completed == 2
  {
    hide Run;
    UnretiringPrefix();
    var steps := UnretiringRun();
    var s := TwoSets(2, [Hashing(Held(1, 1, 1, false)), Idle]);
    RunSplits(CloneThenLoad, Initial(2), steps, 13);
    Takes(CloneThenLoad, s, steps, 13, TwoSets(1, [Idle, Idle]));
    RunEnds(CloneThenLoad, TwoSets(1, [Idle, Idle]), steps);
  }

  lemma UnretiringPrefix()
    ensures Run(CloneThenLoad, Initial(2), UnretiringRun()[..13]) == Some(TwoSets(2, [Hashing(Held(1, 1, 1, false)), Idle]))
  {
    hide Run;
    var o, steps := CloneThenLoad, UnretiringRun()[..13];
    var h, g := Held(1, 1, 1, false), Held(2, 2, 2, false);
    assert steps[0..] == steps;
    Takes(o, Initial(2), steps, 0, State(Shared(Some(1), 0, NONE_SOLVED), 1, 0, true, [Idle, Idle]));
    Takes(o, State(Shared(Some(1), 0, NONE_SOLVED), 1, 0, true, [Idle, Idle]), steps, 1, OneSet([Idle, Idle]));
    Takes(o, OneSet([Idle, Idle]), steps, 2, OneSet([Cloned(1, 1, false), Idle]));
    Takes(o, OneSet([Cloned(1, 1, false), Idle]), steps, 3, OneSet([Holding(h), Idle]));
    Takes(o, OneSet([Holding(h), Idle]), steps, 4, OneSet([Asked(h), Idle]));
    Takes(o, OneSet([Asked(h), Idle]), steps, 5, OneSet([Hashing(h), Idle]));
    Takes(o, OneSet([Hashing(h), Idle]), steps, 6, SecondBegun([Hashing(h), Idle]));
    Takes(o, SecondBegun([Hashing(h), Idle]), steps, 7, TwoSets(NONE_SOLVED, [Hashing(h), Idle]));
    Takes(o, TwoSets(NONE_SOLVED, [Hashing(h), Idle]), steps, 8, TwoSets(NONE_SOLVED, [Hashing(h), Cloned(2, 2, false)]));
    Takes(o, TwoSets(NONE_SOLVED, [Hashing(h), Cloned(2, 2, false)]), steps, 9, TwoSets(NONE_SOLVED, [Hashing(h), Holding(g)]));
    Takes(o, TwoSets(NONE_SOLVED, [Hashing(h), Holding(g)]), steps, 10, TwoSets(NONE_SOLVED, [Hashing(h), Asked(g)]));
    Takes(o, TwoSets(NONE_SOLVED, [Hashing(h), Asked(g)]), steps, 11, TwoSets(NONE_SOLVED, [Hashing(h), Hashing(g)]));
    Takes(o, TwoSets(NONE_SOLVED, [Hashing(h), Hashing(g)]), steps, 12, TwoSets(2, [Hashing(h), Idle]));
    RunEnds(o, TwoSets(2, [Hashing(h), Idle]), steps);
  }

  lemma {:induction false} RunSplits(o: Order, s: State, steps: seq<Step>, k: nat)
    requires k <= |steps|
    ensures Run(o, s, steps) == match Run(o, s, steps[..k]) case None => None case Some(t) => Run(o, t, steps[k..])
    decreases |steps|
  {
    if k == 0 {
      assert steps[0..] == steps;
    } else if Next(o, s, steps[0]).Some? {
      assert steps[..k][1..] == steps[1..][..k - 1] && steps[1..][k - 1..] == steps[k..];
      RunSplits(o, Next(o, s, steps[0]).value, steps[1..], k - 1);
    }
  }
}
