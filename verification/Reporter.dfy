/** The reporter thread: session counts folded into lifetime totals, and what the last save can miss. */
module Reporter {
  import opened Wrappers
  import opened Bytes
  import opened Hash256
  import Worker

  const MAX_U64: u64 := 0xFFFF_FFFF_FFFF_FFFF

  function Min(a: nat, b: nat): nat { if a <= b then a else b }

  // ----- lifetime totals -----

  datatype Totals = Totals(totalHashes: u64, bestZeroBits: nat, bestHash: Hash256)

  /** Totals after one report: the count saturates, and the best moves only to more zero bits. */
  function Folded(t: Totals, hashes: u64, best: Hash256, zeroBits: nat): Totals
  {
    var counted := t.(totalHashes := Min(t.totalHashes + hashes, MAX_U64));
    if zeroBits > t.bestZeroBits then counted.(bestZeroBits := zeroBits, bestHash := best) else counted
  }

  class Lifetime {
    var totalHashes: u64
    var bestZeroBits: nat
    var bestHash: Hash256

    constructor (t: Totals)
      ensures Current() == t
    {
      totalHashes, bestZeroBits, bestHash := t.totalHashes, t.bestZeroBits, t.bestHash;
    }

    function Current(): Totals
      reads this
    {
      Totals(totalHashes, bestZeroBits, bestHash)
    }

    method Record(newHashes: u64, best: Hash256, zeroBits: nat)
      modifies this
      ensures Current() == Folded(old(Current()), newHashes, best, zeroBits)
    {
      totalHashes := if totalHashes + newHashes > MAX_U64 then MAX_U64 else totalHashes + newHashes;
      if zeroBits > bestZeroBits {
        bestZeroBits := zeroBits;
        bestHash := best;
      }
    }
  }

  /** What the reporter reads of the session each time: the running total and the best so far. */
  datatype Reading = Reading(total: u64, best: Hash256, zeroBits: nat)

  predicate Rising(readings: seq<Reading>)
  {
    forall i, j :: 0 <= i < j < |readings| ==> readings[i].total <= readings[j].total
  }

  function LastTotal(readings: seq<Reading>): u64
  {
    if readings == [] then 0 else readings[|readings| - 1].total
  }

  /** Folding every reading as a difference from the one before. */
  function FoldAll(loaded: Totals, readings: seq<Reading>): Totals
    requires Rising(readings)
  {
    if readings == [] then loaded
    else
      var front, last := readings[..|readings| - 1], readings[|readings| - 1];
      Folded(FoldAll(loaded, front), last.total - LastTotal(front), last.best, last.zeroBits)
  }

  /** The most zero bits among the loaded record and every reading. */
  function MostBits(loaded: Totals, readings: seq<Reading>): nat
  {
    if readings == [] then loaded.bestZeroBits
    else
      var front, last := MostBits(loaded, readings[..|readings| - 1]), readings[|readings| - 1].zeroBits;
      if last > front then last else front
  }

  /** However often it reports, the total is the loaded one plus the last reading, up to saturation, and the best bits never fall. */
  lemma {:induction false} NothingCountedTwice(loaded: Totals, readings: seq<Reading>)
    requires Rising(readings)
    ensures FoldAll(loaded, readings).totalHashes == Min(loaded.totalHashes + LastTotal(readings), MAX_U64)
    ensures FoldAll(loaded, readings).bestZeroBits == MostBits(loaded, readings)
  {
    if readings != [] {
      NothingCountedTwice(loaded, readings[..|readings| - 1]);
    }
  }

  /** `readings[k]` is the first with the most zero bits, which are more than the loaded ones. */
  predicate Leads(loaded: Totals, readings: seq<Reading>, k: nat)
  {
    && k < |readings| && readings[k].zeroBits > loaded.bestZeroBits
    && (forall j :: 0 <= j < |readings| ==> readings[j].zeroBits <= readings[k].zeroBits)
    && (forall j :: 0 <= j < k ==> readings[j].zeroBits < readings[k].zeroBits)
  }

  /** The best hash kept is the loaded one until a reading beats it, and then that of the first reading with the most zero bits. */
  lemma {:induction false} BestIsFirstReading(loaded: Totals, readings: seq<Reading>) returns (k: nat)
    requires Rising(readings)
    ensures k <= |readings|
    ensures k < |readings| ==> Leads(loaded, readings, k)
    ensures k == |readings| ==> forall j :: 0 <= j < |readings| ==> readings[j].zeroBits <= loaded.bestZeroBits
    ensures var t := FoldAll(loaded, readings);
      if k < |readings| then t.bestHash == readings[k].best && t.bestZeroBits == readings[k].zeroBits
      else t.bestHash == loaded.bestHash && t.bestZeroBits == loaded.bestZeroBits
    decreases |readings|
  {
    k := |readings|;
    if readings != [] {
      var n := |readings| - 1;
      var front, last := readings[..n], readings[n];
      var f := BestIsFirstReading(loaded, front);
      if last.zeroBits > FoldAll(loaded, front).bestZeroBits { k := n; } else if f < n { k := f; }
      assert forall j :: 0 <= j < n ==> front[j] == readings[j];
    }
  }

  /** The reporting loop over what it reads, as it runs. */
  method Report(loaded: Totals, readings: seq<Reading>) returns (totals: Totals, foldedIn: u64)
    requires Rising(readings)
    ensures totals == FoldAll(loaded, readings) && foldedIn == LastTotal(readings)
  {
    var lifetime := new Lifetime(loaded);
    foldedIn := 0;
    for i := 0 to |readings|
      invariant fresh(lifetime) && Rising(readings[..i])
      invariant lifetime.Current() == FoldAll(loaded, readings[..i]) && foldedIn == LastTotal(readings[..i])
    {
      assert readings[..i + 1][..i] == readings[..i];
      var recent := readings[i].total - foldedIn;
      foldedIn := readings[i].total;
      lifetime.Record(recent, readings[i].best, readings[i].zeroBits);
    }
    assert readings[..|readings|] == readings;
    totals := lifetime.Current();
  }

  // ----- stopping -----

  /** A mining thread between its look at the controls and its record of the batch it then ran. */
  datatype Miner = Looking | Batching | Exited

  datatype ReporterPc = Sleeping | Reporting(stopping: bool) | Saved

  /** The stop flag, the threads, the session count, and how much of it is folded in. */
  datatype State = State(stop: bool, miners: seq<Miner>, counted: nat, reporter: ReporterPc, foldedIn: nat)

  datatype Step =
    | Stop
    | Look(i: nat)
    | Record(i: nat, hashes: nat)
    | ReadFlag(due: bool)
    | Fold

  function Initial(slots: nat): State { State(false, seq(slots, i => Looking), 0, Sleeping, 0) }

  /** One atomic step; `due` says whether a report interval has passed. */
  function Next(s: State, step: Step): Option<State>
  {
    match step
    case Stop => Some(s.(stop := true))
    case Look(i) =>
      if i < |s.miners| && s.miners[i].Looking? then Some(s.(miners := s.miners[i := if s.stop then Exited else Batching])) else None
    case Record(i, n) =>
      if i < |s.miners| && s.miners[i].Batching? && n <= Worker.BATCH then
        Some(s.(miners := s.miners[i := Looking], counted := s.counted + n))
      else None
    case ReadFlag(due) =>
      if !s.reporter.Sleeping? then None else Some(if s.stop || due then s.(reporter := Reporting(s.stop)) else s)
    case Fold =>
      if s.reporter.Reporting? then Some(s.(foldedIn := s.counted, reporter := if s.reporter.stopping then Saved else Sleeping)) else None
  }

  function Run(s: State, steps: seq<Step>): Option<State>
    decreases |steps|
  {
    if steps == [] then Some(s)
    else match Next(s, steps[0]) case None => None case Some(t) => Run(t, steps[1..])
  }

  lemma RunFirst(s: State, step: Step, rest: seq<Step>)
    ensures Run(s, [step] + rest) == match Next(s, step) case None => None case Some(t) => Run(t, rest)
  {
    assert ([step] + rest)[1..] == rest;
  }

  function InBatch(miners: seq<Miner>): nat
  {
    if miners == [] then 0 else InBatch(miners[..|miners| - 1]) + if miners[|miners| - 1].Batching? then 1 else 0
  }

  lemma {:induction false} InBatchAfter(miners: seq<Miner>, i: nat, m: Miner)
    requires i < |miners|
    ensures InBatch(miners[i := m]) == InBatch(miners) - (if miners[i].Batching? then 1 else 0) + (if m.Batching? then 1 else 0)
    ensures InBatch(miners) <= |miners|
    decreases |miners|
  {
    var last := |miners| - 1;
    if i == last {
      assert miners[i := m][..last] == miners[..last];
      InBatchAtMost(miners);
    } else {
      assert miners[i := m][..last] == miners[..last][i := m];
      InBatchAfter(miners[..last], i, m);
    }
  }

  lemma {:induction false} InBatchAtMost(miners: seq<Miner>)
    ensures InBatch(miners) <= |miners|
  {
    if miners != [] { InBatchAtMost(miners[..|miners| - 1]); }
  }

  predicate Invariant(s: State)
  {
    && s.foldedIn <= s.counted
    && (s.reporter.Reporting? && s.reporter.stopping ==> s.stop)
    && (s.reporter.Saved? ==> s.stop && s.counted - s.foldedIn + Worker.BATCH * InBatch(s.miners) <= Worker.BATCH * |s.miners|)
  }

  lemma StepKeepsInvariant(s: State, step: Step)
    requires Invariant(s) && Next(s, step).Some?
    ensures Invariant(Next(s, step).value) && |Next(s, step).value.miners| == |s.miners|
  {
    match step
    case Look(i) => InBatchAfter(s.miners, i, if s.stop then Exited else Batching);
    case Record(i, n) => InBatchAfter(s.miners, i, Looking);
    case Fold => InBatchAtMost(s.miners);
    case _ =>
  }

  /** In every run, a save made because of a stop misses at most one batch of each thread, however the threads are still finishing. */
  lemma {:induction false} LastSaveMissesLittle(s: State, steps: seq<Step>)
    requires Invariant(s) && Run(s, steps).Some?
    ensures var t := Run(s, steps).value;
      Invariant(t) && |t.miners| == |s.miners| && (t.reporter.Saved? ==> t.counted - t.foldedIn <= |s.miners| * Worker.BATCH)
    decreases |steps|
  {
    if steps != [] {
      StepKeepsInvariant(s, steps[0]);
      LastSaveMissesLittle(Next(s, steps[0]).value, steps[1..]);
    }
  }

  lemma FromTheStart(slots: nat, steps: seq<Step>)
    requires Run(Initial(slots), steps).Some? && Run(Initial(slots), steps).value.reporter.Saved?
    ensures var t := Run(Initial(slots), steps).value;
      t.foldedIn <= t.counted <= t.foldedIn + slots * Worker.BATCH
  {
    LastSaveMissesLittle(Initial(slots), steps);
  }

  /** A sleeping reporter reports exactly when an interval has passed or it is told to stop, and then nothing counted so far is left out. */
  lemma ReportCatchesUp(s: State, due: bool)
    requires s.reporter.Sleeping?
    ensures var t := Run(s, [ReadFlag(due), Fold]);
      && (t.Some? <==> due || s.stop)
      && (t.Some? ==> t.value == s.(foldedIn := s.counted, reporter := if s.stop then Saved else Sleeping))
  {
    hide Run;
    assert [ReadFlag(due), Fold] == [ReadFlag(due)] + [Fold] && [Fold] == [Fold] + [];
    RunFirst(s, ReadFlag(due), [Fold]);
    var reporting := Next(s, ReadFlag(due)).value;
    RunFirst(reporting, Fold, []);
    if reporting.reporter.Reporting? { EmptyRun(Next(reporting, Fold).value); }
  }

  lemma EmptyRun(s: State)
    ensures Run(s, []) == Some(s)
  {
  }

  // ----- what one save can miss -----

  /** Counts that arrive after the last reading: the run goes on from the save, and ends with that much not folded in. */
  ghost predicate CanMiss(s: State, missed: nat)
  {
    exists steps :: var t := Run(s, [Fold] + steps); t.Some? && t.value.counted == t.value.foldedIn + missed
  }

  /** Once the stopping save is made, what it misses is bounded by the batches still open. */
  lemma {:induction false} OpenBatchesBound(s: State, steps: seq<Step>)
    requires s.stop && s.reporter.Saved? && Run(s, steps).Some?
    ensures var t := Run(s, steps).value;
      && t.foldedIn == s.foldedIn
      && s.counted <= t.counted && t.counted + Worker.BATCH * InBatch(t.miners) <= s.counted + Worker.BATCH * InBatch(s.miners)
    decreases |steps|
  {
    if steps != [] {
      match steps[0] {
        case Look(i) => InBatchAfter(s.miners, i, Exited);
        case Record(i, n) => InBatchAfter(s.miners, i, Looking);
        case _ =>
      }
      OpenBatchesBound(Next(s, steps[0]).value, steps[1..]);
    }
  }

  /** The first `k` threads finish their batches, with `missed` hashes between them. */
  function Finish(miners: seq<Miner>, k: nat, missed: nat): seq<Step>
    requires k <= |miners|
  {
    if k == 0 then []
    else if !miners[k - 1].Batching? then Finish(miners, k - 1, missed)
    else [Step.Record(k - 1, Min(missed, Worker.BATCH))] + Finish(miners, k - 1, missed - Min(missed, Worker.BATCH))
  }

  lemma {:induction false} FinishIsOfPrefix(a: seq<Miner>, b: seq<Miner>, k: nat, missed: nat)
    requires k <= |a| && k <= |b| && a[..k] == b[..k]
    ensures Finish(a, k, missed) == Finish(b, k, missed)
  {
    if k > 0 {
      assert a[..k][..k - 1] == a[..k - 1] && b[..k][..k - 1] == b[..k - 1] && a[..k][k - 1] == b[..k][k - 1];
      FinishIsOfPrefix(a, b, k - 1, missed);
      FinishIsOfPrefix(a, b, k - 1, missed - Min(missed, Worker.BATCH));
    }
  }

  lemma {:induction false} FinishRuns(s: State, k: nat, missed: nat)
    requires k <= |s.miners| && missed <= Worker.BATCH * InBatch(s.miners[..k])
    ensures var t := Run(s, Finish(s.miners, k, missed)); t.Some? && t.value.counted == s.counted + missed && t.value.foldedIn == s.foldedIn
    decreases k
  {
    if k > 0 {
      assert s.miners[..k][..k - 1] == s.miners[..k - 1];
      if !s.miners[k - 1].Batching? {
        FinishRuns(s, k - 1, missed);
      } else {
        var n := Min(missed, Worker.BATCH);
        var t := s.(miners := s.miners[k - 1 := Looking], counted := s.counted + n);
        RunFirst(s, Step.Record(k - 1, n), Finish(s.miners, k - 1, missed - n));
        FinishIsOfPrefix(s.miners, t.miners, k - 1, missed - n);
        assert t.miners[..k - 1] == s.miners[..k - 1];
        FinishRuns(t, k - 1, missed - n);
      }
    }
  }

  /** The stopping save can miss exactly the amounts up to one batch for each thread that has one open when it is made. */
  lemma SaveMisses(s: State, missed: nat)
    requires s.stop && s.reporter == Reporting(true)
    ensures CanMiss(s, missed) <==> missed <= Worker.BATCH * InBatch(s.miners)
  {
    var saved := s.(foldedIn := s.counted, reporter := Saved);
    assert Next(s, Fold) == Some(saved);
    hide Run, InBatch;
    if missed <= Worker.BATCH * InBatch(s.miners) {
      assert s.miners[..|s.miners|] == s.miners;
      FinishRuns(saved, |s.miners|, missed);
      RunFirst(s, Fold, Finish(s.miners, |s.miners|, missed));
    }
    if CanMiss(s, missed) {
      var steps :| var t := Run(s, [Fold] + steps); t.Some? && t.value.counted == t.value.foldedIn + missed;
      RunFirst(s, Fold, steps);
      OpenBatchesBound(saved, steps);
    }
  }

  /** So it loses nothing, whatever happens next, exactly when no thread is between its look and its record. */
  lemma SaveIsComplete(s: State)
    requires s.stop && s.reporter == Reporting(true)
    ensures (forall missed :: CanMiss(s, missed) ==> missed == 0) <==> forall i :: 0 <= i < |s.miners| ==> !s.miners[i].Batching?
  {
    hide CanMiss;
    NoneInBatch(s.miners);
    forall missed: nat { SaveMisses(s, missed); }
    assert CanMiss(s, 1) <==> InBatch(s.miners) > 0;
  }

  lemma {:induction false} NoneInBatch(miners: seq<Miner>)
    ensures InBatch(miners) == 0 <==> forall i :: 0 <= i < |miners| ==> !miners[i].Batching?
  {
    if miners != [] {
      var front := miners[..|miners| - 1];
      NoneInBatch(front);
      assert forall i :: 0 <= i < |front| ==> front[i] == miners[i];
    }
  }

  // ----- the bound is reached -----

  /** `k` threads in one state and the others in another. */
  function Split(slots: nat, k: nat, first: Miner, others: Miner): (m: seq<Miner>)
    requires k <= slots
    ensures |m| == slots
  {
    seq(slots, i => if i < k then first else others)
  }

  function Looks(k: nat, slots: nat): seq<Step>
    requires k <= slots
    decreases slots - k
  {
    if k == slots then [] else [Look(k)] + Looks(k + 1, slots)
  }

  function Records(k: nat, slots: nat): seq<Step>
    requires k <= slots
    decreases slots - k
  {
    if k == slots then [] else [Step.Record(k, Worker.BATCH)] + Records(k + 1, slots)
  }

  /** Everyone starts a batch, the stop is set, the reporter saves, and everyone finishes. */
  function WorstRun(slots: nat): seq<Step> { Looks(0, slots) + ([Stop, ReadFlag(false), Fold] + Records(0, slots)) }

  lemma {:induction false} AllStart(slots: nat, k: nat, rest: seq<Step>)
    requires k <= slots
    ensures Run(State(false, Split(slots, k, Batching, Looking), 0, Sleeping, 0), Looks(k, slots) + rest)
            == Run(State(false, Split(slots, slots, Batching, Looking), 0, Sleeping, 0), rest)
    decreases slots - k
  {
    if k == slots {
      assert [] + rest == rest;
    } else {
      var s := State(false, Split(slots, k, Batching, Looking), 0, Sleeping, 0);
      var t := State(false, Split(slots, k + 1, Batching, Looking), 0, Sleeping, 0);
      assert s.miners[k := Batching] == t.miners;
      assert Next(s, Look(k)) == Some(t);
      Regroup([Look(k)], Looks(k + 1, slots), rest);
      RunFirst(s, Look(k), Looks(k + 1, slots) + rest);
      hide Run, Next;
      AllStart(slots, k + 1, rest);
    }
  }

  lemma {:induction false} AllFinish(slots: nat, k: nat)
    requires k <= slots
    ensures Run(State(true, Split(slots, k, Looking, Batching), k * Worker.BATCH, Saved, 0), Records(k, slots))
            == Some(State(true, Split(slots, slots, Looking, Batching), slots * Worker.BATCH, Saved, 0))
    decreases slots - k
  {
    if k < slots {
      var s := State(true, Split(slots, k, Looking, Batching), k * Worker.BATCH, Saved, 0);
      var t := State(true, Split(slots, k + 1, Looking, Batching), (k + 1) * Worker.BATCH, Saved, 0);
      assert s.miners[k := Looking] == t.miners;
      assert Next(s, Step.Record(k, Worker.BATCH)) == Some(t);
      RunFirst(s, Step.Record(k, Worker.BATCH), Records(k + 1, slots));
      hide Run, Next;
      AllFinish(slots, k + 1);
    }
  }

  /** With any number of threads some run loses exactly the bound. */
  lemma BoundIsReached(slots: nat)
    ensures var t := Run(Initial(slots), WorstRun(slots));
      t.Some? && t.value.reporter.Saved? && t.value.counted == t.value.foldedIn + slots * Worker.BATCH
  {
    hide Run;
    var records := Records(0, slots);
    var tail := [Stop, ReadFlag(false), Fold] + records;
    AllStart(slots, 0, tail);
    assert Initial(slots).miners == Split(slots, 0, Batching, Looking);
    AllFinish(slots, 0);
    var all := State(false, Split(slots, slots, Batching, Looking), 0, Sleeping, 0);
    assert all.miners == Split(slots, 0, Looking, Batching);
    assert tail == [Stop] + ([ReadFlag(false)] + ([Fold] + records));
    RunFirst(all, Stop, [ReadFlag(false)] + ([Fold] + records));
    RunFirst(all.(stop := true), ReadFlag(false), [Fold] + records);
    RunFirst(all.(stop := true, reporter := Reporting(true)), Fold, records);
  }
}
