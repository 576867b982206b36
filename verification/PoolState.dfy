/** The pool's shared state: numbered jobs, and the short history late shares are matched against. */
module PoolState {
  import opened Wrappers
  import opened Bytes
  import opened JobBuilder
  import Hex

  const JOB_HISTORY: nat := 8

  /** `{:x}`. */
  function FormatHex(n: nat): (s: string)
    ensures s != ""
  {
    if n < 16 then [Hex.DigitChar(n)] else FormatHex(n / 16) + [Hex.DigitChar(n % 16)]
  }

  lemma {:induction false} FormatHexReadsBack(n: nat)
    ensures Hex.DigitsValue(FormatHex(n)) == Some(n)
  {
    hide Hex.DigitChar, Hex.DigitValue;
    Hex.DigitCharValue(n % 16);
    var s := FormatHex(n);
    if n < 16 {
      assert s[..0] == "";
    } else {
      FormatHexReadsBack(n / 16);
      assert s[..|s| - 1] == FormatHex(n / 16);
    }
  }

  lemma FormatHexInjective(m: nat, n: nat)
    requires FormatHex(m) == FormatHex(n)
    ensures m == n
  {
    FormatHexReadsBack(m);
    FormatHexReadsBack(n);
  }

  datatype View = View(jobs: seq<ActiveJob>, nextJobId: u64, nextConnectionId: u64, subscribers: seq<u64>)

  function Truncate<T>(s: seq<T>, n: nat): seq<T> { if |s| <= n then s else s[..n] }

  /** Most recent first, no longer than the history. */
  function Installed(jobs: seq<ActiveJob>, active: ActiveJob): seq<ActiveJob> { Truncate([active] + jobs, JOB_HISTORY) }

  /** The first job with the id. */
  function Find(jobs: seq<ActiveJob>, jobId: string): Option<ActiveJob>
  {
    if jobs == [] then None else if jobs[0].job.jobId == jobId then Some(jobs[0]) else Find(jobs[1..], jobId)
  }

  class PoolState {
    var jobs: seq<ActiveJob>
    var nextJobId: u64
    var nextConnectionId: u64
    var subscribers: seq<u64>

    constructor ()
      ensures Current() == View([], 1, 1, [])
    {
      jobs, nextJobId, nextConnectionId, subscribers := [], 1, 1, [];
    }

    function Current(): View
      reads this
    {
      View(jobs, nextJobId, nextConnectionId, subscribers)
    }

    method AllocateConnectionId() returns (id: u64)
      modifies this
      ensures id == old(nextConnectionId)
      ensures Current() == old(Current()).(nextConnectionId := (id + 1) % TWO_64)
    {
      id := nextConnectionId;
      nextConnectionId := (nextConnectionId + 1) % TWO_64;
    }

    method AllocateJobId() returns (id: string)
      modifies this
      ensures id == FormatHex(old(nextJobId))
      ensures Current() == old(Current()).(nextJobId := (old(nextJobId) + 1) % TWO_64)
    {
      id := FormatHex(nextJobId);
      nextJobId := (nextJobId + 1) % TWO_64;
    }

    method SetCurrentJob(active: ActiveJob)
      modifies this
      ensures Current() == old(Current()).(jobs := Installed(old(jobs), active))
    {
      jobs := [active] + jobs;
      if |jobs| > JOB_HISTORY {
        jobs := jobs[..JOB_HISTORY];
      }
    }

    method CurrentJob() returns (r: Option<ActiveJob>)
      ensures r == if jobs == [] then None else Some(jobs[0])
    {
      if jobs == [] { return None; }
      return Some(jobs[0]);
    }

    method JobById(jobId: string) returns (r: Option<ActiveJob>)
      ensures r == Find(jobs, jobId)
    {
      assert jobs[0..] == jobs;
      for i := 0 to |jobs|
        invariant Find(jobs, jobId) == Find(jobs[i..], jobId)
      {
        if jobs[i].job.jobId == jobId {
          return Some(jobs[i]);
        }
        assert jobs[i..][1..] == jobs[i + 1..];
      }
      return None;
    }

    method Subscribe(id: u64)
      modifies this
      ensures Current() == old(Current()).(subscribers := old(subscribers) + [id])
    {
      subscribers := subscribers + [id];
    }

    /** Every subscription of the connection goes, and the others keep their order. */
    method Unsubscribe(id: u64)
      modifies this
      ensures Current() == old(Current()).(subscribers := Without(old(subscribers), id))
    {
      var kept := [];
      for i := 0 to |subscribers|
        invariant Current() == old(Current()) && kept == Without(subscribers[..i], id)
      {
        assert subscribers[..i + 1][..i] == subscribers[..i];
        if subscribers[i] != id { kept := kept + [subscribers[i]]; }
      }
      assert subscribers[..|subscribers|] == subscribers;
      subscribers := kept;
    }
  }

  function Without(ids: seq<u64>, id: u64): (r: seq<u64>)
    ensures id !in r
    ensures forall x :: x != id ==> multiset(r)[x] == multiset(ids)[x]
  {
    if ids == [] then []
    else
      var front, last := Without(ids[..|ids| - 1], id), ids[|ids| - 1];
      assert ids == ids[..|ids| - 1] + [last];
      if last != id then front + [last] else front
  }

  // ----- any sequence of rounds -----

  /** A round of the poller: an id is always taken, and the job built with it is installed if building succeeded. */
  datatype Round = Round(built: Option<ActiveJob>)

  function Named(active: ActiveJob, jobId: string): ActiveJob { active.(job := active.job.(jobId := jobId)) }

  /** The jobs installed so far, oldest first, each under the id its round took. */
  function Installs(rounds: seq<Round>): (r: seq<ActiveJob>)
  {
    if rounds == [] then []
    else
      var front, last := Installs(rounds[..|rounds| - 1]), rounds[|rounds| - 1];
      if last.built.None? then front else front + [Named(last.built.value, FormatHex(|rounds|))]
  }

  /** The poller's rounds, run against the state. */
  method RunRounds(pool: PoolState, rounds: seq<Round>)
    requires pool.Current() == View([], 1, 1, []) && |rounds| < TWO_64 - 1
    modifies pool
    ensures pool.jobs == Recent(Installs(rounds))
  {
    for i := 0 to |rounds|
      invariant pool.nextJobId == i + 1
      invariant pool.jobs == Recent(Installs(rounds[..i]))
    {
      assert rounds[..i + 1][..i] == rounds[..i];
      var id := pool.AllocateJobId();
      if rounds[i].built.Some? {
        var active := Named(rounds[i].built.value, id);
        pool.SetCurrentJob(active);
        RecentAfter(Installs(rounds[..i]), active);
      }
    }
    assert rounds[..|rounds|] == rounds;
  }

  /** The last eight of a list, newest first. */
  function Recent(installs: seq<ActiveJob>): (r: seq<ActiveJob>)
    ensures |r| == if |installs| < JOB_HISTORY then |installs| else JOB_HISTORY
    ensures forall k :: 0 <= k < |r| ==> r[k] == installs[|installs| - 1 - k]
  {
    Truncate(Reversed(installs), JOB_HISTORY)
  }

  lemma RecentAfter(installs: seq<ActiveJob>, active: ActiveJob)
    ensures Recent(installs + [active]) == Installed(Recent(installs), active)
  {
    var longer, expected := Recent(installs + [active]), Installed(Recent(installs), active);
    assert |longer| == |expected|;
    forall k | 0 <= k < |longer|
      ensures longer[k] == expected[k]
    {
      if k > 0 { assert expected[k] == Recent(installs)[k - 1]; }
    }
  }

  lemma {:induction false} InstalledIdsBounded(rounds: seq<Round>, k: nat)
    returns (n: nat)
    requires k < |Installs(rounds)|
    ensures 1 <= n <= |rounds| && Installs(rounds)[k].job.jobId == FormatHex(n)
    ensures k + 1 <= n
    decreases |rounds|
  {
    InstallsNoMoreThanRounds(rounds);
    var front := Installs(rounds[..|rounds| - 1]);
    if k < |front| {
      n := InstalledIdsBounded(rounds[..|rounds| - 1], k);
    } else {
      n := |rounds|;
    }
  }

  lemma {:induction false} InstallsNoMoreThanRounds(rounds: seq<Round>)
    ensures |Installs(rounds)| <= |rounds|
  {
    if rounds != [] { InstallsNoMoreThanRounds(rounds[..|rounds| - 1]); }
  }

  /** No two installs ever share an id, whatever failed between them. */
  lemma {:induction false} IdsUnique(rounds: seq<Round>, i: nat, j: nat)
    requires i < j < |Installs(rounds)|
    ensures Installs(rounds)[i].job.jobId != Installs(rounds)[j].job.jobId
    decreases |rounds|
  {
    var front := Installs(rounds[..|rounds| - 1]);
    if j < |front| {
      IdsUnique(rounds[..|rounds| - 1], i, j);
    } else {
      var n := InstalledIdsBounded(rounds[..|rounds| - 1], i);
      if FormatHex(n) == FormatHex(|rounds|) { FormatHexInjective(n, |rounds|); }
    }
  }

  lemma {:induction false} FindIn(jobs: seq<ActiveJob>, jobId: string)
    ensures match Find(jobs, jobId)
      case Some(a) => a in jobs && a.job.jobId == jobId
      case None => forall k :: 0 <= k < |jobs| ==> jobs[k].job.jobId != jobId
  {
    if jobs != [] && jobs[0].job.jobId != jobId { FindIn(jobs[1..], jobId); }
  }

  /**
    After any rounds, the current job is the newest install, and looking an installed job's id up
    finds that very job exactly when it is among the last eight, and nothing otherwise: a share is
    never checked against another job's header.
   */
  lemma HistoryIsLastEight(rounds: seq<Round>, k: nat)
    requires k < |Installs(rounds)|
    ensures var installs := Installs(rounds);
      && Recent(installs)[0] == installs[|installs| - 1]
      && Find(Recent(installs), installs[k].job.jobId) == if |installs| - k <= 8 then Some(installs[k]) else None
  {
    var installs, jobs := Installs(rounds), Recent(Installs(rounds));
    var id := installs[k].job.jobId;
    FindIn(jobs, id);
    forall i | 0 <= i < |installs| && i != k
      ensures installs[i].job.jobId != id
    {
      if i < k { IdsUnique(rounds, i, k); } else { IdsUnique(rounds, k, i); }
    }
    if |installs| - k <= JOB_HISTORY {
      assert jobs[|installs| - 1 - k] == installs[k];
    }
  }

  /** An id that was never allocated finds nothing, so a share can only name a job the pool built. */
  lemma UnknownIdFindsNothing(rounds: seq<Round>, jobId: string)
    requires forall n :: 1 <= n <= |rounds| ==> jobId != FormatHex(n)
    ensures Find(Recent(Installs(rounds)), jobId) == None
  {
    hide FormatHex, Installs, Find;
    var installs, jobs := Installs(rounds), Recent(Installs(rounds));
    FindIn(jobs, jobId);
    if Find(jobs, jobId).Some? {
      var j :| 0 <= j < |jobs| && jobs[j] == Find(jobs, jobId).value;
      var n := InstalledIdsBounded(rounds, |installs| - 1 - j);
    }
  }
}
