/** One miner's connection: what each request is answered, and when a share reaches validation. */
module Session {
  import opened Wrappers
  import opened Bytes
  import opened Hash256
  import opened Target
  import opened JobBuilder
  import opened PoolState
  import EndToEnd
  import Pow
  import Search
  import Stratum
  import Validate
  import Worker

  datatype Request = Subscribe | Authorize | Submit(params: Stratum.Json) | Unknown

  datatype Answer =
    | Subscribed(reply: Stratum.Json)
    | Authorized
    | Unauthorized
    | BadShare(error: Stratum.JobError)
    | JobNotFound
    | Checked(verdict: Result<Validate.Verdict, Validate.ValidationError>)
    | Unsupported

  /** What a `mining.submit` is answered once the connection is authorised. */
  function SubmitAnswer(connectionId: u64, jobs: seq<ActiveJob>, params: Stratum.Json, reply: Validate.Reply): (answer: Answer)
    ensures !answer.Authorized? && !answer.Subscribed?
  {
    match Stratum.FromSubmitParams(params)
    case Failure(e) => BadShare(e)
    case Success(share) =>
      match Find(jobs, share.jobId)
      case None => JobNotFound
      case Some(active) => Checked(Validate.Outcome(active, share, BeBytes(connectionId, 8), reply).0)
  }

  function AnswerTo(authorized: bool, connectionId: u64, jobs: seq<ActiveJob>, request: Request, reply: Validate.Reply): Answer
  {
    match request
    case Subscribe => Subscribed(Stratum.SubscribeReply(connectionId))
    case Authorize => Authorized
    case Submit(params) => if authorized then SubmitAnswer(connectionId, jobs, params, reply) else Unauthorized
    case Unknown => Unsupported
  }

  /** The tip moved, so the poller is woken: after a block the node took or already had. */
  predicate WakesPoller(answer: Answer)
  {
    answer.Checked? && answer.verdict.Success? && (answer.verdict.value.BlockAccepted? || answer.verdict.value.BlockStale?)
  }

  /** What a connection is sent, in order: answers, and the difficulty of a compact target with the parameters of a job. */
  datatype Line = Answered(answer: Answer) | SetDifficulty(bits: u32) | Notify(params: Stratum.Json)

  /** The newest job, as a miner is sent it. */
  function CurrentWork(jobs: seq<ActiveJob>): seq<Line>
  {
    if jobs == [] then [] else [SetDifficulty(jobs[0].job.bits), Notify(Stratum.ToNotifyParams(jobs[0].job))]
  }

  /** An answer goes out first; authorising is followed by the work to start on. */
  function Lines(answer: Answer, jobs: seq<ActiveJob>): seq<Line>
  {
    if answer.Authorized? then [Answered(answer)] + CurrentWork(jobs) else [Answered(answer)]
  }

  class Session {
    const connectionId: u64
    var authorized: bool
    var wakeups: nat
    var sent: seq<Line>

    constructor (connectionId: u64)
      ensures this.connectionId == connectionId && !authorized && wakeups == 0 && sent == []
    {
      this.connectionId := connectionId;
      authorized, wakeups, sent := false, 0, [];
    }

    /** Handles one request; `reply` is what the node would say to a submitted block. */
    method Dispatch(pool: PoolState, request: Request, reply: Validate.Reply) returns (answer: Answer)
      modifies this, pool
      ensures answer == AnswerTo(old(authorized), connectionId, old(pool.jobs), request, reply)
      ensures authorized == (old(authorized) || request.Authorize?)
      ensures wakeups == old(wakeups) + if WakesPoller(answer) then 1 else 0
      ensures sent == old(sent) + Lines(answer, old(pool.jobs))
      ensures pool.Current() == if !request.Subscribe? then old(pool.Current())
                                else old(pool.Current()).(subscribers := old(pool.subscribers) + [connectionId])
    {
      hide Stratum.SubscribeReply, SubmitAnswer, CurrentWork;
      match request
      case Subscribe =>
        answer := Subscribed(Stratum.SubscribeReply(connectionId));
        sent := sent + [Answered(answer)];
        pool.Subscribe(connectionId);
      case Authorize =>
        authorized := true;
        answer := Authorized;
        sent := sent + [Answered(answer)];
        SendCurrentWork(pool);
        assert sent == old(sent) + ([Answered(answer)] + CurrentWork(pool.jobs));
      case Unknown =>
        answer := Unsupported;
        sent := sent + [Answered(answer)];
      case Submit(params) =>
        answer := OnSubmit(pool, params, reply);
        sent := sent + [Answered(answer)];
        match answer
        case Checked(Success(BlockAccepted(_, _))) => wakeups := wakeups + 1;
        case Checked(Success(BlockStale(_, _))) => wakeups := wakeups + 1;
        case _ =>
    }

    method SendCurrentWork(pool: PoolState)
      modifies this`sent
      ensures sent == old(sent) + CurrentWork(pool.jobs)
    {
      var active := pool.CurrentJob();
      if active.None? { return; }
      sent := sent + [SetDifficulty(active.value.job.bits)];
      sent := sent + [Notify(Stratum.ToNotifyParams(active.value.job))];
    }

    method OnSubmit(pool: PoolState, params: Stratum.Json, reply: Validate.Reply) returns (answer: Answer)
      ensures answer == if authorized then SubmitAnswer(connectionId, pool.jobs, params, reply) else Unauthorized
    {
      hide Validate.Outcome, BeBytes;
      if !authorized { return Unauthorized; }
      var share := Stratum.FromSubmitParams(params);
      if share.Failure? { return BadShare(share.error); }
      var active := pool.JobById(share.value.jobId);
      if active.None? { return JobNotFound; }
      var verdict, submitted := Validate.Check(active.value, share.value, BeBytes(connectionId, 8), reply);
      return Checked(verdict);
    }
  }

  /** What a miner is sent on authorising decodes to the newest job, from which it takes the very target the pool keeps for that job. */
  lemma PushedWorkIsCurrent(jobs: seq<ActiveJob>)
    requires jobs != [] && Consistent(jobs[0])
    ensures var lines := Lines(Authorized, jobs);
      && |lines| == 3 && lines[1].SetDifficulty? && lines[2].Notify?
      && var received := Stratum.FromNotifyParams(lines[2].params);
         && received == Success(jobs[0].job) && Stratum.JobTarget(received.value) == Success(jobs[0].networkTarget)
         && lines[1].bits == received.value.bits
  {
    hide Stratum.FromNotifyParams, Stratum.ToNotifyParams, Stratum.JobTarget, Consistent;
    EndToEnd.NotifyRoundTripOf(jobs[0]);
  }

  // ----- a whole connection -----

  /** A request, the jobs retained when it arrived, and the node's reply. */
  datatype Exchange = Exchange(request: Request, jobs: seq<ActiveJob>, reply: Validate.Reply)

  function AuthorizedAfter(exchanges: seq<Exchange>): bool
  {
    exchanges != [] && (exchanges[|exchanges| - 1].request.Authorize? || AuthorizedAfter(exchanges[..|exchanges| - 1]))
  }

  /** The answer to the k-th request of a connection. */
  function AnswerAt(connectionId: u64, exchanges: seq<Exchange>, k: nat): Answer
    requires k < |exchanges|
  {
    AnswerTo(AuthorizedAfter(exchanges[..k]), connectionId, exchanges[k].jobs, exchanges[k].request, exchanges[k].reply)
  }

  lemma {:induction false} AuthorizedMeansAsked(exchanges: seq<Exchange>)
    ensures AuthorizedAfter(exchanges) <==> exists i :: 0 <= i < |exchanges| && exchanges[i].request.Authorize?
  {
    if exchanges != [] {
      var front := exchanges[..|exchanges| - 1];
      AuthorizedMeansAsked(front);
      if AuthorizedAfter(front) {
        var i :| 0 <= i < |front| && front[i].request.Authorize?;
        assert exchanges[i].request.Authorize?;
      } else if exists i :: 0 <= i < |exchanges| && exchanges[i].request.Authorize? {
        var i :| 0 <= i < |exchanges| && exchanges[i].request.Authorize?;
        assert i < |front| ==> front[i].request.Authorize?;
      }
    }
  }

  /**
    What each request is answered: a share reaches validation exactly when the connection asked to be
    authorised before, the share parses, and its job is retained, and otherwise the answer names the first
    of the three that fails.
   */
  lemma ValidationNeedsAuthorisation(connectionId: u64, exchanges: seq<Exchange>, k: nat)
    requires k < |exchanges|
    ensures var (e, answer) := (exchanges[k], AnswerAt(connectionId, exchanges, k));
      var asked := exists i :: 0 <= i < k && exchanges[i].request.Authorize?;
      match e.request
      case Subscribe => answer.Subscribed?
      case Authorize => answer == Authorized
      case Unknown => answer == Unsupported
      case Submit(params) =>
        && (answer == Unauthorized <==> !asked)
        && (answer.BadShare? <==> asked && Stratum.FromSubmitParams(params).Failure?)
        && (answer.BadShare? ==> answer.error == Stratum.FromSubmitParams(params).error)
        && (answer == JobNotFound <==>
              asked && Stratum.FromSubmitParams(params).Success? && Find(e.jobs, Stratum.FromSubmitParams(params).value.jobId).None?)
        && (answer.Checked? <==>
              asked && Stratum.FromSubmitParams(params).Success? && Find(e.jobs, Stratum.FromSubmitParams(params).value.jobId).Some?)
  {
    hide Validate.Outcome, Stratum.FromSubmitParams, Stratum.SubscribeReply, Find;
    AuthorizedMeansAsked(exchanges[..k]);
    if exists i :: 0 <= i < k && exchanges[i].request.Authorize? {
      var i :| 0 <= i < k && exchanges[i].request.Authorize?;
      assert exchanges[..k][i].request.Authorize?;
    }
  }

  /** The poller is woken by exactly the judgements that say the tip has moved: accepted, or lost to another block. */
  lemma WakesWhenTipMoved(hash: Hash256, height: u32, reply: Validate.Reply)
    ensures WakesPoller(Checked(Validate.Judge(hash, height, reply))) <==>
            reply.Accepted? || reply == Validate.Refused("inconclusive") || reply == Validate.Refused("duplicate")
  {
  }

  /** The answer to a subscription reads back as the eight bytes of the connection it came on, and eight for the miner to fill. */
  lemma SubscribedAsItself(connectionId: u64, exchanges: seq<Exchange>, k: nat)
    requires k < |exchanges| && exchanges[k].request.Subscribe?
    ensures var answer := AnswerAt(connectionId, exchanges, k);
      answer.Subscribed? && Stratum.ParseSubscription(answer.reply) == Some((BeBytes(connectionId, 8), 8))
  {
    hide Stratum.SubscribeReply, Stratum.ParseSubscription, BeBytes;
    Stratum.SubscriptionRoundTrip(connectionId);
  }

  /** The lines a connection is sent for its k-th request. */
  function SentAt(connectionId: u64, exchanges: seq<Exchange>, k: nat): seq<Line>
    requires k < |exchanges|
  {
    Lines(AnswerAt(connectionId, exchanges, k), exchanges[k].jobs)
  }

  /**
    A miner that took its extranonce from `answer` and its job from `line` found `found` at the j-th point
    of its pass, under the target it was told, and makes `share` of it.
   */
  predicate Finds(answer: Answer, line: Line, worker: string, ticket: u64, j: nat, found: Search.Solution, share: Stratum.Share)
  {
    && answer.Subscribed? && line.Notify?
    && var (told, received) := (Stratum.ParseSubscription(answer.reply), Stratum.FromNotifyParams(line.params));
       && told.Some? && received.Success?
       && var (extranonce2, job) := (Stratum.EncodeExtranonce2(ticket, told.value.1), received.value);
          var (midstate, target) := (Stratum.JobMidstate(job, told.value.0, extranonce2), Stratum.JobTarget(job));
          && midstate.Success? && target.Success?
          && found == Search.Solution(Worker.PassPoint(j), Worker.PassHash(midstate.value, j)) && IsMetBy(target.value, found.hash)
          && Worker.Submit(worker, job.jobId, extranonce2, found) == Some(share)
  }

  lemma FindsMeans(answer: Answer, line: Line, worker: string, ticket: u64, j: nat, found: Search.Solution, share: Stratum.Share)
    requires Finds(answer, line, worker, ticket, j, found, share)
    ensures answer.Subscribed? && line.Notify?
  {
  }

  /** In terms of the connection and the job themselves. */
  lemma FindsFor(connection: u64, active: ActiveJob, worker: string, ticket: u64, j: nat, found: Search.Solution, share: Stratum.Share)
    requires Consistent(active)
    requires Finds(Subscribed(Stratum.SubscribeReply(connection)), Notify(Stratum.ToNotifyParams(active.job)), worker, ticket, j, found, share)
    ensures EndToEnd.PoolHash(active.header, share, BeBytes(connection, 8)) == Success(found.hash)
    ensures IsMetBy(active.networkTarget, found.hash) && share.jobId == active.job.jobId
  {
    hide Consistent, IsMetBy, Worker.PassPoint, Worker.PassHash, Worker.Submit, Stratum.JobMidstate, Stratum.EncodeExtranonce2,
         Stratum.FromNotifyParams, Stratum.ToNotifyParams, Stratum.JobTarget, Stratum.SubscribeReply, Stratum.ParseSubscription,
         EndToEnd.PoolHash, BeBytes;
    EndToEnd.NotifyRoundTripOf(active);
    Stratum.SubscriptionRoundTrip(connection);
    var extranonce2 := Stratum.EncodeExtranonce2(ticket, 8);
    var m := Stratum.JobMidstate(active.job, BeBytes(connection, 8), extranonce2).value;
    EndToEnd.CandidateIsNeverAShare(active, connection, ticket, worker, m, active.networkTarget, j, found);
    SubmittedFor(worker, active.job.jobId, extranonce2, found);
  }

  /** Only a subscription is answered as one. */
  lemma SubscribedWhenAsked(connection: u64, exchanges: seq<Exchange>, s: nat)
    requires s < |exchanges| && AnswerAt(connection, exchanges, s).Subscribed?
    ensures exchanges[s].request.Subscribe? && AnswerAt(connection, exchanges, s) == Subscribed(Stratum.SubscribeReply(connection))
  {
    hide SubmitAnswer, Stratum.SubscribeReply, AuthorizedAfter;
  }

  /** And only authorising is followed by a job, which is the newest of that moment. */
  lemma SentWhenAuthorised(connection: u64, exchanges: seq<Exchange>, a: nat, line: Line)
    requires a < |exchanges| && line in SentAt(connection, exchanges, a) && line.Notify?
    ensures exchanges[a].request.Authorize? && exchanges[a].jobs != [] && line == Notify(Stratum.ToNotifyParams(exchanges[a].jobs[0].job))
  {
    hide SubmitAnswer, Stratum.SubscribeReply, Stratum.ToNotifyParams, AuthorizedAfter;
  }

  /**
    The whole way round a connection: a miner subscribes, is authorised and sent the newest job, finds a
    solution under the extranonce and the job it was told, and submits it while that job is among the last
    eight; it is answered with the judgement on a block with the very hash the miner saw.
   */
  lemma FoundMeansJudged(connection: u64, exchanges: seq<Exchange>, s: nat, a: nat, k: nat, rounds: seq<Round>, q: nat,
                         line: Line, worker: string, ticket: u64, j: nat, found: Search.Solution, share: Stratum.Share)
    requires s < |exchanges| && a < k < |exchanges|
    requires q <= |rounds| && Installs(rounds[..q]) != []
    requires exchanges[a].jobs == Recent(Installs(rounds[..q])) && exchanges[k].jobs == Recent(Installs(rounds))
    requires |Installs(rounds)| - |Installs(rounds[..q])| < 8 && Consistent(exchanges[a].jobs[0])
    requires line in SentAt(connection, exchanges, a)
    requires Finds(AnswerAt(connection, exchanges, s), line, worker, ticket, j, found, share)
    requires exchanges[k].request == Submit(Stratum.ToSubmitParams(share))
    ensures AnswerAt(connection, exchanges, k) == Checked(Validate.Judge(found.hash, exchanges[a].jobs[0].height, exchanges[k].reply))
  {
    hide Consistent, Finds, Stratum.FromSubmitParams, Stratum.ToSubmitParams, Stratum.ToNotifyParams, Stratum.SubscribeReply,
         Installs, Find, EndToEnd.PoolHash, BeBytes, Validate.Outcome, Validate.Judge, SubmitAnswer, IsMetBy;
    var active := exchanges[a].jobs[0];
    var n := |Installs(rounds[..q])| - 1;
    InstallsExtend(rounds, q);
    assert active == Installs(rounds)[n];
    FindsMeans(AnswerAt(connection, exchanges, s), line, worker, ticket, j, found, share);
    SubscribedWhenAsked(connection, exchanges, s);
    SentWhenAuthorised(connection, exchanges, a, line);
    FindsFor(connection, active, worker, ticket, j, found, share);
    HistoryIsLastEight(rounds, n);
    AuthorizedMeansAsked(exchanges[..k]);
    assert exchanges[..k][a].request.Authorize?;
    Judged(active, share, BeBytes(connection, 8), exchanges[k].reply, found.hash);
    AnsweredWith(connection, exchanges[k].jobs, active, share, exchanges[k].reply);
  }

  /** Later rounds only add installs. */
  lemma {:induction false} InstallsExtend(rounds: seq<Round>, q: nat)
    requires q <= |rounds|
    ensures Installs(rounds[..q]) <= Installs(rounds)
    decreases |rounds|
  {
    if q == |rounds| {
      assert rounds[..q] == rounds;
    } else {
      var front := rounds[..|rounds| - 1];
      assert front[..q] == rounds[..q];
      InstallsExtend(front, q);
    }
  }

  lemma AnsweredWith(connection: u64, jobs: seq<ActiveJob>, active: ActiveJob, share: Stratum.Share, reply: Validate.Reply)
    requires Find(jobs, share.jobId) == Some(active)
    ensures AnswerTo(true, connection, jobs, Submit(Stratum.ToSubmitParams(share)), reply)
            == Checked(Validate.Outcome(active, share, BeBytes(connection, 8), reply).0)
  {
    hide Validate.Outcome, BeBytes, Find, Stratum.FromSubmitParams, Stratum.ToSubmitParams;
    Stratum.SubmitRoundTrip(share);
  }

  lemma SubmittedFor(worker: string, jobId: string, extranonce2: seq<byte>, found: Search.Solution)
    ensures Worker.Submit(worker, jobId, extranonce2, found).Some? ==> Worker.Submit(worker, jobId, extranonce2, found).value.jobId == jobId
  {
  }

  lemma Judged(active: ActiveJob, share: Stratum.Share, extranonce1: seq<byte>, reply: Validate.Reply, hash: Hash256)
    requires EndToEnd.PoolHash(active.header, share, extranonce1) == Success(hash) && IsMetBy(active.networkTarget, hash)
    ensures Validate.Outcome(active, share, extranonce1, reply).0 == Validate.Judge(hash, active.height, reply)
  {
    hide IsMetBy, Pow.PowHash, Validate.Judge, Validate.Rebuilt, Stratum.FromSubmitParams, Stratum.ToSubmitParams, LeadingZeroBits;
    Stratum.SubmitRoundTrip(share);
  }
}
