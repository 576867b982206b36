/** The whole path of a job: over the wire, through a search, back over the wire, and into the pool's check. */
module EndToEnd {
  import opened Wrappers
  import opened Bytes
  import opened Hash256
  import opened Header
  import opened Target
  import opened JobBuilder
  import opened Pow
  import Search
  import Stratum
  import Validate
  import opened TaggedHash
  import Worker

  /** What the miner hashes: the midstate it rebuilds from the parameters it was sent. */
  function MinerHash(job: Stratum.Job, extranonce1: seq<byte>, extranonce2: seq<byte>, at: NonceSpace): Result<Hash256, Stratum.JobError>
  {
    var received :- Stratum.FromNotifyParams(Stratum.ToNotifyParams(job));
    var midstate :- Stratum.JobMidstate(received, extranonce1, extranonce2);
    Success(HashBlake2b(midstate, at))
  }

  /** What the pool hashes: the header it rebuilds from the parameters it was sent. */
  function PoolHash(h: BlockHeader, share: Stratum.Share, extranonce1: seq<byte>): Result<Hash256, Stratum.JobError>
  {
    var received :- Stratum.FromSubmitParams(Stratum.ToSubmitParams(share));
    if |extranonce1| + |received.extranonce2| != 16 then Failure(Stratum.BadExtranonceLength(|extranonce1|, |received.extranonce2|))
    else Success(PowHash(Validate.Rebuilt(h, received, extranonce1 + received.extranonce2)))
  }

  lemma SameDigest(h: BlockHeader, share: Stratum.Share, extranonce: Array16)
    ensures H2(Validate.Rebuilt(h, share, extranonce)) == H2(h)
  {
    hide Tagged, LeBytes;
  }

  lemma MinerMidstate(h: BlockHeader, jobId: string, clean: bool, e1: seq<byte>, e2: seq<byte>)
    requires |e1| + |e2| == 16
    ensures Stratum.JobMidstate(Projection(h, jobId, clean), e1, e2)
            == Success(FromStratumJob(H2(h), e1 + e2, Blanked(PrevHidden(h)), h.flags))
  {
    hide H2, PrevHidden, Stage3;
  }

  lemma RebuiltMidstate(h: BlockHeader, share: Stratum.Share, extranonce: Array16)
    ensures JobMidstate(Validate.Rebuilt(h, share, extranonce)) == FromStratumJob(H2(h), extranonce, Blanked(PrevHidden(h)), h.flags)
  {
    hide H2, Tagged, Stage3;
    SameDigest(h, share, extranonce);
  }

  /**
    For every post-fork header, in every layout, with any split of the extranonce and any reportable
    point, the miner's hash over the wire is the pool's exactly when the header's mask is null.
   */
  lemma MinerAgreesWithPool(h: BlockHeader, jobId: string, clean: bool, worker: string, e1: seq<byte>, e2: seq<byte>, at: NonceSpace)
    requires h.headerV2 && |e1| + |e2| == 16 && at.nonce2 == at.nonce3 == 0
    ensures var miner := MinerHash(Projection(h, jobId, clean), e1, e2, at);
      var pool := PoolHash(h, Stratum.Share(worker, jobId, e2, at.timeOffset, at.nonce), e1);
      && miner.Success? && pool.Success?
      && (miner.value == pool.value <==> XorMask(h.xorKey, h.xorKeyMaskClearBits) == Zeros(32))
  {
    hide H2, PrevHidden, Stage3, PowHash, HashBlake2b, XorMask, NewBlake2b, Stratum.FromNotifyParams, Stratum.ToNotifyParams,
         Stratum.FromSubmitParams, Stratum.ToSubmitParams, Projection, Stratum.JobMidstate, JobMidstate, FromStratumJob;
    var share := Stratum.Share(worker, jobId, e2, at.timeOffset, at.nonce);
    var header := Validate.Rebuilt(h, share, e1 + e2);
    Stratum.NotifyRoundTrip(Projection(h, jobId, clean));
    Stratum.SubmitRoundTrip(share);
    MinerMidstate(h, jobId, clean, e1, e2);
    RebuiltMidstate(h, share, e1 + e2);
    ProjectionAgrees(header, at);
    assert WithNonces(header, at) == header;
  }

  /**
    A block candidate is never an ordinary share: for any job the pool built, what a pass over it
    finds is reported with the pass's own point, and the pool reaches the same hash, finds that it
    meets its own target and submits the block.
   */
  lemma CandidateIsNeverAShare(active: ActiveJob, connection: u64, ticket: u64, worker: string,
                               m: Blake2bMidstate, t: Target, j: nat, found: Search.Solution)
    requires Consistent(active)
    requires Stratum.FromNotifyParams(Stratum.ToNotifyParams(active.job)) == Success(active.job)
    requires Stratum.JobTarget(active.job) == Success(t)
    requires Stratum.JobMidstate(active.job, BeBytes(connection, 8), Stratum.EncodeExtranonce2(ticket, 8)) == Success(m)
    requires found == Search.Solution(Worker.PassPoint(j), Worker.PassHash(m, j)) && IsMetBy(t, found.hash)
    ensures var share := Worker.Submit(worker, active.job.jobId, Stratum.EncodeExtranonce2(ticket, 8), found);
      && share.Some?
      && PoolHash(active.header, share.value, BeBytes(connection, 8)) == Success(found.hash)
      && IsMetBy(active.networkTarget, found.hash)
  {
    hide Projection, PoolHash, XorMask, HashBlake2b, Stratum.FromNotifyParams, Stratum.ToNotifyParams, Stratum.JobMidstate,
         Stratum.JobTarget, Stratum.EncodeExtranonce2, LeBytes;
    var e1, e2 := BeBytes(connection, 8), Stratum.EncodeExtranonce2(ticket, 8);
    Worker.NeverRefused(worker, active.job.jobId, e2, j, found.hash);
    MinerAgreesWithPool(active.header, active.job.jobId, active.job.cleanJobs, worker, e1, e2, found.at);
    NullKeyMeansNoMask(active.header.xorKeyMaskClearBits);
  }

  lemma NotifyRoundTripOf(active: ActiveJob)
    requires Consistent(active)
    ensures Stratum.FromNotifyParams(Stratum.ToNotifyParams(active.job)) == Success(active.job)
    ensures Stratum.JobTarget(active.job) == Success(active.networkTarget)
  {
    hide Stratum.FromNotifyParams, Stratum.ToNotifyParams;
    Stratum.NotifyRoundTrip(active.job);
  }

  /** What a miner makes of its subscription and its job. */
  method Receive(active: ActiveJob, connection: u64, ticket: u64)
    returns (midstate: Blake2bMidstate, target: Target, extranonce1: seq<byte>, extranonce2: seq<byte>)
    requires Consistent(active)
    ensures target == active.networkTarget
    ensures extranonce1 == BeBytes(connection, 8) && extranonce2 == Stratum.EncodeExtranonce2(ticket, 8)
    ensures Stratum.JobMidstate(active.job, extranonce1, extranonce2) == Success(midstate)
  {
    hide Consistent, Stratum.FromNotifyParams, Stratum.ToNotifyParams, Stratum.JobTarget, FromStratumJob, LeBytes,
         Stratum.SubscribeReply, Stratum.ParseSubscription;
    NotifyRoundTripOf(active);
    var job := Stratum.FromNotifyParams(Stratum.ToNotifyParams(active.job)).value;
    Stratum.SubscriptionRoundTrip(connection);
    var (prefix, size) := Stratum.ParseSubscription(Stratum.SubscribeReply(connection)).value;
    extranonce1 := prefix;
    extranonce2 := Stratum.FillExtranonce2(ticket, size);
    var m := Stratum.ComputeJobMidstate(job, extranonce1, extranonce2);
    midstate, target := m.value, Stratum.JobTarget(job).value;
  }

  /** The pool's side of a share: parsed, rebuilt, hashed, and judged when its hash meets the target. */
  method Answer(active: ActiveJob, share: Stratum.Share, extranonce1: seq<byte>, reply: Validate.Reply, hash: Hash256)
    returns (verdict: Result<Validate.Verdict, Validate.ValidationError>)
    requires PoolHash(active.header, share, extranonce1) == Success(hash) && IsMetBy(active.networkTarget, hash)
    ensures verdict == Validate.Judge(hash, active.height, reply)
  {
    hide IsMetBy, PowHash, Validate.Judge, Validate.Rebuilt, Stratum.FromSubmitParams, Stratum.ToSubmitParams, LeadingZeroBits;
    Stratum.SubmitRoundTrip(share);
    var received := Stratum.FromSubmitParams(Stratum.ToSubmitParams(share)).value;
    var submitted;
    verdict, submitted := Validate.Check(active, received, extranonce1, reply);
  }

  /** A pass over a job as the miner received it, and the pool's verdict on what it submits: a block or a failed call, never a share. */
  method MineAndCheck(active: ActiveJob, connection: u64, ticket: u64, worker: string, checks: seq<bool>, reply: Validate.Reply)
    returns (found: Option<Search.Solution>, verdict: Option<Result<Validate.Verdict, Validate.ValidationError>>)
    requires Consistent(active)
    ensures verdict.Some? <==> found.Some?
    ensures found.Some? ==> verdict.value == Validate.Judge(found.value.hash, active.height, reply)
    ensures verdict.Some? && verdict.value.Success? ==> !verdict.value.value.Share?
  {
    hide PoolHash, Consistent, IsMetBy, Worker.PassHash, Worker.PassPoint, Worker.Submit, Stratum.FromNotifyParams, Stratum.ToNotifyParams,
         Stratum.JobTarget, Stratum.JobMidstate, Stratum.EncodeExtranonce2;
    NotifyRoundTripOf(active);
    var m, target, extranonce1, extranonce2 := Receive(active, connection, ticket);
    var records;
    records, found := Worker.Pass(m, target, checks);
    if found.None? { return None, None; }
    CandidateIsNeverAShare(active, connection, ticket, worker, m, target, Worker.Total(records) - 1, found.value);
    var share := Worker.Submit(worker, active.job.jobId, extranonce2, found.value).value;
    var v := Answer(active, share, extranonce1, reply, found.value.hash);
    verdict := Some(v);
  }
}
