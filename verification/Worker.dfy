/** One mining thread: aligned batches over the two nonce words Stratum can report, and the share it sends. */
module Worker {
  import opened Wrappers
  import opened Bytes
  import opened Hash256
  import opened Pow
  import opened Search
  import opened Target
  import Blake2b
  import Header
  import Stratum

  const BATCH: u32 := 0x10_0000

  function NextBatch(at: NonceSpace): NonceSpace
  {
    if at.nonce + BATCH < TWO_32 then at.(nonce := at.nonce + BATCH)
    else at.(nonce := 0, timeOffset := (at.timeOffset + 1) % TWO_32)
  }

  // ----- the order of one pass -----

  /** The j-th point of a pass: the nonce rolls first, then the time offset; the other two words stay zero. */
  function PassPoint(j: nat): NonceSpace { NonceSpace(j % TWO_32, 0, 0, j / TWO_32 % TWO_32) }

  lemma BatchesFollow(k: nat)
    ensures NextBatch(PassPoint(k * BATCH)) == PassPoint((k + 1) * BATCH)
  {
    var j := k * BATCH;
    var q, r := j / TWO_32, j % TWO_32;
    assert r % BATCH == 0 by { DivUnique(r, BATCH, k - 4096 * q, 0); }
    if r + BATCH < TWO_32 {
      DivUnique(j + BATCH, TWO_32, q, r + BATCH);
    } else {
      DivUnique(j + BATCH, TWO_32, q + 1, 0);
      DivUnique(q + 1, TWO_32, (q + 1) / TWO_32, (q + 1) % TWO_32);
      OneMore(q, TWO_32);
    }
  }

  lemma OneMore(q: nat, d: nat)
    requires d > 1
    ensures (q + 1) % d == (q % d + 1) % d
  {
    var p, r := q / d, q % d;
    if r + 1 == d {
      DivUnique(q + 1, d, p + 1, 0);
      DivUnique(r + 1, d, 1, 0);
    } else {
      DivUnique(q + 1, d, p, r + 1);
      DivUnique(r + 1, d, 0, r + 1);
    }
  }

  /** A batch starts on a multiple of its size, so no carry ever leaves the nonce word. */
  lemma BatchPoint(k: nat, i: nat)
    requires i < BATCH
    ensures After(PassPoint(k * BATCH), 4, i) == PassPoint(k * BATCH + i)
  {
    hide Digit;
    var j := k * BATCH;
    var q, r := j / TWO_32, j % TWO_32;
    assert r % BATCH == 0 by { DivUnique(r, BATCH, k - 4096 * q, 0); }
    assert r + i < TWO_32;
    DivUnique(j + i, TWO_32, q, r + i);
    var low := Low(PassPoint(j), 4);
    DivUnique(low + i, Size(4), 0, low + i);
    assert Low(PassPoint(j + i), 4) == low + i;
    WithOwnLow(PassPoint(j + i), 4);
  }

  /** Nothing repeats within 2^64 points of a pass. */
  lemma PassNeverRepeats(i: nat, j: nat)
    requires i < j < TWO_64
    ensures PassPoint(i) != PassPoint(j)
  {
    DivUnique(i / TWO_32, TWO_32, 0, i / TWO_32);
    DivUnique(j / TWO_32, TWO_32, 0, j / TWO_32);
  }

  /** Every nonce is met with every time offset, exactly once in those 2^64 points, and never two of them with one hash input. */
  lemma PassCovers(nonce: u32, timeOffset: u32, j: nat)
    ensures j < TWO_64 ==> (PassPoint(j) == NonceSpace(nonce, 0, 0, timeOffset) <==> j == nonce + TWO_32 * timeOffset)
  {
    var n: int, t: int := nonce, timeOffset;
    var k := n + TWO_32 * t;
    DivUnique(k, TWO_32, t, n);
    DivUnique(t, TWO_32, 0, t);
    if j < TWO_64 {
      if j < k { PassNeverRepeats(j, k); } else if k < j { PassNeverRepeats(k, j); }
    }
  }

  lemma PassInputsDistinct(m: Blake2bMidstate, i: nat, j: nat)
    requires i < j < TWO_64
    ensures Stage4Input(m, PassPoint(i)) != Stage4Input(m, PassPoint(j))
  {
    hide Stage4Input, PassPoint;
    PassNeverRepeats(i, j);
    DistinctInputs(m, PassPoint(i), PassPoint(j));
  }

  // ----- one search by many threads -----

  /** The extranonce a thread hashes under: its connection's half and its ticket's. */
  function Extranonce(connection: u64, ticket: u64): Header.Array16
  {
    BeBytes(connection, 8) + Stratum.EncodeExtranonce2(ticket, 8)
  }

  /** What a thread on a job hashes at stage 4 for the j-th point of its pass. */
  function JobInput(h2: Hash256, prevHidden: Hash256, flags: byte, connection: u64, ticket: u64, j: nat): seq<byte>
  {
    Stage4Input(FromStratumJob(h2, Extranonce(connection, ticket), prevHidden, flags), PassPoint(j))
  }

  /**
    Over every thread of every connection on one job, no two points of the first 2^64 of each pass give
    one stage 4 input, unless two different stage 3 inputs have one BLAKE2b digest.
   */
  lemma NothingHashedTwice(h2: Hash256, prevHidden: Hash256, flags: byte, c1: u64, t1: u64, j1: nat, c2: u64, t2: u64, j2: nat)
    requires (c1, t1, j1) != (c2, t2, j2) && j1 < TWO_64 && j2 < TWO_64
    ensures JobInput(h2, prevHidden, flags, c1, t1, j1) == JobInput(h2, prevHidden, flags, c2, t2, j2) ==>
              var x, y := Stage3Input(h2, Extranonce(c1, t1)), Stage3Input(h2, Extranonce(c2, t2));
              x != y && Blake2b.Hash256(x) == Blake2b.Hash256(y)
  {
    hide Stage4Input, Stage3Input, PassPoint, BeBytes, Stratum.EncodeExtranonce2;
    if JobInput(h2, prevHidden, flags, c1, t1, j1) == JobInput(h2, prevHidden, flags, c2, t2, j2) {
      var m, n := FromStratumJob(h2, Extranonce(c1, t1), prevHidden, flags), FromStratumJob(h2, Extranonce(c2, t2), prevHidden, flags);
      Stage4Binds(m, n, PassPoint(j1), PassPoint(j2));
      if j1 < j2 { PassNeverRepeats(j1, j2); } else if j2 < j1 { PassNeverRepeats(j2, j1); }
      Stratum.SearchSpacesDisjoint(c1, t1, c2, t2, h2);
    }
  }

  // ----- one pass -----

  /** The j-th hash of a pass. */
  function PassHash(m: Blake2bMidstate, j: nat): Hash256 { HashAt(Blake2b(m), PassPoint(j)) }

  /** What a batch hands to the statistics. */
  datatype Record = Record(hashes: u64, best: Hash256)

  function Total(records: seq<Record>): nat
  {
    if records == [] then 0 else Total(records[..|records| - 1]) + records[|records| - 1].hashes
  }

  predicate NoneMet(m: Blake2bMidstate, t: Target, a: nat, b: nat)
  {
    forall j: nat :: a <= j < b ==> !IsMetBy(t, PassHash(m, j))
  }

  /** The b-th record's best is one of that batch's hashes, and none of them is below it. */
  ghost predicate BestOfBatch(m: Blake2bMidstate, b: nat, record: Record)
  {
    && (exists j: nat :: b * BATCH <= j < b * BATCH + record.hashes && record.best == PassHash(m, j))
    && (forall j: nat :: b * BATCH <= j < b * BATCH + record.hashes ==> !IsBelow(PassHash(m, j), record.best))
  }

  lemma BatchHash(m: Blake2bMidstate, k: nat, i: nat)
    requires i < BATCH
    ensures Tried(Blake2b(m), Truncated(PassPoint(k * BATCH), 4), i) == PassHash(m, k * BATCH + i)
  {
    hide After, HashAt, PassPoint;
    BatchPoint(k, i);
  }

  /** What one search says about its batch, in the pass's own numbering. */
  lemma BatchReport(m: Blake2bMidstate, t: Target, k: nat, r: SearchResult)
    requires Describes(Blake2b(m), t, PassPoint(k * BATCH), BATCH, r)
    ensures 0 < r.hashes <= BATCH && BestOfBatch(m, k, Record(r.hashes, r.best))
    ensures r.solution.None? ==> r.hashes == BATCH && NoneMet(m, t, k * BATCH, k * BATCH + r.hashes)
    ensures r.solution.Some? ==>
              var last := k * BATCH + r.hashes - 1;
              && NoneMet(m, t, k * BATCH, last)
              && r.solution.value == Solution(PassPoint(last), PassHash(m, last)) && IsMetBy(t, r.solution.value.hash)
  {
    hide After, HashAt, PassPoint, Truncated, Value, IsMetBy;
    var start := PassPoint(k * BATCH);
    var from := Truncated(start, 4);
    assert from == start by { WholeSpace(start); }
    forall i: nat | i < BATCH
      ensures Tried(Blake2b(m), from, i) == PassHash(m, k * BATCH + i)
    {
      BatchHash(m, k, i);
    }
    forall j: nat | k * BATCH <= j < k * BATCH + BATCH
      ensures PassHash(m, j) == Tried(Blake2b(m), from, j - k * BATCH)
    {
      BatchHash(m, k, j - k * BATCH);
    }
    var least: nat :| Lowest(Blake2b(m), from, r.hashes, r.best, r.bestAt, least);
    assert r.best == PassHash(m, k * BATCH + least);
    if r.solution.Some? { BatchPoint(k, r.hashes - 1); }
  }

  lemma WholeSpace(at: NonceSpace)
    ensures Truncated(at, 4) == at
  {
  }

  /** How many checks pass before the first that fails. */
  function Leading(checks: seq<bool>): (n: nat)
    ensures n <= |checks|
  {
    if checks == [] || !checks[0] then 0 else 1 + Leading(checks[1..])
  }

  lemma {:induction false} LeadingMeaning(checks: seq<bool>, n: nat)
    requires n <= |checks| && (forall i :: 0 <= i < n ==> checks[i]) && (n < |checks| ==> !checks[n])
    ensures Leading(checks) == n
  {
    if n > 0 { LeadingMeaning(checks[1..], n - 1); }
  }

  /** One uninterrupted pass over a job; `checks` is what the loop condition reads before each batch. */
  method Pass(m: Blake2bMidstate, t: Target, checks: seq<bool>) returns (records: seq<Record>, found: Option<Solution>)
    ensures forall b :: 0 <= b < |records| ==> BestOfBatch(m, b, records[b])
    ensures found.None? ==> |records| == Leading(checks) && Total(records) == |records| * BATCH && NoneMet(m, t, 0, Total(records))
    ensures found.Some? ==>
              && 0 < Total(records) && NoneMet(m, t, 0, Total(records) - 1) && IsMetBy(t, found.value.hash)
              && found.value == Solution(PassPoint(Total(records) - 1), PassHash(m, Total(records) - 1))
  {
    hide HashAt, Value, IsMetBy, BestOfBatch, Describes, PassPoint, PassHash;
    records := [];
    var at := NonceSpace(0, 0, 0, 0);
    assert at == PassPoint(0) by { FirstPoint(); }
    for i := 0 to |checks|
      invariant |records| == i && Total(records) == i * BATCH && at == PassPoint(i * BATCH)
      invariant NoneMet(m, t, 0, i * BATCH)
      invariant forall j :: 0 <= j < i ==> checks[j]
      invariant forall b :: 0 <= b < i ==> BestOfBatch(m, b, records[b])
    {
      if !checks[i] {
        LeadingMeaning(checks, i);
        return records, None;
      }
      var r := Search.Search(Blake2b(m), t, at, BATCH);
      BatchReport(m, t, i, r);
      ghost var before := records;
      records := records + [Record(r.hashes, r.best)];
      assert records[..|records| - 1] == before;
      if r.solution.Some? {
        return records, r.solution;
      }
      BatchesFollow(i);
      at := NextBatch(at);
    }
    LeadingMeaning(checks, |checks|);
    return records, None;
  }

  lemma FirstPoint()
    ensures PassPoint(0) == NonceSpace(0, 0, 0, 0)
  {
  }

  // ----- the share -----

  /** Nothing is sent for a solution Stratum has no slots for. */
  function Submit(worker: string, jobId: string, extranonce2: seq<byte>, found: Solution): Option<Stratum.Share>
  {
    if found.at.nonce2 != 0 || found.at.nonce3 != 0 then None
    else Some(Stratum.Share(worker, jobId, extranonce2, found.at.timeOffset, found.at.nonce))
  }

  /** Every point of every pass can be reported: the refusal is unreachable, and the share names the point. */
  lemma NeverRefused(worker: string, jobId: string, extranonce2: seq<byte>, j: nat, hash: Hash256)
    ensures var share := Submit(worker, jobId, extranonce2, Solution(PassPoint(j), hash));
      && share.Some? && share.value.worker == worker && share.value.jobId == jobId && share.value.extranonce2 == extranonce2
      && PassPoint(j) == NonceSpace(share.value.nonce, 0, 0, share.value.timeOffset)
  {
  }
}
