/** `entry_point_mt` without its threads: the id range is built, cut into
    chunks of `len / thread_count` ids, each chunk is scanned by its own
    worker, and every record any worker sends is printed. Workers run
    concurrently and their records reach the printer in an unpredictable
    interleaving, so the run's outcome is the multiset of records. */
module EntryPoint {
  import opened Prelude
  import Ipv4
  import opened WorkerModels
  import opened DataFrame
  import Worker
  import Hostname
  import opened MatchTypes

  /** Integer facts behind the chunk count: with `size = len / threads`, the
      number of chunks ceil(len / size) is at least `threads`; it is exactly
      `threads` when the division is exact and more than `threads` otherwise. */
  lemma ChunkCount(len: nat, threads: nat)
    requires threads >= 1 && len / threads >= 1
    ensures (len + len / threads - 1) / (len / threads) >= threads
    ensures (len + len / threads - 1) / (len / threads) == threads <==> len % threads == 0
  {
    var size := len / threads;
    assert len == size * threads + len % threads;
    var m := len + size - 1;
    var q: int, r: int := m / size, m % size;
    assert m == q * size + r;
    MulAwayFromZero(threads - q, size);
    if len % threads == 0 {
      DivUnique(m, size, threads, size - 1);
    } else {
      assert m == (threads + 1) * size + (len % threads - 1);
      MulAwayFromZero(threads + 1 - q, size);
    }
  }

  /** The chunk size is zero exactly when there are more threads than ids. */
  lemma ZeroChunkSizeIff(len: nat, threads: nat)
    requires threads >= 1
    ensures len / threads == 0 <==> threads > len
  {
    if threads > len {
      DivUnique(len, threads, 0, len);
    } else {
      assert len == (len / threads) * threads + len % threads;
      MulAwayFromZero(1 - len / threads, threads);
    }
  }

  /** One request per chunk, all carrying the same prefix. */
  function Requests(countryCode: string, chunks: seq<seq<U32>>): (reqs: seq<WorkerRequest>)
    ensures |reqs| == |chunks|
    ensures forall i :: 0 <= i < |reqs| ==> reqs[i] == WorkerRequest(countryCode, chunks[i])
  {
    if |chunks| == 0 then [] else [WorkerRequest(countryCode, chunks[0])] + Requests(countryCode, chunks[1..])
  }

  /** The ids of all requests, in request order. */
  function AllData(reqs: seq<WorkerRequest>): seq<U32> {
    if |reqs| == 0 then [] else reqs[0].data + AllData(reqs[1..])
  }

  lemma {:induction false} AllDataOfRequests(countryCode: string, chunks: seq<seq<U32>>)
    ensures AllData(Requests(countryCode, chunks)) == Flatten(chunks)
    decreases |chunks|
  {
    if |chunks| > 0 {
      AllDataOfRequests(countryCode, chunks[1..]);
      assert Requests(countryCode, chunks)[1..] == Requests(countryCode, chunks[1..]);
    }
  }

  /** The requests made from the chunks of `vec` inherit the chunks' shape. */
  lemma ChunkedRequests(countryCode: string, vec: seq<U32>, size: nat)
    requires size > 0
    ensures AllData(Requests(countryCode, Chunks(vec, size))) == vec
    ensures |Requests(countryCode, Chunks(vec, size))| == (|vec| + size - 1) / size
    ensures forall i :: 0 <= i < |Requests(countryCode, Chunks(vec, size))| ==>
      Requests(countryCode, Chunks(vec, size))[i].countryCode == countryCode &&
      0 < |Requests(countryCode, Chunks(vec, size))[i].data| <= size
    ensures forall i :: 0 <= i < |Requests(countryCode, Chunks(vec, size))| - 1 ==>
      |Requests(countryCode, Chunks(vec, size))[i].data| == size
  {
    AllDataOfRequests(countryCode, Chunks(vec, size));
  }

  /** Lines 157-165 of `entry_point_mt`: the requests handed to the workers.
      It panics when there are no threads (division by zero) or more threads
      than ids (a zero chunk size, which `slice::chunks` rejects). Otherwise
      the chunks cover the range in order, each is non-empty, all but the last
      hold `len / threads` ids, and there are at least as many chunks as
      threads. */
  function ChunkDataframe(countryCode: string, start: U32, end: U32, threadCount: nat): (r: Result<seq<WorkerRequest>>)
    ensures threadCount == 0 ==> r == Panicked(DivideByZero)
    ensures threadCount > 0 ==> (r == Panicked(ZeroChunkSize) <==> threadCount > |Ids(start, end)|)
    ensures r.Ok? ==> AllData(r.value) == Ids(start, end)
    ensures r.Ok? ==> |r.value| >= threadCount
    ensures r.Ok? ==> forall i :: 0 <= i < |r.value| ==>
      r.value[i].countryCode == countryCode && 0 < |r.value[i].data| <= |Ids(start, end)| / threadCount
    ensures r.Ok? ==> forall i :: 0 <= i < |r.value| - 1 ==> |r.value[i].data| == |Ids(start, end)| / threadCount
  {
    var vec := Ids(start, end);
    if threadCount == 0 then Panicked(DivideByZero)
    else
      var chunkSize := |vec| / threadCount;
      ZeroChunkSizeIff(|vec|, threadCount);
      if chunkSize == 0 then Panicked(ZeroChunkSize)
      else
        ChunkedRequests(countryCode, vec, chunkSize);
        ChunkCount(|vec|, threadCount);
        Ok(Requests(countryCode, Chunks(vec, chunkSize)))
  }

  /** Each worker's records, in request order, as if the workers ran one after another. */
  function RunWorkers(filter: SearchFilter, reqs: seq<WorkerRequest>, probe: string -> Ipv4.Addr): (outs: seq<seq<WorkerResponse>>)
    ensures |outs| == |reqs|
    ensures forall i :: 0 <= i < |outs| ==> outs[i] == Worker.Scan(reqs[i].countryCode, reqs[i].data, filter.ip, probe)
  {
    if |reqs| == 0 then []
    else [Worker.Scan(reqs[0].countryCode, reqs[0].data, filter.ip, probe)] + RunWorkers(filter, reqs[1..], probe)
  }

  /** The progress increments of all workers together. */
  function TotalTicks(reqs: seq<WorkerRequest>): nat {
    if |reqs| == 0 then 0 else |reqs[0].data| + TotalTicks(reqs[1..])
  }

  /** With a common prefix, the workers' records together are the records of
      scanning all their ids in one go. */
  lemma {:induction false} RunWorkersIsScan(filter: SearchFilter, reqs: seq<WorkerRequest>, countryCode: string, probe: string -> Ipv4.Addr)
    requires forall i :: 0 <= i < |reqs| ==> reqs[i].countryCode == countryCode
    ensures Flatten(RunWorkers(filter, reqs, probe)) == Worker.Scan(countryCode, AllData(reqs), filter.ip, probe)
    ensures TotalTicks(reqs) == |AllData(reqs)|
    decreases |reqs|
  {
    if |reqs| > 0 {
      RunWorkersIsScan(filter, reqs[1..], countryCode, probe);
      Worker.ScanAppend(countryCode, reqs[0].data, AllData(reqs[1..]), filter.ip, probe);
      assert RunWorkers(filter, reqs, probe)[1..] == RunWorkers(filter, reqs[1..], probe);
    }
  }

  /** `entry_point_mt`, with the probe as a parameter: the multiset of records
      printed, or the panic that stops the run before any worker starts.
      Splitting the work changes nothing: the records are exactly those of
      classifying every id of the range, each at most once. */
  function EntryPointMt(countryCode: string, matchIp: Ipv4.Addr, start: U32, end: U32, threadCount: nat,
                        probe: string -> Ipv4.Addr): (r: Result<multiset<WorkerResponse>>)
    ensures r.Panicked? <==> threadCount == 0 || threadCount > |Ids(start, end)|
    ensures r.Ok? ==> r.value == multiset(Worker.Scan(countryCode, Ids(start, end), matchIp, probe))
  {
    match ChunkDataframe(countryCode, start, end, threadCount)
    case Panicked(cause) => Panicked(cause)
    case Ok(reqs) =>
      var filter := SearchFilter(matchIp);
      RunWorkersIsScan(filter, reqs, countryCode, probe);
      Ok(multiset(Flatten(RunWorkers(filter, reqs, probe))))
  }

  /** Every worker makes one progress increment per id, so the increments of
      a run add up to the size of the range. */
  lemma TicksCoverRange(countryCode: string, start: U32, end: U32, threadCount: nat)
    requires ChunkDataframe(countryCode, start, end, threadCount).Ok?
    ensures TotalTicks(ChunkDataframe(countryCode, start, end, threadCount).value) == |Ids(start, end)|
  {
    var reqs := ChunkDataframe(countryCode, start, end, threadCount).value;
    RunWorkersIsScan(SearchFilter(Ipv4.Unspecified), reqs, countryCode, _ => Ipv4.Unspecified);
  }

  /** Ten ids on three threads: chunks of three, and a fourth chunk for the
      remaining id, so there are more chunks than threads. */
  lemma MoreChunksThanThreads()
    ensures ChunkDataframe("au", 1, 10, 3).Ok?
    ensures |ChunkDataframe("au", 1, 10, 3).value| == 4
  {
    assert |Ids(1, 10)| == 10;
  }

  /** A run in which exactly one host resolves on the target's /24 reports
      exactly that host: as an exact match when it resolved to the (non-zero)
      target itself, as a partial match otherwise. */
  lemma SingleHit(countryCode: string, matchIp: Ipv4.Addr, start: U32, end: U32, threadCount: nat,
                  probe: string -> Ipv4.Addr, id: U32)
    requires 1 <= threadCount <= |Ids(start, end)|
    requires start <= id <= end
    requires Worker.SameNetwork24(probe(Hostname.VpnString(countryCode, id)), matchIp)
    requires forall other: U32 :: start <= other <= end && other != id ==>
      !Worker.SameNetwork24(probe(Hostname.VpnString(countryCode, other)), matchIp)
    ensures var host := Hostname.VpnString(countryCode, id);
      var ip := probe(host);
      EntryPointMt(countryCode, matchIp, start, end, threadCount, probe)
        == Ok(multiset{WorkerResponse(if ip != Ipv4.Unspecified && ip == matchIp then Exact else Partial, host, ip)})
  {
    var ids := Ids(start, end);
    var k := id - start;
    assert ids[k] == id;
    forall i | 0 <= i < |ids| && i != k
      ensures Worker.Respond(countryCode, ids[i], matchIp, probe) == None
    {
      assert ids[i] == start + i;
    }
    Worker.ScanSingleHit(countryCode, ids, matchIp, probe, k);
  }

  /** When every host fails to resolve, nothing is reported, provided the
      target is off 0.0.0.0/24 (on it, every failed lookup is a partial match). */
  lemma AllUnresolved(countryCode: string, matchIp: Ipv4.Addr, start: U32, end: U32, threadCount: nat,
                      probe: string -> Ipv4.Addr)
    requires 1 <= threadCount <= |Ids(start, end)|
    requires forall id: U32 :: start <= id <= end ==> probe(Hostname.VpnString(countryCode, id)) == Ipv4.Unspecified
    requires !Worker.SameNetwork24(Ipv4.Unspecified, matchIp)
    ensures EntryPointMt(countryCode, matchIp, start, end, threadCount, probe) == Ok(multiset{})
  {
    var ids := Ids(start, end);
    forall i | 0 <= i < |ids|
      ensures Worker.Respond(countryCode, ids[i], matchIp, probe) == None
    {
      assert start <= ids[i] <= end;
    }
    Worker.ScanSilent(countryCode, ids, matchIp, probe);
  }
}
