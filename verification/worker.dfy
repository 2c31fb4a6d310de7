/** One worker's scan: for each id of its chunk, synthesise the host name,
    look it up with the probe, classify the address against the target, and
    send a record for every match. The probe (running `ping` and reading its
    output) is an arbitrary function from host name to address. */
module Worker {
  import opened Prelude
  import Ipv4
  import opened MatchTypes
  import opened WorkerModels
  import Hostname

  /** The naive /24 test: the first three octets agree. */
  predicate SameNetwork24(x: Ipv4.Addr, y: Ipv4.Addr) {
    x.o0 == y.o0 && x.o1 == y.o1 && x.o2 == y.o2
  }

  /** The classification block of `worker_task`: an exact match is a
      resolved (non-zero) address equal to the target; failing that, any
      address on the target's /24 is a partial match. The zero address is
      not excluded from the partial test. */
  function Classify(response: Ipv4.Addr, target: Ipv4.Addr): Option<MatchType> {
    if response != Ipv4.Unspecified && response == target then Some(Exact)
    else if SameNetwork24(response, target) then Some(Partial)
    else None
  }

  /** What the worker sends for one id, if anything. */
  function Respond(prefix: string, id: U32, target: Ipv4.Addr, probe: string -> Ipv4.Addr): Option<WorkerResponse> {
    var host := Hostname.VpnString(prefix, id);
    var ip := probe(host);
    match Classify(ip, target)
    case Some(kind) => Some(WorkerResponse(kind, host, ip))
    case None => None
  }

  /** The records sent for a run of ids, in id order. */
  function Scan(prefix: string, ids: seq<U32>, target: Ipv4.Addr, probe: string -> Ipv4.Addr): seq<WorkerResponse>
    decreases |ids|
  {
    if |ids| == 0 then []
    else
      var head := match Respond(prefix, ids[0], target, probe)
        case Some(r) => [r]
        case None => [];
      head + Scan(prefix, ids[1..], target, probe)
  }

  /** `worker_task`: the records it sends, in order, and the number of
      progress increments it makes. */
  method WorkerTask(filter: SearchFilter, payload: WorkerRequest, probe: string -> Ipv4.Addr)
    returns (sent: seq<WorkerResponse>, ticks: nat)
    ensures sent == Scan(payload.countryCode, payload.data, filter.ip, probe)
    ensures ticks == |payload.data|
  {
    sent, ticks := [], 0;
    var i := 0;
    while i < |payload.data|
      invariant 0 <= i <= |payload.data|
      invariant sent == Scan(payload.countryCode, payload.data[..i], filter.ip, probe)
      invariant ticks == i
    {
      var item := payload.data[i];
      var hostname := Hostname.VpnString(payload.countryCode, item);
      var response := probe(hostname);
      if response != Ipv4.Unspecified && response == filter.ip {
        sent := sent + [WorkerResponse(Exact, hostname, response)];
      } else if SameNetwork24(response, filter.ip) {
        sent := sent + [WorkerResponse(Partial, hostname, response)];
      }
      ScanAppend(payload.countryCode, payload.data[..i], [item], filter.ip, probe);
      assert payload.data[..i + 1] == payload.data[..i] + [item];
      ticks := ticks + 1;
      i := i + 1;
    }
    assert payload.data[..i] == payload.data;
  }

  /** Scanning two runs one after the other sends the records of the first,
      then those of the second. */
  lemma {:induction false} ScanAppend(prefix: string, a: seq<U32>, b: seq<U32>, target: Ipv4.Addr, probe: string -> Ipv4.Addr)
    ensures Scan(prefix, a + b, target, probe) == Scan(prefix, a, target, probe) + Scan(prefix, b, target, probe)
    decreases |a|
  {
    if |a| == 0 {
      assert a + b == b;
    } else {
      assert (a + b)[0] == a[0];
      assert (a + b)[1..] == a[1..] + b;
      ScanAppend(prefix, a[1..], b, target, probe);
    }
  }

  /** At most one record per id. */
  lemma {:induction false} ScanLength(prefix: string, ids: seq<U32>, target: Ipv4.Addr, probe: string -> Ipv4.Addr)
    ensures |Scan(prefix, ids, target, probe)| <= |ids|
    decreases |ids|
  {
    if |ids| > 0 {
      ScanLength(prefix, ids[1..], target, probe);
    }
  }

  /** A record is sent exactly when some id of the run produces it. */
  lemma {:induction false} ScanMembership(prefix: string, ids: seq<U32>, target: Ipv4.Addr, probe: string -> Ipv4.Addr, r: WorkerResponse)
    ensures r in Scan(prefix, ids, target, probe) <==>
      exists i :: 0 <= i < |ids| && Respond(prefix, ids[i], target, probe) == Some(r)
    decreases |ids|
  {
    if |ids| > 0 {
      ScanMembership(prefix, ids[1..], target, probe, r);
      if r in Scan(prefix, ids[1..], target, probe) {
        var i :| 0 <= i < |ids[1..]| && Respond(prefix, ids[1..][i], target, probe) == Some(r);
        assert ids[i + 1] == ids[1..][i];
      }
      if exists i :: 0 <= i < |ids| && Respond(prefix, ids[i], target, probe) == Some(r) {
        var i :| 0 <= i < |ids| && Respond(prefix, ids[i], target, probe) == Some(r);
        if i > 0 {
          assert ids[1..][i - 1] == ids[i];
        }
      }
    }
  }

  /** Every record names a synthesised host of the run, carries the address
      the probe gave for it, and is labelled with that address's
      classification. */
  lemma RecordFaithful(prefix: string, ids: seq<U32>, target: Ipv4.Addr, probe: string -> Ipv4.Addr, r: WorkerResponse)
    requires r in Scan(prefix, ids, target, probe)
    ensures exists i :: 0 <= i < |ids| && r.host == Hostname.VpnString(prefix, ids[i])
    ensures r.ip == probe(r.host)
    ensures Classify(r.ip, target) == Some(r.matchType)
  {
    ScanMembership(prefix, ids, target, probe, r);
  }

  /** Every record's host name decodes back to an id under the prefix, and
      when the run's ids increase, so do the ids of the records: records come
      out in id order, hence at most one per id. */
  lemma {:induction false} ScanInIdOrder(prefix: string, ids: seq<U32>, target: Ipv4.Addr, probe: string -> Ipv4.Addr)
    requires forall i, j :: 0 <= i < j < |ids| ==> ids[i] < ids[j]
    ensures forall k :: 0 <= k < |Scan(prefix, ids, target, probe)| ==>
      Hostname.IdOf(prefix, Scan(prefix, ids, target, probe)[k].host).Some?
    ensures forall k, l :: 0 <= k < l < |Scan(prefix, ids, target, probe)| ==>
      Hostname.IdOf(prefix, Scan(prefix, ids, target, probe)[k].host).value
        < Hostname.IdOf(prefix, Scan(prefix, ids, target, probe)[l].host).value
    decreases |ids|
  {
    if |ids| > 0 {
      var rest := Scan(prefix, ids[1..], target, probe);
      ScanInIdOrder(prefix, ids[1..], target, probe);
      Hostname.IdOfVpnString(prefix, ids[0]);
      forall k | 0 <= k < |rest|
        ensures Hostname.IdOf(prefix, rest[k].host).value > ids[0]
      {
        RecordFaithful(prefix, ids[1..], target, probe, rest[k]);
        var i :| 0 <= i < |ids[1..]| && rest[k].host == Hostname.VpnString(prefix, ids[1..][i]);
        Hostname.IdOfVpnString(prefix, ids[1..][i]);
        assert ids[1..][i] == ids[i + 1];
      }
    }
  }

  /** An exact match is a non-zero address equal to the target. */
  lemma ClassifyExact(response: Ipv4.Addr, target: Ipv4.Addr)
    ensures Classify(response, target) == Some(Exact) <==> response != Ipv4.Unspecified && response == target
  {
  }

  /** A partial match is an address on the target's /24 that is not an exact
      match; that includes 0.0.0.0 whenever the target lies in 0.0.0.0/24. */
  lemma ClassifyPartial(response: Ipv4.Addr, target: Ipv4.Addr)
    ensures Classify(response, target) == Some(Partial) <==>
      SameNetwork24(response, target) && (response == Ipv4.Unspecified || response != target)
  {
  }

  /** Nothing is reported for an address off the target's /24. */
  lemma ClassifyNone(response: Ipv4.Addr, target: Ipv4.Addr)
    ensures Classify(response, target) == None <==> !SameNetwork24(response, target)
  {
  }

  /** For a resolved (non-zero) address, a partial match differs from the
      target in the last octet only. */
  lemma PartialDiffersInLastOctet(response: Ipv4.Addr, target: Ipv4.Addr)
    requires response != Ipv4.Unspecified
    ensures Classify(response, target) == Some(Partial) <==>
      SameNetwork24(response, target) && response.o3 != target.o3
  {
  }

  /** The unresolved address is never an exact match, whatever the target,
      but it is a partial match for every target in 0.0.0.0/24. */
  lemma UnresolvedClassification(target: Ipv4.Addr)
    ensures Classify(Ipv4.Unspecified, target) != Some(Exact)
    ensures Classify(Ipv4.Unspecified, target) == Some(Partial) <==>
      target.o0 == 0 && target.o1 == 0 && target.o2 == 0
  {
  }

  /** A run in which no id produces a record sends nothing. */
  lemma {:induction false} ScanSilent(prefix: string, ids: seq<U32>, target: Ipv4.Addr, probe: string -> Ipv4.Addr)
    requires forall i :: 0 <= i < |ids| ==> Respond(prefix, ids[i], target, probe) == None
    ensures Scan(prefix, ids, target, probe) == []
    decreases |ids|
  {
    if |ids| > 0 {
      assert forall i :: 0 <= i < |ids[1..]| ==> ids[1..][i] == ids[i + 1];
      ScanSilent(prefix, ids[1..], target, probe);
    }
  }

  /** When only the id at position `k` can produce a record, the run sends
      exactly what that id produces. */
  lemma ScanSingleHit(prefix: string, ids: seq<U32>, target: Ipv4.Addr, probe: string -> Ipv4.Addr, k: nat)
    requires k < |ids|
    requires forall i :: 0 <= i < |ids| && i != k ==> Respond(prefix, ids[i], target, probe) == None
    ensures Scan(prefix, ids, target, probe) ==
      match Respond(prefix, ids[k], target, probe)
      case Some(r) => [r]
      case None => []
  {
    var before, after := ids[..k], ids[k + 1..];
    assert ids == before + [ids[k]] + after;
    assert forall i :: 0 <= i < |before| ==> before[i] == ids[i];
    assert forall i :: 0 <= i < |after| ==> after[i] == ids[k + 1 + i];
    ScanSilent(prefix, before, target, probe);
    ScanSilent(prefix, after, target, probe);
    ScanAppend(prefix, before + [ids[k]], after, target, probe);
    ScanAppend(prefix, before, [ids[k]], target, probe);
  }
}
