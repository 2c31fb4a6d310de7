/** The single-threaded prototype: it scans ids 1 to 1000 under the prefix
    "au", probes each host, collects exact and partial matches in two lists,
    and reports the exact list if it is non-empty, else the partial list,
    else "No Matches". As in the threaded engine, the probe is a parameter. */
module Prototype {
  import opened Prelude
  import Ipv4
  import Decimal
  import Text
  import opened MatchTypes
  import Hostname
  import Ping
  import Worker
  import DataFrame

  const StartNum: U64 := 1
  const EndNum: U64 := 1000
  const Country: string := "au"

  /** The ids the prototype scans, in order. */
  const ScanIds: seq<U64> := DataFrame.Ids(StartNum, EndNum)

  /** The prototype's own `get_vpn_string`, over 64-bit ids. */
  function VpnName(country: string, num: U64): string {
    country + Decimal.Show(num) + ".nordvpn.com"
  }

  /** The prototype's names have the same format as the engine's: where the
      ids fit in 32 bits the two functions agree, and the id is recoverable
      from the name. */
  lemma VpnNameAgreesWithCore(country: string, num: U64)
    ensures num < 0x1_0000_0000 ==> VpnName(country, num) == Hostname.VpnString(country, num)
    ensures Hostname.IdOf(country, VpnName(country, num)) == Some(num)
  {
    Hostname.IdOfName(country, num);
  }

  /** The parse inlined in `z_ping_by_hostname`. */
  function ZPingParse(atoms: string): Result<Ipv4.Addr> {
    var data := Text.Split(atoms, '\n');
    var target := data[0];
    if |target| > 0 then
      match Text.IndexOf(target, '(')
      case None => Panicked(UnwrapOnNone)
      case Some(open) =>
        match Text.IndexOf(target, ')')
        case None => Panicked(UnwrapOnNone)
        case Some(endIdx) =>
          if open + 1 > endIdx then Panicked(SliceStartAfterEnd)
          else match Ipv4.Parse(target[open + 1..endIdx])
            case Some(a) => Ok(a)
            case None => Panicked(AddrParse)
    else match Ipv4.Parse("0.0.0.0")
      case Some(a) => Ok(a)
      case None => Panicked(AddrParse)
  }

  /** The inlined parse behaves exactly like the engine's `parse_ping_result`. */
  lemma ZPingParseAgreesWithCore(atoms: string)
    ensures ZPingParse(atoms) == Ping.ParsePingResult(atoms)
  {
  }

  /** The (host, address) pairs of `ids` whose address classifies as `kind`, in id order. */
  function Matches(ids: seq<U64>, matchIp: Ipv4.Addr, probe: string -> Ipv4.Addr, kind: MatchType): seq<(string, Ipv4.Addr)>
    decreases |ids|
  {
    if |ids| == 0 then []
    else
      var host := VpnName(Country, ids[0]);
      var result := probe(host);
      (if Worker.Classify(result, matchIp) == Some(kind) then [(host, result)] else [])
        + Matches(ids[1..], matchIp, probe, kind)
  }

  /** The scan loop of the prototype's `main` over its ids: the host names it
      probes, in order, and its two result lists. */
  method ScanLoop(vec: seq<U64>, matchIp: Ipv4.Addr, probe: string -> Ipv4.Addr)
    returns (probed: seq<string>, exactMatchOutput: seq<(string, Ipv4.Addr)>, partialMatchOutput: seq<(string, Ipv4.Addr)>)
    ensures |probed| == |vec|
    ensures forall i :: 0 <= i < |vec| ==> probed[i] == VpnName(Country, vec[i])
    ensures exactMatchOutput == Matches(vec, matchIp, probe, Exact)
    ensures partialMatchOutput == Matches(vec, matchIp, probe, Partial)
  {
    probed, exactMatchOutput, partialMatchOutput := [], [], [];
    var i := 0;
    while i < |vec|
      invariant 0 <= i <= |vec|
      invariant |probed| == i
      invariant forall k :: 0 <= k < i ==> probed[k] == VpnName(Country, vec[k])
      invariant exactMatchOutput + Matches(vec[i..], matchIp, probe, Exact) == Matches(vec, matchIp, probe, Exact)
      invariant partialMatchOutput + Matches(vec[i..], matchIp, probe, Partial) == Matches(vec, matchIp, probe, Partial)
    {
      var index := vec[i];
      var vpnName := VpnName(Country, index);
      probed := probed + [vpnName];
      var result := probe(vpnName);
      ghost var exactBefore, partialBefore := exactMatchOutput, partialMatchOutput;
      assert vec[i..][1..] == vec[i + 1..];
      MatchesStep(vec[i..], matchIp, probe);
      if result != Ipv4.Unspecified && result == matchIp {
        exactMatchOutput := exactMatchOutput + [(vpnName, result)];
        assert Matches(vec[i..], matchIp, probe, Exact) == [(vpnName, result)] + Matches(vec[i + 1..], matchIp, probe, Exact);
        assert Matches(vec[i..], matchIp, probe, Partial) == Matches(vec[i + 1..], matchIp, probe, Partial);
        assert exactBefore + ([(vpnName, result)] + Matches(vec[i + 1..], matchIp, probe, Exact))
            == exactMatchOutput + Matches(vec[i + 1..], matchIp, probe, Exact);
      } else if result.o0 == matchIp.o0 && result.o1 == matchIp.o1 && result.o2 == matchIp.o2 {
        partialMatchOutput := partialMatchOutput + [(vpnName, result)];
        assert Matches(vec[i..], matchIp, probe, Partial) == [(vpnName, result)] + Matches(vec[i + 1..], matchIp, probe, Partial);
        assert Matches(vec[i..], matchIp, probe, Exact) == Matches(vec[i + 1..], matchIp, probe, Exact);
        assert partialBefore + ([(vpnName, result)] + Matches(vec[i + 1..], matchIp, probe, Partial))
            == partialMatchOutput + Matches(vec[i + 1..], matchIp, probe, Partial);
      } else {
        assert Matches(vec[i..], matchIp, probe, Exact) == Matches(vec[i + 1..], matchIp, probe, Exact);
        assert Matches(vec[i..], matchIp, probe, Partial) == Matches(vec[i + 1..], matchIp, probe, Partial);
      }
      i := i + 1;
    }
  }

  /** The prototype's `main` up to its report: it visits every id of
      1..=1000 once, in increasing order, and collects the two lists. */
  method ScanRange(matchIp: Ipv4.Addr, probe: string -> Ipv4.Addr)
    returns (probed: seq<string>, exactMatchOutput: seq<(string, Ipv4.Addr)>, partialMatchOutput: seq<(string, Ipv4.Addr)>)
    ensures |probed| == 1000
    ensures forall i :: 0 <= i < 1000 ==> probed[i] == VpnName(Country, i + 1)
    ensures exactMatchOutput == Matches(ScanIds, matchIp, probe, Exact)
    ensures partialMatchOutput == Matches(ScanIds, matchIp, probe, Partial)
  {
    var vec := ScanIds;
    probed, exactMatchOutput, partialMatchOutput := ScanLoop(vec, matchIp, probe);
  }

  /** One step of the scan: the first id's pair goes to the list of its
      classification, and to no other. */
  lemma MatchesStep(ids: seq<U64>, matchIp: Ipv4.Addr, probe: string -> Ipv4.Addr)
    requires |ids| > 0
    ensures var host := VpnName(Country, ids[0]);
      var result := probe(host);
      && Matches(ids, matchIp, probe, Exact)
         == (if result != Ipv4.Unspecified && result == matchIp then [(host, result)] else [])
            + Matches(ids[1..], matchIp, probe, Exact)
      && Matches(ids, matchIp, probe, Partial)
         == (if !(result != Ipv4.Unspecified && result == matchIp) && Worker.SameNetwork24(result, matchIp)
             then [(host, result)] else [])
            + Matches(ids[1..], matchIp, probe, Partial)
  {
  }

  /** What the prototype prints at the end. */
  datatype Report = ExactFound(exact: seq<(string, Ipv4.Addr)>) | PartialFound(partial: seq<(string, Ipv4.Addr)>) | NoMatches

  function ReportOf(exactMatchOutput: seq<(string, Ipv4.Addr)>, partialMatchOutput: seq<(string, Ipv4.Addr)>): Report {
    if |exactMatchOutput| > 0 then ExactFound(exactMatchOutput)
    else if |partialMatchOutput| > 0 then PartialFound(partialMatchOutput)
    else NoMatches
  }

  /** A pair is collected under `kind` exactly when it is the name of some id
      together with the probe's answer for it, and that answer classifies as `kind`. */
  lemma {:induction false} MatchesMembership(ids: seq<U64>, matchIp: Ipv4.Addr, probe: string -> Ipv4.Addr,
                                             kind: MatchType, p: (string, Ipv4.Addr))
    ensures p in Matches(ids, matchIp, probe, kind) <==>
      exists i :: 0 <= i < |ids| && p.0 == VpnName(Country, ids[i]) && p.1 == probe(p.0)
        && Worker.Classify(p.1, matchIp) == Some(kind)
    decreases |ids|
  {
    if |ids| > 0 {
      MatchesMembership(ids[1..], matchIp, probe, kind, p);
      if p in Matches(ids[1..], matchIp, probe, kind) {
        var i :| 0 <= i < |ids[1..]| && p.0 == VpnName(Country, ids[1..][i]) && p.1 == probe(p.0)
          && Worker.Classify(p.1, matchIp) == Some(kind);
        assert ids[i + 1] == ids[1..][i];
      }
      if exists i :: 0 <= i < |ids| && p.0 == VpnName(Country, ids[i]) && p.1 == probe(p.0)
           && Worker.Classify(p.1, matchIp) == Some(kind) {
        var i :| 0 <= i < |ids| && p.0 == VpnName(Country, ids[i]) && p.1 == probe(p.0)
          && Worker.Classify(p.1, matchIp) == Some(kind);
        if i > 0 {
          assert ids[1..][i - 1] == ids[i];
        }
      }
    }
  }

  /** The exact list holds exactly the scanned pairs whose address is
      non-zero and equal to the target; the partial list holds the other
      pairs on the target's /24. No pair is in both lists. */
  lemma MatchListsCharacterised(matchIp: Ipv4.Addr, probe: string -> Ipv4.Addr, p: (string, Ipv4.Addr))
    ensures p in Matches(ScanIds, matchIp, probe, Exact) <==>
      (exists id :: 1 <= id <= 1000 && p.0 == VpnName(Country, id) && p.1 == probe(p.0))
      && p.1 != Ipv4.Unspecified && p.1 == matchIp
    ensures p in Matches(ScanIds, matchIp, probe, Partial) <==>
      (exists id :: 1 <= id <= 1000 && p.0 == VpnName(Country, id) && p.1 == probe(p.0))
      && !(p.1 != Ipv4.Unspecified && p.1 == matchIp) && Worker.SameNetwork24(p.1, matchIp)
    ensures !(p in Matches(ScanIds, matchIp, probe, Exact) && p in Matches(ScanIds, matchIp, probe, Partial))
  {
    MatchesMembership(ScanIds, matchIp, probe, Exact, p);
    MatchesMembership(ScanIds, matchIp, probe, Partial, p);
    if exists id :: 1 <= id <= 1000 && p.0 == VpnName(Country, id) && p.1 == probe(p.0) {
      var id :| 1 <= id <= 1000 && p.0 == VpnName(Country, id) && p.1 == probe(p.0);
      assert ScanIds[id - 1] == id;
    }
  }

  /** How the prototype classifies the probe's answer for one id. */
  function Verdict(matchIp: Ipv4.Addr, probe: string -> Ipv4.Addr, id: U64): Option<MatchType> {
    Worker.Classify(probe(VpnName(Country, id)), matchIp)
  }

  /** A list is non-empty exactly when some scanned id classifies as its kind. */
  lemma {:induction false} MatchesNonEmpty(ids: seq<U64>, matchIp: Ipv4.Addr, probe: string -> Ipv4.Addr, kind: MatchType)
    ensures |Matches(ids, matchIp, probe, kind)| > 0 <==>
      exists i :: 0 <= i < |ids| && Verdict(matchIp, probe, ids[i]) == Some(kind)
    decreases |ids|
  {
    if |ids| > 0 {
      MatchesNonEmpty(ids[1..], matchIp, probe, kind);
      if exists i :: 0 <= i < |ids[1..]| && Verdict(matchIp, probe, ids[1..][i]) == Some(kind) {
        var i :| 0 <= i < |ids[1..]| && Verdict(matchIp, probe, ids[1..][i]) == Some(kind);
        assert ids[i + 1] == ids[1..][i];
      }
      if exists i :: 0 <= i < |ids| && Verdict(matchIp, probe, ids[i]) == Some(kind) {
        var i :| 0 <= i < |ids| && Verdict(matchIp, probe, ids[i]) == Some(kind);
        if i > 0 {
          assert ids[1..][i - 1] == ids[i];
        }
      }
    }
  }

  /** The report's priority: exact matches win whenever any id matches
      exactly; partial matches are reported only when no id matches exactly;
      "No Matches" exactly when no id matches at all. */
  lemma ReportPriority(matchIp: Ipv4.Addr, probe: string -> Ipv4.Addr)
    ensures ReportOf(Matches(ScanIds, matchIp, probe, Exact), Matches(ScanIds, matchIp, probe, Partial)).ExactFound? <==>
      exists id: U64 :: 1 <= id <= 1000 && Verdict(matchIp, probe, id) == Some(Exact)
    ensures ReportOf(Matches(ScanIds, matchIp, probe, Exact), Matches(ScanIds, matchIp, probe, Partial)).PartialFound? <==>
      (forall id: U64 :: 1 <= id <= 1000 ==> Verdict(matchIp, probe, id) != Some(Exact))
      && exists id: U64 :: 1 <= id <= 1000 && Verdict(matchIp, probe, id) == Some(Partial)
    ensures ReportOf(Matches(ScanIds, matchIp, probe, Exact), Matches(ScanIds, matchIp, probe, Partial)).NoMatches? <==>
      forall id: U64 :: 1 <= id <= 1000 ==> Verdict(matchIp, probe, id) == None
  {
    MatchesNonEmpty(ScanIds, matchIp, probe, Exact);
    MatchesNonEmpty(ScanIds, matchIp, probe, Partial);
    ScanIdsRange(matchIp, probe, Exact);
    ScanIdsRange(matchIp, probe, Partial);
    if !forall id: U64 :: 1 <= id <= 1000 ==> Verdict(matchIp, probe, id) == None {
      var id: U64 :| 1 <= id <= 1000 && Verdict(matchIp, probe, id) != None;
      assert Verdict(matchIp, probe, id) == Some(Verdict(matchIp, probe, id).value);
    }
  }

  /** Quantifying over the positions of the scanned ids is quantifying over 1..=1000. */
  lemma ScanIdsRange(matchIp: Ipv4.Addr, probe: string -> Ipv4.Addr, kind: MatchType)
    ensures (exists i :: 0 <= i < |ScanIds| && Verdict(matchIp, probe, ScanIds[i]) == Some(kind))
        <==> (exists id: U64 :: 1 <= id <= 1000 && Verdict(matchIp, probe, id) == Some(kind))
  {
    if exists id: U64 :: 1 <= id <= 1000 && Verdict(matchIp, probe, id) == Some(kind) {
      var id: U64 :| 1 <= id <= 1000 && Verdict(matchIp, probe, id) == Some(kind);
      assert ScanIds[id - 1] == id;
    }
  }
}
