/** The records exchanged between the coordinator and its workers. They carry
    data only. */
module WorkerModels {
  import opened Prelude
  import Ipv4
  import MatchTypes

  /** One worker's share of the job: the host-name prefix and its ids. */
  datatype WorkerRequest = WorkerRequest(countryCode: string, data: seq<U32>)

  /** A match, sent from a worker back to the coordinator. */
  datatype WorkerResponse = WorkerResponse(matchType: MatchTypes.MatchType, host: string, ip: Ipv4.Addr)

  /** The address every worker compares its lookups against. */
  datatype SearchFilter = SearchFilter(ip: Ipv4.Addr)
}
