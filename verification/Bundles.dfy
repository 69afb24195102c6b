/** The decision bundle: the values the responder answers from. */
module Bundles {

  datatype Option<+T> = None | Some(value: T)

  /** One resolved endpoint of a record. */
  datatype Answer = Answer(ip: string, port: int)

  /** One ordered option of a record's candidate walk, with the pushed health. */
  datatype Candidate = Candidate(cluster: string, targetKey: string, health: string, answers: seq<Answer>)

  /** One target this cluster's responder probes itself. */
  datatype LocalCheck = LocalCheck(
    targetKey: string, probe: string, host: string, port: int, path: string,
    namespace: string, service: string,
    intervalMs: int, failureThreshold: int, recoveryThreshold: int)

  /** `candidates` is None when the JSON key is absent (a v1.0 record), which
      differs from a present but empty list. */
  datatype Record = Record(
    fqdn: string, ttl: int, state: string, mode: string,
    answers: seq<Answer>, candidates: Option<seq<Candidate>>, localChecks: seq<LocalCheck>)

  datatype Bundle = Bundle(
    protocolVersion: int, domain: string, generatedAt: string, contentHash: string,
    records: seq<Record>)

  const STATE_OK := "ok"
  const STATE_DEGRADED := "degraded"
  const MODE_ALL := "all"
  const HEALTHY := "healthy"
  const UNHEALTHY := "unhealthy"
  const UNKNOWN := "unknown"
}
