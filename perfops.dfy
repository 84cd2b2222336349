/**
 * The values the perfops client hands to the `resolve` command: the cumulative
 * snapshot of a DNS-resolve test and the per-node results inside it, and the
 * two remote calls (submit, fetch a snapshot) as the values they return.
 */
module Perfops {

  /** A country as the platform describes it; only its name is shown. */
  datatype Country = Country(name: string)

  /** The probe node that ran the test. */
  datatype Node = Node(id: int, asNumber: int, city: string, country: Country)

  /**
   * One node's result. `message` is empty when the node produced real output;
   * otherwise it is a status ("NO DATA" while the node is still in flight).
   * `rawOutput` is what `ResolveOutput()` returns: the output lines.
   */
  datatype DnsResult = DnsResult(node: Node, message: string, rawOutput: seq<string>)

  /** An item of a snapshot: the result of one node, under an ID stable across polls. */
  datatype Item = Item(id: string, result: DnsResult)

  /** What one fetch returns: every item collected so far and whether the test is finished. */
  datatype Snapshot = Snapshot(items: seq<Item>, finished: bool)

  /** The outcome of submitting the test: a test ID or the client's error. */
  datatype Submission = Submitted(testId: string) | SubmitFailed(error: string)

  /** The outcome of one fetch of the test's output: a snapshot or the client's error. */
  datatype FetchResponse = Fetched(snapshot: Snapshot) | FetchFailed(error: string)
}
