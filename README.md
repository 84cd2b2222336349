# perfops-cli `resolve`: polling and de-duplicating per-node results

The `resolve` command of perfops-cli submits a DNS-resolve test to the PerfOps
measurement platform, which runs it on many probe nodes. It then fetches the
test's output every 500 ms. Each fetch returns a cumulative snapshot of every
node result collected so far, plus a finished flag. After each fetch, the
command prints each node result that is ready and has not been printed yet.
It stops after the first finished snapshot, or returns the first client error.

A result is ready unless its message is `"NO DATA"`, which means the node is
still in flight. An empty message means the node produced output. In that case
the output lines are joined with newlines, and the timeout sentinel `"-2"` is
replaced by a fixed sentence. Any other message is a final status and is
printed as it is. Each printed entry has a header (node ID, AS number, city,
country name) and that body. In JSON mode nothing is printed per poll. Only the
final snapshot is written, as one document.

The project has four modules:

- `Perfops` (`perfops.dfy`): the values the client returns. These are the
  snapshot, its items, node results and nodes, the outcome of submitting, and
  the outcome of one fetch.
- `Lines` (`lines.dfy`): `strings.Join(lines, "\n")` and its inverse
  `strings.Split(s, "\n")`. Both round trips are proved. So is the fact that
  the joined text is `"-2"` exactly when the node reported the one line `"-2"`.
- `PartialOutput` (`partial_output.dfy`): `printPartialDNSOutput`. The method
  `PrintPartialDnsOutput` walks the items with a loop, as the source does. It
  is proved against `Dedup`, a function that describes one pass item by item.
  `DedupSpec` then states what a pass does, and `DedupIsFresh` pins down
  which positions of the snapshot it prints.
- `DnsResolve` (`dnsresolve.dfy`): `runDNSResolve`. The method
  `RunDnsResolve` submits and then runs the polling loop, `PollUntilFinished`,
  which is proved against `FirstStop` (which fetch ends the
  loop) and `Run` (the deduplicator fed every snapshot in turn). The lemmas
  about `Run` give the properties of a whole run: at most one print per ID,
  printing at the first poll where an item is ready, and nothing retracted.

The remote calls are inputs. The submission's outcome is a `Submission` value.
The answers to the successive fetches are a sequence of `FetchResponse` values,
consumed in order. Standard output is the returned sequence of `Output` values.
The lemmas hold for any sequence of snapshots. They do not rely on the
platform's promise that each snapshot extends the previous one.

## Model

| member | source | states |
|---|---|---|
| `PartialOutput.PrintPartialDnsOutput` | cmd/dnsresolve.go:117-136 | The loop over the snapshot's items returns the same printed-ID set and the same records, in order, as one `Dedup` pass from the given set |
| `PartialOutput.DedupSpec` | cmd/dnsresolve.go:118-135 | One pass prints exactly the IDs that are final in the snapshot and were not printed before. It prints each such ID once, never an already-printed ID, never a "NO DATA" item, and keeps snapshot order. When an ID repeats in the snapshot, the item printed is its first final one. The printed set grows by exactly the IDs it prints |
| `PartialOutput.DedupIsFresh` | cmd/dnsresolve.go:118-135 | The items one pass prints are, position by position and in snapshot order, exactly the snapshot items that are the first final item with their ID and whose ID was not printed before. So when an ID repeats, the later copies are never printed |
| `PartialOutput.NoDataStaysPending` | cmd/dnsresolve.go:124-134 | An item whose message is "NO DATA", and whose ID occurs only once in the snapshot, is not printed. Its ID is marked afterwards only if it was marked before, so a later poll can still print it |
| `PartialOutput.BodyCases` | cmd/dnsresolve.go:124-133 | Output whose lines are exactly ["-2"] prints the fixed timeout sentence. Any other output prints its newline-joined lines unchanged. A non-empty message prints verbatim |
| `PartialOutput.Render` | cmd/dnsresolve.go:124-133 | A printed record's header is the node ID, AS number, city and country name, in that order. Its body is the timeout sentence when the message is empty and the output is the single line "-2", the newline-joined output for any other empty-message result, and the message verbatim otherwise |
| `Lines.JoinIsSingleLine` | cmd/dnsresolve.go:103-104 | Joining lines with "\n" gives a given non-empty, newline-free text exactly when the lines are that one text |
| `Lines.SplitJoin` | cmd/dnsresolve.go:104 | Splitting at newlines undoes the join for one or more newline-free lines |
| `Lines.JoinSplit` | cmd/dnsresolve.go:104 | Joining undoes splitting for every text |
| `DnsResolve.FirstStop` | cmd/dnsresolve.go:95-110 | The index of the first response that is a fetch error or a finished snapshot; no earlier response is either |
| `DnsResolve.PollUntilFinished` | cmd/dnsresolve.go:87-114 | The loop fetches exactly up to the first error or finished snapshot. An error returns that error and keeps what earlier polls printed. A finished snapshot returns no error. Text mode prints the records of all passes in order; JSON mode prints nothing per poll and then only the final snapshot, and nothing at all on error |
| `DnsResolve.RunDnsResolve` | cmd/dnsresolve.go:62-114 | A failed submission returns its error with no fetch and no output. A successful one gives the outcome, fetch count and output of the polling loop above |
| `DnsResolve.PollStep` | cmd/dnsresolve.go:95-106 | One more successful fetch appends the records of one pass over its snapshot, started from the IDs printed so far |
| `DnsResolve.RunSpec` | cmd/dnsresolve.go:87-110 | Over a whole run, starting from an empty set, no ID is printed twice. The printed set is exactly the printed IDs, which are exactly the IDs final in some snapshot. No "NO DATA" item is ever printed |
| `DnsResolve.FirstReadyPollPrintsIt` | cmd/dnsresolve.go:101-106 | An ID that was final in no earlier snapshot but is final in this one was not printed before, and this poll prints it |
| `DnsResolve.RunNeverRetracts` | cmd/dnsresolve.go:88-110 | Later polls only extend the printed records and the printed-ID set |
| `DnsResolve.PendingThenReadyThenReplay` | cmd/dnsresolve.go:117-136 | A node answering "NO DATA" prints nothing. When it answers in the next poll, it is printed with another node's status, in item order. A finished snapshot that repeats both prints nothing more |

## Left out

- The cobra command, its flags and `initDNSResolveCmd` (cmd/dnsresolve.go:28-60) are command-line wiring and are not modelled.
- Building the `DNSResolveRequest` (cmd/dnsresolve.go:63-71) is not modelled. The request's fields reach only the client, and the client's answer to the submission is an input.
- The client calls `c.Run.DNSResolve`, `c.Run.DNSResolveOutput`, `ResolveOutput()` and `output.IsFinished()` are not part of this model. Their results are inputs: `IsFinished()` is the snapshot's `finished` field. Every fetch is taken to be for the submitted test ID.
- Nil pointers are not modelled. The Go code would panic on a nil snapshot or a nil `item.Result` (cmd/dnsresolve.go:107, :122-123). The datatypes always hold a value there, so that panic is not captured.
- The spinner, the blank `fmt.Println` line, the 500 ms wait and `context.Background()` are display and timing only and are left out.
- The debug line "Test ID: …" (cmd/dnsresolve.go:83-85) is a diagnostic print and is left out.
- The printf format and the JSON encoding of `internal.PrintOutputJSON` are left out. A printed entry is a `Record` and the JSON document is the `Snapshot` value itself.
- `printedIDs` is a Go `map[string]bool` that starts empty and is only ever set to `true`, so it is a `set<string>`. It is passed to `PrintPartialDnsOutput` and returned, instead of being updated in place. No one else holds the map, so no aliasing is lost.
- PollUntilFinished: the source loops forever if no fetch fails and no snapshot is ever finished. The model requires that some response ends the loop, so the non-terminating run is not modelled.
- RunDnsResolve: the source loops forever if no fetch fails and no snapshot is ever finished. When the submission succeeds, the model requires that some response ends the loop, so the non-terminating run is not modelled.
