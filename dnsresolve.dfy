/**
 * `runDNSResolve`: submit the test once, then fetch its cumulative output over
 * and over, printing each poll's newly ready items (text mode) until a
 * snapshot says the test is finished; in JSON mode only the final snapshot is
 * printed, as one document. The first client error ends the run with that
 * error. The client's answers are given as inputs: the submission's outcome and
 * the responses the successive fetches return, in order.
 */
module DnsResolve {
  import opened Perfops
  import opened PartialOutput

  datatype Option<T> = None | Some(value: T)

  /** What the run writes to standard output: a node's record, or the final snapshot as JSON. */
  datatype Output = NodeText(record: Record) | JsonDocument(snapshot: Snapshot)

  /** The records as printed text, in order. */
  function Texts(records: seq<Record>): seq<Output>
  {
    seq(|records|, i requires 0 <= i < |records| => NodeText(records[i]))
  }

  /** Printing two runs of records one after the other prints each in turn. */
  lemma TextsAppend(a: seq<Record>, b: seq<Record>)
    ensures Texts(a + b) == Texts(a) + Texts(b)
  {
  }

  /** A response ends the polling loop: a fetch error, or a finished snapshot. */
  predicate Stops(response: FetchResponse)
  {
    response.FetchFailed? || response.snapshot.finished
  }

  /** Some response ends the loop. */
  predicate EventuallyStops(responses: seq<FetchResponse>)
  {
    exists i | 0 <= i < |responses| :: Stops(responses[i])
  }

  /** The index of the first response that ends the loop. */
  function FirstStop(responses: seq<FetchResponse>): (k: nat)
    requires EventuallyStops(responses)
    ensures k < |responses| && Stops(responses[k])
    ensures forall j | 0 <= j < k :: !Stops(responses[j])
    decreases |responses|
  {
    if Stops(responses[0]) then 0
    else
      assert EventuallyStops(responses[1..]) by {
        var i :| 0 <= i < |responses| && Stops(responses[i]);
        assert i != 0 && responses[1..][i - 1] == responses[i];
      }
      1 + FirstStop(responses[1..])
  }

  /** The snapshots the first `n` fetches returned, all of them successful. */
  function Snapshots(responses: seq<FetchResponse>, n: nat): seq<Snapshot>
    requires n <= |responses|
    requires forall j | 0 <= j < n :: responses[j].Fetched?
  {
    seq(n, j requires 0 <= j < n => responses[j].snapshot)
  }

  /** One more successful fetch appends its snapshot to those fed to the deduplicator. */
  lemma SnapshotsSnoc(responses: seq<FetchResponse>, n: nat)
    requires n < |responses|
    requires forall j | 0 <= j <= n :: responses[j].Fetched?
    ensures Snapshots(responses, n + 1) == Snapshots(responses, n) + [responses[n].snapshot]
  {
  }

  /**
   * The state after feeding the snapshots, in order, to one deduplicator that
   * starts with no printed IDs: the printed IDs and every item printed so far.
   */
  function Run(snaps: seq<Snapshot>): Pass
    decreases |snaps|
  {
    if snaps == [] then Pass({}, [])
    else
      var prev := Run(snaps[..|snaps| - 1]);
      var pass := Dedup(prev.printed, snaps[|snaps| - 1].items);
      Pass(pass.printed, prev.emitted + pass.emitted)
  }

  /** The IDs that are final in at least one of the snapshots. */
  function AllReadyIds(snaps: seq<Snapshot>): set<string>
    decreases |snaps|
  {
    if snaps == [] then {}
    else AllReadyIds(snaps[..|snaps| - 1]) + ReadyIds(snaps[|snaps| - 1].items)
  }

  lemma RunSnoc(snaps: seq<Snapshot>, s: Snapshot)
    ensures Run(snaps + [s]) == Pass(Dedup(Run(snaps).printed, s.items).printed,
                                     Run(snaps).emitted + Dedup(Run(snaps).printed, s.items).emitted)
    ensures AllReadyIds(snaps + [s]) == AllReadyIds(snaps) + ReadyIds(s.items)
  {
  }

  /**
   * Over a whole run: every ID is printed at most once, the printed IDs are
   * exactly the IDs printed, which are exactly the IDs that were final in some
   * snapshot, and no "NO DATA" item is ever printed.
   */
  lemma {:induction false} RunSpec(snaps: seq<Snapshot>)
    ensures var r := Run(snaps);
      && r.printed == Ids(r.emitted)
      && r.printed == AllReadyIds(snaps)
      && DistinctIds(r.emitted)
      && (forall i | 0 <= i < |r.emitted| :: IsFinal(r.emitted[i].result))
    decreases |snaps|
  {
    if snaps != [] {
      var init, s := snaps[..|snaps| - 1], snaps[|snaps| - 1];
      assert snaps == init + [s];
      RunSpec(init);
      RunSnoc(init, s);
      var prev := Run(init);
      var pass := Dedup(prev.printed, s.items);
      DedupSpec(prev.printed, s.items);
      IdsAppend(prev.emitted, pass.emitted);
      var all := prev.emitted + pass.emitted;
      forall i, j | 0 <= i < j < |all| ensures all[i].id != all[j].id {
        if j >= |prev.emitted| {
          assert all[j] == pass.emitted[j - |prev.emitted|];
          if i < |prev.emitted| {
            assert all[i].id in Ids(prev.emitted);
          } else {
            assert all[i] == pass.emitted[i - |prev.emitted|];
          }
        }
      }
      forall i | 0 <= i < |all| ensures IsFinal(all[i].result) {
        if i >= |prev.emitted| {
          assert all[i] == pass.emitted[i - |prev.emitted|];
        }
      }
    }
  }

  lemma IdsAppend(a: seq<Item>, b: seq<Item>)
    ensures Ids(a + b) == Ids(a) + Ids(b)
  {
    var s := a + b;
    forall id | id in Ids(a) + Ids(b) ensures id in Ids(s) {
      if id in Ids(a) {
        var i :| 0 <= i < |a| && a[i].id == id;
        assert s[i] == a[i];
      } else {
        var i :| 0 <= i < |b| && b[i].id == id;
        assert s[|a| + i] == b[i];
      }
    }
  }

  /**
   * An ID is printed at the first poll in which it is final: it was not
   * printed before that poll, and that poll prints it.
   */
  lemma FirstReadyPollPrintsIt(snaps: seq<Snapshot>, s: Snapshot, id: string)
    requires id !in AllReadyIds(snaps) && id in ReadyIds(s.items)
    ensures id !in Ids(Run(snaps).emitted)
    ensures id in Ids(Dedup(Run(snaps).printed, s.items).emitted)
    ensures Run(snaps + [s]).emitted == Run(snaps).emitted + Dedup(Run(snaps).printed, s.items).emitted
  {
    RunSpec(snaps);
    RunSnoc(snaps, s);
    DedupSpec(Run(snaps).printed, s.items);
  }

  /** Later polls never take back what earlier polls printed or marked. */
  lemma {:induction false} RunNeverRetracts(snaps: seq<Snapshot>, more: seq<Snapshot>)
    ensures Run(snaps).emitted <= Run(snaps + more).emitted
    ensures Run(snaps).printed <= Run(snaps + more).printed
    decreases |more|
  {
    if more == [] {
      assert snaps + more == snaps;
    } else {
      var init, s := more[..|more| - 1], more[|more| - 1];
      assert snaps + more == (snaps + init) + [s];
      RunNeverRetracts(snaps, init);
      RunSnoc(snaps + init, s);
      DedupSpec(Run(snaps + init).printed, s.items);
    }
  }

  /**
   * A node still in flight prints nothing; once it answers, it is printed
   * together with another node's status; replaying both in a finished
   * snapshot prints nothing more.
   */
  lemma {:induction false} PendingThenReadyThenReplay(node: Node, output: seq<string>)
    ensures var pending := Item("1", DnsResult(node, NoData, []));
      var answered := Item("1", DnsResult(node, "", output));
      var status := Item("2", DnsResult(node, "Node unreachable", []));
      var a := Snapshot([pending], false);
      var b := Snapshot([answered, status], false);
      var c := Snapshot([answered, status], true);
      && Run([a]).emitted == []
      && Run([a, b]).emitted == [answered, status]
      && Run([a, b, c]).emitted == [answered, status]
  {
    var pending := Item("1", DnsResult(node, NoData, []));
    var answered := Item("1", DnsResult(node, "", output));
    var status := Item("2", DnsResult(node, "Node unreachable", []));
    var a := Snapshot([pending], false);
    var b := Snapshot([answered, status], false);
    var c := Snapshot([answered, status], true);
    RunSnoc([], a);
    assert [a][..0] == [];
    assert [answered, status][..1] == [answered];
    assert [answered][..0] == [];
    assert "1" != "2";
    RunSnoc([a], b);
    assert [a] + [b] == [a, b];
    RunSnoc([a, b], c);
    assert [a, b] + [c] == [a, b, c];
    var seen := Run([a, b]).printed;
    assert "1" in seen && "2" in seen;
    assert Dedup(seen, [answered]) == Pass(seen, []);
    assert Dedup(seen, [answered, status]) == Pass(seen, []);
  }

  /** What text mode has printed after the first `n` fetches, all of them successful. */
  function PrintedText(responses: seq<FetchResponse>, n: nat): seq<Output>
    requires n <= |responses|
    requires forall j | 0 <= j < n :: responses[j].Fetched?
  {
    Texts(RenderAll(Run(Snapshots(responses, n)).emitted))
  }

  /** One more successful fetch adds the records of one deduplicating pass over its snapshot. */
  lemma PollStep(responses: seq<FetchResponse>, n: nat)
    requires n < |responses|
    requires forall j | 0 <= j <= n :: responses[j].Fetched?
    ensures var pass := Dedup(Run(Snapshots(responses, n)).printed, responses[n].snapshot.items);
      && Run(Snapshots(responses, n + 1)).printed == pass.printed
      && PrintedText(responses, n + 1) == PrintedText(responses, n) + Texts(RenderAll(pass.emitted))
  {
    var before := Snapshots(responses, n);
    var s := responses[n].snapshot;
    SnapshotsSnoc(responses, n);
    RunSnoc(before, s);
    var prev := Run(before);
    var pass := Dedup(prev.printed, s.items);
    RenderAllAppend(prev.emitted, pass.emitted);
    TextsAppend(RenderAll(prev.emitted), RenderAll(pass.emitted));
  }

  /**
   * The polling loop of `runDNSResolve`: fetch until a snapshot is finished or
   * a fetch fails, printing each poll's newly ready items in text mode and only
   * the final snapshot in JSON mode. Returns the error the loop ends with, how
   * many fetches it made, and what it wrote to standard output.
   */
  method PollUntilFinished(responses: seq<FetchResponse>, outputJson: bool)
    returns (err: Option<string>, fetches: nat, stdout: seq<Output>)
    requires EventuallyStops(responses)
    ensures fetches == FirstStop(responses) + 1
    ensures responses[fetches - 1].FetchFailed? ==>
      && err == Some(responses[fetches - 1].error)
      && stdout == if outputJson then [] else PrintedText(responses, fetches - 1)
    ensures responses[fetches - 1].Fetched? ==>
      && err == None
      && stdout == if outputJson then [JsonDocument(responses[fetches - 1].snapshot)] else PrintedText(responses, fetches)
  {
    ghost var k := FirstStop(responses);
    var output := Snapshot([], false);
    var printedIds: set<string> := {};
    fetches, stdout := 0, [];
    while true
      invariant fetches <= k
      invariant forall j | 0 <= j < fetches :: responses[j].Fetched?
      invariant outputJson ==> stdout == []
      invariant !outputJson ==>
        && printedIds == Run(Snapshots(responses, fetches)).printed
        && stdout == PrintedText(responses, fetches)
      decreases k - fetches
    {
      var response := responses[fetches];
      fetches := fetches + 1;
      if response.FetchFailed? {
        assert Stops(responses[fetches - 1]) && fetches - 1 == k;
        return Some(response.error), fetches, stdout;
      }
      output := response.snapshot;
      if !outputJson {
        PollStep(responses, fetches - 1);
        var printed, records := PrintPartialDnsOutput(output, printedIds);
        printedIds := printed;
        stdout := stdout + Texts(records);
      }
      if output.finished {
        assert Stops(responses[fetches - 1]) && fetches - 1 == k;
        break;
      }
    }
    if outputJson {
      stdout := [JsonDocument(output)];
    }
    err := None;
  }

  /**
   * `runDNSResolve` after the request is built: submit, and on success run the
   * polling loop. A failed submission fetches nothing and prints nothing.
   */
  method RunDnsResolve(submission: Submission, responses: seq<FetchResponse>, outputJson: bool)
    returns (err: Option<string>, fetches: nat, stdout: seq<Output>)
    requires submission.Submitted? ==> EventuallyStops(responses)
    ensures submission.SubmitFailed? ==> err == Some(submission.error) && fetches == 0 && stdout == []
    ensures submission.Submitted? ==>
      var k := FirstStop(responses);
      && fetches == k + 1
      && (responses[k].FetchFailed? ==>
            && err == Some(responses[k].error)
            && stdout == if outputJson then [] else PrintedText(responses, k))
      && (responses[k].Fetched? ==>
            && err == None
            && stdout == if outputJson then [JsonDocument(responses[k].snapshot)] else PrintedText(responses, k + 1))
  {
    if submission.SubmitFailed? {
      return Some(submission.error), 0, [];
    }
    err, fetches, stdout := PollUntilFinished(responses, outputJson);
  }
}
