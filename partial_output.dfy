/**
 * `printPartialDNSOutput`: given one cumulative snapshot and the IDs already
 * printed in this run, print every item that is ready and not yet printed, in
 * snapshot order, and mark it printed. An item is ready unless its message is
 * "NO DATA"; an empty message means the node's own output is printed (with the
 * timeout sentinel "-2" replaced by a sentence), any other message is printed
 * as it is.
 */
module PartialOutput {
  import opened Perfops
  import Lines

  /** The message of a node that has not answered yet. */
  const NoData: string := "NO DATA"

  /** The joined output a node reports when its command timed out. */
  const TimeoutSentinel: string := "-2"

  /** What is printed instead of the timeout sentinel. */
  const TimeoutSentence: string :=
    "The command timed-out. It either took too long to execute or we could not connect to your target at all."

  /** One printed entry: the header (node ID, AS number, city, country name) and the body. */
  datatype Record = Record(nodeId: int, asNumber: int, city: string, countryName: string, body: string)

  /** A result is final, and so printable, unless the node is still in flight. */
  predicate IsFinal(r: DnsResult)
  {
    r.message != NoData
  }

  /** The body printed under the header: the output (sentinel substituted) or the status message. */
  function Body(r: DnsResult): string
  {
    if r.message == "" then
      var o := Lines.Join(r.rawOutput);
      if o == TimeoutSentinel then TimeoutSentence else o
    else
      r.message
  }

  /**
   * The record printed for an item: the node's header, then the timeout
   * sentence for the single output line "-2", the joined output lines for any
   * other output, or the status message as it is.
   */
  function Render(item: Item): (rec: Record)
    ensures rec.nodeId == item.result.node.id && rec.asNumber == item.result.node.asNumber
    ensures rec.city == item.result.node.city && rec.countryName == item.result.node.country.name
    ensures var r := item.result;
      rec.body == if r.message == "" && r.rawOutput == [TimeoutSentinel] then TimeoutSentence
                  else if r.message == "" then Lines.Join(r.rawOutput)
                  else r.message
  {
    var n := item.result.node;
    BodyCases(item.result);
    Record(n.id, n.asNumber, n.city, n.country.name, Body(item.result))
  }

  /** The records printed for a sequence of items, in the same order. */
  function RenderAll(items: seq<Item>): seq<Record>
  {
    seq(|items|, i requires 0 <= i < |items| => Render(items[i]))
  }

  /** Rendering two runs of items one after the other renders each in turn. */
  lemma RenderAllAppend(a: seq<Item>, b: seq<Item>)
    ensures RenderAll(a + b) == RenderAll(a) + RenderAll(b)
  {
  }

  /**
   * The body of a node's own output is the timeout sentence when the node
   * reported the single line "-2" and the joined lines otherwise; the body of
   * a status is the message itself.
   */
  lemma BodyCases(r: DnsResult)
    ensures r.message == "" && r.rawOutput == [TimeoutSentinel] ==> Body(r) == TimeoutSentence
    ensures r.message == "" && r.rawOutput != [TimeoutSentinel] ==> Body(r) == Lines.Join(r.rawOutput)
    ensures r.message != "" ==> Body(r) == r.message
  {
    Lines.JoinIsSingleLine(r.rawOutput, TimeoutSentinel);
  }

  /** The IDs of a sequence of items. */
  function Ids(items: seq<Item>): set<string>
  {
    set i | 0 <= i < |items| :: items[i].id
  }

  /** The IDs of the items of a snapshot that are final. */
  function ReadyIds(items: seq<Item>): set<string>
  {
    set i | 0 <= i < |items| && IsFinal(items[i].result) :: items[i].id
  }

  /** No ID occurs twice. */
  predicate DistinctIds(items: seq<Item>)
  {
    forall i, j | 0 <= i < j < |items| :: items[i].id != items[j].id
  }

  /** `a` is `b` with some items left out, the rest in their order. */
  predicate Subsequence(a: seq<Item>, b: seq<Item>)
    decreases |b|
  {
    if a == [] then true
    else if b == [] then false
    else
      || (a[|a| - 1] == b[|b| - 1] && Subsequence(a[..|a| - 1], b[..|b| - 1]))
      || Subsequence(a, b[..|b| - 1])
  }

  /** The state of one pass: the printed IDs and the items printed so far, in order. */
  datatype Pass = Pass(printed: set<string>, emitted: seq<Item>)

  /**
   * One pass over a snapshot's items, starting from the IDs `printed`: the
   * IDs printed afterwards and the items printed by this pass.
   */
  function Dedup(printed: set<string>, items: seq<Item>): Pass
    decreases |items|
  {
    if items == [] then Pass(printed, [])
    else
      var prev := Dedup(printed, items[..|items| - 1]);
      var item := items[|items| - 1];
      if item.id in prev.printed || !IsFinal(item.result) then prev
      else Pass(prev.printed + {item.id}, prev.emitted + [item])
  }

  lemma IdsSnoc(items: seq<Item>, item: Item)
    ensures Ids(items + [item]) == Ids(items) + {item.id}
  {
    var s := items + [item];
    assert s[|items|] == item;
    forall id | id in Ids(items) ensures id in Ids(s) {
      var i :| 0 <= i < |items| && items[i].id == id;
      assert s[i] == items[i];
    }
  }

  lemma ReadyIdsSnoc(items: seq<Item>, item: Item)
    ensures ReadyIds(items + [item]) == ReadyIds(items) + (if IsFinal(item.result) then {item.id} else {})
  {
    var s := items + [item];
    assert s[|items|] == item;
    forall id | id in ReadyIds(items) ensures id in ReadyIds(s) {
      var i :| 0 <= i < |items| && IsFinal(items[i].result) && items[i].id == id;
      assert s[i] == items[i];
    }
  }

  /** A pass marks exactly the IDs it prints, which are the final IDs not printed before. */
  lemma {:induction false} DedupMarksWhatItPrints(printed: set<string>, items: seq<Item>)
    ensures var r := Dedup(printed, items);
      && r.printed == printed + Ids(r.emitted)
      && Ids(r.emitted) == ReadyIds(items) - printed
    decreases |items|
  {
    if items != [] {
      var init, item := items[..|items| - 1], items[|items| - 1];
      assert items == init + [item];
      var prev := Dedup(printed, init);
      DedupMarksWhatItPrints(printed, init);
      ReadyIdsSnoc(init, item);
      if !(item.id in prev.printed || !IsFinal(item.result)) {
        IdsSnoc(prev.emitted, item);
      }
    }
  }

  /** A pass prints only final items whose ID was not printed before, and no ID twice. */
  lemma {:induction false} DedupPrintsFreshOnce(printed: set<string>, items: seq<Item>)
    ensures var r := Dedup(printed, items);
      && (forall i | 0 <= i < |r.emitted| :: r.emitted[i].id !in printed && IsFinal(r.emitted[i].result))
      && DistinctIds(r.emitted)
    decreases |items|
  {
    if items != [] {
      var init, item := items[..|items| - 1], items[|items| - 1];
      var prev := Dedup(printed, init);
      DedupPrintsFreshOnce(printed, init);
      if !(item.id in prev.printed || !IsFinal(item.result)) {
        DedupMarksWhatItPrints(printed, init);
        assert item.id !in Ids(prev.emitted);
      }
    }
  }

  /** Item `j` is final and no earlier item with the same ID is. */
  predicate FirstFinalAt(items: seq<Item>, j: int)
    requires 0 <= j < |items|
  {
    IsFinal(items[j].result) && forall k | 0 <= k < j :: items[k].id == items[j].id ==> !IsFinal(items[k].result)
  }

  /** Each printed item is, in `items`, the first final item with its ID. */
  predicate FirstFinalItems(emitted: seq<Item>, items: seq<Item>)
  {
    forall i | 0 <= i < |emitted| :: exists j | 0 <= j < |items| :: items[j] == emitted[i] && FirstFinalAt(items, j)
  }

  /** When an ID repeats within a snapshot, a pass prints its first final item. */
  lemma {:induction false} DedupPrintsFirstFinal(printed: set<string>, items: seq<Item>)
    ensures FirstFinalItems(Dedup(printed, items).emitted, items)
    decreases |items|
  {
    if items != [] {
      var init, item := items[..|items| - 1], items[|items| - 1];
      assert items == init + [item];
      var prev := Dedup(printed, init);
      var r := Dedup(printed, items);
      DedupPrintsFirstFinal(printed, init);
      forall i | 0 <= i < |prev.emitted|
        ensures exists j | 0 <= j < |items| :: items[j] == prev.emitted[i] && FirstFinalAt(items, j)
      {
        var j :| 0 <= j < |init| && init[j] == prev.emitted[i] && FirstFinalAt(init, j);
        assert items[j] == init[j];
        assert forall k | 0 <= k < j :: items[k] == init[k];
        assert FirstFinalAt(items, j);
      }
      if !(item.id in prev.printed || !IsFinal(item.result)) {
        DedupMarksWhatItPrints(printed, init);
        assert FirstFinalAt(items, |init|);
        assert r.emitted == prev.emitted + [item];
        assert r.emitted[|prev.emitted|] == items[|init|];
      }
    }
  }

  /** A pass prints items in snapshot order. */
  lemma {:induction false} DedupKeepsOrder(printed: set<string>, items: seq<Item>)
    ensures Subsequence(Dedup(printed, items).emitted, items)
    decreases |items|
  {
    if items != [] {
      var init, item := items[..|items| - 1], items[|items| - 1];
      var prev := Dedup(printed, init);
      var r := Dedup(printed, items);
      DedupKeepsOrder(printed, init);
      if item.id in prev.printed || !IsFinal(item.result) {
        if prev.emitted != [] {
          assert Subsequence(r.emitted, init);
        }
      } else {
        assert r.emitted[..|r.emitted| - 1] == prev.emitted;
      }
    }
  }

  /**
   * The positional reference for a pass: keep item `j` of the snapshot exactly
   * when it is the first final item with its ID and that ID was not printed
   * before, in snapshot order.
   */
  function Fresh(printed: set<string>, items: seq<Item>): seq<Item>
    decreases |items|
  {
    if items == [] then []
    else
      var n := |items| - 1;
      Fresh(printed, items[..n]) + (if FirstFinalAt(items, n) && items[n].id !in printed then [items[n]] else [])
  }

  /** A pass prints exactly the items `Fresh` keeps, position by position. */
  lemma {:induction false} DedupIsFresh(printed: set<string>, items: seq<Item>)
    ensures Dedup(printed, items).emitted == Fresh(printed, items)
    decreases |items|
  {
    if items != [] {
      var n := |items| - 1;
      var init, item := items[..n], items[n];
      DedupIsFresh(printed, init);
      DedupMarksWhatItPrints(printed, init);
      if IsFinal(item.result) && item.id !in printed {
        if item.id in ReadyIds(init) {
          var k :| 0 <= k < n && IsFinal(init[k].result) && init[k].id == item.id;
          assert items[k] == init[k];
        } else {
          forall k | 0 <= k < n && items[k].id == item.id
            ensures !IsFinal(items[k].result)
          {
            assert items[k] == init[k];
          }
        }
      }
    }
  }

  /**
   * What one pass does: it prints exactly the final items whose ID was not
   * printed before (the first of them when an ID repeats), each once, in
   * snapshot order; it marks exactly the IDs it prints, so the printed set only
   * grows; a "NO DATA" item is never printed.
   */
  lemma DedupSpec(printed: set<string>, items: seq<Item>)
    ensures var r := Dedup(printed, items);
      && r.printed == printed + Ids(r.emitted)
      && Ids(r.emitted) == ReadyIds(items) - printed
      && (forall i | 0 <= i < |r.emitted| :: r.emitted[i].id !in printed)
      && (forall i | 0 <= i < |r.emitted| :: IsFinal(r.emitted[i].result))
      && DistinctIds(r.emitted)
      && Subsequence(r.emitted, items)
      && FirstFinalItems(r.emitted, items)
  {
    DedupPrintsFirstFinal(printed, items);
    DedupMarksWhatItPrints(printed, items);
    DedupPrintsFreshOnce(printed, items);
    DedupKeepsOrder(printed, items);
  }

  /**
   * A "NO DATA" item whose ID occurs nowhere else in the snapshot is neither
   * printed nor marked: it is still waiting for a later snapshot.
   */
  lemma NoDataStaysPending(printed: set<string>, items: seq<Item>, j: nat)
    requires j < |items| && items[j].result.message == NoData
    requires forall k | 0 <= k < |items| && items[k].id == items[j].id :: k == j
    ensures items[j].id in Dedup(printed, items).printed <==> items[j].id in printed
    ensures forall i | 0 <= i < |Dedup(printed, items).emitted| :: Dedup(printed, items).emitted[i].id != items[j].id
  {
    DedupSpec(printed, items);
    assert items[j].id !in ReadyIds(items);
  }

  /**
   * `printPartialDNSOutput`: walks the snapshot's items in order, skips those
   * already printed, marks and prints the final ones, and returns the printed
   * IDs afterwards together with the records printed by this call.
   */
  method PrintPartialDnsOutput(output: Snapshot, printedIds: set<string>)
    returns (printedAfter: set<string>, printedRecords: seq<Record>)
    ensures printedAfter == Dedup(printedIds, output.items).printed
    ensures printedRecords == RenderAll(Dedup(printedIds, output.items).emitted)
  {
    var items := output.items;
    printedAfter, printedRecords := printedIds, [];
    ghost var emitted: seq<Item> := [];
    for i := 0 to |items|
      invariant Dedup(printedIds, items[..i]) == Pass(printedAfter, emitted)
      invariant printedRecords == RenderAll(emitted)
    {
      var item := items[i];
      assert items[..i + 1] == items[..i] + [item];
      assert (items[..i] + [item])[..i] == items[..i];
      if item.id !in printedAfter {
        var r := item.result;
        var n := r.node;
        if r.message == "" {
          printedAfter := printedAfter + {item.id};
          var o := Lines.Join(r.rawOutput);
          if o == TimeoutSentinel {
            o := TimeoutSentence;
          }
          printedRecords := printedRecords + [Record(n.id, n.asNumber, n.city, n.country.name, o)];
          RenderAllAppend(emitted, [item]);
          emitted := emitted + [item];
        } else if r.message != NoData {
          printedAfter := printedAfter + {item.id};
          printedRecords := printedRecords + [Record(n.id, n.asNumber, n.city, n.country.name, r.message)];
          RenderAllAppend(emitted, [item]);
          emitted := emitted + [item];
        }
      }
    }
    assert items[..|items|] == items;
  }
}
