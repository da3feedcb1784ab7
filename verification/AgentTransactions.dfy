// Transaction polling of the agent adapter, pwa/composables/usePwaAgentAdapter.ts: the id list, the
// layers asked, and the status drawn from the answers.

module AgentTransactions {
  import opened Basics
  import opened JsonValues
  import opened JavaScript
  import opened AgentGate

  datatype Layer = BtcL1 | Satsnet

  /** What the indexer answers about one transaction on one layer; Unknown when the query itself failed. */
  datatype TxStatus = Confirmed | Broadcast | NotIndexed | Unknown

  predicate Visible(s: TxStatus) { s == Confirmed || s == Broadcast }

  datatype Summary = AllConfirmed | SomeBroadcast | NoneVisible

  /** Array.from(new Set(items)): first occurrences, in order. */
  function Unique(items: seq<string>): (r: seq<string>)
    ensures r == [] <==> items == []
  {
    if items == [] then []
    else
      var before := Unique(items[..|items| - 1]);
      var last := items[|items| - 1];
      if last in before then before else before + [last]
  }

  /** Nothing lost, nothing twice, and first come first kept. */
  lemma {:induction false} UniqueKeeps(items: seq<string>)
    ensures forall x :: x in Unique(items) <==> x in items
    ensures forall i, j :: 0 <= i < j < |Unique(items)| ==> Unique(items)[i] != Unique(items)[j]
    ensures forall k :: 0 <= k < |items| ==> Unique(items[..k]) <= Unique(items)
  {
    if items == [] {
    } else {
      var n := |items| - 1;
      UniqueKeeps(items[..n]);
      assert items == items[..n] + [items[n]];
      forall k | 0 <= k < |items|
        ensures Unique(items[..k]) <= Unique(items)
      {
        if k < n {
          assert items[..n][..k] == items[..k];
        }
      }
    }
  }

  function NormalizeLayer(params: Params): Option<Layer> {
    var raw := First(params, ["layer", "chain"]);
    if raw == JNull then Some(BtcL1)
    else match StringOf(raw)
      case Some(s) => Some(if ToLowerCase(s) in {"satsnet", "satoshinet", "l2", "satnet"} then Satsnet else BtcL1)
      case None => None
  }

  /** The ids asked for: the non-empty entries of tx_ids, then the single id; None when String() throws. */
  function AskedIds(params: Params): Option<seq<string>> {
    var listed := AsStringArray(Field(params, "tx_ids"));
    var raw := First(params, ["transaction_id", "txid"]);
    var single := if raw == JNull then Some("") else StringOf(raw);
    if listed.None? || single.None? then None
    else Some(listed.value + if Trim(single.value) == "" then [] else [Trim(single.value)])
  }

  /** The single id asked for, trimmed; empty when there is none. */
  predicate SingleArgument(params: Params, id: string) {
    if Given(params, "transaction_id") then Spells(params["transaction_id"], id)
    else if Given(params, "txid") then Spells(params["txid"], id)
    else id == ""
  }

  /** The ids asked for are the listed ones and then the single one, when both can be read. */
  lemma IdsAsked(params: Params)
    ensures forall listed, id :: ListArgument(params, "tx_ids", listed) && SingleArgument(params, id) ==>
              AskedIds(params) == Some(listed + if id == "" then [] else [id])
    ensures AskedIds(params).Some? ==>
              exists listed, id :: ListArgument(params, "tx_ids", listed) && SingleArgument(params, id)
  {
    hide StringOf, Trim, AsStringArray, ListArgument;
    FirstGiven(params, "transaction_id", ["txid"]);
    FirstGiven(params, "txid", []);
    assert ["transaction_id"] + ["txid"] == ["transaction_id", "txid"] && ["txid"] + [] == ["txid"];
    assert Trim("") == "" by { EmptyTrims(); }
    forall listed
      ensures AsStringArray(Field(params, "tx_ids")) == Some(listed) <==> ListArgument(params, "tx_ids", listed)
    {
      ListRead(params, "tx_ids", listed);
    }
    if AskedIds(params).Some? {
      var raw := First(params, ["transaction_id", "txid"]);
      var single := if raw == JNull then Some("") else StringOf(raw);
      assert ListArgument(params, "tx_ids", AsStringArray(Field(params, "tx_ids")).value);
      assert SingleArgument(params, Trim(single.value));
    }
  }

  lemma EmptyTrims()
    ensures Trim("") == ""
  {
  }

  /** The layers asked: both for a channel transaction that names none, else the one named, Bitcoin by default. */
  lemma LayersAsked(operation: string, params: Params)
    ensures operation == "stp.transaction" && !("layer" in params && Truthy(params["layer"]))
            && LayersFor(operation, params).Some? ==>
              LayersFor(operation, params) == Some([BtcL1, Satsnet])
    ensures !(operation == "stp.transaction" && !("layer" in params && Truthy(params["layer"]))) ==>
              var named := if Given(params, "layer") then StringOf(params["layer"])
                           else if Given(params, "chain") then StringOf(params["chain"]) else Some("");
              LayersFor(operation, params) ==
                match named
                case None => None
                case Some(s) =>
                  Some([if ToLowerCase(s) in {"satsnet", "satoshinet", "l2", "satnet"} then Satsnet else BtcL1])
  {
    hide StringOf, ToLowerCase;
    FirstGiven(params, "layer", ["chain"]);
    FirstGiven(params, "chain", []);
    assert ["layer"] + ["chain"] == ["layer", "chain"] && ["chain"] + [] == ["chain"];
    assert ToLowerCase("") == "" by { EmptyLower(); }
  }

  lemma EmptyLower()
    ensures ToLowerCase("") == ""
  {
  }

  method TxIdList(params: Params) returns (ids: Option<seq<string>>)
    ensures ids == match AskedIds(params) case None => None case Some(asked) => Some(Unique(asked))
  {
    hide AsStringArray, First, StringOf, Trim;
    var asked := AskedIds(params);
    if asked.None? {
      return None;
    }
    var kept := [];
    for i := 0 to |asked.value|
      invariant kept == Unique(asked.value[..i])
    {
      assert asked.value[..i + 1][..i] == asked.value[..i];
      if asked.value[i] !in kept {
        kept := kept + [asked.value[i]];
      }
    }
    assert asked.value[..|asked.value|] == asked.value;
    ids := Some(kept);
  }

  /** Every id on every layer, ids first. */
  function Queries(ids: seq<string>, layers: seq<Layer>): (r: seq<(string, Layer)>)
    ensures |r| == |ids| * |layers|
  {
    if ids == [] then []
    else
      Queries(ids[..|ids| - 1], layers)
      + seq(|layers|, i requires 0 <= i < |layers| => (ids[|ids| - 1], layers[i]))
  }

  function Answers(queries: seq<(string, Layer)>, indexer: (string, Layer) -> TxStatus): (r: seq<TxStatus>)
    ensures |r| == |queries|
  {
    seq(|queries|, i requires 0 <= i < |queries| => indexer(queries[i].0, queries[i].1))
  }

  method QueryAll(ids: seq<string>, layers: seq<Layer>, indexer: (string, Layer) -> TxStatus)
    returns (statuses: seq<TxStatus>)
    ensures statuses == Answers(Queries(ids, layers), indexer)
  {
    statuses := [];
    for i := 0 to |ids|
      invariant statuses == Answers(Queries(ids[..i], layers), indexer)
    {
      var before := statuses;
      for j := 0 to |layers|
        invariant statuses == before + seq(j, k requires 0 <= k < j => indexer(ids[i], layers[k]))
      {
        statuses := statuses + [indexer(ids[i], layers[j])];
      }
      assert ids[..i + 1][..i] == ids[..i];
      assert Queries(ids[..i + 1], layers) ==
            Queries(ids[..i], layers) + seq(|layers|, k requires 0 <= k < |layers| => (ids[i], layers[k]));
    }
    assert ids[..|ids|] == ids;
  }

  /** The queries are the full product of ids and layers. */
  lemma {:induction false} QueriesComplete(ids: seq<string>, layers: seq<Layer>, id: string, layer: Layer)
    ensures (id, layer) in Queries(ids, layers) <==> id in ids && layer in layers
  {
    if ids == [] {
    } else {
      var n := |ids| - 1;
      QueriesComplete(ids[..n], layers, id, layer);
      assert ids == ids[..n] + [ids[n]];
      var row := seq(|layers|, i requires 0 <= i < |layers| => (ids[n], layers[i]));
      if id == ids[n] && layer in layers {
        var i :| 0 <= i < |layers| && layers[i] == layer;
        assert row[i] == (id, layer);
      }
    }
  }

  /** Some id has, on some layer, a status in the set. */
  ghost predicate Seen(ids: seq<string>, layers: seq<Layer>, indexer: (string, Layer) -> TxStatus,
                       wanted: set<TxStatus>)
  {
    exists id, layer :: id in ids && layer in layers && indexer(id, layer) in wanted
  }

  lemma SeenAt(ids: seq<string>, layers: seq<Layer>, indexer: (string, Layer) -> TxStatus, wanted: set<TxStatus>)
    ensures var q := Queries(ids, layers);
            Seen(ids, layers, indexer, wanted) <==> exists k :: 0 <= k < |q| && indexer(q[k].0, q[k].1) in wanted
  {
    hide Queries;
    var q := Queries(ids, layers);
    if k :| 0 <= k < |q| && indexer(q[k].0, q[k].1) in wanted {
      QueriesComplete(ids, layers, q[k].0, q[k].1);
    }
    if id, layer :| id in ids && layer in layers && indexer(id, layer) in wanted {
      QueriesComplete(ids, layers, id, layer);
      var k :| 0 <= k < |q| && q[k] == (id, layer);
    }
  }

  /**
   * pollTransactions for a non-empty id list: CONFIRMED is reported exactly when some queried pair is
   * confirmed and none is merely visible, BROADCASTED when one is.
   */
  method PollTransactions(ids: seq<string>, layers: seq<Layer>, indexer: (string, Layer) -> TxStatus)
    returns (summary: Summary)
    ensures summary == AllConfirmed <==>
              Seen(ids, layers, indexer, {Confirmed}) && !Seen(ids, layers, indexer, {Broadcast})
    ensures summary == SomeBroadcast <==> Seen(ids, layers, indexer, {Broadcast})
  {
    hide Queries, Seen;
    var statuses := QueryAll(ids, layers, indexer);
    SeenAt(ids, layers, indexer, {Confirmed});
    SeenAt(ids, layers, indexer, {Broadcast});
    var visible, confirmed := 0, true;
    for i := 0 to |statuses|
      invariant visible > 0 <==> exists k :: 0 <= k < i && Visible(statuses[k])
      invariant confirmed <==> forall k :: 0 <= k < i ==> statuses[k] != Broadcast
    {
      if Visible(statuses[i]) {
        visible := visible + 1;
        confirmed := confirmed && statuses[i] == Confirmed;
      }
    }
    ghost var q := Queries(ids, layers);
    assert forall k :: 0 <= k < |q| ==> statuses[k] == indexer(q[k].0, q[k].1);
    summary := if visible > 0 && confirmed then AllConfirmed else if visible > 0 then SomeBroadcast else NoneVisible;
  }

  /** A channel transaction without a layer is looked up on both. */
  function LayersFor(operation: string, params: Params): Option<seq<Layer>> {
    match NormalizeLayer(params)
    case None => None
    case Some(layer) =>
      Some(if operation == "stp.transaction" && !Truthy(Field(params, "layer")) then [BtcL1, Satsnet] else [layer])
  }

  datatype Polled = Polled(ids: seq<string>, summary: Summary) | NoIds | Unreadable

  /** The whole poll, from the parameters to the reported status. */
  method Poll(operation: string, params: Params, indexer: (string, Layer) -> TxStatus) returns (r: Polled)
    ensures r == Unreadable <==>
              AskedIds(params).None? || (AskedIds(params).value != [] && LayersFor(operation, params).None?)
    ensures r == NoIds <==> AskedIds(params) == Some([])
    ensures r.Polled? ==> r.ids == Unique(AskedIds(params).value)
    ensures r.Polled? ==>
              var asked, layers := AskedIds(params).value, LayersFor(operation, params).value;
              && (r.summary == AllConfirmed <==>
                    Seen(asked, layers, indexer, {Confirmed}) && !Seen(asked, layers, indexer, {Broadcast}))
              && (r.summary == SomeBroadcast <==> Seen(asked, layers, indexer, {Broadcast}))
  {
    hide AskedIds, LayersFor, Unique, Seen;
    var ids := TxIdList(params);
    if ids.None? {
      return Unreadable;
    }
    UniqueKeeps(AskedIds(params).value);
    if ids.value == [] {
      return NoIds;
    }
    var layers := LayersFor(operation, params);
    if layers.None? {
      return Unreadable;
    }
    var summary := PollTransactions(ids.value, layers.value, indexer);
    SeenSame(AskedIds(params).value, ids.value, layers.value, indexer, {Confirmed});
    SeenSame(AskedIds(params).value, ids.value, layers.value, indexer, {Broadcast});
    r := Polled(ids.value, summary);
  }

  lemma SeenSame(a: seq<string>, b: seq<string>, layers: seq<Layer>, indexer: (string, Layer) -> TxStatus,
                 wanted: set<TxStatus>)
    requires forall x :: x in a <==> x in b
    ensures Seen(a, layers, indexer, wanted) <==> Seen(b, layers, indexer, wanted)
  {
    if id, layer :| id in a && layer in layers && indexer(id, layer) in wanted {
      assert id in b;
    }
  }
}
