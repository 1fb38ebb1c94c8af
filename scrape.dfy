/** The script's driver: the `results` array that starts with a header and
    gets one row per listing node, in document order, and the way a bad node
    stops the whole run. */
module Scrape {
  import opened Options
  import opened RubyString
  import opened Listings

  /** The fixed search: the page fetched, and the three form fields filled in. */
  const Address: string := "http://sfbay.craigslist.org/search/sfc/apa"
  const SearchQuery: string := "Garden"
  const MinAsk: int := 250
  const MaxAsk: int := 1500

  /** A cell of `results` is a Ruby String or nil. */
  type Cell = Option<string>
  type Row = seq<Cell>

  /** The column names the results array starts with. */
  const Header: Row := [Some("Name"), Some("URL"), Some("Price"), Some("Location")]

  /** `[name, url, price, location]` for one derived record. */
  function ToRow(l: Listing): Row {
    [Some(l.name), Some(l.url), Some(l.price), l.location]
  }

  /** The data rows for a sequence of records, in the same order. */
  function Rows(ls: seq<Listing>): (r: seq<Row>)
    ensures |r| == |ls|
    ensures forall i :: 0 <= i < |ls| ==> r[i] == ToRow(ls[i])
  {
    if ls == [] then [] else Rows(ls[..|ls| - 1]) + [ToRow(ls[|ls| - 1])]
  }

  /** The whole results array for a sequence of records: header, then rows. */
  function Table(ls: seq<Listing>): seq<Row> {
    [Header] + Rows(ls)
  }

  /** Outcome of deriving records from the nodes one after another: every
      node succeeded, or the first failing node stopped the loop after the
      records of the nodes before it. */
  datatype Extraction =
    | Extracted(listings: seq<Listing>)
    | Stopped(done: seq<Listing>, at: nat, error: ExtractError)

  /** What the rule gives for one node: a record, or the error it raises. */
  type Derivation = Result<Listing, ExtractError>

  /** The rule applied to every node, in document order. */
  function Derivations(nodes: seq<ListingNode>): seq<Derivation> {
    seq(|nodes|, i requires 0 <= i < |nodes| => Derive(nodes[i]))
  }

  /** Walks the per-node outcomes in order and stops at the first error. */
  function Collect(rs: seq<Derivation>): (r: Extraction)
    ensures r.Extracted? ==>
      |r.listings| == |rs| &&
      forall i :: 0 <= i < |rs| ==> rs[i] == Ok(r.listings[i])
    ensures r.Stopped? ==>
      r.at < |rs| && |r.done| == r.at && rs[r.at] == Err(r.error) &&
      forall i :: 0 <= i < r.at ==> rs[i] == Ok(r.done[i])
  {
    if rs == [] then Extracted([])
    else
      var last := |rs| - 1;
      var front := rs[..last];
      assert forall i :: 0 <= i < last ==> front[i] == rs[i];
      match Collect(front)
      case Stopped(d, at, e) => Stopped(d, at, e)
      case Extracted(ls) =>
        match rs[last]
        case Ok(l) => Extracted(ls + [l])
        case Err(e) => Stopped(ls, last, e)
  }

  /** The walk completes with `ls` exactly when every outcome is `Ok`, in order, with `ls`. */
  lemma CollectCompletes(rs: seq<Derivation>, ls: seq<Listing>)
    requires |ls| == |rs|
    requires forall j :: 0 <= j < |rs| ==> rs[j] == Ok(ls[j])
    ensures Collect(rs) == Extracted(ls)
  {
    var x := Collect(rs);
    assert x.Extracted?;
    assert forall j :: 0 <= j < |rs| ==> rs[j] == Ok(x.listings[j]);
  }

  /** The walk stops at the first error, with the records before it. */
  lemma CollectStopsAt(rs: seq<Derivation>, ls: seq<Listing>, i: nat, e: ExtractError)
    requires i < |rs| && |ls| == i
    requires forall j :: 0 <= j < i ==> rs[j] == Ok(ls[j])
    requires rs[i] == Err(e)
    ensures Collect(rs) == Stopped(ls, i, e)
  {
    var x := Collect(rs);
    assert x.Stopped? && x.at == i;
    assert forall j :: 0 <= j < i ==> rs[j] == Ok(x.done[j]);
  }

  /** Records for the nodes in document order, stopping at the first node
      the rule raises on. */
  function ExtractAll(nodes: seq<ListingNode>): Extraction {
    Collect(Derivations(nodes))
  }

  /** How a run of the script ends. `Completed` carries the results array
      that goes to the CSV file; `Aborted` carries the index of the node
      that raised and the results array as it stood when it raised (the
      CSV file is then never written). */
  datatype RunOutcome =
    | Completed(rows: seq<Row>)
    | Aborted(at: nat, error: ExtractError, rows: seq<Row>)

  /** What a run produces for the given nodes. */
  function RunSpec(nodes: seq<ListingNode>): RunOutcome {
    match ExtractAll(nodes)
    case Extracted(ls) => Completed(Table(ls))
    case Stopped(d, at, e) => Aborted(at, e, Table(d))
  }

  /** The extraction loop: `results` gets its header, then one row per
      node; a node the rule raises on ends the run there. */
  method Run(nodes: seq<ListingNode>) returns (outcome: RunOutcome)
    ensures outcome == RunSpec(nodes)
  {
    var results: seq<Row> := [];
    results := results + [Header];
    ghost var listings: seq<Listing> := [];
    var i := 0;
    while i < |nodes|
      invariant 0 <= i <= |nodes|
      invariant |listings| == i
      invariant forall j :: 0 <= j < i ==> Derive(nodes[j]) == Ok(listings[j])
      invariant results == Table(listings)
    {
      var d := Derive(nodes[i]);
      if d.Err? {
        CollectStopsAt(Derivations(nodes), listings, i, d.error);
        return Aborted(i, d.error, results);
      }
      TableStep(listings, d.value);
      results := results + [ToRow(d.value)];
      listings := listings + [d.value];
      i := i + 1;
    }
    CollectCompletes(Derivations(nodes), listings);
    return Completed(results);
  }

  /** One more record: the table gains exactly its row at the end. */
  lemma TableStep(ls: seq<Listing>, l: Listing)
    ensures Table(ls + [l]) == Table(ls) + [ToRow(l)]
  {
    assert (ls + [l])[..|ls|] == ls;
  }

  /** The results array always has the header first and one four-cell row
      per record after it, in the records' order. */
  lemma TableShape(ls: seq<Listing>)
    ensures |Table(ls)| == |ls| + 1
    ensures Table(ls)[0] == Header
    ensures forall i :: 0 <= i < |ls| ==> Table(ls)[i + 1] == ToRow(ls[i])
    ensures forall i :: 0 <= i < |Table(ls)| ==> |Table(ls)[i]| == 4
  {
    var t := Table(ls);
    forall i | 0 <= i < |t|
      ensures |t[i]| == 4
    {
      if i > 0 {
        assert t[i] == ToRow(ls[i - 1]);
      }
    }
  }

  /** The records and the stopping point, stated node by node: a completed
      extraction has the record of node i at position i; a stopped one stops
      at a node the rule raises on, after the records of all nodes before it. */
  lemma ExtractAllByNode(nodes: seq<ListingNode>)
    ensures
      var x := ExtractAll(nodes);
      x.Extracted? ==>
        |x.listings| == |nodes| &&
        forall i :: 0 <= i < |nodes| ==> Derive(nodes[i]) == Ok(x.listings[i])
    ensures
      var x := ExtractAll(nodes);
      x.Stopped? ==>
        x.at < |nodes| && |x.done| == x.at && Derive(nodes[x.at]) == Err(x.error) &&
        forall i :: 0 <= i < x.at ==> Derive(nodes[i]) == Ok(x.done[i])
  {
    var rs := Derivations(nodes);
    var x := Collect(rs);
    assert x.Stopped? ==> rs[x.at] == Derive(nodes[x.at]);
  }

  /** A run completes exactly when every node has a second anchor with an `href`. */
  lemma RunCompletesIff(nodes: seq<ListingNode>)
    ensures RunSpec(nodes).Completed? <==> forall i :: 0 <= i < |nodes| ==> WellFormed(nodes[i])
  {
    ExtractAllByNode(nodes);
    var x := ExtractAll(nodes);
    assert x.Stopped? ==> !WellFormed(nodes[x.at]);
  }

  /** After a completed run the results array has N+1 rows for N nodes: the
      header, then the row of node i at position i+1, whose four cells are
      the stripped title, the base plus `href`, the price text and the sliced
      location. */
  lemma CompletedRows(nodes: seq<ListingNode>)
    requires RunSpec(nodes).Completed?
    ensures
      var rows := RunSpec(nodes).rows;
      |rows| == |nodes| + 1 && rows[0] == Header &&
      forall i :: 0 <= i < |nodes| ==>
        WellFormed(nodes[i]) &&
        rows[i + 1] == [Some(Strip(nodes[i].anchors[1].text)),
                        Some(SiteBase + nodes[i].anchors[1].href.value),
                        Some(nodes[i].priceText),
                        LocationOf(nodes[i])]
  {
    ExtractAllByNode(nodes);
    var ls := ExtractAll(nodes).listings;
    TableShape(ls);
    forall i | 0 <= i < |nodes|
      ensures WellFormed(nodes[i]) && ls[i] == Listing(Strip(nodes[i].anchors[1].text),
        SiteBase + nodes[i].anchors[1].href.value, nodes[i].priceText, LocationOf(nodes[i]))
    {
      assert Derive(nodes[i]) == Ok(ls[i]);
      DeriveFields(nodes[i]);
    }
  }

  /** A run aborts at the first node lacking a second anchor or its `href`;
      the results array then holds the header and the rows of the nodes
      before it only, and nothing for that node or any later one. */
  lemma AbortedAtFirstBad(nodes: seq<ListingNode>)
    requires RunSpec(nodes).Aborted?
    ensures
      var o := RunSpec(nodes);
      o.at < |nodes| && !WellFormed(nodes[o.at]) &&
      (o.error == MissingLink <==> |nodes[o.at].anchors| < 2) &&
      (forall j :: 0 <= j < o.at ==> WellFormed(nodes[j])) &&
      |o.rows| == o.at + 1 &&
      RunSpec(nodes[..o.at]) == Completed(o.rows)
  {
    ExtractAllByNode(nodes);
    var x := ExtractAll(nodes);
    assert Derive(nodes[x.at]) == Err(x.error);
    assert forall j :: 0 <= j < x.at ==> Derive(nodes[j]).Ok?;
    ExtractAllOfPrefix(nodes, x.at);
    assert ExtractAll(nodes[..x.at]) == Extracted(x.done);
    TableShape(x.done);
  }

  /** The rule applied to a prefix of the nodes is the prefix of the outcomes. */
  lemma DerivationsOfPrefix(nodes: seq<ListingNode>, k: nat)
    requires k <= |nodes|
    ensures Derivations(nodes[..k]) == Derivations(nodes)[..k]
  {
    var p := nodes[..k];
    assert forall j :: 0 <= j < k ==> p[j] == nodes[j];
  }

  /** When the first k outcomes are all records, walking just those gives
      the first k records of the whole walk, whether it completes or stops later. */
  lemma CollectOfPrefix(rs: seq<Derivation>, k: nat)
    requires k <= |rs|
    requires forall j :: 0 <= j < k ==> rs[j].Ok?
    ensures Collect(rs[..k]).Extracted?
    ensures Collect(rs).Extracted? ==> Collect(rs[..k]).listings == Collect(rs).listings[..k]
    ensures Collect(rs).Stopped? ==>
      k <= Collect(rs).at && Collect(rs[..k]).listings == Collect(rs).done[..k]
  {
    var x := Collect(rs);
    var full := if x.Extracted? then x.listings else x.done;
    var p := rs[..k];
    assert forall j :: 0 <= j < k ==> p[j] == rs[j];
    CollectCompletes(p, full[..k]);
  }

  /** When the first k nodes are well formed, their records are the first k
      records of the whole run, whether it completes or stops later. */
  lemma ExtractAllOfPrefix(nodes: seq<ListingNode>, k: nat)
    requires k <= |nodes|
    requires forall j :: 0 <= j < k ==> WellFormed(nodes[j])
    ensures ExtractAll(nodes[..k]).Extracted?
    ensures ExtractAll(nodes).Extracted? ==> ExtractAll(nodes[..k]).listings == ExtractAll(nodes).listings[..k]
    ensures ExtractAll(nodes).Stopped? ==>
      k <= ExtractAll(nodes).at && ExtractAll(nodes[..k]).listings == ExtractAll(nodes).done[..k]
  {
    var rs := Derivations(nodes);
    DerivationsOfPrefix(nodes, k);
    assert forall j :: 0 <= j < k ==> rs[j] == Derive(nodes[j]);
    CollectOfPrefix(rs, k);
  }

  /** Appending only extends: the rows after the first k nodes are a prefix
      of the rows after all of them, so later iterations never change an
      earlier row. */
  lemma RowsOnlyGrow(nodes: seq<ListingNode>, k: nat)
    requires k <= |nodes|
    requires RunSpec(nodes[..k]).Completed?
    ensures RunSpec(nodes[..k]).rows <= RunSpec(nodes).rows
  {
    RunCompletesIff(nodes[..k]);
    assert forall j :: 0 <= j < k ==> nodes[..k][j] == nodes[j];
    ExtractAllOfPrefix(nodes, k);
    var x := ExtractAll(nodes);
    var ls := ExtractAll(nodes[..k]).listings;
    var full := if x.Extracted? then x.listings else x.done;
    TablePrefix(ls, full);
  }

  /** The table of a prefix of the records is a prefix of the table. */
  lemma TablePrefix(ls: seq<Listing>, full: seq<Listing>)
    requires ls <= full
    ensures Table(ls) <= Table(full)
  {
    TableShape(ls);
    TableShape(full);
    var a := Table(ls);
    var b := Table(full);
    forall i | 0 <= i < |a|
      ensures a[i] == b[i]
    {
      if i > 0 {
        assert ls[i - 1] == full[i - 1];
      }
    }
  }
}
