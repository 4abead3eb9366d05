/** Building the graph from an extract (`parse_xml`, src/model/util.rs:10-57).

    The XML text itself is not modelled: a document arrives as its node
    records and its ways, each in document order, with every attribute
    already looked up and converted. A node record that lacks an attribute
    or carries one that does not convert aborts the whole parse, and so does
    a way without references; a reference to an unknown node only drops the
    edges that touch it. */
module Ingestion {
  import opened Wrappers
  import opened Geometry
  import opened Graphs

  /** An attribute as the reader delivers it: absent, present but not a
      number of the expected kind, or converted. */
  datatype Attr<T> = Missing | Unparsable | Parsed(value: T)

  /** The `id`, `lat` and `lon` attributes of one `node` element. */
  datatype NodeRecord = NodeRecord(id: Attr<nat>, lat: Attr<real>, lon: Attr<real>)

  /** The `ref` attributes of a way's `nd` children, in document order. */
  type Way = seq<Attr<nat>>

  datatype Document = Document(nodes: seq<NodeRecord>, ways: seq<Way>)

  /** The panics of `parse_xml`, one per failing `expect`. */
  datatype ParseError =
    | NoIdAttribute | BadId
    | NoLatAttribute | BadLat
    | NoLonAttribute | BadLon
    | EmptyWay
    | NoRefAttribute | BadRef

  function Read<T>(a: Attr<T>, missing: ParseError, bad: ParseError): (r: Result<T, ParseError>)
    ensures r.Ok? <==> a.Parsed?
    ensures r.Ok? ==> r.value == a.value
    ensures a.Missing? ==> r == Err(missing)
    ensures a.Unparsable? ==> r == Err(bad)
  {
    match a
    case Missing => Err(missing)
    case Unparsable => Err(bad)
    case Parsed(v) => Ok(v)
  }

  /** Reads `id`, then `lat`, then `lon`; the first one that fails decides the
      error. */
  function ReadNode(rec: NodeRecord): (r: Result<(nat, real, real), ParseError>)
    ensures r.Ok? <==> rec.id.Parsed? && rec.lat.Parsed? && rec.lon.Parsed?
    ensures r.Ok? ==> r.value == (rec.id.value, rec.lat.value, rec.lon.value)
    ensures !rec.id.Parsed? ==> r == Err(if rec.id.Missing? then NoIdAttribute else BadId)
    ensures rec.id.Parsed? && !rec.lat.Parsed? ==> r == Err(if rec.lat.Missing? then NoLatAttribute else BadLat)
    ensures rec.id.Parsed? && rec.lat.Parsed? && !rec.lon.Parsed? ==>
      r == Err(if rec.lon.Missing? then NoLonAttribute else BadLon)
  {
    match Read(rec.id, NoIdAttribute, BadId)
    case Err(e) => Err(e)
    case Ok(id) =>
      match Read(rec.lat, NoLatAttribute, BadLat)
      case Err(e) => Err(e)
      case Ok(lat) =>
        match Read(rec.lon, NoLonAttribute, BadLon)
        case Err(e) => Err(e)
        case Ok(lon) => Ok((id, lat, lon))
  }

  function ReadRef(a: Attr<nat>): (r: Result<nat, ParseError>)
    ensures r.Ok? <==> a.Parsed?
    ensures r.Ok? ==> r.value == a.value
    ensures !a.Parsed? ==> r == Err(if a.Missing? then NoRefAttribute else BadRef)
  {
    Read(a, NoRefAttribute, BadRef)
  }

  /** The node pass over the records still to come, starting from `m`. */
  function NodesFrom(recs: seq<NodeRecord>, m: NodeMap): Result<NodeMap, ParseError>
    decreases |recs|
  {
    if recs == [] then Ok(m)
    else
      match ReadNode(recs[0])
      case Err(e) => Err(e)
      case Ok(v) => NodesFrom(recs[1..], InsertNode(m, v.0, v.1, v.2))
  }

  /** The rest of one way: `cur` is the previous reference, `refs` the ones
      still to come; each pair is offered to `add_connection`. */
  function WayFrom(refs: seq<Attr<nat>>, cur: nat, m: NodeMap, dist: Metric): Result<NodeMap, ParseError>
    decreases |refs|
  {
    if refs == [] then Ok(m)
    else
      match ReadRef(refs[0])
      case Err(e) => Err(e)
      case Ok(next) => WayFrom(refs[1..], next, Connect(m, cur, next, dist), dist)
  }

  /** One way: its first reference must exist ("Empty Iterator"). */
  function WayPass(way: Way, m: NodeMap, dist: Metric): (r: Result<NodeMap, ParseError>)
    ensures way == [] ==> r == Err(EmptyWay)
    ensures way != [] && !way[0].Parsed? ==> r == Err(if way[0].Missing? then NoRefAttribute else BadRef)
  {
    if way == [] then Err(EmptyWay)
    else
      match ReadRef(way[0])
      case Err(e) => Err(e)
      case Ok(first) => WayFrom(way[1..], first, m, dist)
  }

  /** Continue with the remaining ways after a partial result. */
  function ThenWays(res: Result<NodeMap, ParseError>, ways: seq<Way>, dist: Metric): Result<NodeMap, ParseError>
    decreases |ways|, 1
  {
    match res
    case Err(e) => Err(e)
    case Ok(m) => WaysFrom(ways, m, dist)
  }

  /** The way pass over the ways still to come, starting from `m`. */
  function WaysFrom(ways: seq<Way>, m: NodeMap, dist: Metric): Result<NodeMap, ParseError>
    decreases |ways|, 0
  {
    if ways == [] then Ok(m)
    else ThenWays(WayPass(ways[0], m, dist), ways[1..], dist)
  }

  /** The whole parse: every node record first, then every way. */
  function Parse(doc: Document, dist: Metric): Result<NodeMap, ParseError> {
    match NodesFrom(doc.nodes, map[])
    case Err(e) => Err(e)
    case Ok(m) => WaysFrom(doc.ways, m, dist)
  }

  // ---------------------------------------------------------------------
  // The node pass

  ghost function RecordIds(recs: seq<NodeRecord>): set<nat> {
    set i | 0 <= i < |recs| && recs[i].id.Parsed? :: recs[i].id.value
  }

  /** The node pass succeeds exactly when every record is complete. */
  lemma {:induction false} NodesFromSucceeds(recs: seq<NodeRecord>, m: NodeMap)
    ensures NodesFrom(recs, m).Ok? <==> forall i :: 0 <= i < |recs| ==> ReadNode(recs[i]).Ok?
    decreases |recs|
  {
    if recs != [] {
      match ReadNode(recs[0])
      case Err(_) =>
      case Ok(v) =>
        var m1 := InsertNode(m, v.0, v.1, v.2);
        NodesFromSucceeds(recs[1..], m1);
        if forall i :: 0 <= i < |recs[1..]| ==> ReadNode(recs[1..][i]).Ok? {
          forall i | 0 <= i < |recs| ensures ReadNode(recs[i]).Ok? {
            if i > 0 { assert recs[i] == recs[1..][i - 1]; }
          }
        } else {
          var i :| 0 <= i < |recs[1..]| && !ReadNode(recs[1..][i]).Ok?;
          assert recs[i + 1] == recs[1..][i];
        }
    }
  }

  /** After a successful node pass the keys are the old ones plus every
      record's id, the graph invariant still holds, and a node no record
      mentions is untouched. */
  lemma {:induction false} NodesFromKeys(recs: seq<NodeRecord>, m: NodeMap, m': NodeMap)
    requires NodesFrom(recs, m) == Ok(m')
    ensures m'.Keys == m.Keys + RecordIds(recs)
    ensures WellFormed(m) ==> WellFormed(m')
    ensures forall k :: k in m && k !in RecordIds(recs) ==> m'[k] == m[k]
    decreases |recs|
  {
    if recs != [] {
      var v := ReadNode(recs[0]).value;
      var m1 := InsertNode(m, v.0, v.1, v.2);
      NodesFromKeys(recs[1..], m1, m');
      if WellFormed(m) {
        InsertNodeKeepsWellFormed(m, v.0, v.1, v.2);
      }
      assert RecordIds(recs) == {v.0} + RecordIds(recs[1..]) by {
        forall k | k in RecordIds(recs) ensures k in {v.0} + RecordIds(recs[1..]) {
          var i :| 0 <= i < |recs| && recs[i].id.Parsed? && recs[i].id.value == k;
          if i > 0 { assert recs[1..][i - 1] == recs[i]; }
        }
        forall k | k in RecordIds(recs[1..]) ensures k in RecordIds(recs) {
          var i :| 0 <= i < |recs[1..]| && recs[1..][i].id.Parsed? && recs[1..][i].id.value == k;
          assert recs[i + 1] == recs[1..][i];
        }
      }
    }
  }

  /** Re-adding an id replaces the node: the record that comes last for an id
      decides that node's position, and its edge list is empty. */
  lemma {:induction false} NodesFromLastWins(recs: seq<NodeRecord>, m: NodeMap, m': NodeMap, i: nat)
    requires NodesFrom(recs, m) == Ok(m')
    requires i < |recs| && recs[i].id.Parsed? && recs[i].lat.Parsed? && recs[i].lon.Parsed?
    requires forall j :: i < j < |recs| && recs[j].id.Parsed? ==> recs[j].id.value != recs[i].id.value
    ensures recs[i].id.value in m'
    ensures m'[recs[i].id.value] == Node(recs[i].id.value, Point(recs[i].lat.value, recs[i].lon.value), [])
    decreases |recs|
  {
    NodesFromSucceeds(recs, m);
    var v := ReadNode(recs[0]).value;
    var m1 := InsertNode(m, v.0, v.1, v.2);
    if i == 0 {
      NodesFromKeys(recs[1..], m1, m');
      assert v.0 !in RecordIds(recs[1..]) by {
        forall j | 0 <= j < |recs[1..]| && recs[1..][j].id.Parsed?
          ensures recs[1..][j].id.value != v.0
        {
          assert recs[1..][j] == recs[j + 1];
        }
      }
    } else {
      forall j | i - 1 < j < |recs[1..]| && recs[1..][j].id.Parsed?
        ensures recs[1..][j].id.value != recs[1..][i - 1].id.value
      {
        assert recs[1..][j] == recs[j + 1];
      }
      NodesFromLastWins(recs[1..], m1, m', i - 1);
    }
  }

  // ---------------------------------------------------------------------
  // The way pass

  /** The positions and ids of all nodes, which the way pass never changes. */
  ghost predicate SameNodes(m: NodeMap, m': NodeMap) {
    && m'.Keys == m.Keys
    && forall k :: k in m ==> m'[k].id == m[k].id && m'[k].position == m[k].position
  }

  lemma {:induction false} WayFromKeepsNodes(refs: seq<Attr<nat>>, cur: nat, m: NodeMap, dist: Metric, m': NodeMap)
    requires WayFrom(refs, cur, m, dist) == Ok(m')
    ensures SameNodes(m, m')
    ensures WellFormed(m) ==> WellFormed(m')
    decreases |refs|
  {
    if refs != [] {
      var next := ReadRef(refs[0]).value;
      var m1 := Connect(m, cur, next, dist);
      WayFromKeepsNodes(refs[1..], next, m1, dist, m');
      if WellFormed(m) {
        ConnectKeepsWellFormed(m, cur, next, dist);
      }
    }
  }

  lemma {:induction false} WaysFromKeepsNodes(ways: seq<Way>, m: NodeMap, dist: Metric, m': NodeMap)
    requires WaysFrom(ways, m, dist) == Ok(m')
    ensures SameNodes(m, m')
    ensures WellFormed(m) ==> WellFormed(m')
    decreases |ways|
  {
    if ways != [] {
      var w := ways[0];
      var m1 := WayPass(w, m, dist).value;
      WayFromKeepsNodes(w[1..], ReadRef(w[0]).value, m, dist, m1);
      WaysFromKeepsNodes(ways[1..], m1, dist, m');
    }
  }

  /** A way is complete when it has a reference and every reference is a
      number. */
  ghost predicate CompleteWay(way: Way) {
    |way| > 0 && forall j :: 0 <= j < |way| ==> way[j].Parsed?
  }

  lemma {:induction false} WayFromSucceeds(refs: seq<Attr<nat>>, cur: nat, m: NodeMap, dist: Metric)
    ensures WayFrom(refs, cur, m, dist).Ok? <==> forall j :: 0 <= j < |refs| ==> refs[j].Parsed?
    decreases |refs|
  {
    if refs != [] && refs[0].Parsed? {
      WayFromSucceeds(refs[1..], refs[0].value, Connect(m, cur, refs[0].value, dist), dist);
      if forall j :: 0 <= j < |refs[1..]| ==> refs[1..][j].Parsed? {
        forall j | 0 <= j < |refs| ensures refs[j].Parsed? {
          if j > 0 { assert refs[j] == refs[1..][j - 1]; }
        }
      } else {
        var j :| 0 <= j < |refs[1..]| && !refs[1..][j].Parsed?;
        assert refs[j + 1] == refs[1..][j];
      }
    }
  }

  /** The way pass succeeds exactly when every way is complete; dangling
      references are never an error. */
  lemma {:induction false} WaysFromSucceeds(ways: seq<Way>, m: NodeMap, dist: Metric)
    ensures WaysFrom(ways, m, dist).Ok? <==> forall i :: 0 <= i < |ways| ==> CompleteWay(ways[i])
    decreases |ways|
  {
    if ways != [] {
      var w := ways[0];
      if w != [] {
        WayFromSucceeds(w[1..], if w[0].Parsed? then w[0].value else 0, m, dist);
        assert (forall j :: 0 <= j < |w[1..]| ==> w[1..][j].Parsed?) <==> (forall j :: 1 <= j < |w| ==> w[j].Parsed?) by {
          forall j | 1 <= j < |w| ensures w[j] == w[1..][j - 1] { }
        }
      }
      match WayPass(w, m, dist)
      case Err(_) =>
      case Ok(m1) =>
        WaysFromSucceeds(ways[1..], m1, dist);
        if forall i :: 0 <= i < |ways[1..]| ==> CompleteWay(ways[1..][i]) {
          forall i | 0 <= i < |ways| ensures CompleteWay(ways[i]) {
            if i > 0 { assert ways[i] == ways[1..][i - 1]; }
          }
        } else {
          var i :| 0 <= i < |ways[1..]| && !CompleteWay(ways[1..][i]);
          assert ways[i + 1] == ways[1..][i];
        }
    }
  }

  /** The ids of a run of converted references. */
  function RefIds(refs: seq<Attr<nat>>): (ids: seq<nat>)
    requires forall j :: 0 <= j < |refs| ==> refs[j].Parsed?
    ensures |ids| == |refs| && forall j :: 0 <= j < |refs| ==> ids[j] == refs[j].value
  {
    seq(|refs|, j requires 0 <= j < |refs| && refs[j].Parsed? => refs[j].value)
  }

  /** Reference definition of what one way adds to node `a`: for every
      consecutive pair `(a, b)` of `ids` whose ends both exist, in order, the
      edge to `b`. */
  function OutEdges(m: NodeMap, dist: Metric, a: nat, ids: seq<nat>): (r: seq<Edge>)
    ensures a !in m ==> r == []
    decreases |ids|
  {
    if |ids| < 2 then []
    else PairEdge(m, dist, a, ids[0], ids[1]) + OutEdges(m, dist, a, ids[1..])
  }

  /** The edge that the pair `(x, y)` adds to node `a`, if any. */
  function PairEdge(m: NodeMap, dist: Metric, a: nat, x: nat, y: nat): (r: seq<Edge>)
  {
    if x == a && a in m && y in m then [Edge(dist(m[a].position, m[y].position), y)] else []
  }

  lemma {:induction false} OutEdgesSameNodes(m: NodeMap, m1: NodeMap, dist: Metric, a: nat, ids: seq<nat>)
    requires SameNodes(m, m1)
    ensures OutEdges(m1, dist, a, ids) == OutEdges(m, dist, a, ids)
    decreases |ids|
  {
    if |ids| >= 2 {
      OutEdgesSameNodes(m, m1, dist, a, ids[1..]);
    }
  }

  /** A complete run of references appends to each node exactly the edges
      that `OutEdges` lists: one per consecutive pair starting at that node,
      in order, and none for a pair with a dangling end. */
  lemma {:induction false} WayFromEdges(refs: seq<Attr<nat>>, cur: nat, m: NodeMap, dist: Metric)
    requires forall j :: 0 <= j < |refs| ==> refs[j].Parsed?
    ensures WayFrom(refs, cur, m, dist).Ok?
    ensures WayFrom(refs, cur, m, dist).value.Keys == m.Keys
    ensures forall a :: a in m ==>
      WayFrom(refs, cur, m, dist).value[a].connected == m[a].connected + OutEdges(m, dist, a, [cur] + RefIds(refs))
    decreases |refs|
  {
    WayFromSucceeds(refs, cur, m, dist);
    if refs != [] {
      var next := refs[0].value;
      var m1 := Connect(m, cur, next, dist);
      var rest := refs[1..];
      assert forall j :: 0 <= j < |rest| ==> rest[j].Parsed?;
      WayFromEdges(rest, next, m1, dist);
      assert [cur] + RefIds(refs) == [cur, next] + RefIds(rest);
      forall a | a in m
        ensures m1[a].connected + OutEdges(m1, dist, a, [next] + RefIds(rest))
             == m[a].connected + OutEdges(m, dist, a, [cur, next] + RefIds(rest))
      {
        PairStep(m, dist, a, cur, next, RefIds(rest));
      }
    }
  }

  /** One step of `WayFromEdges`: connecting `(cur, next)` and then listing
      the edges of the rest of the run is listing the edges of the whole run. */
  lemma PairStep(m: NodeMap, dist: Metric, a: nat, cur: nat, next: nat, tail: seq<nat>)
    requires a in m
    ensures Connect(m, cur, next, dist)[a].connected + OutEdges(Connect(m, cur, next, dist), dist, a, [next] + tail)
         == m[a].connected + OutEdges(m, dist, a, [cur, next] + tail)
  {
    var m1, rest := Connect(m, cur, next, dist), [next] + tail;
    OutEdgesCons(m, dist, a, cur, next, tail);
    ConnectKeepsNodes(m, cur, next, dist);
    OutEdgesSameNodes(m, m1, dist, a, rest);
    ConnectAppendsPairEdge(m, dist, a, cur, next, OutEdges(m, dist, a, rest));
  }

  lemma OutEdgesCons(m: NodeMap, dist: Metric, a: nat, cur: nat, next: nat, tail: seq<nat>)
    ensures OutEdges(m, dist, a, [cur, next] + tail) == PairEdge(m, dist, a, cur, next) + OutEdges(m, dist, a, [next] + tail)
  {
    var ids := [cur, next] + tail;
    assert ids[0] == cur && ids[1] == next && ids[1..] == [next] + tail;
  }

  lemma ConnectKeepsNodes(m: NodeMap, cur: nat, next: nat, dist: Metric)
    ensures SameNodes(m, Connect(m, cur, next, dist))
  {
  }

  /** `add_connection(cur, next)` appends to node `a` exactly the edge the
      pair `(cur, next)` contributes, ahead of whatever `later` edges follow. */
  lemma ConnectAppendsPairEdge(m: NodeMap, dist: Metric, a: nat, cur: nat, next: nat, later: seq<Edge>)
    requires a in m
    ensures Connect(m, cur, next, dist)[a].connected == m[a].connected + PairEdge(m, dist, a, cur, next)
    ensures Connect(m, cur, next, dist)[a].connected + later == m[a].connected + (PairEdge(m, dist, a, cur, next) + later)
  {
    var m1 := Connect(m, cur, next, dist);
    if cur == a && next in m {
      assert m1[a].connected == m[a].connected + [Edge(dist(m[a].position, m[next].position), next)];
    }
    var pair := PairEdge(m, dist, a, cur, next);
    assert (m[a].connected + pair) + later == m[a].connected + (pair + later);
  }

  /** Reference definition of what the whole way pass adds to node `a`: way
      by way, in document order, the edges `OutEdges` lists for its
      references. */
  ghost function WaysOutEdges(m: NodeMap, dist: Metric, a: nat, ways: seq<Way>): seq<Edge>
    requires forall i :: 0 <= i < |ways| ==> CompleteWay(ways[i])
    decreases |ways|
  {
    if ways == [] then []
    else
      assert CompleteWay(ways[0]);
      OutEdges(m, dist, a, RefIds(ways[0])) + WaysOutEdges(m, dist, a, ways[1..])
  }

  lemma {:induction false} WaysOutEdgesSameNodes(m: NodeMap, m1: NodeMap, dist: Metric, a: nat, ways: seq<Way>)
    requires SameNodes(m, m1)
    requires forall i :: 0 <= i < |ways| ==> CompleteWay(ways[i])
    ensures WaysOutEdges(m1, dist, a, ways) == WaysOutEdges(m, dist, a, ways)
    decreases |ways|
  {
    if ways != [] {
      OutEdgesSameNodes(m, m1, dist, a, RefIds(ways[0]));
      WaysOutEdgesSameNodes(m, m1, dist, a, ways[1..]);
    }
  }

  /** One complete way appends to each node exactly the `OutEdges` of its
      references and changes no key, id or position. */
  lemma WayPassEdges(w: Way, m: NodeMap, dist: Metric)
    requires CompleteWay(w)
    ensures WayPass(w, m, dist).Ok? && SameNodes(m, WayPass(w, m, dist).value)
    ensures forall a :: a in m ==>
      WayPass(w, m, dist).value[a].connected == m[a].connected + OutEdges(m, dist, a, RefIds(w))
  {
    var refs := w[1..];
    assert forall j :: 0 <= j < |refs| ==> refs[j].Parsed?;
    WayFromEdges(refs, w[0].value, m, dist);
    WayFromKeepsNodes(refs, w[0].value, m, dist, WayFrom(refs, w[0].value, m, dist).value);
    assert [w[0].value] + RefIds(refs) == RefIds(w);
  }

  /** The way pass over complete ways succeeds, and appends to each node's
      edge list exactly the edges `WaysOutEdges` lists: one per consecutive
      pair of references that starts at the node and whose ends both exist,
      way by way and pair by pair in order. A dangling reference drops only
      the edges of the pairs it belongs to. */
  lemma {:induction false} WaysFromEdges(ways: seq<Way>, m: NodeMap, dist: Metric)
    requires forall i :: 0 <= i < |ways| ==> CompleteWay(ways[i])
    ensures WaysFrom(ways, m, dist).Ok? && WaysFrom(ways, m, dist).value.Keys == m.Keys
    ensures forall a :: a in m ==>
      WaysFrom(ways, m, dist).value[a].connected == m[a].connected + WaysOutEdges(m, dist, a, ways)
    decreases |ways|
  {
    WaysFromSucceeds(ways, m, dist);
    WaysFromKeepsNodes(ways, m, dist, WaysFrom(ways, m, dist).value);
    if ways != [] {
      WayPassEdges(ways[0], m, dist);
      var m1 := WayPass(ways[0], m, dist).value;
      var m' := WaysFrom(ways, m, dist).value;
      assert WaysFrom(ways[1..], m1, dist) == Ok(m');
      WaysFromEdges(ways[1..], m1, dist);
      forall a | a in m ensures m'[a].connected == m[a].connected + WaysOutEdges(m, dist, a, ways) {
        WaysOutEdgesSameNodes(m, m1, dist, a, ways[1..]);
        WaysStep(ways, m, dist, a, m[a].connected, m'[a].connected);
      }
    }
  }

  /** One way of `WaysFromEdges`: the edges of the first way followed by
      those of the rest are the edges of all the ways. */
  lemma WaysStep(ways: seq<Way>, m: NodeMap, dist: Metric, a: nat, before: seq<Edge>, after: seq<Edge>)
    requires ways != [] && forall i :: 0 <= i < |ways| ==> CompleteWay(ways[i])
    requires CompleteWay(ways[0])
    requires after == (before + OutEdges(m, dist, a, RefIds(ways[0]))) + WaysOutEdges(m, dist, a, ways[1..])
    ensures after == before + WaysOutEdges(m, dist, a, ways)
  {
    var first, rest := OutEdges(m, dist, a, RefIds(ways[0])), WaysOutEdges(m, dist, a, ways[1..]);
    WaysOutEdgesCons(m, dist, a, ways);
    assert (before + first) + rest == before + (first + rest);
  }

  lemma WaysOutEdgesCons(m: NodeMap, dist: Metric, a: nat, ways: seq<Way>)
    requires ways != [] && forall i :: 0 <= i < |ways| ==> CompleteWay(ways[i])
    requires CompleteWay(ways[0])
    ensures WaysOutEdges(m, dist, a, ways) == OutEdges(m, dist, a, RefIds(ways[0])) + WaysOutEdges(m, dist, a, ways[1..])
  {
  }

  /** After a successful node pass every edge list is empty. */
  lemma {:induction false} NodesFromNoEdges(recs: seq<NodeRecord>, m: NodeMap, m': NodeMap)
    requires NodesFrom(recs, m) == Ok(m')
    requires forall k :: k in m ==> m[k].connected == []
    ensures forall k :: k in m' ==> m'[k].connected == []
    decreases |recs|
  {
    if recs != [] {
      var v := ReadNode(recs[0]).value;
      NodesFromNoEdges(recs[1..], InsertNode(m, v.0, v.1, v.2), m');
    }
  }

  /** When every record and every way is complete the parse succeeds, and
      each node's edge list is exactly what `WaysOutEdges` lists for it over
      the parsed nodes: nothing else is ever added. */
  lemma ParseEdges(doc: Document, dist: Metric)
    requires forall i :: 0 <= i < |doc.nodes| ==> ReadNode(doc.nodes[i]).Ok?
    requires forall i :: 0 <= i < |doc.ways| ==> CompleteWay(doc.ways[i])
    ensures Parse(doc, dist).Ok?
    ensures forall a :: a in Parse(doc, dist).value ==>
      Parse(doc, dist).value[a].connected == WaysOutEdges(Parse(doc, dist).value, dist, a, doc.ways)
  {
    NodesFromSucceeds(doc.nodes, map[]);
    var m0 := NodesFrom(doc.nodes, map[]).value;
    NodesFromNoEdges(doc.nodes, map[], m0);
    WaysFromEdges(doc.ways, m0, dist);
    var m := WaysFrom(doc.ways, m0, dist).value;
    WaysFromKeepsNodes(doc.ways, m0, dist, m);
    forall a | a in m ensures m[a].connected == WaysOutEdges(m, dist, a, doc.ways) {
      WaysOutEdgesSameNodes(m0, m, dist, a, doc.ways);
    }
  }

  /** The node pass runs to completion before any edge is attempted, the
      parsed graph satisfies the graph invariant, and its nodes are exactly
      the records' ids. */
  lemma ParseWellFormed(doc: Document, dist: Metric, m: NodeMap)
    requires Parse(doc, dist) == Ok(m)
    ensures NodesFrom(doc.nodes, map[]).Ok?
    ensures forall i :: 0 <= i < |doc.nodes| ==> ReadNode(doc.nodes[i]).Ok?
    ensures WellFormed(m)
    ensures m.Keys == RecordIds(doc.nodes)
  {
    var m0 := NodesFrom(doc.nodes, map[]).value;
    NodesFromSucceeds(doc.nodes, map[]);
    NodesFromKeys(doc.nodes, map[], m0);
    WaysFromKeepsNodes(doc.ways, m0, dist, m);
  }

  /** The parse fails exactly when some node record is incomplete or some way
      is empty or has a reference that is not a number. */
  lemma ParseFailsExactly(doc: Document, dist: Metric)
    ensures Parse(doc, dist).Err? <==>
      || (exists i :: 0 <= i < |doc.nodes| && ReadNode(doc.nodes[i]).Err?)
      || (exists i :: 0 <= i < |doc.ways| && !CompleteWay(doc.ways[i]))
  {
    NodesFromSucceeds(doc.nodes, map[]);
    match NodesFrom(doc.nodes, map[])
    case Err(_) =>
    case Ok(m0) => WaysFromSucceeds(doc.ways, m0, dist);
  }

  /** `parse_xml`: a node pass that inserts every record, then a way pass
      that connects each consecutive pair of references. */
  method ParseXml(doc: Document, dist: Metric) returns (r: Result<Graph, ParseError>)
    ensures Parse(doc, dist).Err? ==> r.Err? && r.error == Parse(doc, dist).error
    ensures Parse(doc, dist).Ok? ==>
      r.Ok? && fresh(r.value) && r.value.nodes == Parse(doc, dist).value && r.value.Valid()
  {
    var graph := new Graph();
    for i := 0 to |doc.nodes|
      invariant fresh(graph) && graph.Valid()
      invariant NodesFrom(doc.nodes, map[]) == NodesFrom(doc.nodes[i..], graph.nodes)
    {
      var rec := doc.nodes[i];
      assert doc.nodes[i..][1..] == doc.nodes[i + 1..];
      var v := ReadNode(rec);
      if v.Err? {
        return Err(v.error);
      }
      graph.AddNode(v.value.0, v.value.1, v.value.2);
    }
    assert doc.nodes[|doc.nodes|..] == [];
    for w := 0 to |doc.ways|
      invariant fresh(graph) && graph.Valid()
      invariant Parse(doc, dist) == WaysFrom(doc.ways[w..], graph.nodes, dist)
    {
      var way := doc.ways[w];
      assert doc.ways[w..][1..] == doc.ways[w + 1..];
      if |way| == 0 {
        return Err(EmptyWay);
      }
      var first := ReadRef(way[0]);
      if first.Err? {
        return Err(first.error);
      }
      var curNodeId := first.value;
      for j := 1 to |way|
        invariant fresh(graph) && graph.Valid()
        invariant Parse(doc, dist) ==
          ThenWays(WayFrom(way[j..], curNodeId, graph.nodes, dist), doc.ways[w + 1..], dist)
      {
        assert way[j..][1..] == way[j + 1..];
        var next := ReadRef(way[j]);
        if next.Err? {
          return Err(next.error);
        }
        graph.AddConnection(curNodeId, next.value, dist);
        curNodeId := next.value;
      }
      assert way[|way|..] == [];
    }
    assert doc.ways[|doc.ways|..] == [];
    ParseWellFormed(doc, dist, graph.nodes);
    return Ok(graph);
  }
}
