/** The road graph: a map from node id to node, each node holding its position
    and its ordered list of outgoing `(weight, neighbour id)` edges
    (src/model/structs/graph.rs, src/model/structs/node.rs). */
module Graphs {
  import opened Wrappers
  import opened Geometry

  /** One outgoing edge: the distance to the neighbour, fixed when the edge is
      inserted, and the neighbour's id. */
  datatype Edge = Edge(weight: real, neighbor: nat)

  datatype Node = Node(id: nat, position: Point, connected: seq<Edge>)

  type NodeMap = map<nat, Node>

  /** There is an edge from `a` to `b` in `a`'s list. */
  ghost predicate HasEdge(m: NodeMap, a: nat, b: nat) {
    a in m && exists i :: 0 <= i < |m[a].connected| && m[a].connected[i].neighbor == b
  }

  /** The graph invariant: every node is stored under its own id, every edge
      leads to a node of the graph, and no edge weight is negative. */
  ghost predicate WellFormed(m: NodeMap) {
    && (forall k :: k in m ==> m[k].id == k)
    && (forall k, i :: k in m && 0 <= i < |m[k].connected| ==>
          m[k].connected[i].neighbor in m && m[k].connected[i].weight >= 0.0)
  }

  /** The map after `add_node(id, lat, lon)`: a plain insert, which replaces an
      existing node with that id together with its edges. */
  function InsertNode(m: NodeMap, id: nat, lat: real, lon: real): (r: NodeMap)
    ensures r.Keys == m.Keys + {id}
    ensures r[id].id == id && r[id].position == Point(lat, lon) && r[id].connected == []
    ensures forall k :: k in m && k != id ==> r[k] == m[k]
  {
    m[id := Node(id, Point(lat, lon), [])]
  }

  /** The map after `add_connection(a, b)`: when both ends exist, one edge to
      `b`, weighted by the distance between the two positions, is appended to
      `a`'s list; otherwise nothing changes. */
  function Connect(m: NodeMap, a: nat, b: nat, dist: Metric): (r: NodeMap)
    ensures r.Keys == m.Keys
    ensures a !in m || b !in m ==> r == m
    ensures a in m && b in m ==>
      && r[a].id == m[a].id && r[a].position == m[a].position
      && |r[a].connected| == |m[a].connected| + 1
      && r[a].connected[..|m[a].connected|] == m[a].connected
      && r[a].connected[|m[a].connected|] == Edge(dist(m[a].position, m[b].position), b)
    ensures forall k :: k in m && k != a ==> r[k] == m[k]
  {
    if a in m && b in m then
      var cur := m[a];
      m[a := cur.(connected := cur.connected + [Edge(dist(cur.position, m[b].position), b)])]
    else
      m
  }

  lemma InsertNodeKeepsWellFormed(m: NodeMap, id: nat, lat: real, lon: real)
    requires WellFormed(m)
    ensures WellFormed(InsertNode(m, id, lat, lon))
  {
  }

  lemma ConnectKeepsWellFormed(m: NodeMap, a: nat, b: nat, dist: Metric)
    requires WellFormed(m)
    ensures WellFormed(Connect(m, a, b, dist))
  {
    var r := Connect(m, a, b, dist);
    if a in m && b in m {
      forall k, i | k in r && 0 <= i < |r[k].connected|
        ensures r[k].connected[i].neighbor in r && r[k].connected[i].weight >= 0.0
      {
        if k == a && i < |m[a].connected| {
          assert r[k].connected[i] == m[a].connected[i];
        }
      }
    }
  }

  /** Edges are directed: connecting `a` to `b` leaves `b`'s edge list alone. */
  lemma ConnectIsDirected(m: NodeMap, a: nat, b: nat, dist: Metric)
    requires a != b && b in m
    ensures Connect(m, a, b, dist)[b] == m[b]
  {
  }

  /** `order` lists every key exactly once: the iteration order of the map. */
  ghost predicate IsEnumeration(order: seq<nat>, keys: set<nat>) {
    && (forall i :: 0 <= i < |order| ==> order[i] in keys)
    && (forall k :: k in keys ==> k in order)
    && (forall i, j :: 0 <= i < j < |order| ==> order[i] != order[j])
  }

  /** Position `k` of `order` holds a node closest to `target`, and every node
      visited before it is strictly farther away. */
  ghost predicate FirstNearest(m: NodeMap, order: seq<nat>, target: Point, dist: Metric, k: int) {
    && 0 <= k < |order|
    && (forall j :: 0 <= j < |order| ==> order[j] in m)
    && (forall j :: 0 <= j < |order| ==>
          dist(target, m[order[k]].position) <= dist(target, m[order[j]].position))
    && (forall j :: 0 <= j < k ==>
          dist(target, m[order[j]].position) > dist(target, m[order[k]].position))
  }

  /** `id` is the node `find_nearest` picks when it visits the nodes in `order`. */
  ghost predicate NearestId(m: NodeMap, order: seq<nat>, target: Point, dist: Metric, id: nat) {
    exists k :: FirstNearest(m, order, target, dist, k) && order[k] == id
  }

  /** For a given visiting order the nearest node is unique. */
  lemma NearestIsUnique(m: NodeMap, order: seq<nat>, target: Point, dist: Metric, a: nat, b: nat)
    requires IsEnumeration(order, m.Keys)
    requires NearestId(m, order, target, dist, a) && NearestId(m, order, target, dist, b)
    ensures a == b
  {
    var ka :| FirstNearest(m, order, target, dist, ka) && order[ka] == a;
    var kb :| FirstNearest(m, order, target, dist, kb) && order[kb] == b;
  }

  class Graph {
    var nodes: NodeMap

    ghost predicate Valid()
      reads this
    {
      WellFormed(nodes)
    }

    /** The empty graph that ingestion starts from. */
    constructor ()
      ensures nodes == map[] && Valid()
    {
      nodes := map[];
    }

    method AddNode(id: nat, latitude: real, longitude: real)
      modifies this
      ensures nodes == InsertNode(old(nodes), id, latitude, longitude)
      ensures old(Valid()) ==> Valid()
    {
      var node := Node(id, Point(latitude, longitude), []);
      nodes := nodes[id := node];
      if old(Valid()) {
        InsertNodeKeepsWellFormed(old(nodes), id, latitude, longitude);
      }
    }

    method AddConnection(curId: nat, nextId: nat, dist: Metric)
      modifies this
      ensures nodes == Connect(old(nodes), curId, nextId, dist)
      ensures old(Valid()) ==> Valid()
    {
      if Valid() {
        ConnectKeepsWellFormed(nodes, curId, nextId, dist);
      }
      if curId in nodes {
        var cur := nodes[curId];
        if nextId in nodes {
          var nxt := nodes[nextId];
          var distance := dist(cur.position, nxt.position);
          nodes := nodes[curId := cur.(connected := cur.connected + [Edge(distance, nextId)])];
        }
      }
    }

    function GetNode(id: nat): (r: Option<Node>)
      reads this
      ensures r.Some? <==> id in nodes
      ensures r.Some? ==> r.value == nodes[id]
    {
      if id in nodes then Some(nodes[id]) else None
    }

    function GetNeighbors(id: nat): (r: Option<seq<Edge>>)
      reads this
      ensures r.None? <==> id !in nodes
      ensures r.Some? ==> r.value == nodes[id].connected
    {
      if id in nodes then Some(nodes[id].connected) else None
    }

    /** Scans the nodes in the map's iteration order `order` and keeps the
        first one strictly closer than every node before it. `None` stands for
        the panic on an empty graph. */
    method FindNearest(target: Point, dist: Metric, order: seq<nat>) returns (r: Option<Node>)
      requires IsEnumeration(order, nodes.Keys)
      ensures r.None? <==> nodes == map[]
      ensures r.Some? ==> exists k :: FirstNearest(nodes, order, target, dist, k) && r.value == nodes[order[k]]
    {
      var minDistance := 0.0;
      var nearest: Option<Node> := None;
      ghost var best := 0;
      for i := 0 to |order|
        invariant nearest.None? <==> i == 0
        invariant nearest.Some? ==>
          && 0 <= best < i
          && nearest.value == nodes[order[best]]
          && minDistance == dist(target, nearest.value.position)
        invariant nearest.Some? ==>
          forall j :: 0 <= j < i ==> minDistance <= dist(target, nodes[order[j]].position)
        invariant nearest.Some? ==>
          forall j :: 0 <= j < best ==> dist(target, nodes[order[j]].position) > minDistance
      {
        var n := nodes[order[i]];
        var distance := dist(target, n.position);
        if nearest.None? || distance < minDistance {
          minDistance := distance;
          nearest := Some(n);
          best := i;
        }
      }
      if nearest.Some? {
        assert FirstNearest(nodes, order, target, dist, best);
      }
      r := nearest;
    }
  }
}
