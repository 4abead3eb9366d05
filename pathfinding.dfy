/** A* search over the road graph and path reconstruction
    (src/model/pathfinding.rs).

    The open set is a sequence of states; popping it removes a state that is
    greatest under the reversed comparison `Cmp`, that is one with the least
    f cost. `g_score` and `came_from` are maps that the search updates in
    place. The search loop runs for at most `fuel` pops, stopping early when
    the goal node is popped or the open set is empty. Termination of the
    unbounded loop, which keeps stale states in the open set and expands their
    node again when they are popped, is not proved here. */
module Pathfinding {
  import opened Wrappers
  import opened Geometry
  import opened Graphs

  /** An entry of the open set. */
  datatype State = State(id: nat, fCost: real, gCost: real)

  datatype Ordering = Less | Equal | Greater

  function CompareReals(a: real, b: real): (r: Ordering)
    ensures r == Less <==> a < b
    ensures r == Greater <==> a > b
  {
    if a < b then Less else if a > b then Greater else Equal
  }

  /** `State::cmp`: the comparison is reversed, so the greatest state of the
      max-heap is the one with the least f cost. */
  function Cmp(self: State, other: State): (r: Ordering)
    ensures r == Greater <==> self.fCost < other.fCost
    ensures r == Less <==> self.fCost > other.fCost
    ensures r == Equal <==> self.fCost == other.fCost
  {
    CompareReals(other.fCost, self.fCost)
  }

  /** `State::eq`: states are equal when their ids are, whatever their costs.
      It disagrees with `Cmp`, which looks only at costs. */
  function StateEq(self: State, other: State): (r: bool)
    ensures r <==> self.id == other.id
    ensures r && self.fCost != other.fCost ==> Cmp(self, other) != Equal
  {
    self.id == other.id
  }

  /** `BinaryHeap::pop`: `None` on an empty open set; otherwise some state
      that no other state exceeds under `Cmp`, removed from the set. Among
      states with the same f cost the first one in the sequence is taken. */
  method Pop(open: seq<State>) returns (top: Option<State>, rest: seq<State>)
    ensures top.None? <==> open == []
    ensures top.None? ==> rest == open
    ensures top.Some? ==>
      exists k :: 0 <= k < |open| && open[k] == top.value && rest == open[..k] + open[k + 1..]
    ensures top.Some? ==> forall t :: t in open ==> Cmp(top.value, t) != Less
  {
    if open == [] {
      return None, open;
    }
    var k := 0;
    for i := 1 to |open|
      invariant 0 <= k < i
      invariant forall j :: 0 <= j < i ==> Cmp(open[k], open[j]) != Less
    {
      if Cmp(open[k], open[i]) == Less {
        k := i;
      }
    }
    top := Some(open[k]);
    rest := open[..k] + open[k + 1..];
  }

  /** Some state for `x` is still in the open set. */
  ghost predicate InOpen(open: seq<State>, x: nat) {
    exists i :: 0 <= i < |open| && open[i].id == x
  }

  lemma PopKeepsOthers(open: seq<State>, k: nat, x: nat)
    requires k < |open| && InOpen(open, x) && open[k].id != x
    ensures InOpen(open[..k] + open[k + 1..], x)
  {
    var rest := open[..k] + open[k + 1..];
    var i :| 0 <= i < |open| && open[i].id == x;
    if i < k {
      assert rest[i] == open[i];
    } else {
      assert rest[i - 1] == open[i];
    }
  }

  /** Every edge out of `x` has been relaxed against `x`'s current g score. */
  ghost predicate Relaxed(m: NodeMap, gScore: map<nat, real>, x: nat) {
    && x in gScore && x in m
    && forall i :: 0 <= i < |m[x].connected| ==>
         && m[x].connected[i].neighbor in gScore
         && gScore[m[x].connected[i].neighbor] <= gScore[x] + m[x].connected[i].weight
  }

  /** `a` was last improved before `b`: a lower g score, or the same g score
      and an earlier time stamp. */
  ghost predicate Before(gScore: map<nat, real>, stamp: map<nat, nat>, a: nat, b: nat) {
    && a in gScore && b in gScore && a in stamp && b in stamp
    && (gScore[a] < gScore[b] || (gScore[a] == gScore[b] && stamp[a] < stamp[b]))
  }

  /** The invariant of the search maps. Scores belong to graph nodes and are
      never negative; every `came_from` entry names a node with an edge to
      the entry's key; and, with `stamp` recording when each score was last
      set, a predecessor always comes `Before` its successor, so following
      `came_from` can never cycle. */
  ghost predicate Tree(m: NodeMap, gScore: map<nat, real>, cameFrom: map<nat, nat>,
                       stamp: map<nat, nat>, clock: nat) {
    && gScore.Keys <= m.Keys
    && (forall v :: v in gScore ==> gScore[v] >= 0.0)
    && cameFrom.Keys <= gScore.Keys
    && stamp.Keys == gScore.Keys
    && (forall v :: v in stamp ==> stamp[v] < clock)
    && (forall v :: v in cameFrom ==> HasEdge(m, cameFrom[v], v) && Before(gScore, stamp, cameFrom[v], v))
  }

  /** The open set during an expansion: it starts with `open`, every entry
      names a scored node, and a state is pushed only for a node whose score
      the expansion lowered from `gScore` (or set for the first time); it
      carries a g cost no lower than the node's current score and the f cost
      `g + dist(node, goal)`. */
  ghost predicate Pushed(m: NodeMap, goal: Point, dist: Metric, open: seq<State>, open': seq<State>,
                         gScore: map<nat, real>, gScore': map<nat, real>) {
    && (forall j :: 0 <= j < |open'| ==> open'[j].id in gScore')
    && |open| <= |open'| && open'[..|open|] == open
    && (forall j :: |open| <= j < |open'| ==>
          && open'[j].id in m
          && (open'[j].id !in gScore || gScore'[open'[j].id] < gScore[open'[j].id])
          && gScore'[open'[j].id] <= open'[j].gCost
          && open'[j].fCost == open'[j].gCost + dist(m[open'[j].id].position, goal))
  }

  /** The scores after relaxing the first `i` edges of `u`: no score went up,
      `u`'s own score is untouched, and each of those edges has been relaxed. */
  ghost predicate Lowered(m: NodeMap, u: nat, i: nat, gScore: map<nat, real>, gScore': map<nat, real>) {
    && u in m && u in gScore && i <= |m[u].connected|
    && gScore'.Keys <= m.Keys
    && gScore.Keys <= gScore'.Keys
    && (forall v :: v in gScore ==> gScore'[v] <= gScore[v])
    && gScore'[u] == gScore[u]
    && (forall j :: 0 <= j < i ==>
          m[u].connected[j].neighbor in gScore'
          && gScore'[m[u].connected[j].neighbor] <= gScore[u] + m[u].connected[j].weight)
  }

  /** Every node whose score changed has `u` as predecessor and an edge
      `via[v]` from `u` that gives its new score. */
  ghost predicate Explained(m: NodeMap, u: nat, gScore: map<nat, real>, gScore': map<nat, real>,
                            cameFrom': map<nat, nat>, via: map<nat, nat>) {
    && u in m && u in gScore
    && forall v :: v in gScore' && (v !in gScore || gScore'[v] != gScore[v]) ==>
         && v in cameFrom' && cameFrom'[v] == u
         && v in via && via[v] < |m[u].connected| && m[u].connected[via[v]].neighbor == v
         && gScore'[v] == gScore[u] + m[u].connected[via[v]].weight
  }

  /** Every node whose score changed has, at `slot[v]` past the old open set,
      a pushed state with its new score as g cost. */
  ghost predicate Slotted(m: NodeMap, goal: Point, dist: Metric, gScore: map<nat, real>, gScore': map<nat, real>,
                          open: seq<State>, open': seq<State>, slot: map<nat, nat>) {
    forall v :: v in gScore' && (v !in gScore || gScore'[v] != gScore[v]) ==>
      && v in m && v in slot && |open| <= slot[v] < |open'|
      && open'[slot[v]] == State(v, gScore'[v] + dist(m[v].position, goal), gScore'[v])
  }

  /** The state that relaxing edge `k` of `u` pushes when `u` has score `gu`:
      the edge's target, with g cost `gu` plus the edge's weight and f cost
      that plus the target's distance to `goal`. */
  ghost function EdgeState(m: NodeMap, goal: Point, dist: Metric, u: nat, gu: real, k: nat): State
    requires u in m && k < |m[u].connected| && m[u].connected[k].neighbor in m
  {
    var e := m[u].connected[k];
    State(e.neighbor, gu + e.weight + dist(m[e.neighbor].position, goal), gu + e.weight)
  }

  /** The states pushed so far, past `open`, are one per edge listed in
      `from`: the edges are among the first `i` of `u`, in increasing order,
      and the `j`-th pushed state is `EdgeState` of the `j`-th of them. */
  ghost predicate Logged(m: NodeMap, goal: Point, dist: Metric, u: nat, gu: real,
                         open: seq<State>, open': seq<State>, from: seq<nat>, i: nat) {
    && u in m && i <= |m[u].connected|
    && |open| + |from| == |open'|
    && (forall j, k :: 0 <= j < k < |from| ==> from[j] < from[k])
    && forall j :: 0 <= j < |from| ==>
         && from[j] < i && m[u].connected[from[j]].neighbor in m
         && open'[|open| + j] == EdgeState(m, goal, dist, u, gu, from[j])
  }

  /** A node whose score did not change keeps its predecessor, if any. */
  ghost predicate Kept(gScore: map<nat, real>, cameFrom: map<nat, nat>,
                       gScore': map<nat, real>, cameFrom': map<nat, nat>) {
    && cameFrom'.Keys <= cameFrom.Keys + gScore'.Keys
    && forall v :: v in gScore && v in gScore' && gScore'[v] == gScore[v] ==>
         && (v in cameFrom' <==> v in cameFrom)
         && (v in cameFrom ==> cameFrom'[v] == cameFrom[v])
  }

  /** Pushing a state for `v` with g cost `t` lower than its score. */
  lemma PushedRelax(m: NodeMap, goal: Point, dist: Metric, open: seq<State>, open': seq<State>,
                    gScore: map<nat, real>, gScore': map<nat, real>, v: nat, t: real)
    requires Pushed(m, goal, dist, open, open', gScore, gScore')
    requires v in m && (v !in gScore' || t < gScore'[v])
    requires v in gScore ==> v in gScore' && gScore'[v] <= gScore[v]
    ensures Pushed(m, goal, dist, open, open' + [State(v, t + dist(m[v].position, goal), t)],
                   gScore, gScore'[v := t])
  {
    var open2 := open' + [State(v, t + dist(m[v].position, goal), t)];
    assert open2[..|open|] == open'[..|open|];
    forall j | 0 <= j < |open'| ensures open2[j] == open'[j] {
    }
  }

  /** Edge `i` of `u`, to `v`, lowers `v`'s score to `t`. */
  lemma LoweredRelax(m: NodeMap, u: nat, i: nat, gScore: map<nat, real>, gScore': map<nat, real>, v: nat, t: real)
    requires Lowered(m, u, i, gScore, gScore') && i < |m[u].connected|
    requires v == m[u].connected[i].neighbor && v in m && v != u
    requires t == gScore'[u] + m[u].connected[i].weight
    requires v !in gScore' || t < gScore'[v]
    ensures Lowered(m, u, i + 1, gScore, gScore'[v := t])
  {
  }

  /** Edge `i` of `u` does not lower its target's score. */
  lemma LoweredKeep(m: NodeMap, u: nat, i: nat, gScore: map<nat, real>, gScore': map<nat, real>)
    requires Lowered(m, u, i, gScore, gScore') && i < |m[u].connected|
    requires m[u].connected[i].neighbor in gScore'
    requires gScore'[u] + m[u].connected[i].weight >= gScore'[m[u].connected[i].neighbor]
    ensures Lowered(m, u, i + 1, gScore, gScore')
  {
  }

  /** Lowering `v` through edge `i` and pushing it at the end of the open set
      explains the change. */
  lemma ExplainedRelax(m: NodeMap, u: nat, i: nat, gScore: map<nat, real>, gScore': map<nat, real>,
                       cameFrom': map<nat, nat>, via: map<nat, nat>, v: nat, t: real)
    requires Explained(m, u, gScore, gScore', cameFrom', via)
    requires Lowered(m, u, i, gScore, gScore') && i < |m[u].connected|
    requires v == m[u].connected[i].neighbor && v != u
    requires t == gScore'[u] + m[u].connected[i].weight
    requires v !in gScore' || t < gScore'[v]
    ensures Explained(m, u, gScore, gScore'[v := t], cameFrom'[v := u], via[v := i])
  {
  }

  /** Pushing the state for `v`'s new score at the end of the open set
      records it in `slot`. */
  lemma SlottedRelax(m: NodeMap, goal: Point, dist: Metric, gScore: map<nat, real>, gScore': map<nat, real>,
                     open: seq<State>, open': seq<State>, slot: map<nat, nat>, v: nat, t: real)
    requires Slotted(m, goal, dist, gScore, gScore', open, open', slot) && |open| <= |open'| && v in m
    ensures Slotted(m, goal, dist, gScore, gScore'[v := t], open, open' + [State(v, t + dist(m[v].position, goal), t)],
                    slot[v := |open'|])
  {
    var open2 := open' + [State(v, t + dist(m[v].position, goal), t)];
    forall w | w in slot && slot[w] < |open'| ensures open2[slot[w]] == open'[slot[w]] {
    }
  }

  /** Lowering `v` leaves the nodes with unchanged scores alone. */
  lemma KeptRelax(gScore: map<nat, real>, cameFrom: map<nat, nat>,
                  gScore': map<nat, real>, cameFrom': map<nat, nat>, v: nat, t: real, u: nat)
    requires Kept(gScore, cameFrom, gScore', cameFrom')
    requires gScore.Keys <= gScore'.Keys && forall w :: w in gScore ==> gScore'[w] <= gScore[w]
    requires v !in gScore' || t < gScore'[v]
    ensures Kept(gScore, cameFrom, gScore'[v := t], cameFrom'[v := u])
  {
  }

  /** Edge `i` of `u`, to `v`, lowers `v`'s score to `t` and pushes `s`:
      all four facts about the expansion carry over. */
  lemma RelaxStep(m: NodeMap, goal: Point, dist: Metric, u: nat, i: nat,
                  open: seq<State>, gScore: map<nat, real>, cameFrom: map<nat, nat>,
                  open': seq<State>, gScore': map<nat, real>, cameFrom': map<nat, nat>,
                  via: map<nat, nat>, slot: map<nat, nat>, v: nat, t: real, s: State)
    requires Pushed(m, goal, dist, open, open', gScore, gScore')
    requires Lowered(m, u, i, gScore, gScore') && i < |m[u].connected|
    requires Explained(m, u, gScore, gScore', cameFrom', via)
    requires Slotted(m, goal, dist, gScore, gScore', open, open', slot)
    requires Kept(gScore, cameFrom, gScore', cameFrom')
    requires v == m[u].connected[i].neighbor && v in m && v != u
    requires t == gScore'[u] + m[u].connected[i].weight
    requires v !in gScore' || t < gScore'[v]
    requires s == State(v, t + dist(m[v].position, goal), t)
    ensures Pushed(m, goal, dist, open, open' + [s], gScore, gScore'[v := t])
    ensures Lowered(m, u, i + 1, gScore, gScore'[v := t])
    ensures Explained(m, u, gScore, gScore'[v := t], cameFrom'[v := u], via[v := i])
    ensures Slotted(m, goal, dist, gScore, gScore'[v := t], open, open' + [s], slot[v := |open'|])
    ensures Kept(gScore, cameFrom, gScore'[v := t], cameFrom'[v := u])
  {
    PushedRelax(m, goal, dist, open, open', gScore, gScore', v, t);
    LoweredRelax(m, u, i, gScore, gScore', v, t);
    ExplainedRelax(m, u, i, gScore, gScore', cameFrom', via, v, t);
    SlottedRelax(m, goal, dist, gScore, gScore', open, open', slot, v, t);
    KeptRelax(gScore, cameFrom, gScore', cameFrom', v, t, u);
  }

  /** The time stamps after an expansion at time `clock`: every node whose
      score changed is stamped `clock`, the others keep their stamps. */
  ghost function Restamp(gScore: map<nat, real>, stamp: map<nat, nat>, clock: nat,
                         gScore': map<nat, real>): (r: map<nat, nat>)
    ensures r.Keys == gScore'.Keys
  {
    map v | v in gScore' :: if v in gScore && v in stamp && gScore'[v] == gScore[v] then stamp[v] else clock
  }

  /** Relaxing the edges of `u` keeps the search maps a tree: an improved
      node gets `u` as predecessor, and `u`, whose score does not change, was
      stamped before it; a node whose predecessor improved now has a
      predecessor with a strictly smaller score. */
  lemma ExpandKeepsTree(m: NodeMap, u: nat, gScore: map<nat, real>, cameFrom: map<nat, nat>,
                        stamp: map<nat, nat>, clock: nat,
                        gScore': map<nat, real>, cameFrom': map<nat, nat>, via: map<nat, nat>)
    requires WellFormed(m) && u in m
    requires Tree(m, gScore, cameFrom, stamp, clock)
    requires Lowered(m, u, |m[u].connected|, gScore, gScore')
    requires Explained(m, u, gScore, gScore', cameFrom', via)
    requires Kept(gScore, cameFrom, gScore', cameFrom')
    ensures Tree(m, gScore', cameFrom', Restamp(gScore, stamp, clock, gScore'), clock + 1)
  {
    var edges := m[u].connected;
    var stamp' := Restamp(gScore, stamp, clock, gScore');
    forall v | v in gScore' ensures gScore'[v] >= 0.0 {
      if v !in gScore || gScore'[v] != gScore[v] {
        assert edges[via[v]].weight >= 0.0;
      }
    }
    forall y | y in cameFrom'
      ensures HasEdge(m, cameFrom'[y], y) && Before(gScore', stamp', cameFrom'[y], y)
    {
      assert y in gScore';
      if y !in gScore || gScore'[y] != gScore[y] {
        assert edges[via[y]].neighbor == y && edges[via[y]].weight >= 0.0;
        assert HasEdge(m, u, y);
      } else {
        var p := cameFrom[y];
        assert Before(gScore, stamp, p, y);
      }
    }
  }

  /** Every node whose score an expansion of `u` changed now has `u` as
      predecessor, a score equal to `g(u)` plus the weight of some edge from
      `u` to it, and a state in the open set. */
  ghost predicate Improved(m: NodeMap, u: nat, gScore: map<nat, real>, gScore': map<nat, real>,
                           cameFrom': map<nat, nat>, open': seq<State>) {
    && u in m && u in gScore
    && forall v :: v in gScore' && (v !in gScore || gScore'[v] != gScore[v]) ==>
         && v in cameFrom' && cameFrom'[v] == u
         && (exists i :: 0 <= i < |m[u].connected| && m[u].connected[i].neighbor == v
                         && gScore'[v] == gScore[u] + m[u].connected[i].weight)
         && InOpen(open', v)
  }

  /** Every node whose score changed has, among the states pushed past
      `open`, the state `State(v, g + dist(v, goal), g)` for its new score g. */
  ghost predicate Requeued(m: NodeMap, goal: Point, dist: Metric, gScore: map<nat, real>,
                           gScore': map<nat, real>, open: seq<State>, open': seq<State>) {
    forall v :: v in gScore' && v in m && (v !in gScore || gScore'[v] != gScore[v]) ==>
      exists j :: |open| <= j < |open'| &&
        open'[j] == State(v, gScore'[v] + dist(m[v].position, goal), gScore'[v])
  }

  /** Once every edge of `u` has been relaxed, `u` is `Relaxed`, and each
      improved node has an edge from `u` that explains its new score and a
      pushed state carrying that score. */
  lemma ExpandDone(m: NodeMap, goal: Point, dist: Metric, u: nat,
                   gScore: map<nat, real>, gScore': map<nat, real>, cameFrom': map<nat, nat>,
                   open: seq<State>, open': seq<State>, via: map<nat, nat>, slot: map<nat, nat>)
    requires u in m && Lowered(m, u, |m[u].connected|, gScore, gScore')
    requires Explained(m, u, gScore, gScore', cameFrom', via)
    requires Slotted(m, goal, dist, gScore, gScore', open, open', slot)
    ensures Relaxed(m, gScore', u)
    ensures Improved(m, u, gScore, gScore', cameFrom', open')
    ensures Requeued(m, goal, dist, gScore, gScore', open, open')
  {
    forall v | v in gScore' && (v !in gScore || gScore'[v] != gScore[v])
      ensures InOpen(open', v)
    {
      assert open'[slot[v]].id == v;
    }
  }

  /** Edge `i` pushes its state: it joins the log. */
  lemma LoggedPush(m: NodeMap, goal: Point, dist: Metric, u: nat, gu: real,
                   open: seq<State>, open': seq<State>, from: seq<nat>, i: nat)
    requires Logged(m, goal, dist, u, gu, open, open', from, i)
    requires i < |m[u].connected| && m[u].connected[i].neighbor in m
    ensures Logged(m, goal, dist, u, gu, open, open' + [EdgeState(m, goal, dist, u, gu, i)], from + [i], i + 1)
  {
    var open2, from2 := open' + [EdgeState(m, goal, dist, u, gu, i)], from + [i];
    forall j | 0 <= j < |from| ensures from2[j] == from[j] && open2[|open| + j] == open'[|open| + j] {
    }
  }

  /** Edge `i` pushes nothing: the log stays as it is. */
  lemma LoggedSkip(m: NodeMap, goal: Point, dist: Metric, u: nat, gu: real,
                   open: seq<State>, open': seq<State>, from: seq<nat>, i: nat)
    requires Logged(m, goal, dist, u, gu, open, open', from, i) && i < |m[u].connected|
    ensures Logged(m, goal, dist, u, gu, open, open', from, i + 1)
  {
  }

  /** The body of the loop over `get_neighbors(u)`, for edge `i`: when its
      target has no score yet, or `g(u) + distance` is strictly lower than
      its score, the target gets that score and `u` as predecessor, and its
      state is pushed; otherwise nothing changes. The five facts about the
      expansion so far carry over from the first `i` edges to the first
      `i + 1`. */
  method RelaxEdge(g: Graph, goal: Point, dist: Metric, u: nat, i: nat,
                   open: seq<State>, gScore: map<nat, real>, cameFrom: map<nat, nat>,
                   open0: seq<State>, gScore0: map<nat, real>, cameFrom0: map<nat, nat>,
                   ghost via0: map<nat, nat>, ghost slot0: map<nat, nat>, ghost from0: seq<nat>)
    returns (open': seq<State>, gScore': map<nat, real>, cameFrom': map<nat, nat>,
             ghost via: map<nat, nat>, ghost slot: map<nat, nat>, ghost from: seq<nat>)
    requires g.Valid() && u in g.nodes && i < |g.nodes[u].connected|
    requires Pushed(g.nodes, goal, dist, open, open0, gScore, gScore0)
    requires Lowered(g.nodes, u, i, gScore, gScore0)
    requires Explained(g.nodes, u, gScore, gScore0, cameFrom0, via0)
    requires Slotted(g.nodes, goal, dist, gScore, gScore0, open, open0, slot0)
    requires Logged(g.nodes, goal, dist, u, gScore[u], open, open0, from0, i)
    requires Kept(gScore, cameFrom, gScore0, cameFrom0)
    ensures Pushed(g.nodes, goal, dist, open, open', gScore, gScore')
    ensures Lowered(g.nodes, u, i + 1, gScore, gScore')
    ensures Explained(g.nodes, u, gScore, gScore', cameFrom', via)
    ensures Slotted(g.nodes, goal, dist, gScore, gScore', open, open', slot)
    ensures Logged(g.nodes, goal, dist, u, gScore[u], open, open', from, i + 1)
    ensures Kept(gScore, cameFrom, gScore', cameFrom')
    ensures var e := g.nodes[u].connected[i];
      if e.neighbor !in gScore0 || gScore0[u] + e.weight < gScore0[e.neighbor] then
        && open' == open0 + [EdgeState(g.nodes, goal, dist, u, gScore[u], i)]
        && gScore' == gScore0[e.neighbor := gScore0[u] + e.weight]
        && cameFrom' == cameFrom0[e.neighbor := u]
        && from == from0 + [i]
      else
        open' == open0 && gScore' == gScore0 && cameFrom' == cameFrom0 && from == from0
  {
    var distance, neighbor := g.nodes[u].connected[i].weight, g.nodes[u].connected[i].neighbor;
    var tentative := gScore0[u] + distance;
    if neighbor !in gScore0 || tentative < gScore0[neighbor] {
      assert neighbor in g.nodes && neighbor != u;
      var fScore := tentative + dist(g.nodes[neighbor].position, goal);
      var s := State(neighbor, fScore, tentative);
      RelaxStep(g.nodes, goal, dist, u, i, open, gScore, cameFrom, open0, gScore0, cameFrom0, via0, slot0,
                neighbor, tentative, s);
      LoggedPush(g.nodes, goal, dist, u, gScore[u], open, open0, from0, i);
      assert s == EdgeState(g.nodes, goal, dist, u, gScore[u], i);
      open', gScore', cameFrom' := open0 + [s], gScore0[neighbor := tentative], cameFrom0[neighbor := u];
      via, slot, from := via0[neighbor := i], slot0[neighbor := |open0|], from0 + [i];
    } else {
      LoweredKeep(g.nodes, u, i, gScore, gScore0);
      LoggedSkip(g.nodes, goal, dist, u, gScore[u], open, open0, from0, i);
      open', gScore', cameFrom' := open0, gScore0, cameFrom0;
      via, slot, from := via0, slot0, from0;
    }
  }

  /** `for &(distance, neighbor) in get_neighbors(u)`: relaxes every edge out
      of `u`, in order (`RelaxEdge`). `via`, `slot` and `from` are ghost
      witnesses: the edge that last improved each node, the position of the
      state pushed for it, and the edges that pushed, in order. */
  method RelaxEdges(g: Graph, goal: Point, dist: Metric, u: nat,
                    open: seq<State>, gScore: map<nat, real>, cameFrom: map<nat, nat>)
    returns (open': seq<State>, gScore': map<nat, real>, cameFrom': map<nat, nat>,
             ghost via: map<nat, nat>, ghost slot: map<nat, nat>, ghost from: seq<nat>)
    requires g.Valid() && u in gScore && gScore.Keys <= g.nodes.Keys
    requires forall i :: 0 <= i < |open| ==> open[i].id in gScore
    ensures u in g.nodes
    ensures Pushed(g.nodes, goal, dist, open, open', gScore, gScore')
    ensures Lowered(g.nodes, u, |g.nodes[u].connected|, gScore, gScore')
    ensures Explained(g.nodes, u, gScore, gScore', cameFrom', via)
    ensures Slotted(g.nodes, goal, dist, gScore, gScore', open, open', slot)
    ensures Logged(g.nodes, goal, dist, u, gScore[u], open, open', from, |g.nodes[u].connected|)
    ensures Kept(gScore, cameFrom, gScore', cameFrom')
  {
    var edges := match g.GetNeighbors(u) case Some(es) => es case None => [];
    open', gScore', cameFrom' := open, gScore, cameFrom;
    via, slot, from := map[], map[], [];
    for i := 0 to |edges|
      invariant edges == g.nodes[u].connected
      invariant Pushed(g.nodes, goal, dist, open, open', gScore, gScore')
      invariant Lowered(g.nodes, u, i, gScore, gScore')
      invariant Explained(g.nodes, u, gScore, gScore', cameFrom', via)
      invariant Slotted(g.nodes, goal, dist, gScore, gScore', open, open', slot)
      invariant Logged(g.nodes, goal, dist, u, gScore[u], open, open', from, i)
      invariant Kept(gScore, cameFrom, gScore', cameFrom')
    {
      open', gScore', cameFrom', via, slot, from :=
        RelaxEdge(g, goal, dist, u, i, open, gScore, cameFrom, open', gScore', cameFrom', via, slot, from);
    }
  }

  /** One expansion of `u`: after relaxing its edges, `u` is `Relaxed`, no
      score went up, `u`'s own score is untouched, every improved node has
      `u` as predecessor, an edge from `u` that gives its new score and a
      pushed state `State(v, g + dist(v, goal), g)` for that score g, states
      are pushed for improved nodes only and each is the `EdgeState` of one
      edge of `u`, in edge order (ghost `from`), every other node keeps its
      predecessor, and the search maps are still a `Tree` (improved nodes are
      stamped with the current clock, which then ticks). */
  method Expand(g: Graph, goal: Point, dist: Metric, u: nat,
                open: seq<State>, gScore: map<nat, real>, cameFrom: map<nat, nat>,
                ghost stamp: map<nat, nat>, ghost clock: nat)
    returns (open': seq<State>, gScore': map<nat, real>, cameFrom': map<nat, nat>,
             ghost stamp': map<nat, nat>, ghost clock': nat, ghost from: seq<nat>)
    requires g.Valid() && u in gScore
    requires Tree(g.nodes, gScore, cameFrom, stamp, clock)
    requires forall i :: 0 <= i < |open| ==> open[i].id in gScore
    ensures Tree(g.nodes, gScore', cameFrom', stamp', clock')
    ensures Pushed(g.nodes, goal, dist, open, open', gScore, gScore')
    ensures gScore.Keys <= gScore'.Keys
    ensures forall v :: v in gScore ==> gScore'[v] <= gScore[v]
    ensures gScore'[u] == gScore[u]
    ensures Relaxed(g.nodes, gScore', u)
    ensures Improved(g.nodes, u, gScore, gScore', cameFrom', open')
    ensures Requeued(g.nodes, goal, dist, gScore, gScore', open, open')
    ensures Logged(g.nodes, goal, dist, u, gScore[u], open, open', from, |g.nodes[u].connected|)
    ensures Kept(gScore, cameFrom, gScore', cameFrom')
  {
    ghost var via, slot;
    open', gScore', cameFrom', via, slot, from := RelaxEdges(g, goal, dist, u, open, gScore, cameFrom);
    ExpandKeepsTree(g.nodes, u, gScore, cameFrom, stamp, clock, gScore', cameFrom', via);
    ExpandDone(g.nodes, goal, dist, u, gScore, gScore', cameFrom', open, open', via, slot);
    stamp', clock' := Restamp(gScore, stamp, clock, gScore'), clock + 1;
  }

  /** The part of the search maps that comes `Before` `x`. */
  ghost function Below(gScore: map<nat, real>, stamp: map<nat, nat>, x: nat): set<nat> {
    set k | k in gScore && Before(gScore, stamp, k, x)
  }

  lemma SubsetCard(a: set<nat>, b: set<nat>)
    requires a <= b
    ensures |a| <= |b|
  {
    if a != {} {
      var x :| x in a;
      SubsetCard(a - {x}, b - {x});
    }
  }

  /** Following a predecessor strictly shrinks what comes before, which is
      what makes the walk back along `came_from` terminate. */
  lemma BelowShrinks(gScore: map<nat, real>, stamp: map<nat, nat>, p: nat, x: nat)
    requires Before(gScore, stamp, p, x)
    ensures |Below(gScore, stamp, p)| < |Below(gScore, stamp, x)|
  {
    var bp, bx := Below(gScore, stamp, p), Below(gScore, stamp, x);
    assert bp <= bx - {p};
    SubsetCard(bp, bx - {p});
  }

  function Reverse<T>(s: seq<T>): (r: seq<T>)
    ensures |r| == |s| && forall i :: 0 <= i < |s| ==> r[i] == s[|s| - 1 - i]
  {
    if s == [] then [] else [s[|s| - 1]] + Reverse(s[..|s| - 1])
  }

  /** `reconstruct_path`: walks `came_from` back from `current` until a node
      without an entry, collecting positions, then reverses them. `ids` are
      the nodes whose positions make up the path. */
  method ReconstructPath(g: Graph, cameFrom: map<nat, nat>, current: nat,
                         ghost gScore: map<nat, real>, ghost stamp: map<nat, nat>, ghost clock: nat)
    returns (path: seq<Point>, ghost ids: seq<nat>)
    requires g.Valid() && current in gScore
    requires Tree(g.nodes, gScore, cameFrom, stamp, clock)
    ensures |path| > 0 && path[|path| - 1] == g.nodes[current].position
    ensures |ids| == |path| && ids[|ids| - 1] == current && ids[0] !in cameFrom
    ensures forall i :: 0 <= i < |ids| ==> ids[i] in gScore && path[i] == g.nodes[ids[i]].position
    ensures forall i :: 1 <= i < |ids| ==> ids[i] in cameFrom && cameFrom[ids[i]] == ids[i - 1]
  {
    var totalPath := [g.nodes[current].position];
    ghost var back := [current];
    var node := current;
    while node in cameFrom
      invariant node in gScore
      invariant |back| == |totalPath| > 0 && back[0] == current && back[|back| - 1] == node
      invariant forall i :: 0 <= i < |back| ==> back[i] in gScore && totalPath[i] == g.nodes[back[i]].position
      invariant forall i :: 0 <= i < |back| - 1 ==> back[i] in cameFrom && cameFrom[back[i]] == back[i + 1]
      decreases |Below(gScore, stamp, node)|
    {
      BelowShrinks(gScore, stamp, cameFrom[node], node);
      node := cameFrom[node];
      totalPath := totalPath + [g.nodes[node].position];
      back := back + [node];
    }
    path := Reverse(totalPath);
    ids := Reverse(back);
  }

  /** A walk along edges of the graph. */
  ghost predicate IsWalk(m: NodeMap, ids: seq<nat>) {
    && |ids| > 0
    && (forall i :: 0 <= i < |ids| ==> ids[i] in m)
    && (forall i :: 0 <= i < |ids| - 1 ==> HasEdge(m, ids[i], ids[i + 1]))
  }

  ghost predicate Reachable(m: NodeMap, s: nat, t: nat) {
    exists ids :: IsWalk(m, ids) && ids[0] == s && ids[|ids| - 1] == t
  }

  /** A walk that starts inside a set of scored nodes whose edges are all
      relaxed never leaves that set. */
  lemma {:induction false} WalkStaysInClosedSet(m: NodeMap, gScore: map<nat, real>, ids: seq<nat>)
    requires IsWalk(m, ids) && ids[0] in gScore
    requires forall x :: x in gScore ==> Relaxed(m, gScore, x)
    ensures forall i :: 0 <= i < |ids| ==> ids[i] in gScore
    decreases |ids|
  {
    if |ids| > 1 {
      var init := ids[..|ids| - 1];
      assert IsWalk(m, init);
      WalkStaysInClosedSet(m, gScore, init);
      var a, b := ids[|ids| - 2], ids[|ids| - 1];
      assert a == init[|init| - 1];
      assert HasEdge(m, a, b);
      var j :| 0 <= j < |m[a].connected| && m[a].connected[j].neighbor == b;
      assert Relaxed(m, gScore, a);
    }
  }

  datatype Outcome = Found(path: seq<Point>) | NoPath | EmptyGraph | OutOfFuel

  /** The invariant of the search loop, for start node `st` and goal node
      `gl`: the search maps are a `Tree` rooted at `st` (the only scored node
      without a predecessor, at g = 0), the open set holds scored nodes only,
      every scored node is either still open or has all its edges relaxed,
      and the goal node, once scored, stays open. */
  ghost predicate Search(m: NodeMap, st: nat, gl: nat, open: seq<State>, gScore: map<nat, real>,
                         cameFrom: map<nat, nat>, stamp: map<nat, nat>, clock: nat) {
    && Tree(m, gScore, cameFrom, stamp, clock)
    && (forall i :: 0 <= i < |open| ==> open[i].id in gScore)
    && st in gScore && gScore[st] == 0.0 && st !in cameFrom
    && (forall v :: v in gScore ==> v == st || v in cameFrom)
    && (forall x :: x in gScore ==> InOpen(open, x) || Relaxed(m, gScore, x))
    && (gl in gScore ==> InOpen(open, gl))
  }

  /** The seeded search: only the start node is scored, and it is open. */
  lemma SearchStart(m: NodeMap, st: nat, gl: nat, s: State)
    requires st in m && s.id == st
    ensures Search(m, st, gl, [s], map[st := 0.0], map[], map[st := 0], 1)
  {
    assert [s][0].id == st;
  }

  /** An empty open set means the goal node cannot be reached: every scored
      node is relaxed, so no walk from the start node leaves the scored
      nodes, and the goal node is not among them. */
  lemma SearchExhausted(m: NodeMap, st: nat, gl: nat, gScore: map<nat, real>,
                        cameFrom: map<nat, nat>, stamp: map<nat, nat>, clock: nat)
    requires Search(m, st, gl, [], gScore, cameFrom, stamp, clock)
    ensures !Reachable(m, st, gl)
  {
    forall ids | IsWalk(m, ids) && ids[0] == st
      ensures ids[|ids| - 1] != gl
    {
      WalkStaysInClosedSet(m, gScore, ids);
    }
  }

  /** Removing the popped state keeps the open set on scored nodes. */
  lemma PopKeepsScored(open: seq<State>, k: nat, rest: seq<State>, gScore: map<nat, real>)
    requires k < |open| && rest == open[..k] + open[k + 1..]
    requires forall i :: 0 <= i < |open| ==> open[i].id in gScore
    ensures forall i :: 0 <= i < |rest| ==> rest[i].id in gScore
  {
    forall i | 0 <= i < |rest| ensures rest[i].id in gScore {
      if i < k { assert rest[i] == open[i]; } else { assert rest[i] == open[i + 1]; }
    }
  }

  /** Popping a node other than the goal node and expanding it keeps the
      search invariant. */
  lemma SearchStep(m: NodeMap, goal: Point, dist: Metric, st: nat, gl: nat,
                   open: seq<State>, k: nat, gScore: map<nat, real>, cameFrom: map<nat, nat>,
                   stamp: map<nat, nat>, clock: nat,
                   open': seq<State>, gScore': map<nat, real>, cameFrom': map<nat, nat>,
                   stamp': map<nat, nat>, clock': nat)
    requires Search(m, st, gl, open, gScore, cameFrom, stamp, clock)
    requires k < |open| && open[k].id != gl
    requires Tree(m, gScore', cameFrom', stamp', clock')
    requires Pushed(m, goal, dist, open[..k] + open[k + 1..], open', gScore, gScore')
    requires gScore.Keys <= gScore'.Keys && forall v :: v in gScore ==> gScore'[v] <= gScore[v]
    requires Relaxed(m, gScore', open[k].id)
    requires Improved(m, open[k].id, gScore, gScore', cameFrom', open')
    requires Kept(gScore, cameFrom, gScore', cameFrom')
    ensures Search(m, st, gl, open', gScore', cameFrom', stamp', clock')
  {
    var u, rest := open[k].id, open[..k] + open[k + 1..];
    forall x | x in gScore' ensures InOpen(open', x) || Relaxed(m, gScore', x) {
      if x != u && x in gScore && gScore'[x] == gScore[x] {
        if InOpen(open, x) {
          StillOpen(open, k, rest, open', x);
        } else {
          StillRelaxed(m, gScore, gScore', x);
        }
      }
    }
    if gl in gScore && gScore'[gl] == gScore[gl] {
      StillOpen(open, k, rest, open', gl);
    }
  }

  /** A node other than the popped one stays open across pop and expansion. */
  lemma StillOpen(open: seq<State>, k: nat, rest: seq<State>, open': seq<State>, x: nat)
    requires k < |open| && rest == open[..k] + open[k + 1..]
    requires |rest| <= |open'| && open'[..|rest|] == rest
    requires InOpen(open, x) && open[k].id != x
    ensures InOpen(open', x)
  {
    PopKeepsOthers(open, k, x);
    var j :| 0 <= j < |rest| && rest[j].id == x;
    assert open'[j] == rest[j];
  }

  /** Lowering other scores keeps a node with an unchanged score relaxed. */
  lemma StillRelaxed(m: NodeMap, gScore: map<nat, real>, gScore': map<nat, real>, x: nat)
    requires Relaxed(m, gScore, x)
    requires gScore.Keys <= gScore'.Keys && forall v :: v in gScore ==> gScore'[v] <= gScore[v]
    requires x in gScore' && gScore'[x] == gScore[x]
    ensures Relaxed(m, gScore', x)
  {
  }

  /** The nodes `reconstruct_path` collects from the goal node form a walk
      from the start node. */
  lemma PathIsWalk(m: NodeMap, st: nat, gl: nat, open: seq<State>, gScore: map<nat, real>,
                   cameFrom: map<nat, nat>, stamp: map<nat, nat>, clock: nat, ids: seq<nat>)
    requires Search(m, st, gl, open, gScore, cameFrom, stamp, clock)
    requires |ids| > 0 && ids[0] !in cameFrom && forall i :: 0 <= i < |ids| ==> ids[i] in gScore
    requires forall i :: 1 <= i < |ids| ==> ids[i] in cameFrom && cameFrom[ids[i]] == ids[i - 1]
    ensures IsWalk(m, ids) && ids[0] == st
  {
    forall i | 0 <= i < |ids| - 1 ensures HasEdge(m, ids[i], ids[i + 1]) {
      assert cameFrom[ids[(i + 1)]] == ids[(i + 1) - 1];
    }
  }

  /** `a_star`: resolves both query points to their nearest nodes (an empty
      graph panics there), seeds the open set with the start node at g = 0
      and f = the distance between the two query points, and pops until the
      goal node is popped or the open set is empty. A found path is the
      positions of a walk along graph edges from the start node to the goal
      node; no path means the goal node cannot be reached from the start
      node. */
  method AStar(g: Graph, start: Point, goal: Point, dist: Metric, order: seq<nat>, fuel: nat)
    returns (r: Outcome)
    requires g.Valid() && IsEnumeration(order, g.nodes.Keys)
    ensures r.EmptyGraph? <==> g.nodes == map[]
    ensures r.Found? ==> exists ids ::
      && IsWalk(g.nodes, ids)
      && |r.path| == |ids|
      && (forall i :: 0 <= i < |ids| ==> r.path[i] == g.nodes[ids[i]].position)
      && NearestId(g.nodes, order, start, dist, ids[0])
      && NearestId(g.nodes, order, goal, dist, ids[|ids| - 1])
    ensures r.NoPath? ==> exists s, t ::
      && NearestId(g.nodes, order, start, dist, s)
      && NearestId(g.nodes, order, goal, dist, t)
      && !Reachable(g.nodes, s, t)
  {
    var stNode := g.FindNearest(start, dist, order);
    var glNode := g.FindNearest(goal, dist, order);
    if stNode.None? || glNode.None? {
      return EmptyGraph;
    }
    var st, gl := stNode.value.id, glNode.value.id;
    assert NearestId(g.nodes, order, start, dist, st) by {
      var k :| FirstNearest(g.nodes, order, start, dist, k) && stNode.value == g.nodes[order[k]];
      assert order[k] in g.nodes;
    }
    assert NearestId(g.nodes, order, goal, dist, gl) by {
      var k :| FirstNearest(g.nodes, order, goal, dist, k) && glNode.value == g.nodes[order[k]];
      assert order[k] in g.nodes;
    }
    var cameFrom: map<nat, nat> := map[];
    var gScore: map<nat, real> := map[];
    var open := [State(st, dist(start, goal), 0.0)];
    gScore := gScore[st := 0.0];
    ghost var stamp: map<nat, nat> := map[st := 0];
    ghost var clock: nat := 1;
    SearchStart(g.nodes, st, gl, open[0]);
    for steps := 0 to fuel
      invariant Search(g.nodes, st, gl, open, gScore, cameFrom, stamp, clock)
    {
      var top, rest := Pop(open);
      if top.None? {
        SearchExhausted(g.nodes, st, gl, gScore, cameFrom, stamp, clock);
        return NoPath;
      }
      var id := top.value.id;
      ghost var k :| 0 <= k < |open| && open[k] == top.value && rest == open[..k] + open[k + 1..];
      if id == gl {
        var path;
        ghost var ids;
        path, ids := ReconstructPath(g, cameFrom, id, gScore, stamp, clock);
        PathIsWalk(g.nodes, st, gl, open, gScore, cameFrom, stamp, clock, ids);
        return Found(path);
      }
      PopKeepsScored(open, k, rest, gScore);
      ghost var open0, gScore0, cameFrom0, stamp0, clock0 := open, gScore, cameFrom, stamp, clock;
      ghost var from;
      open, gScore, cameFrom, stamp, clock, from := Expand(g, goal, dist, id, rest, gScore, cameFrom, stamp, clock);
      SearchStep(g.nodes, goal, dist, st, gl, open0, k, gScore0, cameFrom0, stamp0, clock0,
                 open, gScore, cameFrom, stamp, clock);
    }
    return OutOfFuel;
  }
}
