/**
 Explore mode of the force graph (the script in tools/status-board/forcegraph.go): which nodes are
 opened, by clicks that reveal a node's downstream neighbours and double clicks that collapse it.
 Drawing and dragging are not part of this model.
 */
module ExploreGraph {
  datatype Node = Node(id: string, group: string)

  const EXTERNAL: string := "external"

  /** Nodes are known by their index; `downstream[i]` are the targets of the edges out of node `i`. */
  datatype Graph = Graph(nodes: seq<Node>, downstream: seq<set<nat>>) {
    ghost predicate Valid() {
      && |downstream| == |nodes|
      && (forall i, j :: 0 <= i < |nodes| && j in downstream[i] ==> j < |nodes|)
      && (forall i, j :: 0 <= i < |nodes| && 0 <= j < |nodes| && nodes[i].id == nodes[j].id ==> i == j)
    }

    predicate IsExternal(i: nat)
      requires i < |nodes|
    {
      nodes[i].group == EXTERNAL
    }
  }

  /** An edge from the node with index `source` to the one with index `target`. */
  datatype Edge = Edge(source: nat, target: nat)

  method Downstream(count: nat, edges: seq<Edge>) returns (downstream: seq<set<nat>>)
    requires forall e :: e in edges ==> e.source < count && e.target < count
    ensures |downstream| == count
    ensures forall i, j :: 0 <= i < count ==> (j in downstream[i] <==> Edge(i, j) in edges)
  {
    downstream := seq(count, _ => {});
    for k := 0 to |edges|
      invariant |downstream| == count
      invariant forall i, j :: 0 <= i < count ==> (j in downstream[i] <==> Edge(i, j) in edges[..k])
    {
      var e := edges[k];
      assert e in edges;
      assert edges[..k + 1] == edges[..k] + [e];
      downstream := downstream[e.source := downstream[e.source] + {e.target}];
    }
    assert edges[..|edges|] == edges;
  }

  // ---------- reachability ----------

  /** A walk from an external node along edges, each node after the first one opened. */
  ghost predicate IsWalk(g: Graph, openIds: set<string>, p: seq<nat>)
    requires g.Valid()
  {
    p != [] && p[|p| - 1] < |g.nodes| &&
    if |p| == 1 then g.IsExternal(p[0])
    else IsWalk(g, openIds, p[..|p| - 1]) && p[|p| - 1] in g.downstream[p[|p| - 2]] && g.nodes[p[|p| - 1]].id in openIds
  }

  ghost predicate Reachable(g: Graph, openIds: set<string>, i: nat)
    requires g.Valid()
  {
    exists p :: IsWalk(g, openIds, p) && p[|p| - 1] == i
  }

  lemma WalkFrom(g: Graph, openIds: set<string>, i: nat, j: nat)
    requires g.Valid() && Reachable(g, openIds, i) && i < |g.nodes|
    requires j in g.downstream[i] && g.nodes[j].id in openIds
    ensures Reachable(g, openIds, j)
  {
    var p :| IsWalk(g, openIds, p) && p[|p| - 1] == i;
    var q := p + [j];
    assert q[..|q| - 1] == p;
    assert IsWalk(g, openIds, q);
  }

  lemma ExternalReachable(g: Graph, openIds: set<string>, i: nat)
    requires g.Valid() && i < |g.nodes| && g.IsExternal(i)
    ensures Reachable(g, openIds, i)
  {
    assert IsWalk(g, openIds, [i]);
  }

  lemma {:induction false} WalkMore(g: Graph, openIds: set<string>, more: set<string>, p: seq<nat>)
    requires g.Valid() && IsWalk(g, openIds, p) && openIds <= more
    ensures IsWalk(g, more, p)
  {
    if |p| > 1 {
      WalkMore(g, openIds, more, p[..|p| - 1]);
    }
  }

  lemma ReachableMore(g: Graph, openIds: set<string>, more: set<string>, i: nat)
    requires g.Valid() && Reachable(g, openIds, i) && openIds <= more
    ensures Reachable(g, more, i)
  {
    var p :| IsWalk(g, openIds, p) && p[|p| - 1] == i;
    WalkMore(g, openIds, more, p);
  }

  /** Every opened id is that of a node reachable through opened nodes. */
  ghost predicate Explored(g: Graph, openIds: set<string>)
    requires g.Valid()
  {
    forall id :: id in openIds ==> Held(g, openIds, id)
  }

  ghost predicate Held(g: Graph, openIds: set<string>, id: string)
    requires g.Valid()
  {
    exists i: nat :: i < |g.nodes| && g.nodes[i].id == id && Reachable(g, openIds, i)
  }

  lemma HeldAt(g: Graph, openIds: set<string>, i: nat)
    requires g.Valid() && i < |g.nodes|
    ensures Held(g, openIds, g.nodes[i].id) <==> Reachable(g, openIds, i)
  {
  }

  // ---------- the two clicks ----------

  /** What a click on node `i` reveals: itself and its neighbours outside hidden groups. */
  function Revealed(g: Graph, hidden: set<string>, i: nat): set<string>
    requires g.Valid() && i < |g.nodes|
  {
    {g.nodes[i].id} + set j | j in g.downstream[i] && g.nodes[j].group !in hidden :: g.nodes[j].id
  }

  /** What a double click on node `i` leaves: everything else still reachable without it. */
  ghost function Collapsed(g: Graph, openIds: set<string>, i: nat): set<string>
    requires g.Valid() && i < |g.nodes|
  {
    set id | id in openIds - {g.nodes[i].id} && Held(g, openIds - {g.nodes[i].id}, id)
  }

  class Board {
    const g: Graph
    var hiddenGroups: set<string>
    var exploreMode: bool
    var openIds: set<string>

    /** The page is loaded with what an earlier one stored, perhaps for another graph; with nothing, at first. */
    constructor (g: Graph, stored: State)
      requires g.Valid()
      ensures this.g == g && View() == stored
    {
      this.g := g;
      hiddenGroups, exploreMode, openIds := stored.hidden, stored.exploring, stored.openIds;
    }

    ghost function View(): State
      reads this
    {
      State(hiddenGroups, exploreMode, openIds)
    }

    predicate NodeVisible(i: nat): (r: bool)
      requires i < |g.nodes|
      reads this
      ensures r == Visible(g, View(), i)
    {
      if g.nodes[i].group in hiddenGroups then false
      else if !exploreMode then true
      else if g.IsExternal(i) then true
      else g.nodes[i].id in openIds
    }

    method ExpandFrom(i: nat)
      requires g.Valid() && i < |g.nodes|
      modifies this`openIds
      ensures openIds == old(openIds) + Revealed(g, hiddenGroups, i)
    {
      openIds := openIds + {g.nodes[i].id};
      var rest := g.downstream[i];
      while rest != {}
        invariant rest <= g.downstream[i]
        invariant openIds == old(openIds) + {g.nodes[i].id}
          + set j | j in g.downstream[i] - rest && g.nodes[j].group !in hiddenGroups :: g.nodes[j].id
        decreases rest
      {
        var j :| j in rest;
        assert g.downstream[i] - (rest - {j}) == g.downstream[i] - rest + {j};
        rest := rest - {j};
        if g.nodes[j].group in hiddenGroups {
          continue;
        }
        openIds := openIds + {g.nodes[j].id};
      }
      assert g.downstream[i] - rest == g.downstream[i];
    }

    method CollapseFrom(i: nat)
      requires g.Valid() && i < |g.nodes|
      modifies this`openIds
      ensures openIds == Collapsed(g, old(openIds), i)
    {
      openIds := openIds - {g.nodes[i].id};
      ghost var before := openIds;
      var reachable, frontier := Roots();
      while frontier != []
        invariant openIds == before
        invariant Sound(g, openIds, reachable) && Queued(g, openIds, reachable, frontier)
        invariant Rooted(g, reachable) && Closed(g, openIds, reachable, frontier)
        decreases openIds - reachable, |frontier|
      {
        var k := frontier[0];
        assert k in frontier;
        ghost var queue := frontier;
        frontier := frontier[1..];
        assert forall m :: m in queue ==> m == k || m in frontier;
        if g.nodes[k].id !in openIds && !g.IsExternal(k) {
          continue;
        }
        reachable, frontier := Visit(k, reachable, frontier);
      }
      AllFound(g, openIds, reachable);
      var ids := openIds;
      while ids != {}
        invariant ids <= before
        invariant openIds == before - (set id | id in before - ids && id !in reachable)
        decreases ids
      {
        var id :| id in ids;
        ids := ids - {id};
        if id !in reachable {
          openIds := openIds - {id};
        }
      }
    }

    /** The first part of the search: it starts from every external node. */
    method Roots() returns (reachable: set<string>, frontier: seq<nat>)
      requires g.Valid()
      ensures Sound(g, openIds, reachable) && Queued(g, openIds, reachable, frontier)
      ensures Rooted(g, reachable) && Closed(g, openIds, reachable, frontier)
    {
      reachable, frontier := {}, [];
      for k := 0 to |g.nodes|
        invariant Sound(g, openIds, reachable) && Queued(g, openIds, reachable, frontier)
        invariant forall m :: 0 <= m < |g.nodes| ==>
                    (g.nodes[m].id in reachable <==> m < k && g.IsExternal(m))
                    && (m in frontier <==> m < k && g.IsExternal(m))
      {
        if g.nodes[k].group == EXTERNAL {
          ExternalReachable(g, openIds, k);
          HeldAt(g, openIds, k);
          frontier := frontier + [k];
          reachable := reachable + {g.nodes[k].id};
        }
      }
    }

    /** One turn of the search: the neighbours of `k` that are opened and new are queued. */
    method Visit(k: nat, reachable0: set<string>, frontier0: seq<nat>)
      returns (reachable: set<string>, frontier: seq<nat>)
      requires g.Valid() && k < |g.nodes|
      requires Sound(g, openIds, reachable0) && Queued(g, openIds, reachable0, frontier0)
      requires g.nodes[k].id in reachable0
      requires Closed(g, openIds, reachable0, frontier0 + [k])
      requires Rooted(g, reachable0)
      ensures Sound(g, openIds, reachable) && Queued(g, openIds, reachable, frontier)
      ensures Rooted(g, reachable) && Closed(g, openIds, reachable, frontier)
      ensures openIds - reachable < openIds - reachable0 || (reachable == reachable0 && frontier == frontier0)
    {
      reachable, frontier := reachable0, frontier0;
      HeldAt(g, openIds, k);
      var rest := g.downstream[k];
      while rest != {}
        invariant rest <= g.downstream[k] && reachable0 <= reachable
        invariant Sound(g, openIds, reachable) && Queued(g, openIds, reachable, frontier)
        invariant Closed(g, openIds, reachable, frontier + [k])
        invariant forall j :: j in g.downstream[k] - rest && g.nodes[j].id in openIds ==> g.nodes[j].id in reachable
        invariant openIds - reachable < openIds - reachable0 || (reachable == reachable0 && frontier == frontier0)
        decreases rest
      {
        var j :| j in rest;
        rest := rest - {j};
        if g.nodes[j].id !in openIds {
          continue;
        }
        if g.nodes[j].id in reachable {
          continue;
        }
        WalkFrom(g, openIds, k, j);
        HeldAt(g, openIds, j);
        reachable := reachable + {g.nodes[j].id};
        frontier := frontier + [j];
      }
    }

    method SetGroup(group: string, shown: bool)
      modifies this`hiddenGroups
      ensures hiddenGroups == if shown then old(hiddenGroups) - {group} else old(hiddenGroups) + {group}
    {
      if shown {
        hiddenGroups := hiddenGroups - {group};
      } else {
        hiddenGroups := hiddenGroups + {group};
      }
    }

    method SetExplore(on: bool)
      modifies this`exploreMode, this`openIds
      ensures exploreMode == on && openIds == if on then old(openIds) else {}
    {
      exploreMode := on;
      if !exploreMode {
        openIds := {};
      }
    }

    /** A user's action; clicks outside explore mode do other things. */
    method Act(e: Event)
      requires g.Valid() && Possible(g, View(), e)
      modifies this
      ensures View() == Step(g, old(View()), e)
    {
      match e
      case Click(i) => if exploreMode { ExpandFrom(i); }
      case DoubleClick(i) => if exploreMode { CollapseFrom(i); }
      case Group(group, shown) => SetGroup(group, shown);
      case Explore(on) => SetExplore(on);
    }
  }

  // ---------- the search ----------

  ghost predicate Sound(g: Graph, openIds: set<string>, reachable: set<string>)
    requires g.Valid()
  {
    forall id :: id in reachable ==> Held(g, openIds, id)
  }

  ghost predicate Queued(g: Graph, openIds: set<string>, reachable: set<string>, frontier: seq<nat>) {
    forall k :: k in frontier ==>
      k < |g.nodes| && g.nodes[k].id in reachable && (g.nodes[k].id in openIds || g.IsExternal(k))
  }

  ghost predicate Rooted(g: Graph, reachable: set<string>) {
    forall k :: 0 <= k < |g.nodes| && g.IsExternal(k) ==> g.nodes[k].id in reachable
  }

  /** Of a node found and no longer queued, all opened neighbours have been found. */
  ghost predicate Closed(g: Graph, openIds: set<string>, reachable: set<string>, frontier: seq<nat>)
    requires g.Valid()
  {
    forall k, j ::
      && 0 <= k < |g.nodes| && g.nodes[k].id in reachable && k !in frontier
      && j in g.downstream[k] && g.nodes[j].id in openIds
      ==> g.nodes[j].id in reachable
  }

  lemma {:induction false} WalkFound(g: Graph, openIds: set<string>, reachable: set<string>, p: seq<nat>)
    requires g.Valid() && Rooted(g, reachable) && Closed(g, openIds, reachable, [])
    requires IsWalk(g, openIds, p)
    ensures g.nodes[p[|p| - 1]].id in reachable
  {
    if |p| > 1 {
      WalkFound(g, openIds, reachable, p[..|p| - 1]);
    }
  }

  lemma AllFound(g: Graph, openIds: set<string>, reachable: set<string>)
    requires g.Valid() && Rooted(g, reachable) && Closed(g, openIds, reachable, []) && Sound(g, openIds, reachable)
    ensures forall id :: id in reachable <==> Held(g, openIds, id)
  {
    forall id | Held(g, openIds, id) ensures id in reachable {
      var i: nat :| i < |g.nodes| && g.nodes[i].id == id && Reachable(g, openIds, i);
      var p :| IsWalk(g, openIds, p) && p[|p| - 1] == i;
      WalkFound(g, openIds, reachable, p);
    }
  }

  // ---------- runs ----------

  datatype State = State(hidden: set<string>, exploring: bool, openIds: set<string>)

  datatype Event = Click(i: nat) | DoubleClick(i: nat) | Group(group: string, shown: bool) | Explore(on: bool)

  predicate Visible(g: Graph, s: State, i: nat)
    requires i < |g.nodes|
  {
    g.nodes[i].group !in s.hidden && (!s.exploring || g.IsExternal(i) || g.nodes[i].id in s.openIds)
  }

  /** Only visible nodes can be clicked. */
  predicate Possible(g: Graph, s: State, e: Event) {
    match e
    case Click(i) => i < |g.nodes| && Visible(g, s, i)
    case DoubleClick(i) => i < |g.nodes| && Visible(g, s, i)
    case _ => true
  }

  ghost function Step(g: Graph, s: State, e: Event): State
    requires g.Valid() && Possible(g, s, e)
  {
    match e
    case Click(i) => if s.exploring then s.(openIds := s.openIds + Revealed(g, s.hidden, i)) else s
    case DoubleClick(i) => if s.exploring then s.(openIds := Collapsed(g, s.openIds, i)) else s
    case Group(group, shown) => s.(hidden := if shown then s.hidden - {group} else s.hidden + {group})
    case Explore(on) => s.(exploring := on, openIds := if on then s.openIds else {})
  }

  /**
   A click on a visible node shows its neighbours outside hidden groups, and no other node that was not shown; those in
   hidden groups stay closed, so they do not appear when their group does.
   */
  lemma ClickShows(g: Graph, s: State, i: nat, j: nat)
    requires g.Valid() && Possible(g, s, Click(i)) && s.exploring && j < |g.nodes|
    ensures var s', shown := Step(g, s, Click(i)), j in g.downstream[i] && g.nodes[j].group !in s.hidden;
      && s'.hidden == s.hidden && s'.exploring
      && (Visible(g, s', j) <==> Visible(g, s, j) || shown)
      && (g.nodes[j].id in s'.openIds <==> g.nodes[j].id in s.openIds || j == i || shown)
  {
    var s' := Step(g, s, Click(i));
    forall k | k in g.downstream[i] && g.nodes[k].group !in s.hidden && g.nodes[k].id == g.nodes[j].id ensures k == j {
    }
  }

  /**
   What the boxes do: a node is shown when its group is, and in explore mode only if it is external or opened; leaving
   explore mode shows all of them again and closes what was opened.
   */
  lemma BoxesShow(g: Graph, s: State, e: Event, i: nat)
    requires g.Valid() && (e.Group? || e.Explore?) && i < |g.nodes|
    ensures var s', group := Step(g, s, e), g.nodes[i].group;
      match e
      case Group(name, shown) =>
        && s'.exploring == s.exploring && s'.openIds == s.openIds
        && (Visible(g, s', i) <==>
              && (group in s.hidden ==> group == name) && (group == name ==> shown)
              && (s.exploring ==> g.IsExternal(i) || g.nodes[i].id in s.openIds))
      case Explore(on) =>
        && s'.hidden == s.hidden && s'.exploring == on && (if on then s'.openIds == s.openIds else s'.openIds == {})
        && (Visible(g, s', i) <==> group !in s.hidden && (on ==> g.IsExternal(i) || g.nodes[i].id in s.openIds))
      case _ => true
  {
  }

  lemma ClickKeeps(g: Graph, s: State, i: nat)
    requires g.Valid() && Explored(g, s.openIds) && i < |g.nodes| && s.exploring && Visible(g, s, i)
    ensures Explored(g, s.openIds + Revealed(g, s.hidden, i))
  {
    var more := s.openIds + Revealed(g, s.hidden, i);
    if g.IsExternal(i) {
      ExternalReachable(g, more, i);
    } else {
      HeldAt(g, s.openIds, i);
      ReachableMore(g, s.openIds, more, i);
    }
    forall id | id in more ensures Held(g, more, id) {
      if id in s.openIds {
        var k: nat :| k < |g.nodes| && g.nodes[k].id == id && Reachable(g, s.openIds, k);
        ReachableMore(g, s.openIds, more, k);
      } else if id != g.nodes[i].id {
        var j :| j in g.downstream[i] && g.nodes[j].id == id;
        WalkFrom(g, more, i, j);
      }
    }
  }

  /** On a walk every node is itself reachable. */
  lemma {:induction false} WalkKept(g: Graph, openIds: set<string>, kept: set<string>, p: seq<nat>)
    requires g.Valid() && IsWalk(g, openIds, p)
    requires forall id :: id in openIds && Held(g, openIds, id) ==> id in kept
    ensures IsWalk(g, kept, p)
  {
    if |p| > 1 {
      WalkKept(g, openIds, kept, p[..|p| - 1]);
      HeldAt(g, openIds, p[|p| - 1]);
      assert Reachable(g, openIds, p[|p| - 1]);
    }
  }

  /** What a double click leaves is reachable through what it leaves, and is the most that could be left. */
  lemma CollapsedIsGreatest(g: Graph, openIds: set<string>, i: nat, other: set<string>)
    requires g.Valid() && i < |g.nodes|
    ensures Explored(g, Collapsed(g, openIds, i))
    ensures other <= openIds - {g.nodes[i].id} && Explored(g, other) ==> other <= Collapsed(g, openIds, i)
  {
    var rest, kept := openIds - {g.nodes[i].id}, Collapsed(g, openIds, i);
    forall id | id in kept ensures Held(g, kept, id) {
      var k: nat :| k < |g.nodes| && g.nodes[k].id == id && Reachable(g, rest, k);
      var p :| IsWalk(g, rest, p) && p[|p| - 1] == k;
      WalkKept(g, rest, kept, p);
    }
    if other <= rest && Explored(g, other) {
      forall id | id in other ensures id in kept {
        assert Held(g, other, id);
        var k: nat :| k < |g.nodes| && g.nodes[k].id == id && Reachable(g, other, k);
        ReachableMore(g, other, rest, k);
      }
    }
  }

  /** What a walk reaches can be reached without the id of an external node. */
  lemma {:induction false} WalkWithout(g: Graph, openIds: set<string>, i: nat, p: seq<nat>)
    requires g.Valid() && i < |g.nodes| && g.IsExternal(i) && IsWalk(g, openIds, p)
    ensures Reachable(g, openIds - {g.nodes[i].id}, p[|p| - 1])
  {
    var rest, last := openIds - {g.nodes[i].id}, p[|p| - 1];
    if |p| == 1 || last == i {
      ExternalReachable(g, rest, last);
    } else {
      WalkWithout(g, openIds, i, p[..|p| - 1]);
      WalkFrom(g, rest, p[|p| - 2], last);
    }
  }

  /** Collapsing an external node takes back none of what was revealed through it: the search starts from it. */
  lemma CollapseExternal(g: Graph, openIds: set<string>, i: nat)
    requires g.Valid() && i < |g.nodes| && g.IsExternal(i) && Explored(g, openIds)
    ensures Collapsed(g, openIds, i) == openIds - {g.nodes[i].id}
  {
    forall id | id in openIds - {g.nodes[i].id} ensures id in Collapsed(g, openIds, i) {
      var k: nat :| k < |g.nodes| && g.nodes[k].id == id && Reachable(g, openIds, k);
      var p :| IsWalk(g, openIds, p) && p[|p| - 1] == k;
      WalkWithout(g, openIds, i, p);
    }
  }

  // ---------- when a double click takes back all it should ----------

  /** Reachable by a walk that never meets node `i`. */
  ghost predicate ReachableAround(g: Graph, openIds: set<string>, i: nat, j: nat)
    requires g.Valid()
  {
    exists p :: IsWalk(g, openIds, p) && i !in p && p[|p| - 1] == j
  }

  ghost predicate HeldAround(g: Graph, openIds: set<string>, i: nat, id: string)
    requires g.Valid()
  {
    exists j: nat :: j < |g.nodes| && g.nodes[j].id == id && ReachableAround(g, openIds, i, j)
  }

  /** The double click on `i` leaves exactly what can be reached otherwise than through `i`. */
  ghost predicate Complete(g: Graph, openIds: set<string>, i: nat)
    requires g.Valid() && i < |g.nodes|
  {
    forall id :: id in Collapsed(g, openIds, i) <==> id in openIds && HeldAround(g, openIds, i, id)
  }

  /** Another external node leads straight to `j`. */
  ghost predicate OtherwiseShown(g: Graph, i: nat, j: nat)
    requires g.Valid()
  {
    exists k :: 0 <= k < |g.nodes| && k != i && g.IsExternal(k) && j in g.downstream[k]
  }

  /** What can be told from the graph alone: no neighbour of an external `i` depends on it. */
  ghost predicate Dispensable(g: Graph, i: nat)
    requires g.Valid() && i < |g.nodes|
  {
    g.IsExternal(i) ==> forall j :: j in g.downstream[i] && j != i && !g.IsExternal(j) ==> OtherwiseShown(g, i, j)
  }

  /** Without its id, no walk meets a node that is not external. */
  lemma {:induction false} WalkAround(g: Graph, openIds: set<string>, i: nat, p: seq<nat>)
    requires g.Valid() && i < |g.nodes| && !g.IsExternal(i) && IsWalk(g, openIds - {g.nodes[i].id}, p)
    ensures i !in p && IsWalk(g, openIds, p)
  {
    if |p| > 1 {
      WalkAround(g, openIds, i, p[..|p| - 1]);
      assert p == p[..|p| - 1] + [p[|p| - 1]];
    }
  }

  /** A walk that does not meet a node does not need its id. */
  lemma {:induction false} AroundWalk(g: Graph, openIds: set<string>, i: nat, p: seq<nat>)
    requires g.Valid() && i < |g.nodes| && IsWalk(g, openIds, p) && i !in p
    ensures IsWalk(g, openIds - {g.nodes[i].id}, p)
  {
    if |p| > 1 {
      assert p[|p| - 1] in p;
      AroundWalk(g, openIds, i, p[..|p| - 1]);
    }
  }

  lemma ExternalAround(g: Graph, openIds: set<string>, i: nat, k: nat)
    requires g.Valid() && k < |g.nodes| && k != i && g.IsExternal(k)
    ensures ReachableAround(g, openIds, i, k)
  {
    assert IsWalk(g, openIds, [k]);
  }

  lemma StepAround(g: Graph, openIds: set<string>, i: nat, k: nat, j: nat)
    requires g.Valid() && k < |g.nodes| && ReachableAround(g, openIds, i, k)
    requires j in g.downstream[k] && j != i && g.nodes[j].id in openIds
    ensures ReachableAround(g, openIds, i, j)
  {
    var p :| IsWalk(g, openIds, p) && i !in p && p[|p| - 1] == k;
    var q := p + [j];
    assert q[..|q| - 1] == p;
    assert IsWalk(g, openIds, q);
  }

  /** If `i` is dispensable a walk through it can go around it. */
  lemma {:induction false} Detour(g: Graph, openIds: set<string>, i: nat, p: seq<nat>)
    requires g.Valid() && i < |g.nodes| && g.IsExternal(i) && Dispensable(g, i)
    requires IsWalk(g, openIds, p) && p[|p| - 1] != i
    ensures ReachableAround(g, openIds, i, p[|p| - 1])
  {
    var j := p[|p| - 1];
    if g.IsExternal(j) {
      ExternalAround(g, openIds, i, j);
    } else if p[|p| - 2] == i {
      assert OtherwiseShown(g, i, j);
      var k :| 0 <= k < |g.nodes| && k != i && g.IsExternal(k) && j in g.downstream[k];
      ExternalAround(g, openIds, i, k);
      StepAround(g, openIds, i, k, j);
    } else {
      Detour(g, openIds, i, p[..|p| - 1]);
      StepAround(g, openIds, i, p[|p| - 2], j);
    }
  }

  lemma NotAroundItself(g: Graph, openIds: set<string>, i: nat)
    requires g.Valid()
    ensures !ReachableAround(g, openIds, i, i)
  {
    forall p | IsWalk(g, openIds, p) && i !in p ensures p[|p| - 1] != i {
      assert p[|p| - 1] in p;
    }
  }

  lemma CompletePlain(g: Graph, openIds: set<string>, i: nat)
    requires g.Valid() && i < |g.nodes| && !g.IsExternal(i)
    ensures Complete(g, openIds, i)
  {
    var rest := openIds - {g.nodes[i].id};
    forall j: nat | j < |g.nodes|
      ensures g.nodes[j].id in rest && Reachable(g, rest, j)
         <==> g.nodes[j].id in openIds && ReachableAround(g, openIds, i, j)
    {
      if p :| IsWalk(g, rest, p) && p[|p| - 1] == j {
        WalkAround(g, openIds, i, p);
      }
      if p :| IsWalk(g, openIds, p) && i !in p && p[|p| - 1] == j {
        AroundWalk(g, openIds, i, p);
        assert j in p;
      }
    }
  }

  lemma CompleteExternal(g: Graph, openIds: set<string>, i: nat)
    requires g.Valid() && i < |g.nodes| && g.IsExternal(i) && Dispensable(g, i) && Explored(g, openIds)
    ensures Complete(g, openIds, i)
  {
    CollapseExternal(g, openIds, i);
    forall id | id in openIds ensures id != g.nodes[i].id <==> HeldAround(g, openIds, i, id) {
      assert Held(g, openIds, id);
      var j: nat :| j < |g.nodes| && g.nodes[j].id == id && Reachable(g, openIds, j);
      if j != i {
        var p :| IsWalk(g, openIds, p) && p[|p| - 1] == j;
        Detour(g, openIds, i, p);
      } else {
        NotAroundItself(g, openIds, i);
      }
    }
  }

  /** Opened through `i` and nothing else, `j` has no walk around it. */
  lemma {:induction false} NoWayAround(g: Graph, i: nat, j: nat, p: seq<nat>)
    requires g.Valid() && i < |g.nodes| && j < |g.nodes| && !g.IsExternal(j) && !OtherwiseShown(g, i, j)
    requires IsWalk(g, {g.nodes[j].id}, p) && p[|p| - 1] == j
    ensures i in p
  {
    var init := p[..|p| - 1];
    var prev := init[|init| - 1];
    assert prev in p && j in g.downstream[prev];
    if |init| > 1 {
      NoWayAround(g, i, j, init);
      assert i in p;
    } else {
      assert g.IsExternal(prev);
    }
  }

  /** An external node with a neighbour that depends on it keeps that neighbour open. */
  lemma NotComplete(g: Graph, i: nat, j: nat)
    requires g.Valid() && i < |g.nodes| && g.IsExternal(i)
    requires j in g.downstream[i] && j != i && !g.IsExternal(j) && !OtherwiseShown(g, i, j)
    ensures Explored(g, {g.nodes[j].id}) && !Complete(g, {g.nodes[j].id}, i)
  {
    var openIds := {g.nodes[j].id};
    ExternalReachable(g, openIds, i);
    WalkFrom(g, openIds, i, j);
    CollapseExternal(g, openIds, i);
    assert g.nodes[j].id in Collapsed(g, openIds, i);
    if HeldAround(g, openIds, i, g.nodes[j].id) {
      var p :| IsWalk(g, openIds, p) && i !in p && p[|p| - 1] == j;
      NoWayAround(g, i, j, p);
      assert false;
    }
  }

  /**
   A double click takes back everything that was reachable only through the node, whatever is
   opened, exactly when the node is not external or each of its neighbours that is not external
   itself has another external node leading straight to it.
   */
  lemma CompleteIff(g: Graph, i: nat)
    requires g.Valid() && i < |g.nodes|
    ensures Dispensable(g, i) <==> forall openIds :: Explored(g, openIds) ==> Complete(g, openIds, i)
  {
    if Dispensable(g, i) {
      forall openIds | Explored(g, openIds) ensures Complete(g, openIds, i) {
        if g.IsExternal(i) {
          CompleteExternal(g, openIds, i);
        } else {
          CompletePlain(g, openIds, i);
        }
      }
    } else {
      var j :| j in g.downstream[i] && j != i && !g.IsExternal(j) && !OtherwiseShown(g, i, j);
      NotComplete(g, i, j);
    }
  }

  /** The internet and one host behind it, both opened: a double click on the internet leaves the host. */
  lemma OneHostStays(g: Graph, openIds: set<string>)
    requires g == Graph([Node("ext", EXTERNAL), Node("host:medano", "vm")], [{1}, {}])
    requires openIds == {"ext", "host:medano"}
    ensures g.Valid() && Explored(g, openIds)
    ensures Collapsed(g, openIds, 0) == {"host:medano"} && !HeldAround(g, openIds, 0, "host:medano")
  {
    assert g.nodes[0].id == "ext" && g.nodes[1].id == "host:medano";
    assert "ext"[0] != "host:medano"[0] && EXTERNAL[0] != "vm"[0];
    assert g.downstream[0] == {1} && g.downstream[1] == {};
    ExternalReachable(g, openIds, 0);
    WalkFrom(g, openIds, 0, 1);
    CollapseExternal(g, openIds, 0);
    if HeldAround(g, openIds, 0, "host:medano") {
      var p :| IsWalk(g, openIds, p) && 0 !in p && p[|p| - 1] == 1;
      ThroughTheNet(g, openIds, p);
      assert false;
    }
  }

  lemma ThroughTheNet(g: Graph, openIds: set<string>, p: seq<nat>)
    requires g == Graph([Node("ext", EXTERNAL), Node("host:medano", "vm")], [{1}, {}]) && g.Valid()
    requires IsWalk(g, openIds, p) && p[|p| - 1] == 1
    ensures 0 in p
  {
    assert EXTERNAL[0] != "vm"[0];
    if |p| > 1 {
      var init := p[..|p| - 1];
      var prev := init[|init| - 1];
      assert prev in p && 1 in g.downstream[prev];
    }
  }

  // ---------- whole runs ----------

  /** A run from what was stored. */
  ghost predicate PossibleRun(g: Graph, stored: State, events: seq<Event>)
    requires g.Valid()
    decreases |events|, 0
  {
    events == [] ||
    (PossibleRun(g, stored, events[..|events| - 1])
     && Possible(g, Run(g, stored, events[..|events| - 1]), events[|events| - 1]))
  }

  ghost function Run(g: Graph, stored: State, events: seq<Event>): State
    requires g.Valid() && PossibleRun(g, stored, events)
    decreases |events|, 1
  {
    if events == [] then stored
    else Step(g, Run(g, stored, events[..|events| - 1]), events[|events| - 1])
  }

  /** Every opened node is reachable from an external one through opened nodes; outside explore mode there is none. */
  ghost predicate Tidy(g: Graph, s: State)
    requires g.Valid()
  {
    Explored(g, s.openIds) && (!s.exploring ==> s.openIds == {})
  }

  const NOTHING_STORED: State := State({}, false, {})

  lemma StepTidy(g: Graph, s: State, e: Event)
    requires g.Valid() && Possible(g, s, e) && (Tidy(g, s) || Clears(s, e))
    ensures Tidy(g, Step(g, s, e))
  {
    if s.exploring && e.Click? {
      ClickKeeps(g, s, e.i);
    } else if s.exploring && e.DoubleClick? {
      CollapsedIsGreatest(g, s.openIds, e.i, {});
    }
  }

  /** A double click in explore mode, or leaving it. */
  predicate Clears(s: State, e: Event) {
    (s.exploring && e.DoubleClick?) || e == Explore(false)
  }

  ghost predicate Cleared(g: Graph, stored: State, events: seq<Event>)
    requires g.Valid() && PossibleRun(g, stored, events)
  {
    events != [] &&
    (Cleared(g, stored, events[..|events| - 1])
     || Clears(Run(g, stored, events[..|events| - 1]), events[|events| - 1]))
  }

  /**
   Whatever the user does, every opened node is reachable from an external one through opened
   nodes: from the start when what was stored is, nothing for instance, and else from the first
   double click or change of mode on, whatever was stored.
   */
  lemma {:induction false} AlwaysExplored(g: Graph, stored: State, events: seq<Event>)
    requires g.Valid() && PossibleRun(g, stored, events)
    requires Tidy(g, stored) || stored == NOTHING_STORED || Cleared(g, stored, events)
    ensures Tidy(g, Run(g, stored, events))
  {
    if events != [] {
      var init := events[..|events| - 1];
      if Tidy(g, stored) || stored == NOTHING_STORED || Cleared(g, stored, init) {
        AlwaysExplored(g, stored, init);
      }
      StepTidy(g, Run(g, stored, init), events[|events| - 1]);
    }
  }

  /** So in explore mode nothing is shown that no external node leads to. */
  lemma VisibleReachable(g: Graph, stored: State, events: seq<Event>, i: nat)
    requires g.Valid() && PossibleRun(g, stored, events) && i < |g.nodes|
    requires Tidy(g, stored) || stored == NOTHING_STORED || Cleared(g, stored, events)
    requires Run(g, stored, events).exploring && Visible(g, Run(g, stored, events), i)
    ensures Reachable(g, Run(g, stored, events).openIds, i)
  {
    AlwaysExplored(g, stored, events);
    if g.IsExternal(i) {
      ExternalReachable(g, Run(g, stored, events).openIds, i);
    } else {
      HeldAt(g, Run(g, stored, events).openIds, i);
    }
  }
}
