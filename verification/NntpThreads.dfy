/** Thread reconstruction in the news client (ops/pkgs/nntpc/nntpc.go, buildTree). */
module NntpThreads {
  import opened Common
  import opened Forest
  import opened SharedNodes
  import opened Threading
  import Text

  /** One line of the server's XOVER answer. */
  datatype Overview = Overview(number: int, subject: string, from: string, date: string,
                               msgID: string, references: string, lineCount: int)

  /** Message-ids within one fetched group differ. */
  ghost predicate DistinctIDs(ovs: seq<Overview>) {
    forall i, j :: 0 <= i < j < |ovs| ==> ovs[i].msgID != ovs[j].msgID
  }

  /** The last entry of a References header, if there is one. */
  function LastRef(references: string): Option<string> {
    var refs := Text.Fields(references);
    if refs == [] then None else Some(refs[|refs| - 1])
  }

  function MsgIDs(ovs: seq<Overview>): (r: seq<string>)
    ensures |r| == |ovs| && forall i :: 0 <= i < |ovs| ==> r[i] == ovs[i].msgID
  {
    seq(|ovs|, i requires 0 <= i < |ovs| => ovs[i].msgID)
  }

  /** An article hangs below the article its last reference names, if that one was fetched. */
  function LinkOf(ovs: seq<Overview>, i: nat): Link
    requires i < |ovs|
  {
    match LastRef(ovs[i].references)
    case None => Root(false)
    case Some(id) =>
      match FindLast(MsgIDs(ovs), id)
      case None => Root(false)
      case Some(p) => Under(p)
  }

  function LinkBy(ovs: seq<Overview>): nat -> Link {
    (i: nat) => if i < |ovs| then LinkOf(ovs, i) else Lost
  }

  function LinksOf(ovs: seq<Overview>): Links {
    Tabulate(LinkBy(ovs), |ovs|)
  }

  lemma LinkAt(ovs: seq<Overview>, i: nat)
    requires i < |ovs|
    ensures |LinksOf(ovs)| == |ovs| && LinksOf(ovs)[i] == LinkOf(ovs, i)
  {
    TabulateAt(LinkBy(ovs), |ovs|, i);
  }

  ghost function Roots(ovs: seq<Overview>): seq<nat> {
    Select(LinksOf(ovs), Root(false), |ovs|)
  }

  /** The threads of a fetched list: every article in them as its path, depth first. */
  ghost function Threads(ovs: seq<Overview>): seq<seq<nat>> {
    Below(LinksOf(ovs), [], Roots(ovs))
  }

  /** Articles under one message-id share the node of the last of them. */
  function Sharer(ovs: seq<Overview>, i: nat): (r: nat)
    requires i < |ovs|
    ensures r < |ovs| && ovs[r].msgID == ovs[i].msgID
  {
    FindLast(MsgIDs(ovs), ovs[i].msgID).value
  }

  function Sharers(ovs: seq<Overview>): (r: seq<nat>)
    ensures |r| == |ovs| && forall i :: 0 <= i < |ovs| ==> r[i] == Sharer(ovs, i)
  {
    seq(|ovs|, i requires 0 <= i < |ovs| => Sharer(ovs, i))
  }

  /** What `flatten` lists: all ways from the roots down, depth first. */
  ghost function Calls(ovs: seq<Overview>): seq<seq<nat>> {
    Ways(LinksOf(ovs), Sharers(ovs), [], Roots(ovs))
  }

  /** The client's ThreadNode. */
  type ThreadNode = Node<Overview>

  /** `named[i]` is the node that stands for entry `i`. */
  ghost predicate Shared(rep: seq<nat>, nodes: seq<ThreadNode>, named: seq<ThreadNode>) {
    |rep| == |nodes| == |named| && forall i :: 0 <= i < |rep| ==> rep[i] < |nodes| && named[i] == nodes[rep[i]]
  }

  /** The depths by node. */
  ghost function Depths(nodes: seq<ThreadNode>): (r: seq<int>)
    reads nodes`Depth
    ensures |r| == |nodes|
  {
    if nodes == [] then [] else Depths(nodes[..|nodes| - 1]) + [nodes[|nodes| - 1].Depth]
  }

  lemma {:induction false} DepthsAre(nodes: seq<ThreadNode>)
    ensures forall j :: 0 <= j < |nodes| ==> Depths(nodes)[j] == nodes[j].Depth
  {
    if nodes != [] {
      DepthsAre(nodes[..|nodes| - 1]);
    }
  }

  /** From `flat` to `flat'`, and from the depths `d` to `d'`: these ways are listed, and their depths set. */
  ghost predicate Lists(rep: seq<nat>, named: seq<ThreadNode>, out: seq<seq<nat>>,
                        flat: seq<ThreadNode>, flat': seq<ThreadNode>, d: seq<int>, d': seq<int>) {
    && InRange(Lasts(out), |named|) && flat' == flat + At(named, Lasts(out))
    && |d| == |d'| && forall j :: 0 <= j < |d| ==> d'[j] == DepthIn(rep, out, j, d[j])
  }

  lemma ListsNone(rep: seq<nat>, named: seq<ThreadNode>, flat: seq<ThreadNode>, d: seq<int>)
    ensures Lists(rep, named, [], flat, flat, d, d)
  {
  }

  lemma ListsMore(rep: seq<nat>, named: seq<ThreadNode>, out: seq<seq<nat>>, more: seq<seq<nat>>,
                  f0: seq<ThreadNode>, f1: seq<ThreadNode>, f2: seq<ThreadNode>,
                  d0: seq<int>, d1: seq<int>, d2: seq<int>)
    requires Lists(rep, named, out, f0, f1, d0, d1) && Lists(rep, named, more, f1, f2, d1, d2)
    ensures Lists(rep, named, out + more, f0, f2, d0, d2)
  {
    LastsConcat(out, more);
    AtConcat(named, Lasts(out), Lasts(more));
    Assoc(f0, At(named, Lasts(out)), At(named, Lasts(more)));
    forall j | 0 <= j < |d0| ensures d2[j] == DepthIn(rep, out + more, j, d0[j]) {
      DepthConcat(rep, out, more, j, d0[j]);
    }
  }

  /** One more child listed, with what is below it. */
  lemma ListsKid(links: Links, rep: seq<nat>, named: seq<ThreadNode>, p: seq<nat>, kids: seq<nat>,
                 i: nat, done: seq<seq<nat>>, f0: seq<ThreadNode>, f1: seq<ThreadNode>, f2: seq<ThreadNode>,
                 d0: seq<int>, d1: seq<int>, d2: seq<int>)
    requires |p| < |links| && i < |kids| && Ways(links, rep, p, kids) == done + Ways(links, rep, p, kids[i..])
    requires Lists(rep, named, done, f0, f1, d0, d1)
    requires Lists(rep, named, WaysFrom(links, rep, p, kids[i]), f1, f2, d1, d2)
    ensures var done' := done + WaysFrom(links, rep, p, kids[i]);
      && Ways(links, rep, p, kids) == done' + Ways(links, rep, p, kids[i + 1..])
      && Lists(rep, named, done', f0, f2, d0, d2)
  {
    WaysStep(links, rep, p, kids, i, done);
    ListsMore(rep, named, done, WaysFrom(links, rep, p, kids[i]), f0, f1, f2, d0, d1, d2);
  }

  /** What the two loops of buildTree make: every node has exactly its replies, by the nodes they share. */
  ghost predicate Built(links: Links, rep: seq<nat>, nodes: seq<ThreadNode>, named: seq<ThreadNode>)
    reads nodes`Children
  {
    Linked(links, nodes, named) && Shared(rep, nodes, named) && Bounded(links, rep)
  }

  class App {
    var overviews: seq<Overview>
    var flatThreads: seq<ThreadNode>

    constructor (ovs: seq<Overview>)
      ensures overviews == ovs
    {
      overviews, flatThreads := ovs, [];
    }

    /** The inner closure of buildTree: appends what is below `ns`, setting the depths. */
    method Flatten(ns: seq<ThreadNode>, depth: nat, ghost links: Links, ghost rep: seq<nat>,
                   ghost nodes: seq<ThreadNode>, ghost named: seq<ThreadNode>, ghost p: seq<nat>, ghost kids: seq<nat>)
      requires Built(links, rep, nodes, named)
      requires depth == |p| && Continues(links, rep, p, kids) && InRange(kids, |named|) && ns == At(named, kids)
      modifies this`flatThreads, nodes`Depth
      ensures Lists(rep, named, Ways(links, rep, p, kids),
                    old(flatThreads), flatThreads, old(Depths(nodes)), Depths(nodes))
      decreases |links| - depth, 1
    {
      ghost var done: seq<seq<nat>>, flat, depths := [], flatThreads, Depths(nodes);
      ListsNone(rep, named, flat, depths);
      for i := 0 to |ns|
        invariant Built(links, rep, nodes, named)
        invariant Ways(links, rep, p, kids) == done + Ways(links, rep, p, kids[i..])
        invariant Lists(rep, named, done, flat, flatThreads, depths, Depths(nodes))
      {
        ghost var flat', depths', here := flatThreads, Depths(nodes), WaysFrom(links, rep, p, kids[i]);
        AtIndex(named, kids, i);
        FlattenNode(ns[i], depth, links, rep, nodes, named, p, kids[i]);
        ListsKid(links, rep, named, p, kids, i, done, flat, flat', flatThreads, depths, depths', Depths(nodes));
        done := done + here;
      }
      assert kids[|ns|..] == [] && Ways(links, rep, p, kids) == done;
    }

    /** The body of its loop: one node, then everything below it. */
    method FlattenNode(n: ThreadNode, depth: nat, ghost links: Links, ghost rep: seq<nat>,
                       ghost nodes: seq<ThreadNode>, ghost named: seq<ThreadNode>, ghost p: seq<nat>, ghost k: nat)
      requires Built(links, rep, nodes, named)
      requires depth == |p| && IsWay(links, rep, p + [k]) && k < |named| && n == named[k]
      modifies this`flatThreads, nodes`Depth
      ensures depth < |links|
      ensures Lists(rep, named, WaysFrom(links, rep, p, k),
                    old(flatThreads), flatThreads, old(Depths(nodes)), Depths(nodes))
      decreases |links| - depth, 0
    {
      ghost var q, kids, flat, depths := p + [k], KidsVia(links, rep, k), flatThreads, Depths(nodes);
      assert |q| <= |links|;
      assert WiredAt(links, nodes, named, |links|, rep[k]);
      KidsContinue(links, rep, q);
      DepthsAre(nodes);
      n.Depth := depth;
      DepthsAre(nodes);
      flatThreads := flatThreads + [n];
      ghost var flat', depths' := flatThreads, Depths(nodes);
      OneListed(rep, nodes, named, q, flat, depths, depths');
      Flatten(n.Children, depth + 1, links, rep, nodes, named, q, kids);
      ListsMore(rep, named, [q], Ways(links, rep, q, kids), flat, flat', flatThreads, depths, depths', Depths(nodes));
    }

    /** The first loop of buildTree: one node for each article; the map has the last one under each message-id. */
    method MakeNodes() returns (nodeMap: map<string, ThreadNode>, ghost nodes: seq<ThreadNode>)
      ensures fresh(nodes) && Distinct(nodes) && Indexed(MsgIDs(overviews), nodeMap, nodes)
      ensures forall j :: 0 <= j < |nodes| ==> nodes[j].Data == overviews[j] && nodes[j].Children == []
    {
      nodeMap := map[];
      nodes := [];
      for i := 0 to |overviews|
        invariant |nodes| == i && fresh(nodes) && Distinct(nodes)
        invariant Indexed(MsgIDs(overviews)[..i], nodeMap, nodes)
        invariant forall j :: 0 <= j < i ==> nodes[j].Data == overviews[j] && nodes[j].Children == []
      {
        var n := new Node(overviews[i]);
        IndexedStep(MsgIDs(overviews)[..i], nodeMap, nodes, overviews[i].msgID, n);
        assert MsgIDs(overviews)[..i + 1] == MsgIDs(overviews)[..i] + [overviews[i].msgID];
        nodeMap := nodeMap[overviews[i].msgID := n];
        DistinctConcat(nodes, [n]);
        nodes := nodes + [n];
      }
      assert MsgIDs(overviews)[..|overviews|] == MsgIDs(overviews);
    }

    /** The node of the article that the last reference of article `i` names. */
    method ParentOf(nodeMap: map<string, ThreadNode>, ghost nodes: seq<ThreadNode>, i: nat)
      returns (parent: Node?<Overview>)
      requires i < |overviews| && Indexed(MsgIDs(overviews), nodeMap, nodes)
      ensures IsParent(nodes, parent, LinksOf(overviews)[i])
      ensures parent == null ==> LinksOf(overviews)[i] == Root(false)
    {
      LinkAt(overviews, i);
      var refList := Text.Fields(overviews[i].references);
      parent := null;
      if |refList| > 0 {
        var parentID := refList[|refList| - 1];
        if parentID in nodeMap {
          parent := nodeMap[parentID];
        }
      }
    }

    /** Hangs article `i` below its parent, or among the roots. */
    method Attach(parent: Node?<Overview>, node: ThreadNode, roots: seq<ThreadNode>, i: nat,
                  ghost links: Links, ghost nodes: seq<ThreadNode>, ghost named: seq<ThreadNode>)
      returns (roots': seq<ThreadNode>)
      requires i < |links| && Distinct(nodes) && Hung(links, nodes, named, i, roots)
      requires IsParent(nodes, parent, links[i]) && (parent == null ==> links[i] == Root(false))
      requires node == named[i]
      modifies nodes`Children
      ensures Hung(links, nodes, named, i + 1, roots')
    {
      CollectedStep(links, named, Root(false), i, roots);
      AddChild(parent, node, i, links, nodes, named);
      roots' := if parent == null then roots + [node] else roots;
    }

    method LinkArticle(nodeMap: map<string, ThreadNode>, ghost nodes: seq<ThreadNode>, i: nat, roots: seq<ThreadNode>,
                       ghost links: Links, ghost named: seq<ThreadNode>)
      returns (roots': seq<ThreadNode>)
      requires i < |overviews| && Made(overviews, nodeMap, nodes, links, named)
      requires Hung(links, nodes, named, i, roots)
      modifies nodes`Children
      ensures Hung(links, nodes, named, i + 1, roots')
    {
      var parent := ParentOf(nodeMap, nodes, i);
      MapFinds(overviews, nodeMap, nodes, i);
      roots' := Attach(parent, nodeMap[overviews[i].msgID], roots, i, links, nodes, named);
    }

    /** The second loop of buildTree. */
    method LinkNodes(nodeMap: map<string, ThreadNode>, ghost nodes: seq<ThreadNode>,
                     ghost links: Links, ghost named: seq<ThreadNode>)
      returns (roots: seq<ThreadNode>)
      requires Made(overviews, nodeMap, nodes, links, named)
      requires forall j :: 0 <= j < |nodes| ==> nodes[j].Children == []
      modifies nodes`Children
      ensures Linked(links, nodes, named) && Collected(links, named, Root(false), |links|, roots)
    {
      roots := [];
      NoneHung(links, nodes, named);
      for i := 0 to |overviews|
        invariant Hung(links, nodes, named, i, roots)
      {
        roots := LinkArticle(nodeMap, nodes, i, roots, links, named);
      }
    }

    /** Rebuilds `flatThreads` from the fetched overviews, whenever `flatten` returns. */
    method BuildTree()
      requires Returns(overviews)
      modifies this`flatThreads
      ensures ListedAs(overviews, flatThreads, Calls(overviews))
      ensures DistinctIDs(overviews) ==> ThreadedAs(overviews, flatThreads, Threads(overviews))
    {
      var nodeMap, nodes := MakeNodes();
      ghost var links, rep, named := LinksOf(overviews), Sharers(overviews), NamedBy(overviews, nodes);
      var roots := LinkNodes(nodeMap, nodes, links, named);
      flatThreads := [];
      RootsContinue(links, rep, false);
      WaysBounded(overviews);
      ghost var depths := Depths(nodes);
      Flatten(roots, 0, links, rep, nodes, named, [], Roots(overviews));
      ListedNodes(overviews, nodes, flatThreads, depths);
      if DistinctIDs(overviews) {
        DistinctListed(overviews, flatThreads);
      }
    }
  }

  /** What the first loop of buildTree leaves to the second, with the links and names it goes by. */
  ghost predicate Made(ovs: seq<Overview>, nodeMap: map<string, ThreadNode>, nodes: seq<ThreadNode>,
                       links: Links, named: seq<ThreadNode>) {
    && Indexed(MsgIDs(ovs), nodeMap, nodes) && Distinct(nodes)
    && links == LinksOf(ovs) && named == NamedBy(ovs, nodes)
  }

  /** The first `m` articles hang below their parents or are among the roots. */
  ghost predicate Hung(links: Links, nodes: seq<ThreadNode>, named: seq<ThreadNode>, m: nat, roots: seq<ThreadNode>)
    reads nodes`Children
  {
    && m <= |links| == |nodes| == |named|
    && Wired(links, nodes, named, m) && Collected(links, named, Root(false), m, roots)
  }

  lemma NoneHung(links: Links, nodes: seq<ThreadNode>, named: seq<ThreadNode>)
    requires |links| == |nodes| == |named| && forall j :: 0 <= j < |nodes| ==> nodes[j].Children == []
    ensures Hung(links, nodes, named, 0, [])
  {
  }

  /** The listing after one node, before what is below it. */
  lemma OneListed(rep: seq<nat>, nodes: seq<ThreadNode>, named: seq<ThreadNode>, q: seq<nat>,
                  flat: seq<ThreadNode>, d: seq<int>, d': seq<int>)
    requires Shared(rep, nodes, named) && Distinct(nodes) && |d| == |d'| == |nodes| && q != [] && Last(q) < |nodes|
    requires forall j :: 0 <= j < |nodes| ==> d'[j] == if nodes[j] == named[Last(q)] then |q| - 1 else d[j]
    ensures Lists(rep, named, [q], flat, flat + [named[Last(q)]], d, d')
  {
    assert Lasts([q]) == [Last(q)];
    assert At(named, [Last(q)]) == [named[Last(q)]];
    forall j | 0 <= j < |nodes| ensures d'[j] == DepthIn(rep, [q], j, d[j]) {
      if j != rep[Last(q)] {
        DistinctPair(nodes, j, rep[Last(q)]);
      }
      assert [q][..0] == [];
    }
  }

  /**
   Node `k` of the listing has the article of the node that way `k` leads to, and the depth of the last way
   that leads to the same node.
   */
  ghost predicate EntryAs(ovs: seq<Overview>, flat: seq<ThreadNode>, out: seq<seq<nat>>, k: nat)
    requires k < |flat| == |out|
    reads flat`Depth
  {
    && out[k] != [] && Last(out[k]) < |ovs|
    && flat[k].Data == ovs[Sharer(ovs, Last(out[k]))]
    && forall m: nat :: IsLastWay(Sharers(ovs), out, Sharer(ovs, Last(out[k])), m) ==> flat[k].Depth == |out[m]| - 1
  }

  /** The nodes list the ways of `out` in its order. */
  ghost predicate ListedAs(ovs: seq<Overview>, flat: seq<ThreadNode>, out: seq<seq<nat>>)
    reads flat`Depth
  {
    |flat| == |out| && forall k :: 0 <= k < |out| ==> EntryAs(ovs, flat, out, k)
  }

  /** The nodes list the articles of `out` in its order, each with the length of its chain of parents. */
  ghost predicate ThreadedAs(ovs: seq<Overview>, flat: seq<ThreadNode>, out: seq<seq<nat>>)
    reads flat`Depth
  {
    |flat| == |out| &&
    forall k :: 0 <= k < |out| ==>
      && out[k] != [] && Last(out[k]) < |ovs|
      && flat[k].Data == ovs[Last(out[k])]
      && flat[k].Depth == |out[k]| - 1
  }

  lemma DistinctListed(ovs: seq<Overview>, flat: seq<ThreadNode>)
    requires DistinctIDs(ovs) && ListedAs(ovs, flat, Calls(ovs))
    ensures ThreadedAs(ovs, flat, Threads(ovs))
  {
    DistinctThreads(ovs);
    var out := Threads(ovs);
    forall k | 0 <= k < |out|
      ensures out[k] != [] && Last(out[k]) < |ovs| && flat[k].Data == ovs[Last(out[k])] && flat[k].Depth == |out[k]| - 1
    {
      assert EntryAs(ovs, flat, out, k);
      OnlyWay(ovs, out, k);
    }
  }

  lemma OnlyWay(ovs: seq<Overview>, out: seq<seq<nat>>, k: nat)
    requires DistinctIDs(ovs) && k < |out| && Last(out[k]) < |ovs| && Distinct(Lasts(out))
    requires forall i: nat :: NodeOf(Sharers(ovs), i) == i
    ensures Sharer(ovs, Last(out[k])) == Last(out[k]) && IsLastWay(Sharers(ovs), out, Last(out[k]), k)
  {
    assert NodeOf(Sharers(ovs), Last(out[k])) == Last(out[k]);
    forall m | k < m < |out| ensures NodeOf(Sharers(ovs), Last(out[m])) != Last(out[k]) {
      DistinctPair(Lasts(out), k, m);
    }
  }

  /** The node that stands for each article. */
  ghost function NamedBy(ovs: seq<Overview>, nodes: seq<ThreadNode>): (r: seq<ThreadNode>)
    requires |nodes| == |ovs|
    ensures Shared(Sharers(ovs), nodes, r)
  {
    seq(|ovs|, i requires 0 <= i < |ovs| => nodes[Sharer(ovs, i)])
  }

  lemma MapFinds(ovs: seq<Overview>, nodeMap: map<string, ThreadNode>, nodes: seq<ThreadNode>, i: nat)
    requires i < |ovs| && Indexed(MsgIDs(ovs), nodeMap, nodes)
    ensures ovs[i].msgID in nodeMap && nodeMap[ovs[i].msgID] == NamedBy(ovs, nodes)[i]
  {
    NoneLater(MsgIDs(ovs), i);
  }

  lemma {:induction false} ListedNode(rep: seq<nat>, nodes: seq<ThreadNode>, named: seq<ThreadNode>, out: seq<seq<nat>>,
                   flat: seq<ThreadNode>, d: seq<int>, k: nat)
    requires Shared(rep, nodes, named) && |nodes| == |d| && k < |out|
    requires Lists(rep, named, out, [], flat, d, Depths(nodes))
    ensures |flat| == |out| && Last(out[k]) < |rep| && flat[k] == nodes[rep[Last(out[k])]]
    ensures flat[k].Depth == DepthIn(rep, out, rep[Last(out[k])], d[rep[Last(out[k])]])
  {
    AtIndex(named, Lasts(out), k);
    DepthsAre(nodes);
  }

  lemma ListedDepth(rep: seq<nat>, flat: seq<ThreadNode>, out: seq<seq<nat>>, before: int, k: nat, j: nat)
    requires k < |flat| == |out| && flat[k].Depth == DepthIn(rep, out, j, before)
    ensures forall m: nat :: IsLastWay(rep, out, j, m) ==> flat[k].Depth == |out[m]| - 1
  {
    forall m: nat | IsLastWay(rep, out, j, m) ensures DepthIn(rep, out, j, before) == |out[m]| - 1 {
      DepthMeaning(rep, out, j, before, m);
    }
  }

  lemma ListedEntry(ovs: seq<Overview>, rep: seq<nat>, nodes: seq<ThreadNode>, named: seq<ThreadNode>,
                    out: seq<seq<nat>>, flat: seq<ThreadNode>, d: seq<int>, k: nat)
    requires rep == Sharers(ovs) && Shared(rep, nodes, named) && |nodes| == |d| && k < |out| && out[k] != []
    requires Lists(rep, named, out, [], flat, d, Depths(nodes))
    requires forall j :: 0 <= j < |nodes| ==> nodes[j].Data == ovs[j]
    ensures |flat| == |out| && EntryAs(ovs, flat, out, k)
  {
    ListedNode(rep, nodes, named, out, flat, d, k);
    var j := rep[Last(out[k])];
    ListedDepth(rep, flat, out, d[j], k, j);
  }

  lemma ListedNodes(ovs: seq<Overview>, nodes: seq<ThreadNode>, flat: seq<ThreadNode>, d: seq<int>)
    requires Returns(ovs) && |nodes| == |ovs| && forall j :: 0 <= j < |nodes| ==> nodes[j].Data == ovs[j]
    requires Lists(Sharers(ovs), NamedBy(ovs, nodes), Calls(ovs), [], flat, d, Depths(nodes))
    ensures ListedAs(ovs, flat, Calls(ovs))
  {
    var out := Calls(ovs);
    CallsCorrect(ovs);
    AtLength(ovs, nodes, flat, out, d);
    forall k | 0 <= k < |out| ensures EntryAs(ovs, flat, out, k) {
      assert out[k] in out;
      ListedEntry(ovs, Sharers(ovs), nodes, NamedBy(ovs, nodes), out, flat, d, k);
    }
  }

  lemma AtLength(ovs: seq<Overview>, nodes: seq<ThreadNode>, flat: seq<ThreadNode>, out: seq<seq<nat>>, d: seq<int>)
    requires |nodes| == |ovs| && Lists(Sharers(ovs), NamedBy(ovs, nodes), out, [], flat, d, Depths(nodes))
    ensures |flat| == |out|
  {
  }

  // ---------- what the listing is ----------

  /** No link is lost, and one under `p` means that `p` is the last article with the id of the last reference. */
  lemma LinkFound(ovs: seq<Overview>, i: nat)
    requires i < |ovs|
    ensures var link := LinksOf(ovs)[i];
      && !link.Lost? && link != Root(true)
      && (forall p: nat :: link == Under(p) <==>
            p < |ovs| && LastRef(ovs[i].references) == Some(ovs[p].msgID) && Sharer(ovs, p) == p)
      && (link == Root(false) <==> forall p :: 0 <= p < |ovs| ==> LastRef(ovs[i].references) != Some(ovs[p].msgID))
  {
    LinkAt(ovs, i);
    if LinkOf(ovs, i).Under? {
      var p := LinkOf(ovs, i).parent;
      assert FindLast(MsgIDs(ovs), ovs[p].msgID) == Some(p);
    }
  }

  /** The header ends with this id: only space follows it, and space or nothing comes before it. */
  ghost predicate EndsWithID(references: string, id: string) {
    exists pre, post :: Text.LastWordAt(references, pre, id, post)
  }

  /** A References header has a last id exactly when it is not blank, and it is the one that the header ends with. */
  lemma LastRefMeaning(references: string, id: string)
    ensures LastRef(references) == None <==> Text.Blank(references)
    ensures LastRef(references) == Some(id) <==> EndsWithID(references, id)
  {
    Text.LastField(references, id);
  }

  /** No later article has the id of this one. */
  ghost predicate LastWithID(ovs: seq<Overview>, p: nat)
    requires p < |ovs|
  {
    forall q :: p < q < |ovs| ==> ovs[q].msgID != ovs[p].msgID
  }

  lemma SharerIsLast(ovs: seq<Overview>, p: nat)
    requires p < |ovs|
    ensures Sharer(ovs, p) == p <==> LastWithID(ovs, p)
  {
    var ids, v := MsgIDs(ovs), Sharer(ovs, p);
    NoneLater(ids, p);
    assert ids[p] == ids[v] == ovs[v].msgID;
    if v == p {
      forall q | p < q < |ovs| ensures ovs[q].msgID != ovs[p].msgID {
        LastFound(ids, ids[p], q);
      }
    }
  }

  /**
   An article hangs below the last article with the id that its References header ends with; it is a root when the
   header is blank or nobody has that id.
   */
  lemma LinkMeaning(ovs: seq<Overview>, i: nat)
    requires i < |ovs|
    ensures var link, references := LinksOf(ovs)[i], ovs[i].references;
      && (forall p: nat :: link == Under(p) <==>
            p < |ovs| && EndsWithID(references, ovs[p].msgID) && LastWithID(ovs, p))
      && (link == Root(false) <==> forall p :: 0 <= p < |ovs| ==> !EndsWithID(references, ovs[p].msgID))
      && (Text.Blank(references) ==> link == Root(false))
      && (link == Root(false) || link.Under?)
  {
    LinkFound(ovs, i);
    LastRefMeaning(ovs[i].references, "");
    forall p | 0 <= p < |ovs|
      ensures LastRef(ovs[i].references) == Some(ovs[p].msgID) <==> EndsWithID(ovs[i].references, ovs[p].msgID)
      ensures Sharer(ovs, p) == p <==> LastWithID(ovs, p)
    {
      LastRefMeaning(ovs[i].references, ovs[p].msgID);
      SharerIsLast(ovs, p);
    }
  }

  /** No later article has the same id. */
  lemma SharerMeaning(ovs: seq<Overview>, i: nat, j: nat)
    requires i < |ovs| && j < |ovs| && ovs[j].msgID == ovs[i].msgID
    ensures j <= Sharer(ovs, i)
  {
    NoneLater(MsgIDs(ovs), j);
  }

  lemma LinksSound(ovs: seq<Overview>)
    ensures Valid(LinksOf(ovs)) && Lost !in LinksOf(ovs)
    ensures forall k: nat :: k < |ovs| && LinksOf(ovs)[k].Root? ==> k in Roots(ovs)
  {
    forall i | 0 <= i < |ovs|
      ensures LinksOf(ovs)[i] != Lost && LinksOf(ovs)[i] != Root(true)
      ensures LinksOf(ovs)[i].Under? ==> LinksOf(ovs)[i].parent < |ovs|
    {
      LinkAt(ovs, i);
    }
    SelectMeaning(LinksOf(ovs), Root(false), |ovs|);
  }

  /** The threads are the strictly increasing enumeration of the paths from roots to articles. */
  lemma ThreadsCorrect(ovs: seq<Overview>)
    ensures ListsThreads(LinksOf(ovs), Roots(ovs), Threads(ovs))
  {
    ListingCorrect(LinksOf(ovs), false);
  }

  /** An article is in the threads exactly when its chain of last references ends. */
  lemma InThreadsIff(ovs: seq<Overview>, i: nat)
    ensures i in Lasts(Threads(ovs)) <==> i < |ovs| && ChainEnds(LinksOf(ovs), i)
  {
    LinksSound(ovs);
    ListingCorrect(LinksOf(ovs), false);
    ListedIffRooted(LinksOf(ovs), Roots(ovs), Threads(ovs), i);
    RootedIffChainEnds(LinksOf(ovs), i);
  }

  /** Every article is listed exactly when no chain of references runs in a circle. */
  lemma ThreadsComplete(ovs: seq<Overview>)
    ensures |Threads(ovs)| <= |ovs|
    ensures |Threads(ovs)| == |ovs| <==> forall i: nat | i < |ovs| :: ChainEnds(LinksOf(ovs), i)
  {
    LinksSound(ovs);
    ListingCorrect(LinksOf(ovs), false);
    ListingComplete(LinksOf(ovs), Roots(ovs), Threads(ovs));
    forall i: nat ensures Rooted(LinksOf(ovs), i) <==> i < |ovs| && ChainEnds(LinksOf(ovs), i) {
      RootedIffChainEnds(LinksOf(ovs), i);
    }
  }

  /** In particular when every fetched parent comes before its replies. */
  lemma OrderedThreadsComplete(ovs: seq<Overview>)
    requires forall i: nat, p: nat :: i < |ovs| && LinksOf(ovs)[i] == Under(p) ==> p < i
    ensures |Threads(ovs)| == |ovs|
  {
    var links := LinksOf(ovs);
    LinksSound(ovs);
    ListingCorrect(links, false);
    ListingComplete(links, Roots(ovs), Threads(ovs));
    forall i: nat | i < |ovs| ensures Rooted(links, i) {
      forall j | 0 <= j <= i ensures links[j] != Lost && (links[j].Under? ==> links[j].parent < j) {
        assert links[j] in links;
        assert links[j].Under? ==> links[j] == Under(links[j].parent);
      }
      OrderedIsRooted(links, i);
    }
  }

  /** With distinct message-ids each article has its own node, and the calls are the paths of the forest. */
  lemma DistinctThreads(ovs: seq<Overview>)
    requires DistinctIDs(ovs)
    ensures forall i: nat :: NodeOf(Sharers(ovs), i) == i
    ensures Calls(ovs) == Threads(ovs) && Distinct(Lasts(Threads(ovs)))
  {
    forall i: nat ensures NodeOf(Sharers(ovs), i) == i {
      if i < |ovs| {
        assert ovs[Sharer(ovs, i)].msgID == ovs[i].msgID;
      }
    }
    OwnNodes(LinksOf(ovs), Sharers(ovs), [], Roots(ovs));
    ThreadsCorrect(ovs);
  }

  /** The calls of `flatten`, if it returns, are the increasing enumeration of all ways down from the roots. */
  lemma CallsCorrect(ovs: seq<Overview>)
    requires Returns(ovs)
    ensures Preordered(Calls(ovs))
    ensures forall p :: p in Calls(ovs) <==> IsWay(LinksOf(ovs), Sharers(ovs), p) && p != []
  {
    WaysBounded(ovs);
    WaysCorrect(LinksOf(ovs), Sharers(ovs), false);
    LinksSound(ovs);
  }

  // ---------- when `flatten` returns ----------

  /** Below each id the next one, as the calls of `flatten` nest: articles under one id share one node. */
  ghost predicate IsDescent(ovs: seq<Overview>, w: seq<string>) {
    w != [] && forall k :: 0 < k < |w| ==> ChildID(ovs, w[k - 1], w[k])
  }

  ghost predicate ChildID(ovs: seq<Overview>, parent: string, child: string) {
    && (exists i :: 0 <= i < |ovs| && ovs[i].msgID == parent)
    && exists i :: 0 <= i < |ovs| && ovs[i].msgID == child && LastRef(ovs[i].references) == Some(parent)
  }

  ghost predicate RootID(ovs: seq<Overview>, id: string) {
    exists i :: 0 <= i < |ovs| && ovs[i].msgID == id && LinkOf(ovs, i).Root?
  }

  /** A chain of nested calls of `flatten`: a root's id, then each time the id of a child. */
  ghost predicate CallChain(ovs: seq<Overview>, w: seq<string>) {
    IsDescent(ovs, w) && RootID(ovs, w[0])
  }

  ghost predicate NestsWithin(ovs: seq<Overview>, n: nat) {
    forall w :: CallChain(ovs, w) ==> |w| <= n
  }

  /** The calls nest to some depth and no deeper; each makes finitely many, so they all return. */
  ghost predicate Returns(ovs: seq<Overview>) {
    exists n: nat :: NestsWithin(ovs, n)
  }

  ghost predicate FromRoot(ovs: seq<Overview>, id: string) {
    exists w :: CallChain(ovs, w) && w[|w| - 1] == id
  }

  ghost predicate OwnDescendant(ovs: seq<Overview>, id: string) {
    exists v :: IsDescent(ovs, v) && |v| > 1 && v[0] == id && v[|v| - 1] == id
  }

  /** Nothing that can be reached from a root is below itself. */
  ghost predicate LoopFree(ovs: seq<Overview>) {
    forall id :: FromRoot(ovs, id) ==> !OwnDescendant(ovs, id)
  }

  lemma DescentJoin(ovs: seq<Overview>, c: seq<string>, v: seq<string>)
    requires IsDescent(ovs, c) && IsDescent(ovs, v) && c[|c| - 1] == v[0]
    ensures IsDescent(ovs, c + v[1..])
  {
    var w := c + v[1..];
    forall k | 0 < k < |w| ensures ChildID(ovs, w[k - 1], w[k]) {
      if k >= |c| {
        assert w[k] == v[k - |c| + 1] && w[k - 1] == v[k - |c|];
      }
    }
  }

  /** A way from an id back to itself can be taken again and again. */
  lemma {:induction false} Longer(ovs: seq<Overview>, c: seq<string>, v: seq<string>, n: nat) returns (w: seq<string>)
    requires CallChain(ovs, c) && IsDescent(ovs, v) && |v| > 1 && v[0] == v[|v| - 1] == c[|c| - 1]
    ensures CallChain(ovs, w) && |w| > n
    decreases n - |c|
  {
    if |c| > n {
      w := c;
    } else {
      DescentJoin(ovs, c, v);
      w := Longer(ovs, c + v[1..], v, n);
    }
  }

  lemma ReturnsLoopFree(ovs: seq<Overview>)
    requires Returns(ovs)
    ensures LoopFree(ovs)
  {
    var n: nat :| NestsWithin(ovs, n);
    forall id | FromRoot(ovs, id) ensures !OwnDescendant(ovs, id) {
      if OwnDescendant(ovs, id) {
        var c :| CallChain(ovs, c) && c[|c| - 1] == id;
        var v :| IsDescent(ovs, v) && |v| > 1 && v[0] == id && v[|v| - 1] == id;
        var w := Longer(ovs, c, v, n);
        assert false;
      }
    }
  }

  lemma {:induction false} DescentSlice(ovs: seq<Overview>, w: seq<string>, a: nat, b: nat, v: seq<string>)
    requires IsDescent(ovs, w) && a < b <= |w| && v == w[a..b]
    ensures IsDescent(ovs, v) && v[0] == w[a] && v[|v| - 1] == w[b - 1]
  {
    forall k | 0 < k < |v| ensures ChildID(ovs, v[k - 1], v[k]) {
      var m := a + k;
      assert ChildID(ovs, w[m - 1], w[m]);
    }
  }

  lemma {:induction false} ReachedFromRoot(ovs: seq<Overview>, w: seq<string>, i: nat)
    requires CallChain(ovs, w) && i < |w|
    ensures FromRoot(ovs, w[i])
  {
    var c := w[0..i + 1];
    DescentSlice(ovs, w, 0, i + 1, c);
    FromRootBy(ovs, c, w[i]);
  }

  lemma {:induction false} FromRootBy(ovs: seq<Overview>, c: seq<string>, id: string)
    requires IsDescent(ovs, c) && RootID(ovs, c[0]) && c[|c| - 1] == id
    ensures FromRoot(ovs, id)
  {
    assert CallChain(ovs, c);
  }

  /** An id met twice on a chain is below itself. */
  lemma {:induction false} LoopAt(ovs: seq<Overview>, w: seq<string>, i: nat, j: nat)
    requires CallChain(ovs, w) && i < j < |w| && w[i] == w[j]
    ensures FromRoot(ovs, w[i]) && OwnDescendant(ovs, w[i])
  {
    ReachedFromRoot(ovs, w, i);
    var v := w[i..j + 1];
    DescentSlice(ovs, w, i, j + 1, v);
    BelowItself(ovs, v, w[i]);
  }

  lemma BelowItself(ovs: seq<Overview>, v: seq<string>, id: string)
    requires IsDescent(ovs, v) && |v| > 1 && v[0] == id && v[|v| - 1] == id
    ensures OwnDescendant(ovs, id)
  {
  }

  lemma LoopFreeDistinct(ovs: seq<Overview>, w: seq<string>)
    requires LoopFree(ovs) && CallChain(ovs, w)
    ensures Distinct(w)
  {
    forall j | 0 <= j < |w| ensures NewAt(w, j) {
      forall i | 0 <= i < j ensures w[i] != w[j] {
        if w[i] == w[j] {
          LoopAt(ovs, w, i, j);
          assert false;
        }
      }
    }
  }

  lemma DistinctChainBound(ovs: seq<Overview>, w: seq<string>)
    requires CallChain(ovs, w) && Distinct(w)
    ensures |w| <= |ovs|
  {
    var ids := MsgIDs(ovs);
    SetCard(ids);
    forall k | 0 <= k < |w| ensures w[k] in ids {
      assert k > 0 ==> ChildID(ovs, w[k - 1], w[k]);
      var i :| 0 <= i < |ovs| && ovs[i].msgID == w[k];
      assert ids[i] == w[k];
    }
    DistinctCard(w);
    SubsetFull((set id | id in w), set id | id in ids);
  }

  /**
   `flatten` returns exactly when no chain of its calls meets an id twice, which is when no id that
   can be reached from a root is its own descendant. The calls then nest no deeper than there are
   articles. Distinct message-ids are not needed for it.
   */
  lemma ReturnsIff(ovs: seq<Overview>)
    ensures Returns(ovs) <==> LoopFree(ovs)
    ensures Returns(ovs) <==> forall w :: CallChain(ovs, w) ==> Distinct(w)
    ensures Returns(ovs) ==> forall w :: CallChain(ovs, w) ==> |w| <= |ovs|
  {
    if Returns(ovs) {
      ReturnsLoopFree(ovs);
    }
    if LoopFree(ovs) {
      forall w | CallChain(ovs, w) ensures Distinct(w) {
        LoopFreeDistinct(ovs, w);
      }
    }
    if forall w :: CallChain(ovs, w) ==> Distinct(w) {
      forall w | CallChain(ovs, w) ensures |w| <= |ovs| {
        DistinctChainBound(ovs, w);
      }
      assert NestsWithin(ovs, |ovs|);
    }
  }

  /** The message-ids along a way are a chain of calls. */
  lemma WayChain(ovs: seq<Overview>, p: seq<nat>, w: seq<string>)
    requires IsWay(LinksOf(ovs), Sharers(ovs), p) && p != []
    requires |w| == |p| && forall k :: 0 <= k < |p| ==> w[k] == ovs[p[k]].msgID
    ensures CallChain(ovs, w)
  {
    LinkAt(ovs, p[0]);
    forall k | 0 < k < |w| ensures ChildID(ovs, w[k - 1], w[k]) {
      LinkAt(ovs, p[k]);
      assert ovs[Sharer(ovs, p[k - 1])].msgID == w[k - 1];
      assert ovs[p[k - 1]].msgID == w[k - 1] && ovs[p[k]].msgID == w[k];
    }
  }

  lemma WaysBounded(ovs: seq<Overview>)
    requires Returns(ovs)
    ensures Bounded(LinksOf(ovs), Sharers(ovs))
  {
    ReturnsIff(ovs);
    forall p | IsWay(LinksOf(ovs), Sharers(ovs), p) ensures |p| <= |ovs| {
      if p != [] {
        var w := seq(|p|, k requires 0 <= k < |p| => ovs[p[k]].msgID);
        WayChain(ovs, p, w);
      }
    }
  }

  /** With distinct ids it always returns. */
  lemma DistinctIDsReturn(ovs: seq<Overview>)
    requires DistinctIDs(ovs)
    ensures Returns(ovs)
  {
    forall w | CallChain(ovs, w) ensures |w| <= |ovs| {
      DistinctIDsBound(ovs, w);
    }
    assert NestsWithin(ovs, |ovs|);
  }

  lemma DistinctIDsBound(ovs: seq<Overview>, w: seq<string>)
    requires DistinctIDs(ovs) && CallChain(ovs, w)
    ensures |w| <= |ovs|
  {
    var p := ChainPath(ovs, w);
    PathBounded(LinksOf(ovs), p);
  }

  lemma ChildUnder(ovs: seq<Overview>, p: nat, child: string) returns (i: nat)
    requires DistinctIDs(ovs) && p < |ovs| && ChildID(ovs, ovs[p].msgID, child)
    ensures i < |ovs| && ovs[i].msgID == child && LinksOf(ovs)[i] == Under(p)
  {
    i :| 0 <= i < |ovs| && ovs[i].msgID == child && LastRef(ovs[i].references) == Some(ovs[p].msgID);
    LinkFound(ovs, i);
    assert ovs[Sharer(ovs, p)].msgID == ovs[p].msgID;
  }

  lemma RootOf(ovs: seq<Overview>, id: string) returns (i: nat)
    requires RootID(ovs, id)
    ensures i < |ovs| && ovs[i].msgID == id && LinksOf(ovs)[i].Root?
  {
    i :| 0 <= i < |ovs| && ovs[i].msgID == id && LinkOf(ovs, i).Root?;
    LinkAt(ovs, i);
  }

  lemma {:induction false} ChainPath(ovs: seq<Overview>, w: seq<string>) returns (p: seq<nat>)
    requires DistinctIDs(ovs) && CallChain(ovs, w)
    ensures |p| == |w| && IsPath(LinksOf(ovs), p) && p[|p| - 1] < |ovs| && ovs[p[|p| - 1]].msgID == w[|w| - 1]
  {
    var n := |w|;
    if n == 1 {
      var i := RootOf(ovs, w[0]);
      p := [i];
    } else {
      DescentSlice(ovs, w, 0, n - 1, w[..n - 1]);
      var init := ChainPath(ovs, w[..n - 1]);
      assert ChildID(ovs, w[n - 2], w[n - 1]);
      var i := ChildUnder(ovs, init[n - 2], w[n - 1]);
      p := init + [i];
    }
  }

  /** Two articles under one id, one replying to it: `flatten` never returns. */
  lemma DuplicateIDsDiverge(ovs: seq<Overview>)
    requires ovs == [Overview(1, "", "", "", "<a>", "", 0), Overview(2, "", "", "", "<a>", "<a>", 0)]
    ensures !Returns(ovs) && CallChain(ovs, ["<a>", "<a>"])
  {
    assert Text.Word("a>") == "a>" && Text.Word(">") == ">";
    assert Text.Word("<a>") == "<a>";
    assert Text.Fields("<a>") == ["<a>"];
    assert ovs[0].msgID == "<a>" && LinkOf(ovs, 0).Root?;
    assert ovs[1].msgID == "<a>" && LastRef(ovs[1].references) == Some("<a>");
    assert ChildID(ovs, "<a>", "<a>");
    var w := ["<a>", "<a>"];
    assert CallChain(ovs, w) && !NewAt(w, 1);
    ReturnsIff(ovs);
  }

  lemma SecondCall(ovs: seq<Overview>, w: seq<string>)
    requires CallChain(ovs, w) && |w| > 1
    ensures ChildID(ovs, w[0], w[1])
  {
    var k := 1;
    assert ChildID(ovs, w[k - 1], w[k]);
  }

  /** Two articles under one id, neither with references: `flatten` returns, though the ids are not distinct. */
  lemma DuplicateRootsReturn(ovs: seq<Overview>)
    requires ovs == [Overview(1, "", "", "", "<a>", "", 0), Overview(2, "", "", "", "<a>", "", 0)]
    ensures Returns(ovs) && !DistinctIDs(ovs)
  {
    assert Text.Fields("") == [];
    assert forall p, id :: !ChildID(ovs, p, id);
    forall w | CallChain(ovs, w) ensures |w| <= 1 {
      if |w| > 1 {
        SecondCall(ovs, w);
        assert false;
      }
    }
    assert NestsWithin(ovs, 1);
    assert ovs[0].msgID == ovs[1].msgID;
  }
}
