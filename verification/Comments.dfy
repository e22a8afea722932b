/** Comment threading on a post's page (tools/makhor/pkg/db/comments.go, GetPostComments). */
module Comments {
  import opened Common
  import opened Forest
  import opened Threading

  /** A fetched row; its other columns do not matter for the order. */
  datatype Row = Row(id: int, parentID: Option<int>, isBlurred: bool, body: string)

  type Comment = Node<Row>

  ghost predicate DistinctIDs(rows: seq<Row>) {
    forall i, j :: 0 <= i < j < |rows| ==> rows[i].id != rows[j].id
  }

  function RowIDs(rows: seq<Row>): (r: seq<int>)
    ensures |r| == |rows| && forall i :: 0 <= i < |rows| ==> r[i] == rows[i].id
  {
    seq(|rows|, i requires 0 <= i < |rows| => rows[i].id)
  }

  /** Without a parent a comment is a root; with one that was not fetched it is lost. */
  function LinkOf(rows: seq<Row>, i: nat): Link
    requires i < |rows|
  {
    match rows[i].parentID
    case None => Root(rows[i].isBlurred)
    case Some(id) =>
      match FindLast(RowIDs(rows), id)
      case None => Lost
      case Some(p) => Under(p)
  }

  function LinkBy(rows: seq<Row>): nat -> Link {
    (i: nat) => if i < |rows| then LinkOf(rows, i) else Lost
  }

  function LinksOf(rows: seq<Row>): Links {
    Tabulate(LinkBy(rows), |rows|)
  }

  lemma LinkAt(rows: seq<Row>, i: nat)
    requires i < |rows|
    ensures |LinksOf(rows)| == |rows| && LinksOf(rows)[i] == LinkOf(rows, i)
  {
    TabulateAt(LinkBy(rows), |rows|, i);
  }

  /** The depth the page shows: a parent that comes later in the rows still counts as depth 0. */
  function ShownDepth(links: Links, i: nat): nat {
    if i < |links| && links[i].Under? then
      (if links[i].parent < i then ShownDepth(links, links[i].parent) else 0) + 1
    else 0
  }

  ghost function Heads(links: Links, blurred: bool): seq<nat> {
    Select(links, Root(blurred), |links|)
  }

  /** The threads of the unblurred roots, then those of the blurred ones. */
  ghost function Listing(links: Links): seq<nat> {
    Visit(links, 0, Heads(links, false)) + Visit(links, 0, Heads(links, true))
  }

  /** The first `m` depths are set, the others still zero. */
  ghost predicate DepthsSet(links: Links, nodes: seq<Comment>, m: nat)
    reads nodes`Depth
  {
    forall j :: 0 <= j < |nodes| ==> nodes[j].Depth == if j < m then ShownDepth(links, j) else 0
  }

  /** The first `m` comments have their depth and their place. */
  ghost predicate Placed(links: Links, nodes: seq<Comment>, m: nat, roots: seq<Comment>, blurredRoots: seq<Comment>)
    requires m <= |links| == |nodes|
    reads nodes`Children, nodes`Depth
  {
    && Wired(links, nodes, nodes, m) && DepthsSet(links, nodes, m)
    && Collected(links, nodes, Root(false), m, roots)
    && Collected(links, nodes, Root(true), m, blurredRoots)
  }

  /** The loop over the query's rows. */
  method MakeNodes(rows: seq<Row>) returns (byID: map<int, Comment>, nodes: seq<Comment>)
    requires DistinctIDs(rows)
    ensures fresh(nodes) && Distinct(nodes) && Indexed(RowIDs(rows), byID, nodes)
    ensures forall j :: 0 <= j < |nodes| ==> nodes[j].Data == rows[j] && nodes[j].Children == [] && nodes[j].Depth == 0
  {
    byID, nodes := map[], [];
    for i := 0 to |rows|
      invariant |nodes| == i && fresh(nodes) && Distinct(nodes)
      invariant Indexed(RowIDs(rows)[..i], byID, nodes)
      invariant forall j :: 0 <= j < i ==> nodes[j].Data == rows[j] && nodes[j].Children == [] && nodes[j].Depth == 0
    {
      var n := new Node(rows[i]);
      IndexedStep(RowIDs(rows)[..i], byID, nodes, rows[i].id, n);
      assert RowIDs(rows)[..i + 1] == RowIDs(rows)[..i] + [rows[i].id];
      DistinctConcat(nodes, [n]);
      byID := byID[rows[i].id := n];
      nodes := nodes + [n];
    }
    assert RowIDs(rows)[..|rows|] == RowIDs(rows);
  }

  method ParentOf(rows: seq<Row>, byID: map<int, Comment>, nodes: seq<Comment>, i: nat)
    returns (parent: Node?<Row>)
    requires i < |rows| && Indexed(RowIDs(rows), byID, nodes)
    ensures IsParent(nodes, parent, LinksOf(rows)[i])
    ensures rows[i].parentID.None? <==> LinksOf(rows)[i].Root?
    ensures LinksOf(rows)[i].Root? ==> LinksOf(rows)[i].late == rows[i].isBlurred
  {
    LinkAt(rows, i);
    parent := null;
    if rows[i].parentID.Some? && rows[i].parentID.value in byID {
      parent := byID[rows[i].parentID.value];
    }
  }

  /** Gives comment `i` its depth and its place: a list of roots, its parent's children, or none. */
  method Place(parent: Node?<Row>, node: Comment, i: nat, roots: seq<Comment>, blurredRoots: seq<Comment>,
               ghost links: Links, ghost nodes: seq<Comment>)
    returns (roots': seq<Comment>, blurredRoots': seq<Comment>)
    requires i < |links| == |nodes| && Distinct(nodes) && node == nodes[i]
    requires Placed(links, nodes, i, roots, blurredRoots)
    requires IsParent(nodes, parent, links[i])
    requires node.Data.parentID.None? <==> links[i].Root?
    requires links[i].Root? ==> links[i].late == node.Data.isBlurred
    modifies nodes`Children, nodes`Depth
    ensures Placed(links, nodes, i + 1, roots', blurredRoots')
  {
    CollectedStep(links, nodes, Root(false), i, roots);
    CollectedStep(links, nodes, Root(true), i, blurredRoots);
    roots', blurredRoots' := roots, blurredRoots;
    AddChild(parent, node, i, links, nodes, nodes);
    if node.Data.parentID.None? {
      node.Depth := 0;
      if node.Data.isBlurred {
        blurredRoots' := blurredRoots + [node];
      } else {
        roots' := roots + [node];
      }
    } else if parent != null {
      node.Depth := parent.Depth + 1;
    }
    forall j | 0 <= j < |nodes| && j != i ensures nodes[j] != node {
      DistinctPair(nodes, j, i);
    }
  }

  lemma Appended(nodes: seq<Comment>, done: seq<nat>, k: nat, inner: seq<nat>, result: seq<Comment>)
    requires InRange(done, |nodes|) && k < |nodes| && InRange(inner, |nodes|) && result == At(nodes, done)
    ensures InRange(done + ([k] + inner), |nodes|)
    ensures At(nodes, done + ([k] + inner)) == result + [nodes[k]] + At(nodes, inner)
    ensures inner == [] ==> At(nodes, done + ([k] + inner)) == result + [nodes[k]]
  {
    assert At(nodes, [k]) == [nodes[k]];
    AtConcat(nodes, [k], inner);
    AtConcat(nodes, done, [k] + inner);
  }

  /** The comments below `comments`, depth first. */
  method FlattenComments(comments: seq<Comment>, ghost links: Links, ghost nodes: seq<Comment>,
                         ghost depth: nat, ghost kids: seq<nat>)
    returns (result: seq<Comment>)
    requires Linked(links, nodes, nodes)
    requires InRange(kids, |links|) && AllAtDepth(links, kids, depth) && comments == At(nodes, kids)
    ensures InRange(Visit(links, depth, kids), |nodes|) && result == At(nodes, Visit(links, depth, kids))
    decreases |links| - depth
  {
    result := [];
    ghost var done: seq<nat> := [];
    for i := 0 to |comments|
      invariant Visit(links, depth, kids) == done + Visit(links, depth, kids[i..])
      invariant InRange(done, |nodes|) && result == At(nodes, done)
    {
      ghost var k, before := kids[i], result;
      KidsAtDepth(links, k, depth);
      assert WiredAt(links, nodes, nodes, |links|, k);
      AtIndex(nodes, kids, i);
      VisitStep(links, depth, kids, i, done);
      ghost var inner := Visit(links, depth + 1, Kids(links, k));
      result := result + [comments[i]];
      if |comments[i].Children| > 0 {
        var sub := FlattenComments(comments[i].Children, links, nodes, depth + 1, Kids(links, k));
        result := result + sub;
      }
      Appended(nodes, done, k, inner, before);
      done := done + ([k] + inner);
    }
    assert kids[|comments|..] == [] && Visit(links, depth, kids) == done;
  }

  ghost predicate ListedAs(rows: seq<Row>, result: seq<Comment>, order: seq<nat>)
    reads result`Depth
  {
    |result| == |order| &&
    forall k :: 0 <= k < |order| ==>
      && order[k] < |rows| && result[k].Data == rows[order[k]]
      && result[k].Depth == ShownDepth(LinksOf(rows), order[k])
  }

  /** What the first loop leaves to the second. */
  ghost predicate Ready(rows: seq<Row>, byID: map<int, Comment>, nodes: seq<Comment>, links: Links) {
    && Indexed(RowIDs(rows), byID, nodes) && Distinct(nodes) && links == LinksOf(rows)
    && forall j :: 0 <= j < |nodes| ==> nodes[j].Data == rows[j]
  }

  method PlaceRow(rows: seq<Row>, byID: map<int, Comment>, nodes: seq<Comment>, i: nat,
                  roots: seq<Comment>, blurredRoots: seq<Comment>, ghost links: Links)
    returns (roots': seq<Comment>, blurredRoots': seq<Comment>)
    requires i < |rows| && Ready(rows, byID, nodes, links) && Placed(links, nodes, i, roots, blurredRoots)
    modifies nodes`Children, nodes`Depth
    ensures Placed(links, nodes, i + 1, roots', blurredRoots')
  {
    var parent := ParentOf(rows, byID, nodes, i);
    roots', blurredRoots' := Place(parent, nodes[i], i, roots, blurredRoots, links, nodes);
  }

  lemma NonePlaced(links: Links, nodes: seq<Comment>)
    requires |links| == |nodes|
    requires forall j :: 0 <= j < |nodes| ==> nodes[j].Children == [] && nodes[j].Depth == 0
    ensures Placed(links, nodes, 0, [], [])
  {
  }

  /** The loop that builds the tree. */
  method PlaceAll(rows: seq<Row>, byID: map<int, Comment>, nodes: seq<Comment>, ghost links: Links)
    returns (roots: seq<Comment>, blurredRoots: seq<Comment>)
    requires Ready(rows, byID, nodes, links) && Placed(links, nodes, 0, [], [])
    modifies nodes`Children, nodes`Depth
    ensures Placed(links, nodes, |rows|, roots, blurredRoots)
  {
    roots, blurredRoots := [], [];
    for i := 0 to |rows|
      invariant Placed(links, nodes, i, roots, blurredRoots)
    {
      roots, blurredRoots := PlaceRow(rows, byID, nodes, i, roots, blurredRoots, links);
    }
  }

  /** Flattens the early and the late threads. */
  method FlattenAll(roots: seq<Comment>, blurredRoots: seq<Comment>, ghost links: Links, ghost nodes: seq<Comment>)
    returns (result: seq<Comment>)
    requires |links| == |nodes| && Distinct(nodes) && Placed(links, nodes, |links|, roots, blurredRoots)
    ensures InRange(Listing(links), |nodes|) && result == At(nodes, Listing(links))
  {
    RootsAtDepth(links, false);
    RootsAtDepth(links, true);
    result := FlattenComments(roots, links, nodes, 0, Heads(links, false));
    var blurred := FlattenComments(blurredRoots, links, nodes, 0, Heads(links, true));
    result := result + blurred;
    AtConcat(nodes, Visit(links, 0, Heads(links, false)), Visit(links, 0, Heads(links, true)));
  }

  method GetPostComments(rows: seq<Row>) returns (result: seq<Comment>)
    requires DistinctIDs(rows)
    ensures ListedAs(rows, result, Listing(LinksOf(rows)))
  {
    var byID, nodes := MakeNodes(rows);
    NonePlaced(LinksOf(rows), nodes);
    var roots, blurredRoots := PlaceAll(rows, byID, nodes, LinksOf(rows));
    result := FlattenAll(roots, blurredRoots, LinksOf(rows), nodes);
    forall k | 0 <= k < |result| ensures result[k] == nodes[Listing(LinksOf(rows))[k]] {
      AtIndex(nodes, Listing(LinksOf(rows)), k);
    }
  }

  // ---------- what the listing is ----------

  /**
   A comment without a parent starts a thread, a late one if it is blurred; any other hangs below the row with its
   parent's id, and is lost when no row has it.
   */
  lemma LinkMeaning(rows: seq<Row>, i: nat)
    requires DistinctIDs(rows) && i < |rows|
    ensures var link, parentID := LinksOf(rows)[i], rows[i].parentID;
      && (forall late: bool :: link == Root(late) <==> parentID == None && late == rows[i].isBlurred)
      && (forall p: nat :: link == Under(p) <==> p < |rows| && parentID == Some(rows[p].id))
      && (link == Lost <==> parentID.Some? && forall p :: 0 <= p < |rows| ==> rows[p].id != parentID.value)
  {
    LinkAt(rows, i);
    if rows[i].parentID.Some? {
      var id := rows[i].parentID.value;
      match FindLast(RowIDs(rows), id)
      case None =>
        forall p | 0 <= p < |rows| ensures rows[p].id != id {
          assert RowIDs(rows)[p] != id;
        }
      case Some(p) =>
        assert rows[p].id == id;
    }
  }

  /** The threads that start at unblurred, or at blurred, roots. */
  ghost function Part(links: Links, blurred: bool): seq<seq<nat>> {
    Below(links, [], Heads(links, blurred))
  }

  /**
   The page lists the paths of the unblurred threads and then those of the blurred ones, each
   part in increasing path order; no comment is listed twice, and one is listed exactly when
   its parent chain stays among the rows and ends.
   */
  lemma ListingMeaning(rows: seq<Row>)
    ensures var links := LinksOf(rows);
      && Listing(links) == Lasts(Part(links, false)) + Lasts(Part(links, true))
      && ListsThreads(links, Heads(links, false), Part(links, false))
      && ListsThreads(links, Heads(links, true), Part(links, true))
  {
    var links := LinksOf(rows);
    VisitIsBelow(links, [], Heads(links, false));
    VisitIsBelow(links, [], Heads(links, true));
    ListingCorrect(links, false);
    ListingCorrect(links, true);
  }

  lemma ListedIff(rows: seq<Row>, i: nat)
    ensures i in Listing(LinksOf(rows)) <==> Rooted(LinksOf(rows), i)
  {
    var links := LinksOf(rows);
    ListingMeaning(rows);
    if i in Listing(links) {
      var blurred := i in Lasts(Part(links, true));
      var k :| 0 <= k < |Part(links, blurred)| && Last(Part(links, blurred)[k]) == i;
      assert Part(links, blurred)[k] in Part(links, blurred);
      assert PathTo(links, Part(links, blurred)[k], i);
    }
    if p :| PathTo(links, p, i) {
      var part := Part(links, links[p[0]].late);
      SelectMeaning(links, Root(links[p[0]].late), |links|);
      assert p in part;
      var k :| 0 <= k < |part| && part[k] == p;
      assert Lasts(part)[k] == i;
    }
  }

  lemma ListedOnce(rows: seq<Row>)
    ensures Distinct(Listing(LinksOf(rows)))
  {
    var links := LinksOf(rows);
    ListingMeaning(rows);
    var a, b := Lasts(Part(links, false)), Lasts(Part(links, true));
    forall x, y | 0 <= x < |a| && 0 <= y < |b| ensures a[x] != b[y] {
      PartsDisjoint(links, Part(links, false)[x], Part(links, true)[y]);
    }
    DistinctConcat(a, b);
  }

  lemma PartsDisjoint(links: Links, p: seq<nat>, q: seq<nat>)
    requires p in Part(links, false) && q in Part(links, true)
    ensures Last(p) != Last(q)
  {
    ListingCorrect(links, false);
    ListingCorrect(links, true);
    SelectMeaning(links, Root(false), |links|);
    SelectMeaning(links, Root(true), |links|);
    if Last(p) == Last(q) {
      PathUnique(links, p, q);
    }
  }

  ghost predicate IsReply(links: Links, i: nat) {
    i < |links| && links[i].Under?
  }

  /** Every listed reply to a reply comes after its parent in the rows. */
  ghost predicate RepliesFollow(links: Links) {
    forall i: nat :: Rooted(links, i) && IsReply(links, i) && IsReply(links, links[i].parent) ==> links[i].parent < i
  }

  /** Every listed comment shows the length of its parent chain. */
  ghost predicate DepthsRight(links: Links) {
    forall p: seq<nat> :: IsPath(links, p) && p != [] ==> ShownDepth(links, Last(p)) == |p| - 1
  }

  /** The shown depths are right exactly when replies to replies follow their parents. */
  lemma DepthsRightIff(links: Links)
    ensures DepthsRight(links) <==> RepliesFollow(links)
  {
    if RepliesFollow(links) {
      forall p: seq<nat> | IsPath(links, p) && p != [] ensures ShownDepth(links, Last(p)) == |p| - 1 {
        DepthRight(links, p);
      }
    }
    if DepthsRight(links) {
      forall i: nat | Rooted(links, i) && IsReply(links, i) && IsReply(links, links[i].parent)
        ensures links[i].parent < i
      {
        var p :| PathTo(links, p, i);
        assert ShownDepth(links, Last(p)) == |p| - 1;
        assert |p| > 2;
      }
    }
  }

  /** A root, a reply to a reply, and only then its parent: it shows depth 1, two below the root. */
  lemma LateParentWrong(rows: seq<Row>)
    requires rows == [Row(1, None, false, ""), Row(3, Some(2), false, ""), Row(2, Some(1), false, "")]
    ensures LinksOf(rows) == [Root(false), Under(2), Under(0)]
    ensures IsPath(LinksOf(rows), [0, 2, 1]) && ShownDepth(LinksOf(rows), 1) == 1 && !DepthsRight(LinksOf(rows))
  {
    var links := LinksOf(rows);
    LinkAt(rows, 0);
    LinkAt(rows, 1);
    LinkAt(rows, 2);
    var p: seq<nat> := [0, 2, 1];
    assert p[..2] == [0, 2] && p[..2][..1] == [0];
    assert IsPath(links, [0]) && IsPath(links, [0, 2]);
    assert IsPath(links, p) && Last(p) == 1;
  }

  lemma {:induction false} DepthRight(links: Links, p: seq<nat>)
    requires RepliesFollow(links) && IsPath(links, p) && p != []
    ensures ShownDepth(links, Last(p)) == |p| - 1
  {
    assert PathTo(links, p, Last(p));
    if |p| > 1 {
      var init := p[..|p| - 1];
      DepthRight(links, init);
      assert links[Last(p)] == Under(Last(init));
    }
  }

  /** So they are right in particular when every parent comes before its replies. */
  lemma OrderedDepthsRight(rows: seq<Row>)
    requires forall i: nat, p: nat :: i < |rows| && LinksOf(rows)[i] == Under(p) ==> p < i
    ensures DepthsRight(LinksOf(rows))
  {
    var links := LinksOf(rows);
    forall i: nat | IsReply(links, i) ensures links[i].parent < i {
      assert links[i] == Under(links[i].parent);
    }
    DepthsRightIff(links);
  }
}
