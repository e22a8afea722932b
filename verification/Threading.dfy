/**
 Trees of nodes on the heap, wired up one node at a time. The news client's ThreadNode and
 the comment page's Comment are both of this kind: a payload, a depth and a list of children.
 */
module Threading {
  import opened Common
  import opened Forest

  class Node<T> {
    const Data: T
    var Depth: int
    var Children: seq<Node<T>>

    constructor (data: T)
      ensures Data == data && Depth == 0 && Children == []
    {
      Data, Depth, Children := data, 0, [];
    }
  }

  /** The last position of the id in a list of ids. */
  function FindLast<K(==)>(ids: seq<K>, id: K): (r: Option<nat>)
    ensures r.Some? ==> r.value < |ids| && ids[r.value] == id
    ensures r.None? ==> id !in ids
  {
    if ids == [] then None
    else if ids[|ids| - 1] == id then Some(|ids| - 1)
    else FindLast(ids[..|ids| - 1], id)
  }

  lemma {:induction false} LastFound<K>(ids: seq<K>, id: K, k: nat)
    requires FindLast(ids, id).Some? && FindLast(ids, id).value < k < |ids|
    ensures ids[k] != id
  {
    if k < |ids| - 1 {
      LastFound(ids[..|ids| - 1], id, k);
    }
  }

  lemma {:induction false} NoneLater<K>(ids: seq<K>, j: nat)
    requires j < |ids|
    ensures FindLast(ids, ids[j]).Some? && j <= FindLast(ids, ids[j]).value
  {
    if ids[|ids| - 1] != ids[j] {
      assert ids[..|ids| - 1][j] == ids[j];
      NoneLater(ids[..|ids| - 1], j);
    }
  }

  /** A map that finds the node of the last entry with each id. */
  ghost predicate Indexed<K(!new), T>(ids: seq<K>, byID: map<K, Node<T>>, nodes: seq<Node<T>>) {
    && |nodes| == |ids|
    && forall id :: match FindLast(ids, id)
                    case None => id !in byID
                    case Some(j) => id in byID && byID[id] == nodes[j]
  }

  lemma IndexedStep<K(!new), T>(ids: seq<K>, byID: map<K, Node<T>>, nodes: seq<Node<T>>, id: K, n: Node<T>)
    requires Indexed(ids, byID, nodes)
    ensures Indexed(ids + [id], byID[id := n], nodes + [n])
  {
    assert (ids + [id])[..|ids|] == ids;
  }

  ghost predicate InRange(ids: seq<nat>, n: nat) {
    forall c :: 0 <= c < |ids| ==> ids[c] < n
  }

  /** The nodes at the given positions. */
  ghost function At<T>(nodes: seq<Node<T>>, ids: seq<nat>): (r: seq<Node<T>>)
    requires InRange(ids, |nodes|)
    ensures |r| == |ids|
  {
    if ids == [] then [] else At(nodes, ids[..|ids| - 1]) + [nodes[ids[|ids| - 1]]]
  }

  lemma {:induction false} AtIndex<T>(nodes: seq<Node<T>>, ids: seq<nat>, c: nat)
    requires InRange(ids, |nodes|) && c < |ids|
    ensures At(nodes, ids)[c] == nodes[ids[c]]
  {
    if c < |ids| - 1 {
      AtIndex(nodes, ids[..|ids| - 1], c);
    }
  }

  lemma {:induction false} AtConcat<T>(nodes: seq<Node<T>>, a: seq<nat>, b: seq<nat>)
    requires InRange(a, |nodes|) && InRange(b, |nodes|)
    ensures InRange(a + b, |nodes|) && At(nodes, a + b) == At(nodes, a) + At(nodes, b)
  {
    if b == [] {
      assert a + b == a;
    } else {
      assert (a + b)[..|a + b| - 1] == a + b[..|b| - 1];
      AtConcat(nodes, a, b[..|b| - 1]);
    }
  }

  /** Every node lists exactly its replies, in list order; `named[i]` is the node that entry `i` goes by. */
  ghost predicate Linked<T>(links: Links, nodes: seq<Node<T>>, named: seq<Node<T>>)
    reads nodes`Children
  {
    |nodes| == |links| == |named| && Distinct(nodes) && Wired(links, nodes, named, |links|)
  }

  /** After the first `m` entries every node has the replies among them. */
  ghost predicate Wired<T>(links: Links, nodes: seq<Node<T>>, named: seq<Node<T>>, m: nat)
    requires m <= |links| == |nodes| == |named|
    reads nodes`Children
  {
    forall j :: 0 <= j < |nodes| ==> WiredAt(links, nodes, named, m, j)
  }

  ghost predicate WiredAt<T>(links: Links, nodes: seq<Node<T>>, named: seq<Node<T>>, m: nat, j: nat)
    requires m <= |links| == |nodes| == |named| && j < |nodes|
    reads nodes`Children
  {
    InRange(Select(links, Under(j), m), |named|) && nodes[j].Children == At(named, Select(links, Under(j), m))
  }

  /** `list` holds the nodes among the first `m` that carry the link `want`. */
  ghost predicate Collected<T>(links: Links, nodes: seq<Node<T>>, want: Link, m: nat, list: seq<Node<T>>)
    requires m <= |links|
  {
    InRange(Select(links, want, m), |nodes|) && list == At(nodes, Select(links, want, m))
  }

  lemma CollectedStep<T>(links: Links, nodes: seq<Node<T>>, want: Link, i: nat, list: seq<Node<T>>)
    requires i < |links| == |nodes| && Collected(links, nodes, want, i, list)
    ensures Collected(links, nodes, want, i + 1, list + if links[i] == want then [nodes[i]] else [])
  {
    SelectStep(links, nodes, want, i);
  }

  lemma SelectStep<T>(links: Links, nodes: seq<Node<T>>, want: Link, i: nat)
    requires i < |links| == |nodes| && InRange(Select(links, want, i), |nodes|)
    ensures InRange(Select(links, want, i + 1), |nodes|)
    ensures At(nodes, Select(links, want, i + 1))
         == At(nodes, Select(links, want, i)) + if links[i] == want then [nodes[i]] else []
  {
    var here := if links[i] == want then [i] else [];
    AtConcat(nodes, Select(links, want, i), here);
    assert At(nodes, here) == if links[i] == want then [nodes[i]] else [];
  }

  ghost predicate IsParent<T>(nodes: seq<Node<T>>, parent: Node?<T>, link: Link) {
    if parent == null then !link.Under?
    else link.Under? && link.parent < |nodes| && nodes[link.parent] == parent
  }

  lemma ParentAt<T>(nodes: seq<Node<T>>, parent: Node?<T>, link: Link, j: nat)
    requires Distinct(nodes) && IsParent(nodes, parent, link) && j < |nodes|
    ensures nodes[j] == parent <==> link == Under(j)
  {
    if parent != null && j != link.parent {
      DistinctPair(nodes, j, link.parent);
    }
  }

  lemma WiredStep<T>(links: Links, nodes: seq<Node<T>>, named: seq<Node<T>>, i: nat, j: nat, before: seq<Node<T>>)
    requires i < |links| == |nodes| == |named| && j < |nodes|
    requires InRange(Select(links, Under(j), i), |named|) && before == At(named, Select(links, Under(j), i))
    requires nodes[j].Children == before + if links[i] == Under(j) then [named[i]] else []
    ensures WiredAt(links, nodes, named, i + 1, j)
  {
    SelectStep(links, named, Under(j), i);
  }

  /** Appends the node of entry `i` to its parent's children, if it has a parent. */
  method AddChild<T>(parent: Node?<T>, node: Node<T>, i: nat,
                     ghost links: Links, ghost nodes: seq<Node<T>>, ghost named: seq<Node<T>>)
    requires i < |links| == |nodes| == |named| && Distinct(nodes) && Wired(links, nodes, named, i)
    requires IsParent(nodes, parent, links[i]) && node == named[i]
    modifies nodes`Children
    ensures Wired(links, nodes, named, i + 1)
  {
    if parent != null {
      parent.Children := parent.Children + [node];
    }
    ghost var m := i + 1;
    forall j | 0 <= j < |nodes| ensures WiredAt(links, nodes, named, m, j) {
      assert old(WiredAt(links, nodes, named, i, j));
      ParentAt(nodes, parent, links[i], j);
      WiredStep(links, nodes, named, i, j, old(nodes[j].Children));
    }
  }
}
