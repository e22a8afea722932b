/**
 Forests in which entries may share a node: `rep[i]` is the entry whose node stands for entry `i`. What is
 below an entry is what is below its node, so a shared node is listed once for every way that leads to it.
 */
module SharedNodes {
  import opened Common
  import opened Forest

  function NodeOf(rep: seq<nat>, i: nat): nat {
    if i < |rep| then rep[i] else i
  }

  function KidsVia(links: Links, rep: seq<nat>, i: nat): seq<nat> {
    Kids(links, NodeOf(rep, i))
  }

  /** A way down: from a root, each time to an entry below the node of the one before. */
  ghost predicate IsWay(links: Links, rep: seq<nat>, p: seq<nat>) {
    && (forall k :: 0 <= k < |p| ==> p[k] < |links|)
    && (|p| > 0 ==> links[p[0]].Root?)
    && (forall k :: 0 < k < |p| ==> links[p[k]] == Under(NodeOf(rep, p[k - 1])))
  }

  /** No way is longer than the list: depth first search comes to an end. */
  ghost predicate Bounded(links: Links, rep: seq<nat>) {
    forall p :: IsWay(links, rep, p) ==> |p| <= |links|
  }

  /** Each of `kids` continues the way `p`. */
  ghost predicate Continues(links: Links, rep: seq<nat>, p: seq<nat>, kids: seq<nat>) {
    IsWay(links, rep, p) && forall c :: 0 <= c < |kids| ==> IsWay(links, rep, p + [kids[c]])
  }

  /** All ways on from `p` through `kids`, depth first. */
  ghost function Ways(links: Links, rep: seq<nat>, p: seq<nat>, kids: seq<nat>): seq<seq<nat>>
    decreases |links| - |p|, |kids|
  {
    if kids == [] || |p| >= |links| then [] else
      WaysFrom(links, rep, p, kids[0]) + Ways(links, rep, p, kids[1..])
  }

  /** The way to one child, and all ways on from there. */
  ghost function WaysFrom(links: Links, rep: seq<nat>, p: seq<nat>, k: nat): seq<seq<nat>>
    requires |p| < |links|
    decreases |links| - |p|, 0
  {
    [p + [k]] + Ways(links, rep, p + [k], KidsVia(links, rep, k))
  }

  lemma WaysStep(links: Links, rep: seq<nat>, p: seq<nat>, kids: seq<nat>, i: nat, done: seq<seq<nat>>)
    requires |p| < |links| && i < |kids|
    ensures done + Ways(links, rep, p, kids[i..])
         == done + WaysFrom(links, rep, p, kids[i]) + Ways(links, rep, p, kids[i + 1..])
  {
    assert kids[i..][0] == kids[i] && kids[i..][1..] == kids[i + 1..];
    Assoc(done, WaysFrom(links, rep, p, kids[i]), Ways(links, rep, p, kids[i + 1..]));
  }

  lemma KidsContinue(links: Links, rep: seq<nat>, q: seq<nat>)
    requires IsWay(links, rep, q) && q != []
    ensures Continues(links, rep, q, KidsVia(links, rep, Last(q)))
  {
    var kids := KidsVia(links, rep, Last(q));
    SelectMeaning(links, Under(NodeOf(rep, Last(q))), |links|);
    forall c | 0 <= c < |kids| ensures IsWay(links, rep, q + [kids[c]]) {
      assert kids[c] in kids;
    }
  }

  lemma RootsContinue(links: Links, rep: seq<nat>, late: bool)
    ensures Continues(links, rep, [], Select(links, Root(late), |links|))
  {
    var roots := Select(links, Root(late), |links|);
    SelectMeaning(links, Root(late), |links|);
    forall c | 0 <= c < |roots| ensures IsWay(links, rep, [] + [roots[c]]) {
      assert roots[c] in roots;
    }
  }

  lemma ThroughFirst(p: seq<nat>, kids: seq<nat>, q: seq<nat>)
    requires kids != []
    ensures Through(p, kids, q) <==> p + [kids[0]] <= q || Through(p, kids[1..], q)
  {
    if |q| > |p| && p <= q {
      assert p + [kids[0]] <= q <==> q[|p|] == kids[0];
      assert q[|p|] in kids <==> q[|p|] == kids[0] || q[|p|] in kids[1..];
    }
  }

  /** A way that starts with `q` is `q`, or goes on through one of its kids. */
  lemma WayOn(links: Links, rep: seq<nat>, q: seq<nat>, w: seq<nat>)
    requires IsWay(links, rep, w) && q != []
    ensures q <= w <==> w == q || Through(q, KidsVia(links, rep, Last(q)), w)
  {
    if q < w {
      var n := |q|;
      assert links[w[n]] == Under(NodeOf(rep, w[n - 1])) && w[n - 1] == Last(q);
      SelectMeaning(links, Under(NodeOf(rep, Last(q))), |links|);
    }
  }

  /** Every way through the given children is listed, and nothing else. */
  lemma {:induction false} WaysMembers(links: Links, rep: seq<nat>, p: seq<nat>, kids: seq<nat>, q: seq<nat>)
    requires Bounded(links, rep) && Continues(links, rep, p, kids)
    ensures q in Ways(links, rep, p, kids) <==> IsWay(links, rep, q) && Through(p, kids, q)
    decreases |links| - |p|, |kids|
  {
    if kids != [] {
      var pk := p + [kids[0]];
      assert IsWay(links, rep, pk) && |pk| <= |links|;
      WaysFromMembers(links, rep, p, kids[0], q);
      WaysMembers(links, rep, p, kids[1..], q);
      ThroughFirst(p, kids, q);
    }
  }

  lemma {:induction false} WaysFromMembers(links: Links, rep: seq<nat>, p: seq<nat>, k: nat, q: seq<nat>)
    requires Bounded(links, rep) && |p| < |links| && IsWay(links, rep, p + [k])
    ensures q in WaysFrom(links, rep, p, k) <==> IsWay(links, rep, q) && p + [k] <= q
    decreases |links| - |p|, 0
  {
    var pk := p + [k];
    KidsContinue(links, rep, pk);
    WaysMembers(links, rep, pk, KidsVia(links, rep, k), q);
    if IsWay(links, rep, q) {
      WayOn(links, rep, pk, q);
    }
  }

  lemma {:induction false} WaysPreordered(links: Links, rep: seq<nat>, p: seq<nat>, kids: seq<nat>)
    requires Bounded(links, rep) && Continues(links, rep, p, kids) && Ascending(kids)
    ensures Preordered(Ways(links, rep, p, kids))
    decreases |links| - |p|, |kids|
  {
    if kids != [] {
      var k, rest := kids[0], kids[1..];
      assert IsWay(links, rep, p + [k]) && |p + [k]| <= |links|;
      WaysFromPreordered(links, rep, p, k);
      WaysPreordered(links, rep, p, rest);
      forall q, r | q in WaysFrom(links, rep, p, k) && r in Ways(links, rep, p, rest) ensures Before(q, r) {
        WaysFromMembers(links, rep, p, k, q);
        WaysMembers(links, rep, p, rest, r);
        SiblingBefore(q, r, |p|);
      }
    }
  }

  lemma {:induction false} WaysFromPreordered(links: Links, rep: seq<nat>, p: seq<nat>, k: nat)
    requires Bounded(links, rep) && |p| < |links| && IsWay(links, rep, p + [k])
    ensures Preordered(WaysFrom(links, rep, p, k))
    decreases |links| - |p|, 0
  {
    var pk, below := p + [k], KidsVia(links, rep, k);
    KidsContinue(links, rep, pk);
    SelectMeaning(links, Under(NodeOf(rep, k)), |links|);
    WaysPreordered(links, rep, pk, below);
    forall q | q in Ways(links, rep, pk, below) ensures Before(pk, q) {
      WaysMembers(links, rep, pk, below, q);
      AncestorBefore(pk, q);
    }
  }

  /** The listing from the roots is the strictly increasing enumeration of all ways. */
  lemma WaysCorrect(links: Links, rep: seq<nat>, late: bool)
    requires Bounded(links, rep)
    ensures var roots := Select(links, Root(late), |links|);
      && Preordered(Ways(links, rep, [], roots))
      && forall p :: p in Ways(links, rep, [], roots) <==> IsWay(links, rep, p) && p != [] && p[0] in roots
  {
    var roots := Select(links, Root(late), |links|);
    RootsContinue(links, rep, late);
    SelectMeaning(links, Root(late), |links|);
    WaysPreordered(links, rep, [], roots);
    forall p ensures p in Ways(links, rep, [], roots) <==> IsWay(links, rep, p) && p != [] && p[0] in roots {
      WaysMembers(links, rep, [], roots, p);
    }
  }

  /** If every entry has its own node, the ways are the paths of the forest. */
  lemma {:induction false} OwnNodes(links: Links, rep: seq<nat>, p: seq<nat>, kids: seq<nat>)
    requires forall i: nat :: NodeOf(rep, i) == i
    ensures Ways(links, rep, p, kids) == Below(links, p, kids)
    decreases |links| - |p|, |kids|
  {
    if kids != [] && |p| < |links| {
      OwnNodes(links, rep, p + [kids[0]], Kids(links, kids[0]));
      OwnNodes(links, rep, p, kids[1..]);
    }
  }

  // ---------- depths ----------

  /** The depth that node `j` is left with: that of the last way to it, or what it had. */
  ghost function DepthIn(rep: seq<nat>, out: seq<seq<nat>>, j: nat, before: int): int {
    if out == [] then before
    else if NodeOf(rep, Last(out[|out| - 1])) == j then |out[|out| - 1]| - 1
    else DepthIn(rep, out[..|out| - 1], j, before)
  }

  lemma {:induction false} DepthConcat(rep: seq<nat>, a: seq<seq<nat>>, b: seq<seq<nat>>, j: nat, before: int)
    ensures DepthIn(rep, a + b, j, before) == DepthIn(rep, b, j, DepthIn(rep, a, j, before))
  {
    if b == [] {
      assert a + b == a;
    } else {
      assert (a + b)[..|a + b| - 1] == a + b[..|b| - 1];
      DepthConcat(rep, a, b[..|b| - 1], j, before);
    }
  }

  /** Entry `m` of the listing is the last one that stands for node `j`. */
  ghost predicate IsLastWay(rep: seq<nat>, out: seq<seq<nat>>, j: nat, m: nat) {
    m < |out| && NodeOf(rep, Last(out[m])) == j && forall k :: m < k < |out| ==> NodeOf(rep, Last(out[k])) != j
  }

  lemma {:induction false} DepthMeaning(rep: seq<nat>, out: seq<seq<nat>>, j: nat, before: int, m: nat)
    requires IsLastWay(rep, out, j, m)
    ensures DepthIn(rep, out, j, before) == |out[m]| - 1
  {
    if m < |out| - 1 {
      var init := out[..|out| - 1];
      assert forall k :: m < k < |init| ==> init[k] == out[k];
      DepthMeaning(rep, init, j, before, m);
    }
  }
}
