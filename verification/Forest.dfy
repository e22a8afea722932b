/**
 Forests given by parent links, and the depth-first listing that the news client
 and the comment page both compute. A node is named by its position in the list
 the forest was fetched in; a place in the forest is a path of positions.
 */
module Forest {
  import opened Common

  /**
   Root: a thread starts here, to be listed with the late threads or before them.
   Under(p): a reply to p. Lost: its parent was not fetched.
   */
  datatype Link = Root(late: bool) | Under(parent: nat) | Lost

  type Links = seq<Link>

  ghost predicate Valid(links: Links) {
    forall i :: 0 <= i < |links| && links[i].Under? ==> links[i].parent < |links|
  }

  /** The links of a list of `m` entries, from that of each. */
  function Tabulate(link: nat -> Link, m: nat): (r: Links)
    ensures |r| == m
  {
    if m == 0 then [] else Tabulate(link, m - 1) + [link(m - 1)]
  }

  lemma {:induction false} TabulateAt(link: nat -> Link, m: nat, i: nat)
    requires i < m
    ensures Tabulate(link, m)[i] == link(i)
  {
    if i < m - 1 {
      TabulateAt(link, m - 1, i);
    }
  }

  /** A chain of replies that starts at a root. */
  ghost predicate IsPath(links: Links, p: seq<nat>) {
    && (forall k :: 0 <= k < |p| ==> p[k] < |links|)
    && (|p| > 0 ==> links[p[0]].Root?)
    && (forall k :: 0 < k < |p| ==> links[p[k]] == Under(p[k - 1]))
  }

  ghost predicate PathTo(links: Links, p: seq<nat>, i: nat) {
    IsPath(links, p) && |p| > 0 && p[|p| - 1] == i
  }

  /** The parent chain of `i` ends at a root. */
  ghost predicate Rooted(links: Links, i: nat) {
    exists p :: PathTo(links, p, i)
  }

  /** Positions below `m` that carry the link `want`, in list order. */
  function Select(links: Links, want: Link, m: nat): seq<nat>
    requires m <= |links|
  {
    if m == 0 then [] else
      Select(links, want, m - 1) + if links[m - 1] == want then [m - 1] else []
  }

  lemma {:induction false} SelectMeaning(links: Links, want: Link, m: nat)
    requires m <= |links|
    ensures Ascending(Select(links, want, m))
    ensures forall j: nat :: j in Select(links, want, m) <==> j < m && links[j] == want
    ensures forall c :: 0 <= c < |Select(links, want, m)| ==> Select(links, want, m)[c] < m
  {
    if m > 0 {
      SelectMeaning(links, want, m - 1);
    }
  }

  function Kids(links: Links, i: nat): seq<nat> {
    Select(links, Under(i), |links|)
  }

  /** A path never meets a node twice, so it is no longer than the list. */
  lemma PathBounded(links: Links, p: seq<nat>)
    requires IsPath(links, p)
    ensures Distinct(p) && |p| <= |links|
  {
    forall j: nat, i: nat | i < j < |p| ensures p[i] != p[j] {
      PathDistinct(links, p, i, j);
    }
    CoverCount(p, |links|);
  }

  lemma {:induction false} PathDistinct(links: Links, p: seq<nat>, i: nat, j: nat)
    requires IsPath(links, p) && i < j < |p|
    ensures p[i] != p[j]
  {
    assert links[p[j]] == Under(p[j - 1]);
    if i > 0 {
      assert links[p[i]] == Under(p[i - 1]);
      PathDistinct(links, p, i - 1, j - 1);
    }
  }

  /** Each of `kids` continues the path `p`. */
  ghost predicate Extends(links: Links, p: seq<nat>, kids: seq<nat>) {
    IsPath(links, p) && forall c :: 0 <= c < |kids| ==> IsPath(links, p + [kids[c]])
  }

  /**
   The nodes below `p` reached through `kids`, depth first, each as its path. The bound on
   the length never cuts anything off (PathBounded), it only makes the recursion end.
   */
  ghost function Below(links: Links, p: seq<nat>, kids: seq<nat>): seq<seq<nat>>
    decreases |links| - |p|, |kids|
  {
    if kids == [] || |p| >= |links| then [] else
      var q := p + [kids[0]];
      [q] + Below(links, q, Kids(links, kids[0])) + Below(links, p, kids[1..])
  }

  /** The same listing by node: what the recursive flattening functions append. */
  ghost function Visit(links: Links, depth: nat, kids: seq<nat>): seq<nat>
    decreases |links| - depth, |kids|
  {
    if kids == [] || depth >= |links| then [] else
      [kids[0]] + Visit(links, depth + 1, Kids(links, kids[0])) + Visit(links, depth, kids[1..])
  }

  /** One node and everything below it. */
  ghost function Subtree(links: Links, depth: nat, k: nat): seq<nat> {
    [k] + Visit(links, depth + 1, Kids(links, k))
  }

  /** One more child visited. */
  lemma VisitStep(links: Links, depth: nat, kids: seq<nat>, i: nat, done: seq<nat>)
    requires depth < |links| && i < |kids|
    ensures done + Visit(links, depth, kids[i..])
         == done + Subtree(links, depth, kids[i]) + Visit(links, depth, kids[i + 1..])
  {
    assert kids[i..][0] == kids[i] && kids[i..][1..] == kids[i + 1..];
  }

  lemma KidsExtend(links: Links, q: seq<nat>)
    requires IsPath(links, q) && q != []
    ensures Extends(links, q, Kids(links, q[|q| - 1]))
  {
    var kids := Kids(links, q[|q| - 1]);
    SelectMeaning(links, Under(q[|q| - 1]), |links|);
    forall c | 0 <= c < |kids| ensures IsPath(links, q + [kids[c]]) {
      assert kids[c] in kids;
    }
  }

  lemma RootsExtend(links: Links, late: bool)
    ensures Extends(links, [], Select(links, Root(late), |links|))
  {
    var roots := Select(links, Root(late), |links|);
    SelectMeaning(links, Root(late), |links|);
    forall c | 0 <= c < |roots| ensures IsPath(links, [] + [roots[c]]) {
      assert roots[c] in roots;
    }
  }

  /** `q` starts with `p` and goes on through one of `kids`. */
  ghost predicate Through(p: seq<nat>, kids: seq<nat>, q: seq<nat>) {
    |q| > |p| && p <= q && q[|p|] in kids
  }

  /** Every path through the given children is listed, and nothing else. */
  lemma {:induction false} BelowMembers(links: Links, p: seq<nat>, kids: seq<nat>, q: seq<nat>)
    requires Extends(links, p, kids)
    ensures q in Below(links, p, kids) <==> IsPath(links, q) && Through(p, kids, q)
    decreases |links| - |p|, |kids|
  {
    if kids != [] {
      var k, rest := kids[0], kids[1..];
      var pk := p + [k];
      PathBounded(links, pk);
      KidsExtend(links, pk);
      SelectMeaning(links, Under(k), |links|);
      BelowMembers(links, pk, Kids(links, k), q);
      BelowMembers(links, p, rest, q);
      if IsPath(links, q) && |q| > |p| && p <= q && q[|p|] == k {
        assert pk <= q;
        if |q| > |pk| {
          assert links[q[|pk|]] == Under(k);
          assert q[|pk|] in Kids(links, k);
        } else {
          assert q == pk;
        }
      }
    }
  }

  /** Lexicographic order of paths: an ancestor first, then siblings in list order. */
  ghost predicate Before(p: seq<nat>, q: seq<nat>) {
    q != [] && (p == [] || p[0] < q[0] || (p[0] == q[0] && Before(p[1..], q[1..])))
  }

  lemma {:induction false} AncestorBefore(p: seq<nat>, q: seq<nat>)
    requires p < q
    ensures Before(p, q)
  {
    if p != [] {
      AncestorBefore(p[1..], q[1..]);
    }
  }

  lemma {:induction false} SiblingBefore(p: seq<nat>, q: seq<nat>, k: nat)
    requires k < |p| && k < |q| && p[..k] == q[..k] && p[k] < q[k]
    ensures Before(p, q)
  {
    if k > 0 {
      assert p[0] == p[..k][0] == q[..k][0] == q[0];
      assert p[1..][..k - 1] == p[..k][1..] == q[..k][1..] == q[1..][..k - 1];
      SiblingBefore(p[1..], q[1..], k - 1);
    }
  }

  lemma {:induction false} BeforeAsymmetric(p: seq<nat>, q: seq<nat>)
    requires Before(p, q)
    ensures !Before(q, p) && p != q
  {
    if p != [] && p[0] == q[0] {
      BeforeAsymmetric(p[1..], q[1..]);
    }
  }

  /** Whatever lies between a node and its descendant is a descendant too. */
  lemma {:induction false} BetweenDescendant(p: seq<nat>, q: seq<nat>, r: seq<nat>)
    requires Before(p, q) && Before(q, r) && p <= r
    ensures p <= q
  {
    if p != [] {
      BetweenDescendant(p[1..], q[1..], r[1..]);
    }
  }

  ghost predicate Preordered(out: seq<seq<nat>>) {
    forall a, b :: 0 <= a < b < |out| ==> Before(out[a], out[b])
  }

  ghost predicate Ascending(s: seq<nat>) {
    forall a, b :: 0 <= a < b < |s| ==> s[a] < s[b]
  }

  lemma {:induction false} BelowPreordered(links: Links, p: seq<nat>, kids: seq<nat>)
    requires Extends(links, p, kids) && Ascending(kids)
    ensures Preordered(Below(links, p, kids))
    decreases |links| - |p|, |kids|
  {
    if kids != [] {
      var k, rest := kids[0], kids[1..];
      var pk := p + [k];
      PathBounded(links, pk);
      KidsExtend(links, pk);
      SelectMeaning(links, Under(k), |links|);
      BelowPreordered(links, pk, Kids(links, k));
      BelowPreordered(links, p, rest);
      var inner, outer := Below(links, pk, Kids(links, k)), Below(links, p, rest);
      forall q | q in inner ensures pk <= q && Before(pk, q) {
        BelowMembers(links, pk, Kids(links, k), q);
        AncestorBefore(pk, q);
      }
      forall q, r | q in [pk] + inner && r in outer ensures Before(q, r) {
        BelowMembers(links, p, rest, r);
        SiblingBefore(q, r, |p|);
      }
    }
  }

  /** A preordered listing repeats nothing and keeps every subtree in one piece. */
  lemma PreorderContiguous(out: seq<seq<nat>>, a: nat, b: nat, c: nat)
    requires Preordered(out) && a < b < c < |out|
    ensures out[a] != out[b]
    ensures out[a] <= out[c] ==> out[a] <= out[b]
  {
    BeforeAsymmetric(out[a], out[b]);
    if out[a] <= out[c] {
      BetweenDescendant(out[a], out[b], out[c]);
    }
  }

  /** A node has one path only. */
  lemma {:induction false} PathUnique(links: Links, p: seq<nat>, q: seq<nat>)
    requires IsPath(links, p) && IsPath(links, q) && p != [] && q != []
    requires p[|p| - 1] == q[|q| - 1]
    ensures p == q
  {
    var p', q' := p[..|p| - 1], q[..|q| - 1];
    assert p' != [] ==> links[p[|p| - 1]] == Under(p[|p| - 2]);
    assert q' != [] ==> links[q[|q| - 1]] == Under(q[|q| - 2]);
    if p' != [] && q' != [] {
      PathUnique(links, p', q');
    }
    assert p == p' + [p[|p| - 1]] && q == q' + [q[|q| - 1]];
  }

  /** If parents come before their replies and none is lost, every node is rooted. */
  lemma {:induction false} OrderedIsRooted(links: Links, i: nat)
    requires i < |links|
    requires forall j :: 0 <= j <= i ==> links[j] != Lost && (links[j].Under? ==> links[j].parent < j)
    ensures Rooted(links, i)
  {
    if links[i].Root? {
      assert PathTo(links, [i], i);
    } else {
      OrderedIsRooted(links, links[i].parent);
      var p :| PathTo(links, p, links[i].parent);
      assert PathTo(links, p + [i], i);
    }
  }

  ghost function Last(p: seq<nat>): nat {
    if p == [] then 0 else p[|p| - 1]
  }

  /** The nodes of a listing. */
  ghost function Lasts(out: seq<seq<nat>>): (r: seq<nat>)
    ensures |r| == |out| && forall k :: 0 <= k < |out| ==> r[k] == Last(out[k])
  {
    seq(|out|, k requires 0 <= k < |out| => Last(out[k]))
  }

  lemma {:induction false} VisitIsBelow(links: Links, p: seq<nat>, kids: seq<nat>)
    ensures Lasts(Below(links, p, kids)) == Visit(links, |p|, kids)
    decreases |links| - |p|, |kids|
  {
    if kids != [] && |p| < |links| {
      var q, rest := p + [kids[0]], kids[1..];
      VisitIsBelow(links, q, Kids(links, kids[0]));
      VisitIsBelow(links, p, rest);
      LastsConcat([q], Below(links, q, Kids(links, kids[0])));
      LastsConcat([q] + Below(links, q, Kids(links, kids[0])), Below(links, p, rest));
      assert Lasts([q]) == [kids[0]];
    }
  }

  lemma LastsConcat(a: seq<seq<nat>>, b: seq<seq<nat>>)
    ensures Lasts(a + b) == Lasts(a) + Lasts(b)
  {
  }

  /** What it means to list a forest depth first from the given roots. */
  ghost predicate ListsThreads(links: Links, roots: seq<nat>, out: seq<seq<nat>>) {
    && Preordered(out)
    && Distinct(Lasts(out))
    && (forall p :: p in out <==> IsPath(links, p) && p != [] && p[0] in roots)
  }

  lemma ListingCorrect(links: Links, late: bool)
    ensures var roots := Select(links, Root(late), |links|);
            ListsThreads(links, roots, Below(links, [], roots))
  {
    var roots := Select(links, Root(late), |links|);
    RootsExtend(links, late);
    SelectMeaning(links, Root(late), |links|);
    var out := Below(links, [], roots);
    BelowPreordered(links, [], roots);
    forall p ensures p in out <==> IsPath(links, p) && p != [] && p[0] in roots {
      BelowMembers(links, [], roots, p);
    }
    LastsDistinct(links, out);
  }

  lemma LastsDistinct(links: Links, out: seq<seq<nat>>)
    requires Preordered(out) && forall p :: p in out ==> IsPath(links, p) && p != []
    ensures Distinct(Lasts(out))
  {
    forall b: nat, a: nat | a < b < |out| ensures Lasts(out)[a] != Lasts(out)[b] {
      assert out[a] in out && out[b] in out;
      BeforeAsymmetric(out[a], out[b]);
      if Last(out[a]) == Last(out[b]) {
        PathUnique(links, out[a], out[b]);
      }
    }
  }

  /** Such a listing is determined by the links: two of them are equal. */
  lemma {:induction false} PreorderUnique(s: seq<seq<nat>>, t: seq<seq<nat>>)
    requires Preordered(s) && Preordered(t)
    requires forall p :: p in s <==> p in t
    ensures s == t
  {
    assert s != [] ==> s[0] in t;
    assert t != [] ==> t[0] in s;
    if s != [] {
      HeadFirst(s, t[0]);
      HeadFirst(t, s[0]);
      assert s[0] == t[0];
      forall p ensures p in s[1..] <==> p in t[1..] {
        HeadNotInTail(s, p);
        HeadNotInTail(t, p);
      }
      PreorderUnique(s[1..], t[1..]);
    }
  }

  lemma HeadFirst(s: seq<seq<nat>>, p: seq<nat>)
    requires Preordered(s) && p in s
    ensures p == s[0] || (Before(s[0], p) && !Before(p, s[0]))
  {
    var k :| 0 <= k < |s| && s[k] == p;
    if k > 0 {
      BeforeAsymmetric(s[0], s[k]);
    }
  }

  lemma HeadNotInTail(s: seq<seq<nat>>, p: seq<nat>)
    requires Preordered(s) && s != []
    ensures p in s[1..] <==> p in s && p != s[0]
  {
    if p in s[1..] {
      var k :| 0 <= k < |s[1..]| && s[1..][k] == p;
      assert Before(s[0], s[k + 1]);
      BeforeAsymmetric(s[0], p);
    }
  }

  /** A node is listed exactly when it is rooted, if every root is used. */
  lemma ListedIffRooted(links: Links, roots: seq<nat>, out: seq<seq<nat>>, i: nat)
    requires ListsThreads(links, roots, out)
    requires forall k: nat :: k < |links| && links[k].Root? ==> k in roots
    ensures i in Lasts(out) <==> Rooted(links, i)
  {
    if i in Lasts(out) {
      var k :| 0 <= k < |out| && Lasts(out)[k] == i;
      assert out[k] in out;
      assert PathTo(links, out[k], i);
    }
    if p :| PathTo(links, p, i) {
      assert p in out;
      var k :| 0 <= k < |out| && out[k] == p;
      assert Lasts(out)[k] == i;
    }
  }

  /** The listing covers the whole list exactly when every node is rooted. */
  lemma ListingComplete(links: Links, roots: seq<nat>, out: seq<seq<nat>>)
    requires ListsThreads(links, roots, out)
    requires forall k: nat :: k < |links| && links[k].Root? ==> k in roots
    ensures |out| <= |links|
    ensures |out| == |links| <==> forall i: nat | i < |links| :: Rooted(links, i)
  {
    forall i: nat ensures i in Lasts(out) <==> Rooted(links, i) {
      ListedIffRooted(links, roots, out, i);
    }
    RootedBounded(links);
    CoverCount(Lasts(out), |links|);
  }

  lemma RootedBounded(links: Links)
    ensures forall i: nat :: Rooted(links, i) ==> i < |links|
  {
  }

  /** There are exactly `d` parents above `i`, the last of them a root. */
  predicate HasDepth(links: Links, i: nat, d: int)
    decreases d
  {
    i < |links| &&
    if d <= 0 then d == 0 && links[i].Root?
    else links[i].Under? && HasDepth(links, links[i].parent, d - 1)
  }

  lemma {:induction false} PathDepth(links: Links, p: seq<nat>, d: int)
    requires IsPath(links, p) && p != []
    ensures HasDepth(links, Last(p), d) <==> d == |p| - 1
  {
    if |p| > 1 {
      assert links[Last(p)] == Under(Last(p[..|p| - 1]));
      PathDepth(links, p[..|p| - 1], d - 1);
    }
  }

  lemma {:induction false} DepthPath(links: Links, i: nat, d: int) returns (p: seq<nat>)
    requires HasDepth(links, i, d)
    ensures PathTo(links, p, i) && d == |p| - 1 && d < |links|
    decreases d
  {
    if d == 0 {
      p := [i];
    } else {
      p := DepthPath(links, links[i].parent, d - 1);
      p := p + [i];
    }
    PathBounded(links, p);
  }

  ghost predicate AllAtDepth(links: Links, kids: seq<nat>, d: nat) {
    forall c :: 0 <= c < |kids| ==> HasDepth(links, kids[c], d)
  }

  lemma KidsAtDepth(links: Links, k: nat, d: nat)
    requires HasDepth(links, k, d)
    ensures d < |links| && AllAtDepth(links, Kids(links, k), d + 1)
  {
    var p := DepthPath(links, k, d);
    var kids := Kids(links, k);
    SelectMeaning(links, Under(k), |links|);
    forall c | 0 <= c < |kids| ensures HasDepth(links, kids[c], d + 1) {
      assert kids[c] in kids;
    }
  }

  lemma RootsAtDepth(links: Links, late: bool)
    ensures AllAtDepth(links, Select(links, Root(late), |links|), 0)
  {
    var roots := Select(links, Root(late), |links|);
    SelectMeaning(links, Root(late), |links|);
    forall c | 0 <= c < |roots| ensures HasDepth(links, roots[c], 0) {
      assert roots[c] in roots;
    }
  }

  /** The node `k` steps up from `i`, if the chain of parents is that long. */
  function Climb(links: Links, i: nat, k: nat): Option<nat>
    decreases k
  {
    if k == 0 then Some(i)
    else if i < |links| && links[i].Under? then Climb(links, links[i].parent, k - 1)
    else None
  }

  /** A path is the climb to its root, read backwards. */
  lemma {:induction false} ClimbPath(links: Links, p: seq<nat>, i: nat)
    requires PathTo(links, p, i)
    ensures Climb(links, i, |p| - 1) == Some(p[0]) && Climb(links, i, |p|) == None
  {
    if |p| > 1 {
      var init := p[..|p| - 1];
      assert PathTo(links, init, p[|p| - 2]);
      ClimbPath(links, init, p[|p| - 2]);
    }
  }

  /** When no parent is missing, a node is rooted exactly when its chain of parents ends. */
  lemma {:induction false} ClimbEnds(links: Links, i: nat, k: nat)
    requires Valid(links) && i < |links| && Lost !in links
    requires Climb(links, i, k) == None
    ensures Rooted(links, i)
    decreases k
  {
    if links[i].Under? {
      ClimbEnds(links, links[i].parent, k - 1);
      var p :| PathTo(links, p, links[i].parent);
      assert PathTo(links, p + [i], i);
    } else {
      assert links[i] in links;
      assert PathTo(links, [i], i);
    }
  }

  ghost predicate ChainEnds(links: Links, i: nat) {
    exists k: nat :: Climb(links, i, k) == None
  }

  lemma RootedIffChainEnds(links: Links, i: nat)
    requires Valid(links) && Lost !in links
    ensures Rooted(links, i) <==> i < |links| && ChainEnds(links, i)
  {
    if p :| PathTo(links, p, i) {
      ClimbPath(links, p, i);
    }
    if i < |links| && ChainEnds(links, i) {
      var k: nat :| Climb(links, i, k) == None;
      ClimbEnds(links, i, k);
    }
  }
}
