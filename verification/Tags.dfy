/**
 The tag hierarchy of the link board: tag names are paths separated by two colons (tools/makhor/pkg/db/tags.go,
 tools/makhor/pkg/db/posts.go). Tables are maps and sets; what a query returns is taken as given.
 */
module Tags {
  import opened Common

  // ---------- names ----------

  /** Two colons with the second one at `i`. */
  predicate ColonsAt(name: string, i: int) {
    1 <= i < |name| && name[i] == ':' && name[i - 1] == ':'
  }

  /** What is before the last two colons, or "" when there are none. */
  function Parent(name: string): (r: string)
    ensures r <= name
    ensures r != "" ==> |r| + 2 <= |name| && ColonsAt(name, |r| + 1)
    ensures forall i :: ColonsAt(name, i) ==> i <= |r| + 1
  {
    ParentFrom(name, |name|)
  }

  /** The same, looking only at the first `n` characters. */
  function ParentFrom(name: string, n: nat): (r: string)
    requires n <= |name|
    ensures r <= name
    ensures r != "" ==> |r| + 2 <= n && ColonsAt(name, |r| + 1)
    ensures forall i :: ColonsAt(name, i) && i < n ==> i <= |r| + 1
  {
    if n == 0 then ""
    else if ColonsAt(name, n - 1) then name[..n - 2]
    else ParentFrom(name, n - 1)
  }

  method GetParentTagName(name: string) returns (r: string)
    ensures r == Parent(name)
  {
    var i := |name| - 1;
    while i >= 0
      invariant -1 <= i < |name|
      invariant ParentFrom(name, i + 1) == Parent(name)
    {
      if name[i] == ':' && i > 0 && name[i - 1] == ':' {
        return name[..i - 1];
      }
      i := i - 1;
    }
    return "";
  }

  /** `tag` is reached from `name` by taking parents, once or more. */
  predicate Ancestor(tag: string, name: string)
    decreases |name|
  {
    var p := Parent(name);
    p != "" && (tag == p || Ancestor(tag, p))
  }

  /** strings.HasPrefix(name, tag + "::"). */
  predicate Under(name: string, tag: string) {
    tag + "::" <= name
  }

  /** No three colons in a row, but for a name's first three characters. */
  ghost predicate NoTriple(name: string) {
    forall i :: i >= 2 && ColonsAt(name, i) ==> !ColonsAt(name, i + 1)
  }

  lemma UnderMeaning(name: string, tag: string)
    ensures Under(name, tag) <==> tag <= name && ColonsAt(name, |tag| + 1)
  {
    if tag <= name && ColonsAt(name, |tag| + 1) {
      assert name[..|tag| + 2] == tag + "::";
    }
  }

  lemma {:induction false} AncestorIsUnder(tag: string, name: string)
    requires Ancestor(tag, name)
    ensures Under(name, tag) && tag != "" && |tag| + 2 <= |name|
    decreases |name|
  {
    var p := Parent(name);
    UnderMeaning(name, tag);
    if tag != p {
      AncestorIsUnder(tag, p);
      UnderMeaning(p, tag);
    }
  }

  lemma {:induction false} UnderIsAncestor(tag: string, name: string)
    requires NoTriple(name) && tag != "" && Under(name, tag)
    ensures Ancestor(tag, name)
    decreases |name|
  {
    UnderMeaning(name, tag);
    var p := Parent(name);
    if |tag| == |p| {
      assert tag == name[..|p|] == p;
    } else {
      assert ColonsAt(name, |p| + 1) && !ColonsAt(name, |p|);
      assert |tag| + 2 <= |p|;
      assert forall i :: ColonsAt(p, i) ==> ColonsAt(name, i);
      UnderMeaning(p, tag);
      UnderIsAncestor(tag, p);
    }
  }

  /**
   The prefix test finds the ancestors of a name and nothing else exactly when no three colons follow
   each other in it, but for its first three characters.
   */
  lemma PrefixIsAncestorIff(name: string)
    ensures NoTriple(name) <==> forall tag: string :: tag != "" ==> (Under(name, tag) <==> Ancestor(tag, name))
  {
    forall tag: string | tag != "" && NoTriple(name) ensures Under(name, tag) <==> Ancestor(tag, name) {
      if Under(name, tag) {
        UnderIsAncestor(tag, name);
      } else if Ancestor(tag, name) {
        AncestorIsUnder(tag, name);
      }
    }
    if !NoTriple(name) {
      var i :| i >= 2 && ColonsAt(name, i) && ColonsAt(name, i + 1);
      var short, long := name[..i - 1], name[..i];
      UnderMeaning(name, short);
      UnderMeaning(name, long);
      if Ancestor(short, name) && Ancestor(long, name) {
        NotBoth(short, long, name);
        assert false;
      }
    }
  }

  /** Ancestors differ in length by two at least. */
  lemma {:induction false} NotBoth(short: string, long: string, name: string)
    requires |long| == |short| + 1
    ensures !(Ancestor(short, name) && Ancestor(long, name))
    decreases |name|
  {
    var p := Parent(name);
    if p != "" {
      NotBoth(short, long, p);
      if long == p && Ancestor(short, p) {
        AncestorIsUnder(short, p);
        assert false;
      }
      if short == p && Ancestor(long, p) {
        AncestorIsUnder(long, p);
        assert false;
      }
    }
  }

  /** Segments as the tag pattern of the handlers allows them, the colons being what matters here. */
  predicate Segment(s: string) {
    s != "" && ':' !in s
  }

  function Name(segments: seq<string>): string {
    if segments == [] then "" else if |segments| == 1 then segments[0]
    else Name(segments[..|segments| - 1]) + "::" + segments[|segments| - 1]
  }

  predicate WellFormed(segments: seq<string>) {
    segments != [] && forall k :: 0 <= k < |segments| ==> Segment(segments[k])
  }

  /** A name built from segments has no three colons in a row and none at its ends. */
  lemma {:induction false} WellFormedName(segments: seq<string>)
    requires WellFormed(segments)
    ensures var n := Name(segments); n != "" && n[0] != ':' && n[|n| - 1] != ':' && NoTriple(n)
  {
    if |segments| > 1 {
      WellFormedName(segments[..|segments| - 1]);
      AppendSegment(Name(segments[..|segments| - 1]), segments[|segments| - 1]);
    }
  }

  lemma AppendSegment(a: string, s: string)
    requires a != "" && a[|a| - 1] != ':' && NoTriple(a) && Segment(s)
    ensures NoTriple(a + "::" + s) && Parent(a + "::" + s) == a
  {
    var n := a + "::" + s;
    assert forall k :: 0 <= k < |s| ==> n[|a| + 2 + k] == s[k] != ':';
    forall i | ColonsAt(n, i) ensures i == |a| + 1 || ColonsAt(a, i) {
    }
    assert ColonsAt(n, |a| + 1);
    assert n[..|a|] == a;
  }

  /** Taking the parent of a well-formed name drops its last segment. */
  lemma ParentDropsSegment(segments: seq<string>)
    requires WellFormed(segments)
    ensures Parent(Name(segments)) == Name(segments[..|segments| - 1])
  {
    if |segments| > 1 {
      WellFormedName(segments[..|segments| - 1]);
      AppendSegment(Name(segments[..|segments| - 1]), segments[|segments| - 1]);
    } else {
      var n := segments[0];
      assert forall i :: !ColonsAt(n, i);
    }
  }

  // ---------- hierarchical counts ----------

  function CountOf(counts: map<string, int>, name: string): int {
    if name in counts then counts[name] else 0
  }

  /** The sum of the counts of a set of names. */
  ghost function Total(counts: map<string, int>, names: set<string>): int {
    if names == {} then 0
    else
      var n := PickOne(names);
      CountOf(counts, n) + Total(counts, names - {n})
  }

  lemma {:induction false} TotalAdd(counts: map<string, int>, names: set<string>, n: string)
    requires n !in names
    ensures Total(counts, names + {n}) == Total(counts, names) + CountOf(counts, n)
    decreases |names|
  {
    var all := names + {n};
    var m := PickOne(all);
    if m == n {
      assert all - {n} == names;
    } else {
      assert all - {m} == names - {m} + {n};
      TotalAdd(counts, names - {m}, n);
      TotalAdd(counts, names - {m}, m);
      assert names - {m} + {m} == names;
    }
  }

  /** The tag itself and every name with it as an ancestor. */
  function Family(counts: map<string, int>, tag: string): set<string> {
    {tag} + set n | n in counts && Ancestor(tag, n)
  }

  /** The tag itself and every name that the prefix test finds for it. */
  function Prefixed(counts: map<string, int>, tag: string): set<string> {
    {tag} + set n | n in counts && Under(n, tag)
  }

  lemma PrefixedIsFamily(counts: map<string, int>, tag: string)
    requires tag != "" && forall n :: n in counts ==> NoTriple(n)
    ensures Prefixed(counts, tag) == Family(counts, tag)
  {
    forall n | n in counts ensures Under(n, tag) <==> Ancestor(tag, n) {
      if Under(n, tag) {
        UnderIsAncestor(tag, n);
      } else if Ancestor(tag, n) {
        AncestorIsUnder(tag, n);
      }
    }
  }

  datatype TagWithCount = TagWithCount(name: string, postCount: int)

  /** The loop of GetAllTagsWithCounts over the rows of its two queries. */
  method HierarchicalCounts(rows: seq<TagWithCount>, postCounts: map<string, int>) returns (tags: seq<TagWithCount>)
    ensures |tags| == |rows|
    ensures forall k :: 0 <= k < |tags| ==>
              tags[k].name == rows[k].name && tags[k].postCount == Total(postCounts, Prefixed(postCounts, rows[k].name))
    ensures (forall n :: n in postCounts ==> NoTriple(n)) ==>
              forall k :: 0 <= k < |tags| && rows[k].name != "" ==>
                tags[k].postCount == Total(postCounts, Family(postCounts, rows[k].name))
  {
    tags := rows;
    for i := 0 to |tags|
      invariant |tags| == |rows|
      invariant forall k :: 0 <= k < |tags| ==> tags[k].name == rows[k].name
      invariant forall k :: 0 <= k < i ==> tags[k].postCount == Total(postCounts, Prefixed(postCounts, rows[k].name))
    {
      var tag := tags[i].name;
      var count := SumUnder(tag, postCounts);
      tags := tags[i := tags[i].(postCount := count)];
    }
    if forall n :: n in postCounts ==> NoTriple(n) {
      forall k | 0 <= k < |tags| && rows[k].name != ""
        ensures tags[k].postCount == Total(postCounts, Family(postCounts, rows[k].name))
      {
        PrefixedIsFamily(postCounts, rows[k].name);
      }
    }
  }

  /** The inner loop: the tag's own count, and that of every name with its prefix. */
  method SumUnder(tag: string, postCounts: map<string, int>) returns (count: int)
    ensures count == Total(postCounts, Prefixed(postCounts, tag))
  {
    count := if tag in postCounts then postCounts[tag] else 0;
    var prefix := tag + "::";
    var rest := postCounts.Keys;
    ghost var seen: set<string> := {tag};
    TotalAdd(postCounts, {}, tag);
    assert {} + {tag} == seen;
    while rest != {}
      invariant rest <= postCounts.Keys
      invariant seen == {tag} + set n | n in postCounts.Keys - rest && Under(n, tag)
      invariant count == Total(postCounts, seen)
      decreases rest
    {
      var name :| name in rest;
      rest := rest - {name};
      if prefix <= name {
        assert name != tag;
        TotalAdd(postCounts, seen, name);
        seen := seen + {name};
        count := count + postCounts[name];
      }
    }
    assert seen == Prefixed(postCounts, tag);
  }

  // ---------- who may create a subtag ----------

  datatype Tag = Tag(id: int, creator: Option<int>, active: bool)

  /** The tables read: tags by name, administrators of tags, and the users who administer the site. */
  datatype Tables = Tables(tags: map<string, Tag>, tagAdmins: set<(int, int)>, siteAdmins: set<int>)

  predicate IsTagCreator(db: Tables, tagID: int, userID: int) {
    exists n :: n in db.tags && db.tags[n].id == tagID && db.tags[n].creator == Some(userID)
  }

  predicate IsTagAdmin(db: Tables, tagID: int, userID: int) {
    (tagID, userID) in db.tagAdmins
  }

  function GetTagByName(db: Tables, name: string): Option<Tag> {
    if name in db.tags && db.tags[name].active then Some(db.tags[name]) else None
  }

  predicate CanCreateSubtag(db: Tables, parentName: string, userID: int)
    decreases |parentName|
  {
    if userID in db.siteAdmins then true
    else
      match GetTagByName(db, parentName)
      case None => false
      case Some(parentTag) =>
        if IsTagCreator(db, parentTag.id, userID) || IsTagAdmin(db, parentTag.id, userID) then true
        else
          var grandparent := Parent(parentName);
          if grandparent != "" then CanCreateSubtag(db, grandparent, userID) else false
  }

  predicate Active(db: Tables, name: string) {
    name in db.tags && db.tags[name].active
  }

  /** The user created the tag of this name, or a tag of the same id, or is listed as its administrator. */
  ghost predicate Moderates(db: Tables, name: string, userID: int) {
    && name in db.tags
    && ((db.tags[name].id, userID) in db.tagAdmins
        || exists n :: n in db.tags && db.tags[n].id == db.tags[name].id && db.tags[n].creator == Some(userID))
  }

  predicate SelfOrAncestor(tag: string, name: string) {
    tag == name || Ancestor(tag, name)
  }

  /** Every name on the way from `name` up to `tag`, both included, is that of an active tag. */
  ghost predicate Joined(db: Tables, tag: string, name: string) {
    && SelfOrAncestor(tag, name)
    && forall t: string :: SelfOrAncestor(t, name) && SelfOrAncestor(tag, t) ==> Active(db, t)
  }

  lemma JoinedUp(db: Tables, tag: string, name: string)
    requires tag != name
    ensures Joined(db, tag, name) <==> Active(db, name) && Parent(name) != "" && Joined(db, tag, Parent(name))
  {
    var p := Parent(name);
    if Joined(db, tag, name) {
      assert SelfOrAncestor(name, name) && SelfOrAncestor(tag, name);
      forall t: string | SelfOrAncestor(t, p) && SelfOrAncestor(tag, t) ensures Active(db, t) {
        assert SelfOrAncestor(t, name);
      }
    } else if Active(db, name) && p != "" && Joined(db, tag, p) {
      forall t: string | SelfOrAncestor(t, name) && SelfOrAncestor(tag, t) ensures Active(db, t) {
        assert t == name || SelfOrAncestor(t, p);
      }
    }
  }

  /**
   A user may create a subtag exactly when administering the site, or when creator or administrator
   of the parent or one of its ancestors with only active tags on the way.
   */
  lemma {:induction false} CanCreateSubtagIff(db: Tables, parentName: string, userID: int)
    ensures CanCreateSubtag(db, parentName, userID) <==>
      userID in db.siteAdmins || exists t: string :: Joined(db, t, parentName) && Moderates(db, t, userID)
    decreases |parentName|
  {
    var p := Parent(parentName);
    if userID !in db.siteAdmins {
      if Active(db, parentName) && Moderates(db, parentName, userID) {
        JoinedSelf(db, parentName);
      } else {
        if p != "" {
          CanCreateSubtagIff(db, p, userID);
        }
        forall t: string | Moderates(db, t, userID)
          ensures Joined(db, t, parentName) <==> Active(db, parentName) && p != "" && Joined(db, t, p)
        {
          if t == parentName {
            JoinedActive(db, t, parentName);
          } else {
            JoinedUp(db, t, parentName);
          }
        }
      }
    }
  }

  lemma JoinedSelf(db: Tables, name: string)
    requires Active(db, name)
    ensures Joined(db, name, name)
  {
    forall t: string | SelfOrAncestor(t, name) && SelfOrAncestor(name, t) ensures t == name {
      if t != name {
        AncestorIsUnder(t, name);
        AncestorIsUnder(name, t);
      }
    }
  }

  lemma JoinedActive(db: Tables, tag: string, name: string)
    ensures Joined(db, tag, name) ==> Active(db, name)
  {
    assert SelfOrAncestor(name, name);
  }
}
