/**
 Who invited whom on the link board (tools/makhor/pkg/db/users.go, CreateUser and GetInviteTree). The users table is
 a map by id; ids are handed out in increasing order, and the foreign key of the inviter is enforced.
 */
module InviteTree {
  import opened Common

  datatype User = User(id: nat, username: string, email: string, invitedBy: Option<nat>)

  datatype Error = UserExists | UserNotFound | InsertFailed

  type Users = map<nat, User>

  /** Rows are stored under their id, and every inviter is there and older. */
  ghost predicate Valid(users: Users) {
    forall u :: u in users ==> users[u].id == u && InvitedWell(users, u)
  }

  ghost predicate InvitedWell(users: Users, u: nat)
    requires u in users
  {
    users[u].invitedBy.Some? ==> users[u].invitedBy.value in users && users[u].invitedBy.value < u
  }

  ghost predicate UniqueNames(users: Users) {
    forall u, v :: u in users && v in users && u != v ==>
      users[u].username != users[v].username && users[u].email != users[v].email
  }

  /** The chain of inviters from `u` reaches `root`. */
  ghost predicate Reaches(users: Users, u: nat, root: nat)
    requires Valid(users) && u in users
    decreases u
  {
    assert InvitedWell(users, u);
    u == root || (users[u].invitedBy.Some? && Reaches(users, users[u].invitedBy.value, root))
  }

  // ---------- trees ----------

  datatype Tree = Node(user: User, children: seq<Tree>)

  function ChildIds(t: Tree): (r: seq<nat>)
    ensures |r| == |t.children| && forall k :: 0 <= k < |r| ==> r[k] == t.children[k].user.id
  {
    seq(|t.children|, k requires 0 <= k < |t.children| => t.children[k].user.id)
  }

  /** Every node has the users it invited below it, each once. */
  ghost predicate IsTree(users: Users, t: Tree) {
    && t.user.id in users && users[t.user.id] == t.user
    && Distinct(ChildIds(t))
    && (forall c :: c in ChildIds(t) <==> Invited(users, c, t.user.id))
    && forall k :: 0 <= k < |t.children| ==> IsTree(users, t.children[k])
  }

  predicate Invited(users: Users, c: nat, inviter: nat) {
    c in users && users[c].invitedBy == Some(inviter)
  }

  /** The ids in a tree, parents first. */
  function Members(t: Tree): seq<nat>
    decreases t, |t.children| + 1
  {
    [t.user.id] + MembersBelow(t, |t.children|)
  }

  /** Those below the first `k` children. */
  function MembersBelow(t: Tree, k: nat): seq<nat>
    requires k <= |t.children|
    decreases t, k
  {
    if k == 0 then [] else MembersBelow(t, k - 1) + Members(t.children[k - 1])
  }

  class Database {
    var users: Users
    var lastID: nat

    constructor ()
      ensures Consistent() && users == map[] && lastID == 0
    {
      users, lastID := map[], 0;
    }

    ghost predicate Consistent()
      reads this
    {
      Valid(users) && UniqueNames(users) && forall u :: u in users ==> u <= lastID
    }

    method CreateUser(username: string, email: string, invitedBy: Option<nat>) returns (r: Result<User, Error>)
      requires Consistent()
      modifies this
      ensures Consistent()
      ensures r == Err(UserExists) <==> exists u :: u in old(users) && Taken(old(users)[u], username, email)
      ensures r == Err(InsertFailed) <==> r != Err(UserExists) && invitedBy.Some? && invitedBy.value !in old(users)
      ensures r.Err? ==> r.error != UserNotFound && users == old(users) && lastID == old(lastID)
      ensures r.Ok? ==> lastID == old(lastID) + 1 && r.value == User(lastID, username, email, invitedBy)
      ensures r.Ok? ==> users == old(users)[lastID := r.value]
    {
      if exists u :: u in users && Taken(users[u], username, email) {
        return Err(UserExists);
      }
      if invitedBy.Some? && invitedBy.value !in users {
        return Err(InsertFailed);
      }
      lastID := lastID + 1;
      var user := User(lastID, username, email, invitedBy);
      users := users[lastID := user];
      forall u | u in users ensures users[u].id == u && InvitedWell(users, u) {
        assert u in old(users) ==> InvitedWell(old(users), u);
      }
      r := Ok(user);
    }

    /** Recursive as in the original; the order of a user's invitees is up to the database. */
    method GetInviteTree(userID: nat) returns (r: Result<Tree, Error>)
      requires Consistent()
      ensures userID !in users ==> r == Err(UserNotFound)
      ensures userID in users ==> r.Ok? && r.value.user.id == userID && IsTree(users, r.value)
      decreases lastID - userID, userID in users
    {
      if userID !in users {
        return Err(UserNotFound);
      }
      var childIDs: seq<nat> := [];
      var rest := set c | c in users && users[c].invitedBy == Some(userID);
      while rest != {}
        invariant Distinct(childIDs)
        invariant forall c :: Invited(users, c, userID) <==> c in rest || c in childIDs
        invariant forall c :: c in rest ==> c !in childIDs
        decreases rest
      {
        var c :| c in rest;
        rest := rest - {c};
        DistinctConcat(childIDs, [c]);
        childIDs := childIDs + [c];
      }
      var children: seq<Tree> := [];
      for i := 0 to |childIDs|
        invariant |children| == i
        invariant forall k :: 0 <= k < i ==> children[k].user.id == childIDs[k] && IsTree(users, children[k])
      {
        var c := childIDs[i];
        assert Invited(users, c, userID);
        assert InvitedWell(users, c);
        var child := GetInviteTree(c);
        children := children + [child.value];
      }
      var t := Node(users[userID], children);
      assert ChildIds(t) == childIDs;
      r := Ok(t);
    }
  }

  predicate Taken(u: User, username: string, email: string) {
    u.username == username || u.email == email
  }

  // ---------- what is in a tree ----------

  lemma {:induction false} ReachesDown(users: Users, u: nat, root: nat)
    requires Valid(users) && u in users && Reaches(users, u, root)
    ensures root in users && root <= u
    decreases u
  {
    assert InvitedWell(users, u);
    if u != root {
      ReachesDown(users, users[u].invitedBy.value, root);
    }
  }

  /** Of two users on one chain, the chain of one goes through the other. */
  lemma {:induction false} ReachesBoth(users: Users, u: nat, a: nat, b: nat)
    requires Valid(users) && u in users && Reaches(users, u, a) && Reaches(users, u, b)
    ensures a in users && b in users && (Reaches(users, a, b) || Reaches(users, b, a))
    decreases u
  {
    ReachesDown(users, u, a);
    ReachesDown(users, u, b);
    assert InvitedWell(users, u);
    if u != a && u != b {
      ReachesBoth(users, users[u].invitedBy.value, a, b);
    }
  }

  lemma {:induction false} ReachesStep(users: Users, u: nat, c: nat, root: nat)
    requires Valid(users) && u in users && Reaches(users, u, c) && Invited(users, c, root)
    ensures Reaches(users, u, root) && u != root
    decreases u
  {
    assert InvitedWell(users, u) && InvitedWell(users, c);
    ReachesDown(users, u, c);
    if u != c {
      ReachesStep(users, users[u].invitedBy.value, c, root);
    }
  }

  /** A chain that reaches a user from elsewhere comes through one of those it invited. */
  lemma {:induction false} ReachesVia(users: Users, u: nat, root: nat) returns (c: nat)
    requires Valid(users) && u in users && Reaches(users, u, root) && u != root
    ensures Invited(users, c, root) && Reaches(users, u, c)
    decreases u
  {
    assert InvitedWell(users, u);
    var v := users[u].invitedBy.value;
    if v == root {
      c := u;
    } else {
      c := ReachesVia(users, v, root);
    }
  }

  lemma InvitedApart(users: Users, u: nat, a: nat, b: nat, root: nat)
    requires Valid(users) && u in users && Reaches(users, u, a) && Reaches(users, u, b)
    requires Invited(users, a, root) && Invited(users, b, root)
    ensures a == b
  {
    ReachesBoth(users, u, a, b);
    assert InvitedWell(users, a) && InvitedWell(users, b);
    if a != b && Reaches(users, a, b) {
      ReachesDown(users, root, b);
      assert false;
    } else if a != b {
      ReachesDown(users, root, a);
      assert false;
    }
  }

  ghost predicate Lists(users: Users, ids: seq<nat>, root: nat)
    requires Valid(users)
  {
    Distinct(ids) && forall u :: u in ids <==> u in users && Reaches(users, u, root)
  }

  /** The chain of `u` comes through one of the first `k` children. */
  ghost predicate Through(users: Users, t: Tree, u: nat, k: nat)
    requires Valid(users) && u in users && k <= |t.children|
  {
    k > 0 && (Through(users, t, u, k - 1) || Reaches(users, u, t.children[k - 1].user.id))
  }

  ghost predicate ListsBelow(users: Users, t: Tree, k: nat)
    requires Valid(users) && k <= |t.children|
  {
    Distinct(MembersBelow(t, k)) && forall u :: u in MembersBelow(t, k) <==> u in users && Through(users, t, u, k)
  }

  lemma {:induction false} ThroughChild(users: Users, t: Tree, u: nat, k: nat) returns (i: nat)
    requires Valid(users) && u in users && k <= |t.children| && Through(users, t, u, k)
    ensures i < k && Reaches(users, u, ChildIds(t)[i]) && ChildIds(t)[i] in ChildIds(t)
  {
    if Reaches(users, u, t.children[k - 1].user.id) {
      i := k - 1;
      assert ChildIds(t)[i] == t.children[i].user.id;
    } else {
      i := ThroughChild(users, t, u, k - 1);
    }
  }

  lemma {:induction false} ChildThrough(users: Users, t: Tree, u: nat, k: nat, c: nat)
    requires Valid(users) && u in users && k <= |t.children| && Reaches(users, u, c) && c in ChildIds(t)[..k]
    ensures Through(users, t, u, k)
  {
    if c != t.children[k - 1].user.id {
      assert ChildIds(t)[..k] == ChildIds(t)[..k - 1] + [t.children[k - 1].user.id];
      ChildThrough(users, t, u, k - 1, c);
    }
  }

  /** Below the root are those whose chain reaches it from elsewhere. */
  lemma AllThrough(users: Users, t: Tree, u: nat)
    requires Valid(users) && IsTree(users, t) && u in users
    ensures Through(users, t, u, |t.children|) <==> Reaches(users, u, t.user.id) && u != t.user.id
  {
    if Through(users, t, u, |t.children|) {
      var i := ThroughChild(users, t, u, |t.children|);
      ReachesStep(users, u, ChildIds(t)[i], t.user.id);
    } else if Reaches(users, u, t.user.id) && u != t.user.id {
      var c := ReachesVia(users, u, t.user.id);
      assert ChildIds(t)[..|t.children|] == ChildIds(t);
      ChildThrough(users, t, u, |t.children|, c);
    }
  }

  /** The tree of a user holds exactly those whose chain of inviters reaches it, each once. */
  lemma {:induction false} TreeExact(users: Users, t: Tree)
    requires Valid(users) && IsTree(users, t)
    ensures Lists(users, Members(t), t.user.id)
    decreases t, |t.children| + 1
  {
    var root, below := t.user.id, MembersBelow(t, |t.children|);
    BelowExact(users, t, |t.children|);
    forall u | u in users ensures u in below <==> Reaches(users, u, root) && u != root {
      AllThrough(users, t, u);
    }
    DistinctConcat([root], below);
  }

  lemma {:induction false} BelowExact(users: Users, t: Tree, k: nat)
    requires Valid(users) && IsTree(users, t) && k <= |t.children|
    ensures ListsBelow(users, t, k)
    decreases t, k
  {
    if k > 0 {
      BelowExact(users, t, k - 1);
      TreeExact(users, t.children[k - 1]);
      var before, more := MembersBelow(t, k - 1), Members(t.children[k - 1]);
      forall x, y | 0 <= x < |before| && 0 <= y < |more| ensures before[x] != more[y] {
        assert before[x] in before && more[y] in more;
        if before[x] == more[y] {
          ChildrenApart(users, t, before[x], k);
        }
      }
      DistinctConcat(before, more);
    }
  }

  lemma ChildrenApart(users: Users, t: Tree, u: nat, k: nat)
    requires Valid(users) && IsTree(users, t) && 0 < k <= |t.children| && u in users
    requires Through(users, t, u, k - 1)
    ensures !Reaches(users, u, t.children[k - 1].user.id)
  {
    var ids := ChildIds(t);
    var i := ThroughChild(users, t, u, k - 1);
    if Reaches(users, u, ids[k - 1]) {
      assert ids[k - 1] in ids;
      InvitedApart(users, u, ids[i], ids[k - 1], t.user.id);
      DistinctPair(ids, i, k - 1);
    }
  }

  // ---------- the forest ----------

  /** Every user is in the tree of exactly one user that nobody invited. */
  lemma {:induction false} OneRoot(users: Users, u: nat) returns (root: nat)
    requires Valid(users) && u in users
    ensures root in users && users[root].invitedBy == None && Reaches(users, u, root)
    ensures forall r :: r in users && users[r].invitedBy == None && Reaches(users, u, r) ==> r == root
    decreases u
  {
    assert InvitedWell(users, u);
    if users[u].invitedBy == None {
      root := u;
    } else {
      root := OneRoot(users, users[u].invitedBy.value);
    }
  }

  lemma {:induction false} OldReaches(users: Users, more: Users, u: nat, root: nat)
    requires Valid(users) && Valid(more) && u in users && forall v :: v in users ==> v in more && more[v] == users[v]
    ensures Reaches(more, u, root) <==> Reaches(users, u, root)
    decreases u
  {
    assert InvitedWell(users, u);
    if users[u].invitedBy.Some? {
      OldReaches(users, more, users[u].invitedBy.value, root);
    }
  }

  /** A new user appears in its own tree and in those its inviter is in, and no other tree changes. */
  lemma NewUser(users: Users, user: User, u: nat, root: nat)
    requires Valid(users) && user.id !in users && Valid(users[user.id := user])
    requires u in users || u == user.id
    requires user.invitedBy.Some? ==> user.invitedBy.value in users
    ensures Reaches(users[user.id := user], u, root) <==>
      (if u != user.id then Reaches(users, u, root)
       else root == u || (user.invitedBy.Some? && Reaches(users, user.invitedBy.value, root)))
  {
    var more := users[user.id := user];
    assert InvitedWell(more, u);
    if u != user.id {
      OldReaches(users, more, u, root);
    } else if user.invitedBy.Some? {
      OldReaches(users, more, user.invitedBy.value, root);
    }
  }
}
