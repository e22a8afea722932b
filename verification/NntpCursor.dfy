/**
 A session's place in its newsgroup (ops/pkgs/nntpd/nntpd.go, lines 66-74 and 391-538;
 RFC 3977, sections 6.1.1 to 6.1.4), while other sessions go on posting.
 */
module NntpCursor {
  import opened Common

  ghost predicate Ascending(s: seq<int>) {
    forall i, j :: 0 <= i < j < |s| ==> s[i] < s[j]
  }

  ghost predicate Lists(s: seq<int>, nums: set<int>) {
    Ascending(s) && forall n :: n in s <==> n in nums
  }

  lemma {:induction false} ListsUnique(s: seq<int>, t: seq<int>, nums: set<int>)
    requires Lists(s, nums) && Lists(t, nums)
    ensures s == t
  {
    if s != [] {
      var a := s[0];
      assert a in s && a in nums && a in t;
    }
    if t != [] {
      var b := t[0];
      assert b in t && b in nums && b in s;
      FirstIsLeast(s, b);
      FirstIsLeast(t, s[0]);
      forall n ensures n in s[1..] <==> n in nums - {s[0]} {
        TailMember(s, n);
      }
      forall n ensures n in t[1..] <==> n in nums - {s[0]} {
        TailMember(t, n);
      }
      ListsUnique(s[1..], t[1..], nums - {s[0]});
    }
  }

  lemma FirstIsLeast(s: seq<int>, n: int)
    requires Ascending(s) && n in s
    ensures s[0] <= n
  {
  }

  lemma TailMember(s: seq<int>, n: int)
    requires Ascending(s) && s != []
    ensures n in s[1..] <==> n in s && n != s[0]
  {
  }

  // ---------- the collected numbers, sorted ----------

  function Insert(n: int, s: seq<int>): seq<int> {
    if s == [] || n < s[0] then [n] + s else [s[0]] + Insert(n, s[1..])
  }

  lemma {:induction false} InsertSorted(n: int, s: seq<int>)
    requires Ascending(s) && n !in s
    ensures Ascending(Insert(n, s)) && forall m :: m in Insert(n, s) <==> m == n || m in s
  {
    if s != [] && n > s[0] {
      InsertSorted(n, s[1..]);
      var rest := Insert(n, s[1..]);
      forall m | m in rest ensures m > s[0] {
        assert m == n || m in s[1..];
      }
      forall i | 0 <= i < |rest| ensures rest[i] > s[0] {
        assert rest[i] in rest;
      }
    }
  }

  /** sort.Ints, as far as the result goes. */
  function SortInts(s: seq<int>): seq<int> {
    if s == [] then [] else Insert(s[|s| - 1], SortInts(s[..|s| - 1]))
  }

  /** The keys of the article map, collected in any order and sorted. */
  method SortedNumbers(keys: set<int>) returns (nums: seq<int>)
    ensures Lists(nums, keys)
  {
    nums := [];
    var rest := keys;
    while rest != {}
      invariant rest <= keys
      invariant Lists(SortInts(nums), keys - rest)
      decreases rest
    {
      ghost var some := PickOne(rest);
      var n :| n in rest;
      assert (nums + [n])[..|nums|] == nums;
      InsertSorted(n, SortInts(nums));
      nums, rest := nums + [n], rest - {n};
    }
    nums := SortInts(nums);
  }

  // ---------- moving the cursor ----------

  /** The position of `cur` in the list, or -1. */
  function IndexOf(s: seq<int>, cur: int): (i: int)
    ensures -1 <= i < |s|
    ensures i >= 0 ==> s[i] == cur && cur !in s[..i]
    ensures i == -1 ==> cur !in s
  {
    if s == [] then -1
    else if s[0] == cur then 0
    else
      var i := IndexOf(s[1..], cur);
      if i == -1 then -1 else i + 1
  }

  /** cmdNextLast's arithmetic on the sorted list. */
  function Move(s: seq<int>, cur: int, dir: int): Option<int> {
    var i := IndexOf(s, cur) + dir;
    if i < 0 || i >= |s| then None else Some(s[i])
  }

  ghost predicate LeastAbove(nums: set<int>, cur: int, n: int) {
    n in nums && n > cur && forall m :: m in nums && m > cur ==> n <= m
  }

  ghost predicate GreatestBelow(nums: set<int>, cur: int, n: int) {
    n in nums && n < cur && forall m :: m in nums && m < cur ==> m <= n
  }

  /** NEXT goes to the least number above the cursor, and fails exactly when there is none. */
  lemma NextMeaning(s: seq<int>, nums: set<int>, cur: int)
    requires Lists(s, nums) && cur in nums
    ensures match Move(s, cur, 1)
            case Some(n) => LeastAbove(nums, cur, n)
            case None => forall m :: m in nums ==> m <= cur
  {
    var i := IndexOf(s, cur);
    forall m | m in nums ensures m <= cur || (i + 1 < |s| && s[i + 1] <= m) {
      assert m in s;
      var k :| 0 <= k < |s| && s[k] == m;
      assert k > i + 1 ==> s[i + 1] < s[k];
      assert k < i ==> s[k] < s[i];
    }
    assert i + 1 < |s| ==> s[i + 1] in s;
  }

  /** LAST goes to the greatest number below it. */
  lemma LastMeaning(s: seq<int>, nums: set<int>, cur: int)
    requires Lists(s, nums) && cur in nums
    ensures match Move(s, cur, -1)
            case Some(n) => GreatestBelow(nums, cur, n)
            case None => forall m :: m in nums ==> m >= cur
  {
    var i := IndexOf(s, cur);
    forall m | m in nums ensures m >= cur || (i - 1 >= 0 && m <= s[i - 1]) {
      assert m in s;
      var k :| 0 <= k < |s| && s[k] == m;
      assert k < i - 1 ==> s[k] < s[i - 1];
      assert k > i ==> s[i] < s[k];
    }
    assert i - 1 >= 0 ==> s[i - 1] in s;
  }

  /** With the cursor on no article NEXT starts over at the first one, and LAST fails. */
  lemma MoveFromNowhere(s: seq<int>, nums: set<int>, cur: int)
    requires Lists(s, nums) && cur !in nums
    ensures Move(s, cur, 1) == if s == [] then None else Some(s[0])
    ensures Move(s, cur, -1) == None
  {
    assert cur !in s;
  }

  // ---------- a reader's walk while others post ----------

  /** Posting adds a number above all others. */
  datatype Event = Grow(n: int) | Next

  datatype Walk = Walk(nums: set<int>, cur: int, visited: seq<int>)

  ghost function SomeList(nums: set<int>): (s: seq<int>)
    ensures Lists(s, nums)
  {
    ListExists(nums);
    var s :| Lists(s, nums);
    s
  }

  lemma SomeListIs(s: seq<int>, nums: set<int>)
    requires Lists(s, nums)
    ensures SomeList(nums) == s
  {
    ListsUnique(SomeList(nums), s, nums);
  }

  lemma {:induction false} ListExists(nums: set<int>)
    ensures exists s :: Lists(s, nums)
    decreases nums
  {
    if nums == {} {
      assert Lists([], nums);
    } else {
      var n := PickOne(nums);
      ListExists(nums - {n});
      var s :| Lists(s, nums - {n});
      InsertSorted(n, s);
      assert Lists(Insert(n, s), nums);
    }
  }

  ghost function Step(w: Walk, e: Event): Walk {
    match e
    case Grow(n) => w.(nums := w.nums + {n})
    case Next =>
      match Move(SomeList(w.nums), w.cur, 1)
      case None => w
      case Some(n) => w.(cur := n, visited := w.visited + [n])
  }

  ghost predicate Possible(w: Walk, e: Event) {
    e.Grow? ==> forall m :: m in w.nums ==> m < e.n
  }

  ghost function Run(w: Walk, events: seq<Event>): Walk {
    if events == [] then w else Step(Run(w, events[..|events| - 1]), events[|events| - 1])
  }

  ghost predicate PossibleRun(w: Walk, events: seq<Event>) {
    events == [] ||
    (PossibleRun(w, events[..|events| - 1]) && Possible(Run(w, events[..|events| - 1]), events[|events| - 1]))
  }

  /** What has been seen since `start` is every article from there to the cursor. */
  ghost predicate SeenAll(w: Walk, start: int) {
    && w.cur in w.nums && start <= w.cur
    && Lists([start] + w.visited, set n | n in w.nums && start <= n <= w.cur)
  }

  lemma StepSeesAll(w: Walk, e: Event, start: int)
    requires SeenAll(w, start) && Possible(w, e)
    ensures SeenAll(Step(w, e), start)
  {
    var w' := Step(w, e);
    var seen := [start] + w.visited;
    if e.Grow? {
      assert (set n | n in w'.nums && start <= n <= w'.cur) == (set n | n in w.nums && start <= n <= w.cur);
    } else {
      NextMeaning(SomeList(w.nums), w.nums, w.cur);
      if w'.cur != w.cur {
        assert [start] + w'.visited == seen + [w'.cur];
        assert (set n | n in w'.nums && start <= n <= w'.cur)
            == (set n | n in w.nums && start <= n <= w.cur) + {w'.cur};
        forall i | 0 <= i < |seen| ensures seen[i] < w'.cur {
          assert seen[i] in seen;
        }
      }
    }
  }

  /**
   However posts fall between them, repeated NEXT skips nothing and repeats nothing: the articles
   visited are, in order, all those after the start up to the cursor; and once NEXT fails, all
   those after the start.
   */
  lemma NextVisitsAll(nums: set<int>, start: int, events: seq<Event>)
    requires start in nums && PossibleRun(Walk(nums, start, []), events)
    ensures var w := Run(Walk(nums, start, []), events);
      && SeenAll(w, start)
      && (Move(SomeList(w.nums), w.cur, 1) == None ==> Lists([start] + w.visited, set n | n in w.nums && n >= start))
  {
    RunSeesAll(nums, start, events);
    var w := Run(Walk(nums, start, []), events);
    NextMeaning(SomeList(w.nums), w.nums, w.cur);
    if Move(SomeList(w.nums), w.cur, 1) == None {
      assert (set n | n in w.nums && n >= start) == set n | n in w.nums && start <= n <= w.cur;
    }
  }

  lemma {:induction false} RunSeesAll(nums: set<int>, start: int, events: seq<Event>)
    requires start in nums && PossibleRun(Walk(nums, start, []), events)
    ensures SeenAll(Run(Walk(nums, start, []), events), start)
  {
    var w := Walk(nums, start, []);
    if events == [] {
      assert [start] + w.visited == [start];
      assert (set n | n in w.nums && start <= n <= w.cur) == {start};
    } else {
      RunSeesAll(nums, start, events[..|events| - 1]);
      StepSeesAll(Run(w, events[..|events| - 1]), events[|events| - 1], start);
    }
  }

  /** LAST after a successful NEXT goes back, even if others posted in between. */
  lemma LastUndoesNext(nums: set<int>, cur: int, more: set<int>, s: seq<int>, t: seq<int>)
    requires cur in nums && Lists(s, nums) && Lists(t, nums + more)
    requires forall m, n :: m in nums && n in more ==> m < n
    requires Move(s, cur, 1).Some?
    ensures Move(t, Move(s, cur, 1).value, -1) == Some(cur)
  {
    var n := Move(s, cur, 1).value;
    NextMeaning(s, nums, cur);
    LastMeaning(t, nums + more, n);
  }

  /** The numbers of a group after a post: those before, and others above them. */
  ghost predicate Grown(before: set<int>, after: set<int>) {
    before <= after && forall m, n :: m in before && n in after - before ==> m < n
  }

  lemma GrownTwice(a: set<int>, b: set<int>, c: set<int>)
    requires Grown(a, b) && Grown(b, c)
    ensures Grown(a, c)
  {
    forall m, n | m in a && n in c - a ensures m < n {
      assert m in b && (n in b - a || n in c - b);
    }
  }

  lemma LastAfterGrowth(before: set<int>, after: set<int>, cur: int)
    requires cur in before && Grown(before, after) && Move(SomeList(before), cur, 1).Some?
    ensures Move(SomeList(after), Move(SomeList(before), cur, 1).value, -1) == Some(cur)
  {
    assert before + (after - before) == after;
    LastUndoesNext(before, cur, after - before, SomeList(before), SomeList(after));
  }

  // ---------- the cursor over a whole session ----------

  /** What a session sees: the numbers in each group, its group and its cursor. */
  datatype View = View(groups: map<string, set<int>>, group: Option<string>, cur: int)

  datatype Command =
    | Group(name: string)
    | ListGroup(given: Option<string>)
    | Number(n: int)
    | Forward
    | Back
    | OtherPost(name: string, n: int)

  ghost predicate OnArticle(v: View) {
    v.group.Some? && v.group.value in v.groups && v.cur in v.groups[v.group.value]
  }

  ghost function Selected(v: View, name: string, ifEmpty: int): View {
    if name !in v.groups then v
    else
      var nums := SomeList(v.groups[name]);
      v.(group := Some(name), cur := if nums == [] then ifEmpty else nums[0])
  }

  ghost function Moved(v: View, dir: int): View {
    if v.group.None? || v.group.value !in v.groups then v
    else
      match Move(SomeList(v.groups[v.group.value]), v.cur, dir)
      case None => v
      case Some(n) => v.(cur := n)
  }

  /** One command of the session, or an article posted by anyone. */
  ghost function Do(v: View, c: Command): View {
    match c
    case Group(name) => Selected(v, name, 0)
    case ListGroup(given) =>
      if given.Some? then Selected(v, given.value, v.cur)
      else if v.group.Some? then Selected(v, v.group.value, v.cur)
      else v
    case Number(n) =>
      if v.group.Some? && v.group.value in v.groups && n in v.groups[v.group.value] then v.(cur := n) else v
    case Forward => Moved(v, 1)
    case Back => Moved(v, -1)
    case OtherPost(name, n) =>
      v.(groups := v.groups[name := (if name in v.groups then v.groups[name] else {}) + {n}])
  }

  /** The command selects a group that has no articles. */
  ghost predicate SelectsEmpty(v: View, c: Command) {
    match c
    case Group(name) => name in v.groups && v.groups[name] == {}
    case ListGroup(Some(name)) => name in v.groups && v.groups[name] == {}
    case _ => false
  }

  lemma FirstListed(nums: set<int>)
    ensures SomeList(nums) == [] <==> nums == {}
    ensures nums != {} ==> SomeList(nums)[0] in nums
  {
    var s := SomeList(nums);
    if nums != {} {
      var n := PickOne(nums);
      assert n in s;
    }
    if s != [] {
      var first := s[0];
      assert first in s;
    }
  }

  /** Selecting a group puts the cursor on an article exactly when the group has one. */
  lemma SelectedOnArticle(v: View, name: string, ifEmpty: int)
    requires name in v.groups
    ensures OnArticle(Selected(v, name, ifEmpty)) <==> v.groups[name] != {}
  {
    FirstListed(v.groups[name]);
  }

  /** A cursor on an article stays on one, except by selecting an empty group. */
  lemma DoKeepsOnArticle(v: View, c: Command)
    requires OnArticle(v)
    ensures OnArticle(Do(v, c)) <==> !SelectsEmpty(v, c)
  {
    var nums := v.groups[v.group.value];
    match c
    case Group(name) =>
      if name in v.groups { SelectedOnArticle(v, name, 0); }
    case ListGroup(given) =>
      var name := if given.Some? then given.value else v.group.value;
      if name in v.groups { SelectedOnArticle(v, name, v.cur); }
    case Forward => NextMeaning(SomeList(nums), nums, v.cur);
    case Back => LastMeaning(SomeList(nums), nums, v.cur);
    case Number(_) =>
    case OtherPost(_, _) =>
  }

  ghost function Session(v: View, cs: seq<Command>): View {
    if cs == [] then v else Do(Session(v, cs[..|cs| - 1]), cs[|cs| - 1])
  }

  lemma {:induction false} SessionConcat(v: View, a: seq<Command>, b: seq<Command>)
    ensures Session(v, a + b) == Session(Session(v, a), b)
  {
    if b == [] {
      assert a + b == a;
    } else {
      SessionConcat(v, a, b[..|b| - 1]);
      assert (a + b)[..|a + b| - 1] == a + b[..|b| - 1];
    }
  }

  ghost predicate NoEmptyGroup(v: View) {
    forall g :: g in v.groups ==> v.groups[g] != {}
  }

  /** On a server without empty groups a cursor that is on an article is on one ever after. */
  lemma {:induction false} SessionOnArticle(v: View, cs: seq<Command>)
    requires OnArticle(v) && NoEmptyGroup(v)
    ensures OnArticle(Session(v, cs)) && NoEmptyGroup(Session(v, cs))
  {
    if cs != [] {
      SessionOnArticle(v, cs[..|cs| - 1]);
      DoKeepsOnArticle(Session(v, cs[..|cs| - 1]), cs[|cs| - 1]);
    }
  }

  // ---------- a cursor left from another group ----------

  ghost function UpTo(k: nat): (r: set<int>)
    ensures forall n :: n in r <==> 1 <= n <= k
  {
    if k == 0 then {} else UpTo(k - 1) + {k}
  }

  /** Articles posted by anyone; those to group `name` get the numbers 1 to `k`. */
  ghost predicate Fills(posts: seq<Command>, name: string, k: nat) {
    if posts == [] then k == 0
    else
      var last := posts[|posts| - 1];
      && last.OtherPost?
      && if last.name == name then k > 0 && last.n == k && Fills(posts[..|posts| - 1], name, k - 1)
         else Fills(posts[..|posts| - 1], name, k)
  }

  lemma {:induction false} Filled(v: View, posts: seq<Command>, name: string, k: nat)
    requires name in v.groups && v.groups[name] == {} && Fills(posts, name, k)
    ensures var w := Session(v, posts);
            w.group == v.group && w.cur == v.cur && name in w.groups && w.groups[name] == UpTo(k)
  {
    if posts != [] {
      var init, last := posts[..|posts| - 1], posts[|posts| - 1];
      if last.name == name {
        Filled(v, init, name, k - 1);
      } else {
        Filled(v, init, name, k);
      }
    }
  }

  lemma NextUpTo(k: nat, cur: int)
    ensures Move(SomeList(UpTo(k)), cur, 1) ==
            if 1 <= cur <= k then (if cur < k then Some(cur + 1) else None) else if k > 0 then Some(1) else None
  {
    var nums := UpTo(k);
    var s := SomeList(nums);
    if 1 <= cur <= k {
      NextMeaning(s, nums, cur);
      assert cur < k ==> cur + 1 in nums;
    } else {
      MoveFromNowhere(s, nums, cur);
      FirstListed(nums);
      if k > 0 {
        assert 1 in nums;
        FirstIsLeast(s, 1);
      }
    }
  }

  /**
   LISTGROUP on an empty group keeps the number from the group before. Once articles are posted there, the
   cursor is on one exactly when that number has been reached, and then NEXT goes on from it: of the articles
   posted, those up to it are passed over. Otherwise NEXT starts at the first, as it does after GROUP.
   */
  lemma StaleCursor(v: View, name: string, posts: seq<Command>, k: nat)
    requires name in v.groups && v.groups[name] == {} && Fills(posts, name, k)
    ensures var w := Session(Do(v, ListGroup(Some(name))), posts);
      && w.group == Some(name) && w.cur == v.cur && name in w.groups && w.groups[name] == UpTo(k)
      && (OnArticle(w) <==> 1 <= v.cur <= k)
      && Do(w, Forward).cur == (if 1 <= v.cur < k then v.cur + 1 else if v.cur == k || k == 0 then v.cur else 1)
    ensures var w := Session(Do(v, Group(name)), posts);
      w.group == Some(name) && w.cur == 0 && !OnArticle(w) && Do(w, Forward).cur == if k == 0 then 0 else 1
  {
    FirstListed(v.groups[name]);
    Filled(Do(v, ListGroup(Some(name))), posts, name, k);
    Filled(Do(v, Group(name)), posts, name, k);
    NextUpTo(k, v.cur);
    NextUpTo(k, 0);
  }
}
