/**
 The import loop of the feed poller (tools/makhor/pkg/rsspoll/poller.go, pollFeed) with the ledger of imported items
 (tools/makhor/pkg/db/rss.go). Polls run one after the other; fetching, parsing and the text of a post are taken
 as given, and only posts made from feed items are counted.
 */
module RssImport {
  import opened Common

  datatype Item = Item(guid: string, link: string)

  /** A post and the item it was made from. */
  datatype Post = Post(feed: int, guid: string, link: string)

  /** How creating a post ends: it is there and returned, it is not there, or it is there but reading it back fails. */
  datatype Creation = Returned | Refused | Unread

  /** What goes wrong for an item: its look-up in the ledger, creating its post, writing its row. */
  datatype Fault = Fault(lookup: bool, creation: Creation, row: bool)

  const NO_FAULT: Fault := Fault(false, Returned, false)

  type Key = (int, string)

  /** Posts by index, and for each imported (feed, guid) the post it became. */
  datatype Tables = Tables(posts: seq<Post>, ledger: map<Key, nat>)

  /** The guid, or the link of an item without one. */
  function GuidOf(item: Item): string {
    if item.guid == "" then item.link else item.guid
  }

  // ---------- one poll ----------

  /** A row of its own is written for the post: the (feed, guid) of a row is unique. */
  function RowWritten(ledger: map<Key, nat>, key: Key, id: nat, fault: Fault): map<Key, nat> {
    if fault.row || key in ledger then ledger else ledger[key := id]
  }

  /** One turn of the loop: the tables after it, and whether an item was counted as imported. */
  function Import(db: Tables, feed: int, item: Item, fault: Fault): (Tables, bool) {
    var key := (feed, GuidOf(item));
    if key.1 == "" || (!fault.lookup && key in db.ledger) || fault.creation == Refused then (db, false)
    else
      var posts := db.posts + [Post(feed, key.1, item.link)];
      if fault.creation == Unread then (Tables(posts, db.ledger), false)
      else (Tables(posts, RowWritten(db.ledger, key, |db.posts|, fault)), true)
  }

  /** The rest of the loop, `n` items having been imported. */
  function Poll(db: Tables, feed: int, items: seq<Item>, faults: seq<Fault>, max: int, n: nat): Tables
    requires |faults| == |items|
    decreases |items|
  {
    if items == [] then db
    else
      var (d, imported) := Import(db, feed, items[0], faults[0]);
      if imported && max > 0 && n + 1 >= max then d
      else Poll(d, feed, items[1..], faults[1..], max, if imported then n + 1 else n)
  }

  /** How many items it counts as imported, those before among them. */
  function Count(db: Tables, feed: int, items: seq<Item>, faults: seq<Fault>, max: int, n: nat): nat
    requires |faults| == |items|
    decreases |items|
  {
    if items == [] then n
    else
      var (d, imported) := Import(db, feed, items[0], faults[0]);
      if imported && max > 0 && n + 1 >= max then n + 1
      else Count(d, feed, items[1..], faults[1..], max, if imported then n + 1 else n)
  }

  /** The loop from item `i` on: one turn, and the loop from the next one on. */
  lemma LoopNext(db: Tables, feed: int, items: seq<Item>, faults: seq<Fault>, max: int, i: nat, n: nat)
    requires |faults| == |items| && i < |items|
    ensures var (d, imported) := Import(db, feed, items[i], faults[i]);
      var m, stop := if imported then n + 1 else n, imported && max > 0 && n + 1 >= max;
      && Poll(db, feed, items[i..], faults[i..], max, n)
         == (if stop then d else Poll(d, feed, items[i + 1..], faults[i + 1..], max, m))
      && Count(db, feed, items[i..], faults[i..], max, n)
         == if stop then m else Count(d, feed, items[i + 1..], faults[i + 1..], max, m)
  {
    assert items[i..][1..] == items[i + 1..] && faults[i..][1..] == faults[i + 1..];
  }

  /**
   One item without faults: known by its guid, or by its link if it has none, it becomes a post with its link and a row
   for it, unless it has neither or its (feed, guid) has a row.
   */
  lemma OneItem(db: Tables, feed: int, item: Item, max: int)
    ensures var db' := Poll(db, feed, [item], [NO_FAULT], max, 0);
      && (item.guid == "" && item.link == "" ==> db' == db)
      && (forall guid :: guid != "" && (item.guid == guid || (item.guid == "" && item.link == guid)) ==>
            db' == if (feed, guid) in db.ledger then db
                   else Tables(db.posts + [Post(feed, guid, item.link)], db.ledger[(feed, guid) := |db.posts|]))
  {
    assert [item][1..] == [] && [NO_FAULT][1..] == [];
  }

  class Database {
    var posts: seq<Post>
    var ledger: map<Key, nat>

    constructor ()
      ensures View() == Tables([], map[])
    {
      posts, ledger := [], map[];
    }

    ghost function View(): Tables
      reads this
    {
      Tables(posts, ledger)
    }

    /** A query that fails reads as no. */
    method HasRSSItem(feed: int, guid: string, fault: Fault) returns (has: bool)
      ensures has <==> !fault.lookup && (feed, guid) in ledger
    {
      if fault.lookup {
        return false;
      }
      has := (feed, guid) in ledger;
    }

    /** The post is committed before it is read back. */
    method CreatePost(feed: int, guid: string, link: string, fault: Fault) returns (id: Option<nat>)
      modifies this`posts
      ensures posts == if fault.creation == Refused then old(posts) else old(posts) + [Post(feed, guid, link)]
      ensures id == if fault.creation == Returned then Some(|old(posts)|) else None
    {
      if fault.creation == Refused {
        return None;
      }
      id := Some(|posts|);
      posts := posts + [Post(feed, guid, link)];
      if fault.creation == Unread {
        id := None;
      }
    }

    /** A second row for the same item is refused. */
    method CreateRSSItem(feed: int, guid: string, id: nat, fault: Fault)
      modifies this`ledger
      ensures ledger == RowWritten(old(ledger), (feed, guid), id, fault)
    {
      if !fault.row && (feed, guid) !in ledger {
        ledger := ledger[(feed, guid) := id];
      }
    }

    method PollFeed(feed: int, items: seq<Item>, faults: seq<Fault>, max: int) returns (imported: nat)
      requires |faults| == |items|
      modifies this
      ensures View() == Poll(old(View()), feed, items, faults, max, 0)
      ensures imported == Count(old(View()), feed, items, faults, max, 0)
      ensures imported <= |posts| - |old(posts)| && (max > 0 ==> imported <= max)
    {
      imported := 0;
      ghost var start := View();
      for i := 0 to |items|
        invariant Poll(View(), feed, items[i..], faults[i..], max, imported) == Poll(start, feed, items, faults, max, 0)
        invariant Count(View(), feed, items[i..], faults[i..], max, imported)
               == Count(start, feed, items, faults, max, 0)
        invariant |start.posts| + imported <= |posts|
        invariant max > 0 ==> imported < max
      {
        LoopNext(View(), feed, items, faults, max, i, imported);
        var item := items[i];
        var guid := item.guid;
        if guid == "" {
          guid := item.link;
        }
        if guid == "" {
          continue;
        }
        var has := HasRSSItem(feed, guid, faults[i]);
        if has {
          continue;
        }
        var id := CreatePost(feed, guid, item.link, faults[i]);
        if id.None? {
          continue;
        }
        CreateRSSItem(feed, guid, id.value, faults[i]);
        imported := imported + 1;
        if max > 0 && imported >= max {
          return;
        }
      }
    }
  }

  // ---------- the ledger ----------

  function KeyOf(p: Post): Key {
    (p.feed, p.guid)
  }

  /** Post `i` has its row in the ledger. */
  predicate Recorded(db: Tables, i: nat)
    requires i < |db.posts|
  {
    KeyOf(db.posts[i]) in db.ledger && db.ledger[KeyOf(db.posts[i])] == i
  }

  /** Every row points to the post of its item. */
  ghost predicate SoundRows(db: Tables) {
    forall k :: k in db.ledger ==> db.ledger[k] < |db.posts| && KeyOf(db.posts[db.ledger[k]]) == k
  }

  /** Rows and posts correspond one to one. */
  ghost predicate Exact(db: Tables) {
    (forall i: nat :: i < |db.posts| ==> Recorded(db, i)) && SoundRows(db)
  }

  /** The item becomes a post without a row of its own. */
  predicate OrphansFirst(db: Tables, feed: int, item: Item, fault: Fault) {
    var key := (feed, GuidOf(item));
    && key.1 != "" && (fault.lookup || key !in db.ledger) && fault.creation != Refused
    && (fault.creation == Unread || fault.row || key in db.ledger)
  }

  /** Some item of the rest of the loop does. */
  predicate Orphaned(db: Tables, feed: int, items: seq<Item>, faults: seq<Fault>, max: int, n: nat)
    requires |faults| == |items|
    decreases |items|
  {
    items != [] &&
    var (d, imported) := Import(db, feed, items[0], faults[0]);
    OrphansFirst(db, feed, items[0], faults[0])
    || (!(imported && max > 0 && n + 1 >= max)
        && Orphaned(d, feed, items[1..], faults[1..], max, if imported then n + 1 else n))
  }

  // ---------- the same, item by item ----------

  /** Before item `i` its (feed, guid) has a row: from before the poll, or from an item with the same guid. */
  ghost predicate Known(db: Tables, feed: int, items: seq<Item>, faults: seq<Fault>, i: nat)
    requires |faults| == |items| && i < |items|
  {
    (feed, GuidOf(items[i])) in db.ledger || exists j :: Records(items, faults, i, j)
  }

  /** Item `j` comes before item `i`, has its guid, and sees to it that there is a row. */
  predicate Records(items: seq<Item>, faults: seq<Fault>, i: nat, j: int)
    requires |faults| == |items| && i < |items|
  {
    0 <= j < i && GuidOf(items[j]) == GuidOf(items[i]) && faults[j].creation == Returned && !faults[j].row
  }

  /** Limit aside, item `i` becomes a post: it has a guid, is not found in the ledger, and the post is made. */
  ghost predicate Makes(db: Tables, feed: int, items: seq<Item>, faults: seq<Fault>, i: nat)
    requires |faults| == |items| && i < |items|
  {
    && GuidOf(items[i]) != "" && (faults[i].lookup || !Known(db, feed, items, faults, i))
    && faults[i].creation != Refused
  }

  /** Limit aside, it counts as imported. */
  ghost predicate Counts(db: Tables, feed: int, items: seq<Item>, faults: seq<Fault>, i: nat)
    requires |faults| == |items| && i < |items|
  {
    Makes(db, feed, items, faults, i) && faults[i].creation == Returned
  }

  ghost function CountBefore(db: Tables, feed: int, items: seq<Item>, faults: seq<Fault>, i: nat): nat
    requires |faults| == |items| && i <= |items|
  {
    if i == 0 then 0
    else CountBefore(db, feed, items, faults, i - 1) + if Counts(db, feed, items, faults, i - 1) then 1 else 0
  }

  /** The loop gets to item `i`, `n` items having been imported before the first, and makes a post of it. */
  ghost predicate MakesWithin(db: Tables, feed: int, items: seq<Item>, faults: seq<Fault>, max: int, n: nat, i: nat)
    requires |faults| == |items|
  {
    i < |items| && Makes(db, feed, items, faults, i)
    && (max <= 0 || n + CountBefore(db, feed, items, faults, i) < max)
  }

  /**
   And that post gets no row of its own: it cannot be read back, its row is not written, or there is a row
   which the failed look-up did not find.
   */
  ghost predicate Orphans(db: Tables, feed: int, items: seq<Item>, faults: seq<Fault>, max: int, n: nat, i: nat)
    requires |faults| == |items|
  {
    MakesWithin(db, feed, items, faults, max, n, i)
    && (faults[i].creation == Unread || faults[i].row || Known(db, feed, items, faults, i))
  }

  lemma KnownFirst(db: Tables, feed: int, items: seq<Item>, faults: seq<Fault>)
    requires |faults| == |items| > 0
    ensures Known(db, feed, items, faults, 0) <==> (feed, GuidOf(items[0])) in db.ledger
  {
  }

  lemma KnownNext(db: Tables, feed: int, items: seq<Item>, faults: seq<Fault>, i: nat)
    requires |faults| == |items| && 0 < i < |items|
    ensures GuidOf(items[i]) != "" ==>
              (Known(db, feed, items, faults, i)
               <==> Known(Import(db, feed, items[0], faults[0]).0, feed, items[1..], faults[1..], i - 1))
  {
    var d, rest, more, i' := Import(db, feed, items[0], faults[0]).0, items[1..], faults[1..], i - 1;
    if j :| Records(items, faults, i, j) && j > 0 {
      assert Records(rest, more, i', j - 1);
    }
    if j :| Records(rest, more, i', j) {
      assert Records(items, faults, i, j + 1);
    }
    assert Records(items, faults, i, 0) <==> GuidOf(items[0]) == GuidOf(items[i])
                                             && faults[0].creation == Returned && !faults[0].row;
  }

  lemma MakesNext(db: Tables, feed: int, items: seq<Item>, faults: seq<Fault>, i: nat)
    requires |faults| == |items| && 0 < i < |items|
    ensures var d := Import(db, feed, items[0], faults[0]).0;
      && (Makes(db, feed, items, faults, i) <==> Makes(d, feed, items[1..], faults[1..], i - 1))
      && (Counts(db, feed, items, faults, i) <==> Counts(d, feed, items[1..], faults[1..], i - 1))
  {
    KnownNext(db, feed, items, faults, i);
  }

  lemma {:induction false} CountNext(db: Tables, feed: int, items: seq<Item>, faults: seq<Fault>, i: nat)
    requires |faults| == |items| && 0 < i <= |items|
    ensures var (d, imported) := Import(db, feed, items[0], faults[0]);
      && (imported <==> Counts(db, feed, items, faults, 0))
      && CountBefore(db, feed, items, faults, i)
         == (if imported then 1 else 0) + CountBefore(d, feed, items[1..], faults[1..], i - 1)
  {
    if i > 1 {
      CountNext(db, feed, items, faults, i - 1);
      MakesNext(db, feed, items, faults, i - 1);
    } else {
      KnownFirst(db, feed, items, faults);
    }
  }

  lemma WithinNext(db: Tables, feed: int, items: seq<Item>, faults: seq<Fault>, max: int, n: nat, i: nat)
    requires |faults| == |items| && 0 < i < |items|
    ensures var (d, imported) := Import(db, feed, items[0], faults[0]);
      var m := if imported then n + 1 else n;
      && (MakesWithin(db, feed, items, faults, max, n, i)
          <==> MakesWithin(d, feed, items[1..], faults[1..], max, m, i - 1))
      && (Orphans(db, feed, items, faults, max, n, i) <==> Orphans(d, feed, items[1..], faults[1..], max, m, i - 1))
  {
    KnownNext(db, feed, items, faults, i);
    MakesNext(db, feed, items, faults, i);
    CountNext(db, feed, items, faults, i);
  }

  lemma FirstOrphan(db: Tables, feed: int, items: seq<Item>, faults: seq<Fault>, max: int, n: nat)
    requires |faults| == |items| > 0 && (max > 0 ==> n < max)
    ensures Orphans(db, feed, items, faults, max, n, 0) <==> OrphansFirst(db, feed, items[0], faults[0])
  {
    KnownFirst(db, feed, items, faults);
  }

  /** The loop leaves a post without a row exactly when it gets to such an item. */
  lemma {:induction false} OrphanedIff(db: Tables, feed: int, items: seq<Item>, faults: seq<Fault>, max: int, n: nat)
    requires |faults| == |items| && (max > 0 ==> n < max)
    ensures Orphaned(db, feed, items, faults, max, n) <==> exists i: nat :: Orphans(db, feed, items, faults, max, n, i)
    decreases |items|
  {
    if items != [] {
      var (d, imported) := Import(db, feed, items[0], faults[0]);
      var m := if imported then n + 1 else n;
      var stop := imported && max > 0 && n + 1 >= max;
      FirstOrphan(db, feed, items, faults, max, n);
      forall i: nat | 0 < i < |items|
        ensures Orphans(db, feed, items, faults, max, n, i)
           <==> Orphans(d, feed, items[1..], faults[1..], max, m, i - 1)
        ensures stop ==> !Orphans(db, feed, items, faults, max, n, i)
      {
        WithinNext(db, feed, items, faults, max, n, i);
      }
      if !stop {
        OrphanedIff(d, feed, items[1..], faults[1..], max, m);
        if Orphaned(d, feed, items[1..], faults[1..], max, m) {
          var i: nat :| Orphans(d, feed, items[1..], faults[1..], max, m, i);
          assert Orphans(db, feed, items, faults, max, n, i + 1);
        }
      }
    }
  }

  // ---------- when posts and rows stay in step ----------

  lemma {:induction false} OrphanStays(db: Tables, feed: int, items: seq<Item>, faults: seq<Fault>, max: int, n: nat,
                                       i: nat)
    requires |faults| == |items| && i < |db.posts| && !Recorded(db, i)
    ensures var d := Poll(db, feed, items, faults, max, n); i < |d.posts| && !Recorded(d, i)
    decreases |items|
  {
    if items != [] {
      var (d, imported) := Import(db, feed, items[0], faults[0]);
      assert !Recorded(d, i);
      if !(imported && max > 0 && n + 1 >= max) {
        OrphanStays(d, feed, items[1..], faults[1..], max, if imported then n + 1 else n, i);
      }
    }
  }

  lemma ImportExact(db: Tables, feed: int, item: Item, fault: Fault)
    requires Exact(db)
    ensures var (d, imported) := Import(db, feed, item, fault);
            if OrphansFirst(db, feed, item, fault) then |db.posts| < |d.posts| && !Recorded(d, |db.posts|) else Exact(d)
  {
    var (d, imported) := Import(db, feed, item, fault);
    if imported && !OrphansFirst(db, feed, item, fault) {
      forall i: nat | i < |d.posts| ensures Recorded(d, i) {
        assert i < |db.posts| ==> Recorded(db, i);
      }
    }
  }

  lemma {:induction false} ExactUnlessOrphaned(db: Tables, feed: int, items: seq<Item>, faults: seq<Fault>, max: int,
                                               n: nat)
    requires |faults| == |items| && Exact(db)
    ensures Exact(Poll(db, feed, items, faults, max, n)) <==> !Orphaned(db, feed, items, faults, max, n)
    decreases |items|
  {
    if items != [] {
      ImportExact(db, feed, items[0], faults[0]);
      var (d, imported) := Import(db, feed, items[0], faults[0]);
      var stop := imported && max > 0 && n + 1 >= max;
      if OrphansFirst(db, feed, items[0], faults[0]) {
        if !stop {
          OrphanStays(d, feed, items[1..], faults[1..], max, if imported then n + 1 else n, |db.posts|);
        }
      } else if !stop {
        ExactUnlessOrphaned(d, feed, items[1..], faults[1..], max, if imported then n + 1 else n);
      }
    }
  }

  /** A poll keeps rows and posts in step exactly when it makes no post that gets no row of its own. */
  lemma PollExactIff(db: Tables, feed: int, items: seq<Item>, faults: seq<Fault>, max: int)
    requires |faults| == |items| && Exact(db)
    ensures Exact(Poll(db, feed, items, faults, max, 0))
       <==> forall i: nat :: !Orphans(db, feed, items, faults, max, 0, i)
  {
    ExactUnlessOrphaned(db, feed, items, faults, max, 0);
    OrphanedIff(db, feed, items, faults, max, 0);
  }

  // ---------- an item imported twice ----------

  lemma {:induction false} PostsStay(db: Tables, feed: int, items: seq<Item>, faults: seq<Fault>, max: int, n: nat)
    requires |faults| == |items|
    ensures db.posts <= Poll(db, feed, items, faults, max, n).posts
    decreases |items|
  {
    if items != [] {
      var (d, imported) := Import(db, feed, items[0], faults[0]);
      if !(imported && max > 0 && n + 1 >= max) {
        PostsStay(d, feed, items[1..], faults[1..], max, if imported then n + 1 else n);
      }
    }
  }

  /** Such an item has a post among the new ones. */
  lemma {:induction false} MadeIsPost(db: Tables, feed: int, items: seq<Item>, faults: seq<Fault>, max: int, n: nat,
                                      i: nat) returns (p: nat)
    requires |faults| == |items| && (max > 0 ==> n < max) && MakesWithin(db, feed, items, faults, max, n, i)
    ensures var d := Poll(db, feed, items, faults, max, n);
            |db.posts| <= p < |d.posts| && KeyOf(d.posts[p]) == (feed, GuidOf(items[i]))
    decreases |items|
  {
    var (d, imported) := Import(db, feed, items[0], faults[0]);
    var m := if imported then n + 1 else n;
    if i == 0 {
      KnownFirst(db, feed, items, faults);
      p := |db.posts|;
      if !(imported && max > 0 && n + 1 >= max) {
        PostsStay(d, feed, items[1..], faults[1..], max, m);
      }
    } else {
      WithinNext(db, feed, items, faults, max, n, i);
      p := MadeIsPost(d, feed, items[1..], faults[1..], max, m, i - 1);
    }
  }

  /** An item of which a poll makes a post, and the next poll again, has two posts. */
  lemma MadeTwice(db: Tables, feed: int, items: seq<Item>, faults: seq<Fault>, max: int, i: nat,
                  later: seq<Item>, faults': seq<Fault>, max': int, j: nat) returns (p: nat, q: nat)
    requires |faults| == |items| && |faults'| == |later|
    requires MakesWithin(db, feed, items, faults, max, 0, i)
    requires var d := Poll(db, feed, items, faults, max, 0);
             MakesWithin(d, feed, later, faults', max', 0, j) && GuidOf(later[j]) == GuidOf(items[i])
    ensures var e := Poll(Poll(db, feed, items, faults, max, 0), feed, later, faults', max', 0);
      && p < q < |e.posts| && KeyOf(e.posts[p]) == KeyOf(e.posts[q]) == (feed, GuidOf(items[i])) && !Exact(e)
  {
    var d := Poll(db, feed, items, faults, max, 0);
    p := MadeIsPost(db, feed, items, faults, max, 0, i);
    q := MadeIsPost(d, feed, later, faults', max', 0, j);
    PostsStay(d, feed, later, faults', max', 0);
    var e := Poll(d, feed, later, faults', max', 0);
    assert !(Recorded(e, p) && Recorded(e, q));
  }

  /** The feed's first item with its guid, and the loop gets to it before the limit is reached. */
  ghost predicate ComesWithin(db: Tables, feed: int, items: seq<Item>, max: int, j: nat) {
    && j < |items| && (forall k :: 0 <= k < j ==> GuidOf(items[k]) != GuidOf(items[j]))
    && (max <= 0 || CountBefore(db, feed, items, NoFaults(|items|), j) < max)
  }

  /**
   A post without a row is made again: if its item has no row after the poll, it has a second post after the
   next poll, without any fault, that comes to it within its limit.
   */
  lemma OrphanTwice(db: Tables, feed: int, items: seq<Item>, faults: seq<Fault>, max: int, i: nat,
                    later: seq<Item>, max': int, j: nat) returns (p: nat, q: nat)
    requires |faults| == |items| && Orphans(db, feed, items, faults, max, 0, i)
    requires var d := Poll(db, feed, items, faults, max, 0);
      && (feed, GuidOf(items[i])) !in d.ledger
      && ComesWithin(d, feed, later, max', j) && GuidOf(later[j]) == GuidOf(items[i])
    ensures var e := Poll(Poll(db, feed, items, faults, max, 0), feed, later, NoFaults(|later|), max', 0);
      && p < q < |e.posts| && KeyOf(e.posts[p]) == KeyOf(e.posts[q]) == (feed, GuidOf(items[i])) && !Exact(e)
  {
    p, q := MadeTwice(db, feed, items, faults, max, i, later, NoFaults(|later|), max', j);
  }

  lemma PollOne(db: Tables, feed: int, item: Item, fault: Fault, max: int)
    ensures Poll(db, feed, [item], [fault], max, 0) == Import(db, feed, item, fault).0
  {
    var (d, imported) := Import(db, feed, item, fault);
    assert [item][1..] == [] && [fault][1..] == [];
    assert Poll(d, feed, [], [], max, if imported then 1 else 0) == d;
  }

  /** A new item whose row is not written, or whose post cannot be read back, is imported again by the next poll. */
  lemma NoRowTwice(db: Tables, feed: int, item: Item, fault: Fault, max: int)
    requires GuidOf(item) != "" && (feed, GuidOf(item)) !in db.ledger
    requires fault == Fault(false, Returned, true) || fault == Fault(false, Unread, false)
    ensures var once := Poll(db, feed, [item], [fault], max, 0);
      var twice := Poll(once, feed, [item], [NO_FAULT], max, 0);
      && twice.posts == db.posts + [Post(feed, GuidOf(item), item.link), Post(feed, GuidOf(item), item.link)]
      && !Exact(once) && !Exact(twice)
  {
    var p := Post(feed, GuidOf(item), item.link);
    var once := Poll(db, feed, [item], [fault], max, 0);
    PollOne(db, feed, item, fault, max);
    PollOne(once, feed, item, NO_FAULT, max);
    assert once == Tables(db.posts + [p], db.ledger);
    var twice := Poll(once, feed, [item], [NO_FAULT], max, 0);
    assert twice.posts == db.posts + [p] + [p];
    Assoc(db.posts, [p], [p]);
    assert !Recorded(once, |db.posts|) && !Recorded(twice, |db.posts|);
  }

  /** An item with its row gets a second post when looking it up fails. */
  lemma LookupTwice(db: Tables, feed: int, item: Item, max: int)
    requires Exact(db) && GuidOf(item) != "" && (feed, GuidOf(item)) in db.ledger
    ensures var d := Poll(db, feed, [item], [Fault(true, Returned, false)], max, 0);
            d == Tables(db.posts + [Post(feed, GuidOf(item), item.link)], db.ledger) && !Exact(d)
  {
    PollOne(db, feed, item, Fault(true, Returned, false), max);
    var d := Poll(db, feed, [item], [Fault(true, Returned, false)], max, 0);
    assert !Recorded(d, |db.posts|);
  }

  /** No item has two posts, and there are as many rows as posts. */
  lemma ExactCounts(db: Tables)
    requires Exact(db)
    ensures |db.ledger| == |db.posts|
    ensures forall i: nat, j: nat ::
              i < |db.posts| && j < |db.posts| && KeyOf(db.posts[i]) == KeyOf(db.posts[j]) ==> i == j
  {
    forall i: nat, j: nat | i < |db.posts| && j < |db.posts| && KeyOf(db.posts[i]) == KeyOf(db.posts[j])
      ensures i == j
    {
      assert Recorded(db, i) && Recorded(db, j);
    }
    var keys := Keys(db.posts);
    KeysDistinct(db);
    DistinctCard(keys);
    forall k | k in keys ensures k in db.ledger {
      var i: nat :| i < |keys| && keys[i] == k;
      assert Recorded(db, i);
    }
    forall k | k in db.ledger ensures k in keys {
      assert keys[db.ledger[k]] == k;
    }
    assert (set k | k in keys) == db.ledger.Keys;
  }

  function Keys(posts: seq<Post>): (r: seq<Key>)
    ensures |r| == |posts| && forall i :: 0 <= i < |r| ==> r[i] == KeyOf(posts[i])
  {
    seq(|posts|, i requires 0 <= i < |posts| => KeyOf(posts[i]))
  }

  lemma KeysDistinct(db: Tables)
    requires forall i: nat :: i < |db.posts| ==> Recorded(db, i)
    ensures Distinct(Keys(db.posts))
  {
    var keys := Keys(db.posts);
    forall j | 0 <= j < |keys| ensures NewAt(keys, j) {
      forall i | 0 <= i < j ensures keys[i] != keys[j] {
        assert Recorded(db, i) && Recorded(db, j);
      }
    }
  }

  function NoFaults(n: nat): (r: seq<Fault>)
    ensures |r| == n && forall i :: 0 <= i < n ==> r[i] == NO_FAULT
  {
    seq(n, _ => NO_FAULT)
  }

  datatype PollEvent = PollEvent(feed: int, items: seq<Item>, faults: seq<Fault>, max: int) {
    predicate Valid() {
      |faults| == |items|
    }
  }

  ghost predicate AllValid(events: seq<PollEvent>) {
    forall k :: 0 <= k < |events| ==> events[k].Valid()
  }

  function Polled(events: seq<PollEvent>): Tables
    requires AllValid(events)
  {
    if events == [] then Tables([], map[])
    else
      var e := events[|events| - 1];
      Poll(Polled(events[..|events| - 1]), e.feed, e.items, e.faults, e.max, 0)
  }

  lemma {:induction false} RowsStaySound(db: Tables, feed: int, items: seq<Item>, faults: seq<Fault>, max: int, n: nat)
    requires |faults| == |items| && SoundRows(db)
    ensures SoundRows(Poll(db, feed, items, faults, max, n))
    decreases |items|
  {
    if items != [] {
      var (d, imported) := Import(db, feed, items[0], faults[0]);
      assert SoundRows(d);
      if !(imported && max > 0 && n + 1 >= max) {
        RowsStaySound(d, feed, items[1..], faults[1..], max, if imported then n + 1 else n);
      }
    }
  }

  /** Poll `k` makes a post that gets no row of its own. */
  ghost predicate OrphansIn(events: seq<PollEvent>, k: nat)
    requires AllValid(events) && k < |events|
  {
    var e := events[k];
    exists i: nat :: Orphans(Polled(events[..k]), e.feed, e.items, e.faults, e.max, 0, i)
  }

  lemma {:induction false} PolledSound(events: seq<PollEvent>)
    requires AllValid(events)
    ensures SoundRows(Polled(events))
  {
    if events != [] {
      var init, e := events[..|events| - 1], events[|events| - 1];
      PolledSound(init);
      RowsStaySound(Polled(init), e.feed, e.items, e.faults, e.max, 0);
    }
  }

  lemma NotExactStays(db: Tables, e: PollEvent)
    requires e.Valid() && SoundRows(db) && !Exact(db)
    ensures !Exact(Poll(db, e.feed, e.items, e.faults, e.max, 0))
  {
    var i: nat :| i < |db.posts| && !Recorded(db, i);
    OrphanStays(db, e.feed, e.items, e.faults, e.max, 0, i);
  }

  /** Over any polls of any feeds with any faults, posts and rows are in step exactly when no poll makes such a post. */
  lemma {:induction false} PollsExactIff(events: seq<PollEvent>)
    requires AllValid(events)
    ensures Exact(Polled(events)) <==> forall k: nat :: k < |events| ==> !OrphansIn(events, k)
  {
    if events != [] {
      var n := |events| - 1;
      var init, e := events[..n], events[n];
      PollsExactIff(init);
      forall k: nat | k < n ensures OrphansIn(events, k) <==> OrphansIn(init, k) {
        assert events[..k] == init[..k];
      }
      if Exact(Polled(init)) {
        PollExactIff(Polled(init), e.feed, e.items, e.faults, e.max);
        assert OrphansIn(events, n) <==> !Exact(Polled(events));
      } else {
        PolledSound(init);
        NotExactStays(Polled(init), e);
        var k: nat :| k < n && OrphansIn(init, k);
        assert OrphansIn(events, k);
      }
    }
  }

  /** So without database errors every item has at most one post, and posts match rows. */
  lemma PollsExact(events: seq<PollEvent>)
    requires AllValid(events) && forall k :: 0 <= k < |events| ==> events[k].faults == NoFaults(|events[k].items|)
    ensures Exact(Polled(events))
  {
    PollsExactIff(events);
  }

  // ---------- an unchanged feed ----------

  /** The usable guids of a feed, each once, in document order. */
  function Guids(items: seq<Item>): (r: seq<string>)
    ensures |r| <= |items|
  {
    if items == [] then []
    else
      var r, g := Guids(items[..|items| - 1]), GuidOf(items[|items| - 1]);
      if g == "" || g in r then r else r + [g]
  }

  lemma {:induction false} GuidsPrefix(items: seq<Item>, t: nat)
    requires t <= |items|
    ensures Guids(items[..t]) <= Guids(items)
  {
    if t < |items| {
      GuidsPrefix(items[..|items| - 1], t);
      assert items[..|items| - 1][..t] == items[..t];
    } else {
      assert items[..t] == items;
    }
  }

  lemma {:induction false} GuidsDistinct(items: seq<Item>)
    ensures Distinct(Guids(items))
  {
    if items != [] {
      var rest := Guids(items[..|items| - 1]);
      GuidsDistinct(items[..|items| - 1]);
      forall j | 0 <= j < |Guids(items)| ensures NewAt(Guids(items), j) {
        if j < |rest| {
          assert NewAt(rest, j);
        }
      }
    }
  }

  /** Of the guids in `all`, exactly the first `j` are in the ledger. */
  ghost predicate First(db: Tables, feed: int, all: seq<string>, j: nat) {
    j <= |all| && forall i :: 0 <= i < |all| ==> ((feed, all[i]) in db.ledger <==> i < j)
  }

  /** How many are imported after a poll that began with `j`. */
  function Cap(j: nat, max: int, d: nat): nat
    requires j <= d
  {
    if max <= 0 || j + max > d then d else j + max
  }

  /** The posts made for the given guids, in order. */
  ghost predicate Made(posts: seq<Post>, before: seq<Post>, feed: int, guids: seq<string>) {
    && |posts| == |before| + |guids| && before <= posts
    && forall i :: 0 <= i < |guids| ==> KeyOf(posts[|before| + i]) == (feed, guids[i])
  }

  /** From `db`, with the first `j` guids imported, to `d` with the first `last`. */
  ghost predicate Grown(d: Tables, db: Tables, feed: int, all: seq<string>, j: nat, last: nat) {
    j <= last && First(d, feed, all, last) && Made(d.posts, db.posts, feed, all[j..last])
  }

  lemma GrownNone(db: Tables, feed: int, all: seq<string>, j: nat)
    requires First(db, feed, all, j)
    ensures Grown(db, db, feed, all, j, j)
  {
  }

  lemma GrownOne(d: Tables, db: Tables, feed: int, all: seq<string>, j: nat, link: string)
    requires First(db, feed, all, j) && j < |all| && Distinct(all)
    requires d == Tables(db.posts + [Post(feed, all[j], link)], db.ledger[(feed, all[j]) := |db.posts|])
    ensures Grown(d, db, feed, all, j, j + 1)
  {
    AdvanceFirst(db, d, feed, all, j);
    assert all[j..j + 1] == [all[j]];
  }

  lemma GrownConcat(e: Tables, d: Tables, db: Tables, feed: int, all: seq<string>, i: nat, j: nat, last: nat)
    requires Grown(d, db, feed, all, i, j) && Grown(e, d, feed, all, j, last)
    ensures Grown(e, db, feed, all, i, last)
  {
    MadeConcat(e.posts, d.posts, db.posts, feed, all[i..j], all[j..last]);
    assert all[i..last] == all[i..j] + all[j..last];
  }

  lemma MadeConcat(posts: seq<Post>, mid: seq<Post>, before: seq<Post>, feed: int, a: seq<string>, b: seq<string>)
    requires Made(mid, before, feed, a) && Made(posts, mid, feed, b)
    ensures Made(posts, before, feed, a + b)
  {
    forall i | 0 <= i < |a + b| ensures KeyOf(posts[|before| + i]) == (feed, (a + b)[i]) {
      if i >= |a| {
        assert |before| + i == |mid| + (i - |a|);
      }
    }
  }

  /** The loop from item `t` on, without faults. */
  function PollFrom(db: Tables, feed: int, items: seq<Item>, max: int, t: nat, n: nat): Tables
    requires t <= |items|
  {
    Poll(db, feed, items[t..], NoFaults(|items| - t), max, n)
  }

  lemma PollNext(db: Tables, feed: int, items: seq<Item>, max: int, t: nat, n: nat)
    requires t < |items|
    ensures var (d, imported) := Import(db, feed, items[t], NO_FAULT);
      PollFrom(db, feed, items, max, t, n) ==
        if imported && max > 0 && n + 1 >= max then d
        else PollFrom(d, feed, items, max, t + 1, if imported then n + 1 else n)
  {
    assert items[t..][1..] == items[t + 1..];
    assert NoFaults(|items| - t)[1..] == NoFaults(|items| - (t + 1));
  }

  /** Before item `t` of a poll: `j` of the feed's guids are imported, `n` of them by this poll. */
  ghost predicate Before(db: Tables, feed: int, items: seq<Item>, max: int, t: nat, j: nat, n: nat) {
    && t <= |items| && First(db, feed, Guids(items), j) && |Guids(items[..t])| <= j
    && n <= j && (max > 0 ==> n < max) && (n > 0 ==> j == |Guids(items[..t])|)
  }

  lemma {:induction false} PollRest(db: Tables, feed: int, items: seq<Item>, max: int, t: nat, j: nat, n: nat)
    requires Before(db, feed, items, max, t, j, n)
    ensures Grown(PollFrom(db, feed, items, max, t, n), db, feed, Guids(items), j, Cap(j - n, max, |Guids(items)|))
    decreases |items| - t, 1
  {
    if t == |items| {
      assert items[..t] == items;
      GrownNone(db, feed, Guids(items), j);
    } else {
      var g := GuidOf(items[t]);
      if g == "" || (feed, g) in db.ledger {
        PollNext(db, feed, items, max, t, n);
        SkipKnown(db, feed, items, t, j);
        PollRest(db, feed, items, max, t + 1, j, n);
      } else {
        PollNew(db, feed, items, max, t, j, n);
      }
    }
  }

  /** An item that is not yet imported adds the next guid. */
  lemma ImportNew(db: Tables, feed: int, items: seq<Item>, max: int, t: nat, j: nat, n: nat)
    requires Before(db, feed, items, max, t, j, n) && t < |items|
    requires GuidOf(items[t]) != "" && (feed, GuidOf(items[t])) !in db.ledger
    ensures j < |Guids(items)|
    ensures var (d, imported) := Import(db, feed, items[t], NO_FAULT);
      imported && Grown(d, db, feed, Guids(items), j, j + 1)
      && (max <= 0 || n + 1 < max ==> Before(d, feed, items, max, t + 1, j + 1, n + 1))
  {
    NextNew(db, feed, items, t, j);
    GuidsDistinct(items);
    GrownOne(Import(db, feed, items[t], NO_FAULT).0, db, feed, Guids(items), j, items[t].link);
  }

  lemma PollNew(db: Tables, feed: int, items: seq<Item>, max: int, t: nat, j: nat, n: nat)
    requires Before(db, feed, items, max, t, j, n) && t < |items|
    requires GuidOf(items[t]) != "" && (feed, GuidOf(items[t])) !in db.ledger
    ensures Grown(PollFrom(db, feed, items, max, t, n), db, feed, Guids(items), j, Cap(j - n, max, |Guids(items)|))
    decreases |items| - t, 0
  {
    PollNext(db, feed, items, max, t, n);
    ImportNew(db, feed, items, max, t, j, n);
    var d := Import(db, feed, items[t], NO_FAULT).0;
    if max <= 0 || n + 1 < max {
      PollRest(d, feed, items, max, t + 1, j + 1, n + 1);
    }
    PollEnd(PollFrom(db, feed, items, max, t, n), d, db, feed, Guids(items), max, j, n);
  }

  /** After one more guid: either the limit is reached, or the rest of the loop adds up to it. */
  lemma PollEnd(e: Tables, d: Tables, db: Tables, feed: int, all: seq<string>, max: int, j: nat, n: nat)
    requires n <= j < |all| && (max > 0 ==> n < max) && Grown(d, db, feed, all, j, j + 1)
    requires if max > 0 && n + 1 >= max then e == d
             else Grown(e, d, feed, all, j + 1, Cap(j + 1 - (n + 1), max, |all|))
    ensures Grown(e, db, feed, all, j, Cap(j - n, max, |all|))
  {
    if max <= 0 || n + 1 < max {
      PollJoin(e, d, db, feed, all, j, Cap(j - n, max, |all|));
    }
  }

  lemma PollJoin(e: Tables, d: Tables, db: Tables, feed: int, all: seq<string>, j: nat, last: nat)
    requires Grown(d, db, feed, all, j, j + 1) && Grown(e, d, feed, all, j + 1, last)
    ensures Grown(e, db, feed, all, j, last)
  {
    GrownConcat(e, d, db, feed, all, j, j + 1, last);
  }

  lemma SkipKnown(db: Tables, feed: int, items: seq<Item>, t: nat, j: nat)
    requires t < |items| && First(db, feed, Guids(items), j) && |Guids(items[..t])| <= j
    requires GuidOf(items[t]) == "" || (feed, GuidOf(items[t])) in db.ledger
    ensures |Guids(items[..t + 1])| <= j
    ensures j == |Guids(items[..t])| ==> j == |Guids(items[..t + 1])|
  {
    var seen, g := Guids(items[..t]), GuidOf(items[t]);
    assert items[..t + 1][..t] == items[..t];
    GuidsPrefix(items, t + 1);
    if g != "" && g !in seen {
      assert Guids(items)[|seen|] == g;
    }
  }

  /** An item that is not yet imported is the next one of the feed's guids. */
  lemma NextNew(db: Tables, feed: int, items: seq<Item>, t: nat, j: nat)
    requires t < |items| && First(db, feed, Guids(items), j) && |Guids(items[..t])| <= j
    requires GuidOf(items[t]) != "" && (feed, GuidOf(items[t])) !in db.ledger
    ensures j == |Guids(items[..t])| && |Guids(items[..t + 1])| == j + 1
    ensures j < |Guids(items)| && Guids(items)[j] == GuidOf(items[t])
  {
    var seen, g := Guids(items[..t]), GuidOf(items[t]);
    assert items[..t + 1][..t] == items[..t];
    GuidsPrefix(items, t);
    GuidsPrefix(items, t + 1);
    forall i | 0 <= i < |seen| ensures seen[i] != g {
      assert Guids(items)[i] == seen[i];
    }
    assert Guids(items)[|seen|] == g;
  }

  lemma AdvanceFirst(db: Tables, d: Tables, feed: int, all: seq<string>, j: nat)
    requires First(db, feed, all, j) && j < |all| && Distinct(all)
    requires d.ledger.Keys == db.ledger.Keys + {(feed, all[j])}
    ensures First(d, feed, all, j + 1)
  {
    forall i | 0 <= i < |all| ensures (feed, all[i]) in d.ledger <==> i < j + 1 {
      if i != j {
        DistinctPair(all, i, j);
      }
    }
  }

  /** Polling a feed `k` times with no database errors. */
  function PollTimes(db: Tables, feed: int, items: seq<Item>, max: int, k: nat): Tables {
    if k == 0 then db
    else Poll(PollTimes(db, feed, items, max, k - 1), feed, items, NoFaults(|items|), max, 0)
  }

  function Imported(max: int, d: nat, k: nat): (r: nat)
    ensures r <= d && (max > 0 ==> r == if k * max < d then k * max else d)
    ensures max <= 0 ==> r == if k == 0 then 0 else d
  {
    if k == 0 then 0
    else
      var r := Imported(max, d, k - 1);
      assert max > 0 ==> k * max == (k - 1) * max + max;
      Cap(r, max, d)
  }

  /**
   After `k` polls of an unchanged feed, none of whose items were known before, exactly the first
   min(k * max, d) of its d different guids are imported, with their posts in document order;
   without a limit one poll imports all of them.
   */
  lemma {:induction false} UnchangedFeed(db: Tables, feed: int, items: seq<Item>, max: int, k: nat)
    requires First(db, feed, Guids(items), 0)
    ensures var d := PollTimes(db, feed, items, max, k);
            var j := Imported(max, |Guids(items)|, k);
            Grown(d, db, feed, Guids(items), 0, j)
  {
    if k > 0 {
      UnchangedFeed(db, feed, items, max, k - 1);
      var before := PollTimes(db, feed, items, max, k - 1);
      var i, j := Imported(max, |Guids(items)|, k - 1), Imported(max, |Guids(items)|, k);
      assert items[..0] == [] && items[0..] == items;
      PollRest(before, feed, items, max, 0, i, 0);
      GrownConcat(PollTimes(db, feed, items, max, k), before, db, feed, Guids(items), 0, i, j);
    } else {
      GrownNone(db, feed, Guids(items), 0);
    }
  }
}
