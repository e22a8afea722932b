/** The server's mutable objects: newsgroups, the store and a session (ops/pkgs/nntpd/nntpd.go). */
module NntpServer {
  import opened Common
  import opened Text
  import opened NntpFraming
  import opened NntpStore
  import opened NntpPosts
  import opened Spool
  import Cursor = NntpCursor

  class Group {
    const name: string
    var articles: map<int, Article>
    var low: int
    var high: nat

    constructor (name: string)
      ensures this.name == name && Contents() == EMPTY_GROUP
    {
      this.name, articles, low, high := name, map[], 0, 0;
    }

    ghost function Contents(): GroupState
      reads this
    {
      GroupState(articles, low, high)
    }

    /** Numbers a copy of the article and stores it. */
    method Add(a: Article) returns (copy: Article)
      modifies this
      ensures Contents() == Added(old(Contents()), a)
      ensures copy == Article(old(high) + 1, a.msgID, a.headers, a.body)
      ensures high == old(high) + 1 && articles == old(articles)[high := copy]
    {
      high := high + 1;
      if low == 0 {
        low := high;
      }
      copy := a.(number := high);
      articles := articles[high := copy];
    }
  }

  ghost function ContentsOf(groups: map<string, Group>): map<string, GroupState>
    reads groups.Values
  {
    map g | g in groups :: groups[g].Contents()
  }

  lemma PutContents(groups: map<string, Group>, name: string, g: Group)
    ensures ContentsOf(groups[name := g]) == ContentsOf(groups)[name := g.Contents()]
  {
  }

  /** A directory of the spool as loadSpool meets it: None where it, or one of its files, cannot be read. */
  datatype Entry = Entry(name: string, files: Option<seq<(string, Option<string>)>>)

  predicate Readable(entries: seq<Entry>) {
    forall k :: 0 <= k < |entries| ==> entries[k].files.Some?
  }

  /** Files that cannot be read are passed over. */
  function FilesRead(files: seq<(string, Option<string>)>): seq<(string, string)> {
    if files == [] then []
    else
      var last := files[|files| - 1];
      FilesRead(files[..|files| - 1]) + if last.1.Some? then [(last.0, last.1.value)] else []
  }

  function DirsRead(entries: seq<Entry>): (r: seq<Dir>)
    requires Readable(entries)
    ensures |r| == |entries|
  {
    seq(|entries|, k requires 0 <= k < |entries| => Dir(entries[k].name, FilesRead(entries[k].files.value)))
  }

  lemma LoadDirsNext(entries: seq<Entry>, i: nat)
    requires i < |entries| && Readable(entries[..i + 1])
    ensures Readable(entries[..i])
    ensures var files := FilesRead(entries[i].files.value);
      && LoadDirs(DirsRead(entries[..i + 1])) == LoadDirs(DirsRead(entries[..i]))[entries[i].name := LoadFiles(files)]
      && DirIDs(DirsRead(entries[..i + 1])) == FileIDs(DirIDs(DirsRead(entries[..i])), files)
  {
    assert forall k :: 0 <= k < i ==> entries[..i][k] == entries[..i + 1][k];
    var dirs := DirsRead(entries[..i + 1]);
    assert dirs[..i] == DirsRead(entries[..i]) && dirs[i].name == entries[i].name;
  }

  lemma FilesReadNext(files: seq<(string, Option<string>)>, i: nat, known: map<string, Article>)
    requires i < |files|
    ensures var (before, after) := (FilesRead(files[..i]), FilesRead(files[..i + 1]));
      match files[i].1
      case None => after == before
      case Some(data) =>
        && LoadFiles(after) == LoadFile(LoadFiles(before), files[i].0, data)
        && FileIDs(known, after) == FileID(FileIDs(known, before), files[i].0, data)
  {
    assert files[..i + 1][..i] == files[..i];
    var before := FilesRead(files[..i]);
    if files[i].1.Some? {
      var after := before + [(files[i].0, files[i].1.value)];
      assert after[..|after| - 1] == before;
    } else {
      assert before + [] == before;
    }
  }

  /** The numbers in each group, which is what a session's cursor moves over. */
  function Numbers(st: State): map<string, set<int>> {
    map g | g in st.groups :: st.groups[g].articles.Keys
  }

  class Store {
    var groups: map<string, Group>
    var byMsgID: map<string, Article>
    var disk: Disk

    /** Every group is filed under its own name, so different names are different objects. */
    ghost predicate Valid()
      reads this
    {
      forall g :: g in groups ==> groups[g].name == g
    }

    ghost function View(): State
      reads this, groups.Values
    {
      State(ContentsOf(groups), byMsgID, disk)
    }

    ghost function Listed(): map<string, set<int>>
      reads this, groups.Values
    {
      Numbers(View())
    }

    /** loadSpool's inner loop: one directory into a fresh group. */
    method LoadDir(g: Group, files: seq<(string, Option<string>)>)
      requires g.Contents() == EMPTY_GROUP
      modifies this`byMsgID, g
      ensures g.Contents() == LoadFiles(FilesRead(files))
      ensures byMsgID == FileIDs(old(byMsgID), FilesRead(files))
    {
      for i := 0 to |files|
        invariant g.Contents() == LoadFiles(FilesRead(files[..i]))
        invariant byMsgID == FileIDs(old(byMsgID), FilesRead(files[..i]))
      {
        FilesReadNext(files, i, old(byMsgID));
        var parsed := Atoi(files[i].0);
        if parsed.Some? && files[i].1.Some? {
          LoadArticle(g, parsed.value, files[i].1.value);
        }
      }
      assert files[..|files|] == files;
    }

    /** Its body, for a file that is an article. */
    method LoadArticle(g: Group, num: int, data: string)
      modifies this`byMsgID, g
      ensures g.Contents() == Loaded(old(g.Contents()), num, data)
      ensures byMsgID == LoadedID(old(byMsgID), num, data)
    {
      var a := ParseArticle(num, data);
      g.articles := g.articles[num := a];
      if a.msgID != "" {
        byMsgID := byMsgID[a.msgID := a];
      }
      if g.low == 0 || num < g.low {
        g.low := num;
      }
      if num > g.high {
        g.high := num;
      }
    }

    /** loadSpool: a directory that cannot be read ends it with an error. */
    method LoadSpool(entries: seq<Entry>) returns (ok: bool)
      requires Valid() && groups == map[] && byMsgID == map[]
      modifies this`groups, this`byMsgID
      ensures Valid() && (ok <==> Readable(entries))
      ensures ok ==> View() == State(LoadDirs(DirsRead(entries)), DirIDs(DirsRead(entries)), old(disk))
      ensures forall g :: g in groups ==> fresh(groups[g])
    {
      for i := 0 to |entries|
        invariant Valid() && Readable(entries[..i])
        invariant ContentsOf(groups) == LoadDirs(DirsRead(entries[..i]))
        invariant byMsgID == DirIDs(DirsRead(entries[..i]))
        invariant forall g :: g in groups ==> fresh(groups[g])
      {
        if entries[i].files.None? {
          return false;
        }
        assert Readable(entries[..i + 1]);
        LoadDirsNext(entries, i);
        ghost var before := ContentsOf(groups);
        var g := new Group(entries[i].name);
        LoadDir(g, entries[i].files.value);
        assert ContentsOf(groups) == before;
        PutContents(groups, entries[i].name, g);
        groups := groups[entries[i].name := g];
      }
      assert entries[..|entries|] == entries;
      ok := true;
    }

    /** writeArticle: a directory that cannot be made, or a file that cannot be written, is passed over. */
    method WriteArticle(gname: string, a: Article)
      requires a.number >= 0
      modifies this`disk
      ensures disk == Written(old(disk), gname, a.number, Render(a))
    {
      var dir := PathOf(disk.spool, gname);
      var (made, ok) := MkdirAll(disk, dir);
      disk := made;
      if !ok {
        return;
      }
      var text := RenderArticle(a);
      disk := WriteFile(disk, dir, Itoa(a.number), text);
    }

    /** seedWelcomeGroup. */
    method Seed(date: string)
      requires Valid() && groups == map[]
      modifies this
      ensures Valid() && groups.Keys == {"local.test"} && fresh(groups["local.test"])
      ensures var a := Welcome(date);
              View() == State(map["local.test" := GroupState(map[1 := a], 1, 1)], old(byMsgID)[a.msgID := a],
                            Written(old(disk), "local.test", 1, Render(a)))
    {
      FileFirst("local.test", Welcome(date));
    }

    /** Its second half: the group, with its one article. */
    method FileFirst(gname: string, a: Article)
      requires Valid() && groups == map[] && a.number == 1
      modifies this
      ensures Valid() && groups.Keys == {gname} && fresh(groups[gname])
      ensures View() == State(map[gname := GroupState(map[1 := a], 1, 1)], old(byMsgID)[a.msgID := a],
                            Written(old(disk), gname, 1, Render(a)))
    {
      var g := new Group(gname);
      g.articles, g.low, g.high := map[1 := a], 1, 1;
      groups := groups[gname := g];
      byMsgID := byMsgID[a.msgID := a];
      WriteArticle(gname, a);
      PutContents(map[], gname, g);
    }

    constructor (disk: Disk)
      ensures Valid() && groups == map[] && byMsgID == map[] && this.disk == disk
    {
      groups, byMsgID, this.disk := map[], map[], disk;
    }

    /** newStore on a spool in which ReadDir finds `entries`. */
    static method Open(entries: seq<Entry>, disk: Disk, date: string) returns (r: Option<Store>)
      ensures r.Some? <==> Readable(entries)
      ensures r.Some? ==> fresh(r.value) && r.value.Valid() && Numbered(r.value.View())
      ensures r.Some? ==> r.value.View() == Boot(DirsRead(entries), disk, date)
    {
      var s := new Store(disk);
      var ok := s.LoadSpool(entries);
      if !ok {
        return None;
      }
      assert s.groups == map[] <==> LoadDirs(DirsRead(entries)) == map[] by {
        assert s.View().groups.Keys == s.groups.Keys;
      }
      if |s.groups| == 0 {
        s.Seed(date);
      }
      BootNumbered(DirsRead(entries), disk, date);
      r := Some(s);
    }

    /** The first half of a turn of the loop in post: the group, a new one if need be, gets its copy. */
    method FileCopy(gname: string, a: Article) returns (copy: Article)
      requires Valid()
      modifies this`groups, groups.Values
      ensures Valid() && ContentsOf(groups) == old(ContentsOf(groups))[gname := Added(GroupOf(old(View()), gname), a)]
      ensures var g := Added(GroupOf(old(View()), gname), a); copy == g.articles[g.high]
      ensures forall g :: g in old(groups) ==> g in groups && groups[g] == old(groups[g])
      ensures forall g :: g in groups && g !in old(groups) ==> fresh(groups[g])
    {
      var g: Group;
      if gname in groups {
        g := groups[gname];
      } else {
        g := new Group(gname);
        groups := groups[gname := g];
      }
      forall h | h in groups && h != gname ensures groups[h] != g {
        assert groups[h].name == h;
      }
      copy := g.Add(a);
      assert ContentsOf(groups) == old(ContentsOf(groups))[gname := g.Contents()];
    }

    /** One turn of the loop in post: what is filed in memory goes to disk. */
    method DeliverOne(gname: string, a: Article)
      requires Valid()
      modifies this, groups.Values
      ensures Valid() && View() == Deliver(old(View()), gname, a)
      ensures forall g :: g in old(groups) ==> g in groups && groups[g] == old(groups[g])
      ensures forall g :: g in groups && g !in old(groups) ==> fresh(groups[g])
    {
      var copy := FileCopy(gname, a);
      WriteArticle(gname, copy);
      byMsgID := byMsgID[a.msgID := copy];
    }

    /** The loop of post over the names between the commas. */
    method DeliverNames(names: seq<string>, a: Article)
      requires Valid()
      modifies this, groups.Values
      ensures Valid() && View() == DeliverAll(old(View()), Trims(names), a)
      ensures forall g :: g in old(groups) ==> g in groups && groups[g] == old(groups[g])
    {
      ghost var goal := DeliverAll(View(), Trims(names), a);
      ghost var st := View();
      assert names[0..] == names;
      for i := 0 to |names|
        invariant Valid() && View() == st
        invariant DeliverAll(st, Trims(names[i..]), a) == goal
        invariant forall g :: g in old(groups) ==> g in groups && groups[g] == old(groups[g])
        invariant forall g :: g in groups && g !in old(groups) ==> fresh(groups[g])
      {
        var gname := TrimSpace(names[i]);
        DeliverTrimmed(st, names, i, a);
        if gname != "" {
          DeliverOne(gname, a);
          st := Deliver(st, gname, a);
        }
      }
      assert names[|names|..] == [] && goal == st;
    }

    /** post; false stands for its error. */
    method Post(a: Article, genID: string, date: string) returns (ok: bool)
      requires Valid()
      modifies this, groups.Values
      ensures Valid()
      ensures match Posted(old(View()), a, genID, date)
              case None => !ok && View() == old(View())
              case Some(st) => ok && View() == st
      ensures ok <==> Header(a.headers, "Newsgroups") != ""
      ensures ok ==> Filed(old(View()), View(), Targets(a.headers),
                           PostedID(a, genID), PostedHeaders(a, genID, date), a.body)
      ensures Numbered(old(View())) ==> Numbered(View())
      ensures forall g :: g in old(groups) ==> g in groups && groups[g] == old(groups[g])
    {
      PostFiled(View(), a, genID, date);
      var ngHeader := Header(a.headers, "Newsgroups");
      if ngHeader == "" {
        return false;
      }
      var b := a;
      if b.msgID == "" {
        b := b.(msgID := genID, headers := b.headers + ["Message-ID: " + genID]);
      }
      if Header(b.headers, "Date") == "" {
        b := b.(headers := b.headers + ["Date: " + date]);
      }
      ghost var st := View();
      DeliverNames(Split(ngHeader, ','), b);
      if Numbered(st) {
        DeliverAllNumbered(st, Trims(Split(ngHeader, ',')), b);
      }
      ok := true;
    }
  }

  datatype Reply =
    | Selected(count: nat, low: int, high: nat, name: string)
    | Found(number: int, msgID: string)
    | Refused(code: nat)

  class Session {
    const s: Store
    var curGroup: Group?
    var curArtNum: int

    constructor (s: Store)
      ensures this.s == s && curGroup == null && curArtNum == 0
    {
      this.s, curGroup, curArtNum := s, null, 0;
    }

    /** The cursor names an article of the selected group. */
    ghost predicate OnArticle()
      reads this, curGroup
    {
      curGroup != null && curArtNum in curGroup.articles
    }

    /** The selected group is one of the store's. */
    ghost predicate Attached()
      reads this, s, curGroup
    {
      curGroup != null ==> curGroup.name in s.groups && s.groups[curGroup.name] == curGroup
    }

    /** What the session sees: the state of the cursor machine. */
    ghost function Watched(): Cursor.View
      reads this, s, s.groups.Values, curGroup
    {
      Cursor.View(s.Listed(), if curGroup == null then None else Some(curGroup.name), curArtNum)
    }

    /** GROUP: on a group with articles the cursor goes to the first, on an empty one to 0. */
    method CmdGroup(args: seq<string>) returns (r: Reply)
      requires s.Valid() && Attached()
      modifies this
      ensures Attached()
      ensures Watched() == if |args| == 1 then Cursor.Do(old(Watched()), Cursor.Group(args[0])) else old(Watched())
      ensures r == (if |args| != 1 then Refused(501)
                    else if args[0] !in s.groups then Refused(411)
                    else var g := s.groups[args[0]]; Selected(|g.articles|, g.low, g.high, g.name))
      ensures r.Refused? ==> curGroup == old(curGroup) && curArtNum == old(curArtNum)
      ensures r.Selected? ==> curGroup == s.groups[args[0]]
      ensures r.Selected? && curGroup.articles != map[] ==>
                curArtNum in curGroup.articles && forall n :: n in curGroup.articles ==> curArtNum <= n
      ensures r.Selected? && curGroup.articles == map[] ==> curArtNum == 0
    {
      if |args| != 1 {
        return Refused(501);
      }
      if args[0] !in s.groups {
        return Refused(411);
      }
      var g := s.groups[args[0]];
      curGroup := g;
      if |g.articles| > 0 {
        var nums := Cursor.SortedNumbers(g.articles.Keys);
        FirstNumber(nums, g.articles.Keys);
        Cursor.SomeListIs(nums, g.articles.Keys);
        curArtNum := nums[0];
      } else {
        Cursor.FirstListed(g.articles.Keys);
        curArtNum := 0;
      }
      assert s.Listed() == old(s.Listed());
      r := Selected(|g.articles|, g.low, g.high, g.name);
    }

    /** LISTGROUP: like GROUP, but on an empty group the cursor stays what it was. */
    method CmdListGroup(args: seq<string>) returns (r: Reply, lines: seq<int>)
      requires s.Valid() && Attached()
      modifies this
      ensures Attached()
      ensures Watched() == Cursor.Do(old(Watched()), Cursor.ListGroup(if |args| == 1 then Some(args[0]) else None))
      ensures |args| == 1 && args[0] !in s.groups ==> r == Refused(411)
      ensures |args| != 1 && old(curGroup) == null ==> r == Refused(412)
      ensures r.Refused? ==> curGroup == old(curGroup) && curArtNum == old(curArtNum) && lines == []
      ensures !r.Refused? ==>
        && curGroup != null
        && (if |args| == 1 then args[0] in s.groups && curGroup == s.groups[args[0]] else curGroup == old(curGroup))
        && r == Selected(|curGroup.articles|, curGroup.low, curGroup.high, curGroup.name)
        && Cursor.Lists(lines, curGroup.articles.Keys)
        && curArtNum == if lines == [] then old(curArtNum) else lines[0]
    {
      ghost var before := Watched();
      lines := [];
      var g := curGroup;
      if |args| == 1 {
        if args[0] !in s.groups {
          return Refused(411), [];
        }
        g := s.groups[args[0]];
        curGroup := g;
      }
      if g == null {
        return Refused(412), [];
      }
      lines := Cursor.SortedNumbers(g.articles.Keys);
      Cursor.SomeListIs(lines, g.articles.Keys);
      if |lines| > 0 {
        curArtNum := lines[0];
      }
      assert s.Listed() == before.groups;
      r := Selected(|g.articles|, g.low, g.high, g.name);
    }

    /** The article that STAT, HEAD, BODY and ARTICLE are about; an error carries its reply code. */
    method ResolveArticle(arg: string) returns (r: Result<Article, nat>)
      requires Attached()
      modifies this`curArtNum
      ensures Attached()
      ensures Watched() == if "<" <= arg || Atoi(arg).None? then old(Watched())
                           else Cursor.Do(old(Watched()), Cursor.Number(Atoi(arg).value))
      ensures "<" <= arg ==>
        && curArtNum == old(curArtNum)
        && r == if arg in s.byMsgID then Ok(s.byMsgID[arg]) else Err(430)
      ensures !("<" <= arg) && curGroup == null ==> r == Err(412) && curArtNum == old(curArtNum)
      ensures !("<" <= arg) && curGroup != null ==>
        var num := if arg == "" then Some(old(curArtNum)) else Atoi(arg);
        match num
        case None => r == Err(501) && curArtNum == old(curArtNum)
        case Some(n) =>
          if n in curGroup.articles then r == Ok(curGroup.articles[n]) && curArtNum == n
          else r == Err(423) && curArtNum == old(curArtNum)
    {
      if "<" <= arg {
        if arg !in s.byMsgID {
          return Err(430);
        }
        return Ok(s.byMsgID[arg]);
      }
      if curGroup == null {
        return Err(412);
      }
      var num := curArtNum;
      if arg != "" {
        var n := Atoi(arg);
        if n.None? {
          return Err(501);
        }
        num := n.value;
      }
      if num !in curGroup.articles {
        return Err(423);
      }
      curArtNum := num;
      r := Ok(curGroup.articles[num]);
    }

    /** NEXT and LAST: one step along the numbers the group has by now. */
    method CmdNextLast(dir: int) returns (r: Reply)
      requires (dir == 1 || dir == -1) && Attached() && Numbered(s.View())
      modifies this`curArtNum
      ensures Attached()
      ensures Watched() == Cursor.Do(old(Watched()), if dir == 1 then Cursor.Forward else Cursor.Back)
      ensures curGroup == null ==> r == Refused(412) && curArtNum == old(curArtNum)
      ensures curGroup != null ==>
        match Cursor.Move(Cursor.SomeList(curGroup.articles.Keys), old(curArtNum), dir)
        case None => r == Refused(if dir > 0 then 421 else 422) && curArtNum == old(curArtNum)
        case Some(n) => curArtNum == n && OnArticle() && r == Found(n, curGroup.articles[n].msgID)
    {
      if curGroup == null {
        return Refused(412);
      }
      assert NumberedGroup(s.View().groups[curGroup.name]);
      var next := Neighbour(curGroup.articles.Keys, curArtNum, dir);
      if next.None? {
        return Refused(if dir > 0 then 421 else 422);
      }
      curArtNum := next.value;
      assert s.Listed() == old(s.Listed());
      var a := curGroup.articles[curArtNum];
      r := Found(a.number, a.msgID);
    }

    /** POST, once its block has been read: nobody's place moves, and the groups grow. */
    method CmdPost(lines: seq<string>, genID: string, date: string) returns (ok: bool)
      requires s.Valid() && Attached() && Numbered(s.View())
      modifies s, s.groups.Values
      ensures s.Valid() && Attached() && Numbered(s.View())
      ensures match Posted(old(s.View()), BlockArticle(lines), genID, date)
              case None => !ok && s.View() == old(s.View())
              case Some(st) => ok && s.View() == st
      ensures var a := BlockArticle(lines);
        && (ok <==> Header(a.headers, "Newsgroups") != "")
        && (ok ==> Filed(old(s.View()), s.View(), Targets(a.headers),
                         PostedID(a, genID), PostedHeaders(a, genID, date), a.body))
      ensures Watched() == old(Watched()).(groups := Numbers(s.View()))
    {
      var headers, body := SplitLines(lines);
      var a := Article(0, Header(headers, "Message-ID"), headers, body);
      ok := s.Post(a, genID, date);
    }
  }

  /** The search of cmdNextLast for the current number. */
  method FindNumber(nums: seq<int>, cur: int) returns (idx: int)
    ensures idx == Cursor.IndexOf(nums, cur)
  {
    idx := -1;
    for i := 0 to |nums|
      invariant idx == -1 && forall k :: 0 <= k < i ==> nums[k] != cur
    {
      if nums[i] == cur {
        idx := i;
        break;
      }
    }
    IndexIs(nums, cur, idx);
  }

  /** The listed number next to the current one, in the direction `dir`. */
  method Neighbour(keys: set<int>, cur: int, dir: int) returns (next: Option<int>)
    ensures next == Cursor.Move(Cursor.SomeList(keys), cur, dir)
    ensures next.Some? ==> next.value in keys
  {
    var nums := Cursor.SortedNumbers(keys);
    Cursor.SomeListIs(nums, keys);
    var idx := FindNumber(nums, cur);
    idx := idx + dir;
    if idx < 0 || idx >= |nums| {
      return None;
    }
    var n := nums[idx];
    assert n in nums;
    next := Some(n);
  }

  lemma FirstNumber(nums: seq<int>, keys: set<int>)
    requires Cursor.Lists(nums, keys) && keys != {}
    ensures nums != [] && nums[0] in keys && forall n :: n in keys ==> nums[0] <= n
  {
    var some := PickOne(keys);
    assert some in nums;
    var first := nums[0];
    assert first in nums;
    forall n | n in keys ensures first <= n {
      Cursor.FirstIsLeast(nums, n);
    }
  }

  lemma {:induction false} IndexIs(nums: seq<int>, cur: int, idx: int)
    requires -1 <= idx < |nums| && (idx >= 0 ==> nums[idx] == cur)
    requires forall k :: 0 <= k < (if idx == -1 then |nums| else idx) ==> nums[k] != cur
    ensures Cursor.IndexOf(nums, cur) == idx
  {
    if nums != [] && nums[0] != cur {
      IndexIs(nums[1..], cur, if idx == -1 then -1 else idx - 1);
    }
  }

  lemma DeliverTrimmed(st: State, names: seq<string>, i: nat, a: Article)
    requires i < |names|
    ensures var name := TrimSpace(names[i]);
            DeliverAll(st, Trims(names[i..]), a)
            == DeliverAll(if name == "" then st else Deliver(st, name, a), Trims(names[i + 1..]), a)
  {
    assert names[i..][0] == names[i] && names[i..][1..] == names[i + 1..];
    var name, rest := TrimSpace(names[i]), Trims(names[i + 1..]);
    assert [] + rest == rest && ([name] + rest)[1..] == rest;
  }

  // ---------- posts, as the cursor machine sees them ----------

  /** Someone posts: the numbers of a group grow, and the session stays where it is. */
  ghost predicate PostStep(v: Cursor.View, c: Cursor.Command, w: Cursor.View) {
    c.OtherPost? && Cursor.Do(v, c) == w && w == v.(groups := w.groups)
  }

  /** Delivering an article is one such step of the cursor machine, with a number above all others. */
  lemma DeliverSeen(st: State, gname: string, a: Article, v: Cursor.View)
    requires Numbered(st) && v.groups == Numbers(st)
    ensures var num := GroupOf(st, gname).high + 1;
      && PostStep(v, Cursor.OtherPost(gname, num), v.(groups := Numbers(Deliver(st, gname, a))))
      && forall n :: n in GroupOf(st, gname).articles.Keys ==> n < num
  {
    DeliverGrows(st, gname, a);
    NumbersAfter(st, gname, a, Numbers(st), Numbers(Deliver(st, gname, a)), GroupOf(st, gname).high + 1);
  }

  lemma NumbersAfter(st: State, gname: string, a: Article, before: map<string, set<int>>,
                     after: map<string, set<int>>, num: int)
    requires before == Numbers(st) && after == Numbers(Deliver(st, gname, a))
    requires Deliver(st, gname, a).groups[gname].articles.Keys == GroupOf(st, gname).articles.Keys + {num}
    ensures after == before[gname := (if gname in before then before[gname] else {}) + {num}]
  {
    assert GroupOf(st, gname).articles.Keys == if gname in before then before[gname] else {};
  }

  ghost predicate OnlyPosts(cs: seq<Cursor.Command>) {
    forall k :: 0 <= k < |cs| ==> cs[k].OtherPost?
  }

  /** The commands are posts, and lead to what the session sees of `st`. */
  ghost predicate Leads(v: Cursor.View, cs: seq<Cursor.Command>, st: State) {
    OnlyPosts(cs) && Cursor.Session(v, cs) == v.(groups := Numbers(st))
  }

  lemma LeadsFirst(v: Cursor.View, c: Cursor.Command, w: Cursor.View, more: seq<Cursor.Command>, st: State)
    requires PostStep(v, c, w) && Leads(w, more, st)
    ensures Leads(v, [c] + more, st)
  {
    Cursor.SessionConcat(v, [c], more);
    assert [c][..0] == [] && Cursor.Session(v, [c]) == w;
  }

  lemma FirstSeen(st: State, names: seq<string>, a: Article, v: Cursor.View)
    returns (st': State, c: Cursor.Command, w: Cursor.View)
    requires Numbered(st) && v.groups == Numbers(st) && names != []
    ensures Numbered(st') && DeliverAll(st, names, a) == DeliverAll(st', names[1..], a)
    ensures PostStep(v, c, w) && w.groups == Numbers(st')
  {
    st' := Deliver(st, names[0], a);
    c, w := Cursor.OtherPost(names[0], GroupOf(st, names[0]).high + 1), v.(groups := Numbers(st'));
    DeliverNumbered(st, names[0], a);
    DeliverSeen(st, names[0], a, v);
  }

  /** So a whole post is a run of such steps, and the laws of sessions under interleaved posts apply to it. */
  lemma {:induction false} PostSeen(st: State, names: seq<string>, a: Article, v: Cursor.View)
    returns (cs: seq<Cursor.Command>)
    requires Numbered(st) && v.groups == Numbers(st)
    ensures Leads(v, cs, DeliverAll(st, names, a))
    decreases names
  {
    if names == [] {
      cs := [];
      assert v == v.(groups := Numbers(st));
    } else {
      var st', c, w := FirstSeen(st, names, a, v);
      var more := PostSeen(st', names[1..], a, w);
      LeadsFirst(v, c, w, more, DeliverAll(st', names[1..], a));
      cs := [c] + more;
    }
  }

  lemma {:induction false} PostGrows(st: State, names: seq<string>, a: Article, g: string)
    requires Numbered(st) && g in st.groups
    ensures var st' := DeliverAll(st, names, a);
            Numbered(st') && g in st'.groups && Cursor.Grown(st.groups[g].articles.Keys, st'.groups[g].articles.Keys)
    decreases names
  {
    if names != [] {
      var st' := Deliver(st, names[0], a);
      DeliverGrows(st, names[0], a);
      DeliverNumbered(st, names[0], a);
      PostGrows(st', names[1..], a, g);
      Cursor.GrownTwice(st.groups[g].articles.Keys, st'.groups[g].articles.Keys,
                 DeliverAll(st, names, a).groups[g].articles.Keys);
    }
  }

  /** LAST right after a successful NEXT goes back, whatever article is posted to whatever groups in between. */
  lemma LastAfterPost(st: State, names: seq<string>, a: Article, g: string, cur: int)
    requires Numbered(st) && g in st.groups && cur in st.groups[g].articles.Keys
    requires Cursor.Move(Cursor.SomeList(st.groups[g].articles.Keys), cur, 1).Some?
    ensures var next := Cursor.Move(Cursor.SomeList(st.groups[g].articles.Keys), cur, 1).value;
            var st' := DeliverAll(st, names, a);
            && g in st'.groups
            && Cursor.Move(Cursor.SomeList(st'.groups[g].articles.Keys), next, -1) == Some(cur)
  {
    var st' := DeliverAll(st, names, a);
    PostGrows(st, names, a, g);
    Cursor.LastAfterGrowth(st.groups[g].articles.Keys, st'.groups[g].articles.Keys, cur);
  }

  /** A group that was empty counts its articles from 1: its numbers are those up to `high`, whatever is posted. */
  lemma {:induction false} DenseStays(st: State, names: seq<string>, a: Article, g: string)
    requires g in st.groups && st.groups[g].articles.Keys == Cursor.UpTo(st.groups[g].high)
    ensures var st' := DeliverAll(st, names, a);
            g in st'.groups && st'.groups[g].articles.Keys == Cursor.UpTo(st'.groups[g].high)
    decreases names
  {
    if names != [] {
      DenseStays(Deliver(st, names[0], a), names[1..], a, g);
    }
  }
}
