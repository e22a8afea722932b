/**
 The news server over whole runs of posts and restarts (ops/pkgs/nntpd/nntpd.go): what a restart keeps, and
 what it forgets.
 */
module NntpRestarts {
  import opened Common
  import opened Text
  import opened NntpFraming
  import opened NntpStore
  import opened Spool

  datatype Event = Post(a: Article, genID: string, date: string) | Restart(dirs: seq<Dir>, date: string)

  /** A post that cmdPost can pass on, or a restart that lists what is on disk. */
  ghost predicate Possible(st: State, e: Event) {
    match e
    case Post(a, genID, date) => FromBlock(a) && ServerValues(genID, date)
    case Restart(dirs, _) => ListsDisk(dirs, st.disk)
  }

  function After(st: State, e: Event): State {
    match e
    case Post(a, genID, date) =>
      (match Posted(st, a, genID, date)
       case None => st
       case Some(st') => st')
    case Restart(dirs, date) => Boot(dirs, st.disk, date)
  }

  function Run(st: State, events: seq<Event>): State {
    if events == [] then st else After(Run(st, events[..|events| - 1]), events[|events| - 1])
  }

  ghost predicate PossibleRun(st: State, events: seq<Event>) {
    events == [] ||
    (PossibleRun(st, events[..|events| - 1]) && Possible(Run(st, events[..|events| - 1]), events[|events| - 1]))
  }

  function PostsOnly(events: seq<Event>): seq<Event> {
    if events == [] then []
    else PostsOnly(events[..|events| - 1]) + if events[|events| - 1].Post? then [events[|events| - 1]] else []
  }

  /** Same groups, same files, same known ids; only the article behind a cross-posted id may differ. */
  ghost predicate Same(s: State, t: State) {
    s.groups == t.groups && s.disk == t.disk && s.known.Keys == t.known.Keys
  }

  lemma NoTargets(headers: seq<string>)
    requires Header(headers, "Newsgroups") == ""
    ensures Targets(headers) == []
  {
    assert Split("", ',') == [""];
    assert TrimSpace("") == "";
    assert [""][1..] == [];
  }

  lemma AfterPost(st: State, e: Event)
    requires e.Post?
    ensures After(st, e) == DeliverAll(st, Targets(e.a.headers), Completed(e.a, e.genID, e.date))
  {
    if Header(e.a.headers, "Newsgroups") == "" {
      NoTargets(e.a.headers);
    }
  }

  /** A post to a group whose name cannot be that of a directory of the spool. */
  ghost predicate Strays(e: Event) {
    e.Post? && !AllNames(Targets(e.a.headers))
  }

  lemma {:induction false} DeliverAllKeeps(st: State, names: seq<string>, a: Article)
    ensures st.groups.Keys <= DeliverAll(st, names, a).groups.Keys
    decreases names
  {
    if names != [] {
      DeliverAllKeeps(Deliver(st, names[0], a), names[1..], a);
    }
  }

  lemma {:induction false} DeliverAllHas(st: State, names: seq<string>, a: Article, k: nat)
    requires k < |names|
    ensures names[k] in DeliverAll(st, names, a).groups
    decreases names
  {
    if k == 0 {
      DeliverAllKeeps(Deliver(st, names[0], a), names[1..], a);
    } else {
      DeliverAllHas(Deliver(st, names[0], a), names[1..], a, k - 1);
    }
  }

  lemma {:induction false} DeliverAllNamed(st: State, names: seq<string>, a: Article)
    requires WellNamed(st.disk)
    ensures WellNamed(DeliverAll(st, names, a).disk)
    decreases names
  {
    if names != [] {
      var g := Added(GroupOf(st, names[0]), a);
      WrittenNamed(st.disk, names[0], g.high, Render(g.articles[g.high]));
      DeliverAllNamed(Deliver(st, names[0], a), names[1..], a);
    }
  }

  lemma AfterRestart(st: State, dirs: seq<Dir>, date: string)
    requires Mirror(st) && st.groups != map[] && ListsDisk(dirs, st.disk)
    ensures var st' := After(st, Restart(dirs, date));
      st'.groups == RereadGroups(st.groups) && st'.disk == st.disk && st'.groups != map[] && KnownIDs(st')
  {
    var g :| g in st.groups;
    assert g in RereadGroups(st.groups);
    Reload(st, dirs);
  }

  lemma RereadMirrored(g: GroupState, dir: map<string, string>)
    requires GroupMirrored(g, dir)
    ensures GroupMirrored(RereadGroup(g), dir)
  {
    var r := RereadGroup(g);
    RereadBounds(g);
    forall n | n in r.articles ensures FileOf(r, dir, n) {
      assert FileOf(g, dir, n);
    }
    forall name | name in dir ensures IsArticleFile(r, name) {
      assert IsArticleFile(g, name);
    }
  }

  lemma RestartMirror(st: State, dirs: seq<Dir>, date: string)
    requires Mirror(st) && st.groups != map[] && ListsDisk(dirs, st.disk)
    ensures Mirror(After(st, Restart(dirs, date)))
  {
    AfterRestart(st, dirs, date);
    forall g | g in st.groups ensures GroupMirrored(RereadGroup(st.groups[g]), FilesIn(st.disk, g)) {
      RereadMirrored(st.groups[g], FilesIn(st.disk, g));
    }
  }

  lemma PostMirror(st: State, e: Event)
    requires Mirror(st) && Possible(st, e) && e.Post? && !Strays(e)
    ensures Mirror(After(st, e))
  {
    CompletedStorable(e.a, e.genID, e.date);
    AfterPost(st, e);
    DeliverAllMirror(st, Targets(e.a.headers), Completed(e.a, e.genID, e.date));
  }

  /** After such a post a group is in memory that has no directory of its own. */
  lemma StrayUnmirrored(st: State, e: Event)
    requires WellNamed(st.disk) && Strays(e)
    ensures !Mirror(After(st, e))
  {
    var names, c := Targets(e.a.headers), Completed(e.a, e.genID, e.date);
    var k :| 0 <= k < |names| && !IsName(names[k]);
    AfterPost(st, e);
    DeliverAllHas(st, names, c, k);
    DeliverAllNamed(st, names, c);
    if HasDir(After(st, e).disk, names[k]) {
      OnlyNamesListed(After(st, e).disk, names[k]);
    }
  }

  /** After a restart, and after a post to groups that can be directories, the spool mirrors memory again. */
  lemma AfterMirror(st: State, e: Event)
    requires Mirror(st) && st.groups != map[] && Possible(st, e)
    ensures Mirror(After(st, e)) <==> !Strays(e)
    ensures After(st, e).groups != map[]
  {
    match e
    case Post(a, genID, date) =>
      AfterPost(st, e);
      DeliverAllKeeps(st, Targets(a.headers), Completed(a, genID, date));
      if Strays(e) {
        StrayUnmirrored(st, e);
      } else {
        PostMirror(st, e);
      }
    case Restart(dirs, date) =>
      AfterRestart(st, dirs, date);
      RestartMirror(st, dirs, date);
  }

  // ---------- what a restart forgets ----------

  /** Every article in memory has the id its headers carry. */
  ghost predicate FaithfulGroup(g: GroupState) {
    forall n :: n in g.articles ==> WrittenID(g.articles[n]) == g.articles[n].msgID
  }

  ghost predicate Faithful(st: State) {
    forall g :: g in st.groups ==> FaithfulGroup(st.groups[g])
  }

  lemma RereadSame(g: GroupState)
    ensures RereadGroup(g) == g <==> FaithfulGroup(g)
    ensures FaithfulGroup(RereadGroup(g))
  {
    if FaithfulGroup(g) {
      SameArticles(RereadGroup(g).articles, g.articles);
    } else {
      var n :| n in g.articles && WrittenID(g.articles[n]) != g.articles[n].msgID;
      assert RereadGroup(g).articles[n].msgID != g.articles[n].msgID;
    }
  }

  lemma RereadAllSame(st: State)
    ensures RereadGroups(st.groups) == st.groups <==> Faithful(st)
  {
    forall g | g in st.groups ensures RereadGroup(st.groups[g]) == st.groups[g] <==> FaithfulGroup(st.groups[g]) {
      RereadSame(st.groups[g]);
    }
    if !Faithful(st) {
      var g :| g in st.groups && !FaithfulGroup(st.groups[g]);
      assert RereadGroups(st.groups)[g] != st.groups[g];
    }
  }

  /** A restart changes nothing exactly when every article in memory has the id its headers carry. */
  lemma RestartKeepsIff(st: State, dirs: seq<Dir>, date: string)
    requires Mirror(st) && st.groups != map[] && ListsDisk(dirs, st.disk)
    ensures Same(After(st, Restart(dirs, date)), st) <==> Faithful(st)
  {
    AfterRestart(st, dirs, date);
    RereadAllSame(st);
    if Faithful(st) {
      SameKnown(After(st, Restart(dirs, date)), st);
    }
  }

  /** Equal but for the id, and where that differs the first has the one its headers carry. */
  ghost predicate AlikeArticle(a: Article, b: Article) {
    a.(msgID := "") == b.(msgID := "") && (a.msgID == b.msgID || a.msgID == WrittenID(a))
  }

  ghost predicate AlikeGroup(p: GroupState, q: GroupState) {
    && p.low == q.low && p.high == q.high && p.articles.Keys == q.articles.Keys
    && forall n :: n in p.articles ==> AlikeArticle(p.articles[n], q.articles[n])
  }

  ghost predicate Alike(s: State, t: State) {
    && s.disk == t.disk && s.groups.Keys == t.groups.Keys
    && forall g :: g in s.groups ==> AlikeGroup(s.groups[g], t.groups[g])
  }

  /** Some article has one id here and another there. */
  ghost predicate GroupApart(p: GroupState, q: GroupState) {
    exists n :: n in p.articles && n in q.articles && p.articles[n].msgID != q.articles[n].msgID
  }

  ghost predicate Apart(s: State, t: State) {
    exists g :: g in s.groups && g in t.groups && GroupApart(s.groups[g], t.groups[g])
  }

  lemma AddedAlike(p: GroupState, q: GroupState, a: Article)
    requires AlikeGroup(p, q) && p.high + 1 !in p.articles
    ensures AlikeGroup(Added(p, a), Added(q, a))
    ensures GroupApart(Added(p, a), Added(q, a)) <==> GroupApart(p, q)
  {
    var p', q' := Added(p, a), Added(q, a);
    assert p'.articles.Keys == q'.articles.Keys;
    if n :| n in p.articles && n in q.articles && p.articles[n].msgID != q.articles[n].msgID {
      assert n in p'.articles && n in q'.articles && p'.articles[n].msgID != q'.articles[n].msgID;
    }
  }

  lemma DeliverAlike(s: State, t: State, gname: string, a: Article)
    requires Alike(s, t) && Numbered(s)
    ensures Alike(Deliver(s, gname, a), Deliver(t, gname, a))
    ensures Apart(Deliver(s, gname, a), Deliver(t, gname, a)) <==> Apart(s, t)
  {
    FreshNumber(s, gname);
    AddedAlike(GroupOf(s, gname), GroupOf(t, gname), a);
    assert gname in s.groups <==> gname in t.groups;
    OneGroupAlike(s, t, Deliver(s, gname, a), Deliver(t, gname, a), gname);
  }

  /** Changing one group in both keeps them apart, or not, as they were. */
  lemma OneGroupAlike(s: State, t: State, s': State, t': State, gname: string)
    requires Alike(s, t) && s'.disk == t'.disk && gname in s'.groups && gname in t'.groups
    requires s'.groups == s.groups[gname := s'.groups[gname]] && t'.groups == t.groups[gname := t'.groups[gname]]
    requires AlikeGroup(s'.groups[gname], t'.groups[gname])
    requires GroupApart(s'.groups[gname], t'.groups[gname]) <==>
             GroupApart(GroupOf(s, gname), GroupOf(t, gname))
    ensures Alike(s', t') && (Apart(s', t') <==> Apart(s, t))
  {
    assert s'.groups.Keys == s.groups.Keys + {gname} && t'.groups.Keys == t.groups.Keys + {gname};
    if Apart(s, t) {
      var g :| g in s.groups && g in t.groups && GroupApart(s.groups[g], t.groups[g]);
      assert g in s'.groups && g in t'.groups && GroupApart(s'.groups[g], t'.groups[g]);
    }
  }

  lemma {:induction false} DeliverAllAlike(s: State, t: State, names: seq<string>, a: Article)
    requires Alike(s, t) && Numbered(s)
    ensures Alike(DeliverAll(s, names, a), DeliverAll(t, names, a))
    ensures Apart(DeliverAll(s, names, a), DeliverAll(t, names, a)) <==> Apart(s, t)
    decreases names
  {
    if names != [] {
      DeliverAlike(s, t, names[0], a);
      DeliverNumbered(s, names[0], a);
      DeliverAllAlike(Deliver(s, names[0], a), Deliver(t, names[0], a), names[1..], a);
    }
  }

  lemma DeliverFaithful(st: State, gname: string, a: Article)
    requires Numbered(st)
    ensures Faithful(Deliver(st, gname, a)) <==> Faithful(st) && WrittenID(a) == a.msgID
  {
    FreshNumber(st, gname);
    AddedFaithful(GroupOf(st, gname), a);
    OneGroupFaithful(st, Deliver(st, gname, a), gname, WrittenID(a) == a.msgID);
  }

  lemma AddedFaithful(g: GroupState, a: Article)
    requires g.high + 1 !in g.articles
    ensures FaithfulGroup(Added(g, a)) <==> FaithfulGroup(g) && WrittenID(a) == a.msgID
  {
    var g' := Added(g, a);
    assert g'.high in g'.articles && WrittenID(g'.articles[g'.high]) == WrittenID(a);
    assert forall n :: n in g.articles ==> n in g'.articles && g'.articles[n] == g.articles[n];
  }

  lemma OneGroupFaithful(st: State, st': State, gname: string, faithful: bool)
    requires gname in st'.groups && st'.groups == st.groups[gname := st'.groups[gname]]
    requires FaithfulGroup(st'.groups[gname]) <==> FaithfulGroup(GroupOf(st, gname)) && faithful
    ensures Faithful(st') <==> Faithful(st) && faithful
  {
    assert forall h :: h in st.groups && h != gname ==> h in st'.groups && st'.groups[h] == st.groups[h];
  }

  lemma {:induction false} DeliverAllFaithful(st: State, names: seq<string>, a: Article)
    requires Numbered(st)
    ensures Faithful(DeliverAll(st, names, a)) <==> Faithful(st) && (names == [] || WrittenID(a) == a.msgID)
    decreases names
  {
    if names != [] {
      DeliverFaithful(st, names[0], a);
      DeliverNumbered(st, names[0], a);
      DeliverAllFaithful(Deliver(st, names[0], a), names[1..], a);
    }
  }

  /** A post that files an article under an id which its own, empty Message-ID line keeps out of its headers. */
  ghost predicate Hides(e: Event) {
    e.Post? && Targets(e.a.headers) != [] && e.a.msgID == "" && HasField(e.a.headers, "Message-ID")
  }

  lemma PostFaithful(st: State, e: Event)
    requires Numbered(st) && Possible(st, e) && e.Post?
    ensures Faithful(After(st, e)) <==> Faithful(st) && !Hides(e)
  {
    var names, c := Targets(e.a.headers), Completed(e.a, e.genID, e.date);
    DeliverAllFaithful(st, names, c);
    AfterPost(st, e);
    assert Hides(e) <==> names != [] && WrittenID(c) != c.msgID by {
      CompletedIDIff(e.a, e.genID, e.date);
    }
  }

  lemma PostAlike(s: State, t: State, e: Event)
    requires Alike(s, t) && Numbered(s) && e.Post?
    ensures Alike(After(s, e), After(t, e))
    ensures Apart(After(s, e), After(t, e)) <==> Apart(s, t)
  {
    AfterPost(s, e);
    AfterPost(t, e);
    DeliverAllAlike(s, t, Targets(e.a.headers), Completed(e.a, e.genID, e.date));
  }

  lemma RereadAlike(p: GroupState, q: GroupState)
    requires AlikeGroup(p, q)
    ensures AlikeGroup(RereadGroup(p), q)
    ensures GroupApart(RereadGroup(p), q) <==> GroupApart(p, q) || !FaithfulGroup(p)
  {
    var r := RereadGroup(p);
    assert r.articles.Keys == p.articles.Keys;
    if GroupApart(p, q) {
      var n :| n in p.articles && n in q.articles && p.articles[n].msgID != q.articles[n].msgID;
      assert AlikeArticle(p.articles[n], q.articles[n]) && n in r.articles;
      assert r.articles[n].msgID != q.articles[n].msgID;
    } else if !FaithfulGroup(p) {
      var n :| n in p.articles && WrittenID(p.articles[n]) != p.articles[n].msgID;
      assert AlikeArticle(p.articles[n], q.articles[n]) && n in r.articles && n in q.articles;
      assert r.articles[n].msgID != q.articles[n].msgID;
    }
  }

  lemma RereadAllAlike(s: State, s': State, t: State)
    requires Alike(s, t) && s'.groups == RereadGroups(s.groups) && s'.disk == s.disk
    ensures Alike(s', t) && Faithful(s')
    ensures Apart(s', t) <==> Apart(s, t) || !Faithful(s)
  {
    forall g | g in s.groups
      ensures AlikeGroup(s'.groups[g], t.groups[g]) && FaithfulGroup(s'.groups[g])
      ensures GroupApart(s'.groups[g], t.groups[g]) <==>
              GroupApart(s.groups[g], t.groups[g]) || !FaithfulGroup(s.groups[g])
    {
      RereadAlike(s.groups[g], t.groups[g]);
      RereadSame(s.groups[g]);
    }
    assert s'.groups.Keys == s.groups.Keys;
  }

  lemma RestartAlike(s: State, t: State, e: Event)
    requires Alike(s, t) && Mirror(s) && s.groups != map[] && Possible(s, e) && e.Restart?
    ensures Alike(After(s, e), t) && Faithful(After(s, e))
    ensures Apart(After(s, e), t) <==> Apart(s, t) || !Faithful(s)
  {
    AfterRestart(s, e.dirs, e.date);
    RereadAllAlike(s, After(s, e), t);
  }

  lemma SameIff(s: State, t: State)
    requires Alike(s, t) && KnownIDs(s) && KnownIDs(t)
    ensures Same(s, t) <==> !Apart(s, t)
  {
    if !Apart(s, t) {
      SameGroups(s, t);
      SameKnown(s, t);
    }
  }

  lemma SameGroups(s: State, t: State)
    requires Alike(s, t) && !Apart(s, t)
    ensures s.groups == t.groups
  {
    forall g | g in s.groups ensures s.groups[g] == t.groups[g] {
      SameGroup(s.groups[g], t.groups[g]);
    }
  }

  lemma SameGroup(p: GroupState, q: GroupState)
    requires AlikeGroup(p, q) && !GroupApart(p, q)
    ensures p == q
  {
    forall n | n in p.articles ensures n in q.articles && p.articles[n] == q.articles[n] {
      assert AlikeArticle(p.articles[n], q.articles[n]);
    }
    SameArticles(p.articles, q.articles);
  }

  lemma SameKnown(s: State, t: State)
    requires KnownIDs(s) && KnownIDs(t) && s.groups == t.groups
    ensures s.known.Keys == t.known.Keys
  {
    assert forall id :: id in s.known <==> id in t.known;
  }

  ghost predicate AnyHides(events: seq<Event>) {
    exists e :: e in events && Hides(e)
  }

  /** Some restart comes when an id is missing from the headers: since before the run, or since such a post. */
  ghost predicate LosesIDs(st: State, events: seq<Event>) {
    exists j :: 0 <= j < |events| && LosesAt(st, events, j)
  }

  lemma HidesStep(init: seq<Event>, e: Event)
    ensures AnyHides(init + [e]) <==> AnyHides(init) || Hides(e)
  {
    assert forall f :: f in init + [e] <==> f in init || f == e;
  }

  /** Restart `j` of the run comes when an id is missing from the headers. */
  ghost predicate LosesAt(st: State, events: seq<Event>, j: int)
    requires 0 <= j < |events|
  {
    events[j].Restart? && (!Faithful(st) || AnyHides(events[..j]))
  }

  lemma LosesStep(st: State, init: seq<Event>, e: Event)
    ensures LosesIDs(st, init + [e]) <==> LosesIDs(st, init) || (e.Restart? && (!Faithful(st) || AnyHides(init)))
  {
    var events := init + [e];
    assert events[..|init|] == init && events[|init|] == e;
    forall j | 0 <= j < |init| ensures LosesAt(st, events, j) <==> LosesAt(st, init, j) {
      assert events[..j] == init[..j];
    }
    if j :| 0 <= j < |init| && LosesAt(st, init, j) {
      assert LosesAt(st, events, j);
    }
    assert LosesAt(st, events, |init|) <==> e.Restart? && (!Faithful(st) || AnyHides(init));
  }

  lemma InitLast(events: seq<Event>)
    requires events != []
    ensures events == events[..|events| - 1] + [events[|events| - 1]]
  {
  }

  ghost predicate AnyStrays(events: seq<Event>) {
    exists e :: e in events && Strays(e)
  }

  /** Restart `j` of the run comes after a post to a group without a directory. */
  ghost predicate LosesGroupAt(events: seq<Event>, j: int)
    requires 0 <= j < |events|
  {
    events[j].Restart? && AnyStrays(events[..j])
  }

  ghost predicate LosesGroups(events: seq<Event>) {
    exists j :: 0 <= j < |events| && LosesGroupAt(events, j)
  }

  lemma StraysStep(init: seq<Event>, e: Event)
    ensures AnyStrays(init + [e]) <==> AnyStrays(init) || Strays(e)
  {
    assert forall f :: f in init + [e] <==> f in init || f == e;
  }

  lemma LosesGroupsStep(init: seq<Event>, e: Event)
    ensures LosesGroups(init + [e]) <==> LosesGroups(init) || (e.Restart? && AnyStrays(init))
    ensures LosesGroups(init) ==> AnyStrays(init)
  {
    var events := init + [e];
    assert events[..|init|] == init && events[|init|] == e;
    forall j | 0 <= j < |init| ensures LosesGroupAt(events, j) <==> LosesGroupAt(init, j) {
      assert events[..j] == init[..j];
    }
    if j :| 0 <= j < |init| && LosesGroupAt(init, j) {
      assert LosesGroupAt(events, j);
      assert forall f :: f in init[..j] ==> f in init;
    }
    assert LosesGroupAt(events, |init|) <==> e.Restart? && AnyStrays(init);
  }

  // ---------- groups without a directory ----------

  function CountOf(names: seq<string>, g: string): nat {
    if names == [] then 0 else (if names[0] == g then 1 else 0) + CountOf(names[1..], g)
  }

  lemma {:induction false} DeliverAllHigh(st: State, names: seq<string>, a: Article, g: string)
    ensures GroupOf(DeliverAll(st, names, a), g).high == GroupOf(st, g).high + CountOf(names, g)
    decreases names
  {
    if names != [] {
      DeliverAllHigh(Deliver(st, names[0], a), names[1..], a, g);
    }
  }

  lemma {:induction false} Counted(names: seq<string>, k: nat)
    requires k < |names|
    ensures CountOf(names, names[k]) > 0
  {
    if k > 0 {
      Counted(names[1..], k - 1);
    }
  }

  /** Group `g` has no directory, and articles were posted to it. */
  ghost predicate StrayGroup(t: State, g: string) {
    !IsName(g) && GroupOf(t, g).high > 0
  }

  ghost predicate Strayed(t: State) {
    exists g :: StrayGroup(t, g)
  }

  /** Such a group has had fewer posts here. */
  ghost predicate BehindIn(s: State, t: State, g: string) {
    !IsName(g) && GroupOf(s, g).high < GroupOf(t, g).high
  }

  ghost predicate Behind(s: State, t: State) {
    exists g :: BehindIn(s, t, g)
  }

  lemma PostStrays(t: State, e: Event)
    requires e.Post? && (Strayed(t) || Strays(e))
    ensures Strayed(After(t, e))
  {
    var names, c := Targets(e.a.headers), Completed(e.a, e.genID, e.date);
    AfterPost(t, e);
    if Strayed(t) {
      var g :| StrayGroup(t, g);
      DeliverAllHigh(t, names, c, g);
      assert StrayGroup(After(t, e), g);
    } else {
      var k :| 0 <= k < |names| && !IsName(names[k]);
      DeliverAllHigh(t, names, c, names[k]);
      Counted(names, k);
      assert StrayGroup(After(t, e), names[k]);
    }
  }

  lemma PostBehind(s: State, t: State, e: Event)
    requires e.Post? && Behind(s, t)
    ensures Behind(After(s, e), After(t, e))
  {
    var g :| BehindIn(s, t, g);
    AfterPost(s, e);
    AfterPost(t, e);
    DeliverAllHigh(s, Targets(e.a.headers), Completed(e.a, e.genID, e.date), g);
    DeliverAllHigh(t, Targets(e.a.headers), Completed(e.a, e.genID, e.date), g);
    assert BehindIn(After(s, e), After(t, e), g);
  }

  lemma {:induction false} LoadedNames(dirs: seq<Dir>)
    ensures LoadDirs(dirs).Keys == DirNames(dirs)
  {
    if dirs != [] {
      LoadedNames(dirs[..|dirs| - 1]);
    }
  }

  /** A restart drops every group whose name cannot be that of a directory. */
  lemma RestartDrops(s: State, e: Event, g: string)
    requires WellNamed(s.disk) && Possible(s, e) && e.Restart? && !IsName(g)
    ensures g !in After(s, e).groups
  {
    LoadedNames(e.dirs);
    WelcomeName();
    if HasDir(s.disk, g) {
      OnlyNamesListed(s.disk, g);
    }
  }

  lemma RestartBehind(s: State, t: State, e: Event)
    requires WellNamed(s.disk) && Possible(s, e) && e.Restart? && Strayed(t)
    ensures Behind(After(s, e), t)
  {
    var g :| StrayGroup(t, g);
    RestartDrops(s, e, g);
    assert BehindIn(After(s, e), t, g);
  }

  lemma RestartNamed(s: State, e: Event)
    requires WellNamed(s.disk) && e.Restart?
    ensures WellNamed(After(s, e).disk)
  {
    WrittenNamed(s.disk, "local.test", 1, Render(Welcome(e.date)));
  }

  // ---------- a run and its posts alone ----------

  /** Nothing was lost but ids: a run `s`, its posts alone `t`, and what is pending for the next restart. */
  ghost predicate Close(st: State, events: seq<Event>, s: State, t: State) {
    && KnownIDs(s) && KnownIDs(t) && Alike(s, t)
    && (Apart(s, t) <==> LosesIDs(st, events))
    && (!LosesIDs(st, events) ==> (Faithful(s) <==> Faithful(st) && !AnyHides(events)))
  }

  /** How a run `s` and its posts alone, `t`, relate. */
  ghost predicate Related(st: State, events: seq<Event>, s: State, t: State) {
    && Numbered(s) && Numbered(t) && WellNamed(s.disk)
    && (!AnyStrays(events) ==> Mirror(s) && s.groups != map[])
    && (AnyStrays(events) ==> Strayed(t))
    && if LosesGroups(events) then Behind(s, t) else Close(st, events, s, t)
  }

  lemma {:induction false} DeliverAllKnown(st: State, names: seq<string>, a: Article)
    requires Numbered(st) && KnownIDs(st) && a.msgID != ""
    ensures KnownIDs(DeliverAll(st, names, a))
    decreases names
  {
    if names != [] {
      DeliverKnown(st, names[0], a);
      DeliverNumbered(st, names[0], a);
      DeliverAllKnown(Deliver(st, names[0], a), names[1..], a);
    }
  }

  lemma PostKnown(st: State, e: Event)
    requires Numbered(st) && KnownIDs(st) && Possible(st, e) && e.Post?
    ensures KnownIDs(After(st, e))
  {
    CompletedStorable(e.a, e.genID, e.date);
    AfterPost(st, e);
    DeliverAllKnown(st, Targets(e.a.headers), Completed(e.a, e.genID, e.date));
  }

  lemma PostNumbered(st: State, e: Event)
    requires Numbered(st) && e.Post?
    ensures Numbered(After(st, e))
  {
    AfterPost(st, e);
    DeliverAllNumbered(st, Targets(e.a.headers), Completed(e.a, e.genID, e.date));
  }

  lemma ClosePost(st: State, init: seq<Event>, s: State, t: State, e: Event)
    requires Close(st, init, s, t) && Numbered(s) && Numbered(t) && Possible(s, e) && e.Post?
    ensures Close(st, init + [e], After(s, e), After(t, e))
  {
    HidesStep(init, e);
    LosesStep(st, init, e);
    PostKnown(s, e);
    PostKnown(t, e);
    PostAlike(s, t, e);
    PostFaithful(s, e);
  }

  lemma RelatedPost(st: State, init: seq<Event>, s: State, t: State, e: Event)
    requires Related(st, init, s, t) && Possible(s, e) && e.Post?
    ensures Related(st, init + [e], After(s, e), After(t, e))
  {
    StraysStep(init, e);
    LosesGroupsStep(init, e);
    PostNumbered(s, e);
    PostNumbered(t, e);
    AfterPost(s, e);
    DeliverAllNamed(s, Targets(e.a.headers), Completed(e.a, e.genID, e.date));
    if AnyStrays(init + [e]) {
      PostStrays(t, e);
    } else {
      AfterMirror(s, e);
    }
    if LosesGroups(init) {
      PostBehind(s, t, e);
    } else {
      ClosePost(st, init, s, t, e);
    }
  }

  lemma CloseRestart(st: State, init: seq<Event>, s: State, t: State, e: Event)
    requires Close(st, init, s, t) && Mirror(s) && s.groups != map[] && Possible(s, e) && e.Restart?
    ensures Close(st, init + [e], After(s, e), t)
  {
    HidesStep(init, e);
    LosesStep(st, init, e);
    AfterRestart(s, e.dirs, e.date);
    RestartAlike(s, t, e);
  }

  lemma RelatedRestart(st: State, init: seq<Event>, s: State, t: State, e: Event)
    requires Related(st, init, s, t) && Possible(s, e) && e.Restart?
    ensures Related(st, init + [e], After(s, e), t)
  {
    StraysStep(init, e);
    LosesGroupsStep(init, e);
    BootNumbered(e.dirs, s.disk, e.date);
    RestartNamed(s, e);
    if AnyStrays(init) {
      RestartBehind(s, t, e);
    } else {
      AfterMirror(s, e);
      CloseRestart(st, init, s, t, e);
    }
  }

  lemma RunPosts(st: State, init: seq<Event>, e: Event)
    ensures Run(st, init + [e]) == After(Run(st, init), e)
    ensures Run(st, PostsOnly(init + [e])) ==
            if e.Post? then After(Run(st, PostsOnly(init)), e) else Run(st, PostsOnly(init))
  {
    var posts := PostsOnly(init);
    assert (init + [e])[..|init|] == init && (posts + [e])[..|posts|] == posts && posts + [] == posts;
  }

  lemma {:induction false} RunRelated(st: State, events: seq<Event>)
    requires Mirror(st) && st.groups != map[] && PossibleRun(st, events)
    ensures Related(st, events, Run(st, events), Run(st, PostsOnly(events)))
  {
    if events == [] {
      RelatedStart(st);
    } else {
      var init, e := events[..|events| - 1], events[|events| - 1];
      InitLast(events);
      RunRelated(st, init);
      RunPosts(st, init, e);
      if e.Post? {
        RelatedPost(st, init, Run(st, init), Run(st, PostsOnly(init)), e);
      } else {
        RelatedRestart(st, init, Run(st, init), Run(st, PostsOnly(init)), e);
      }
    }
  }

  lemma RelatedStart(st: State)
    requires Mirror(st) && st.groups != map[]
    ensures Related(st, [], st, st)
  {
    MirrorNumbered(st);
  }

  lemma BehindDiffers(s: State, t: State)
    requires Behind(s, t)
    ensures !Same(s, t)
  {
    var g :| BehindIn(s, t, g);
  }

  /**
   Over any run of posts and restarts: the restarts cannot be told, so that without them the groups, articles,
   bounds, files and known ids are the same, exactly when none comes after a post with an empty Message-ID line
   that reached a group, or after a post to a group whose name cannot be that of a directory. Without posts of
   the second kind the spool mirrors memory throughout.
   */
  lemma RestartsInvisibleIff(st: State, events: seq<Event>)
    requires Mirror(st) && st.groups != map[] && PossibleRun(st, events)
    ensures !AnyStrays(events) ==> Mirror(Run(st, events))
    ensures Same(Run(st, events), Run(st, PostsOnly(events))) <==> !LosesIDs(st, events) && !LosesGroups(events)
  {
    RunRelated(st, events);
    if LosesGroups(events) {
      BehindDiffers(Run(st, events), Run(st, PostsOnly(events)));
    } else {
      SameIff(Run(st, events), Run(st, PostsOnly(events)));
    }
  }

  /** A group whose name cannot be that of a directory is there until the next restart, and not after it. */
  lemma StrayForgotten(st: State, e: Event, g: string, dirs: seq<Dir>, date: string)
    requires WellNamed(st.disk) && e.Post? && g in Targets(e.a.headers) && !IsName(g)
    requires ListsDisk(dirs, After(st, e).disk)
    ensures g in After(st, e).groups && g !in After(After(st, e), Restart(dirs, date)).groups
  {
    var names, c := Targets(e.a.headers), Completed(e.a, e.genID, e.date);
    var k :| 0 <= k < |names| && names[k] == g;
    AfterPost(st, e);
    DeliverAllHas(st, names, c, k);
    DeliverAllNamed(st, names, c);
    RestartDrops(After(st, e), Restart(dirs, date), g);
  }

  lemma {:induction false} DeliverAllKnows(st: State, names: seq<string>, a: Article)
    ensures st.known.Keys <= DeliverAll(st, names, a).known.Keys
    ensures names != [] ==> a.msgID in DeliverAll(st, names, a).known
    decreases names
  {
    if names != [] {
      DeliverAllKnows(Deliver(st, names[0], a), names[1..], a);
    }
  }

  /** No file that a restart reads has this id in its headers. */
  ghost predicate NoFileHas(d: Disk, id: string) {
    forall g, name, text :: FileAt(d, d.spool + [g], name, text) ==> Parse(0, text).msgID != id
  }

  lemma DeliverNoFile(st: State, gname: string, a: Article, id: string)
    requires NoFileHas(st.disk, id) && FileLines(a.headers, a.body) && WrittenID(a) != id
    ensures NoFileHas(Deliver(st, gname, a).disk, id)
  {
    var g, d' := Added(GroupOf(st, gname), a), Deliver(st, gname, a).disk;
    var copy := g.articles[g.high];
    ParseRender(copy, 0);
    assert d'.spool == st.disk.spool;
    forall h, name, text | FileAt(d', d'.spool + [h], name, text) ensures Parse(0, text).msgID != id {
      WrittenFiles(st.disk, gname, g.high, Render(copy), d'.spool + [h], name, text);
    }
  }

  lemma {:induction false} DeliverAllNoFile(st: State, names: seq<string>, a: Article, id: string)
    requires NoFileHas(st.disk, id) && FileLines(a.headers, a.body) && WrittenID(a) != id
    ensures NoFileHas(DeliverAll(st, names, a).disk, id)
    decreases names
  {
    if names != [] {
      DeliverNoFile(st, names[0], a, id);
      DeliverAllNoFile(Deliver(st, names[0], a), names[1..], a, id);
    }
  }

  lemma UnknownUnwritten(st: State, id: string)
    requires Mirror(st) && id != "" && id !in st.known
    ensures NoFileHas(st.disk, id)
  {
    forall g, name, text | FileAt(st.disk, st.disk.spool + [g], name, text) ensures Parse(0, text).msgID != id {
      assert HasDir(st.disk, g) && name in FilesIn(st.disk, g);
      FileParses(st.groups[g], FilesIn(st.disk, g), name);
      var n := Atoi(name).value;
      assert FileOf(st.groups[g], FilesIn(st.disk, g), n);
      assert Parse(0, text).msgID == Parse(n, text).msgID;
      assert GroupHas(st.groups[g], st.groups[g].articles[n].msgID);
      assert HasID(st.groups, st.groups[g].articles[n].msgID);
    }
  }

  lemma {:induction false} FilesUnseen(known: map<string, Article>, files: seq<(string, string)>, id: string)
    requires id !in known && forall k :: 0 <= k < |files| ==> Parse(0, files[k].1).msgID != id
    ensures id !in FileIDs(known, files)
  {
    if files != [] {
      FilesUnseen(known, files[..|files| - 1], id);
      var last := files[|files| - 1];
      assert forall n :: Parse(n, last.1).msgID == Parse(0, last.1).msgID;
    }
  }

  lemma {:induction false} DirsUnseen(d: Disk, dirs: seq<Dir>, id: string)
    requires DirsOf(dirs, d) && NoFileHas(d, id)
    ensures id !in DirIDs(dirs)
  {
    if dirs != [] {
      var last := dirs[|dirs| - 1];
      DirsUnseen(d, dirs[..|dirs| - 1], id);
      forall k | 0 <= k < |last.files| ensures Parse(0, last.files[k].1).msgID != id {
        assert FileAt(d, d.spool + [last.name], last.files[k].0, last.files[k].1);
      }
      FilesUnseen(DirIDs(dirs[..|dirs| - 1]), last.files, id);
    }
  }

  lemma {:induction false} DeliverAllDirs(st: State, names: seq<string>, a: Article, g: string)
    requires HasDir(st.disk, g)
    ensures HasDir(DeliverAll(st, names, a).disk, g)
    decreases names
  {
    if names != [] {
      var h := Added(GroupOf(st, names[0]), a);
      WrittenGrows(st.disk, names[0], h.high, Render(h.articles[h.high]), g);
      DeliverAllDirs(Deliver(st, names[0], a), names[1..], a, g);
    }
  }

  /** The id given to an article with an empty Message-ID line is known until the next restart, and not after it. */
  lemma GivenIDForgotten(st: State, e: Event, dirs: seq<Dir>, date: string)
    requires Mirror(st) && st.groups != map[] && Possible(st, e) && Hides(e) && e.genID !in st.known
    requires ListsDisk(dirs, After(st, e).disk)
    ensures e.genID in After(st, e).known && e.genID !in After(After(st, e), Restart(dirs, date)).known
  {
    var c, names := Completed(e.a, e.genID, e.date), Targets(e.a.headers);
    CompletedStorable(e.a, e.genID, e.date);
    AfterPost(st, e);
    DeliverAllKnows(st, names, c);
    UnknownUnwritten(st, e.genID);
    DeliverAllNoFile(st, names, c, e.genID);
    var g :| g in st.groups;
    DeliverAllDirs(st, names, c, g);
    UnseenAfter(After(st, e), dirs, date, e.genID, g);
  }

  lemma UnseenAfter(st: State, dirs: seq<Dir>, date: string, id: string, g: string)
    requires ListsDisk(dirs, st.disk) && NoFileHas(st.disk, id) && HasDir(st.disk, g)
    ensures id !in After(st, Restart(dirs, date)).known
  {
    DirsUnseen(st.disk, dirs, id);
    LoadedNames(dirs);
    assert g in LoadDirs(dirs);
  }

  lemma FirstHeader(headers: seq<string>, name: string, value: string)
    requires headers != [] && headers[0] == name + ":" + value
    ensures HasField(headers, name) && Header(headers, name) == TrimSpace(value)
  {
    LowerPrefix(name, value);
  }

  lemma OneTarget(headers: seq<string>, gname: string)
    requires Header(headers, "Newsgroups") == TrimSpace(" " + gname)
    requires gname != "" && ',' !in gname && !IsSpace(gname[0]) && !IsSpace(gname[|gname| - 1])
    ensures Targets(headers) == [gname]
  {
    TrimSpaceID(gname);
    SplitLast(gname, ',');
    var parts := [gname];
    assert TrimSpace(parts[0]) == gname;
    assert parts[1..] == [];
    assert Trims(parts) == [gname] + Trims([]);
  }

  lemma SecondIsID(group: string, id: string)
    requires !IsField(group, "Message-ID") && id == "Message-ID" + ":" + ""
    ensures HasField([group, id], "Message-ID") && Header([group, id], "Message-ID") == ""
  {
    var headers := [group, id];
    assert headers[1..] == [id];
    FirstHeader([id], "Message-ID", "");
    assert TrimSpace("") == "";
    assert IsField(headers[1], "Message-ID");
  }

  /** The smallest such posts: one group, and a Message-ID line without an id. */
  lemma EmptyIDLine(gname: string, group: string, id: string, a: Article, genID: string, date: string)
    requires gname != "" && ',' !in gname && NoLF(gname) && !IsSpace(gname[0]) && !IsSpace(gname[|gname| - 1])
    requires group == "Newsgroups" + ":" + (" " + gname) && id == "Message-ID" + ":" + ""
    requires a == Article(0, "", [group, id], [])
    ensures FromBlock(a) && Hides(Post(a, genID, date))
  {
    GroupLine(group, gname);
    IDLine(id);
    SecondIsID(group, id);
    FirstHeader([group, id], "Newsgroups", " " + gname);
    OneTarget([group, id], gname);
    TwoLines(group, id);
  }

  lemma GroupLine(group: string, gname: string)
    requires NoLF(gname) && group == "Newsgroups" + ":" + (" " + gname)
    ensures group != "" && NoLF(group) && !IsField(group, "Message-ID")
  {
    NoFieldByFirst(group, 'n');
    assert NoLF("Newsgroups");
  }

  lemma IDLine(id: string)
    requires id == "Message-ID" + ":" + ""
    ensures id != "" && NoLF(id)
  {
  }

  lemma TwoLines(a: string, b: string)
    requires a != "" && b != "" && NoLF(a) && NoLF(b)
    ensures FileLines([a, b], [])
  {
  }

  /** No group is without articles. */
  ghost predicate NoEmptyGroup(st: State) {
    forall g :: g in st.groups ==> st.groups[g].articles != map[]
  }

  lemma {:induction false} DeliverAllNoEmpty(st: State, names: seq<string>, a: Article)
    requires NoEmptyGroup(st)
    ensures NoEmptyGroup(DeliverAll(st, names, a))
    decreases names
  {
    if names != [] {
      var num := GroupOf(st, names[0]).high + 1;
      assert num in Deliver(st, names[0], a).groups[names[0]].articles;
      DeliverAllNoEmpty(Deliver(st, names[0], a), names[1..], a);
    }
  }

  lemma AfterNoEmpty(st: State, e: Event)
    requires NoEmptyGroup(st) && (e.Restart? ==> Mirror(st) && st.groups != map[] && Possible(st, e))
    ensures NoEmptyGroup(After(st, e))
  {
    match e
    case Post(a, genID, date) => DeliverAllNoEmpty(st, Targets(a.headers), Completed(a, genID, date));
    case Restart(dirs, date) =>
      AfterRestart(st, dirs, date);
      forall g | g in st.groups ensures RereadGroup(st.groups[g]).articles != map[] {
        var n :| n in st.groups[g].articles;
        assert n in RereadGroup(st.groups[g]).articles;
      }
  }

  /** A group without articles comes only from a restart after a post to a group without a directory. */
  lemma {:induction false} RunNoEmptyGroup(st: State, events: seq<Event>)
    requires Mirror(st) && st.groups != map[] && PossibleRun(st, events) && NoEmptyGroup(st)
    ensures NoEmptyGroup(Run(st, events)) || LosesGroups(events)
  {
    if events != [] {
      var init, e := events[..|events| - 1], events[|events| - 1];
      InitLast(events);
      LosesGroupsStep(init, e);
      RunNoEmptyGroup(st, init);
      if !LosesGroups(events) {
        RunRelated(st, init);
        AfterNoEmpty(Run(st, init), e);
      }
    }
  }

  /** A file that loadSpool takes for an article. */
  ghost predicate HasArticleFile(files: map<string, string>) {
    exists name :: name in files && Atoi(name).Some?
  }

  lemma {:induction false} LoadedEmpty(files: seq<(string, string)>)
    ensures LoadFiles(files).articles == map[] <==> forall k :: 0 <= k < |files| ==> Atoi(files[k].0).None?
  {
    if files != [] {
      var init, last := files[..|files| - 1], files[|files| - 1];
      LoadedEmpty(init);
      if Atoi(last.0).Some? {
        assert Atoi(last.0).value in LoadFiles(files).articles;
      }
    }
  }

  lemma {:induction false} Listed(files: seq<(string, string)>, name: string) returns (k: nat)
    requires name in FileNames(files)
    ensures k < |files| && files[k].0 == name
  {
    if files[|files| - 1].0 == name {
      k := |files| - 1;
    } else {
      k := Listed(files[..|files| - 1], name);
    }
  }

  lemma ListedEmpty(files: seq<(string, string)>, dir: map<string, string>)
    requires ListsDir(files, dir)
    ensures LoadFiles(files).articles == map[] <==> !HasArticleFile(dir)
  {
    LoadedEmpty(files);
    if name :| name in dir && Atoi(name).Some? {
      var k := Listed(files, name);
    }
  }

  lemma {:induction false} LoadedGroup(d: Disk, dirs: seq<Dir>, g: string)
    requires DirsOf(dirs, d) && g in LoadDirs(dirs)
    ensures LoadDirs(dirs)[g].articles == map[] <==> !HasArticleFile(FilesIn(d, g))
  {
    var last := dirs[|dirs| - 1];
    if last.name == g {
      ListedEmpty(last.files, FilesIn(d, g));
    } else {
      LoadedGroup(d, dirs[..|dirs| - 1], g);
    }
  }

  /** Whatever is on disk, a restart leaves no group without articles exactly when every directory has an article. */
  lemma RestartEmptyIff(st: State, dirs: seq<Dir>, date: string, g: string)
    requires ListsDisk(dirs, st.disk) && HasDir(st.disk, g)
    ensures NoEmptyGroup(After(st, Restart(dirs, date))) <==>
            forall h :: HasDir(st.disk, h) ==> HasArticleFile(FilesIn(st.disk, h))
  {
    LoadedNames(dirs);
    assert g in LoadDirs(dirs);
    forall h | HasDir(st.disk, h)
      ensures h in LoadDirs(dirs) && (LoadDirs(dirs)[h].articles == map[] <==> !HasArticleFile(FilesIn(st.disk, h)))
    {
      LoadedGroup(st.disk, dirs, h);
    }
  }

  /** An article for x/y: after the restart its group is gone, and there is a group x without articles. */
  lemma SlashLost(st: State, e: Event, x: string, y: string, dirs: seq<Dir>, date: string)
    requires Mirror(st) && IsName(x) && IsName(y) && x !in st.groups
    requires e.Post? && Targets(e.a.headers) == [x + "/" + y] && ListsDisk(dirs, After(st, e).disk)
    ensures Strays(e) && x + "/" + y in After(st, e).groups
    ensures var groups := After(After(st, e), Restart(dirs, date)).groups;
            x + "/" + y !in groups && x in groups && groups[x].articles == map[]
  {
    var gname, c := x + "/" + y, Completed(e.a, e.genID, e.date);
    assert gname[|x|] == '/';
    AfterPost(st, e);
    assert [gname][1..] == [];
    NestedFound(st, x, y, c);
    StrayForgotten(st, e, gname, dirs, date);
    EmptyLoaded(After(st, e), dirs, date, x);
  }

  lemma NestedFound(st: State, x: string, y: string, a: Article)
    requires Mirror(st) && IsName(x) && IsName(y) && x !in st.groups
    ensures var d := Deliver(st, x + "/" + y, a).disk; HasDir(d, x) && FilesIn(d, x) == map[]
  {
    var g := Added(GroupOf(st, x + "/" + y), a);
    WrittenNested(st.disk, x, y, g.high, Render(g.articles[g.high]));
  }

  lemma EmptyLoaded(st: State, dirs: seq<Dir>, date: string, x: string)
    requires ListsDisk(dirs, st.disk) && HasDir(st.disk, x) && FilesIn(st.disk, x) == map[]
    ensures var groups := After(st, Restart(dirs, date)).groups; x in groups && groups[x].articles == map[]
  {
    LoadedNames(dirs);
    assert x in LoadDirs(dirs);
    LoadedGroup(st.disk, dirs, x);
  }
}
