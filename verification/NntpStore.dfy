/** The server's articles, in memory and on disk (ops/pkgs/nntpd/nntpd.go, lines 38-249 and 588-612). */
module NntpStore {
  import opened Common
  import opened Text
  import opened NntpFraming
  import opened Spool

  datatype Article = Article(number: int, msgID: string, headers: seq<string>, body: seq<string>)

  // ---------- header lines ----------

  /** The header line starts with the field name and a colon, in whatever case. */
  predicate IsField(line: string, name: string) {
    ToLower(name) + ":" <= ToLower(line)
  }

  /** The value of the first such header line, or the empty string. */
  function Header(headers: seq<string>, name: string): string {
    if headers == [] then ""
    else if IsField(headers[0], name) then TrimSpace(headers[0][|name| + 1..])
    else Header(headers[1..], name)
  }

  predicate HasField(headers: seq<string>, name: string) {
    exists k :: 0 <= k < |headers| && IsField(headers[k], name)
  }

  lemma {:induction false} HeaderAbsent(headers: seq<string>, name: string)
    requires !HasField(headers, name)
    ensures Header(headers, name) == ""
  {
    if headers != [] {
      assert !HasField(headers[1..], name) by {
        assert forall k :: 0 <= k < |headers[1..]| ==> headers[1..][k] == headers[k + 1];
      }
      HeaderAbsent(headers[1..], name);
    }
  }

  /** A line added at the end counts only if the field was missing before. */
  lemma {:induction false} HeaderAppend(headers: seq<string>, line: string, name: string)
    ensures Header(headers + [line], name) ==
            if HasField(headers, name) then Header(headers, name)
            else if IsField(line, name) then TrimSpace(line[|name| + 1..]) else ""
  {
    if headers == [] {
      assert [line][1..] == [];
    } else {
      HeaderAppend(headers[1..], line, name);
      assert (headers + [line])[1..] == headers[1..] + [line];
      assert HasField(headers, name) <==> IsField(headers[0], name) || HasField(headers[1..], name) by {
        assert forall k :: 0 <= k < |headers[1..]| ==> headers[1..][k] == headers[k + 1];
        if k :| 0 < k < |headers| && IsField(headers[k], name) {
          assert headers[1..][k - 1] == headers[k];
        }
      }
    }
  }

  // ---------- the article file ----------

  function Render(a: Article): string {
    PlainLines(a.headers) + CRLF + PlainLines(a.body)
  }

  /** The two loops of writeArticle that fill the builder. */
  method RenderArticle(a: Article) returns (b: string)
    ensures b == Render(a)
  {
    b := RenderLines(a.headers);
    b := b + CRLF;
    var rest := RenderLines(a.body);
    b := b + rest;
  }

  method RenderLines(lines: seq<string>) returns (b: string)
    ensures b == PlainLines(lines)
  {
    b := "";
    for i := 0 to |lines|
      invariant b == PlainLines(lines[..i])
    {
      assert lines[..i + 1] == lines[..i] + [lines[i]];
      PlainStep(lines[..i], lines[i]);
      b := b + (lines[i] + CRLF);
    }
    assert lines[..|lines|] == lines;
  }

  function DropLastEmpty(body: seq<string>): seq<string> {
    if body != [] && body[|body| - 1] == "" then body[..|body| - 1] else body
  }

  function Parse(num: int, raw: string): Article {
    var (headers, body) := SplitArticle(Split(ReplaceAll(raw, CRLF, "\n"), '\n'));
    Article(num, Header(headers, "Message-ID"), headers, DropLastEmpty(body))
  }

  method ParseArticle(num: int, raw: string) returns (a: Article)
    ensures a == Parse(num, raw)
  {
    var lines := Split(ReplaceAll(raw, CRLF, "\n"), '\n');
    var headers, body := SplitLines(lines);
    if |body| > 0 && body[|body| - 1] == "" {
      body := body[..|body| - 1];
    }
    a := Article(num, Header(headers, "Message-ID"), headers, body);
  }

  /** Lines that survive being written to a file and read back. */
  ghost predicate FileLines(headers: seq<string>, body: seq<string>) {
    && NoneHas(headers, '\n') && NoneHas(body, '\n')
    && forall k :: 0 <= k < |headers| ==> headers[k] != ""
  }

  lemma {:induction false} SplitPlain(lines: seq<string>)
    requires NoneHas(lines, '\n')
    ensures Split(ReplaceAll(PlainLines(lines), CRLF, "\n"), '\n') == lines + [""]
  {
    if lines != [] {
      var rest := PlainLines(lines[1..]);
      ReplaceCRLF(lines[0], rest);
      SplitCons(lines[0], ReplaceAll(rest, CRLF, "\n"), '\n');
      SplitPlain(lines[1..]);
      assert [lines[0]] + (lines[1..] + [""]) == lines + [""];
    }
  }

  lemma RenderIsPlain(a: Article)
    ensures Render(a) == PlainLines(a.headers + ([""] + a.body))
  {
    PlainConcat(a.headers, [""] + a.body);
    assert ([""] + a.body)[1..] == a.body;
    Assoc(PlainLines(a.headers), CRLF, PlainLines(a.body));
    assert "" + CRLF + PlainLines(a.body) == CRLF + PlainLines(a.body);
  }

  /** Reading a written file gives the article back, empty and blank body lines included. */
  lemma ParseRender(a: Article, num: int)
    requires FileLines(a.headers, a.body)
    ensures Parse(num, Render(a)) == Article(num, Header(a.headers, "Message-ID"), a.headers, a.body)
  {
    var lines := a.headers + ([""] + a.body);
    RenderIsPlain(a);
    SplitPlain(lines);
    assert lines + [""] == a.headers + [""] + (a.body + [""]);
    SplitAtBlank(a.headers, a.body + [""]);
  }

  // ---------- the store as a value ----------

  datatype GroupState = GroupState(articles: map<int, Article>, low: int, high: nat)

  datatype State = State(groups: map<string, GroupState>, known: map<string, Article>, disk: Disk)

  const EMPTY_GROUP: GroupState := GroupState(map[], 0, 0)

  function GroupOf(st: State, gname: string): GroupState {
    if gname in st.groups then st.groups[gname] else EMPTY_GROUP
  }

  function Added(g: GroupState, a: Article): GroupState {
    var num := g.high + 1;
    GroupState(g.articles[num := a.(number := num)], if g.low == 0 then num else g.low, num)
  }

  /** One newsgroup's turn in post: number the copy, store it, write its file, remember its id. */
  function Deliver(st: State, gname: string, a: Article): State
  {
    var g := Added(GroupOf(st, gname), a);
    var copy := g.articles[g.high];
    State(st.groups[gname := g], st.known[a.msgID := copy], Written(st.disk, gname, g.high, Render(copy)))
  }

  function DeliverAll(st: State, names: seq<string>, a: Article): State
    decreases names
  {
    if names == [] then st else DeliverAll(Deliver(st, names[0], a), names[1..], a)
  }

  function NameIn(part: string): seq<string> {
    var t := TrimSpace(part);
    if t == "" then [] else [t]
  }

  /** The newsgroups named by the header: split at commas, trimmed, blanks dropped. */
  function Trims(parts: seq<string>): seq<string> {
    if parts == [] then [] else NameIn(parts[0]) + Trims(parts[1..])
  }

  function Targets(headers: seq<string>): seq<string> {
    Trims(Split(Header(headers, "Newsgroups"), ','))
  }

  function WithID(a: Article, genID: string): Article {
    if a.msgID == "" then a.(msgID := genID, headers := a.headers + ["Message-ID: " + genID]) else a
  }

  function WithDate(a: Article, date: string): Article {
    if Header(a.headers, "Date") == "" then a.(headers := a.headers + ["Date: " + date]) else a
  }

  function Completed(a: Article, genID: string, date: string): Article {
    WithDate(WithID(a, genID), date)
  }

  /** post: refused without a Newsgroups header, else delivered to every group it names. */
  function Posted(st: State, a: Article, genID: string, date: string): Option<State>
  {
    if Header(a.headers, "Newsgroups") == "" then None
    else Some(DeliverAll(st, Targets(a.headers), Completed(a, genID, date)))
  }

  /** Every article carries the number it is filed under, and none is above `high`. */
  ghost predicate NumberedGroup(g: GroupState) {
    forall n :: n in g.articles ==> g.articles[n].number == n <= g.high
  }

  ghost predicate Numbered(st: State) {
    forall g :: g in st.groups ==> NumberedGroup(st.groups[g])
  }

  lemma DeliverNumbered(st: State, gname: string, a: Article)
    requires Numbered(st)
    ensures Numbered(Deliver(st, gname, a))
  {
    assert NumberedGroup(GroupOf(st, gname));
    assert NumberedGroup(Added(GroupOf(st, gname), a));
  }

  /** Delivering an article adds one number to one group, above all it has. */
  lemma DeliverGrows(st: State, gname: string, a: Article)
    requires Numbered(st)
    ensures var num, nums := GroupOf(st, gname).high + 1, GroupOf(st, gname).articles.Keys;
      && Deliver(st, gname, a).groups[gname].articles.Keys == nums + {num}
      && forall n :: n in nums ==> n < num
  {
    var g := GroupOf(st, gname);
    assert NumberedGroup(g);
    assert forall n :: n in g.articles.Keys ==> n in g.articles;
  }

  lemma {:induction false} DeliverAllNumbered(st: State, names: seq<string>, a: Article)
    requires Numbered(st)
    ensures Numbered(DeliverAll(st, names, a))
    decreases names
  {
    if names != [] {
      DeliverNumbered(st, names[0], a);
      DeliverAllNumbered(Deliver(st, names[0], a), names[1..], a);
    }
  }

  // ---------- reading the spool back ----------

  /** One directory as ReadDir lists it. */
  datatype Dir = Dir(name: string, files: seq<(string, string)>)

  /** One article file, taken into the group. */
  function Loaded(g: GroupState, num: int, data: string): GroupState {
    GroupState(g.articles[num := Parse(num, data)],
               if g.low == 0 || num < g.low then num else g.low,
               if num > g.high then num else g.high)
  }

  function LoadFile(g: GroupState, name: string, data: string): GroupState {
    match Atoi(name)
    case None => g
    case Some(num) => Loaded(g, num, data)
  }

  function LoadFiles(files: seq<(string, string)>): GroupState {
    if files == [] then EMPTY_GROUP
    else LoadFile(LoadFiles(files[..|files| - 1]), files[|files| - 1].0, files[|files| - 1].1)
  }

  function LoadedID(known: map<string, Article>, num: int, data: string): map<string, Article> {
    var a := Parse(num, data);
    if a.msgID == "" then known else known[a.msgID := a]
  }

  function FileID(known: map<string, Article>, name: string, data: string): map<string, Article> {
    match Atoi(name)
    case None => known
    case Some(num) => LoadedID(known, num, data)
  }

  function FileIDs(known: map<string, Article>, files: seq<(string, string)>): map<string, Article> {
    if files == [] then known
    else FileID(FileIDs(known, files[..|files| - 1]), files[|files| - 1].0, files[|files| - 1].1)
  }

  function LoadDirs(dirs: seq<Dir>): map<string, GroupState> {
    if dirs == [] then map[]
    else LoadDirs(dirs[..|dirs| - 1])[dirs[|dirs| - 1].name := LoadFiles(dirs[|dirs| - 1].files)]
  }

  function DirIDs(dirs: seq<Dir>): map<string, Article> {
    if dirs == [] then map[]
    else FileIDs(DirIDs(dirs[..|dirs| - 1]), dirs[|dirs| - 1].files)
  }

  // ---------- memory and disk agree ----------

  /** The message-id that the headers carry, which is all that a file keeps of it. */
  function WrittenID(a: Article): string {
    Header(a.headers, "Message-ID")
  }

  /** Fit to be stored: its lines survive the file, and its headers carry no other id than its own. */
  ghost predicate Storable(a: Article) {
    FileLines(a.headers, a.body) && (WrittenID(a) == a.msgID || WrittenID(a) == "")
  }

  /** The article as it is read back from its file. */
  function Reread(a: Article): Article {
    a.(msgID := WrittenID(a))
  }

  function RereadGroup(g: GroupState): GroupState {
    g.(articles := map n | n in g.articles :: Reread(g.articles[n]))
  }

  function RereadGroups(groups: map<string, GroupState>): map<string, GroupState> {
    map g | g in groups :: RereadGroup(groups[g])
  }

  ghost predicate Bounds(g: GroupState) {
    if g.articles == map[] then g.low == 0 && g.high == 0
    else g.low in g.articles && g.high in g.articles && forall n :: n in g.articles ==> g.low <= n <= g.high
  }

  ghost predicate FileOf(g: GroupState, dir: map<string, string>, n: int)
    requires n in g.articles
  {
    && n >= 1 && g.articles[n].number == n && Storable(g.articles[n])
    && Itoa(n) in dir && dir[Itoa(n)] == Render(g.articles[n])
  }

  ghost predicate IsArticleFile(g: GroupState, name: string) {
    match Atoi(name)
    case None => false
    case Some(n) => n in g.articles && n >= 0 && Itoa(n) == name
  }

  ghost predicate GroupMirrored(g: GroupState, dir: map<string, string>) {
    && Bounds(g)
    && (forall n :: n in g.articles ==> FileOf(g, dir, n))
    && (forall name :: name in dir ==> IsArticleFile(g, name))
  }

  ghost predicate GroupHas(g: GroupState, id: string) {
    exists n :: n in g.articles && g.articles[n].msgID == id
  }

  ghost predicate HasID(groups: map<string, GroupState>, id: string) {
    exists g :: g in groups && GroupHas(groups[g], id)
  }

  /** `known` has exactly the ids of the articles in memory. */
  ghost predicate KnownIDs(st: State) {
    forall id :: id in st.known <==> id != "" && HasID(st.groups, id)
  }

  /** The disk holds the files of exactly the articles in memory. */
  ghost predicate Mirror(st: State) {
    && Flat(st.disk) && (forall g :: g in st.groups <==> HasDir(st.disk, g))
    && (forall g :: g in st.groups ==> GroupMirrored(st.groups[g], FilesIn(st.disk, g)))
    && KnownIDs(st)
  }

  lemma MirrorNumbered(st: State)
    requires Mirror(st)
    ensures Numbered(st)
  {
    forall g | g in st.groups ensures NumberedGroup(st.groups[g]) {
      assert GroupMirrored(st.groups[g], FilesIn(st.disk, g));
      forall n | n in st.groups[g].articles ensures st.groups[g].articles[n].number == n <= st.groups[g].high {
        assert FileOf(st.groups[g], FilesIn(st.disk, g), n);
      }
    }
  }

  lemma FreshNumber(st: State, gname: string)
    requires Numbered(st)
    ensures GroupOf(st, gname).high + 1 !in GroupOf(st, gname).articles
  {
    assert gname in st.groups ==> NumberedGroup(st.groups[gname]);
  }

  lemma AddedMirrored(g: GroupState, dir: map<string, string>, a: Article)
    requires GroupMirrored(g, dir) && Storable(a)
    ensures var g' := Added(g, a);
            GroupMirrored(g', dir[Itoa(g'.high) := Render(g'.articles[g'.high])])
  {
    var g' := Added(g, a);
    var num := g'.high;
    var dir' := dir[Itoa(num) := Render(g'.articles[num])];
    assert num !in g.articles;
    assert 0 in g.articles ==> FileOf(g, dir, 0);
    AddedBounds(g, a);
    AtoiItoa(num);
    forall n | n in g'.articles ensures FileOf(g', dir', n) {
      if n != num {
        assert FileOf(g, dir, n);
        AtoiItoa(n);
      }
    }
    forall name | name in dir' ensures IsArticleFile(g', name) {
      if name != Itoa(num) {
        assert IsArticleFile(g, name);
      }
    }
  }

  lemma AddedBounds(g: GroupState, a: Article)
    requires Bounds(g) && (0 !in g.articles)
    ensures Bounds(Added(g, a))
  {
    var g' := Added(g, a);
    assert forall n :: n in g'.articles <==> n in g.articles || n == g'.high;
    assert g'.high in g'.articles;
  }

  lemma AddedIDs(g: GroupState, a: Article, id: string)
    requires g.high + 1 !in g.articles
    ensures GroupHas(Added(g, a), id) <==> id == a.msgID || GroupHas(g, id)
  {
    var g' := Added(g, a);
    assert g'.high in g'.articles && g'.articles[g'.high].msgID == a.msgID;
    if n :| n in g.articles && g.articles[n].msgID == id {
      assert n in g'.articles && g'.articles[n].msgID == id;
    }
  }

  lemma DeliverIDs(st: State, gname: string, a: Article, id: string)
    requires GroupOf(st, gname).high + 1 !in GroupOf(st, gname).articles
    ensures HasID(Deliver(st, gname, a).groups, id) <==> id == a.msgID || HasID(st.groups, id)
  {
    var st' := Deliver(st, gname, a);
    AddedIDs(GroupOf(st, gname), a, id);
    assert st'.groups[gname] == Added(GroupOf(st, gname), a);
    if g :| g in st.groups && GroupHas(st.groups[g], id) {
      assert g in st'.groups && GroupHas(st'.groups[g], id);
    }
    if id == a.msgID {
      assert gname in st'.groups && GroupHas(st'.groups[gname], id);
    }
  }

  lemma DeliverGroup(st: State, gname: string, a: Article, h: string)
    requires Mirror(st) && Storable(a) && IsName(gname) && h in Deliver(st, gname, a).groups
    ensures var st' := Deliver(st, gname, a); HasDir(st'.disk, h) && GroupMirrored(st'.groups[h], FilesIn(st'.disk, h))
  {
    var g := Added(GroupOf(st, gname), a);
    WrittenFlat(st.disk, gname, g.high, Render(g.articles[g.high]));
    if h == gname {
      AddedMirrored(GroupOf(st, gname), FilesIn(st.disk, gname), a);
    } else {
      assert h in st.groups && GroupMirrored(st.groups[h], FilesIn(st.disk, h));
    }
  }

  lemma DeliverKnown(st: State, gname: string, a: Article)
    requires Numbered(st) && KnownIDs(st) && a.msgID != ""
    ensures KnownIDs(Deliver(st, gname, a))
  {
    var st' := Deliver(st, gname, a);
    FreshNumber(st, gname);
    forall id ensures id in st'.known <==> id != "" && HasID(st'.groups, id) {
      DeliverIDs(st, gname, a, id);
    }
  }

  lemma DeliverMirror(st: State, gname: string, a: Article)
    requires Mirror(st) && Storable(a) && a.msgID != "" && IsName(gname)
    ensures Mirror(Deliver(st, gname, a))
  {
    MirrorNumbered(st);
    DeliverKnown(st, gname, a);
    DeliverGroups(st, gname, a);
  }

  lemma DeliverGroups(st: State, gname: string, a: Article)
    requires Mirror(st) && Storable(a) && IsName(gname)
    ensures var st' := Deliver(st, gname, a);
      && Flat(st'.disk) && (forall h :: h in st'.groups <==> HasDir(st'.disk, h))
      && forall h :: h in st'.groups ==> GroupMirrored(st'.groups[h], FilesIn(st'.disk, h))
  {
    var st', g := Deliver(st, gname, a), Added(GroupOf(st, gname), a);
    WrittenFlat(st.disk, gname, g.high, Render(g.articles[g.high]));
    forall h | h in st'.groups ensures HasDir(st'.disk, h) && GroupMirrored(st'.groups[h], FilesIn(st'.disk, h)) {
      DeliverGroup(st, gname, a, h);
    }
  }

  ghost predicate AllNames(names: seq<string>) {
    forall k :: 0 <= k < |names| ==> IsName(names[k])
  }

  lemma {:induction false} DeliverAllMirror(st: State, names: seq<string>, a: Article)
    requires Mirror(st) && Storable(a) && a.msgID != "" && AllNames(names)
    ensures Mirror(DeliverAll(st, names, a))
    decreases names
  {
    if names != [] {
      DeliverMirror(st, names[0], a);
      DeliverAllMirror(Deliver(st, names[0], a), names[1..], a);
    }
  }

  // ---------- reloading ----------

  function FileNames(files: seq<(string, string)>): set<string> {
    if files == [] then {} else FileNames(files[..|files| - 1]) + {files[|files| - 1].0}
  }

  function DirNames(dirs: seq<Dir>): set<string> {
    if dirs == [] then {} else DirNames(dirs[..|dirs| - 1]) + {dirs[|dirs| - 1].name}
  }

  /** Files of the directory, each with its content. */
  ghost predicate FilesOf(files: seq<(string, string)>, dir: map<string, string>) {
    forall k :: 0 <= k < |files| ==> files[k].0 in dir && dir[files[k].0] == files[k].1
  }

  /** All of them, in any order. */
  ghost predicate ListsDir(files: seq<(string, string)>, dir: map<string, string>) {
    FilesOf(files, dir) && FileNames(files) == dir.Keys
  }

  ghost predicate DirsOf(dirs: seq<Dir>, disk: Disk) {
    forall k :: 0 <= k < |dirs| ==> HasDir(disk, dirs[k].name) && ListsDir(dirs[k].files, FilesIn(disk, dirs[k].name))
  }

  /** The directories of the spool, in any order. */
  ghost predicate ListsDisk(dirs: seq<Dir>, disk: Disk) {
    DirsOf(dirs, disk) && forall name :: name in DirNames(dirs) <==> HasDir(disk, name)
  }

  /** A file of a mirrored directory parses to the article it was written for, with the id its headers carry. */
  lemma FileParses(g: GroupState, dir: map<string, string>, name: string)
    requires GroupMirrored(g, dir) && name in dir
    ensures Atoi(name).Some? && Atoi(name).value in g.articles
    ensures Parse(Atoi(name).value, dir[name]) == Reread(g.articles[Atoi(name).value])
    ensures Atoi(name).value >= 1 && Itoa(Atoi(name).value) == name
  {
    assert IsArticleFile(g, name);
    var n := Atoi(name).value;
    assert FileOf(g, dir, n);
    ParseRender(g.articles[n], n);
  }

  /** `loaded` holds the articles of `g` whose files are among `names`, as read back. */
  ghost predicate LoadedFrom(g: GroupState, names: set<string>, loaded: GroupState) {
    && Bounds(loaded)
    && (forall n :: n in loaded.articles ==> n in g.articles && loaded.articles[n] == Reread(g.articles[n]) && n >= 1)
    && (forall n: nat :: n in g.articles ==> (n in loaded.articles <==> Itoa(n) in names))
  }

  lemma LoadStep(g: GroupState, dir: map<string, string>, names: set<string>, loaded: GroupState, name: string)
    requires GroupMirrored(g, dir) && name in dir && LoadedFrom(g, names, loaded)
    ensures LoadedFrom(g, names + {name}, LoadFile(loaded, name, dir[name]))
  {
    FileParses(g, dir, name);
    var num := Atoi(name).value;
    LoadBounds(loaded, name, dir[name]);
    forall n: nat | n in g.articles ensures Itoa(n) == name <==> n == num {
      AtoiItoa(n);
    }
    LoadOne(g, names, loaded, LoadFile(loaded, name, dir[name]), name, num);
  }

  lemma LoadOne(g: GroupState, names: set<string>, loaded: GroupState, loaded': GroupState, name: string, num: nat)
    requires LoadedFrom(g, names, loaded) && Bounds(loaded') && num >= 1 && num in g.articles
    requires loaded'.articles == loaded.articles[num := Reread(g.articles[num])]
    requires forall n: nat :: n in g.articles ==> (Itoa(n) == name <==> n == num)
    ensures LoadedFrom(g, names + {name}, loaded')
  {
    forall n: nat | n in g.articles ensures n in loaded'.articles <==> Itoa(n) in names + {name} {
      assert Itoa(n) == name <==> n == num;
    }
  }

  lemma LoadBounds(g: GroupState, name: string, data: string)
    requires Bounds(g) && (forall n :: n in g.articles ==> n >= 1)
    requires Atoi(name).Some? && Atoi(name).value >= 1
    ensures Bounds(LoadFile(g, name, data))
  {
    var num := Atoi(name).value;
    var g' := LoadFile(g, name, data);
    assert num in g'.articles;
    assert forall n :: n in g'.articles <==> n in g.articles || n == num;
  }

  lemma {:induction false} LoadSome(g: GroupState, dir: map<string, string>, files: seq<(string, string)>)
    requires GroupMirrored(g, dir) && FilesOf(files, dir)
    ensures LoadedFrom(g, FileNames(files), LoadFiles(files))
  {
    if files != [] {
      var init, last := files[..|files| - 1], files[|files| - 1];
      LoadSome(g, dir, init);
      LoadStep(g, dir, FileNames(init), LoadFiles(init), last.0);
    }
  }

  /** Reading a mirrored directory gives the group back: same bounds, and each article as its headers name it. */
  lemma LoadGroup(g: GroupState, dir: map<string, string>, files: seq<(string, string)>)
    requires GroupMirrored(g, dir) && ListsDir(files, dir)
    ensures LoadFiles(files) == RereadGroup(g)
  {
    LoadSome(g, dir, files);
    LoadedAll(g, dir, LoadFiles(files));
  }

  lemma LoadedAll(g: GroupState, dir: map<string, string>, loaded: GroupState)
    requires GroupMirrored(g, dir) && LoadedFrom(g, dir.Keys, loaded)
    ensures loaded == RereadGroup(g)
  {
    forall n ensures n in loaded.articles <==> n in RereadGroup(g).articles {
      LoadedHas(g, dir, loaded, n);
    }
    SameArticles(loaded.articles, RereadGroup(g).articles);
    RereadBounds(g);
    BoundsUnique(loaded, RereadGroup(g));
  }

  lemma RereadBounds(g: GroupState)
    requires Bounds(g)
    ensures Bounds(RereadGroup(g))
  {
    assert forall n :: n in RereadGroup(g).articles <==> n in g.articles;
    assert g.articles != map[] ==> g.low in RereadGroup(g).articles;
  }

  lemma SameArticles(m: map<int, Article>, n: map<int, Article>)
    requires forall k :: k in m <==> k in n
    requires forall k :: k in m ==> m[k] == n[k]
    ensures m == n
  {
    assert forall k: int :: k in m <==> k in n;
    assert forall k: int :: k in m ==> m[k] == n[k];
  }

  lemma LoadedHas(g: GroupState, dir: map<string, string>, loaded: GroupState, n: int)
    requires GroupMirrored(g, dir) && LoadedFrom(g, dir.Keys, loaded)
    ensures n in loaded.articles <==> n in g.articles
  {
    if n in g.articles {
      assert FileOf(g, dir, n);
    }
  }

  lemma BoundsUnique(g: GroupState, h: GroupState)
    requires Bounds(g) && Bounds(h) && g.articles == h.articles
    ensures g == h
  {
  }

  lemma {:induction false} LoadDirsSome(st: State, dirs: seq<Dir>)
    requires Mirror(st) && DirsOf(dirs, st.disk)
    ensures LoadDirs(dirs).Keys == DirNames(dirs)
    ensures forall g :: g in LoadDirs(dirs) ==> g in st.groups && LoadDirs(dirs)[g] == RereadGroup(st.groups[g])
  {
    if dirs != [] {
      var d := dirs[|dirs| - 1];
      LoadDirsSome(st, dirs[..|dirs| - 1]);
      LoadGroup(st.groups[d.name], FilesIn(st.disk, d.name), d.files);
    }
  }

  /** Some article of `g` whose headers carry this id has its file among `names`. */
  ghost predicate FileHas(g: GroupState, names: set<string>, id: string) {
    exists n: nat :: n in g.articles && WrittenID(g.articles[n]) == id && Itoa(n) in names
  }

  lemma FileHasStep(g: GroupState, dir: map<string, string>, names: set<string>, name: string, id: string)
    requires GroupMirrored(g, dir) && name in dir
    requires Atoi(name).Some? && Atoi(name).value in g.articles && Itoa(Atoi(name).value) == name
    ensures FileHas(g, names + {name}, id) <==> FileHas(g, names, id) || WrittenID(g.articles[Atoi(name).value]) == id
  {
    var num := Atoi(name).value;
    if n: nat :| n in g.articles && WrittenID(g.articles[n]) == id && Itoa(n) in names + {name} {
      AtoiItoa(n);
      assert n == num || Itoa(n) in names;
    }
    if WrittenID(g.articles[num]) == id {
      assert Itoa(num) in names + {name};
    }
  }

  lemma {:induction false} FileIDsSome(g: GroupState, dir: map<string, string>, known: map<string, Article>,
                                       files: seq<(string, string)>, id: string)
    requires GroupMirrored(g, dir) && FilesOf(files, dir)
    ensures id in FileIDs(known, files) <==> id in known || (id != "" && FileHas(g, FileNames(files), id))
  {
    if files != [] {
      var init, name := files[..|files| - 1], files[|files| - 1].0;
      FileIDsSome(g, dir, known, init, id);
      FileParses(g, dir, name);
      FileHasStep(g, dir, FileNames(init), name, id);
    }
  }

  lemma FileHasAll(g: GroupState, dir: map<string, string>, id: string)
    requires GroupMirrored(g, dir)
    ensures FileHas(g, dir.Keys, id) <==> GroupHas(RereadGroup(g), id)
  {
    if n: nat :| n in g.articles && WrittenID(g.articles[n]) == id && Itoa(n) in dir.Keys {
      assert n in RereadGroup(g).articles && RereadGroup(g).articles[n].msgID == id;
    }
    if n :| n in RereadGroup(g).articles && RereadGroup(g).articles[n].msgID == id {
      assert FileOf(g, dir, n);
      assert Itoa(n) in dir.Keys;
    }
  }

  ghost predicate DirHas(st: State, names: set<string>, id: string) {
    exists g :: g in names && g in st.groups && GroupHas(RereadGroup(st.groups[g]), id)
  }

  lemma {:induction false} DirIDsSome(st: State, dirs: seq<Dir>, id: string)
    requires Mirror(st) && DirsOf(dirs, st.disk)
    ensures id in DirIDs(dirs) <==> id != "" && DirHas(st, DirNames(dirs), id)
  {
    if dirs != [] {
      var init, d := dirs[..|dirs| - 1], dirs[|dirs| - 1];
      DirIDsSome(st, init, id);
      FileIDsSome(st.groups[d.name], FilesIn(st.disk, d.name), DirIDs(init), d.files, id);
      FileHasAll(st.groups[d.name], FilesIn(st.disk, d.name), id);
      assert d.name in DirNames(dirs);
    }
  }

  lemma DirHasAll(st: State, id: string)
    ensures DirHas(st, st.groups.Keys, id) <==> HasID(RereadGroups(st.groups), id)
  {
    var groups := RereadGroups(st.groups);
    if g :| g in st.groups.Keys && g in st.groups && GroupHas(RereadGroup(st.groups[g]), id) {
      assert g in groups && GroupHas(groups[g], id);
    }
    if g :| g in groups && GroupHas(groups[g], id) {
      assert g in st.groups.Keys && GroupHas(RereadGroup(st.groups[g]), id);
    }
  }

  lemma DirIDsAll(st: State, dirs: seq<Dir>)
    requires Mirror(st) && ListsDisk(dirs, st.disk)
    ensures forall id :: id in DirIDs(dirs) <==> id != "" && HasID(RereadGroups(st.groups), id)
  {
    forall id ensures id in DirIDs(dirs) <==> id != "" && HasID(RereadGroups(st.groups), id) {
      DirIDsSome(st, dirs, id);
      DirHasAll(st, id);
    }
  }

  /** Restarting on a mirrored spool: the same groups with the ids their headers carry, and those ids known. */
  lemma Reload(st: State, dirs: seq<Dir>)
    requires Mirror(st) && ListsDisk(dirs, st.disk)
    ensures LoadDirs(dirs) == RereadGroups(st.groups)
    ensures forall id :: id in DirIDs(dirs) <==> id != "" && HasID(RereadGroups(st.groups), id)
  {
    LoadDirsSome(st, dirs);
    DirIDsAll(st, dirs);
  }

  // ---------- what is posted can be stored ----------

  /** The server's own values: an id without space around it, and a date; neither holds a line feed. */
  ghost predicate ServerValues(genID: string, date: string) {
    && genID != "" && TrimSpace(" " + genID) == genID && NoLF(genID) && NoLF(date)
  }

  /** An article as cmdPost builds it from the lines of a block. */
  ghost predicate FromBlock(a: Article) {
    FileLines(a.headers, a.body) && a.msgID == Header(a.headers, "Message-ID")
  }

  /** cmdPost's article, before it has a number. */
  function BlockArticle(lines: seq<string>): Article {
    var (headers, body) := SplitArticle(lines);
    Article(0, Header(headers, "Message-ID"), headers, body)
  }

  lemma {:induction false} SplitKeeps(lines: seq<string>)
    requires AllClean(lines)
    ensures FileLines(SplitArticle(lines).0, SplitArticle(lines).1)
  {
    if lines != [] && lines[0] != "" {
      SplitKeeps(lines[1..]);
      assert NoLF(lines[0]);
    }
  }

  /** Whatever bytes a client sends, what is read of them makes such an article. */
  lemma ReadFromBlock(input: string)
    requires ReadBlock(input).Some?
    ensures FromBlock(BlockArticle(ReadBlock(input).value.lines))
  {
    ReadLinesClean(input);
    SplitKeeps(ReadBlock(input).value.lines);
  }

  lemma LowerPrefix(name: string, value: string)
    ensures IsField(name + ":" + value, name) && (name + ":" + value)[|name| + 1..] == value
  {
    var line := name + ":" + value;
    assert ToLower(line)[..|name| + 1] == ToLower(name) + ":";
  }

  lemma MessageIDLine(genID: string)
    ensures IsField("Message-ID: " + genID, "Message-ID")
    ensures ("Message-ID: " + genID)[|"Message-ID"| + 1..] == " " + genID
  {
    LowerPrefix("Message-ID", " " + genID);
    assert "Message-ID: " + genID == "Message-ID" + ":" + (" " + genID);
  }

  lemma DateLineIsNoID(date: string)
    ensures !IsField("Date: " + date, "Message-ID")
  {
    NoFieldByFirst("Date: " + date, 'd');
  }

  /** The date line never changes which message-id the headers carry. */
  lemma WithDateID(a: Article, date: string)
    ensures Header(WithDate(a, date).headers, "Message-ID") == Header(a.headers, "Message-ID")
  {
    HeaderAppend(a.headers, "Date: " + date, "Message-ID");
    DateLineIsNoID(date);
    if !HasField(a.headers, "Message-ID") {
      HeaderAbsent(a.headers, "Message-ID");
    }
  }

  /**
   The completed article carries its own message-id, in memory and in its headers alike, exactly
   when the poster gave an id or no Message-ID line at all: an empty one hides the generated id.
   */
  lemma CompletedIDIff(a: Article, genID: string, date: string)
    requires FromBlock(a) && ServerValues(genID, date)
    ensures var c := Completed(a, genID, date);
            WrittenID(c) == c.msgID <==> a.msgID != "" || !HasField(a.headers, "Message-ID")
  {
    WithDateID(WithID(a, genID), date);
    if a.msgID == "" {
      MessageIDLine(genID);
      HeaderAppend(a.headers, "Message-ID: " + genID, "Message-ID");
    }
  }

  lemma CompletedStorable(a: Article, genID: string, date: string)
    requires FromBlock(a) && ServerValues(genID, date)
    ensures var c := Completed(a, genID, date); Storable(c) && c.msgID != ""
    ensures a.msgID == "" && HasField(a.headers, "Message-ID") ==> WrittenID(Completed(a, genID, date)) == ""
  {
    CompletedIDIff(a, genID, date);
    CompletedLines(a, genID, date);
    WithDateID(WithID(a, genID), date);
    HeaderAppend(a.headers, "Message-ID: " + genID, "Message-ID");
  }

  lemma CompletedLines(a: Article, genID: string, date: string)
    requires FileLines(a.headers, a.body) && NoLF(genID) && NoLF(date)
    ensures var c := Completed(a, genID, date); FileLines(c.headers, c.body)
  {
    var b := WithID(a, genID);
    assert FileLines(b.headers, b.body) by {
      LinesAppend(a.headers, a.body, "Message-ID: ", genID);
    }
    LinesAppend(b.headers, b.body, "Date: ", date);
  }

  lemma LinesAppend(headers: seq<string>, body: seq<string>, field: string, value: string)
    requires FileLines(headers, body) && field != "" && NoLF(field) && NoLF(value)
    ensures FileLines(headers + [field + value], body)
  {
  }

  // ---------- starting the server ----------

  const WELCOME_ID: string := "<welcome-1@local.test>"
  const WELCOME_GROUP: string := "Newsgroups: local.test"
  const WELCOME_FROM: string := "From: nntpd <nntpd@local.test>"
  const WELCOME_SUBJECT: string := "Subject: Welcome"
  const WELCOME_BODY: string := "This is a minimal nntpd. Post something!"

  /** seedWelcomeGroup, for a server started on an empty spool. */
  function Welcome(date: string): Article {
    Article(1, WELCOME_ID,
            [WELCOME_GROUP, WELCOME_FROM, WELCOME_SUBJECT, "Message-ID: " + WELCOME_ID, "Date: " + date],
            [WELCOME_BODY])
  }

  /** newStore: read the spool, and seed a group if there is none. */
  function Boot(dirs: seq<Dir>, disk: Disk, date: string): State {
    var groups, known := LoadDirs(dirs), DirIDs(dirs);
    if groups == map[] then
      var a := Welcome(date);
      State(map["local.test" := GroupState(map[1 := a], 1, 1)], known[a.msgID := a],
            Written(disk, "local.test", 1, Render(a)))
    else State(groups, known, disk)
  }

  lemma {:induction false} LoadFilesNumbered(files: seq<(string, string)>)
    ensures NumberedGroup(LoadFiles(files))
  {
    if files != [] {
      LoadFilesNumbered(files[..|files| - 1]);
    }
  }

  lemma {:induction false} LoadDirsNumbered(dirs: seq<Dir>)
    ensures forall g :: g in LoadDirs(dirs) ==> NumberedGroup(LoadDirs(dirs)[g])
  {
    if dirs != [] {
      LoadDirsNumbered(dirs[..|dirs| - 1]);
      LoadFilesNumbered(dirs[|dirs| - 1].files);
    }
  }

  /** So it is in a server that has just started, whatever its spool holds. */
  lemma BootNumbered(dirs: seq<Dir>, disk: Disk, date: string)
    ensures Numbered(Boot(dirs, disk, date))
  {
    LoadDirsNumbered(dirs);
  }

  /** A server started on an empty spool mirrors it. */
  lemma FreshBootMirrors(disk: Disk, date: string)
    requires NoLF(date) && Flat(disk) && forall name :: !HasDir(disk, name)
    ensures Mirror(Boot([], disk, date)) && Boot([], disk, date).groups != map[]
  {
    var a := Welcome(date);
    var st := Boot([], disk, date);
    assert LoadDirs([]) == map[] && DirIDs([]) == map[];
    WelcomeMirrored(a, date);
    WelcomeName();
    FirstWritten(disk, "local.test", 1, Render(a));
    SeededMirrors("local.test", a, GroupState(map[1 := a], 1, 1), map[Itoa(1) := Render(a)], st);
  }

  lemma FirstWritten(disk: Disk, gname: string, num: nat, text: string)
    requires Flat(disk) && IsName(gname) && forall name :: !HasDir(disk, name)
    ensures var d := Written(disk, gname, num, text);
      Flat(d) && FilesIn(d, gname) == map[Itoa(num) := text] && forall name :: HasDir(d, name) <==> name == gname
  {
    WrittenFlat(disk, gname, num, text);
    assert !HasDir(disk, gname);
  }

  lemma SeededMirrors(gname: string, a: Article, g: GroupState, files: map<string, string>, st: State)
    requires g == GroupState(map[1 := a], 1, 1) && GroupMirrored(g, files) && a.msgID != ""
    requires st.groups == map[gname := g] && st.known == map[a.msgID := a]
    requires Flat(st.disk) && FilesIn(st.disk, gname) == files
    requires forall name :: HasDir(st.disk, name) <==> name == gname
    ensures Mirror(st) && st.groups != map[]
  {
    SeededKnown(gname, a, g, st);
    assert gname in st.groups;
  }

  lemma SeededKnown(gname: string, a: Article, g: GroupState, st: State)
    requires g == GroupState(map[1 := a], 1, 1) && a.msgID != ""
    requires st.groups == map[gname := g] && st.known == map[a.msgID := a]
    ensures KnownIDs(st)
  {
    forall id ensures id in st.known <==> id != "" && HasID(st.groups, id) {
      assert 1 in g.articles && g.articles[1].msgID == a.msgID;
      assert GroupHas(g, a.msgID);
      assert gname in st.groups && GroupHas(st.groups[gname], a.msgID);
    }
  }

  lemma WelcomeName()
    ensures IsName("local.test")
  {
  }

  lemma WelcomeMirrored(a: Article, date: string)
    requires NoLF(date) && a == Welcome(date)
    ensures GroupMirrored(GroupState(map[1 := a], 1, 1), map[Itoa(1) := Render(a)])
  {
    WelcomeStorable(date);
    OneMirrored(a, GroupState(map[1 := a], 1, 1), map[Itoa(1) := Render(a)]);
  }

  lemma OneMirrored(a: Article, g: GroupState, dir: map<string, string>)
    requires Storable(a) && a.number == 1 && g == GroupState(map[1 := a], 1, 1) && dir == map[Itoa(1) := Render(a)]
    ensures GroupMirrored(g, dir)
  {
    AtoiItoa(1);
    assert FileOf(g, dir, 1);
    assert IsArticleFile(g, Itoa(1));
    assert 1 in g.articles;
  }

  lemma WelcomeStorable(date: string)
    requires NoLF(date)
    ensures Storable(Welcome(date))
  {
    WelcomeLines();
    WelcomeIDLine();
    WelcomeBody();
    WelcomeHeader(date);
  }

  lemma WelcomeLines()
    ensures NoLF(WELCOME_GROUP) && NoLF(WELCOME_FROM) && NoLF(WELCOME_SUBJECT)
  {
  }

  lemma WelcomeIDLine()
    ensures NoLF("Message-ID: " + WELCOME_ID)
  {
  }

  lemma WelcomeBody()
    ensures NoLF(WELCOME_BODY)
  {
  }

  lemma WelcomeHeader(date: string)
    ensures Header(Welcome(date).headers, "Message-ID") == WELCOME_ID
  {
    WelcomeFirsts(WELCOME_GROUP, WELCOME_FROM, WELCOME_SUBJECT);
    MessageIDLine(WELCOME_ID);
    FourthHeader(WELCOME_GROUP, WELCOME_FROM, WELCOME_SUBJECT, "Message-ID: " + WELCOME_ID, "Date: " + date);
    TrimSpaceID(WELCOME_ID);
  }

  lemma WelcomeFirsts(a: string, b: string, c: string)
    requires a != "" && b != "" && c != "" && a[0] == 'N' && b[0] == 'F' && c[0] == 'S'
    ensures !IsField(a, "Message-ID") && !IsField(b, "Message-ID") && !IsField(c, "Message-ID")
  {
    NoFieldByFirst(a, 'n');
    NoFieldByFirst(b, 'f');
    NoFieldByFirst(c, 's');
  }

  lemma FourthHeader(a: string, b: string, c: string, line: string, d: string)
    requires !IsField(a, "Message-ID") && !IsField(b, "Message-ID") && !IsField(c, "Message-ID")
    requires IsField(line, "Message-ID")
    ensures Header([a, b, c, line, d], "Message-ID") == TrimSpace(line[|"Message-ID"| + 1..])
  {
    assert [a, b, c, line, d][1..] == [b, c, line, d];
    assert [b, c, line, d][1..] == [c, line, d];
    assert [c, line, d][1..] == [line, d];
    assert Header([line, d], "Message-ID") == TrimSpace(line[|"Message-ID"| + 1..]);
    assert Header([c, line, d], "Message-ID") == Header([line, d], "Message-ID");
    assert Header([b, c, line, d], "Message-ID") == Header([c, line, d], "Message-ID");
  }

  lemma NoFieldByFirst(line: string, c: char)
    requires line != "" && LowerChar(line[0]) == c != 'm'
    ensures !IsField(line, "Message-ID")
  {
    assert ToLower(line)[0] == c;
    assert (ToLower("Message-ID") + ":")[0] == 'm';
  }

  lemma {:induction false} TrimSpaceID(id: string)
    requires id != "" && !IsSpace(id[0]) && !IsSpace(id[|id| - 1])
    ensures TrimSpace(" " + id) == id
  {
    assert (" " + id)[1..] == id;
    assert TrimLeft(" " + id) == TrimLeft(id);
  }
}
