/** What a post leaves in the store (ops/pkgs/nntpd/nntpd.go, post), said without following its loop. */
module NntpPosts {
  import opened Common
  import opened Text
  import opened NntpFraming
  import opened NntpStore
  import opened Spool

  // ---------- header lines ----------

  lemma LowerColon(c: char)
    ensures LowerChar(c) == ':' <==> c == ':'
  {
  }

  /** A header line has the field when it spells its name, in whatever case, and a colon follows. */
  lemma FieldMeaning(line: string, name: string)
    ensures IsField(line, name) <==>
            && |line| > |name| && line[|name|] == ':'
            && forall k :: 0 <= k < |name| ==> LowerChar(line[k]) == LowerChar(name[k])
  {
    var low, pat := ToLower(line), ToLower(name) + ":";
    if |line| > |name| {
      LowerColon(line[|name|]);
      assert pat <= low <==> forall k :: 0 <= k < |pat| ==> pat[k] == low[k];
      assert forall k :: 0 <= k < |name| ==> pat[k] == LowerChar(name[k]) && low[k] == LowerChar(line[k]);
      assert pat[|name|] == ':' && low[|name|] == LowerChar(line[|name|]);
    }
  }

  /** Line `k` is the first one with the field. */
  ghost predicate FirstField(headers: seq<string>, name: string, k: nat)
    requires k < |headers|
  {
    IsField(headers[k], name) && !HasField(headers[..k], name)
  }

  lemma NoFieldLater(headers: seq<string>, name: string, k: nat)
    requires 0 < k <= |headers| && !HasField(headers[..k], name)
    ensures !IsField(headers[0], name) && !HasField(headers[1..][..k - 1], name)
  {
    assert headers[..k][0] == headers[0];
    var rest := headers[1..][..k - 1];
    forall j | 0 <= j < |rest| ensures !IsField(rest[j], name) {
      assert headers[..k][j + 1] == rest[j];
    }
  }

  /** Its value is what the first such line has after the colon, without the space around it. */
  lemma {:induction false} HeaderMeaning(headers: seq<string>, name: string, k: nat)
    requires k < |headers| && FirstField(headers, name, k)
    ensures Header(headers, name) == TrimSpace(headers[k][|name| + 1..])
  {
    if k > 0 {
      NoFieldLater(headers, name, k);
      HeaderMeaning(headers[1..], name, k - 1);
    }
  }

  // ---------- the groups that are named ----------

  /** A newsgroup is named when it stands, with nothing but space around it, between two commas or ends. */
  ghost predicate Named(ngHeader: string, gname: string) {
    gname != "" && CleanEnds(gname) && exists part :: IsPart(ngHeader, ',', part) && PaddedBy(part, gname)
  }

  ghost predicate PaddedBy(part: string, t: string) {
    exists a, b :: Padded(part, a, t, b)
  }

  ghost predicate HasTrim(parts: seq<string>, g: string) {
    exists k :: 0 <= k < |parts| && TrimSpace(parts[k]) == g
  }

  lemma HasTrimSplit(parts: seq<string>, g: string)
    requires parts != []
    ensures HasTrim(parts, g) <==> TrimSpace(parts[0]) == g || HasTrim(parts[1..], g)
  {
    var rest := parts[1..];
    if k :| 0 <= k < |rest| && TrimSpace(rest[k]) == g {
      assert TrimSpace(parts[k + 1]) == g;
    }
    if k :| 0 <= k < |parts| && TrimSpace(parts[k]) == g {
      assert k > 0 ==> TrimSpace(rest[k - 1]) == g;
    }
  }

  lemma {:induction false} TrimsIff(parts: seq<string>, g: string)
    ensures g in Trims(parts) <==> g != "" && HasTrim(parts, g)
  {
    if parts != [] {
      HasTrimSplit(parts, g);
      TrimsIff(parts[1..], g);
      var head := NameIn(parts[0]);
      assert g in head + Trims(parts[1..]) <==> g in head || g in Trims(parts[1..]);
    }
  }

  /** A post goes to exactly the newsgroups that its header names. */
  lemma TargetsIff(headers: seq<string>, g: string)
    ensures g in Targets(headers) <==> Named(Header(headers, "Newsgroups"), g)
  {
    var ng := Header(headers, "Newsgroups");
    var parts := Split(ng, ',');
    TrimsIff(parts, g);
    if k :| 0 <= k < |parts| && TrimSpace(parts[k]) == g {
      TrimMeaning(parts[k], g);
      SplitMeaning(ng, ',', parts[k]);
    }
    if g != "" && CleanEnds(g) {
      if part :| IsPart(ng, ',', part) && PaddedBy(part, g) {
        SplitMeaning(ng, ',', part);
        TrimMeaning(part, g);
        assert part in parts;
      }
    }
  }

  /** A blank part names nobody. */
  lemma TrimsOne(part: string)
    ensures Trims([part]) == if Blank(part) then [] else [TrimSpace(part)]
  {
    BlankIff(part);
    assert [part][1..] == [];
  }

  /** The names come in the order of their parts, each as often as it is there. */
  lemma {:induction false} TrimsConcat(a: seq<string>, b: seq<string>)
    ensures Trims(a + b) == Trims(a) + Trims(b)
  {
    if a == [] {
      assert a + b == b;
      assert Trims(b) == [] + Trims(b);
    } else {
      var first, rest := NameIn(a[0]), Trims(a[1..]);
      TrimsConcat(a[1..], b);
      ConsConcat(a, b);
      TrimsCons(a[0], a[1..] + b);
      Assoc(first, rest, Trims(b));
      assert Trims(a) == first + rest;
    }
  }

  lemma TrimsCons(part: string, parts: seq<string>)
    ensures Trims([part] + parts) == NameIn(part) + Trims(parts)
  {
    assert ([part] + parts)[1..] == parts;
  }

  // ---------- what is filed ----------

  /** A group takes in `k` copies of an article, numbered upwards from one above `high`; all else stays. */
  ghost predicate Gains(g: GroupState, g': GroupState, k: nat, id: string, headers: seq<string>, body: seq<string>) {
    && g'.high == g.high + k
    && g'.low == (if k > 0 && g.low == 0 then g.high + 1 else g.low)
    && (forall n :: n in g'.articles <==> n in g.articles || g.high < n <= g.high + k)
    && (forall n :: n in g.articles && !(g.high < n <= g.high + k) ==> g'.articles[n] == g.articles[n])
    && (forall n :: g.high < n <= g.high + k ==> g'.articles[n] == Article(n, id, headers, body))
  }

  lemma GainsMore(g: GroupState, g1: GroupState, g2: GroupState, j: nat, k: nat,
                  id: string, headers: seq<string>, body: seq<string>)
    requires Gains(g, g1, j, id, headers, body) && Gains(g1, g2, k, id, headers, body)
    ensures Gains(g, g2, j + k, id, headers, body)
  {
  }

  /** The group gains as many copies as it is named, and is there if it was or is named. */
  ghost predicate GroupFiled(st: State, st': State, names: seq<string>, g: string,
                             id: string, headers: seq<string>, body: seq<string>) {
    && (g in st'.groups <==> g in st.groups || g in names)
    && Gains(GroupOf(st, g), GroupOf(st', g), multiset(names)[g], id, headers, body)
  }

  /** The id finds the last copy filed. */
  ghost predicate IDFiled(st: State, st': State, names: seq<string>,
                          id: string, headers: seq<string>, body: seq<string>) {
    if names == [] then st'.known == st.known
    else st'.known == st.known[id := Article(GroupOf(st', names[|names| - 1]).high, id, headers, body)]
  }

  /** The article is filed under every name, as often as it is named; other groups and ids keep what they had. */
  ghost predicate Filed(st: State, st': State, names: seq<string>,
                        id: string, headers: seq<string>, body: seq<string>) {
    (forall g :: GroupFiled(st, st', names, g, id, headers, body)) && IDFiled(st, st', names, id, headers, body)
  }

  lemma DeliverFiled(st: State, gname: string, a: Article)
    ensures Filed(st, Deliver(st, gname, a), [gname], a.msgID, a.headers, a.body)
  {
    forall g ensures GroupFiled(st, Deliver(st, gname, a), [gname], g, a.msgID, a.headers, a.body) {
      GroupDelivered(st, gname, a, g);
    }
  }

  lemma GroupDelivered(st: State, gname: string, a: Article, g: string)
    ensures GroupFiled(st, Deliver(st, gname, a), [gname], g, a.msgID, a.headers, a.body)
  {
    assert multiset([gname])[g] == if g == gname then 1 else 0;
    if g == gname {
      assert GroupOf(Deliver(st, gname, a), g) == Added(GroupOf(st, g), a);
    }
  }

  lemma GroupFiledMore(st: State, st1: State, st2: State, name: string, names: seq<string>, g: string,
                       id: string, headers: seq<string>, body: seq<string>)
    requires GroupFiled(st, st1, [name], g, id, headers, body) && GroupFiled(st1, st2, names, g, id, headers, body)
    ensures GroupFiled(st, st2, [name] + names, g, id, headers, body)
  {
    var j, k := multiset([name])[g], multiset(names)[g];
    assert multiset([name] + names) == multiset([name]) + multiset(names);
    GainsMore(GroupOf(st, g), GroupOf(st1, g), GroupOf(st2, g), j, k, id, headers, body);
  }

  lemma FiledMore(st: State, st1: State, st2: State, name: string, names: seq<string>,
                  id: string, headers: seq<string>, body: seq<string>)
    requires Filed(st, st1, [name], id, headers, body) && Filed(st1, st2, names, id, headers, body)
    ensures Filed(st, st2, [name] + names, id, headers, body)
  {
    forall g ensures GroupFiled(st, st2, [name] + names, g, id, headers, body) {
      GroupFiledMore(st, st1, st2, name, names, g, id, headers, body);
    }
    if names == [] {
      assert [name] + names == [name];
      assert GroupFiled(st1, st2, names, name, id, headers, body);
    }
  }

  lemma NoneFiled(st: State, id: string, headers: seq<string>, body: seq<string>)
    ensures Filed(st, st, [], id, headers, body)
  {
    forall g ensures GroupFiled(st, st, [], g, id, headers, body) {
    }
  }

  lemma {:induction false} DeliverAllFiled(st: State, names: seq<string>, a: Article)
    ensures Filed(st, DeliverAll(st, names, a), names, a.msgID, a.headers, a.body)
    decreases names
  {
    if names == [] {
      NoneFiled(st, a.msgID, a.headers, a.body);
    } else {
      var st1 := Deliver(st, names[0], a);
      DeliverFiled(st, names[0], a);
      DeliverAllFiled(st1, names[1..], a);
      FiledMore(st, st1, DeliverAll(st, names, a), names[0], names[1..], a.msgID, a.headers, a.body);
      assert [names[0]] + names[1..] == names;
    }
  }

  /** The id an article is posted under. */
  function PostedID(a: Article, genID: string): string {
    if a.msgID == "" then genID else a.msgID
  }

  /** The headers it is posted with: a Message-ID line and a Date line are added where there is none. */
  function PostedHeaders(a: Article, genID: string, date: string): seq<string> {
    a.headers
    + (if a.msgID == "" then ["Message-ID: " + genID] else [])
    + (if Header(a.headers, "Date") == "" then ["Date: " + date] else [])
  }

  lemma CompletedAs(a: Article, genID: string, date: string)
    ensures Completed(a, genID, date) ==
            Article(a.number, PostedID(a, genID), PostedHeaders(a, genID, date), a.body)
  {
    var line := "Message-ID: " + genID;
    assert ToLower(line)[0] == 'm' && (ToLower("Date") + ":")[0] == 'd';
    HeaderAppend(a.headers, line, "Date");
    if !HasField(a.headers, "Date") {
      HeaderAbsent(a.headers, "Date");
    }
    assert a.headers + [] == a.headers;
  }

  /** A post is refused without a Newsgroups header; otherwise it is filed under every name in it. */
  lemma PostFiled(st: State, a: Article, genID: string, date: string)
    ensures Posted(st, a, genID, date).Some? <==> Header(a.headers, "Newsgroups") != ""
    ensures Posted(st, a, genID, date).Some? ==>
              Filed(st, Posted(st, a, genID, date).value, Targets(a.headers),
                    PostedID(a, genID), PostedHeaders(a, genID, date), a.body)
  {
    CompletedAs(a, genID, date);
    DeliverAllFiled(st, Targets(a.headers), Completed(a, genID, date));
  }

  // ---------- what a client posts ----------

  lemma {:induction false} AllHeaders(headers: seq<string>)
    requires forall k :: 0 <= k < |headers| ==> headers[k] != ""
    ensures SplitArticle(headers) == (headers, [])
  {
    if headers != [] {
      AllHeaders(headers[1..]);
      assert [headers[0]] + headers[1..] == headers;
    }
  }

  /** The lines up to the first empty one are the headers, those after it the body; without one all are headers. */
  lemma BlockMeaning(headers: seq<string>, body: seq<string>)
    requires forall k :: 0 <= k < |headers| ==> headers[k] != ""
    ensures BlockArticle(headers + [""] + body) == Article(0, Header(headers, "Message-ID"), headers, body)
    ensures BlockArticle(headers) == Article(0, Header(headers, "Message-ID"), headers, [])
  {
    SplitAtBlank(headers, body);
    AllHeaders(headers);
  }
}
