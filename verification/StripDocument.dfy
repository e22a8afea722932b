/**
 What stripHTML makes of a whole document (tools/makhor/pkg/rsspoll/poller.go): its passes against reading the
 document once, piece by piece and line by line.
 */
module StripDocument {
  import opened Common
  import opened Text
  import opened StripHtml

  // ---------- what the tags become ----------

  /** A document in pieces: text outside tags, and the inside of a tag. */
  datatype Piece = Words(text: string) | Tag(body: string)

  predicate PieceOk(p: Piece) {
    match p
    case Words(text) => Bracketless(text)
    case Tag(body) => Bracketless(body)
  }

  /** No bracket inside any piece. */
  predicate AllOk(ps: seq<Piece>) {
    ps == [] || (PieceOk(ps[0]) && AllOk(ps[1..]))
  }

  function Written(p: Piece): string {
    match p
    case Words(text) => text
    case Tag(body) => Bracketed(body)
  }

  function Html(ps: seq<Piece>): string {
    if ps == [] then "" else Written(ps[0]) + Html(ps[1..])
  }

  /** The line breaks that a tag stands for. */
  function Breaks(body: string): string {
    if body == "/p" || body == "/h1" || body == "/h2" || body == "/h3" then "\n\n"
    else if body == "br" || body == "br/" || body == "br /" || body == "/div" || body == "/li" || body == "/tr"
            || body == "/h4" || body == "/blockquote" then "\n"
    else ""
  }

  function ShownPiece(p: Piece): string {
    match p
    case Words(text) => text
    case Tag(body) => Breaks(body)
  }

  /** The document read once from left to right: text as it is, each tag as its line breaks. */
  function Shown(ps: seq<Piece>): string {
    if ps == [] then "" else ShownPiece(ps[0]) + Shown(ps[1..])
  }

  /** A piece after one replacement. */
  function Turn(p: Piece, body: string, sub: string): Piece {
    if p == Tag(body) then Words(sub) else p
  }

  function TurnAll(ps: seq<Piece>, body: string, sub: string): seq<Piece> {
    if ps == [] then [] else [Turn(ps[0], body, sub)] + TurnAll(ps[1..], body, sub)
  }

  /** Text without an opening bracket is passed over. */
  lemma {:induction false} ReplaceAfter(text: string, rest: string, body: string, sub: string)
    requires '<' !in text
    ensures ReplaceAll(text + rest, Bracketed(body), sub) == text + ReplaceAll(rest, Bracketed(body), sub)
  {
    var s := text + rest;
    if text == "" {
      assert s == rest;
    } else {
      ReplaceAfter(text[1..], rest, body, sub);
      assert s[1..] == text[1..] + rest && s[0] == text[0] != Bracketed(body)[0];
      Assoc([text[0]], text[1..], ReplaceAll(rest, Bracketed(body), sub));
      assert [text[0]] + text[1..] == text;
    }
  }

  lemma {:induction false} SameEnd(a: string, b: string, rest: string)
    requires '>' !in a && '>' !in b
    ensures a + ">" <= b + ">" + rest <==> a == b
  {
    var t, s := a + ">", b + ">" + rest;
    if a != "" && b != "" {
      SameEnd(a[1..], b[1..], rest);
      assert t[1..] == a[1..] + ">" && s[1..] == b[1..] + ">" + rest;
      assert t <= s <==> t[0] == s[0] && t[1..] <= s[1..] by {
        assert t == [t[0]] + t[1..] && s == [s[0]] + s[1..];
      }
      assert a == b <==> a[0] == b[0] && a[1..] == b[1..] by {
        assert a == [a[0]] + a[1..] && b == [b[0]] + b[1..];
      }
    } else {
      assert t[0] == if a == "" then '>' else a[0];
      assert s[0] == if b == "" then '>' else b[0];
      assert t <= s ==> t[0] == s[0];
    }
  }

  /** Two tags at the same place are the same tag. */
  lemma SameTag(a: string, b: string, rest: string)
    requires Bracketless(a) && Bracketless(b)
    ensures Bracketed(a) <= Bracketed(b) + rest <==> a == b
  {
    SameEnd(a, b, rest);
    var t, s := a + ">", b + ">" + rest;
    assert Bracketed(a) == "<" + t && Bracketed(b) + rest == "<" + s;
    assert "<" + t <= "<" + s <==> t <= s by {
      assert ("<" + t)[1..] == t && ("<" + s)[1..] == s;
    }
  }

  /** One replacement, at one piece. */
  lemma ReplacePiece(p: Piece, rest: string, body: string, sub: string)
    requires PieceOk(p) && Bracketless(body)
    ensures ReplaceAll(Written(p) + rest, Bracketed(body), sub) ==
            Written(Turn(p, body, sub)) + ReplaceAll(rest, Bracketed(body), sub)
  {
    match p
    case Words(text) =>
      ReplaceAfter(text, rest, body, sub);
    case Tag(b) =>
      var pat, s := Bracketed(body), Bracketed(b) + rest;
      SameTag(body, b, rest);
      if b == body {
        assert s[|pat|..] == rest;
      } else {
        OtherTag(b, rest, body, sub);
      }
  }

  lemma OtherTag(b: string, rest: string, body: string, sub: string)
    requires Bracketless(b) && Bracketless(body) && !(Bracketed(body) <= Bracketed(b) + rest)
    ensures ReplaceAll(Bracketed(b) + rest, Bracketed(body), sub) ==
            Bracketed(b) + ReplaceAll(rest, Bracketed(body), sub)
  {
    var s, more := Bracketed(b) + rest, ReplaceAll(rest, Bracketed(body), sub);
    assert s[0] == '<' && s[1..] == (b + ">") + rest;
    ReplaceAfter(b + ">", rest, body, sub);
    assert "<" + ((b + ">") + more) == Bracketed(b) + more;
  }

  /** One replacement turns exactly the pieces that are this tag. */
  lemma {:induction false} ReplacePieces(ps: seq<Piece>, body: string, sub: string)
    requires AllOk(ps) && Bracketless(body)
    ensures ReplaceAll(Html(ps), Bracketed(body), sub) == Html(TurnAll(ps, body, sub))
  {
    if ps != [] {
      ReplacePieces(ps[1..], body, sub);
      ReplacePiece(ps[0], Html(ps[1..]), body, sub);
      assert TurnAll(ps, body, sub)[1..] == TurnAll(ps[1..], body, sub);
    }
  }

  /** A piece after the first `n` replacements. */
  function Turned(p: Piece, n: nat): Piece
    requires n <= BLOCK_TAGS
  {
    if n == 0 then p else Turn(Turned(p, n - 1), BlockTag(n - 1).0, BlockTag(n - 1).1)
  }

  function AllTurned(ps: seq<Piece>, n: nat): seq<Piece>
    requires n <= BLOCK_TAGS
  {
    if ps == [] then [] else [Turned(ps[0], n)] + AllTurned(ps[1..], n)
  }

  lemma {:induction false} TurnedOk(p: Piece, n: nat)
    requires PieceOk(p) && n <= BLOCK_TAGS
    ensures PieceOk(Turned(p, n))
  {
    if n > 0 {
      TurnedOk(p, n - 1);
    }
  }

  lemma {:induction false} TurnedNext(ps: seq<Piece>, n: nat)
    requires AllOk(ps) && n < BLOCK_TAGS
    ensures AllOk(AllTurned(ps, n))
    ensures TurnAll(AllTurned(ps, n), BlockTag(n).0, BlockTag(n).1) == AllTurned(ps, n + 1)
  {
    if ps != [] {
      TurnedOk(ps[0], n);
      TurnedNext(ps[1..], n);
      assert AllTurned(ps, n)[1..] == AllTurned(ps[1..], n);
    }
  }

  lemma {:induction false} NoneTurned(ps: seq<Piece>)
    ensures AllTurned(ps, 0) == ps
  {
    if ps != [] {
      NoneTurned(ps[1..]);
    }
  }

  lemma {:induction false} ReplacedPieces(ps: seq<Piece>, n: nat)
    requires AllOk(ps) && n <= BLOCK_TAGS
    ensures Replaced(Html(ps), n) == Html(AllTurned(ps, n))
  {
    if n == 0 {
      NoneTurned(ps);
    } else {
      ReplacedPieces(ps, n - 1);
      TurnedNext(ps, n - 1);
      BlockShape(n - 1);
      ReplacePieces(AllTurned(ps, n - 1), BlockTag(n - 1).0, BlockTag(n - 1).1);
    }
  }

  lemma {:induction false} WordsStay(text: string, n: nat)
    requires n <= BLOCK_TAGS
    ensures Turned(Words(text), n) == Words(text)
  {
    if n > 0 {
      WordsStay(text, n - 1);
    }
  }

  lemma {:induction false} TagStays(body: string, n: nat)
    requires n <= BLOCK_TAGS && forall k :: 0 <= k < n ==> BlockTag(k).0 != body
    ensures Turned(Tag(body), n) == Tag(body)
  {
    if n > 0 {
      TagStays(body, n - 1);
    }
  }

  lemma {:induction false} TagTurns(k: nat, n: nat)
    requires k < n <= BLOCK_TAGS
    ensures Turned(Tag(BlockTag(k).0), n) == Words(BlockTag(k).1)
  {
    if k < n - 1 {
      TagTurns(k, n - 1);
    } else {
      forall j | 0 <= j < k ensures BlockTag(j).0 != BlockTag(k).0 {
        TagsDiffer(j, k);
      }
      TagStays(BlockTag(k).0, k);
    }
  }

  lemma TagsDiffer(j: nat, k: nat)
    requires j < k < BLOCK_TAGS
    ensures BlockTag(j).0 != BlockTag(k).0
  {
    var a, b := BlockTag(j).0, BlockTag(k).0;
    assert |a| != |b| || a[|a| - 1] != b[|b| - 1] || a[1] != b[1];
  }

  lemma BreaksAt(k: nat)
    requires k < BLOCK_TAGS
    ensures Breaks(BlockTag(k).0) == BlockTag(k).1
  {
  }

  lemma NoBreaks(body: string)
    requires forall k :: 0 <= k < BLOCK_TAGS ==> BlockTag(k).0 != body
    ensures Breaks(body) == ""
  {
    assert BlockTag(0).0 != body && BlockTag(1).0 != body && BlockTag(2).0 != body && BlockTag(3).0 != body;
    assert BlockTag(4).0 != body && BlockTag(5).0 != body && BlockTag(6).0 != body && BlockTag(7).0 != body;
    assert BlockTag(8).0 != body && BlockTag(9).0 != body && BlockTag(10).0 != body && BlockTag(11).0 != body;
  }

  /** In the end a block tag is its line breaks, and any other tag is what it was. */
  lemma TagTurned(body: string)
    ensures Turned(Tag(body), BLOCK_TAGS) == if Breaks(body) == "" then Tag(body) else Words(Breaks(body))
  {
    if k :| 0 <= k < BLOCK_TAGS && BlockTag(k).0 == body {
      TagTurns(k, BLOCK_TAGS);
      BreaksAt(k);
    } else {
      TagStays(body, BLOCK_TAGS);
      NoBreaks(body);
    }
  }

  lemma {:induction false} DropPieces(ps: seq<Piece>)
    requires AllOk(ps)
    ensures DropTags(Html(AllTurned(ps, BLOCK_TAGS)), false) == Shown(ps)
  {
    if ps != [] {
      var turned, rest := AllTurned(ps, BLOCK_TAGS), Html(AllTurned(ps[1..], BLOCK_TAGS));
      assert turned[1..] == AllTurned(ps[1..], BLOCK_TAGS);
      DropPieces(ps[1..]);
      TurnedOk(ps[0], BLOCK_TAGS);
      if ps[0].Words? {
        WordsStay(ps[0].text, BLOCK_TAGS);
      } else {
        TagTurned(ps[0].body);
      }
      match turned[0]
      case Words(text) => KeepText(text, rest);
      case Tag(body) => SkipBlock(Bracketed(body) + rest, body, rest);
    }
  }

  lemma {:induction false} KeepText(text: string, rest: string)
    requires Bracketless(text)
    ensures DropTags(text + rest, false) == text + DropTags(rest, false)
  {
    if text == "" {
      assert text + rest == rest;
    } else {
      KeepText(text[1..], rest);
      assert (text + rest)[1..] == text[1..] + rest;
      Assoc([text[0]], text[1..], DropTags(rest, false));
      assert [text[0]] + text[1..] == text;
    }
  }

  /** Twelve replacements and a sweep read the document as it would be read once, piece by piece. */
  lemma PiecesShown(ps: seq<Piece>)
    requires AllOk(ps)
    ensures Untagged(Html(ps)) == Shown(ps)
  {
    ReplacedPieces(ps, BLOCK_TAGS);
    DropPieces(ps);
  }

  // ---------- the lines that come out ----------

  /** Some line is not empty. */
  predicate AnyText(ls: seq<string>) {
    ls != [] && (ls[0] != "" || AnyText(ls[1..]))
  }

  /**
   The lines without the empty ones at either end, and with one empty line for any number between two that are not:
   `after` says that the line before was not empty.
   */
  function Spaced(ls: seq<string>, after: bool): seq<string> {
    if ls == [] then []
    else if ls[0] != "" then [ls[0]] + Spaced(ls[1..], true)
    else if after && AnyText(ls) then [""] + Spaced(ls[1..], false)
    else Spaced(ls[1..], false)
  }

  function Newlines(n: nat): (r: string)
    ensures |r| == n && forall k :: 0 <= k < n ==> r[k] == '\n'
  {
    if n == 0 then "" else "\n" + Newlines(n - 1)
  }

  function AtMostTwo(n: nat): nat {
    if n > 2 then 2 else n
  }

  lemma {:induction false} CollapseRun(n: nat, rest: string)
    requires rest == "" || rest[0] != '\n'
    ensures NewlineRun(Newlines(n) + rest) == n
    ensures CollapseNewlines(Newlines(n) + rest) == Newlines(AtMostTwo(n)) + CollapseNewlines(rest)
  {
    var s := Newlines(n) + rest;
    if n == 0 {
      assert s == rest;
    } else {
      CollapseRun(n - 1, rest);
      assert s[1..] == Newlines(n - 1) + rest;
      if n >= 3 {
        assert s[n..] == rest;
        assert Newlines(2) == "\n\n";
      } else {
        Assoc("\n", Newlines(n - 1), CollapseNewlines(rest));
      }
    }
  }

  lemma {:induction false} CollapseOneLine(l: string, rest: string)
    requires '\n' !in l
    ensures CollapseNewlines(l + rest) == l + CollapseNewlines(rest)
  {
    if l == "" {
      assert l + rest == rest;
    } else {
      CollapseOneLine(l[1..], rest);
      assert (l + rest)[1..] == l[1..] + rest && (l + rest)[0] == l[0];
      Assoc([l[0]], l[1..], CollapseNewlines(rest));
      assert l == [l[0]] + l[1..];
    }
  }

  /** What follows a line that is not empty, after `n` newlines. */
  function Following(n: nat, ls: seq<string>): string
    decreases ls
  {
    if !AnyText(ls) then ""
    else if ls[0] != "" then Newlines(AtMostTwo(n)) + ls[0] + Following(1, ls[1..])
    else Following(n + 1, ls[1..])
  }

  lemma NewlineBefore(n: nat, rest: string)
    ensures Newlines(n) + ("\n" + rest) == Newlines(n + 1) + rest
  {
  }

  lemma CollapseAfter(n: nat, l: string, rest: string)
    requires l != "" && '\n' !in l
    ensures CollapseNewlines(Newlines(n) + (l + rest)) == Newlines(AtMostTwo(n)) + l + CollapseNewlines(rest)
  {
    assert (l + rest)[0] == l[0] && l[0] in l;
    CollapseRun(n, l + rest);
    CollapseOneLine(l, rest);
    Assoc(Newlines(AtMostTwo(n)), l, CollapseNewlines(rest));
  }

  lemma CollapseLine(n: nat, l: string, rest: string, more: string, end: string)
    requires l != "" && Neat(l) && EndsTrimmed(more) && CollapseNewlines(rest) == more + end
    ensures var f := Newlines(AtMostTwo(n)) + l + more;
            CollapseNewlines(Newlines(n) + (l + rest)) == f + end && EndsTrimmed(f)
  {
    var f := Newlines(AtMostTwo(n)) + l;
    CollapseAfter(n, l, rest);
    Assoc(f, more, end);
    assert f[|f| - 1] == l[|l| - 1];
    if more != "" {
      assert (f + more)[|f + more| - 1] == more[|more| - 1];
    } else {
      assert f + more == f;
    }
  }

  /** Cutting down the newlines between lines; what is left at the end is space. */
  lemma {:induction false} CollapseLines(n: nat, ls: seq<string>) returns (end: string)
    requires ls != [] && AllNeat(ls)
    ensures Blank(end) && CollapseNewlines(Newlines(n) + Join(ls, '\n')) == Following(n, ls) + end
    ensures EndsTrimmed(Following(n, ls))
    decreases |ls|
  {
    var l, rest := ls[0], ls[1..];
    assert Neat(l);
    if |ls| == 1 {
      if l == "" {
        CollapseRun(n, "");
        end := Newlines(AtMostTwo(n)) + "";
      } else {
        CollapseLine(n, l, "", "", "");
        assert l + "" == l;
        end := "";
      }
    } else {
      var j, n' := Join(rest, '\n'), if l == "" then n + 1 else 1;
      assert AllNeat(rest);
      end := CollapseLines(n', rest);
      assert Join(ls, '\n') == l + ("\n" + j);
      if l == "" {
        NewlineBefore(n, j);
        assert Join(ls, '\n') == "\n" + j;
      } else {
        assert Newlines(1) == "\n";
        CollapseLine(n, l, "\n" + j, Following(1, rest), end);
      }
    }
  }

  lemma {:induction false} NothingLeft(ls: seq<string>, after: bool)
    requires !AnyText(ls)
    ensures Spaced(ls, after) == []
  {
    if ls != [] {
      NothingLeft(ls[1..], false);
    }
  }

  /** Each further line after a newline. */
  function Tail(ls: seq<string>): string {
    if ls == [] then "" else "\n" + ls[0] + Tail(ls[1..])
  }

  lemma {:induction false} JoinTail(l: string, ls: seq<string>)
    ensures Join([l] + ls, '\n') == l + Tail(ls)
    decreases ls
  {
    assert ([l] + ls)[1..] == ls;
    if ls != [] {
      JoinTail(ls[0], ls[1..]);
      assert [ls[0]] + ls[1..] == ls;
      assert l + "\n" + (ls[0] + Tail(ls[1..])) == l + ("\n" + ls[0] + Tail(ls[1..]));
    }
  }

  lemma TailCons(l: string, ls: seq<string>)
    ensures Tail([l] + ls) == "\n" + l + Tail(ls)
  {
    assert ([l] + ls)[1..] == ls;
  }

  /** After one newline comes what Spaced lets follow a line; after more, an empty line first. */
  lemma {:induction false} FollowingSpaced(n: nat, ls: seq<string>)
    requires n >= 1
    ensures Following(n, ls) == if n == 1 then Tail(Spaced(ls, true))
                                else if AnyText(ls) then "\n" + Tail(Spaced(ls, false)) else ""
    decreases ls
  {
    if !AnyText(ls) {
      NothingLeft(ls, true);
    } else if ls[0] != "" {
      FollowingSpaced(1, ls[1..]);
      var rest := Spaced(ls[1..], true);
      TailCons(ls[0], rest);
      assert Newlines(1) == "\n" && Newlines(2) == "\n" + "\n";
      Assoc("\n", "\n", ls[0]);
      Assoc("\n", "\n" + ls[0], Tail(rest));
    } else {
      FollowingSpaced(n + 1, ls[1..]);
      if n == 1 {
        TailCons("", Spaced(ls[1..], false));
        assert "\n" + "" == "\n";
      }
    }
  }

  lemma {:induction false} FollowingStart(n: nat, ls: seq<string>)
    requires AllNeat(ls)
    ensures TrimLeft(Following(n, ls)) == Join(Spaced(ls, false), '\n')
    decreases ls
  {
    if !AnyText(ls) {
      NothingLeft(ls, false);
    } else if ls[0] != "" {
      FollowingSpaced(1, ls[1..]);
      JoinTail(ls[0], Spaced(ls[1..], true));
      Assoc(Newlines(AtMostTwo(n)), ls[0], Following(1, ls[1..]));
      TrimLeftStart(Newlines(AtMostTwo(n)), ls[0] + Following(1, ls[1..]));
    } else {
      FollowingStart(n + 1, ls[1..]);
    }
  }

  /** Tidying a text is tidying its lines and spacing them. */
  lemma TidiedLines(t: string)
    requires Bracketless(t)
    ensures Tidied(t) == Join(Spaced(Lines(Split(t, '\n')), false), '\n')
  {
    var ls := Lines(Split(t, '\n'));
    SplitChars(t, '\n');
    SplitNoSep(t, '\n');
    forall k | 0 <= k < |ls| ensures Neat(ls[k]) {
      LineNeat(Split(t, '\n')[k]);
    }
    var end := CollapseLines(0, ls);
    var f := Following(0, ls);
    assert "" + Join(ls, '\n') == Join(ls, '\n');
    FollowingStart(0, ls);
    TrimBoth(f, end);
  }

  lemma TrimBoth(s: string, end: string)
    requires EndsTrimmed(s) && Blank(end)
    ensures TrimSpace(s + end) == TrimLeft(s)
  {
    var t := TrimLeft(s);
    var a := s[..|s| - |t|];
    LeftBlank(s);
    assert s == a + t;
    Assoc(a, t, end);
    TrimPadded(a, t, end);
  }

  // ---------- whole documents ----------

  /** No space but the blank. */
  predicate BlanksOnly(m: string) {
    forall k :: 0 <= k < |m| ==> IsSpace(m[k]) ==> m[k] == ' '
  }

  lemma AfterWord(m: string, w: string, more: string)
    requires m == w + (" " + more) && Tight(m) && CleanEnds(m) && BlanksOnly(m)
    ensures more != "" && Tight(more) && CleanEnds(more) && BlanksOnly(more)
  {
    var rest := " " + more;
    TightConcat(w, rest);
    TightConcat(" ", more);
    assert m[|m| - 1] == rest[|rest| - 1] && rest[0] == ' ';
    assert forall k :: 0 <= k < |more| ==> more[k] == m[|w| + 1 + k];
  }

  /** The first word of such a line and what follows the space behind it. */
  lemma FirstWord(m: string) returns (w: string, more: string)
    requires m != "" && Tight(m) && CleanEnds(m) && BlanksOnly(m) && Word(m) != m
    ensures m == w + " " + more && Fields(m) == [w] + Fields(more)
    ensures more != "" && Tight(more) && CleanEnds(more) && BlanksOnly(more)
  {
    w := Word(m);
    var rest := m[|w|..];
    more := rest[1..];
    assert m == w + rest && rest[0] == m[|w|];
    assert rest == " " + more;
    Assoc(w, " ", more);
    AfterWord(m, w, more);
    FieldsCons(' ', more);
  }

  lemma {:induction false} SpacesOnlyWords(m: string)
    requires Tight(m) && CleanEnds(m) && BlanksOnly(m)
    ensures m == Join(Fields(m), ' ')
  {
    if m != "" {
      if Word(m) == m {
        assert m[|m|..] == "" && Fields("") == [];
        assert Fields(m) == [m];
      } else {
        var w, more := FirstWord(m);
        SpacesOnlyWords(more);
        assert Fields(m)[1..] == Fields(more) && Fields(more) != [];
      }
    }
  }

  lemma {:induction false} CollapseBlanksChars(l: string)
    ensures forall c :: c in CollapseBlanks(l) ==> c == ' ' || c in l
  {
    if l != "" {
      CollapseBlanksChars(l[if BlankRun(l) >= 1 then BlankRun(l) else 1..]);
    }
  }

  /** A line whose spaces are all blanks becomes its words, one space between them. */
  lemma LineWords(l: string)
    requires Bracketless(l) && forall c :: c in l && IsSpace(c) ==> IsBlank(c)
    ensures Line(l) == Join(Fields(l), ' ')
  {
    var c := CollapseBlanks(l);
    assert '\n' !in l;
    LineNeat(l);
    CollapseBlanksTight(l);
    CollapseBlanksChars(l);
    var a, b := TrimPads(c);
    forall k | 0 <= k < |Line(l)| && IsSpace(Line(l)[k]) ensures Line(l)[k] == ' ' {
      assert Line(l)[k] in a + Line(l) + b;
    }
    SpacesOnlyWords(Line(l));
    FieldsLine(l);
  }

  lemma {:induction false} ShownBracketless(ps: seq<Piece>)
    requires AllOk(ps)
    ensures Bracketless(Shown(ps))
  {
    if ps != [] {
      ShownBracketless(ps[1..]);
    }
  }

  /**
   What comes of a document: its text with the line breaks of its tags, every line tidied, empty lines at either end
   dropped and any number between two others made one; with all its words, and nothing else but space.
   */
  lemma DocumentStripped(ps: seq<Piece>)
    requires AllOk(ps)
    ensures Strip(Html(ps)) == Join(Spaced(Lines(Split(Shown(ps), '\n')), false), '\n')
    ensures Fields(Strip(Html(ps))) == Fields(Shown(ps))
    ensures Strip(Html(ps)) == Shown(ps) <==> NormalForm(Shown(ps))
  {
    PiecesShown(ps);
    ShownBracketless(ps);
    TidiedLines(Shown(ps));
    TidiedWords(Shown(ps));
    TidiedNormal(Shown(ps));
    if NormalForm(Shown(ps)) {
      NormalFixed(Shown(ps));
    }
  }

  lemma OneTag(a: string, body: string, b: string)
    requires Bracketless(a) && Bracketless(b) && Bracketless(body)
    ensures Untagged(a + Bracketed(body) + b) == a + Breaks(body) + b
    ensures Neat(a) && Neat(b) && a != "" && b != "" && Breaks(body) != "" ==>
              Strip(a + Bracketed(body) + b) == a + Breaks(body) + b
  {
    var ps := [Words(a), Tag(body), Words(b)];
    assert ps[1..] == [Tag(body), Words(b)] && ps[1..][1..] == [Words(b)] && [Words(b)][1..] == [];
    assert Html([Words(b)]) == b && Shown([Words(b)]) == b;
    assert Html(ps) == a + (Bracketed(body) + b) && Shown(ps) == a + (Breaks(body) + b);
    Assoc(a, Bracketed(body), b);
    Assoc(a, Breaks(body), b);
    assert AllOk([Words(b)]) && AllOk(ps[1..]);
    PiecesShown(ps);
    if Neat(a) && Neat(b) && a != "" && b != "" && Breaks(body) != "" {
      ApartNormal(a, Breaks(body), b);
      NormalFixed(a + Breaks(body) + b);
    }
  }

  lemma {:induction false} NoTripleOneLine(l: string, rest: string)
    requires '\n' !in l && NoTriple(rest)
    ensures NoTriple(l + rest)
  {
    if l == "" {
      assert l + rest == rest;
    } else {
      NoTripleOneLine(l[1..], rest);
      assert (l + rest)[1..] == l[1..] + rest && (l + rest)[0] == l[0];
    }
  }

  lemma ApartNoTriple(a: string, nl: string, b: string)
    requires '\n' !in a && '\n' !in b && (nl == "\n" || nl == "\n\n")
    ensures NoTriple(a + (nl + b))
  {
    NoTripleOneLine(b, "");
    assert b + "" == b && (b != "" ==> b[0] in b);
    assert NewlineRun(b) == 0;
    OneMore('\n', b);
    TwoNewlines(b);
    NoTripleOneLine(a, nl + b);
  }

  lemma ApartTight(a: string, nl: string, b: string)
    requires Tight(a) && Tight(b) && a != "" && b != "" && (nl == "\n" || nl == "\n\n")
    requires !IsSpace(a[|a| - 1]) && !IsSpace(b[0])
    ensures Tight(a + (nl + b))
  {
    TightConcat(nl, b);
    TightConcat(a, nl + b);
  }

  lemma ApartNormal(a: string, nl: string, b: string)
    requires Neat(a) && Neat(b) && a != "" && b != "" && (nl == "\n" || nl == "\n\n")
    ensures NormalForm(a + nl + b)
  {
    Assoc(a, nl, b);
    ApartNoTriple(a, nl, b);
    ApartTight(a, nl, b);
    var s := a + nl + b;
    assert s[0] == a[0] && s[|s| - 1] == b[|b| - 1];
  }

  /** Two lines that need no tidying, with something on them. */
  predicate TwoLines(a: string, b: string) {
    Neat(a) && Neat(b) && a != "" && b != ""
  }

  lemma TagAt(a: string, k: nat, b: string)
    requires Bracketless(a) && Bracketless(b) && k < BLOCK_TAGS
    ensures Untagged(a + Bracketed(BlockTag(k).0) + b) == a + BlockTag(k).1 + b
    ensures TwoLines(a, b) ==> Strip(a + Bracketed(BlockTag(k).0) + b) == a + BlockTag(k).1 + b
  {
    BlockShape(k);
    BreaksAt(k);
    OneTag(a, BlockTag(k).0, b);
  }

  /** The tags that end a line. */
  ghost predicate EndsLine(tag: string) {
    tag in {"<br>", "<br/>", "<br />", "</div>", "</li>", "</tr>", "</h4>", "</blockquote>"}
  }

  /** The tags that end a paragraph. */
  ghost predicate EndsParagraph(tag: string) {
    tag in {"</p>", "</h1>", "</h2>", "</h3>"}
  }

  lemma TagFound(tag: string) returns (k: nat)
    requires EndsLine(tag) || EndsParagraph(tag)
    ensures k < BLOCK_TAGS && Bracketed(BlockTag(k).0) == tag
    ensures BlockTag(k).1 == if EndsLine(tag) then "\n" else "\n\n"
  {
    AllBracketed();
    k := if tag == "<br>" then 0 else if tag == "<br/>" then 1 else if tag == "<br />" then 2
         else if tag == "</p>" then 3 else if tag == "</div>" then 4 else if tag == "</li>" then 5
         else if tag == "</tr>" then 6 else if tag == "</h1>" then 7 else if tag == "</h2>" then 8
         else if tag == "</h3>" then 9 else if tag == "</h4>" then 10 else 11;
  }

  /** Each of the twelve tags breaks the text it stands in; between two tidy lines that is all that happens. */
  lemma BlockTagBreaks(a: string, tag: string, b: string)
    requires Bracketless(a) && Bracketless(b) && (EndsLine(tag) || EndsParagraph(tag))
    ensures var nl := if EndsLine(tag) then "\n" else "\n\n";
      && Untagged(a + tag + b) == a + nl + b
      && (TwoLines(a, b) ==> Strip(a + tag + b) == a + nl + b)
  {
    var k := TagFound(tag);
    TagAt(a, k, b);
  }
}
