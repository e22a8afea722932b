/**
 The HTML-to-text normaliser of the feed poller (tools/makhor/pkg/rsspoll/poller.go, stripHTML).
 Strings are sequences of characters: invalid UTF-8 is not part of this model.
 */
module StripHtml {
  import opened Common
  import opened Text

  // ---------- the passes, as functions ----------

  const BLOCK_TAGS: nat := 12

  /** The insides of the block-level tags and what they turn into, in the order they are replaced. */
  function BlockTag(k: nat): (string, string)
    requires k < BLOCK_TAGS
  {
    match k
    case 0 => ("br", "\n")
    case 1 => ("br/", "\n")
    case 2 => ("br /", "\n")
    case 3 => ("/p", "\n\n")
    case 4 => ("/div", "\n")
    case 5 => ("/li", "\n")
    case 6 => ("/tr", "\n")
    case 7 => ("/h1", "\n\n")
    case 8 => ("/h2", "\n\n")
    case 9 => ("/h3", "\n\n")
    case 10 => ("/h4", "\n")
    case _ => ("/blockquote", "\n")
  }

  function Bracketed(body: string): string {
    "<" + body + ">"
  }

  /** The text after the first `n` replacements. */
  function Replaced(s: string, n: nat): string
    requires n <= BLOCK_TAGS
  {
    if n == 0 then s else ReplaceAll(Replaced(s, n - 1), Bracketed(BlockTag(n - 1).0), BlockTag(n - 1).1)
  }

  /** What is outside angle brackets. */
  function DropTags(s: string, inTag: bool): string {
    if s == "" then ""
    else if s[0] == '<' then DropTags(s[1..], true)
    else if s[0] == '>' then DropTags(s[1..], false)
    else if inTag then DropTags(s[1..], inTag)
    else [s[0]] + DropTags(s[1..], inTag)
  }

  predicate Bracketless(s: string) {
    '<' !in s && '>' !in s
  }

  predicate IsBlank(c: char) { c == ' ' || c == '\t' }

  /** The length of the run of blanks at the front. */
  function BlankRun(s: string): (n: nat)
    ensures n <= |s| && (n < |s| ==> !IsBlank(s[n]))
  {
    if s == "" || !IsBlank(s[0]) then 0 else 1 + BlankRun(s[1..])
  }

  function NewlineRun(s: string): (n: nat)
    ensures n <= |s| && (n < |s| ==> s[n] != '\n')
  {
    if s == "" || s[0] != '\n' then 0 else 1 + NewlineRun(s[1..])
  }

  /** Replacing each run of blanks by one space. */
  function CollapseBlanks(s: string): string {
    if s == "" then ""
    else if BlankRun(s) >= 1 then " " + CollapseBlanks(s[BlankRun(s)..])
    else [s[0]] + CollapseBlanks(s[1..])
  }

  /** Replacing each run of three or more newlines by two. */
  function CollapseNewlines(s: string): string {
    if s == "" then ""
    else if NewlineRun(s) >= 3 then "\n\n" + CollapseNewlines(s[NewlineRun(s)..])
    else [s[0]] + CollapseNewlines(s[1..])
  }

  function Line(l: string): string {
    TrimSpace(CollapseBlanks(l))
  }

  function Lines(ls: seq<string>): (r: seq<string>)
    ensures |r| == |ls| && forall k :: 0 <= k < |ls| ==> r[k] == Line(ls[k])
  {
    seq(|ls|, k requires 0 <= k < |ls| => Line(ls[k]))
  }

  /** The text without its tags. */
  function Untagged(s: string): string {
    DropTags(Replaced(s, BLOCK_TAGS), false)
  }

  /** The last part of stripHTML: every line tidied, runs of newlines cut down, both ends trimmed. */
  function Tidied(text: string): string {
    TrimSpace(CollapseNewlines(Join(Lines(Split(text, '\n')), '\n')))
  }

  function Strip(s: string): string {
    Tidied(Untagged(s))
  }

  lemma AllBracketed()
    ensures Bracketed(BlockTag(0).0) == "<br>" && Bracketed(BlockTag(1).0) == "<br/>"
    ensures Bracketed(BlockTag(2).0) == "<br />" && Bracketed(BlockTag(3).0) == "</p>"
    ensures Bracketed(BlockTag(4).0) == "</div>" && Bracketed(BlockTag(5).0) == "</li>"
    ensures Bracketed(BlockTag(6).0) == "</tr>" && Bracketed(BlockTag(7).0) == "</h1>"
    ensures Bracketed(BlockTag(8).0) == "</h2>" && Bracketed(BlockTag(9).0) == "</h3>"
    ensures Bracketed(BlockTag(10).0) == "</h4>" && Bracketed(BlockTag(11).0) == "</blockquote>"
  {
  }

  /** The first part of stripHTML: block-level tags become newlines. */
  method BreakLines(html: string) returns (s: string)
    ensures s == Replaced(html, BLOCK_TAGS)
  {
    AllBracketed();
    s := html;
    s := ReplaceAll(s, "<br>", "\n");
    assert s == Replaced(html, 1);
    s := ReplaceAll(s, "<br/>", "\n");
    assert s == Replaced(html, 2);
    s := ReplaceAll(s, "<br />", "\n");
    assert s == Replaced(html, 3);
    s := ReplaceAll(s, "</p>", "\n\n");
    assert s == Replaced(html, 4);
    s := ReplaceAll(s, "</div>", "\n");
    assert s == Replaced(html, 5);
    s := ReplaceAll(s, "</li>", "\n");
    assert s == Replaced(html, 6);
    s := ReplaceAll(s, "</tr>", "\n");
    assert s == Replaced(html, 7);
    s := ReplaceAll(s, "</h1>", "\n\n");
    assert s == Replaced(html, 8);
    s := ReplaceAll(s, "</h2>", "\n\n");
    assert s == Replaced(html, 9);
    s := ReplaceAll(s, "</h3>", "\n\n");
    assert s == Replaced(html, 10);
    s := ReplaceAll(s, "</h4>", "\n");
    assert s == Replaced(html, 11);
    s := ReplaceAll(s, "</blockquote>", "\n");
    assert s == Replaced(html, 12);
  }

  method StripHTML(html: string) returns (text: string)
    ensures text == Strip(html)
  {
    var s := BreakLines(html);
    s := DropAll(s);
    text := Tidy(s);
  }

  /** Its middle part: the sweep that leaves out the tags. */
  method DropAll(s: string) returns (result: string)
    ensures result == DropTags(s, false)
  {
    var inTag := false;
    result := "";
    for i := 0 to |s|
      invariant result + DropTags(s[i..], inTag) == DropTags(s, false)
    {
      if s[i] == '<' {
        inTag := true;
      } else if s[i] == '>' {
        inTag := false;
      } else if !inTag {
        AppendNext(result, s, i);
        result := result + [s[i]];
      }
    }
    assert s[|s|..] == "";
  }

  /** Its last part: white space. */
  method Tidy(s: string) returns (text: string)
    ensures text == Tidied(s)
  {
    var lines := TidyLines(Split(s, '\n'));
    text := Join(lines, '\n');
    text := CollapseNewlines(text);
    text := TrimSpace(text);
  }

  method TidyLines(split: seq<string>) returns (lines: seq<string>)
    ensures lines == Lines(split)
  {
    lines := split;
    ghost var tidied := Lines(split);
    for i := 0 to |split|
      invariant lines == Upto(tidied, split, i)
    {
      UptoNext(tidied, split, i);
      lines := lines[i := TrimSpace(CollapseBlanks(lines[i]))];
    }
    UptoAll(tidied, split);
  }

  /** The first `i` elements of `a`, then those of `b`. */
  ghost function Upto<T>(a: seq<T>, b: seq<T>, i: nat): (r: seq<T>)
    requires i <= |a| == |b|
    ensures |r| == |a| && (i == 0 ==> r == b)
  {
    a[..i] + b[i..]
  }

  lemma UptoNext<T>(a: seq<T>, b: seq<T>, i: nat)
    requires i < |a| == |b|
    ensures Upto(a, b, i)[i] == b[i] && Upto(a, b, i)[i := a[i]] == Upto(a, b, i + 1)
  {
  }

  lemma UptoAll<T>(a: seq<T>, b: seq<T>)
    requires |a| == |b|
    ensures Upto(a, b, |a|) == a
  {
  }

  lemma AppendNext(result: string, s: string, i: nat)
    requires i < |s| && s[i] != '<' && s[i] != '>'
    ensures result + DropTags(s[i..], false) == result + [s[i]] + DropTags(s[i + 1..], false)
  {
    assert s[i..][1..] == s[i + 1..];
    Assoc(result, [s[i]], DropTags(s[i + 1..], false));
  }

  // ---------- the normal form ----------

  /** No angle bracket and no tab. */
  predicate Plain(s: string) {
    '<' !in s && '>' !in s && '\t' !in s
  }

  /** Space that does not end a line. */
  predicate Inner(c: char) { IsSpace(c) && c != '\n' }

  predicate Next(a: char, b: char) {
    !(a == ' ' && b == ' ') && !(a == '\n' && Inner(b)) && !(Inner(a) && b == '\n')
  }

  /** No two spaces in a row, and no space around a newline. */
  predicate Tight(s: string) {
    |s| <= 1 || (Next(s[0], s[1]) && Tight(s[1..]))
  }

  predicate NoTriple(s: string) {
    |s| <= 2 || (!(s[0] == '\n' && s[1] == '\n' && s[2] == '\n') && NoTriple(s[1..]))
  }

  /** Neither end is space; or, with `inner`, space that does not end a line. */
  predicate EdgesInner(s: string) {
    s == "" || (!Inner(s[0]) && !Inner(s[|s| - 1]))
  }

  /** No brackets, no tabs, no double spaces, every line trimmed, no blank line twice, no space at the ends. */
  predicate NormalForm(s: string) {
    Plain(s) && Tight(s) && NoTriple(s) && CleanEnds(s)
  }

  lemma {:induction false} TightConcat(a: string, b: string)
    ensures Tight(a + b) <==> Tight(a) && Tight(b) && (a == "" || b == "" || Next(a[|a| - 1], b[0]))
  {
    if a == "" {
      assert a + b == b;
    } else if |a| == 1 {
      assert (a + b)[1..] == b;
    } else {
      TightConcat(a[1..], b);
      assert (a + b)[1..] == a[1..] + b;
    }
  }

  lemma {:induction false} NoTripleParts(a: string, b: string)
    requires NoTriple(a + b)
    ensures NoTriple(a) && NoTriple(b)
  {
    if a == "" {
      assert a + b == b;
    } else {
      assert (a + b)[1..] == a[1..] + b;
      assert |a + b| <= 2 || NoTriple((a + b)[1..]);
      NoTripleParts(a[1..], b);
    }
  }

  lemma TrimNothing(s: string)
    requires CleanEnds(s)
    ensures TrimSpace(s) == s
  {
  }

  // ---------- the output is in normal form ----------

  lemma {:induction false} DropTagsPlain(s: string, inTag: bool)
    ensures '<' !in DropTags(s, inTag) && '>' !in DropTags(s, inTag)
  {
    if s != "" {
      DropTagsPlain(s[1..], if s[0] == '<' then true else if s[0] == '>' then false else inTag);
    }
  }

  /** A line of the output. */
  predicate Neat(l: string) {
    Plain(l) && '\n' !in l && Tight(l) && CleanEnds(l)
  }

  lemma {:induction false} CollapseBlanksTight(l: string)
    requires '<' !in l && '>' !in l && '\n' !in l
    ensures var r := CollapseBlanks(l); Plain(r) && '\n' !in r && Tight(r)
    ensures l != "" ==> CollapseBlanks(l) != "" && CollapseBlanks(l)[0] == (if IsBlank(l[0]) then ' ' else l[0])
  {
    if l != "" {
      var n := if BlankRun(l) >= 1 then BlankRun(l) else 1;
      var head := if BlankRun(l) >= 1 then " " else [l[0]];
      var rest := CollapseBlanks(l[n..]);
      CollapseBlanksTight(l[n..]);
      TightConcat(head, rest);
    }
  }

  lemma LineNeat(l: string)
    requires '<' !in l && '>' !in l && '\n' !in l
    ensures Neat(Line(l))
  {
    CollapseBlanksTight(l);
    var c := CollapseBlanks(l);
    var a, b := TrimPads(c);
    TightConcat(a + TrimSpace(c), b);
    TightConcat(a, TrimSpace(c));
    forall x | x in TrimSpace(c) ensures x in c {
      assert x in a + TrimSpace(c) + b;
    }
  }

  predicate AllNeat(ls: seq<string>) {
    forall k :: 0 <= k < |ls| ==> Neat(ls[k])
  }

  lemma {:induction false} JoinNeat(ls: seq<string>)
    requires AllNeat(ls)
    ensures var s := Join(ls, '\n'); Plain(s) && Tight(s) && EdgesInner(s)
  {
    if |ls| > 1 {
      var rest := Join(ls[1..], '\n');
      JoinNeat(ls[1..]);
      TightConcat(ls[0], "\n");
      TightConcat(ls[0] + "\n", rest);
    }
  }

  lemma {:induction false} NewlineRunOnly(s: string, k: nat)
    requires k < NewlineRun(s)
    ensures s[k] == '\n'
  {
    if k > 0 {
      NewlineRunOnly(s[1..], k - 1);
    }
  }

  /** Collapsing newlines keeps the ends of the text. */
  lemma {:induction false} CollapseNewlinesEnds(s: string)
    ensures var r := CollapseNewlines(s);
            if s == "" then r == "" else r != "" && r[0] == s[0] && r[|r| - 1] == s[|s| - 1]
  {
    if s != "" {
      var n := NewlineRun(s);
      if n >= 3 {
        CollapseNewlinesEnds(s[n..]);
        NewlineRunOnly(s, 0);
        NewlineRunOnly(s, n - 1);
      } else {
        CollapseNewlinesEnds(s[1..]);
      }
    }
  }

  lemma {:induction false} CollapseNewlinesTight(s: string)
    requires Plain(s) && Tight(s)
    ensures var r := CollapseNewlines(s); Plain(r) && Tight(r)
  {
    if s != "" {
      var n := if NewlineRun(s) >= 3 then NewlineRun(s) else 1;
      var rest := CollapseNewlines(s[n..]);
      assert s == s[..n] + s[n..];
      TightConcat(s[..n], s[n..]);
      CollapseNewlinesTight(s[n..]);
      CollapseNewlinesEnds(s[n..]);
      if n == 1 {
        TightConcat([s[0]], rest);
      } else {
        NewlineRunOnly(s, n - 1);
        TightConcat("\n\n", rest);
      }
    }
  }

  lemma {:induction false} CollapseNewlinesNoTriple(s: string)
    ensures NoTriple(CollapseNewlines(s))
    ensures NewlineRun(CollapseNewlines(s)) == if NewlineRun(s) <= 2 then NewlineRun(s) else 2
  {
    if s != "" {
      var n := NewlineRun(s);
      if n >= 3 {
        CollapseNewlinesNoTriple(s[n..]);
        CollapseNewlinesEnds(s[n..]);
        TwoNewlines(CollapseNewlines(s[n..]));
      } else {
        CollapseNewlinesNoTriple(s[1..]);
        OneMore(s[0], CollapseNewlines(s[1..]));
      }
    }
  }

  lemma OneMore(c: char, rest: string)
    requires NoTriple(rest) && (c == '\n' ==> NewlineRun(rest) <= 1)
    ensures NoTriple([c] + rest)
    ensures NewlineRun([c] + rest) == if c == '\n' then 1 + NewlineRun(rest) else 0
  {
    var r := [c] + rest;
    assert r[1..] == rest;
    assert |rest| >= 2 && rest[0] == '\n' && rest[1] == '\n' ==> NewlineRun(rest[1..]) >= 1 && NewlineRun(rest) >= 2;
  }

  lemma TwoNewlines(rest: string)
    requires NoTriple(rest) && (rest != "" ==> rest[0] != '\n')
    ensures NoTriple("\n\n" + rest)
    ensures NewlineRun("\n\n" + rest) == 2
  {
    assert NewlineRun(rest) == 0;
    OneMore('\n', rest);
    OneMore('\n', "\n" + rest);
    Assoc("\n", "\n", rest);
  }

  /** Whatever goes in, a normal form comes out. */
  lemma StripNormal(html: string)
    ensures NormalForm(Strip(html))
  {
    DropTagsPlain(Replaced(html, BLOCK_TAGS), false);
    TidiedNormal(Untagged(html));
  }

  lemma TidiedNormal(t: string)
    requires '<' !in t && '>' !in t
    ensures NormalForm(Tidied(t))
  {
    var ls := Split(t, '\n');
    SplitChars(t, '\n');
    SplitNoSep(t, '\n');
    forall k | 0 <= k < |ls| ensures Neat(Lines(ls)[k]) {
      LineNeat(ls[k]);
    }
    JoinNeat(Lines(ls));
    var j := Join(Lines(ls), '\n');
    CollapseNewlinesTight(j);
    CollapseNewlinesNoTriple(j);
    TrimNormal(CollapseNewlines(j));
  }

  /** So every line that comes out is trimmed and has no run of blanks. */
  lemma StripLines(html: string)
    ensures AllNeat(Split(Strip(html), '\n'))
  {
    var s := Strip(html);
    StripNormal(html);
    LinesNeat(s);
    NeatFirst(s, Split(s, '\n'));
  }

  lemma TrimNormal(s: string)
    requires Plain(s) && Tight(s) && NoTriple(s)
    ensures NormalForm(TrimSpace(s))
  {
    var a, b := TrimPads(s);
    TightConcat(a + TrimSpace(s), b);
    TightConcat(a, TrimSpace(s));
    NoTripleParts(a + TrimSpace(s), b);
    NoTripleParts(a, TrimSpace(s));
    forall x | x in TrimSpace(s) ensures x in s {
      assert x in a + TrimSpace(s) + b;
    }
  }

  ghost predicate Within(parts: seq<string>, s: string) {
    forall k :: 0 <= k < |parts| ==> forall c :: c in parts[k] ==> c in s
  }

  lemma {:induction false} SplitChars(s: string, sep: char)
    ensures Within(Split(s, sep), s)
  {
    if s != "" {
      SplitChars(s[1..], sep);
      var rest := Split(s[1..], sep);
      forall k, c | 0 <= k < |Split(s, sep)| && c in Split(s, sep)[k] ensures c in s {
        if s[0] != sep && k > 0 {
          assert c in rest[k];
        } else if k > 0 {
          assert c in rest[k - 1];
        }
      }
    }
  }

  // ---------- normal forms are left alone ----------

  lemma {:induction false} ReplacedNothing(s: string, n: nat)
    requires '<' !in s && n <= BLOCK_TAGS
    ensures Replaced(s, n) == s
  {
    if n > 0 {
      ReplacedNothing(s, n - 1);
      ReplaceNothing(s, Bracketed(BlockTag(n - 1).0), BlockTag(n - 1).1);
    }
  }

  lemma {:induction false} DropNoTags(s: string)
    requires '<' !in s && '>' !in s
    ensures DropTags(s, false) == s
  {
    if s != "" {
      DropNoTags(s[1..]);
    }
  }

  lemma {:induction false} CollapseTight(l: string)
    requires Tight(l) && '\t' !in l
    ensures CollapseBlanks(l) == l
  {
    if l != "" {
      CollapseTight(l[1..]);
      if |l| > 1 && l[0] == ' ' {
        assert Next(l[0], l[1]);
        assert BlankRun(l[1..]) == 0;
      }
    }
  }

  lemma {:induction false} CollapseNoTriple(s: string)
    requires NoTriple(s)
    ensures CollapseNewlines(s) == s
  {
    if s != "" {
      CollapseNoTriple(s[1..]);
      if NewlineRun(s) >= 3 {
        assert false;
      }
    }
  }

  /** A text cut from the middle of a line of a tight text: only its right end is known to be trimmed. */
  predicate NeatRight(l: string) {
    Plain(l) && '\n' !in l && Tight(l) && (l == "" || !IsSpace(l[|l| - 1]))
  }

  /** The lines of a tight text are neat; of the first one, the left end is that of the text. */
  lemma {:induction false} LinesNeat(s: string)
    requires Plain(s) && Tight(s) && (s == "" || !Inner(s[|s| - 1]))
    ensures var ls := Split(s, '\n');
      && AllNeat(ls[1..]) && NeatRight(ls[0])
      && (ls[0] == "" <==> s == "" || s[0] == '\n')
      && (ls[0] != "" ==> ls[0][0] == s[0])
  {
    if s != "" {
      LinesNeat(s[1..]);
      var ls, rest := Split(s, '\n'), Split(s[1..], '\n');
      if s[0] == '\n' {
        assert ls[1..] == rest;
        NeatFirst(s[1..], rest);
      } else {
        assert ls[1..] == rest[1..];
        assert s[1..] != "" ==> s[1..][0] == s[1] && Next(s[0], s[1]);
        ConsNeat(s[0], rest[0]);
      }
    }
  }

  lemma ConsNeat(c: char, l: string)
    requires Plain([c]) && c != '\n' && NeatRight(l)
    requires if l == "" then !IsSpace(c) else Next(c, l[0])
    ensures NeatRight([c] + l)
  {
    TightConcat([c], l);
    if l != "" {
      assert ([c] + l)[|l|] == l[|l| - 1];
    }
  }

  lemma NeatFirst(s: string, ls: seq<string>)
    requires ls != [] && AllNeat(ls[1..]) && NeatRight(ls[0])
    requires ls[0] != "" ==> s != "" && ls[0][0] == s[0] && !Inner(s[0])
    ensures AllNeat(ls)
  {
    forall k | 0 <= k < |ls| ensures Neat(ls[k]) {
      if k > 0 {
        assert ls[k] == ls[1..][k - 1];
      } else if ls[0] != "" {
        assert ls[0][0] in ls[0];
      }
    }
  }

  /** A text is a normal form exactly when stripping leaves it as it is; stripping twice changes nothing more. */
  lemma StripFixed(s: string)
    ensures Strip(s) == s <==> NormalForm(s)
    ensures Strip(Strip(s)) == Strip(s)
  {
    StripNormal(s);
    NormalFixed(Strip(s));
    if NormalForm(s) {
      NormalFixed(s);
    }
  }

  lemma NormalFixed(s: string)
    requires NormalForm(s)
    ensures Tidied(s) == s && Strip(s) == s
  {
    ReplacedNothing(s, BLOCK_TAGS);
    DropNoTags(s);
    LinesNeat(s);
    var ls := Split(s, '\n');
    NeatFirst(s, ls);
    forall k | 0 <= k < |ls| ensures Line(ls[k]) == ls[k] {
      CollapseTight(ls[k]);
      TrimNothing(ls[k]);
    }
    assert Lines(ls) == ls;
    JoinSplit(s, '\n');
    CollapseNoTriple(s);
    TrimNothing(s);
  }

  // ---------- the words that come out ----------

  lemma {:induction false} FieldsBlankRun(s: string)
    ensures Fields(s[BlankRun(s)..]) == Fields(s)
  {
    if BlankRun(s) > 0 {
      FieldsBlankRun(s[1..]);
      assert s[1..][BlankRun(s[1..])..] == s[BlankRun(s)..];
    }
  }

  lemma {:induction false} FieldsNewlineRun(s: string)
    ensures Fields(s[NewlineRun(s)..]) == Fields(s)
  {
    if NewlineRun(s) > 0 {
      FieldsNewlineRun(s[1..]);
      assert s[1..][NewlineRun(s[1..])..] == s[NewlineRun(s)..];
    }
  }

  lemma {:induction false} FieldsCollapseBlanks(s: string)
    ensures Fields(CollapseBlanks(s)) == Fields(s) && (Starts(CollapseBlanks(s)) <==> Starts(s))
  {
    if s != "" {
      var n := BlankRun(s);
      if n >= 1 {
        FieldsCollapseBlanks(s[n..]);
        FieldsBlankRun(s);
        FieldsCons(' ', CollapseBlanks(s[n..]));
      } else {
        FieldsCollapseBlanks(s[1..]);
        FieldsCons(s[0], CollapseBlanks(s[1..]));
        FieldsCons(s[0], s[1..]);
        assert s == [s[0]] + s[1..];
      }
    }
  }

  lemma FieldsTwoNewlines(rest: string)
    ensures Fields("\n\n" + rest) == Fields(rest)
  {
    FieldsCons('\n', rest);
    FieldsCons('\n', "\n" + rest);
    Assoc("\n", "\n", rest);
  }

  lemma {:induction false} FieldsCollapseNewlines(s: string)
    ensures Fields(CollapseNewlines(s)) == Fields(s) && (Starts(CollapseNewlines(s)) <==> Starts(s))
  {
    if s != "" {
      var n := NewlineRun(s);
      if n >= 3 {
        FieldsCollapseNewlines(s[n..]);
        FieldsNewlineRun(s);
        FieldsTwoNewlines(CollapseNewlines(s[n..]));
      } else {
        FieldsCollapseNewlines(s[1..]);
        FieldsCons(s[0], CollapseNewlines(s[1..]));
        FieldsCons(s[0], s[1..]);
        assert s == [s[0]] + s[1..];
      }
    }
  }

  lemma FieldsLine(l: string)
    ensures Fields(Line(l)) == Fields(l)
  {
    FieldsCollapseBlanks(l);
    FieldsTrim(CollapseBlanks(l));
  }

  lemma {:induction false} FieldsJoin(ls: seq<string>, ms: seq<string>)
    requires |ls| == |ms| && forall k :: 0 <= k < |ls| ==> Fields(ls[k]) == Fields(ms[k])
    ensures Fields(Join(ls, '\n')) == Fields(Join(ms, '\n'))
  {
    if |ls| > 1 {
      FieldsJoin(ls[1..], ms[1..]);
      FieldsSpace(ls[0], '\n', Join(ls[1..], '\n'));
      FieldsSpace(ms[0], '\n', Join(ms[1..], '\n'));
    }
  }

  /** Tidying keeps the words of the text, each as it is: none is cut, and no two are run together. */
  lemma TidiedWords(t: string)
    ensures Fields(Tidied(t)) == Fields(t)
  {
    var ls := Split(t, '\n');
    forall k | 0 <= k < |ls| ensures Fields(Lines(ls)[k]) == Fields(ls[k]) {
      FieldsLine(ls[k]);
    }
    FieldsJoin(Lines(ls), ls);
    JoinSplit(t, '\n');
    var j := Join(Lines(ls), '\n');
    FieldsCollapseNewlines(j);
    FieldsTrim(CollapseNewlines(j));
  }

  // ---------- what is kept ----------

  /** The characters that are not space. */
  function Solid(s: string): string {
    if s == "" then ""
    else if IsSpace(s[0]) then Solid(s[1..])
    else [s[0]] + Solid(s[1..])
  }

  lemma {:induction false} SolidConcat(a: string, b: string)
    ensures Solid(a + b) == Solid(a) + Solid(b)
  {
    if a == "" {
      assert a + b == b;
    } else {
      SolidConcat(a[1..], b);
      assert (a + b)[1..] == a[1..] + b && (a + b)[0] == a[0];
      if !IsSpace(a[0]) {
        var x, y := Solid(a[1..]), Solid(b);
        Assoc([a[0]], x, y);
      }
    }
  }

  lemma {:induction false} SolidBlank(s: string)
    requires forall c :: c in s ==> IsSpace(c)
    ensures Solid(s) == ""
  {
    if s != "" {
      SolidBlank(s[1..]);
    }
  }

  /** The words one after the other. */
  function Flat(words: seq<string>): string {
    if words == [] then "" else words[0] + Flat(words[1..])
  }

  lemma {:induction false} SolidWord(w: string)
    requires forall c :: c in w ==> !IsSpace(c)
    ensures Solid(w) == w
  {
    if w != "" {
      SolidWord(w[1..]);
    }
  }

  lemma {:induction false} SolidWords(s: string)
    ensures Solid(s) == Flat(Fields(s))
  {
    if s != "" {
      if IsSpace(s[0]) {
        SolidWords(s[1..]);
      } else {
        var w := Word(s);
        SolidWords(s[|w|..]);
        SolidConcat(w, s[|w|..]);
        SolidWord(w);
        assert s == w + s[|w|..];
        assert Fields(s)[0] == w && Fields(s)[1..] == Fields(s[|w|..]);
      }
    }
  }

  /** Every word outside tags is kept as it is, in order; so is every character that is not space. */
  lemma StripKeepsUntagged(html: string)
    ensures Fields(Strip(html)) == Fields(Untagged(html))
    ensures Solid(Strip(html)) == Solid(Untagged(html))
  {
    TidiedWords(Untagged(html));
    SolidWords(Strip(html));
    SolidWords(Untagged(html));
  }

  /** No tag opens inside a tag. */
  predicate WellTagged(s: string, inTag: bool) {
    s == "" || (if s[0] == '<' then !inTag && WellTagged(s[1..], true)
                else WellTagged(s[1..], s[0] != '>' && inTag))
  }

  /** Ordinary characters inside, newlines outside. */
  predicate Block(body: string, sub: string) {
    Bracketless(body) && (sub == "\n" || sub == "\n\n")
  }

  lemma BlockShape(k: nat)
    requires k < BLOCK_TAGS
    ensures Block(BlockTag(k).0, BlockTag(k).1)
  {
  }

  /** Inside a tag, everything up to the closing bracket goes. */
  lemma {:induction false} SkipTag(body: string, rest: string)
    requires '<' !in body && '>' !in body
    ensures DropTags(body + ">" + rest, true) == DropTags(rest, false)
    ensures WellTagged(body + ">" + rest, true) == WellTagged(rest, false)
  {
    var s := body + ">" + rest;
    if body == "" {
      assert s[1..] == rest;
    } else {
      SkipTag(body[1..], rest);
      assert s[1..] == body[1..] + ">" + rest;
    }
  }

  /** Text outside tags is kept and a tag is dropped whole, and so on through the rest. */
  lemma {:induction false} TextThenTag(text: string, body: string, rest: string)
    requires '<' !in text && '>' !in text && '<' !in body && '>' !in body
    ensures DropTags(text + "<" + body + ">" + rest, false) == text + DropTags(rest, false)
  {
    var s := text + "<" + body + ">" + rest;
    if text == "" {
      assert s[1..] == body + ">" + rest;
      SkipTag(body, rest);
    } else {
      assert s[1..] == text[1..] + "<" + body + ">" + rest;
      TextThenTag(text[1..], body, rest);
      Assoc([text[0]], text[1..], DropTags(rest, false));
      assert [text[0]] + text[1..] == text;
    }
  }

  lemma KeepNewlines(sub: string, rest: string)
    requires sub == "\n" || sub == "\n\n"
    ensures DropTags(sub + rest, false) == sub + DropTags(rest, false)
    ensures WellTagged(sub + rest, false) == WellTagged(rest, false)
  {
    assert ("\n" + rest)[1..] == rest;
    if sub == "\n\n" {
      assert (sub + rest)[1..] == "\n" + rest;
      Assoc("\n", "\n", DropTags(rest, false));
    }
  }

  lemma SkipBlock(s: string, body: string, rest: string)
    requires Bracketless(body) && s == Bracketed(body) + rest
    ensures s[0] == '<' && DropTags(s[1..], true) == DropTags(rest, false)
    ensures WellTagged(s[1..], true) == WellTagged(rest, false)
  {
    assert s[1..] == body + ">" + rest;
    SkipTag(body, rest);
  }

  /** Turning a block tag into newlines first changes no text, if no tag opens inside a tag. */
  lemma {:induction false} ReplaceBlock(s: string, body: string, sub: string, inTag: bool)
    requires Block(body, sub) && WellTagged(s, inTag)
    ensures WellTagged(ReplaceAll(s, Bracketed(body), sub), inTag)
    ensures Solid(DropTags(ReplaceAll(s, Bracketed(body), sub), inTag)) == Solid(DropTags(s, inTag))
  {
    var pat := Bracketed(body);
    if s == "" {
    } else if pat <= s {
      var rest := s[|pat|..];
      SkipBlock(s, body, rest);
      ReplaceBlock(rest, body, sub, false);
      var r := ReplaceAll(rest, pat, sub);
      KeepNewlines(sub, r);
      SolidConcat(sub, DropTags(r, false));
      SolidBlank(sub);
    } else {
      var r := ReplaceAll(s[1..], pat, sub);
      ReplaceBlock(s[1..], body, sub, if s[0] == '<' then true else if s[0] == '>' then false else inTag);
      assert ([s[0]] + r)[1..] == r;
    }
  }

  lemma {:induction false} ReplacedKeeps(s: string, n: nat)
    requires WellTagged(s, false) && n <= BLOCK_TAGS
    ensures WellTagged(Replaced(s, n), false)
    ensures Solid(DropTags(Replaced(s, n), false)) == Solid(DropTags(s, false))
  {
    if n > 0 {
      ReplacedKeeps(s, n - 1);
      BlockShape(n - 1);
      ReplaceBlock(Replaced(s, n - 1), BlockTag(n - 1).0, BlockTag(n - 1).1, false);
    }
  }

  /** If no tag opens inside a tag, what stays is the text outside all tags, up to space. */
  lemma StripKeepsText(html: string)
    requires WellTagged(html, false)
    ensures Solid(Strip(html)) == Solid(DropTags(html, false))
  {
    StripKeepsUntagged(html);
    ReplacedKeeps(html, BLOCK_TAGS);
  }
}
