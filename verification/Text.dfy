/**
 The string operations of Go's standard library that the modelled programs rely on.
 A string is a sequence of characters; case folding is ASCII only.
 */
module Text {
  import opened Common

  /** The characters with Unicode's White_Space property. */
  predicate IsSpace(c: char) {
    var n := c as int;
    9 <= n <= 13 || n == 32 || n == 0x85 || n == 0xA0 || n == 0x1680 || 0x2000 <= n <= 0x200A
    || n == 0x2028 || n == 0x2029 || n == 0x202F || n == 0x205F || n == 0x3000
  }

  predicate IsLineEnd(c: char) { c == '\r' || c == '\n' }

  /** strings.TrimRight with the cutset of carriage return and line feed. */
  function TrimEnd(s: string): (r: string)
    ensures r <= s
    ensures r != "" ==> !IsLineEnd(r[|r| - 1])
  {
    if s != "" && IsLineEnd(s[|s| - 1]) then TrimEnd(s[..|s| - 1]) else s
  }

  function TrimRight(s: string): (r: string)
    ensures r <= s
    ensures r != "" ==> !IsSpace(r[|r| - 1])
  {
    if s != "" && IsSpace(s[|s| - 1]) then TrimRight(s[..|s| - 1]) else s
  }

  function TrimLeft(s: string): (r: string)
    ensures |r| <= |s| && r == s[|s| - |r|..]
    ensures r != "" ==> !IsSpace(r[0])
  {
    if s != "" && IsSpace(s[0]) then TrimLeft(s[1..]) else s
  }

  function TrimSpace(s: string): string {
    TrimRight(TrimLeft(s))
  }

  /** Nothing but space. */
  predicate Blank(s: string) {
    forall k :: 0 <= k < |s| ==> IsSpace(s[k])
  }

  lemma {:induction false} BlankIff(s: string)
    ensures TrimSpace(s) == "" <==> Blank(s)
  {
    if s != "" && IsSpace(s[0]) {
      BlankIff(s[1..]);
    } else if s != "" {
      KeepsFirst(s);
    }
  }

  lemma {:induction false} KeepsFirst(s: string)
    requires s != "" && !IsSpace(s[0])
    ensures TrimRight(s) != "" && TrimRight(s)[0] == s[0]
  {
    if IsSpace(s[|s| - 1]) {
      KeepsFirst(s[..|s| - 1]);
    }
  }

  /** The right end is no space. */
  predicate EndsTrimmed(s: string) {
    s == "" || !IsSpace(s[|s| - 1])
  }

  lemma {:induction false} TrimRightEnd(s: string, end: string)
    requires EndsTrimmed(s) && Blank(end)
    ensures TrimRight(s + end) == s
  {
    if end == "" {
      assert s + end == s;
    } else {
      var less := end[..|end| - 1];
      TrimRightEnd(s, less);
      assert (s + end)[..|s + end| - 1] == s + less;
    }
  }

  lemma {:induction false} TrimLeftStart(start: string, s: string)
    requires Blank(start) && (s == "" || !IsSpace(s[0]))
    ensures TrimLeft(start + s) == s
  {
    if start == "" {
      assert start + s == s;
    } else {
      TrimLeftStart(start[1..], s);
      assert (start + s)[1..] == start[1..] + s;
    }
  }

  lemma BlankConcat(a: string, b: string)
    requires Blank(a) && Blank(b)
    ensures Blank(a + b)
  {
  }

  predicate CleanEnds(s: string) {
    s == "" || (!IsSpace(s[0]) && !IsSpace(s[|s| - 1]))
  }

  lemma TrimPadded(a: string, t: string, end: string)
    requires Blank(a) && Blank(end) && CleanEnds(t)
    ensures TrimSpace(a + (t + end)) == t
  {
    if t == "" {
      BlankConcat(a, end);
      TrimLeftStart(a + end, "");
      assert t + end == end && a + end + "" == a + end;
    } else {
      assert (t + end)[0] == t[0];
      TrimLeftStart(a, t + end);
      TrimRightEnd(t, end);
    }
  }

  lemma {:induction false} LeftBlank(s: string)
    ensures Blank(s[..|s| - |TrimLeft(s)|])
  {
    if s != "" && IsSpace(s[0]) {
      LeftBlank(s[1..]);
      var a, b := s[..|s| - |TrimLeft(s)|], s[1..][..|s[1..]| - |TrimLeft(s[1..])|];
      assert a == [s[0]] + b;
    }
  }

  lemma {:induction false} RightBlank(s: string)
    ensures Blank(s[|TrimRight(s)|..])
  {
    if s != "" && IsSpace(s[|s| - 1]) {
      var t := s[..|s| - 1];
      RightBlank(t);
      assert s[|TrimRight(s)|..] == t[|TrimRight(t)|..] + [s[|s| - 1]];
    } else {
      assert s[|s|..] == "";
    }
  }

  ghost predicate Padded(s: string, a: string, t: string, b: string) {
    s == a + t + b && Blank(a) && Blank(b)
  }

  lemma CutEnds(s: string, l: string, r: string) returns (a: string, b: string)
    requires |r| <= |l| <= |s| && l == s[|s| - |l|..] && r <= l
    requires Blank(s[..|s| - |l|]) && Blank(l[|r|..])
    ensures Padded(s, a, r, b)
  {
    a, b := s[..|s| - |l|], l[|r|..];
    assert s == a + l && l == r + b;
    Assoc(a, r, b);
  }

  lemma TrimEnds(s: string)
    ensures CleanEnds(TrimSpace(s))
  {
    var l := TrimLeft(s);
    if l != "" {
      KeepsFirst(l);
    }
  }

  lemma TrimPads(s: string) returns (a: string, b: string)
    ensures Padded(s, a, TrimSpace(s), b) && CleanEnds(TrimSpace(s))
  {
    LeftBlank(s);
    RightBlank(TrimLeft(s));
    a, b := CutEnds(s, TrimLeft(s), TrimRight(TrimLeft(s)));
    TrimEnds(s);
  }

  lemma PadsTrim(s: string, a: string, t: string, b: string)
    requires Padded(s, a, t, b) && CleanEnds(t)
    ensures TrimSpace(s) == t
  {
    Assoc(a, t, b);
    TrimPadded(a, t, b);
  }

  /** strings.TrimSpace leaves the one text that is trimmed and has nothing but space around it. */
  lemma TrimMeaning(s: string, t: string)
    ensures TrimSpace(s) == t <==> CleanEnds(t) && exists a, b :: Padded(s, a, t, b)
  {
    if TrimSpace(s) == t {
      var a, b := TrimPads(s);
      assert Padded(s, a, t, b);
    }
    if CleanEnds(t) {
      if a, b :| Padded(s, a, t, b) {
        PadsTrim(s, a, t, b);
      }
    }
  }

  function LowerChar(c: char): char {
    if 'A' <= c <= 'Z' then c + (32 as char) else c
  }

  function ToLower(s: string): (r: string)
    ensures |r| == |s|
  {
    seq(|s|, k requires 0 <= k < |s| => LowerChar(s[k]))
  }

  /** strings.Split for a separator of one character. */
  function Split(s: string, sep: char): (r: seq<string>)
    ensures |r| >= 1
  {
    if s == "" then [""]
    else
      var rest := Split(s[1..], sep);
      if s[0] == sep then [""] + rest else [[s[0]] + rest[0]] + rest[1..]
  }

  ghost predicate NoneHas(parts: seq<string>, c: char) {
    forall k :: 0 <= k < |parts| ==> c !in parts[k]
  }

  lemma {:induction false} SplitNoSep(s: string, sep: char)
    ensures NoneHas(Split(s, sep), sep)
  {
    if s != "" {
      SplitNoSep(s[1..], sep);
    }
  }

  /** strings.Join for a separator of one character. */
  function Join(parts: seq<string>, sep: char): string {
    if parts == [] then "" else if |parts| == 1 then parts[0]
    else parts[0] + [sep] + Join(parts[1..], sep)
  }

  lemma {:induction false} SplitCons(l: string, rest: string, sep: char)
    requires sep !in l
    ensures Split(l + [sep] + rest, sep) == [l] + Split(rest, sep)
  {
    var s := l + [sep] + rest;
    if l == "" {
      assert s[1..] == rest;
    } else {
      SplitCons(l[1..], rest, sep);
      assert s[1..] == l[1..] + [sep] + rest;
      assert [l[0]] + l[1..] == l;
    }
  }

  lemma {:induction false} SplitLast(l: string, sep: char)
    requires sep !in l
    ensures Split(l, sep) == [l]
  {
    if l != "" {
      SplitLast(l[1..], sep);
      assert [l[0]] + l[1..] == l;
    }
  }

  lemma {:induction false} SplitJoin(parts: seq<string>, sep: char)
    requires parts != [] && NoneHas(parts, sep)
    ensures Split(Join(parts, sep), sep) == parts
  {
    if |parts| == 1 {
      SplitLast(parts[0], sep);
    } else {
      SplitJoin(parts[1..], sep);
      SplitCons(parts[0], Join(parts[1..], sep), sep);
    }
  }

  lemma {:induction false} JoinSplit(s: string, sep: char)
    ensures Join(Split(s, sep), sep) == s
  {
    if s != "" {
      JoinSplit(s[1..], sep);
      var rest := Split(s[1..], sep);
      var all := Split(s, sep);
      if s[0] == sep {
        assert all[1..] == rest;
      } else if |rest| > 1 {
        assert all[1..] == rest[1..];
      }
    }
  }

  /** The part is one of those between the separators. */
  ghost predicate PartAt(s: string, sep: char, before: string, part: string, after: string) {
    [sep] + s + [sep] == before + ([sep] + part + [sep] + after) && sep !in part
  }

  ghost predicate IsPart(s: string, sep: char, part: string) {
    exists before, after :: PartAt(s, sep, before, part, after)
  }

  lemma {:induction false} SplitMiddle(a: string, b: string, sep: char)
    ensures Split(a + [sep] + b, sep) == Split(a, sep) + Split(b, sep)
  {
    var s := a + [sep] + b;
    if a == "" {
      assert s[1..] == b;
    } else {
      SplitMiddle(a[1..], b, sep);
      assert s[1..] == a[1..] + [sep] + b && s[0] == a[0];
      var x, y := Split(a[1..], sep), Split(b, sep);
      if a[0] == sep {
        Assoc([""], x, y);
      } else {
        assert (x + y)[0] == x[0] && (x + y)[1..] == x[1..] + y;
        Assoc([[a[0]] + x[0]], x[1..], y);
      }
    }
  }

  lemma FirstOfJoin(parts: seq<string>, sep: char) returns (after: string)
    requires parts != []
    ensures [sep] + Join(parts, sep) + [sep] == [sep] + parts[0] + [sep] + after
  {
    if |parts| == 1 {
      after := "";
    } else {
      after := Join(parts[1..], sep) + [sep];
    }
  }

  lemma JoinMore(parts: seq<string>, sep: char)
    requires |parts| > 1
    ensures [sep] + Join(parts, sep) + [sep] == ([sep] + parts[0]) + ([sep] + Join(parts[1..], sep) + [sep])
  {
    var first, rest := parts[0], Join(parts[1..], sep);
    Assoc([sep] + first, [sep] + rest, [sep]);
    Assoc([sep] + first, [sep], rest);
    assert [sep] + (first + [sep] + rest) == [sep] + first + [sep] + rest;
  }

  lemma {:induction false} PartOfJoin(parts: seq<string>, sep: char, k: nat) returns (before: string, after: string)
    requires k < |parts|
    ensures [sep] + Join(parts, sep) + [sep] == before + ([sep] + parts[k] + [sep] + after)
  {
    if k == 0 {
      after := FirstOfJoin(parts, sep);
      before := "";
      assert "" + ([sep] + parts[0] + [sep] + after) == [sep] + parts[0] + [sep] + after;
    } else {
      before, after := PartOfJoin(parts[1..], sep, k - 1);
      JoinMore(parts, sep);
      Assoc([sep] + parts[0], before, [sep] + parts[k] + [sep] + after);
      before := [sep] + parts[0] + before;
    }
  }

  lemma FirstPart(part: string, after: string, sep: char)
    requires sep !in part && (after != "" ==> after[0] == sep)
    ensures part in Split(part + after, sep)
  {
    if after == "" {
      SplitLast(part, sep);
      assert part + after == part;
    } else {
      SplitCons(part, after[1..], sep);
      assert part + after == part + [sep] + after[1..];
    }
  }

  /** strings.Split gives exactly what stands between two separators or ends and has none inside. */
  lemma SplitMeaning(s: string, sep: char, part: string)
    ensures part in Split(s, sep) <==> IsPart(s, sep, part)
  {
    var parts := Split(s, sep);
    if k :| 0 <= k < |parts| && parts[k] == part {
      var before, after := PartOfJoin(parts, sep, k);
      JoinSplit(s, sep);
      SplitNoSep(s, sep);
      assert PartAt(s, sep, before, part, after);
    }
    if before, after :| PartAt(s, sep, before, part, after) {
      PartIn(s, sep, before, part, after);
    }
  }

  /** What is between the first separator and the last one. */
  lemma Inside(s: string, sep: char, before: string, part: string, after: string) returns (more: string)
    requires [sep] + s + [sep] == before + ([sep] + part + [sep] + after)
    ensures more == "" || more[0] == sep
    ensures [sep] + s == before + ([sep] + (part + more))
  {
    var all, end := [sep] + s + [sep], [sep] + after;
    more := end[..|end| - 1];
    assert end == more + [end[|end| - 1]];
    assert all == before + ([sep] + (part + end));
    assert all == (before + ([sep] + (part + more))) + [end[|end| - 1]];
    assert all[..|all| - 1] == [sep] + s;
  }

  lemma PartIn(s: string, sep: char, before: string, part: string, after: string)
    requires PartAt(s, sep, before, part, after)
    ensures part in Split(s, sep)
  {
    var more := Inside(s, sep, before, part, after);
    FirstPart(part, more, sep);
    if before == "" {
      assert ([sep] + s)[1..] == s && ([sep] + (part + more))[1..] == part + more;
      assert before + ([sep] + (part + more)) == [sep] + (part + more);
    } else {
      AfterFirst(s, sep, before, part + more);
      SplitMiddle(before[1..], part + more, sep);
    }
  }

  lemma AfterFirst(s: string, sep: char, before: string, rest: string)
    requires before != "" && [sep] + s == before + ([sep] + rest)
    ensures s == before[1..] + [sep] + rest
  {
    assert ([sep] + s)[1..] == s;
    assert (before + ([sep] + rest))[1..] == before[1..] + [sep] + rest;
  }

  /** strings.ReplaceAll for a non-empty pattern. */
  function ReplaceAll(s: string, pat: string, sub: string): string
    requires pat != ""
  {
    if s == "" then ""
    else if pat <= s then sub + ReplaceAll(s[|pat|..], pat, sub)
    else [s[0]] + ReplaceAll(s[1..], pat, sub)
  }

  /** Nothing to replace: some character of the pattern does not occur. */
  lemma {:induction false} ReplaceNothing(s: string, pat: string, sub: string)
    requires pat != "" && pat[0] !in s
    ensures ReplaceAll(s, pat, sub) == s
  {
    if s != "" {
      ReplaceNothing(s[1..], pat, sub);
    }
  }

  /** Replacing line ends: a line without a line feed keeps all its characters. */
  lemma {:induction false} ReplaceCRLF(line: string, rest: string)
    requires '\n' !in line
    ensures ReplaceAll(line + "\r\n" + rest, "\r\n", "\n") == line + "\n" + ReplaceAll(rest, "\r\n", "\n")
  {
    var s := line + "\r\n" + rest;
    if line == "" {
      assert s[2..] == rest;
    } else {
      assert !("\r\n" <= s) by {
        assert s[1] != '\n';
      }
      assert s[1..] == line[1..] + "\r\n" + rest;
      ReplaceCRLF(line[1..], rest);
      assert [line[0]] + (line[1..] + "\n" + ReplaceAll(rest, "\r\n", "\n"))
          == line + "\n" + ReplaceAll(rest, "\r\n", "\n");
    }
  }

  lemma {:induction false} ReplaceLF(line: string, rest: string)
    requires '\n' !in line && (line != "" ==> line[|line| - 1] != '\r')
    ensures ReplaceAll(line + "\n" + rest, "\r\n", "\n") == line + "\n" + ReplaceAll(rest, "\r\n", "\n")
  {
    var s := line + "\n" + rest;
    assert !("\r\n" <= s) by {
      assert line != "" ==> s[0] != '\r' || s[1] != '\n';
      assert line == "" ==> s[0] == '\n';
    }
    if line == "" {
      assert s[1..] == rest;
    } else {
      assert s[1..] == line[1..] + "\n" + rest;
      ReplaceLF(line[1..], rest);
      assert [line[0]] + (line[1..] + "\n" + ReplaceAll(rest, "\r\n", "\n"))
          == line + "\n" + ReplaceAll(rest, "\r\n", "\n");
    }
  }

  lemma {:induction false} ReplaceNoLF(line: string)
    requires '\n' !in line
    ensures ReplaceAll(line, "\r\n", "\n") == line
  {
    if line != "" {
      assert |line| >= 2 ==> line[1] != '\n';
      ReplaceNoLF(line[1..]);
    }
  }

  /** strings.Fields: the maximal runs of non-space characters. */
  function Fields(s: string): (r: seq<string>)
    ensures forall k :: 0 <= k < |r| ==> r[k] != "" && forall c :: c in r[k] ==> !IsSpace(c)
  {
    if s == "" then []
    else if IsSpace(s[0]) then Fields(s[1..])
    else
      var w := Word(s);
      [w] + Fields(s[|w|..])
  }

  /** The longest prefix without a space. */
  function Word(s: string): (w: string)
    ensures w <= s && (forall c :: c in w ==> !IsSpace(c))
    ensures s != "" && !IsSpace(s[0]) ==> w != ""
    ensures |w| < |s| ==> IsSpace(s[|w|])
  {
    if s == "" || IsSpace(s[0]) then "" else [s[0]] + Word(s[1..])
  }

  /** The text starts in the middle of a word. */
  predicate Starts(s: string) {
    s != "" && !IsSpace(s[0])
  }

  lemma FieldsCons(c: char, x: string)
    ensures Starts(x) ==> Fields(x) != []
    ensures Fields([c] + x) == if IsSpace(c) then Fields(x)
                               else if Starts(x) then [[c] + Fields(x)[0]] + Fields(x)[1..]
                               else [[c]] + Fields(x)
  {
    var s := [c] + x;
    assert s[1..] == x;
    if !IsSpace(c) {
      var w := Word(x);
      assert Word(s) == [c] + w;
      assert s[|Word(s)|..] == x[|w|..];
      if Starts(x) {
        assert Fields(x)[1..] == Fields(x[|w|..]);
      } else {
        assert w == "" && x[|w|..] == x && [c] + w == [c];
      }
    }
  }

  /** A space ends a word. */
  lemma {:induction false} FieldsSpace(a: string, c: char, b: string)
    requires IsSpace(c)
    ensures Fields(a + [c] + b) == Fields(a) + Fields(b)
  {
    Assoc(a, [c], b);
    if a == "" {
      FieldsCons(c, b);
      assert a + ([c] + b) == [c] + b;
    } else {
      var x, y := a[1..], a[1..] + [c] + b;
      FieldsSpace(x, c, b);
      Assoc(x, [c], b);
      ConsConcat(a, [c] + b);
      assert a == [a[0]] + x;
      assert y[0] == if x == "" then c else x[0];
      FieldsSameStart(a[0], x, y, Fields(b));
    }
  }

  lemma FieldsSameStart(c: char, x: string, y: string, more: seq<string>)
    requires Fields(y) == Fields(x) + more && (Starts(x) <==> Starts(y))
    ensures Fields([c] + y) == Fields([c] + x) + more
  {
    var fx, fy := Fields(x), Fields(y);
    FieldsCons(c, x);
    FieldsCons(c, y);
    if IsSpace(c) {
    } else if Starts(x) {
      HeadTail(fx, fy, more);
      Assoc([[c] + fx[0]], fx[1..], more);
    } else {
      Assoc([[c]], fx, more);
    }
  }

  lemma {:induction false} FieldsTrimLeft(s: string)
    ensures Fields(TrimLeft(s)) == Fields(s)
  {
    if s != "" && IsSpace(s[0]) {
      FieldsTrimLeft(s[1..]);
    }
  }

  lemma {:induction false} FieldsTrimRight(s: string)
    ensures Fields(TrimRight(s)) == Fields(s)
  {
    if s != "" && IsSpace(s[|s| - 1]) {
      var t := s[..|s| - 1];
      FieldsTrimRight(t);
      FieldsSpace(t, s[|s| - 1], "");
      assert s == t + [s[|s| - 1]] + "";
    }
  }

  lemma FieldsTrim(s: string)
    ensures Fields(TrimSpace(s)) == Fields(s)
  {
    FieldsTrimLeft(s);
    FieldsTrimRight(TrimLeft(s));
  }

  predicate IsWord(w: string) {
    w != "" && forall k :: 0 <= k < |w| ==> !IsSpace(w[k])
  }

  /** `w` is the last word of `s`: what follows it is space, and it is all of a word. */
  ghost predicate LastWordAt(s: string, pre: string, w: string, post: string) {
    s == pre + w + post && IsWord(w) && Blank(post) && (pre == "" || IsSpace(pre[|pre| - 1]))
  }

  lemma {:induction false} FieldsBlank(s: string)
    requires Blank(s)
    ensures Fields(s) == []
  {
    if s != "" {
      assert forall k :: 0 <= k < |s[1..]| ==> s[1..][k] == s[k + 1];
      FieldsBlank(s[1..]);
    }
  }

  lemma WordThenSpace(w: string, post: string)
    requires IsWord(w) && Blank(post)
    ensures Fields(w + post) == [w]
  {
    WordIs(w, post);
    FieldsBlank(post);
    assert (w + post)[|w|..] == post;
  }

  lemma {:induction false} WordIs(w: string, post: string)
    requires (forall k :: 0 <= k < |w| ==> !IsSpace(w[k])) && Blank(post)
    ensures Word(w + post) == w
  {
    if w == "" {
      assert w + post == post;
    } else {
      assert forall k :: 0 <= k < |w[1..]| ==> w[1..][k] == w[k + 1];
      WordIs(w[1..], post);
      assert (w + post)[1..] == w[1..] + post;
      assert w == [w[0]] + w[1..];
    }
  }

  /** The last field of a text that ends in this word. */
  lemma LastFieldIs(s: string, pre: string, w: string, post: string)
    requires LastWordAt(s, pre, w, post)
    ensures Fields(s) != [] && Fields(s)[|Fields(s)| - 1] == w
  {
    WordThenSpace(w, post);
    if pre == "" {
      assert s == w + post;
    } else {
      var before, c := pre[..|pre| - 1], pre[|pre| - 1];
      FieldsSpace(before, c, w + post);
      assert pre == before + [c];
      Assoc(pre, w, post);
    }
  }

  /** A text that is not all space has a last word. */
  lemma {:induction false} LastWord(s: string) returns (pre: string, w: string, post: string)
    requires !Blank(s)
    ensures LastWordAt(s, pre, w, post)
  {
    var init, c := s[..|s| - 1], s[|s| - 1];
    assert s == init + [c];
    if IsSpace(c) {
      pre, w, post := LastWord(init);
      assert pre + w + (post + [c]) == s;
      post := post + [c];
    } else {
      var i := |s| - 1;
      while i > 0 && !IsSpace(s[i - 1])
        invariant 0 <= i < |s| && forall k :: i <= k < |s| ==> !IsSpace(s[k])
      {
        i := i - 1;
      }
      pre, w, post := s[..i], s[i..], "";
      assert pre + w + post == s;
    }
  }

  /** strings.Fields has nothing exactly for space, and otherwise ends with the one word that ends the text. */
  lemma LastField(s: string, w: string)
    ensures Fields(s) == [] <==> Blank(s)
    ensures Fields(s) != [] && Fields(s)[|Fields(s)| - 1] == w <==>
            exists pre, post :: LastWordAt(s, pre, w, post)
  {
    if Blank(s) {
      FieldsBlank(s);
    } else {
      var pre, last, post := LastWord(s);
      LastFieldIs(s, pre, last, post);
    }
    if pre, post :| LastWordAt(s, pre, w, post) {
      LastFieldIs(s, pre, w, post);
    }
  }

  /** strconv.Itoa for a number that is not negative. */
  function Itoa(n: nat): (r: string)
    ensures r != "" && forall k :: 0 <= k < |r| ==> '0' <= r[k] <= '9'
  {
    var d := [('0' as int + n % 10) as char];
    if n < 10 then d else Itoa(n / 10) + d
  }

  function Digits(s: string): (r: Option<nat>) {
    if s == "" || !('0' <= s[|s| - 1] <= '9') then None
    else
      var d := s[|s| - 1] as int - '0' as int;
      if |s| == 1 then Some(d) else
        match Digits(s[..|s| - 1])
        case None => None
        case Some(hi) => Some(10 * hi + d)
  }

  function Unsigned(s: string): string {
    if s != "" && (s[0] == '-' || s[0] == '+') then s[1..] else s
  }

  /** strconv.Atoi: an optional sign and at least one decimal digit. */
  function Atoi(s: string): Option<int> {
    match Digits(Unsigned(s))
    case None => None
    case Some(n) =>
      var v: int := n;
      Some(if s[0] == '-' then -v else v)
  }

  lemma {:induction false} DigitsItoa(n: nat)
    ensures Digits(Itoa(n)) == Some(n)
  {
    if n >= 10 {
      DigitsItoa(n / 10);
      var s := Itoa(n);
      assert s[..|s| - 1] == Itoa(n / 10);
    }
  }

  lemma AtoiItoa(n: nat)
    ensures Atoi(Itoa(n)) == Some(n)
  {
    DigitsItoa(n);
  }

  predicate AllDigits(s: string) {
    forall k :: 0 <= k < |s| ==> '0' <= s[k] <= '9'
  }

  lemma {:induction false} DigitsIff(s: string)
    ensures Digits(s).Some? <==> s != "" && AllDigits(s)
  {
    if s != "" {
      var init := s[..|s| - 1];
      DigitsIff(init);
      assert forall k :: 0 <= k < |init| ==> init[k] == s[k];
    }
  }

  lemma UnsignedAfter(sign: char, d: string)
    requires sign == '-' || sign == '+'
    ensures Unsigned([sign] + d) == d
  {
    assert ([sign] + d)[1..] == d;
  }

  /** Numbers are read as they are written, with a sign or none. */
  lemma AtoiMeaning(n: nat)
    ensures Atoi(Itoa(n)) == Some(n) && Atoi("+" + Itoa(n)) == Some(n) && Atoi("-" + Itoa(n)) == Some(0 - n)
  {
    AtoiItoa(n);
    DigitsItoa(n);
    UnsignedAfter('+', Itoa(n));
    UnsignedAfter('-', Itoa(n));
  }

  /** Nothing but digits after the sign is a number. */
  lemma AtoiIff(s: string)
    ensures Atoi(s).Some? <==> Unsigned(s) != "" && AllDigits(Unsigned(s))
  {
    DigitsIff(Unsigned(s));
  }
}
