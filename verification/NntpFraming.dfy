/**
 Multi-line blocks on the wire (RFC 3977, section 3.1.1): the server's writer and reader
 (ops/pkgs/nntpd/nntpd.go), the client's reader and its POST writer (ops/pkgs/nntpc/nntpc.go).
 */
module NntpFraming {
  import opened Common
  import opened Text

  const CRLF: string := "\r\n"

  datatype Block = Block(lines: seq<string>, rest: string)

  // ---------- writing ----------

  function WithDot(line: string): string {
    if "." <= line then "." + line else line
  }

  function Stuffed(line: string): string {
    WithDot(line) + CRLF
  }

  function StuffedLines(lines: seq<string>): string {
    if lines == [] then "" else Stuffed(lines[0]) + StuffedLines(lines[1..])
  }

  function DotBlock(lines: seq<string>): string {
    StuffedLines(lines) + "." + CRLF
  }

  // ---------- reading ----------

  /** ReadString('\n'): everything up to and including the first line feed, or an error. */
  function CutLine(s: string): (r: Option<(string, string)>)
    ensures r.Some? ==> r.value.0 + r.value.1 == s && r.value.0 != ""
    ensures r.None? <==> '\n' !in s
  {
    if s == "" then None
    else if s[0] == '\n' then Some(("\n", s[1..]))
    else
      match CutLine(s[1..])
      case None => None
      case Some(cut) => Some(([s[0]] + cut.0, cut.1))
  }

  function Unstuffed(line: string): string {
    if ".." <= line then line[1..] else line
  }

  /** The lines up to a lone dot, and what follows it; an error when the input ends first. */
  function ReadBlock(s: string): Option<Block>
    decreases |s|
  {
    match CutLine(s)
    case None => None
    case Some((line, rest)) =>
      if TrimEnd(line) == "." then Some(Block([], rest))
      else Prepend([Unstuffed(TrimEnd(line))], ReadBlock(rest))
  }

  function Prepend(lines: seq<string>, r: Option<Block>): Option<Block> {
    if r.None? then None else Some(Block(lines + r.value.lines, r.value.rest))
  }

  lemma PrependTwice(a: seq<string>, b: seq<string>, r: Option<Block>)
    ensures Prepend(a, Prepend(b, r)) == Prepend(a + b, r)
    ensures Prepend([], r) == r
  {
    if r.Some? {
      assert a + (b + r.value.lines) == a + b + r.value.lines && [] + r.value.lines == r.value.lines;
    }
  }

  /** One end of a connection: the bytes still to be read and those written. */
  class Conn {
    var input: string
    var output: string

    constructor (bytes: string)
      ensures input == bytes && output == ""
    {
      input, output := bytes, "";
    }

    /** The server's writeDotBlock. */
    method WriteDotBlock(lines: seq<string>)
      modifies this`output
      ensures output == old(output) + DotBlock(lines)
    {
      WriteStuffed(lines);
      output := output + "." + CRLF;
    }

    method WriteStuffed(lines: seq<string>)
      modifies this`output
      ensures output == old(output) + StuffedLines(lines)
    {
      for i := 0 to |lines|
        invariant output + StuffedLines(lines[i..]) == old(output) + StuffedLines(lines)
      {
        ghost var before := output;
        if "." <= lines[i] {
          output := output + ".";
        }
        output := output + lines[i];
        output := output + CRLF;
        StuffedWhole(before, lines[i]);
        StuffedStep(lines, i, before);
      }
    }

    /** The client's half of POST, once the server has agreed (editAndPostArticle). */
    method SendArticle(headerBlock: string, bodyBlock: string)
      modifies this`output
      ensures output == old(output) + PostBytes(headerBlock, bodyBlock)
    {
      WriteHeaders(Split(headerBlock, '\n'));
      output := output + CRLF;
      WriteDotBlock(Split(bodyBlock, '\n'));
      ghost var heads := PlainLines(NonBlank(Split(headerBlock, '\n')));
      AppendAssoc(old(output), heads, CRLF, DotBlock(Split(bodyBlock, '\n')));
    }

    /** Its first loop: the header lines that are not blank, unstuffed. */
    method WriteHeaders(lines: seq<string>)
      modifies this`output
      ensures output == old(output) + PlainLines(NonBlank(lines))
    {
      ghost var before := output;
      for i := 0 to |lines|
        invariant output == before + PlainLines(NonBlank(lines[..i]))
      {
        NonBlankStep(lines, i);
        BlankIff(lines[i]);
        if TrimSpace(lines[i]) != "" {
          PlainStep(NonBlank(lines[..i]), lines[i]);
          Assoc(before, PlainLines(NonBlank(lines[..i])), lines[i] + CRLF);
          output := output + (lines[i] + CRLF);
        }
      }
      assert lines[..|lines|] == lines;
    }

    /** The server's readDotBlock and the client's readDotLines; None is their error return. */
    method ReadDotBlock() returns (r: Option<seq<string>>)
      modifies this`input
      ensures match ReadBlock(old(input))
              case Some(b) => r == Some(b.lines) && input == b.rest
              case None => r == None
    {
      var lines: seq<string> := [];
      PrependTwice([], [], ReadBlock(input));
      while true
        invariant ReadBlock(old(input)) == Prepend(lines, ReadBlock(input))
        decreases |input|
      {
        var cut := CutLine(input);
        if cut.None? {
          return None;
        }
        input := cut.value.1;
        var line := TrimEnd(cut.value.0);
        if line == "." {
          assert lines + [] == lines;
          return Some(lines);
        }
        if ".." <= line {
          line := line[1..];
        }
        PrependTwice(lines, [line], ReadBlock(input));
        lines := lines + [line];
      }
    }
  }

  // ---------- posting an article ----------

  function NonBlank(lines: seq<string>): seq<string> {
    if lines == [] then []
    else
      var last := lines[|lines| - 1];
      NonBlank(lines[..|lines| - 1]) + if Blank(last) then [] else [last]
  }

  lemma {:induction false} NonBlankMeaning(lines: seq<string>, c: char)
    ensures forall k :: 0 <= k < |NonBlank(lines)| ==> !Blank(NonBlank(lines)[k])
    ensures NoneHas(lines, c) ==> NoneHas(NonBlank(lines), c)
  {
    if lines != [] {
      NonBlankMeaning(lines[..|lines| - 1], c);
    }
  }

  lemma NonBlankStep(lines: seq<string>, i: nat)
    requires i < |lines|
    ensures NonBlank(lines[..i + 1])
         == if Blank(lines[i]) then NonBlank(lines[..i]) else NonBlank(lines[..i]) + [lines[i]]
  {
    assert lines[..i + 1][..i] == lines[..i];
  }

  /** Header lines go out as they are, not stuffed. */
  function PlainLines(lines: seq<string>): string {
    if lines == [] then "" else lines[0] + CRLF + PlainLines(lines[1..])
  }

  lemma {:induction false} PlainStep(lines: seq<string>, line: string)
    ensures PlainLines(lines + [line]) == PlainLines(lines) + (line + CRLF)
  {
    if lines == [] {
      assert [line][1..] == [];
    } else {
      PlainStep(lines[1..], line);
      assert (lines + [line])[1..] == lines[1..] + [line];
    }
  }

  lemma {:induction false} PlainConcat(a: seq<string>, b: seq<string>)
    ensures PlainLines(a + b) == PlainLines(a) + PlainLines(b)
  {
    if a == [] {
      assert a + b == b;
    } else {
      PlainConcat(a[1..], b);
      assert (a + b)[1..] == a[1..] + b;
      Assoc(a[0] + CRLF, PlainLines(a[1..]), PlainLines(b));
    }
  }

  /** The three writes of a line make up the stuffed line. */
  lemma StuffedWhole(before: string, line: string)
    ensures (if "." <= line then before + "." else before) + line + CRLF == before + Stuffed(line)
  {
    if "." <= line {
      AppendAssoc(before, ".", line, CRLF);
      Assoc(".", line, CRLF);
    } else {
      Assoc(before, line, CRLF);
    }
  }

  lemma StuffedStep(lines: seq<string>, i: nat, before: string)
    requires i < |lines|
    ensures before + Stuffed(lines[i]) + StuffedLines(lines[i + 1..]) == before + StuffedLines(lines[i..])
  {
    assert lines[i..][1..] == lines[i + 1..];
  }

  /** strings.SplitN(text, "\n\n", 2), with an empty body when there is no blank line. */
  function HeadBody(text: string): (string, string) {
    if text == "" then ("", "")
    else if "\n\n" <= text then ("", text[2..])
    else
      var (head, body) := HeadBody(text[1..]);
      ([text[0]] + head, body)
  }

  /** What the client sends for the file its editor left. */
  function ComposedBytes(text: string): string {
    var (head, body) := HeadBody(ReplaceAll(text, CRLF, "\n"));
    PostBytes(head, body)
  }

  function PostBytes(headerBlock: string, bodyBlock: string): string {
    PlainLines(NonBlank(Split(headerBlock, '\n'))) + CRLF + DotBlock(Split(bodyBlock, '\n'))
  }

  /** The lines before the first empty one, and those after it. */
  function SplitArticle(lines: seq<string>): (r: (seq<string>, seq<string>))
    ensures |r.0| <= |lines|
  {
    if lines == [] then ([], [])
    else if lines[0] == "" then ([], lines[1..])
    else
      var (headers, body) := SplitArticle(lines[1..]);
      ([lines[0]] + headers, body)
  }

  /** The loop of cmdPost, and the first two loops of parseArticle. */
  method SplitLines(lines: seq<string>) returns (headers: seq<string>, body: seq<string>)
    ensures (headers, body) == SplitArticle(lines)
  {
    headers := [];
    var i := 0;
    assert lines[0..] == lines;
    while i < |lines| && lines[i] != ""
      invariant 0 <= i <= |lines|
      invariant SplitArticle(lines).0 == headers + SplitArticle(lines[i..]).0
      invariant SplitArticle(lines).1 == SplitArticle(lines[i..]).1
    {
      assert lines[i..][0] == lines[i] && lines[i..][1..] == lines[i + 1..];
      ghost var more := SplitArticle(lines[i + 1..]).0;
      assert headers + ([lines[i]] + more) == headers + [lines[i]] + more;
      headers := headers + [lines[i]];
      i := i + 1;
    }
    assert i < |lines| ==> lines[i..][0] == "" && lines[i..][1..] == lines[i + 1..];
    assert headers + [] == headers;
    body := if i < |lines| then lines[i + 1..] else [];
  }

  // ---------- the round trip ----------

  ghost predicate NoLF(line: string) {
    '\n' !in line
  }

  predicate EndsInCR(line: string) {
    line != "" && line[|line| - 1] == '\r'
  }

  function Trimmed(lines: seq<string>): (r: seq<string>)
    ensures |r| == |lines| && forall k :: 0 <= k < |lines| ==> r[k] == TrimEnd(lines[k])
  {
    seq(|lines|, k requires 0 <= k < |lines| => TrimEnd(lines[k]))
  }

  lemma {:induction false} CutFirst(line: string, rest: string)
    requires NoLF(line)
    ensures CutLine(line + CRLF + rest) == Some((line + CRLF, rest))
  {
    var s := line + CRLF + rest;
    if line == "" {
      assert s[1..][1..] == rest;
      assert CutLine(s[1..]) == Some(("\n", rest));
      assert ['\r'] + "\n" == CRLF;
    } else {
      CutFirst(line[1..], rest);
      assert s[1..] == line[1..] + CRLF + rest;
      assert [line[0]] + (line[1..] + CRLF) == line + CRLF;
    }
  }

  lemma TrimCRLF(line: string)
    ensures TrimEnd(line + CRLF) == TrimEnd(line)
  {
    var s := line + CRLF;
    assert s[..|s| - 1] == line + "\r";
    assert (line + "\r")[..|line|] == line;
  }

  lemma {:induction false} TrimDot(line: string)
    ensures TrimEnd("." + line) == "." + TrimEnd(line)
  {
    var s := "." + line;
    if line == "" {
      assert s == ".";
    } else if IsLineEnd(line[|line| - 1]) {
      assert s[..|s| - 1] == "." + line[..|line| - 1];
      TrimDot(line[..|line| - 1]);
    }
  }

  /** A stuffed line is never the closing dot, and loses exactly the added dot again. */
  lemma UnstuffedWithDot(line: string)
    ensures TrimEnd(WithDot(line)) != "." && Unstuffed(TrimEnd(WithDot(line))) == TrimEnd(line)
  {
    if "." <= line {
      var tail := line[1..];
      assert line == "." + tail;
      TrimDot(line);
      TrimDot(tail);
      assert TrimEnd(WithDot(line)) == "." + ("." + TrimEnd(tail));
    } else {
      assert line != "" ==> line[0] != '.';
      assert TrimEnd(line) != "" ==> TrimEnd(line)[0] == line[0];
    }
  }

  /** One line read: as sent, without the carriage returns at its end. */
  lemma ReadStuffed(line: string, rest: string)
    requires NoLF(line)
    ensures ReadBlock(Stuffed(line) + rest) == Prepend([TrimEnd(line)], ReadBlock(rest))
  {
    var sent := WithDot(line);
    CutFirst(sent, rest);
    TrimCRLF(sent);
    UnstuffedWithDot(line);
  }

  /** Whatever was sent comes back, but for carriage returns at line ends; later bytes are untouched. */
  lemma {:induction false} ReadWritten(lines: seq<string>, rest: string)
    requires NoneHas(lines, '\n')
    ensures ReadBlock(DotBlock(lines) + rest) == Some(Block(Trimmed(lines), rest))
  {
    if lines == [] {
      ReadClosingDot(rest);
      assert DotBlock(lines) == "." + CRLF;
    } else {
      var tail := DotBlock(lines[1..]) + rest;
      DotBlockStep(lines);
      Assoc(Stuffed(lines[0]), DotBlock(lines[1..]), rest);
      ReadWritten(lines[1..], rest);
      ReadStuffed(lines[0], tail);
      TrimmedStep(lines);
    }
  }

  lemma TrimmedStep(lines: seq<string>)
    requires lines != []
    ensures [TrimEnd(lines[0])] + Trimmed(lines[1..]) == Trimmed(lines)
  {
  }

  lemma DotBlockStep(lines: seq<string>)
    requires lines != []
    ensures DotBlock(lines) == Stuffed(lines[0]) + DotBlock(lines[1..])
  {
    AppendAssoc(Stuffed(lines[0]), StuffedLines(lines[1..]), ".", CRLF);
  }

  lemma ReadClosingDot(rest: string)
    ensures ReadBlock("." + CRLF + rest) == Some(Block([], rest))
  {
    CutFirst(".", rest);
    TrimCRLF(".");
  }

  lemma TrimEndIff(line: string)
    requires NoLF(line)
    ensures TrimEnd(line) == line <==> !EndsInCR(line)
  {
  }

  /** The block comes back unchanged exactly when no line ends in a carriage return. */
  lemma RoundTripIff(lines: seq<string>, rest: string)
    requires NoneHas(lines, '\n')
    ensures ReadBlock(DotBlock(lines) + rest) == Some(Block(lines, rest))
            <==> forall k :: 0 <= k < |lines| ==> !EndsInCR(lines[k])
  {
    ReadWritten(lines, rest);
    BodySame(lines);
  }

  // ---------- a posted article ----------

  function Received(line: string): string {
    Unstuffed(TrimEnd(line))
  }

  function AllReceived(lines: seq<string>): (r: seq<string>)
    ensures |r| == |lines| && forall k :: 0 <= k < |lines| ==> r[k] == Received(lines[k])
  {
    seq(|lines|, k requires 0 <= k < |lines| => Received(lines[k]))
  }

  /** What a header line must not be, since it is not stuffed. */
  predicate Intact(line: string) {
    !EndsInCR(line) && line != "." && !(".." <= line)
  }

  lemma IntactIff(line: string)
    requires NoLF(line)
    ensures Intact(line) <==> Received(line) == line && TrimEnd(line) != "."
  {
    TrimEndIff(line);
    if TrimEnd(line) == line {
    } else {
      assert |Received(line)| <= |TrimEnd(line)| < |line|;
    }
  }

  lemma ReadPlain(line: string, rest: string)
    requires NoLF(line)
    ensures ReadBlock(line + CRLF + rest) ==
            if TrimEnd(line) == "." then Some(Block([], rest)) else Prepend([Received(line)], ReadBlock(rest))
  {
    CutFirst(line, rest);
    TrimCRLF(line);
  }

  /** Header lines that are no lone dot are all read, each as `Received`. */
  lemma {:induction false} ReadHeads(heads: seq<string>, tail: string)
    requires NoneHas(heads, '\n') && forall k :: 0 <= k < |heads| ==> TrimEnd(heads[k]) != "."
    ensures ReadBlock(PlainLines(heads) + tail) == Prepend(AllReceived(heads), ReadBlock(tail))
  {
    if heads == [] {
      assert PlainLines(heads) + tail == tail;
      PrependTwice([], [], ReadBlock(tail));
    } else {
      var more := PlainLines(heads[1..]) + tail;
      Assoc(heads[0] + CRLF, PlainLines(heads[1..]), tail);
      ReadHeads(heads[1..], tail);
      ReadPlain(heads[0], more);
      PrependTwice([Received(heads[0])], AllReceived(heads[1..]), ReadBlock(tail));
      assert [Received(heads[0])] + AllReceived(heads[1..]) == AllReceived(heads);
    }
  }

  /** The first header line that is a lone dot, or the number of lines when there is none. */
  function LoneDot(heads: seq<string>): (d: nat)
    ensures d <= |heads| && (d < |heads| ==> TrimEnd(heads[d]) == ".")
    ensures forall k :: 0 <= k < d ==> TrimEnd(heads[k]) != "."
  {
    if heads == [] || TrimEnd(heads[0]) == "." then 0 else 1 + LoneDot(heads[1..])
  }

  /** The first such line ends the article: the lines before it arrive, and all after it stays unread. */
  lemma LoneDotStops(heads: seq<string>, tail: string)
    requires NoneHas(heads, '\n') && LoneDot(heads) < |heads|
    ensures var d := LoneDot(heads);
            ReadBlock(PlainLines(heads) + tail)
            == Some(Block(AllReceived(heads[..d]), PlainLines(heads[d + 1..]) + tail))
  {
    var d := LoneDot(heads);
    var before, from, more := heads[..d], heads[d..], PlainLines(heads[d + 1..]) + tail;
    CutAt(heads, d);
    PlainConcat(before, from);
    Assoc(PlainLines(before), PlainLines(from), tail);
    Assoc(heads[d] + CRLF, PlainLines(heads[d + 1..]), tail);
    ReadHeads(before, heads[d] + CRLF + more);
    ReadPlain(heads[d], more);
    EmptyRight(AllReceived(before));
  }

  lemma {:induction false} SplitAtBlank(headers: seq<string>, body: seq<string>)
    requires forall k :: 0 <= k < |headers| ==> headers[k] != ""
    ensures SplitArticle(headers + [""] + body) == (headers, body)
  {
    if headers != [] {
      SplitAtBlank(headers[1..], body);
      assert (headers + [""] + body)[1..] == headers[1..] + [""] + body;
      assert [headers[0]] + headers[1..] == headers;
    } else {
      assert (headers + [""] + body)[1..] == body;
    }
  }

  lemma NonBlankReceived(line: string)
    requires !Blank(line)
    ensures Received(line) != ""
  {
    if TrimEnd(line) == "" {
      TrimEndBlank(line);
    }
  }

  lemma {:induction false} TrimEndBlank(line: string)
    requires TrimEnd(line) == ""
    ensures Blank(line)
  {
    if line != "" {
      TrimEndBlank(line[..|line| - 1]);
      BlankSnoc(line);
    }
  }

  lemma BlankSnoc(s: string)
    requires s != "" && Blank(s[..|s| - 1]) && IsSpace(s[|s| - 1])
    ensures Blank(s)
  {
    assert forall k :: 0 <= k < |s| - 1 ==> s[..|s| - 1][k] == s[k];
  }

  /** The server ends up with these headers and body, and the bytes after the article. */
  ghost predicate Delivered(r: Option<Block>, headers: seq<string>, body: seq<string>, rest: string) {
    r.Some? && SplitArticle(r.value.lines) == (headers, body) && r.value.rest == rest
  }

  lemma ReadBody(body: seq<string>, rest: string)
    requires NoneHas(body, '\n')
    ensures ReadBlock(CRLF + (DotBlock(body) + rest)) == Some(Block([""] + Trimmed(body), rest))
  {
    ReadWritten(body, rest);
    ReadPlain("", DotBlock(body) + rest);
    assert "" + CRLF == CRLF;
  }

  /** Read back by the server when no header line is a lone dot. */
  lemma ReadPost(heads: seq<string>, body: seq<string>, rest: string)
    requires NoneHas(heads, '\n') && NoneHas(body, '\n')
    requires forall k :: 0 <= k < |heads| ==> TrimEnd(heads[k]) != "." && !Blank(heads[k])
    ensures Delivered(ReadBlock(PlainLines(heads) + (CRLF + (DotBlock(body) + rest))),
                      AllReceived(heads), Trimmed(body), rest)
  {
    var tail := CRLF + (DotBlock(body) + rest);
    ReadHeads(heads, tail);
    ReadBody(body, rest);
    Assoc(AllReceived(heads), [""], Trimmed(body));
    forall k | 0 <= k < |heads| ensures AllReceived(heads)[k] != "" {
      NonBlankReceived(heads[k]);
    }
    SplitAtBlank(AllReceived(heads), Trimmed(body));
  }

  lemma HeadsNoLF(block: string)
    ensures NoneHas(NonBlank(Split(block, '\n')), '\n')
  {
    SplitNoSep(block, '\n');
    NonBlankMeaning(Split(block, '\n'), '\n');
  }

  /**
   The server receives the non-blank header lines and the body lines exactly as the client had
   them if and only if no header line is a lone dot or starts with two, and no line ends in a
   carriage return.
   */
  lemma PostDeliveredIff(headerBlock: string, bodyBlock: string, rest: string)
    ensures var heads, body := NonBlank(Split(headerBlock, '\n')), Split(bodyBlock, '\n');
            Delivered(ReadBlock(PostBytes(headerBlock, bodyBlock) + rest), heads, body, rest)
            <==> (forall k :: 0 <= k < |heads| ==> Intact(heads[k]))
                 && (forall k :: 0 <= k < |body| ==> !EndsInCR(body[k]))
  {
    var heads, body := NonBlank(Split(headerBlock, '\n')), Split(bodyBlock, '\n');
    HeadsNoLF(headerBlock);
    NonBlankMeaning(Split(headerBlock, '\n'), '\n');
    SplitNoSep(bodyBlock, '\n');
    PostIff(heads, body, rest);
    AppendAssoc(PlainLines(heads), CRLF, DotBlock(body), rest);
    Assoc(CRLF, DotBlock(body), rest);
  }

  lemma PostIff(heads: seq<string>, body: seq<string>, rest: string)
    requires NoneHas(heads, '\n') && NoneHas(body, '\n')
    requires forall k :: 0 <= k < |heads| ==> !Blank(heads[k])
    ensures Delivered(ReadBlock(PlainLines(heads) + (CRLF + (DotBlock(body) + rest))), heads, body, rest)
            <==> (forall k :: 0 <= k < |heads| ==> Intact(heads[k]))
                 && (forall k :: 0 <= k < |body| ==> !EndsInCR(body[k]))
  {
    HeadsSame(heads);
    BodySame(body);
    var d := LoneDot(heads);
    if d < |heads| {
      LoneDotStops(heads, CRLF + (DotBlock(body) + rest));
      IntactIff(heads[d]);
    } else {
      ReadPost(heads, body, rest);
    }
  }

  lemma HeadsSame(heads: seq<string>)
    requires NoneHas(heads, '\n')
    ensures (forall k :: 0 <= k < |heads| ==> Intact(heads[k]))
            <==> AllReceived(heads) == heads && forall k :: 0 <= k < |heads| ==> TrimEnd(heads[k]) != "."
  {
    forall k | 0 <= k < |heads|
      ensures Intact(heads[k]) <==> AllReceived(heads)[k] == heads[k] && TrimEnd(heads[k]) != "."
    {
      assert NoLF(heads[k]);
      IntactIff(heads[k]);
    }
    assert AllReceived(heads) == heads <==> forall k :: 0 <= k < |heads| ==> AllReceived(heads)[k] == heads[k];
  }

  lemma BodySame(body: seq<string>)
    requires NoneHas(body, '\n')
    ensures Trimmed(body) == body <==> forall k :: 0 <= k < |body| ==> !EndsInCR(body[k])
  {
    forall k | 0 <= k < |body| ensures Trimmed(body)[k] == body[k] <==> !EndsInCR(body[k]) {
      assert NoLF(body[k]);
      TrimEndIff(body[k]);
    }
    assert Trimmed(body) == body <==> forall k :: 0 <= k < |body| ==> Trimmed(body)[k] == body[k];
  }

  lemma {:induction false} ReplaceJoin(parts: seq<string>)
    requires NoneHas(parts, '\n') && forall k :: 0 <= k < |parts| ==> !EndsInCR(parts[k])
    ensures ReplaceAll(Join(parts, '\n'), CRLF, "\n") == Join(parts, '\n')
  {
    if |parts| == 1 {
      ReplaceNoLF(parts[0]);
    } else if |parts| > 1 {
      ReplaceLF(parts[0], Join(parts[1..], '\n'));
      ReplaceJoin(parts[1..]);
    }
  }

  lemma {:induction false} SkipLine(line: string, rest: string)
    requires line != "" && '\n' !in line && !("\n" <= rest)
    ensures HeadBody(line + "\n" + rest) == (line + "\n" + HeadBody(rest).0, HeadBody(rest).1)
  {
    var s := line + "\n" + rest;
    assert s[1..] == line[1..] + "\n" + rest;
    if |line| > 1 {
      SkipLine(line[1..], rest);
      assert [line[0]] + (line[1..] + "\n" + HeadBody(rest).0) == line + "\n" + HeadBody(rest).0;
    } else {
      var t := s[1..];
      assert t == "\n" + rest && t[1..] == rest;
      assert rest != "" ==> t[1] == rest[0] && rest[0] != '\n';
      assert HeadBody(t) == (['\n'] + HeadBody(rest).0, HeadBody(rest).1);
      assert s[0] == line[0] && line[0] in line;
      assert [line[0]] + (['\n'] + HeadBody(rest).0) == line + "\n" + HeadBody(rest).0;
    }
  }

  lemma {:induction false} HeadEnds(line: string, rest: string)
    requires '\n' !in line
    ensures HeadBody(line + "\n\n" + rest) == (line, rest)
  {
    var s := line + "\n\n" + rest;
    if line == "" {
      assert s[2..] == rest;
    } else {
      assert s[1..] == line[1..] + "\n\n" + rest;
      assert s[0] == line[0] && line[0] in line;
      HeadEnds(line[1..], rest);
      assert [line[0]] + line[1..] == line;
    }
  }

  /** The first blank line ends the header block. */
  lemma {:induction false} HeadBodyJoin(heads: seq<string>, body: seq<string>)
    requires heads != [] && body != [] && NoneHas(heads, '\n') && NoneHas(body, '\n')
    requires forall k :: 0 <= k < |heads| ==> heads[k] != ""
    ensures HeadBody(Join(heads + [""] + body, '\n')) == (Join(heads, '\n'), Join(body, '\n'))
  {
    var all := heads + [""] + body;
    assert all[1..] == heads[1..] + [""] + body;
    if |heads| == 1 {
      assert all[1..][1..] == body && all[1..][0] == "";
      assert Join(all, '\n') == heads[0] + "\n\n" + Join(body, '\n');
      HeadEnds(heads[0], Join(body, '\n'));
    } else {
      HeadBodyJoin(heads[1..], body);
      assert Join(all[1..], '\n')[0] == heads[1][0] && heads[1][0] in heads[1];
      SkipLine(heads[0], Join(all[1..], '\n'));
    }
  }

  lemma {:induction false} NonBlankAll(lines: seq<string>)
    requires forall k :: 0 <= k < |lines| ==> !Blank(lines[k])
    ensures NonBlank(lines) == lines
  {
    if lines != [] {
      NonBlankAll(lines[..|lines| - 1]);
    }
  }

  /**
   From the client's editor to the server's article: header lines, a blank line and body lines
   arrive as they were written, and the bytes after them are left for the next command.
   */
  lemma ComposedDelivered(heads: seq<string>, body: seq<string>, rest: string)
    requires heads != [] && body != [] && NoneHas(heads, '\n') && NoneHas(body, '\n')
    requires forall k :: 0 <= k < |heads| ==> !Blank(heads[k]) && Intact(heads[k])
    requires forall k :: 0 <= k < |body| ==> !EndsInCR(body[k])
    ensures Delivered(ReadBlock(ComposedBytes(Join(heads + [""] + body, '\n')) + rest), heads, body, rest)
  {
    ReplaceJoin(heads + [""] + body);
    HeadBodyJoin(heads, body);
    SplitJoin(heads, '\n');
    SplitJoin(body, '\n');
    NonBlankAll(heads);
    PostDeliveredIff(Join(heads, '\n'), Join(body, '\n'), rest);
  }

  /** Fit to be sent and stored again. */
  ghost predicate Clean(line: string) {
    NoLF(line) && !EndsInCR(line)
  }

  ghost predicate AllClean(lines: seq<string>) {
    forall k :: 0 <= k < |lines| ==> Clean(lines[k])
  }

  /** Whatever a reader returns is. */
  lemma {:induction false} ReadLinesClean(s: string)
    requires ReadBlock(s).Some?
    ensures AllClean(ReadBlock(s).value.lines)
    decreases |s|
  {
    var (line, rest) := CutLine(s).value;
    if TrimEnd(line) != "." {
      CutLineEnds(s);
      TrimClean(line);
      ReadLinesClean(rest);
    }
  }

  lemma TrimClean(line: string)
    requires line != "" && line[|line| - 1] == '\n' && NoLF(line[..|line| - 1])
    ensures Clean(Received(line))
  {
    var t := TrimEnd(line);
    assert t <= line[..|line| - 1];
    assert forall c :: c in Received(line) ==> c in t && c in line[..|line| - 1];
  }

  lemma {:induction false} CutLineEnds(s: string)
    requires CutLine(s).Some?
    ensures var line := CutLine(s).value.0; line[|line| - 1] == '\n' && NoLF(line[..|line| - 1])
  {
    if s[0] != '\n' {
      CutLineEnds(s[1..]);
    }
  }
}
