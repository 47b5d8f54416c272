/**
  The line classifier shared by both passes of main.cpp: which lines carry
  code, where the comment starts, which label a line defines, whether the
  line holds nothing but that label, and which of the four operand shapes
  the rest of the line has.

  Each std::regex of the source is written out as an explicit matcher that
  makes the engine's leftmost, greedy choice explicit.
*/
module LineSyntax {
  import opened Wrappers
  import opened Chars
  import opened Shapes

  // ---------------------------------------------------------------- lines

  /**
    `^\s*[^\s#]+\s*#*` is found in the line: its first non-blank character
    exists and is not `#`. Blank and comment-only lines fail it.
  */
  predicate HasCode(line: string) {
    var t := SkipSpace(line);
    t != [] && t[0] != '#'
  }

  /** `[^#]*` searched from the start: the text before the first `#`. */
  function BeforeHash(line: string): (code: string)
    ensures |code| <= |line| && code == line[..|code|]
    ensures '#' !in code
    ensures |code| == |line| || line[|code|] == '#'
  {
    if line == [] || line[0] == '#' then []
    else [line[0]] + BeforeHash(line[1..])
  }

  /**
    Where the label lies in comment-free text: the token that holds it runs
    from `start` to `end`, and `colon` is the position of the token's last
    `:`. The label itself is `code[start..colon]`.
  */
  datatype Span = Span(start: nat, colon: nat, end: nat)

  /**
    Scans for the first `:`; `start` is where the token under the scan
    began. Yields that token's start and the position of the colon.
  */
  function FirstColon(code: string, i: nat, start: nat): (r: (nat, nat))
    requires start <= i && exists k :: i <= k < |code| && code[k] == ':'
    requires start == 0 || IsSpace(code[start - 1])
    requires forall k :: 0 <= k < i ==> code[k] != ':'
    requires forall k :: start <= k < i ==> !IsSpace(code[k])
    ensures start <= r.0 <= r.1 < |code| && code[r.1] == ':'
    ensures r.0 == 0 || IsSpace(code[r.0 - 1])
    ensures forall k :: 0 <= k < r.1 ==> code[k] != ':'
    ensures forall k :: r.0 <= k < r.1 ==> !IsSpace(code[k])
    decreases |code| - i
  {
    if code[i] == ':' then (start, i)
    else if IsSpace(code[i]) then FirstColon(code, i + 1, i + 1)
    else FirstColon(code, i + 1, start)
  }

  /**
    Continues through the token from `j` to its end, remembering the last
    `:` seen. Yields that colon and the token's end.
  */
  function TokenRest(code: string, last: nat, j: nat): (r: (nat, nat))
    requires last < j <= |code| && code[last] == ':'
    requires forall k :: last < k < j ==> code[k] != ':' && !IsSpace(code[k])
    ensures last <= r.0 < r.1 <= |code| && code[r.0] == ':'
    ensures r.1 == |code| || IsSpace(code[r.1])
    ensures forall k :: last <= k < r.1 ==> !IsSpace(code[k])
    ensures forall k :: r.0 < k < r.1 ==> code[k] != ':'
    decreases |code| - j
  {
    if j == |code| || IsSpace(code[j]) then (last, j)
    else if code[j] == ':' then TokenRest(code, j, j + 1)
    else TokenRest(code, last, j + 1)
  }

  /**
    The label searched with `\S*(?=:)` (pass 1; pass 2 searches `\S*:` and
    keeps the same text plus the colon): the first whitespace-delimited
    token that holds a `:`, up to the LAST `:` of that token.
  */
  function LabelSpan(code: string): (span: Span)
    requires ':' in code
    ensures span.start <= span.colon < span.end <= |code|
    ensures span.start == 0 || IsSpace(code[span.start - 1])
    ensures span.end == |code| || IsSpace(code[span.end])
    ensures forall k :: span.start <= k < span.end ==> !IsSpace(code[k])
    ensures forall k :: 0 <= k < span.start ==> code[k] != ':'
    ensures code[span.colon] == ':'
    ensures forall k :: span.colon < k < span.end ==> code[k] != ':'
  {
    var first := FirstColon(code, 0, 0);
    var rest := TokenRest(code, first.1, first.1 + 1);
    Span(first.0, rest.0, rest.1)
  }

  function LabelName(code: string): (name: string)
    requires ':' in code
    ensures NoSpace(name)
  {
    var span := LabelSpan(code);
    code[span.start..span.colon]
  }

  /**
    `:[^#]*[^#\s]#*` is found in the comment-free text: some non-blank
    character follows the first `:`.
  */
  predicate CodeAfterColon(code: string) {
    ':' in code && !AllSpace(code[FirstIndex(code, ':') + 1..])
  }

  /** The search of `:[^#]*[^#\s]#*` succeeds exactly when some `:` has a non-blank character after it. */
  lemma CodeAfterColonSearch(code: string)
    requires '#' !in code
    ensures CodeAfterColon(code) <==>
            exists i, j :: 0 <= i < j < |code| && code[i] == ':' && !IsSpace(code[j])
  {
    if exists i, j :: 0 <= i < j < |code| && code[i] == ':' && !IsSpace(code[j]) {
      var i, j :| 0 <= i < j < |code| && code[i] == ':' && !IsSpace(code[j]);
      var f := FirstIndex(code, ':');
      assert f <= i;
      assert code[f + 1..][j - f - 1] == code[j];
    }
    if CodeAfterColon(code) {
      var f := FirstIndex(code, ':');
      var k :| 0 <= k < |code[f + 1..]| && !IsSpace(code[f + 1..][k]);
      assert code[f + 1 + k] == code[f + 1..][k];
    }
  }

  /** A label-only line: it has code, defines a label and nothing non-blank follows the colon. */
  predicate LabelOnly(line: string) {
    && HasCode(line)
    && ':' in BeforeHash(line)
    && !CodeAfterColon(BeforeHash(line))
  }

  /** The label a line defines (`labelAddrMap[...] = addrPointer` in pass 1). */
  function DefinedLabel(line: string): (r: Option<string>)
    ensures r.Some? <==> HasCode(line) && ':' in BeforeHash(line)
  {
    if HasCode(line) && ':' in BeforeHash(line) then Some(LabelName(BeforeHash(line))) else None
  }

  /**
    `regex_replace` of `\S*:` by nothing: every whitespace-delimited token
    holding a `:` loses everything up to and including its last `:`;
    whitespace and colon-free tokens are kept.
  */
  function StripLabels(code: string): (r: string)
    ensures ':' !in r
    ensures ':' !in code ==> r == code
    decreases |code|
  {
    if code == [] then []
    else if IsSpace(code[0]) then [code[0]] + StripLabels(code[1..])
    else
      var tok := TokenPrefix(code);
      assert code == tok + code[|tok|..];
      (if ':' in tok then tok[LastIndex(tok, ':') + 1..] else tok) + StripLabels(code[|tok|..])
  }

  // ------------------------------------------------------------ comments

  predicate IsBreak(c: char) {
    c == '\n' || c == '\r'
  }

  /** The text up to the first line terminator, which `.` does not cross. */
  function Segment(s: string): (r: string)
    ensures |r| <= |s| && r == s[..|r|]
    ensures forall k :: 0 <= k < |r| ==> !IsBreak(r[k])
    ensures |r| == |s| || IsBreak(s[|r|])
  {
    if s == [] || IsBreak(s[0]) then [] else [s[0]] + Segment(s[1..])
  }

  /**
    Group 1 of `.*(#.*)` searched in the line: in the first segment that
    holds a `#`, everything from its LAST `#` (the greedy `.*` before the
    group takes all the others) to the end of that segment.
  */
  function Comment(line: string): (r: string)
    ensures r == [] || (r[0] == '#' && '#' !in r[1..])
    ensures forall k :: 0 <= k < |r| ==> !IsBreak(r[k])
    ensures '#' !in line ==> r == []
    ensures (forall k :: 0 <= k < |line| ==> !IsBreak(line[k])) && '#' in line ==>
              r == line[LastIndex(line, '#')..]
    decreases |line|
  {
    var seg := Segment(line);
    if '#' in seg then
      var i := LastIndex(seg, '#');
      assert seg[i..][1..] == seg[i + 1..];
      seg[i..]
    else if |seg| == |line| then []
    else
      Comment(line[|seg| + 1..])
  }

  // --------------------------------------------------------- line shapes

  /**
    The text pass 2 matches the four patterns against: the comment-free
    code, with the label tokens removed when the line defines a label.
  */
  function CodeText(line: string): (code: string)
    ensures ':' !in code
  {
    var code := BeforeHash(line);
    if ':' in code then StripLabels(code) else code
  }

  /**
    The operand shape of a line, NoShape when pass 2 builds no instruction
    for it (no code, or no pattern matches).
  */
  function LineShape(line: string): (s: Shape)
    ensures WellFormed(s)
    ensures !HasCode(line) ==> s == NoShape
  {
    if HasCode(line) then MatchShape(CodeText(line)) else NoShape
  }

  // ---------------------------------------------------- line round trip

  /** Text free of the characters that steer the classifier: `:`, `#` and line terminators. */
  predicate Plain(s: string) {
    forall k :: 0 <= k < |s| ==> s[k] != ':' && s[k] != '#' && !IsBreak(s[k])
  }

  /** A comment as `.*(#.*)` captures it: one `#`, at the start, and no line terminator. */
  predicate IsComment(c: string) {
    && c != []
    && c[0] == '#'
    && forall k :: 0 < k < |c| ==> c[k] != '#' && !IsBreak(c[k])
  }

  /** The `label: ` that opens a line defining a label. */
  function LabelPart(name: Option<string>): string {
    if name.Some? then name.value + ": " else []
  }

  /** Everything of a source line before its comment. */
  function CodePart(name: Option<string>, s: Shape, comment: string): string {
    LabelPart(name) + Render(s) + (if comment == [] then [] else " ")
  }

  /**
    A source line in the layout the assembler is written for: an optional
    `label: `, the instruction in canonical form, and an optional ` #comment`.
  */
  function SourceLine(name: Option<string>, s: Shape, comment: string): string {
    CodePart(name, s, comment) + comment
  }

  /** What `SourceLine` needs of its parts so that the classifier can take them apart again. */
  predicate ValidParts(name: Option<string>, s: Shape, comment: string) {
    && (name.Some? ==> NoSpace(name.value) && Plain(name.value))
    && WellFormed(s) && Plain(Render(s))
    && (comment == [] || IsComment(comment))
  }

  lemma {:induction false} BeforeHashOf(x: string, y: string)
    requires '#' !in x
    requires y == [] || y[0] == '#'
    ensures BeforeHash(x + y) == x
  {
    if x != [] {
      assert (x + y)[1..] == x[1..] + y;
      BeforeHashOf(x[1..], y);
    } else {
      assert x + y == y;
    }
  }

  /** One step of `StripLabels` over a leading whitespace character. */
  lemma StripLabelsSpace(c: char, s: string)
    requires IsSpace(c)
    ensures StripLabels([c] + s) == [c] + StripLabels(s)
  {
    assert ([c] + s)[1..] == s;
  }

  /** One step of `StripLabels` over a whole leading token. */
  lemma StripLabelsToken(tok: string, s: string)
    requires IsToken(tok)
    requires s == [] || IsSpace(s[0])
    ensures ':' in tok ==> StripLabels(tok + s) == tok[LastIndex(tok, ':') + 1..] + StripLabels(s)
    ensures ':' !in tok ==> StripLabels(tok + s) == tok + StripLabels(s)
  {
    TokenPrefixOfToken(tok, s);
    assert (tok + s)[0] == tok[0];
    assert (tok + s)[|tok|..] == s;
  }

  /** In `name:w` with a colon-free `w`, the last colon is the one added. */
  lemma LastColonOf(name: string, w: string)
    requires ':' !in w
    ensures LastIndex(name + ":" + w, ':') == |name|
    ensures (name + ":" + w)[|name| + 1..] == w
  {
    var tok := name + ":" + w;
    assert tok[|name|] == ':';
    assert tok[|name| + 1..] == w;
  }

  lemma TokenJoin(name: string, w: string)
    requires NoSpace(name) && NoSpace(w)
    ensures IsToken(name + ":" + w)
  {
    var tok := name + ":" + w;
    forall k | 0 <= k < |tok| ensures !IsSpace(tok[k]) {
      if k < |name| { assert tok[k] == name[k]; }
      else if k > |name| { assert tok[k] == w[k - |name| - 1]; }
    }
  }

  lemma JoinAt(a: string, b: string, i: nat)
    requires i <= |b|
    ensures a + b == (a + b[..i]) + b[i..]
  {
    assert b == b[..i] + b[i..];
  }

  lemma Regroup(p: string, t: string, q: string, x: string)
    requires p == t + q
    ensures p + x == t + (q + x)
  {
  }

  /** Both sides of a cut through colon-free text are colon-free. */
  lemma ColonFreeSplit(s: string, i: nat)
    requires i <= |s| && ':' !in s
    ensures s == s[..i] + s[i..] && ':' !in s[..i] && ':' !in s[i..]
  {
    assert s == s[..i] + s[i..];
  }

  /** A colon-free stretch ending in whitespace splits into its first token and a colon-free rest that starts and ends in whitespace. */
  lemma FirstTokenOf(p: string)
    requires p != [] && !IsSpace(p[0]) && IsSpace(p[|p| - 1])
    requires ':' !in p
    ensures var t := TokenPrefix(p);
      && IsToken(t) && |t| < |p| && p == t + p[|t|..] && ':' !in t
      && ':' !in p[|t|..] && IsSpace(p[|t|]) && IsSpace(p[|t|..][|p| - |t| - 1])
  {
    var t := TokenPrefix(p);
    assert p == t + p[|t|..];
  }

  /**
    The token holding the last `:` loses everything through that colon, even
    when the code is glued to it (`loop:add`) or the name holds colons of its
    own (`a:b:c`); the colon-free rest of the code is kept.
  */
  lemma StripLabelOf(name: string, rest: string)
    requires NoSpace(name)
    requires ':' !in rest
    ensures StripLabels(name + ":" + rest) == rest
  {
    var w := TokenPrefix(rest);
    var after := rest[|w|..];
    ColonFreeSplit(rest, |w|);
    TokenJoin(name, w);
    LastColonOf(name, w);
    var tok := name + ":" + w;
    JoinAt(name + ":", rest, |w|);
    StripLabelsToken(tok, after);
    assert StripLabels(after) == after;
  }

  /**
    A colon-free stretch that ends at whitespace (or is empty) is kept as it
    is, and the rest of the code is stripped on its own.
  */
  lemma {:induction false} StripLabelsKeeps(p: string, s: string)
    requires ':' !in p
    requires p == [] || IsSpace(p[|p| - 1])
    ensures StripLabels(p + s) == p + StripLabels(s)
    decreases |p|
  {
    if p == [] {
      assert p + s == s;
    } else if IsSpace(p[0]) {
      var q := p[1..];
      assert p == [p[0]] + q;
      Regroup(p, [p[0]], q, s);
      StripLabelsSpace(p[0], q + s);
      StripLabelsKeeps(q, s);
      Regroup(p, [p[0]], q, StripLabels(s));
    } else {
      FirstTokenOf(p);
      var t := TokenPrefix(p);
      var q := p[|t|..];
      Regroup(p, t, q, s);
      StripLabelsToken(t, q + s);
      StripLabelsKeeps(q, s);
      Regroup(p, t, q, StripLabels(s));
    }
  }

  /** `loop:add $t0, $t1, $t2` loses its glued label, as `\S*:` does. */
  lemma GluedLabelStripped()
    ensures StripLabels("loop:add $t0, $t1, $t2") == "add $t0, $t1, $t2"
  {
    assert "loop:add $t0, $t1, $t2" == "loop" + ":" + "add $t0, $t1, $t2";
    StripLabelOf("loop", "add $t0, $t1, $t2");
  }

  /**
    A label token after colon-free code (`foo bar:`) is removed and the code
    before it kept: only the token holding the colon is touched.
  */
  lemma StripLabelAfterCode(p: string, name: string, rest: string)
    requires ':' !in p
    requires p == [] || IsSpace(p[|p| - 1])
    requires NoSpace(name)
    requires ':' !in rest
    ensures StripLabels(p + (name + ":" + rest)) == p + rest
  {
    StripLabelsKeeps(p, name + ":" + rest);
    StripLabelOf(name, rest);
  }

  /** The label of a `label: ...` text is the text before its only colon. */
  lemma LabelNameOf(name: string, rest: string)
    requires NoSpace(name) && ':' !in name
    requires rest != [] && IsSpace(rest[0])
    requires ':' !in rest
    ensures LabelName(name + ":" + rest) == name
  {
    var code := name + ":" + rest;
    assert code[|name|] == ':';
    var span := LabelSpan(code);
    assert forall k :: 0 <= k < |name| ==> code[k] == name[k];
    assert span.start <= |name|;
    assert span.start == 0;
    assert code[|name| + 1] == rest[0];
    assert span.end <= |name| + 1;
    assert span.colon == |name|;
    assert code[..|name|] == name;
  }

  /** Text with no `#` and no line terminator. */
  predicate Quiet(s: string) {
    forall k :: 0 <= k < |s| ==> s[k] != '#' && !IsBreak(s[k])
  }

  lemma QuietConcat(a: string, b: string)
    requires Quiet(a) && Quiet(b)
    ensures Quiet(a + b)
  {
    assert forall k :: |a| <= k < |a + b| ==> (a + b)[k] == b[k - |a|];
  }

  lemma QuietCodePart(name: Option<string>, s: Shape, comment: string)
    requires ValidParts(name, s, comment)
    ensures Quiet(CodePart(name, s, comment))
    ensures Quiet(LabelPart(name))
  {
    if name.Some? {
      QuietConcat(name.value, ": ");
    }
    QuietConcat(LabelPart(name), Render(s));
    QuietConcat(LabelPart(name) + Render(s), if comment == [] then [] else " ");
  }

  /** A rendered shape is empty exactly when there is no instruction. */
  lemma RenderEmpty(s: Shape)
    requires WellFormed(s)
    ensures Render(s) == [] <==> s.NoShape?
  {
  }

  /** The comment-free part of a source line is everything before its comment. */
  lemma BeforeHashOfSourceLine(name: Option<string>, s: Shape, comment: string)
    requires ValidParts(name, s, comment)
    ensures BeforeHash(SourceLine(name, s, comment)) == CodePart(name, s, comment)
  {
    QuietCodePart(name, s, comment);
    BeforeHashOf(CodePart(name, s, comment), comment);
  }

  /** A comment after text with no `#` and no line terminator is the line's comment. */
  lemma CommentAfterQuiet(code: string, comment: string)
    requires Quiet(code)
    requires comment == [] || IsComment(comment)
    ensures Comment(code + comment) == comment
  {
    var line := code + comment;
    assert forall k :: |code| <= k < |line| ==> line[k] == comment[k - |code|];
    if comment == [] {
      assert line == code;
    } else {
      assert line[|code|] == '#';
      var i := LastIndex(line, '#');
      assert i == |code|;
      assert line[|code|..] == comment;
    }
  }

  /** The comment of a source line is recovered intact. */
  lemma CommentOfSourceLine(name: Option<string>, s: Shape, comment: string)
    requires ValidParts(name, s, comment)
    ensures Comment(SourceLine(name, s, comment)) == comment
  {
    QuietCodePart(name, s, comment);
    CommentAfterQuiet(CodePart(name, s, comment), comment);
  }

  /** A line whose first character is neither blank nor `#` has code. */
  lemma HasCodeOfLeading(line: string)
    requires line != [] && !IsSpace(line[0]) && line[0] != '#'
    ensures HasCode(line)
  {
    assert SkipSpace(line) == line;
  }

  /** The first character of a source line with a label or an instruction. */
  lemma SourceLineLeads(name: Option<string>, s: Shape, comment: string)
    requires ValidParts(name, s, comment)
    requires name.Some? || !s.NoShape?
    ensures var line := SourceLine(name, s, comment);
            line != [] && !IsSpace(line[0]) && line[0] != '#'
  {
    var line := SourceLine(name, s, comment);
    if name.Some? {
      var lead := name.value + ": ";
      assert line == lead + (Render(s) + (if comment == [] then [] else " ") + comment);
      assert line[0] == lead[0];
    } else {
      var r := Render(s);
      assert line == r + ((if comment == [] then [] else " ") + comment);
      assert r[0] == s.m[0];
      assert line[0] == r[0];
    }
  }

  /** A source line has code exactly when it defines a label or holds an instruction. */
  lemma HasCodeOfSourceLine(name: Option<string>, s: Shape, comment: string)
    requires ValidParts(name, s, comment)
    ensures HasCode(SourceLine(name, s, comment)) <==> name.Some? || !s.NoShape?
  {
    var line := SourceLine(name, s, comment);
    if name.Some? || !s.NoShape? {
      SourceLineLeads(name, s, comment);
      HasCodeOfLeading(line);
    } else if comment != [] {
      assert line == " " + comment;
      SkipSpaceOfSpaced(" ", comment);
    } else {
      assert line == [];
    }
  }

  /** The code of a source line that opens with `label: `, split at that colon. */
  lemma LabelledCode(name: string, s: Shape, comment: string)
    requires ValidParts(Some(name), s, comment)
    ensures var rest := " " + Render(s) + (if comment == [] then [] else " ");
            && CodePart(Some(name), s, comment) == name + ":" + rest
            && ':' !in rest
            && (AllSpace(rest) <==> s.NoShape?)
  {
    var rest := " " + Render(s) + (if comment == [] then [] else " ");
    assert CodePart(Some(name), s, comment) == name + ":" + rest;
    assert forall k :: 1 <= k < 1 + |Render(s)| ==> rest[k] == Render(s)[k - 1];
    if !s.NoShape? {
      assert rest[1] == s.m[0];
    }
  }

  /** After `label:` there is code exactly when the rest is not blank. */
  lemma CodeAfterColonOf(name: string, rest: string)
    requires ':' !in name
    ensures CodeAfterColon(name + ":" + rest) <==> !AllSpace(rest)
  {
    var code := name + ":" + rest;
    assert code[|name|] == ':';
    assert forall k :: 0 <= k < |name| ==> code[k] == name[k];
    assert FirstIndex(code, ':') == |name|;
    assert code[|name| + 1..] == rest;
  }

  /** The comment-free code of a line that opens with `label: `. */
  lemma LabelledLine(name: string, s: Shape, comment: string)
    requires ValidParts(Some(name), s, comment)
    ensures var rest := " " + Render(s) + (if comment == [] then [] else " ");
            && HasCode(SourceLine(Some(name), s, comment))
            && BeforeHash(SourceLine(Some(name), s, comment)) == name + ":" + rest
            && ':' !in rest
            && (AllSpace(rest) <==> s.NoShape?)
  {
    BeforeHashOfSourceLine(Some(name), s, comment);
    HasCodeOfSourceLine(Some(name), s, comment);
    LabelledCode(name, s, comment);
  }

  lemma LabelledDefines(name: string, s: Shape, comment: string)
    requires ValidParts(Some(name), s, comment)
    ensures DefinedLabel(SourceLine(Some(name), s, comment)) == Some(name)
  {
    var rest := " " + Render(s) + (if comment == [] then [] else " ");
    LabelledLine(name, s, comment);
    assert (name + ":" + rest)[|name|] == ':';
    LabelNameOf(name, rest);
  }

  lemma LabelledOnly(name: string, s: Shape, comment: string)
    requires ValidParts(Some(name), s, comment)
    ensures LabelOnly(SourceLine(Some(name), s, comment)) <==> s.NoShape?
  {
    var rest := " " + Render(s) + (if comment == [] then [] else " ");
    LabelledLine(name, s, comment);
    assert (name + ":" + rest)[|name|] == ':';
    CodeAfterColonOf(name, rest);
  }

  /** After the label is stripped, the code is the instruction between blanks. */
  lemma LabelledCodeText(name: string, s: Shape, comment: string)
    requires ValidParts(Some(name), s, comment)
    ensures CodeText(SourceLine(Some(name), s, comment)) == " " + Render(s) + (if comment == [] then [] else " ")
  {
    var rest := " " + Render(s) + (if comment == [] then [] else " ");
    LabelledLine(name, s, comment);
    assert (name + ":" + rest)[|name|] == ':';
    StripLabelOf(name, rest);
  }

  lemma LabelledShape(name: string, s: Shape, comment: string)
    requires ValidParts(Some(name), s, comment)
    ensures LineShape(SourceLine(Some(name), s, comment)) == s
  {
    var w := if comment == [] then [] else " ";
    LabelledCodeText(name, s, comment);
    HasCodeOfSourceLine(Some(name), s, comment);
    MatchShapeRender(s, " ", w);
  }

  /** The comment-free code of a line with no label: the instruction and a separating blank. */
  lemma UnlabelledCode(s: Shape, comment: string)
    requires ValidParts(None, s, comment)
    ensures var code := Render(s) + (if comment == [] then [] else " ");
            BeforeHash(SourceLine(None, s, comment)) == code && ':' !in code
  {
    var code := Render(s) + (if comment == [] then [] else " ");
    BeforeHashOfSourceLine(None, s, comment);
    assert CodePart(None, s, comment) == code;
    assert forall k :: 0 <= k < |Render(s)| ==> code[k] == Render(s)[k];
  }

  /** A line with no label defines none and is never label-only. */
  lemma UnlabelledDefinesNone(s: Shape, comment: string)
    requires ValidParts(None, s, comment)
    ensures DefinedLabel(SourceLine(None, s, comment)) == None
    ensures !LabelOnly(SourceLine(None, s, comment))
  {
    UnlabelledCode(s, comment);
  }

  /** A line with no label keeps its instruction's shape. */
  lemma UnlabelledShape(s: Shape, comment: string)
    requires ValidParts(None, s, comment)
    ensures LineShape(SourceLine(None, s, comment)) == s
  {
    var line := SourceLine(None, s, comment);
    var w := if comment == [] then [] else " ";
    if HasCode(line) {
      assert CodeText(line) == [] + Render(s) + w by {
        UnlabelledCode(s, comment);
      }
      MatchShapeRender(s, [], w);
    } else {
      HasCodeOfSourceLine(None, s, comment);
    }
  }

  /**
    The classifier takes a canonical source line apart again: the label it
    defines, whether it is label-only, its instruction's shape, whether it
    has code at all, and its comment are the parts it was built from.
  */
  lemma SourceLineRoundTrip(name: Option<string>, s: Shape, comment: string)
    requires ValidParts(name, s, comment)
    ensures DefinedLabel(SourceLine(name, s, comment)) == name
    ensures LabelOnly(SourceLine(name, s, comment)) <==> name.Some? && s.NoShape?
    ensures LineShape(SourceLine(name, s, comment)) == s
    ensures HasCode(SourceLine(name, s, comment)) <==> name.Some? || !s.NoShape?
    ensures Comment(SourceLine(name, s, comment)) == comment
  {
    HasCodeOfSourceLine(name, s, comment);
    CommentOfSourceLine(name, s, comment);
    if name.Some? {
      LabelledDefines(name.value, s, comment);
      LabelledOnly(name.value, s, comment);
      LabelledShape(name.value, s, comment);
    } else {
      UnlabelledDefinesNone(s, comment);
      UnlabelledShape(s, comment);
    }
  }
}
