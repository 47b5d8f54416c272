/**
  The four operand layouts that pass 2 of main.cpp recognises in the
  label-free code of a line, each std::regex written out as an explicit
  matcher. Where a pattern is ambiguous the backtracking engine's first
  success is made explicit: a greedy `(\S+),` ends at the LARGEST comma that
  lets the rest of the pattern match.
*/
module Shapes {
  import opened Wrappers
  import opened Chars

  /**
    The four operand layouts pass 2 recognises, tried in this order:
      `^\s*(\S+)\s*$`                                   Bare
      `^\s*(\S+)\s+(\S+)\s*$`                          Pair
      `^\s*(\S+)\s+(\S+),\s*(\d+)\((\S+)\)\s*$`       Based
      `^\s*(\S+)\s+(\S+),\s*(\S+),\s*(\S+)\s*$`        Triple
    `m` is the mnemonic; the other fields are the captured groups.
  */
  datatype Shape =
    | NoShape
    | Bare(m: string)
    | Pair(m: string, operand: string)
    | Based(m: string, reg: string, offset: string, base: string)
    | Triple(m: string, a: string, b: string, c: string)

  /** What the groups of a successful match can hold. */
  predicate WellFormed(s: Shape) {
    match s
    case NoShape => true
    case Bare(m) => IsToken(m)
    case Pair(m, o) => IsToken(m) && IsToken(o)
    case Based(m, r, off, b) => IsToken(m) && IsToken(r) && off != [] && AllDigits(off) && IsToken(b)
    case Triple(m, a, b, c) => IsToken(m) && IsToken(a) && IsToken(b) && IsToken(c)
  }

  /** The operands as an assembly programmer writes them. */
  function BodyText(s: Shape): string {
    match s
    case NoShape => []
    case Bare(_) => []
    case Pair(_, o) => o
    case Based(_, r, off, b) => r + ", " + off + "(" + b + ")"
    case Triple(_, a, b, c) => a + ", " + b + ", " + c
  }

  /** A mnemonic, then one blank and the operands when there are any. */
  function Layout(m: string, body: string): string {
    if body == [] then m else m + " " + body
  }

  /** The canonical source text of a shape. */
  function Render(s: Shape): string {
    if s.NoShape? then [] else Layout(s.m, BodyText(s))
  }

  /** The largest `k < n` with `p(k)`: where a greedy `(\S+),` settles. */
  function LastWhere(n: nat, p: nat -> bool): (r: Option<nat>)
    ensures r.Some? ==> r.value < n && p(r.value)
    ensures r.Some? ==> forall j :: r.value < j < n ==> !p(j)
    ensures r.None? ==> forall j :: 0 <= j < n ==> !p(j)
  {
    if n == 0 then None
    else if p(n - 1) then Some(n - 1)
    else LastWhere(n - 1, p)
  }

  /** `(\S+),` can end at position `i` of `s`: a comma inside the first token, not at its start. */
  predicate CommaSplit(s: string, i: nat) {
    0 < i < |TokenPrefix(s)| && s[i] == ','
  }

  /**
    `\s*(\d+)\((\S+)\)` against the text after the comma, whose end is
    already trimmed: offset digits and base register.
  */
  function BasedTail(rest: string): (r: Option<(string, string)>)
    ensures r.Some? ==> r.value.0 != [] && AllDigits(r.value.0) && IsToken(r.value.1)
    ensures r.Some? ==> NoSpace(SkipSpace(rest))
  {
    var t := SkipSpace(rest);
    var d := DigitPrefix(t);
    if d != [] && |d| + 2 < |t| && t[|d|] == '(' && t[|t| - 1] == ')' && NoSpace(t[|d| + 1..|t| - 1]) then
      BasedHasNoSpace(t, |d|);
      Some((d, t[|d| + 1..|t| - 1]))
    else None
  }

  /** `N(b)` with digits N and blank-free b has no blank. */
  lemma BasedHasNoSpace(t: string, n: nat)
    requires n + 2 < |t| && AllDigits(t[..n]) && t[n] == '(' && t[|t| - 1] == ')'
    requires NoSpace(t[n + 1..|t| - 1])
    ensures NoSpace(t)
  {
    forall k | 0 <= k < |t|
      ensures !IsSpace(t[k])
    {
      if k < n {
        assert t[k] == t[..n][k];
      } else if n < k < |t| - 1 {
        assert t[k] == t[n + 1..|t| - 1][k - n - 1];
      }
    }
  }

  /** `\s*(\S+),\s*(\S+)` against trimmed text, with the greedy (largest) comma. */
  function PairTail(rest: string): (r: Option<(string, string)>)
    ensures r.Some? ==> IsToken(r.value.0) && IsToken(r.value.1)
  {
    var t := SkipSpace(rest);
    var j := LastWhere(|t|, (k: nat) => CommaSplit(t, k) && IsToken(SkipSpace(t[k + 1..])));
    if j.Some? then
      TokenPrefixPrefix(t, j.value);
      Some((t[..j.value], SkipSpace(t[j.value + 1..])))
    else None
  }

  /** Operands with no blank at either end, as `Head` leaves them. */
  predicate Trimmed(body: string) {
    body == [] || (!IsSpace(body[0]) && !IsSpace(body[|body| - 1]))
  }

  /**
    `^\s*(\S+)\s+` and the trimmed remainder: the mnemonic and the body
    the four patterns examine. None for a blank text.
  */
  function Head(text: string): (r: Option<(string, string)>)
    ensures r.None? <==> AllSpace(text)
    ensures r.Some? ==> IsToken(r.value.0)
    ensures r.Some? ==> Trimmed(r.value.1)
  {
    var t := SkipSpace(text);
    if t == [] then
      assert text == text[..|text| - |t|];
      None
    else
      var m := TokenPrefix(t);
      var body := TrimEnd(SkipSpace(t[|m|..]));
      assert !AllSpace(text) by { assert text[|text| - |t|] == t[0]; }
      Some((m, body))
  }

  /** The first token of `s` with its first `n` characters kept holds no blank. */
  lemma TokenPrefixPrefix(s: string, n: nat)
    requires n <= |TokenPrefix(s)|
    ensures NoSpace(s[..n])
  {
    var tok := TokenPrefix(s);
    assert forall k :: 0 <= k < n ==> s[..n][k] == tok[k];
  }

  /** Pattern three against a body: the largest comma that a based operand follows. */
  function BasedShape(m: string, body: string): (r: Option<Shape>)
    requires IsToken(m)
    ensures r.Some? ==> WellFormed(r.value) && r.value.Based? && r.value.m == m
  {
    var based := LastWhere(|body|, (i: nat) => CommaSplit(body, i) && BasedTail(body[i + 1..]).Some?);
    if based.Some? then
      var tail := BasedTail(body[based.value + 1..]).value;
      TokenPrefixPrefix(body, based.value);
      Some(Based(m, body[..based.value], tail.0, tail.1))
    else None
  }

  /** Pattern four against a body: the largest comma that two further operands follow. */
  function TripleShape(m: string, body: string): (r: Option<Shape>)
    requires IsToken(m)
    ensures r.Some? ==> WellFormed(r.value) && r.value.Triple? && r.value.m == m
  {
    var triple := LastWhere(|body|, (i: nat) => CommaSplit(body, i) && PairTail(body[i + 1..]).Some?);
    if triple.Some? then
      var tail := PairTail(body[triple.value + 1..]).value;
      TokenPrefixPrefix(body, triple.value);
      Some(Triple(m, body[..triple.value], tail.0, tail.1))
    else None
  }

  /** The shape of a body after mnemonic `m`, trying the four patterns in order. */
  function ShapeOf(m: string, body: string): (r: Shape)
    requires IsToken(m)
    ensures WellFormed(r)
    ensures r != NoShape ==> r.m == m
  {
    if body == [] then Bare(m)
    else if NoSpace(body) then Pair(m, body)
    else if BasedShape(m, body).Some? then BasedShape(m, body).value
    else if TripleShape(m, body).Some? then TripleShape(m, body).value
    else NoShape
  }

  /** Which of the four patterns of pass 2 matches the label-free code, and its groups. */
  function MatchShape(text: string): (r: Shape)
    ensures AllSpace(text) ==> r == NoShape
    ensures WellFormed(r)
  {
    var h := Head(text);
    if h.None? then NoShape else ShapeOf(h.value.0, h.value.1)
  }

  // ---------------------------------------------------- shape round trip

  lemma LastWherePicks(n: nat, p: nat -> bool, k: nat)
    requires k < n && p(k)
    requires forall j :: k < j < n ==> !p(j)
    ensures LastWhere(n, p) == Some(k)
  {
  }

  /** Whitespace that follows a non-blank character survives `SkipSpace`. */
  lemma SpaceAfterToken(s: string, x: nat, y: nat)
    requires x < y < |s| && !IsSpace(s[x]) && IsSpace(s[y])
    ensures !NoSpace(SkipSpace(s))
  {
    var t := SkipSpace(s);
    var cut := |s| - |t|;
    SkipSpaceStopsBefore(s, x);
    assert t == s[cut..];
    assert y - cut < |t| && t[y - cut] == s[y];
    assert IsSpace(t[y - cut]);
  }

  /** Blanks and then a token: the token is the mnemonic and what follows it yields the body. */
  lemma HeadOfToken(w1: string, m: string, rest: string)
    requires AllSpace(w1) && IsToken(m)
    requires rest == [] || IsSpace(rest[0])
    ensures Head(w1 + (m + rest)) == Some((m, TrimEnd(SkipSpace(rest))))
  {
    SkipSpaceOfSpaced(w1, m + rest);
    TokenPrefixOfToken(m, rest);
    assert (m + rest)[|m|..] == rest;
  }

  /** One blank, a trimmed body and blanks leave exactly the body. */
  lemma BodyOfRest(body: string, w2: string)
    requires AllSpace(w2)
    requires Trimmed(body)
    ensures TrimEnd(SkipSpace((if body == [] then [] else " " + body) + w2)) == body
  {
    if body == [] {
      assert [] + w2 == w2 + [];
      SkipSpaceOfSpaced(w2, []);
    } else {
      assert " " + body + w2 == " " + (body + w2);
      SkipSpaceOfSpaced(" ", body + w2);
      TrimEndOfTrailing(body, w2);
    }
  }

  /** Blanks, the mnemonic, one blank, the body and blanks split into mnemonic and body. */
  lemma HeadOfLayout(w1: string, m: string, body: string, w2: string)
    requires AllSpace(w1) && AllSpace(w2) && IsToken(m)
    requires Trimmed(body)
    ensures Head(w1 + Layout(m, body) + w2) == Some((m, body))
  {
    var rest := (if body == [] then [] else " " + body) + w2;
    assert w1 + Layout(m, body) + w2 == w1 + (m + rest);
    HeadOfToken(w1, m, rest);
    BodyOfRest(body, w2);
  }

  /** In `r + "," + rest` the comma after `r` is the last one `(\S+),` can end at. */
  lemma CommaAfterToken(r: string, rest: string)
    requires IsToken(r) && rest != [] && IsSpace(rest[0])
    ensures CommaSplit(r + "," + rest, |r|)
    ensures forall j :: |r| < j ==> !CommaSplit(r + "," + rest, j)
  {
    assert r + "," + rest == (r + ",") + rest;
    TokenPrefixOfToken(r + ",", rest);
  }

  /** A blank, digits, and a parenthesised token form pattern three's tail. */
  lemma BasedTailOf(off: string, b: string)
    requires off != [] && AllDigits(off) && IsToken(b)
    ensures BasedTail(" " + off + "(" + b + ")") == Some((off, b))
  {
    var t := off + "(" + b + ")";
    assert " " + off + "(" + b + ")" == " " + t;
    SkipSpaceOfSpaced(" ", t);
    assert t == off + ("(" + b + ")");
    DigitPrefixOfDigits(off, "(" + b + ")");
    assert t[|off|] == '(';
    assert t[|off| + 1..|t| - 1] == b;
  }

  lemma BasedBody(m: string, r: string, off: string, b: string)
    requires WellFormed(Based(m, r, off, b))
    ensures BasedShape(m, BodyText(Based(m, r, off, b))) == Some(Based(m, r, off, b))
  {
    var tail := " " + off + "(" + b + ")";
    var body := r + "," + tail;
    assert body[..|r|] == r;
    assert body == BodyText(Based(m, r, off, b));
    var p := (i: nat) => CommaSplit(body, i) && BasedTail(body[i + 1..]).Some?;
    assert BasedTail(body[|r| + 1..]) == Some((off, b)) by {
      assert body[|r| + 1..] == tail;
      BasedTailOf(off, b);
    }
    assert p(|r|) && forall j :: |r| < j < |body| ==> !p(j) by {
      CommaAfterToken(r, tail);
    }
    LastWherePicks(|body|, p, |r|);
  }

  /** A blank and two comma-separated tokens form pattern four's tail. */
  lemma PairTailOf(b: string, c: string)
    requires IsToken(b) && IsToken(c)
    ensures PairTail(" " + b + ", " + c) == Some((b, c))
  {
    var t := b + "," + (" " + c);
    assert t[..|b|] == b;
    assert SkipSpace(" " + b + ", " + c) == t by {
      assert " " + b + ", " + c == " " + t;
      SkipSpaceOfSpaced(" ", t);
    }
    var q := (k: nat) => CommaSplit(t, k) && IsToken(SkipSpace(t[k + 1..]));
    assert SkipSpace(t[|b| + 1..]) == c by {
      assert t[|b| + 1..] == " " + c;
      SkipSpaceOfSpaced(" ", c);
    }
    assert q(|b|) && forall j :: |b| < j < |t| ==> !q(j) by {
      CommaAfterToken(b, " " + c);
    }
    LastWherePicks(|t|, q, |b|);
  }

  /** No comma of a rendered triple is followed by a based operand. */
  lemma TripleNotBased(m: string, a: string, b: string, c: string)
    requires IsToken(m) && IsToken(a) && IsToken(b) && IsToken(c)
    ensures BasedShape(m, a + ", " + b + ", " + c).None?
  {
    var body := a + "," + (" " + b + ", " + c);
    assert a + ", " + b + ", " + c == body;
    CommaAfterToken(a, " " + b + ", " + c);
    var based := (i: nat) => CommaSplit(body, i) && BasedTail(body[i + 1..]).Some?;
    forall i: nat | i < |body|
      ensures !based(i)
    {
      if CommaSplit(body, i) {
        var x := |a| + 2 - (i + 1);
        var y := |a| + 2 + |b| + 1 - (i + 1);
        assert body[i + 1..][x] == b[0];
        assert body[i + 1..][y] == ' ';
        SpaceAfterToken(body[i + 1..], x, y);
      }
    }
  }

  lemma TripleBody(m: string, a: string, b: string, c: string)
    requires WellFormed(Triple(m, a, b, c))
    ensures TripleShape(m, BodyText(Triple(m, a, b, c))) == Some(Triple(m, a, b, c))
  {
    var tail := " " + b + ", " + c;
    var body := a + "," + tail;
    assert body[..|a|] == a;
    assert body == BodyText(Triple(m, a, b, c));
    var triple := (i: nat) => CommaSplit(body, i) && PairTail(body[i + 1..]).Some?;
    assert PairTail(body[|a| + 1..]) == Some((b, c)) by {
      assert body[|a| + 1..] == tail;
      PairTailOf(b, c);
    }
    assert triple(|a|) && forall j :: |a| < j < |body| ==> !triple(j) by {
      CommaAfterToken(a, tail);
    }
    LastWherePicks(|body|, triple, |a|);
  }

  lemma BasedShapeOf(m: string, r: string, off: string, b: string)
    requires WellFormed(Based(m, r, off, b))
    ensures Trimmed(BodyText(Based(m, r, off, b)))
    ensures ShapeOf(m, BodyText(Based(m, r, off, b))) == Based(m, r, off, b)
  {
    var body := BodyText(Based(m, r, off, b));
    assert body[0] == r[0] && body[|body| - 1] == ')';
    assert body[|r| + 1] == ' ';
    BasedBody(m, r, off, b);
  }

  lemma TripleShapeOf(m: string, a: string, b: string, c: string)
    requires WellFormed(Triple(m, a, b, c))
    ensures Trimmed(BodyText(Triple(m, a, b, c)))
    ensures ShapeOf(m, BodyText(Triple(m, a, b, c))) == Triple(m, a, b, c)
  {
    var body := BodyText(Triple(m, a, b, c));
    assert body[0] == a[0] && body[|body| - 1] == c[|c| - 1];
    assert body[|a| + 1] == ' ';
    TripleNotBased(m, a, b, c);
    TripleBody(m, a, b, c);
  }

  /** The operands of a well-formed shape are trimmed and classified back into that shape. */
  lemma ShapeOfBody(s: Shape)
    requires WellFormed(s) && !s.NoShape?
    ensures Trimmed(BodyText(s))
    ensures ShapeOf(s.m, BodyText(s)) == s
  {
    match s {
      case Bare(_) =>
      case Pair(_, _) =>
      case Based(m, r, off, b) => BasedShapeOf(m, r, off, b);
      case Triple(m, a, b, c) => TripleShapeOf(m, a, b, c);
    }
  }

  /**
    Matching undoes rendering: a well-formed shape written in its canonical
    form, with any blanks around it, is recognised as that same shape.
  */
  lemma MatchShapeRender(s: Shape, w1: string, w2: string)
    requires WellFormed(s) && AllSpace(w1) && AllSpace(w2)
    ensures MatchShape(w1 + Render(s) + w2) == s
  {
    if s.NoShape? {
      assert w1 + Render(s) + w2 == w1 + w2;
    } else {
      ShapeOfBody(s);
      HeadOfLayout(w1, s.m, BodyText(s), w2);
    }
  }
}
