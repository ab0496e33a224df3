/**
 * The two extraction passes of the formatter (frontend/script.js:12-26).
 * Each pass is a global `replace` whose callback pushes the match onto a
 * table and leaves a marker `ESC TAG k ESC` in its place, k being the new
 * table index. Here a pass is first described as the sequence of pieces the
 * regular expression cuts the text into (CodePieces, MathPieces), and the
 * imperative pass (ExtractCode, ExtractMath) is proved to build exactly the
 * marked text and the table those pieces determine.
 */
module Extract {
  import opened Text

  /** A character the pass leaves in place, or an extracted span with the table entry made for it. */
  datatype Piece = Plain(c: char) | Span(block: string)

  const FENCE: string := "```"
  const CODE_TAG: string := "CODE"
  const LATEX_TAG: string := "LATEX"

  // ---------------------------------------------------------------------
  // Code spans: /```([\s\S]*?)```/g

  /** The match of /```([\s\S]*?)```/ at the start of s: its length and the captured body. */
  function CodeMatch(s: string): (r: Option<(nat, string)>)
    ensures r.Some? ==> r.value.0 == |r.value.1| + 6 <= |s|
  {
    if IsAt(s, 0, FENCE) then
      match FindCloser(s, [FENCE], true, 3)
      case Some(q) =>
        assert IsAt(s, q, FENCE);
        Some((q + 3, s[3..q]))
      case None => None
    else None
  }

  /**
   * A code match is a fence, a body and the first fence after it; there is
   * no match only when s does not open with a fence or no fence follows.
   */
  lemma CodeMatchIsLazy(s: string)
    ensures CodeMatch(s).Some? ==> s[..CodeMatch(s).value.0] == FENCE + CodeMatch(s).value.1 + FENCE
    ensures CodeMatch(s).Some? ==> ClosesOnlyAtEnd(CodeMatch(s).value.1, FENCE)
    ensures CodeMatch(s).None? ==> !IsAt(s, 0, FENCE) || HasNo(s[3..], FENCE)
  {
    if IsAt(s, 0, FENCE) {
      match FindCloser(s, [FENCE], true, 3)
      case Some(q) =>
        FencedBody(s, q);
      case None =>
        NoClosingFence(s);
    }
  }

  /** The first fence after the opening one closes a body that holds no earlier fence. */
  lemma FencedBody(s: string, q: nat)
    requires IsAt(s, 0, FENCE) && 3 <= q && IsAt(s, q, FENCE)
    requires forall j :: 3 <= j < q ==> CloserAt(s, j, [FENCE]).None?
    ensures s[..q + 3] == FENCE + s[3..q] + FENCE
    ensures ClosesOnlyAtEnd(s[3..q], FENCE)
  {
    var code := s[3..q];
    var p := s[..q + 3];
    assert p == FENCE + code + FENCE;
    assert code + FENCE == p[3..];
    assert s == p + s[q + 3..];
    forall j | 0 <= j < |code|
      ensures !IsAt(code + FENCE, j, FENCE)
    {
      IsAtSuffix(p, 3, j, FENCE);
      IsAtConcat(p, s[q + 3..], 3 + j, FENCE);
      CloserAtOne(s, 3 + j, FENCE);
    }
  }

  /** No fence from index 3 on: the text after the opening fence holds none. */
  lemma NoClosingFence(s: string)
    requires 3 <= |s|
    requires forall j :: 3 <= j <= |s| ==> CloserAt(s, j, [FENCE]).None?
    ensures HasNo(s[3..], FENCE)
  {
    forall j | 0 <= j <= |s[3..]|
      ensures !IsAt(s[3..], j, FENCE)
    {
      IsAtSuffix(s, 3, j, FENCE);
      CloserAtOne(s, 3 + j, FENCE);
    }
  }

  /** How /```([\s\S]*?)```/g cuts s, left to right; a span keeps its body trimmed (script.js:17-19). */
  function CodePieces(s: string): seq<Piece>
    decreases |s|
  {
    if s == [] then []
    else match CodeMatch(s)
      case Some((n, code)) => [Span(Trim(code))] + CodePieces(s[n..])
      case None => [Plain(s[0])] + CodePieces(s[1..])
  }

  // ---------------------------------------------------------------------
  // Math spans: /(\$\$[\s\S]*?\$\$|\$.*?\$)/g

  /** The length of the match of /(\$\$[\s\S]*?\$\$|\$.*?\$)/ at the start of s, display form tried first. */
  function MathMatch(s: string): (r: Option<nat>)
    ensures r.Some? ==> 2 <= r.value <= |s| && s[0] == '$'
    ensures s == [] || s[0] != '$' ==> r.None?
  {
    var display := if IsAt(s, 0, "$$") then FindCloser(s, ["$$"], true, 2) else None;
    if display.Some? then
      assert IsAt(s, display.value, "$$");
      Some(display.value + 2)
    else if IsAt(s, 0, "$") then
      match FindCloser(s, ["$"], false, 1)
      case Some(q) =>
        assert IsAt(s, q, "$");
        Some(q + 1)
      case None => None
    else None
  }

  /** How the math expression cuts s, left to right; a span keeps the whole match, delimiters included (script.js:23-24). */
  function MathPieces(s: string): seq<Piece>
    decreases |s|
  {
    if s == [] then []
    else match MathMatch(s)
      case Some(n) => [Span(s[..n])] + MathPieces(s[n..])
      case None => [Plain(s[0])] + MathPieces(s[1..])
  }

  // ---------------------------------------------------------------------
  // Markers and tables

  /** The placeholder `\x1B${tag}${k}\x1B` left for the span with table index k. */
  function Marker(tag: string, k: nat): string {
    [ESC] + tag + Decimal(k) + [ESC]
  }

  /** The text a pass returns: plain characters kept, the spans replaced by markers numbered from k on. */
  function Marked(ps: seq<Piece>, tag: string, k: nat): string
    decreases |ps|
  {
    if ps == [] then []
    else match ps[0]
      case Plain(c) => [c] + Marked(ps[1..], tag, k)
      case Span(_) => Marker(tag, k) + Marked(ps[1..], tag, k + 1)
  }

  /** The table a pass fills: the spans' blocks in the order they occur. */
  function Blocks(ps: seq<Piece>): seq<string>
    decreases |ps|
  {
    if ps == [] then []
    else match ps[0]
      case Plain(_) => Blocks(ps[1..])
      case Span(b) => [b] + Blocks(ps[1..])
  }

  /** Every character of s left in place. */
  function Plains(s: string): seq<Piece>
    decreases |s|
  {
    if s == [] then [] else [Plain(s[0])] + Plains(s[1..])
  }

  /** Text with nothing extracted comes back unchanged, with an empty table. */
  lemma {:induction false} MarkedPlains(s: string, tag: string, k: nat)
    ensures Marked(Plains(s), tag, k) == s && Blocks(Plains(s)) == []
    decreases |s|
  {
    if s != [] {
      var ps := Plains(s);
      assert ps[0] == Plain(s[0]) && ps[1..] == Plains(s[1..]);
      MarkedPlains(s[1..], tag, k);
      assert s == [s[0]] + s[1..];
    }
  }

  /** Text without a ``` is not cut by the code expression. */
  lemma {:induction false} CodePiecesWithoutFence(s: string)
    requires HasNo(s, FENCE)
    ensures CodePieces(s) == Plains(s)
    decreases |s|
  {
    if s != [] {
      assert !IsAt(s, 0, FENCE);
      assert HasNo(s[1..], FENCE) by {
        forall j | 0 <= j <= |s[1..]|
          ensures !IsAt(s[1..], j, FENCE)
        {
          IsAtSuffix(s, 1, j, FENCE);
        }
      }
      CodePiecesWithoutFence(s[1..]);
    }
  }

  /** Text without a `$` is not cut by the math expression. */
  lemma {:induction false} MathPiecesWithoutDollar(s: string)
    requires '$' !in s
    ensures MathPieces(s) == Plains(s)
    decreases |s|
  {
    if s != [] {
      assert s[0] in s;
      assert forall c :: c in s[1..] ==> c in s;
      MathPiecesWithoutDollar(s[1..]);
    }
  }

  /** A piece left in place is a character of the text. */
  lemma {:induction false} CodePiecesPlainFromText(s: string)
    ensures forall i :: 0 <= i < |CodePieces(s)| && CodePieces(s)[i].Plain? ==> CodePieces(s)[i].c in s
    decreases |s|
  {
    if s != [] {
      match CodeMatch(s)
      case Some((n, code)) =>
        CodePiecesPlainFromText(s[n..]);
        assert forall c :: c in s[n..] ==> c in s;
      case None =>
        CodePiecesPlainFromText(s[1..]);
        assert forall c :: c in s[1..] ==> c in s;
        assert s[0] in s;
    }
  }

  lemma {:induction false} MathPiecesPlainFromText(s: string)
    ensures forall i :: 0 <= i < |MathPieces(s)| && MathPieces(s)[i].Plain? ==> MathPieces(s)[i].c in s
    decreases |s|
  {
    if s != [] {
      match MathMatch(s)
      case Some(n) =>
        MathPiecesPlainFromText(s[n..]);
        assert forall c :: c in s[n..] ==> c in s;
      case None =>
        MathPiecesPlainFromText(s[1..]);
        assert forall c :: c in s[1..] ==> c in s;
        assert s[0] in s;
    }
  }

  // ---------------------------------------------------------------------
  // How single spans are matched

  /** ```c``` is one code span with body c, when c holds no earlier closing fence. */
  lemma CodeMatchFenced(c: string, rest: string)
    requires ClosesOnlyAtEnd(c, FENCE)
    ensures CodeMatch(FENCE + c + FENCE + rest) == Some((|c| + 6, c))
  {
    var s := FENCE + c + FENCE + rest;
    assert IsAt(s, 0, FENCE) by { assert s[..3] == FENCE; }
    FindsClosingDelimiter(FENCE, c, rest, true);
    assert s[3..3 + |c|] == c;
  }

  /** At one position the display form wins: $$x$$ is matched whole, even when x holds `$` or line breaks. */
  lemma MathMatchDisplay(x: string, rest: string)
    requires ClosesOnlyAtEnd(x, "$$")
    ensures MathMatch("$$" + x + "$$" + rest) == Some(|x| + 4)
  {
    var s := "$$" + x + "$$" + rest;
    assert IsAt(s, 0, "$$") by { assert s[..2] == "$$"; }
    FindsClosingDelimiter("$$", x, rest, true);
  }

  /** $x$ with a non-empty single-line x without `$` is matched by the inline form. */
  lemma MathMatchInline(x: string, rest: string)
    requires x != [] && '$' !in x && SingleLine(x)
    ensures MathMatch("$" + x + "$" + rest) == Some(|x| + 2)
  {
    var s := "$" + x + "$" + rest;
    assert s[1] == x[0];
    assert !IsAt(s, 0, "$$") by { assert x[0] in x; }
    assert IsAt(s, 0, "$") by { assert s[..1] == "$"; }
    assert ClosesOnlyAtEnd(x, "$") by {
      forall j | 0 <= j < |x|
        ensures !IsAt(x + "$", j, "$")
      {
        assert (x + "$")[j] == x[j];
        assert x[j] in x;
      }
    }
    FindsClosingDelimiter("$", x, rest, false);
  }

  /** Inline math never crosses a line terminator: `$a<newline>b$` extracts nothing. */
  lemma InlineMathStaysOnOneLine(x: string)
    requires '$' !in x && !SingleLine(x)
    ensures MathPieces("$" + x + "$") == Plains("$" + x + "$")
  {
    var s := "$" + x + "$";
    var t := x + "$";
    assert s == "$" + t;
    var m :| 0 <= m < |x| && IsLineTerminator(x[m]);
    assert s[1] == x[0];
    assert !IsAt(s, 0, "$$") by { assert x[0] in x; }
    assert s[m + 1] == x[m];
    assert MathMatch(s).None?;
    assert s[1..] == t;
    DollarLastPiecesPlain(x);
    assert s == [s[0]] + s[1..];
  }

  lemma {:induction false} DollarLastPiecesPlain(t: string)
    requires '$' !in t
    ensures MathPieces(t + "$") == Plains(t + "$")
    decreases |t|
  {
    var s := t + "$";
    if t == [] {
      assert s == "$";
      assert !IsAt(s, 0, "$$");
      assert FindCloser(s, ["$"], false, 1).None?;
      assert s[1..] == [];
    } else {
      assert s[0] == t[0] && t[0] in t;
      assert s[1..] == t[1..] + "$";
      assert forall c :: c in t[1..] ==> c in t;
      DollarLastPiecesPlain(t[1..]);
    }
  }

  /** A prefix without backticks holds no fence start: the code pass copies it. */
  lemma {:induction false} CodePiecesPlainPrefix(p: string, t: string)
    requires '`' !in p
    ensures CodePieces(p + t) == Plains(p) + CodePieces(t)
    decreases |p|
  {
    if p == [] {
      assert p + t == t;
    } else {
      var q := p[1..];
      assert p + t == [p[0]] + (q + t);
      assert p[0] in p;
      assert forall c :: c in q ==> c in p;
      CodePiecesPlainHead(p[0], q + t);
      CodePiecesPlainPrefix(q, t);
      assert Plains(p) == [Plain(p[0])] + Plains(q);
      PiecesAssoc([Plain(p[0])], Plains(q), CodePieces(t));
    }
  }

  lemma PiecesAssoc(a: seq<Piece>, b: seq<Piece>, c: seq<Piece>)
    ensures a + (b + c) == (a + b) + c
  {
  }

  lemma CodePiecesPlainHead(c: char, t: string)
    requires c != '`'
    ensures CodePieces([c] + t) == [Plain(c)] + CodePieces(t)
  {
    var s := [c] + t;
    NoFenceAtStart(s, c);
    assert CodeMatch(s).None?;
    assert s[1..] == t;
  }

  lemma NoFenceAtStart(s: string, c: char)
    requires s != [] && s[0] == c && c != '`'
    ensures !IsAt(s, 0, FENCE)
  {
    if 3 <= |s| {
      assert s[..3][0] == s[0];
    }
  }

  /** Plain pieces in front are copied by the marking and add nothing to the table. */
  lemma MarkedPlainsPrefix(p: string, ps: seq<Piece>, tag: string, k: nat)
    ensures Marked(Plains(p) + ps, tag, k) == p + Marked(ps, tag, k)
    ensures Blocks(Plains(p) + ps) == Blocks(ps)
  {
    MarkedConcat(Plains(p), ps, tag, k);
    BlocksConcat(Plains(p), ps);
    MarkedPlains(p, tag, k);
    assert [] + Blocks(ps) == Blocks(ps);
  }

  // ---------------------------------------------------------------------
  // The passes as formatContent runs them: a loop that pushes onto a table

  /** One step of each pass: the first piece, then the pieces of what follows it. */
  lemma CodePiecesStep(t: string)
    requires t != []
    ensures CodeMatch(t).Some? ==>
              CodePieces(t) == [Span(Trim(CodeMatch(t).value.1))] + CodePieces(t[CodeMatch(t).value.0..])
    ensures CodeMatch(t).None? ==> CodePieces(t) == [Plain(t[0])] + CodePieces(t[1..])
  {
  }

  lemma MathPiecesStep(t: string)
    requires t != []
    ensures MathMatch(t).Some? ==>
              MathPieces(t) == [Span(t[..MathMatch(t).value])] + MathPieces(t[MathMatch(t).value..])
    ensures MathMatch(t).None? ==> MathPieces(t) == [Plain(t[0])] + MathPieces(t[1..])
  {
  }

  lemma MarkedConsSpan(blk: string, ps: seq<Piece>, tag: string, k: nat)
    ensures Marked([Span(blk)] + ps, tag, k) == Marker(tag, k) + Marked(ps, tag, k + 1)
    ensures Blocks([Span(blk)] + ps) == [blk] + Blocks(ps)
  {
    var s := [Span(blk)] + ps;
    assert s[0] == Span(blk) && s[1..] == ps;
  }

  lemma MarkedConsPlain(c: char, ps: seq<Piece>, tag: string, k: nat)
    ensures Marked([Plain(c)] + ps, tag, k) == [c] + Marked(ps, tag, k)
    ensures Blocks([Plain(c)] + ps) == Blocks(ps)
  {
    var s := [Plain(c)] + ps;
    assert s[0] == Plain(c) && s[1..] == ps;
  }

  /** The table of a concatenation is the two parts' tables in order. */
  lemma {:induction false} BlocksConcat(a: seq<Piece>, b: seq<Piece>)
    ensures Blocks(a + b) == Blocks(a) + Blocks(b)
    decreases |a|
  {
    if a == [] {
      assert a + b == b && Blocks(a) == [];
    } else {
      var t := a[1..];
      PiecesUncons(a, b);
      BlocksConcat(t, b);
      match a[0]
      case Span(blk) =>
        MarkedConsSpan(blk, t + b, [], 0);
        MarkedConsSpan(blk, t, [], 0);
        BlocksAssoc([blk], Blocks(t), Blocks(b));
      case Plain(c) =>
        MarkedConsPlain(c, t + b, [], 0);
        MarkedConsPlain(c, t, [], 0);
    }
  }

  /** Marking a concatenation: the second part's markers are numbered on from the first part's spans. */
  lemma {:induction false} MarkedConcat(a: seq<Piece>, b: seq<Piece>, tag: string, k: nat)
    ensures Marked(a + b, tag, k) == Marked(a, tag, k) + Marked(b, tag, k + |Blocks(a)|)
    decreases |a|
  {
    if a == [] {
      assert a + b == b && Marked(a, tag, k) == [] && Blocks(a) == [];
    } else {
      var t := a[1..];
      PiecesUncons(a, b);
      match a[0]
      case Span(blk) =>
        MarkedConsSpan(blk, t + b, tag, k);
        MarkedConsSpan(blk, t, tag, k);
        MarkedConcat(t, b, tag, k + 1);
        StringAssoc(Marker(tag, k), Marked(t, tag, k + 1), Marked(b, tag, k + 1 + |Blocks(t)|));
      case Plain(c) =>
        MarkedConsPlain(c, t + b, tag, k);
        MarkedConsPlain(c, t, tag, k);
        MarkedConcat(t, b, tag, k);
        StringAssoc([c], Marked(t, tag, k), Marked(b, tag, k + |Blocks(t)|));
    }
  }

  lemma BlocksAssoc(a: seq<string>, b: seq<string>, c: seq<string>)
    ensures a + (b + c) == (a + b) + c
  {
  }

  lemma PiecesUncons(a: seq<Piece>, b: seq<Piece>)
    requires a != []
    ensures a == [a[0]] + a[1..] && a + b == [a[0]] + (a[1..] + b)
  {
  }

  /** One more piece: its character, or the marker numbered by the spans before it, is appended. */
  lemma MarkedSnoc(done: seq<Piece>, p: Piece, tag: string)
    ensures Marked(done + [p], tag, 0)
            == Marked(done, tag, 0) + (if p.Span? then Marker(tag, |Blocks(done)|) else [p.c])
    ensures Blocks(done + [p]) == Blocks(done) + (if p.Span? then [p.block] else [])
  {
    MarkedConcat(done, [p], tag, 0);
    BlocksConcat(done, [p]);
    MarkedOne(p, tag, |Blocks(done)|);
  }

  lemma MarkedOne(p: Piece, tag: string, k: nat)
    ensures Marked([p], tag, k) == if p.Span? then Marker(tag, k) else [p.c]
    ensures Blocks([p]) == if p.Span? then [p.block] else []
  {
    assert [p][0] == p && [p][1..] == [];
  }

  lemma PiecesSnoc(done: seq<Piece>, p: Piece, now: seq<Piece>, later: seq<Piece>, whole: seq<Piece>)
    requires done + now == whole && now == [p] + later
    ensures (done + [p]) + later == whole
  {
  }

  /**
   * One step of the code pass at the start of rest: a fenced span is pushed
   * onto the table, as the replace callback does, and replaced by the marker
   * numbered k; any other character is copied. n characters are consumed.
   */
  method CodeStep(rest: string, k: nat) returns (out: string, pushed: seq<string>, n: nat, ghost p: Piece)
    requires rest != []
    ensures 0 < n <= |rest| && CodePieces(rest) == [p] + CodePieces(rest[n..])
    ensures out == (if p.Span? then Marker(CODE_TAG, k) else [p.c])
    ensures pushed == (if p.Span? then [p.block] else [])
  {
    var m := CodeMatch(rest);
    CodePiecesStep(rest);
    if m.Some? {
      var code := m.value.1;
      n := m.value.0;
      p := Span(Trim(code));
      pushed := [Trim(code)];
      out := Marker(CODE_TAG, k);
    } else {
      n := 1;
      p := Plain(rest[0]);
      pushed := [];
      out := [rest[0]];
    }
  }

  /**
   * The code pass: every fenced span is replaced by a marker numbered by its
   * place in the table, and its trimmed body is pushed onto the table.
   */
  method ExtractCode(text: string) returns (withCodePreserved: string, codeBlocks: seq<string>)
    ensures withCodePreserved == Marked(CodePieces(text), CODE_TAG, 0)
    ensures codeBlocks == Blocks(CodePieces(text))
  {
    withCodePreserved, codeBlocks := [], [];
    var rest := text;
    ghost var done: seq<Piece> := [];
    while rest != []
      invariant done + CodePieces(rest) == CodePieces(text)
      invariant withCodePreserved == Marked(done, CODE_TAG, 0) && codeBlocks == Blocks(done)
      decreases |rest|
    {
      var out, pushed, n, p := CodeStep(rest, |codeBlocks|);
      MarkedSnoc(done, p, CODE_TAG);
      PiecesSnoc(done, p, CodePieces(rest), CodePieces(rest[n..]), CodePieces(text));
      withCodePreserved := withCodePreserved + out;
      codeBlocks := codeBlocks + pushed;
      done := done + [p];
      rest := rest[n..];
    }
    assert done + [] == done;
  }

  /**
   * One step of the math pass at the start of rest: a math span, delimiters
   * included, is pushed onto the table and replaced by the marker numbered k;
   * any other character is copied. n characters are consumed.
   */
  method MathStep(rest: string, k: nat) returns (out: string, pushed: seq<string>, n: nat, ghost p: Piece)
    requires rest != []
    ensures 0 < n <= |rest| && MathPieces(rest) == [p] + MathPieces(rest[n..])
    ensures out == (if p.Span? then Marker(LATEX_TAG, k) else [p.c])
    ensures pushed == (if p.Span? then [p.block] else [])
  {
    var m := MathMatch(rest);
    MathPiecesStep(rest);
    if m.Some? {
      n := m.value;
      p := Span(rest[..n]);
      pushed := [rest[..n]];
      out := Marker(LATEX_TAG, k);
    } else {
      n := 1;
      p := Plain(rest[0]);
      pushed := [];
      out := [rest[0]];
    }
  }

  /**
   * The math pass: every math span, delimiters included, is pushed onto the
   * table and replaced by a marker numbered by its place in the table.
   */
  method ExtractMath(text: string) returns (withLatexPreserved: string, latexBlocks: seq<string>)
    ensures withLatexPreserved == Marked(MathPieces(text), LATEX_TAG, 0)
    ensures latexBlocks == Blocks(MathPieces(text))
  {
    withLatexPreserved, latexBlocks := [], [];
    var rest := text;
    ghost var done: seq<Piece> := [];
    while rest != []
      invariant done + MathPieces(rest) == MathPieces(text)
      invariant withLatexPreserved == Marked(done, LATEX_TAG, 0) && latexBlocks == Blocks(done)
      decreases |rest|
    {
      var out, pushed, n, p := MathStep(rest, |latexBlocks|);
      MarkedSnoc(done, p, LATEX_TAG);
      PiecesSnoc(done, p, MathPieces(rest), MathPieces(rest[n..]), MathPieces(text));
      withLatexPreserved := withLatexPreserved + out;
      latexBlocks := latexBlocks + pushed;
      done := done + [p];
      rest := rest[n..];
    }
    assert done + [] == done;
  }
}
