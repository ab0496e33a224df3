/**
 * formatContent (frontend/script.js:8-63): extraction of code and math
 * spans, HTML escaping, emphasis, restoration of the spans, and the catch
 * that turns an exception into an error fragment.
 *
 * Formatted is the pipeline as a function of the text, for the page's
 * formatContent as it ships and for a repaired one (bold-italic rules first,
 * math markers passed over whole by the code restoration); FormatContent is
 * formatContent's sequence of steps, proved to compute Formatted in both.
 */
module Formatter {
  import opened Text
  import opened Escape
  import opened Extract
  import opened Markdown
  import opened Restore

  /** The exception handler's fragment (script.js:59-61). */
  function ErrorFragment(message: string): string {
    "<div class=\"error\">Formatting error: " + message + "</div>"
  }

  /** The page's formatContent as it ships, or with both defects repaired. */
  datatype Revision = Shipped | Repaired

  function OrderOf(rev: Revision): EmphasisOrder {
    if rev == Shipped then AsWritten else BoldItalicFirst
  }

  function RestoreCodeIn(rev: Revision, s: string, codeBlocks: seq<string>): string {
    if rev == Shipped then RestoreCode(s, codeBlocks) else RestoreCodeKeepingMath(s, codeBlocks)
  }

  lemma RestoreCodeInRepaired(s: string, codeBlocks: seq<string>)
    ensures RestoreCodeIn(Repaired, s, codeBlocks) == RestoreCodeKeepingMath(s, codeBlocks)
  {
  }

  /** The output of formatContent for a string, defined pass by pass. */
  function Formatted(text: string, rev: Revision): string {
    var codePieces := CodePieces(text);
    var latexPieces := MathPieces(Marked(codePieces, CODE_TAG, 0));
    var escaped := EscapeChain(Marked(latexPieces, LATEX_TAG, 0));
    var withMarkdown := Emphasis(escaped, OrderOf(rev));
    var withCodeRestored := RestoreCodeIn(rev, withMarkdown, Blocks(codePieces));
    match RestoreMath(withCodeRestored, Blocks(latexPieces))
    case Done(html) => html
    case Thrown(message) => ErrorFragment(message)
  }

  /**
   * formatContent on string content, step by step: as script.js runs it
   * for Shipped, with the two corrections for Repaired.
   */
  method FormatContent(content: string, rev: Revision) returns (html: string)
    ensures html == Formatted(content, rev)
  {
    var withCodePreserved, codeBlocks := ExtractCode(content);
    var withLatexPreserved, latexBlocks := ExtractMath(withCodePreserved);
    var escaped := EscapeChain(withLatexPreserved);
    var withMarkdownFormatting := Emphasis(escaped, OrderOf(rev));
    var withCodeRestored := RestoreCodeIn(rev, withMarkdownFormatting, codeBlocks);
    var outcome := RestoreMath(withCodeRestored, latexBlocks);
    if outcome.Done? {
      html := outcome.text;
    } else {
      html := ErrorFragment(outcome.message);
    }
  }

  // ---------------------------------------------------------------------
  // Working through the passes one at a time

  /** Formatted, given the result of each pass. */
  lemma Stages(text: string, rev: Revision, marked: string, codeBlocks: seq<string>,
               latexMarked: string, latexBlocks: seq<string>, formatted: string, restored: string, outcome: Outcome)
    requires Marked(CodePieces(text), CODE_TAG, 0) == marked && Blocks(CodePieces(text)) == codeBlocks
    requires Marked(MathPieces(marked), LATEX_TAG, 0) == latexMarked && Blocks(MathPieces(marked)) == latexBlocks
    requires Emphasis(EscapeChain(latexMarked), OrderOf(rev)) == formatted
    requires RestoreCodeIn(rev, formatted, codeBlocks) == restored
    requires RestoreMath(restored, latexBlocks) == outcome
    ensures Formatted(text, rev) == if outcome.Done? then outcome.text else ErrorFragment(outcome.message)
  {
  }

  /** Escaping adds only entity characters: no mark, no ESC, no line break. */
  lemma EscapeKeeps(s: string)
    ensures Inert(s) ==> Inert(EscapeHtml(s))
    ensures ESC !in s ==> ESC !in EscapeHtml(s)
    ensures SingleLine(s) ==> SingleLine(EscapeHtml(s))
  {
    var e := EscapeHtml(s);
    EscapeHtmlChars(s);
    if SingleLine(s) {
      forall i | 0 <= i < |e|
        ensures !IsLineTerminator(e[i])
      {
        assert e[i] in e;
        if e[i] in s {
          var m :| 0 <= m < |s| && s[m] == e[i];
        }
      }
    }
  }

  lemma EscapeNonEmpty(s: string)
    requires s != []
    ensures EscapeHtml(s) != []
  {
    assert EscapeHtml(s) == EscapeChar(s[0]) + EscapeHtml(s[1..]);
  }

  lemma EscapeChainAbsent(s: string)
    requires '&' !in s && '<' !in s && '>' !in s
    ensures EscapeChain(s) == s
  {
    EscapeChainIsEscapeHtml(s);
    EscapeHtmlAbsent(s);
  }

  /** Both restoration passes leave text without ESC as it is. */
  lemma RestoreWithoutEsc(rev: Revision, s: string, codeBlocks: seq<string>, latexBlocks: seq<string>)
    requires ESC !in s
    ensures RestoreCodeIn(rev, s, codeBlocks) == s
    ensures RestoreMath(s, latexBlocks) == Done(s)
  {
    RestoreCodeWithoutEsc(s, [], codeBlocks);
    KeepingMathWithoutEsc(s, [], codeBlocks);
    RestoreMathWithoutEsc(s, [], latexBlocks);
    assert s + [] == s;
  }

  /** Characters of a marker: ESC, capital letters and digits. */
  predicate MarkerChars(s: string) {
    forall i :: 0 <= i < |s| ==> s[i] == ESC || ('A' <= s[i] <= 'Z') || IsDigit(s[i])
  }

  lemma MarkerHasMarkerChars(tag: string, k: nat)
    requires forall i :: 0 <= i < |tag| ==> 'A' <= tag[i] <= 'Z'
    ensures MarkerChars(Marker(tag, k))
  {
    var m := Marker(tag, k);
    DecimalIsCanonical(k);
    forall i | 0 <= i < |m|
      ensures m[i] == ESC || ('A' <= m[i] <= 'Z') || IsDigit(m[i])
    {
      if 1 <= i < 1 + |tag| {
        assert m[i] == tag[i - 1];
      } else if 1 + |tag| <= i < |m| - 1 {
        assert m[i] == Decimal(k)[i - 1 - |tag|];
      }
    }
  }

  /** Marker characters are untouched by every pass before restoration. */
  lemma MarkerCharsQuiet(s: string)
    requires MarkerChars(s)
    ensures Inert(s) && '$' !in s && HasNo(s, FENCE)
    ensures EscapeChain(s) == s
  {
    assert forall c :: c in s ==> c == ESC || ('A' <= c <= 'Z') || IsDigit(c);
    forall j | 0 <= j <= |s|
      ensures !IsAt(s, j, FENCE)
    {
      if j + 3 <= |s| {
        assert s[j..j + 3][0] == s[j];
        assert FENCE[0] == '`';
      }
    }
    EscapeChainAbsent(s);
  }

  lemma TagsAreCapitals()
    ensures forall i :: 0 <= i < |CODE_TAG| ==> 'A' <= CODE_TAG[i] <= 'Z'
    ensures forall i :: 0 <= i < |LATEX_TAG| ==> 'A' <= LATEX_TAG[i] <= 'Z'
  {
  }

  /** A fence cannot straddle text without backticks on either side of fence-free x. */
  lemma FenceFreeFrame(pre: string, x: string, post: string)
    requires '`' !in pre && '`' !in post && HasNo(x, FENCE)
    ensures HasNo(pre + x + post, FENCE)
  {
    var s := pre + x + post;
    forall j | 0 <= j <= |s|
      ensures !IsAt(s, j, FENCE)
    {
      if j + 3 <= |s| {
        var w := s[j..j + 3];
        assert FENCE[0] == '`' && FENCE[1] == '`' && FENCE[2] == '`';
        if j < |pre| {
          assert w[0] == pre[j] && pre[j] in pre;
        } else if j + 3 <= |pre| + |x| {
          assert w == x[j - |pre|..j - |pre| + 3];
          assert !IsAt(x, j - |pre|, FENCE);
        } else if j < |pre| + |x| {
          var m := |pre| + |x|;
          assert w[m - j] == post[0] && post[0] in post;
        } else {
          assert w[0] == post[j - |pre| - |x|] && post[j - |pre| - |x|] in post;
        }
      }
    }
  }

  // ---------------------------------------------------------------------
  // Text that no pass cuts

  /**
   * When neither extraction cuts the text and it holds no mark and no ESC,
   * the output is the text HTML-escaped, `&` first.
   */
  lemma NothingExtracted(s: string, rev: Revision)
    requires CodePieces(s) == Plains(s) && MathPieces(s) == Plains(s)
    requires Inert(s) && ESC !in s
    ensures Formatted(s, rev) == EscapeHtml(s)
  {
    MarkedPlains(s, CODE_TAG, 0);
    MarkedPlains(s, LATEX_TAG, 0);
    var e := EscapeHtml(s);
    EscapeChainIsEscapeHtml(s);
    EscapeKeeps(s);
    EmphasisInert(e, OrderOf(rev));
    RestoreWithoutEsc(rev, e, [], []);
    Stages(s, rev, s, [], s, [], e, e, Done(e));
  }

  /**
   * Text without a fence, `$`, `*`, `_` or ESC comes out HTML-escaped with
   * `&` replaced first, so no raw `<` or `>` is left in it.
   */
  lemma PlainTextIsEscaped(s: string, rev: Revision)
    requires HasNo(s, FENCE) && '$' !in s && Inert(s) && ESC !in s
    ensures Formatted(s, rev) == EscapeHtml(s)
    ensures '<' !in Formatted(s, rev) && '>' !in Formatted(s, rev)
  {
    CodePiecesWithoutFence(s);
    MathPiecesWithoutDollar(s);
    NothingExtracted(s, rev);
    EscapeHtmlChars(s);
  }

  /** `<` becomes `&lt;`, not `&amp;lt;`. */
  lemma LessThanOnce(rev: Revision)
    ensures Formatted("<", rev) == "&lt;"
  {
    PlainTextIsEscaped("<", rev);
    assert "<"[1..] == [];
  }

  // ---------------------------------------------------------------------
  // Code spans

  /** A marker makes it through extraction, escaping and emphasis unchanged, in either revision. */
  lemma MarkerPassesUntouched(tag: string, k: nat, rev: Revision)
    requires tag == CODE_TAG || tag == LATEX_TAG
    ensures Marked(CodePieces(Marker(tag, k)), CODE_TAG, 0) == Marker(tag, k)
    ensures Blocks(CodePieces(Marker(tag, k))) == []
    ensures Marked(MathPieces(Marker(tag, k)), LATEX_TAG, 0) == Marker(tag, k)
    ensures Blocks(MathPieces(Marker(tag, k))) == []
    ensures Emphasis(EscapeChain(Marker(tag, k)), OrderOf(rev)) == Marker(tag, k)
  {
    var m := Marker(tag, k);
    TagsAreCapitals();
    MarkerHasMarkerChars(tag, k);
    MarkerCharsQuiet(m);
    CodePiecesWithoutFence(m);
    MarkedPlains(m, CODE_TAG, 0);
    MathPiecesWithoutDollar(m);
    MarkedPlains(m, LATEX_TAG, 0);
    EmphasisInert(m, OrderOf(rev));
  }

  /**
   * ```c``` becomes <pre><code>trim(c)</code></pre>, with c neither escaped
   * nor touched by the emphasis rules: it is extracted before both.
   */
  lemma CodeBlockRoundTrip(c: string, rev: Revision)
    requires ClosesOnlyAtEnd(c, FENCE) && ESC !in c
    ensures Formatted(FENCE + c + FENCE, rev) == "<pre><code>" + Trim(c) + "</code></pre>"
  {
    var s := FENCE + c + FENCE;
    CodeOnlyPieces(c);
    var m := Marker(CODE_TAG, 0);
    MarkerPassesUntouched(CODE_TAG, 0, rev);
    var html := CodeHtml(Some(Trim(c)));
    CodeMarkerRestored(rev, [Trim(c)]);
    CodeHtmlWithoutEsc(c);
    RestoreWithoutEsc(rev, html, [], []);
    Stages(s, rev, m, [Trim(c)], m, [], m, html, Done(html));
  }

  lemma CodeHtmlWithoutEsc(c: string)
    requires ESC !in c
    ensures CodeHtml(Some(Trim(c))) == "<pre><code>" + Trim(c) + "</code></pre>"
    ensures ESC !in CodeHtml(Some(Trim(c)))
  {
    TagsWithoutEsc();
    NoEscInTags(Trim(c), "<pre><code>", "</code></pre>");
  }

  lemma CodeOnlyPieces(c: string)
    requires ClosesOnlyAtEnd(c, FENCE)
    ensures CodePieces(FENCE + c + FENCE) == [Span(Trim(c))]
    ensures Marked(CodePieces(FENCE + c + FENCE), CODE_TAG, 0) == Marker(CODE_TAG, 0)
    ensures Blocks(CodePieces(FENCE + c + FENCE)) == [Trim(c)]
  {
    var s := FENCE + c + FENCE;
    CodeMatchFenced(c, []);
    assert s + [] == s;
    assert s[|c| + 6..] == [];
    assert CodePieces(s) == [Span(Trim(c))] + CodePieces([]);
    var ps := [Span(Trim(c))];
    assert ps[1..] == [];
    assert Marked(ps, CODE_TAG, 0) == Marker(CODE_TAG, 0) + [];
  }

  /** A code marker on its own becomes its block's HTML, undefined when the table has no such entry. */
  lemma CodeMarkerAlone(k: nat, codeBlocks: seq<string>)
    ensures RestoreCode(Marker(CODE_TAG, k), codeBlocks)
            == CodeHtml(if k < |codeBlocks| then Some(codeBlocks[k]) else None)
    ensures RestoreCodeKeepingMath(Marker(CODE_TAG, k), codeBlocks)
            == CodeHtml(if k < |codeBlocks| then Some(codeBlocks[k]) else None)
  {
    CodeMarkerAloneShipped(k, codeBlocks);
    CodeMarkerAloneRepaired(k, codeBlocks);
  }

  lemma CodeMarkerAloneShipped(k: nat, codeBlocks: seq<string>)
    ensures RestoreCode(Marker(CODE_TAG, k), codeBlocks)
            == CodeHtml(if k < |codeBlocks| then Some(codeBlocks[k]) else None)
  {
    var m := Marker(CODE_TAG, k);
    assert m + [] == m;
    RestoreCodeMarker(k, [], codeBlocks);
    EmptyTail(CodeHtml(if k < |codeBlocks| then Some(codeBlocks[k]) else None), RestoreCode([], codeBlocks));
  }

  lemma CodeMarkerAloneRepaired(k: nat, codeBlocks: seq<string>)
    ensures RestoreCodeKeepingMath(Marker(CODE_TAG, k), codeBlocks)
            == CodeHtml(if k < |codeBlocks| then Some(codeBlocks[k]) else None)
  {
    var m := Marker(CODE_TAG, k);
    assert m + [] == m;
    KeepingMathCodeMarker(k, [], codeBlocks);
    EmptyTail(CodeHtml(if k < |codeBlocks| then Some(codeBlocks[k]) else None), RestoreCodeKeepingMath([], codeBlocks));
  }

  lemma EmptyTail(h: string, rest: string)
    requires rest == []
    ensures h + rest == h
  {
  }

  lemma CodeMarkerRestored(rev: Revision, codeBlocks: seq<string>)
    requires |codeBlocks| > 0
    ensures RestoreCodeIn(rev, Marker(CODE_TAG, 0), codeBlocks) == CodeHtml(Some(codeBlocks[0]))
  {
    CodeMarkerAlone(0, codeBlocks);
  }

  /** A code marker in the input with no block behind it renders `undefined`. */
  lemma UnknownCodeMarker(k: nat, rev: Revision)
    ensures Formatted(Marker(CODE_TAG, k), rev) == "<pre><code>undefined</code></pre>"
  {
    var m := Marker(CODE_TAG, k);
    MarkerPassesUntouched(CODE_TAG, k, rev);
    UnknownCodeMarkerRestored(k, rev);
    var html := CodeHtml(None);
    RestoreWithoutEsc(rev, html, [], []);
    Stages(m, rev, m, [], m, [], m, html, Done(html));
  }

  lemma UnknownCodeMarkerRestored(k: nat, rev: Revision)
    ensures RestoreCodeIn(rev, Marker(CODE_TAG, k), []) == CodeHtml(None)
    ensures CodeHtml(None) == "<pre><code>undefined</code></pre>" && ESC !in CodeHtml(None)
  {
    CodeMarkerAlone(k, []);
    UndefinedCodeHtml();
  }

  lemma UndefinedCodeHtml()
    ensures CodeHtml(None) == "<pre><code>undefined</code></pre>" && ESC !in CodeHtml(None)
  {
  }

  // ---------------------------------------------------------------------
  // Prose between code blocks

  /** A character of prose that no pass but escaping reacts to. */
  predicate QuietProse(c: char) {
    c != '$' && c != '*' && c != '_' && c != ESC
  }

  /** Quiet prose between any number of code blocks that hold no ESC. */
  predicate ProseAndBlocks(ps: seq<Piece>) {
    forall i :: 0 <= i < |ps| ==>
      (ps[i].Plain? ==> QuietProse(ps[i].c)) && (ps[i].Span? ==> ESC !in ps[i].block)
  }

  /** What the page should show for such pieces: the prose HTML-escaped, each block verbatim in its place. */
  function ProseAndCode(ps: seq<Piece>): string
    decreases |ps|
  {
    if ps == [] then []
    else match ps[0]
      case Plain(c) => EscapeChar(c) + ProseAndCode(ps[1..])
      case Span(b) => CodeHtml(Some(b)) + ProseAndCode(ps[1..])
  }

  /**
   * Prose mixed with code blocks, in either revision: every block comes back
   * at its marker, in order, neither escaped nor emphasised, while the prose
   * between the blocks is HTML-escaped, `&` first.
   */
  lemma ProseWithCodeBlocks(s: string, rev: Revision)
    requires ProseAndBlocks(CodePieces(s))
    ensures Formatted(s, rev) == ProseAndCode(CodePieces(s))
  {
    var ps := CodePieces(s);
    var m := Marked(ps, CODE_TAG, 0);
    MarkedProseQuiet(ps, 0);
    MathPiecesWithoutDollar(m);
    MarkedPlains(m, LATEX_TAG, 0);
    var e := EscapeHtml(m);
    EscapeChainIsEscapeHtml(m);
    EscapeKeeps(m);
    EmphasisInert(e, OrderOf(rev));
    TableFromWhole(ps);
    ProseRestored(ps, Blocks(ps), 0, rev);
    var html := ProseAndCode(ps);
    ProseAndCodeWithoutEsc(ps);
    RestoreWithoutEsc(rev, html, [], []);
    Stages(s, rev, m, Blocks(ps), m, [], e, html, Done(html));
  }

  lemma ProseAndBlocksTail(ps: seq<Piece>)
    requires ps != [] && ProseAndBlocks(ps)
    ensures ProseAndBlocks(ps[1..])
    ensures ps[0].Plain? ==> QuietProse(ps[0].c)
    ensures ps[0].Span? ==> ESC !in ps[0].block
  {
    forall i | 0 <= i < |ps[1..]|
      ensures (ps[1..][i].Plain? ==> QuietProse(ps[1..][i].c)) && (ps[1..][i].Span? ==> ESC !in ps[1..][i].block)
    {
      assert ps[1..][i] == ps[i + 1];
    }
  }

  lemma TableFromWhole(ps: seq<Piece>)
    ensures TableFrom(Blocks(ps), 0, ps)
  {
    assert Blocks(ps)[0..|Blocks(ps)|] == Blocks(ps);
  }

  /** The code-marked text adds only marker characters to the prose: no `$` and no mark. */
  lemma {:induction false} MarkedProseQuiet(ps: seq<Piece>, k: nat)
    requires ProseAndBlocks(ps)
    ensures '$' !in Marked(ps, CODE_TAG, k) && Inert(Marked(ps, CODE_TAG, k))
    decreases |ps|
  {
    if ps != [] {
      ProseAndBlocksTail(ps);
      match ps[0]
      case Plain(c) =>
        MarkedProseQuiet(ps[1..], k);
      case Span(_) =>
        MarkedProseQuiet(ps[1..], k + 1);
        TagsAreCapitals();
        MarkerHasMarkerChars(CODE_TAG, k);
        MarkerCharsQuiet(Marker(CODE_TAG, k));
    }
  }

  /** Escaping and then restoring the code markers of such pieces gives ProseAndCode. */
  lemma {:induction false} ProseRestored(ps: seq<Piece>, table: seq<string>, k: nat, rev: Revision)
    requires ProseAndBlocks(ps) && TableFrom(table, k, ps)
    ensures RestoreCodeIn(rev, EscapeHtml(Marked(ps, CODE_TAG, k)), table) == ProseAndCode(ps)
    decreases |ps|
  {
    if ps == [] {
      RestoreWithoutEsc(rev, [], table, []);
    } else {
      TableFromTail(table, k, ps);
      ProseAndBlocksTail(ps);
      match ps[0]
      case Plain(c) =>
        var rest := Marked(ps[1..], CODE_TAG, k);
        EscapeHtmlConcat([c], rest);
        EscapeOne(c);
        RestoreCodeInPrefix(rev, EscapeChar(c), EscapeHtml(rest), table);
        ProseRestored(ps[1..], table, k, rev);
      case Span(b) =>
        var rest := Marked(ps[1..], CODE_TAG, k + 1);
        EscapeHtmlConcat(Marker(CODE_TAG, k), rest);
        MarkerEscapesToItself(k);
        RestoreCodeInMarker(rev, k, EscapeHtml(rest), table);
        ProseRestored(ps[1..], table, k + 1, rev);
    }
  }

  lemma EscapeOne(c: char)
    requires c != ESC
    ensures EscapeHtml([c]) == EscapeChar(c) && ESC !in EscapeChar(c)
  {
    assert [c][1..] == [];
  }

  lemma MarkerEscapesToItself(k: nat)
    ensures EscapeHtml(Marker(CODE_TAG, k)) == Marker(CODE_TAG, k)
  {
    TagsAreCapitals();
    MarkerHasMarkerChars(CODE_TAG, k);
    MarkerCharsQuiet(Marker(CODE_TAG, k));
    EscapeChainIsEscapeHtml(Marker(CODE_TAG, k));
  }

  /** Either code pass copies text without ESC. */
  lemma RestoreCodeInPrefix(rev: Revision, a: string, t: string, codeBlocks: seq<string>)
    requires ESC !in a
    ensures RestoreCodeIn(rev, a + t, codeBlocks) == a + RestoreCodeIn(rev, t, codeBlocks)
  {
    RestoreCodeWithoutEsc(a, t, codeBlocks);
    KeepingMathWithoutEsc(a, t, codeBlocks);
  }

  /** Either code pass puts block k at code marker k. */
  lemma RestoreCodeInMarker(rev: Revision, k: nat, t: string, codeBlocks: seq<string>)
    ensures RestoreCodeIn(rev, Marker(CODE_TAG, k) + t, codeBlocks)
            == CodeHtml(if k < |codeBlocks| then Some(codeBlocks[k]) else None) + RestoreCodeIn(rev, t, codeBlocks)
  {
    RestoreCodeMarker(k, t, codeBlocks);
    KeepingMathCodeMarker(k, t, codeBlocks);
  }

  lemma {:induction false} ProseAndCodeWithoutEsc(ps: seq<Piece>)
    requires ProseAndBlocks(ps)
    ensures ESC !in ProseAndCode(ps)
    decreases |ps|
  {
    if ps != [] {
      ProseAndBlocksTail(ps);
      ProseAndCodeWithoutEsc(ps[1..]);
      match ps[0]
      case Plain(c) =>
        EscapeOne(c);
      case Span(b) =>
        TagsWithoutEsc();
        NoEscInTags(b, "<pre><code>", "</code></pre>");
    }
  }

  // ---------------------------------------------------------------------
  // Math spans

  /** The one math span s is extracted whole into table entry 0. */
  lemma MathOnlyPieces(s: string, n: nat)
    requires HasNo(s, FENCE) && MathMatch(s) == Some(n) && n == |s|
    ensures Marked(CodePieces(s), CODE_TAG, 0) == s && Blocks(CodePieces(s)) == []
    ensures Marked(MathPieces(s), LATEX_TAG, 0) == Marker(LATEX_TAG, 0)
    ensures Blocks(MathPieces(s)) == [s]
  {
    CodePiecesWithoutFence(s);
    MarkedPlains(s, CODE_TAG, 0);
    WholeMathSpan(s);
    var ps := [Span(s)];
    assert ps[1..] == [];
    assert Marked(ps, LATEX_TAG, 0) == Marker(LATEX_TAG, 0) + [];
  }

  lemma WholeMathSpan(s: string)
    requires MathMatch(s) == Some(|s|)
    ensures MathPieces(s) == [Span(s)]
  {
    MathPiecesStep(s);
    assert s[..|s|] == s;
    assert s[|s|..] == [];
  }

  /** A math marker with its block behind it becomes the block's container, in either revision. */
  lemma MathMarkerRestored(rev: Revision, latex: string)
    ensures RestoreMath(RestoreCodeIn(rev, Emphasis(EscapeChain(Marker(LATEX_TAG, 0)), OrderOf(rev)), []), [latex])
            == Done(MathHtml(latex))
  {
    var m := Marker(LATEX_TAG, 0);
    TagsAreCapitals();
    MarkerHasMarkerChars(LATEX_TAG, 0);
    MarkerCharsQuiet(m);
    EmphasisInert(m, OrderOf(rev));
    assert m + [] == m;
    RestoreCodeKeepsMathMarker(0, [], []);
    KeepingMathKeepsMathMarker(0, [], []);
    RestoreMathMarker(0, [], [latex]);
    assert MathHtml(latex) + [] == MathHtml(latex);
  }

  /** $$x$$ becomes a display container holding x as it was, line breaks and `$` included. */
  lemma DisplayMathRoundTrip(x: string, rev: Revision)
    requires ClosesOnlyAtEnd(x, "$$") && HasNo(x, FENCE)
    ensures Formatted("$$" + x + "$$", rev) == "<div class=\"math-display\">" + x + "</div>"
  {
    var s := "$$" + x + "$$";
    FenceFreeFrame("$$", x, "$$");
    MathMatchDisplay(x, []);
    assert s + [] == s;
    MathOnlyPieces(s, |x| + 4);
    MathMarkerRestored(rev, s);
    MathHtmlForms(x);
    var m := Marker(LATEX_TAG, 0);
    var f := Emphasis(EscapeChain(m), OrderOf(rev));
    Stages(s, rev, s, [], m, [s], f, RestoreCodeIn(rev, f, []), Done(MathHtml(s)));
  }

  /** $x$, x one line without `$`, becomes an inline container holding x as it was. */
  lemma InlineMathRoundTrip(x: string, rev: Revision)
    requires x != [] && '$' !in x && SingleLine(x) && HasNo(x, FENCE)
    ensures Formatted("$" + x + "$", rev) == "<span class=\"math-inline\">" + x + "</span>"
  {
    var s := "$" + x + "$";
    FenceFreeFrame("$", x, "$");
    MathMatchInline(x, []);
    assert s + [] == s;
    MathOnlyPieces(s, |x| + 2);
    MathMarkerRestored(rev, s);
    assert x[0] in x;
    MathHtmlForms(x);
    var m := Marker(LATEX_TAG, 0);
    var f := Emphasis(EscapeChain(m), OrderOf(rev));
    Stages(s, rev, s, [], m, [s], f, RestoreCodeIn(rev, f, []), Done(MathHtml(s)));
  }

  /** `$$` alone is taken by the inline form but restored as an empty display container. */
  lemma LoneDoubleDollar(rev: Revision)
    ensures Formatted("$$", rev) == "<div class=\"math-display\"></div>"
  {
    var s := "$$";
    assert FindCloser(s, ["$$"], true, 2).None?;
    assert FindCloser(s, ["$"], false, 1) == Some(1);
    assert MathMatch(s) == Some(2);
    assert HasNo(s, FENCE) by {
      forall j | 0 <= j <= |s|
        ensures !IsAt(s, j, FENCE)
      {
      }
    }
    MathOnlyPieces(s, 2);
    MathMarkerRestored(rev, s);
    MathHtmlForms([]);
    var m := Marker(LATEX_TAG, 0);
    var f := Emphasis(EscapeChain(m), OrderOf(rev));
    Stages(s, rev, s, [], m, [s], f, RestoreCodeIn(rev, f, []), Done(MathHtml(s)));
  }

  /** Inline math does not cross a line break: $x$ with a break in x is escaped text. */
  lemma InlineMathNotAcrossLines(x: string, rev: Revision)
    requires '$' !in x && !SingleLine(x) && HasNo(x, FENCE) && Inert(x) && ESC !in x
    ensures Formatted("$" + x + "$", rev) == "$" + EscapeHtml(x) + "$"
  {
    var s := "$" + x + "$";
    FenceFreeFrame("$", x, "$");
    CodePiecesWithoutFence(s);
    InlineMathStaysOnOneLine(x);
    assert Inert(s) && ESC !in s by {
      assert forall c :: c in s ==> c == '$' || c in x;
    }
    NothingExtracted(s, rev);
    EscapeHtmlConcat("$", x);
    EscapeHtmlConcat("$" + x, "$");
    EscapeHtmlAbsent("$");
  }

  /** A math marker in the input with no block behind it makes the pass throw: the output is the error fragment. */
  lemma UnknownMathMarker(k: nat, rev: Revision)
    ensures Formatted(Marker(LATEX_TAG, k), rev) == ErrorFragment(UNDEFINED_STARTS_WITH)
  {
    var m := Marker(LATEX_TAG, k);
    MarkerPassesUntouched(LATEX_TAG, k, rev);
    assert m + [] == m;
    RestoreCodeKeepsMathMarker(k, [], []);
    KeepingMathKeepsMathMarker(k, [], []);
    RestoreMathMarker(k, [], []);
    Stages(m, rev, m, [], m, [], m, m, Thrown(UNDEFINED_STARTS_WITH));
  }

  // ---------------------------------------------------------------------
  // Emphasis

  /** Text for which only the emphasis chain acts: the output is the chain applied to the escaped text. */
  lemma OnlyEmphasis(s: string, rev: Revision)
    requires HasNo(s, FENCE) && '$' !in s && ESC !in s
    requires ESC !in Emphasis(EscapeHtml(s), OrderOf(rev))
    ensures Formatted(s, rev) == Emphasis(EscapeHtml(s), OrderOf(rev))
  {
    CodePiecesWithoutFence(s);
    MathPiecesWithoutDollar(s);
    MarkedPlains(s, CODE_TAG, 0);
    MarkedPlains(s, LATEX_TAG, 0);
    EscapeChainIsEscapeHtml(s);
    var f := Emphasis(EscapeHtml(s), OrderOf(rev));
    RestoreWithoutEsc(rev, f, [], []);
    Stages(s, rev, s, [], s, [], f, f, Done(f));
  }

  /** The escaped text between two delimiters d, where d needs no escaping. */
  lemma EscapeBetween(d: string, a: string)
    requires '&' !in d && '<' !in d && '>' !in d
    ensures EscapeHtml(d + a + d) == d + EscapeHtml(a) + d
  {
    EscapeHtmlConcat(d, a);
    EscapeHtmlConcat(d + a, d);
    EscapeHtmlAbsent(d);
  }

  /** Delimiters that hold no backtick, `$` or ESC frame a text the extraction passes leave alone. */
  lemma Unextracted(d: string, a: string)
    requires '`' !in d && '$' !in d && ESC !in d
    requires HasNo(a, FENCE) && '$' !in a && ESC !in a
    ensures HasNo(d + a + d, FENCE) && '$' !in d + a + d && ESC !in d + a + d
  {
    FenceFreeFrame(d, a, d);
    assert forall c :: c in d + a + d ==> c in d || c in a;
  }

  /** The HTML the passes write holds no ESC. */
  lemma TagsWithoutEsc()
    ensures ESC !in "<strong>" && ESC !in "</strong>" && ESC !in "<em>" && ESC !in "</em>"
    ensures ESC !in "<strong><em>" && ESC !in "</strong></em>" && ESC !in "</em></strong>"
    ensures ESC !in "<pre><code>" && ESC !in "</code></pre>"
  {
  }

  lemma NoEscInTags(a: string, before: string, after: string)
    requires ESC !in a && ESC !in before && ESC !in after
    ensures ESC !in before + a + after
  {
    assert forall c :: c in before + a + after ==> c in before || c in a || c in after;
  }

  /** A delimiter that no pass but emphasis reacts to, and that escaping leaves alone. */
  predicate QuietDelimiter(d: string) {
    '`' !in d && '$' !in d && ESC !in d && '&' !in d && '<' !in d && '>' !in d
  }

  lemma StarsAreQuiet()
    ensures QuietDelimiter("*") && QuietDelimiter("**") && QuietDelimiter("***")
  {
  }

  /** d + a + d, d made of emphasis marks, reaches the emphasis chain as d + escaped a + d, and nothing after it acts. */
  lemma Delimited(d: string, a: string, rev: Revision, out: string)
    requires QuietDelimiter(d)
    requires HasNo(a, FENCE) && '$' !in a && ESC !in a
    requires Emphasis(d + EscapeHtml(a) + d, OrderOf(rev)) == out && ESC !in out
    ensures Formatted(d + a + d, rev) == out
  {
    EscapeBetween(d, a);
    Unextracted(d, a);
    OnlyEmphasis(d + a + d, rev);
  }

  /** Escaping keeps a body one line, free of marks and free of ESC. */
  lemma EscapedBody(a: string)
    requires Inert(a) && SingleLine(a) && ESC !in a
    ensures Inert(EscapeHtml(a)) && SingleLine(EscapeHtml(a)) && ESC !in EscapeHtml(a)
  {
    EscapeKeeps(a);
  }

  lemma BoldOfEscaped(a: string, rev: Revision)
    requires Inert(a) && SingleLine(a) && ESC !in a
    ensures Emphasis("**" + EscapeHtml(a) + "**", OrderOf(rev)) == "<strong>" + EscapeHtml(a) + "</strong>"
    ensures ESC !in "<strong>" + EscapeHtml(a) + "</strong>"
  {
    BoldOfEscapedWraps(a, rev);
    StrongNoEsc(a);
  }

  lemma BoldOfEscapedWraps(a: string, rev: Revision)
    requires Inert(a) && SingleLine(a) && ESC !in a
    ensures Emphasis("**" + EscapeHtml(a) + "**", OrderOf(rev)) == "<strong>" + EscapeHtml(a) + "</strong>"
  {
    EscapedBody(a);
    BoldWraps(EscapeHtml(a), OrderOf(rev));
  }

  lemma StrongNoEsc(a: string)
    requires Inert(a) && SingleLine(a) && ESC !in a
    ensures ESC !in "<strong>" + EscapeHtml(a) + "</strong>"
  {
    EscapedBody(a);
    TagsWithoutEsc();
    NoEscInTags(EscapeHtml(a), "<strong>", "</strong>");
  }

  lemma ItalicOfEscaped(a: string, rev: Revision)
    requires Inert(a) && SingleLine(a) && ESC !in a
    ensures Emphasis("*" + EscapeHtml(a) + "*", OrderOf(rev)) == "<em>" + EscapeHtml(a) + "</em>"
    ensures ESC !in "<em>" + EscapeHtml(a) + "</em>"
  {
    EscapedBody(a);
    ItalicWraps(EscapeHtml(a), OrderOf(rev));
    TagsWithoutEsc();
    NoEscInTags(EscapeHtml(a), "<em>", "</em>");
  }

  lemma TripleOfEscapedShipped(a: string)
    requires a != [] && Inert(a) && SingleLine(a) && ESC !in a
    ensures Emphasis("***" + EscapeHtml(a) + "***", OrderOf(Shipped)) == "<strong><em>" + EscapeHtml(a) + "</strong></em>"
    ensures ESC !in "<strong><em>" + EscapeHtml(a) + "</strong></em>"
  {
    var e := EscapeHtml(a);
    EscapedBody(a);
    EscapeNonEmpty(a);
    assert Emphasis("***" + e + "***", AsWritten) == "<strong><em>" + e + "</strong></em>" by {
      TripleAsWritten(e);
    }
    TagsWithoutEsc();
    NoEscInTags(e, "<strong><em>", "</strong></em>");
  }

  lemma TripleOfEscapedRepaired(a: string)
    requires Inert(a) && SingleLine(a) && ESC !in a
    ensures Emphasis("***" + EscapeHtml(a) + "***", OrderOf(Repaired)) == "<strong><em>" + EscapeHtml(a) + "</em></strong>"
    ensures ESC !in "<strong><em>" + EscapeHtml(a) + "</em></strong>"
  {
    EscapedBody(a);
    TripleBoldItalicFirst(EscapeHtml(a));
    TagsWithoutEsc();
    NoEscInTags(EscapeHtml(a), "<strong><em>", "</em></strong>");
  }

  /** `**a**` becomes <strong>a</strong>, a escaped, when a is one line without marks, in either revision. */
  lemma BoldRendered(a: string, rev: Revision)
    requires Inert(a) && SingleLine(a) && HasNo(a, FENCE) && '$' !in a && ESC !in a
    ensures Formatted("**" + a + "**", rev) == "<strong>" + EscapeHtml(a) + "</strong>"
  {
    BoldOfEscaped(a, rev);
    StarsAreQuiet();
    Delimited("**", a, rev, "<strong>" + EscapeHtml(a) + "</strong>");
  }

  /** `*a*` becomes <em>a</em>, a escaped, when a is one line without marks, in either revision. */
  lemma ItalicRendered(a: string, rev: Revision)
    requires Inert(a) && SingleLine(a) && HasNo(a, FENCE) && '$' !in a && ESC !in a
    ensures Formatted("*" + a + "*", rev) == "<em>" + EscapeHtml(a) + "</em>"
  {
    ItalicOfEscaped(a, rev);
    StarsAreQuiet();
    Delimited("*", a, rev, "<em>" + EscapeHtml(a) + "</em>");
  }

  /** As shipped, `***x***` comes out with crossed tags. */
  lemma TripleRenderedShipped(x: string)
    requires x != [] && Inert(x) && SingleLine(x) && HasNo(x, FENCE) && '$' !in x && ESC !in x
    ensures Formatted("***" + x + "***", Shipped) == "<strong><em>" + EscapeHtml(x) + "</strong></em>"
  {
    TripleOfEscapedShipped(x);
    StarsAreQuiet();
    Delimited("***", x, Shipped, "<strong><em>" + EscapeHtml(x) + "</strong></em>");
  }

  /** Repaired, `***x***` nests the tags. */
  lemma TripleRenderedRepaired(x: string)
    requires Inert(x) && SingleLine(x) && HasNo(x, FENCE) && '$' !in x && ESC !in x
    ensures Formatted("***" + x + "***", Repaired) == "<strong><em>" + EscapeHtml(x) + "</em></strong>"
  {
    TripleOfEscapedRepaired(x);
    StarsAreQuiet();
    Delimited("***", x, Repaired, "<strong><em>" + EscapeHtml(x) + "</em></strong>");
  }

  // ---------------------------------------------------------------------
  // The marker collision: user text that spells the tail of a code marker

  /** Inline math, then the characters CODE0, then a code block. */
  function CollisionInput(x: string, y: string): string {
    "$" + x + "$" + CODE_TAG + "0" + FENCE + y + FENCE
  }

  /** What the math pass leaves after the inline span: CODE0 and the code marker. */
  function CollisionTail(): string {
    CODE_TAG + "0" + Marker(CODE_TAG, 0)
  }

  lemma MarkerCharsConcat(a: string, b: string)
    requires MarkerChars(a) && MarkerChars(b)
    ensures MarkerChars(a + b)
  {
    forall i | 0 <= i < |a + b|
      ensures (a + b)[i] == ESC || ('A' <= (a + b)[i] <= 'Z') || IsDigit((a + b)[i])
    {
      if i < |a| {
        assert (a + b)[i] == a[i];
      } else {
        assert (a + b)[i] == b[i - |a|];
      }
    }
  }

  lemma CollisionTailChars()
    ensures MarkerChars(CollisionTail())
    ensures MarkerChars(Marker(LATEX_TAG, 0) + CollisionTail())
  {
    TagsAreCapitals();
    MarkerHasMarkerChars(CODE_TAG, 0);
    MarkerHasMarkerChars(LATEX_TAG, 0);
    assert MarkerChars(CODE_TAG + "0");
    MarkerCharsConcat(CODE_TAG + "0", Marker(CODE_TAG, 0));
    MarkerCharsConcat(Marker(LATEX_TAG, 0), CollisionTail());
  }

  /** The code pass copies everything in front of the fence and takes the block. */
  lemma CollisionCodePass(x: string, y: string)
    requires '`' !in x && ClosesOnlyAtEnd(y, FENCE)
    ensures Marked(CodePieces(CollisionInput(x, y)), CODE_TAG, 0) == "$" + x + "$" + CollisionTail()
    ensures Blocks(CodePieces(CollisionInput(x, y))) == [Trim(y)]
  {
    var p := "$" + x + "$" + CODE_TAG + "0";
    var q := FENCE + y + FENCE;
    assert CollisionInput(x, y) == p + q;
    assert '`' !in p by {
      assert forall c :: c in p ==> c == '$' || c in x || c in CODE_TAG || c == '0';
    }
    CodePiecesPlainPrefix(p, q);
    CodeOnlyPieces(y);
    MarkedPlainsPrefix(p, [Span(Trim(y))], CODE_TAG, 0);
    CollisionTailGroups(x);
  }

  lemma CollisionTailGroups(x: string)
    ensures ("$" + x + "$" + CODE_TAG + "0") + Marker(CODE_TAG, 0) == "$" + x + "$" + CollisionTail()
  {
  }

  /** The math pass takes the inline span and copies the rest. */
  lemma CollisionMathPass(x: string)
    requires x != [] && '$' !in x && SingleLine(x)
    ensures Marked(MathPieces("$" + x + "$" + CollisionTail()), LATEX_TAG, 0) == Marker(LATEX_TAG, 0) + CollisionTail()
    ensures Blocks(MathPieces("$" + x + "$" + CollisionTail())) == ["$" + x + "$"]
  {
    var rest := CollisionTail();
    var s := "$" + x + "$" + rest;
    MathMatchInline(x, rest);
    MathPiecesStep(s);
    assert s[..|x| + 2] == "$" + x + "$";
    assert s[|x| + 2..] == rest;
    CollisionTailChars();
    MarkerCharsQuiet(rest);
    MathPiecesWithoutDollar(rest);
    MarkedConsSpan("$" + x + "$", Plains(rest), LATEX_TAG, 0);
    MarkedPlains(rest, LATEX_TAG, 1);
  }

  /** What reaches the restoration passes, in either revision. */
  lemma CollisionBeforeRestore(x: string, y: string, rev: Revision, restored: string, html: string)
    requires x != [] && '$' !in x && SingleLine(x) && '`' !in x && ClosesOnlyAtEnd(y, FENCE)
    requires RestoreCodeIn(rev, Marker(LATEX_TAG, 0) + CollisionTail(), [Trim(y)]) == restored
    requires RestoreMath(restored, ["$" + x + "$"]) == Done(html)
    ensures Formatted(CollisionInput(x, y), rev) == html
  {
    var marked := "$" + x + "$" + CollisionTail();
    var latexMarked := Marker(LATEX_TAG, 0) + CollisionTail();
    CollisionCodePass(x, y);
    CollisionMathPass(x);
    CollisionTailChars();
    MarkerCharsQuiet(latexMarked);
    EmphasisInert(latexMarked, OrderOf(rev));
    Stages(CollisionInput(x, y), rev, marked, [Trim(y)], latexMarked, ["$" + x + "$"], latexMarked, restored, Done(html));
  }

  lemma Regroup4(a: string, b: string, c: string, d: string)
    ensures a + (b + c + (d + b + c + d)) == a + b + c + d + (b + c + d)
  {
  }

  /** As shipped, the code pass reads the LATEX marker's closing ESC as the opening of a code marker. */
  lemma CollisionCodeShipped(h: string, codeBlocks: seq<string>)
    requires |codeBlocks| > 0 && h == CodeHtml(Some(codeBlocks[0]))
    ensures RestoreCode(Marker(LATEX_TAG, 0) + CollisionTail(), codeBlocks)
            == [ESC] + LATEX_TAG + "0" + h + (CODE_TAG + "0" + [ESC])
  {
    var m := Marker(LATEX_TAG, 0);
    var c := CODE_TAG;
    var z := Decimal(0);
    var e := [ESC];
    CollisionTailParts();
    var t := c + z + e;
    Regroup4(m, c, z, e);
    MathMarkerCollision(0, 0, t, codeBlocks);
    RestoreCodeWithoutEsc(c + z, e, codeBlocks);
    LoneEsc(codeBlocks, []);
  }

  lemma CollisionTailParts()
    ensures Decimal(0) == "0" && ESC !in CODE_TAG + "0"
    ensures Marker(CODE_TAG, 0) == [ESC] + CODE_TAG + "0" + [ESC]
    ensures CollisionTail() == CODE_TAG + "0" + ([ESC] + CODE_TAG + "0" + [ESC])
  {
  }

  lemma Regroup5(e: string, l: string, z: string, h: string, c: string)
    ensures e + l + z + h + (c + z + e) == e + l + z + (h + (c + z + e))
    ensures l + z + (h + (c + z + e)) == (l + z + h + c + z) + e
    ensures e + ((l + z + h + c + z) + e) == e + l + z + h + c + z + e
  {
  }

  /** The math pass then finds no marker: the output keeps the ESC characters. */
  lemma CollisionMathShipped(h: string, latexBlocks: seq<string>)
    requires ESC !in h && h != [] && h[0] == '<'
    ensures RestoreMath([ESC] + LATEX_TAG + "0" + h + (CODE_TAG + "0" + [ESC]), latexBlocks)
            == Done([ESC] + LATEX_TAG + "0" + h + CODE_TAG + "0" + [ESC])
  {
    var e := [ESC];
    var l := LATEX_TAG;
    var z := Decimal(0);
    var c := CODE_TAG;
    assert z == "0";
    var rest := h + (c + z + e);
    var a := l + z + h + c + z;
    Regroup5(e, l, z, h, c);
    RestoreMathBrokenMarker(0, rest, latexBlocks);
    MidWithoutEsc(h);
    RestoreMathWithoutEsc(a, e, latexBlocks);
    LoneEsc([], latexBlocks);
  }

  lemma MidWithoutEsc(h: string)
    requires ESC !in h
    ensures ESC !in LATEX_TAG + Decimal(0) + h + CODE_TAG + Decimal(0)
  {
    var a := LATEX_TAG + Decimal(0) + h + CODE_TAG + Decimal(0);
    assert Decimal(0) == "0";
    assert forall c :: c in a ==> c in LATEX_TAG || c == '0' || c in h || c in CODE_TAG;
  }

  /**
   * As shipped, `$x$CODE0` before a code block loses the math: the output
   * holds ESC, LATEX0, the code block, CODE0 and ESC.
   */
  lemma CollisionShipped(x: string, y: string)
    requires x != [] && '$' !in x && SingleLine(x) && '`' !in x
    requires ClosesOnlyAtEnd(y, FENCE) && ESC !in y
    ensures Formatted(CollisionInput(x, y), Shipped)
            == [ESC] + LATEX_TAG + "0" + ("<pre><code>" + Trim(y) + "</code></pre>") + CODE_TAG + "0" + [ESC]
  {
    var h := CodeHtml(Some(Trim(y)));
    CodeHtmlWithoutEsc(y);
    var restored := [ESC] + LATEX_TAG + "0" + h + (CODE_TAG + "0" + [ESC]);
    CollisionCodeShipped(h, [Trim(y)]);
    CollisionMathShipped(h, ["$" + x + "$"]);
    CollisionBeforeRestore(x, y, Shipped, restored, [ESC] + LATEX_TAG + "0" + h + CODE_TAG + "0" + [ESC]);
  }

  /** Repaired, the LATEX marker is passed over whole and the code marker after CODE0 is found. */
  lemma CollisionCodeRepaired(h: string, codeBlocks: seq<string>)
    requires |codeBlocks| > 0 && h == CodeHtml(Some(codeBlocks[0]))
    ensures RestoreCodeKeepingMath(Marker(LATEX_TAG, 0) + CollisionTail(), codeBlocks)
            == Marker(LATEX_TAG, 0) + (CODE_TAG + "0" + h)
  {
    var m := Marker(LATEX_TAG, 0);
    var c := CODE_TAG;
    var z := Decimal(0);
    var e := [ESC];
    assert z == "0";
    var t := c + z + e;
    assert Marker(CODE_TAG, 0) == e + c + z + e;
    Regroup6(m, c, z, e);
    KeepingMathNoCollision(0, 0, t, codeBlocks);
    CodeMarkerAlone(0, codeBlocks);
  }

  lemma Regroup6(m: string, c: string, z: string, e: string)
    ensures e + (c + z + e) == e + c + z + e
    ensures m + (c + z + (e + c + z + e)) == m + (c + z + (e + (c + z + e)))
  {
  }

  lemma CollisionMathRepaired(x: string, tail: string)
    requires x != [] && '$' !in x && ESC !in tail
    ensures RestoreMath(Marker(LATEX_TAG, 0) + tail, ["$" + x + "$"])
            == Done("<span class=\"math-inline\">" + x + "</span>" + tail)
  {
    RestoreMathMarker(0, tail, ["$" + x + "$"]);
    RestoreMathWithoutEsc(tail, [], ["$" + x + "$"]);
    assert tail + [] == tail;
    assert x[0] in x;
    MathHtmlForms(x);
  }

  lemma TailWithoutEsc(h: string)
    requires ESC !in h
    ensures ESC !in CODE_TAG + "0" + h
  {
    assert forall c :: c in CODE_TAG + "0" + h ==> c in CODE_TAG || c == '0' || c in h;
  }

  /** Repaired, the same input keeps both the math and the code block. */
  lemma CollisionRepaired(x: string, y: string)
    requires x != [] && '$' !in x && SingleLine(x) && '`' !in x
    requires ClosesOnlyAtEnd(y, FENCE) && ESC !in y
    ensures Formatted(CollisionInput(x, y), Repaired)
            == "<span class=\"math-inline\">" + x + "</span>" + (CODE_TAG + "0" + ("<pre><code>" + Trim(y) + "</code></pre>"))
  {
    CollisionRepairedSteps(x, y, "<span class=\"math-inline\">" + x + "</span>" + (CODE_TAG + "0" + CodeHtml(Some(Trim(y)))));
    CodeHtmlWithoutEsc(y);
  }

  lemma CollisionRepairedSteps(x: string, y: string, html: string)
    requires x != [] && '$' !in x && SingleLine(x) && '`' !in x
    requires ClosesOnlyAtEnd(y, FENCE) && ESC !in y
    requires html == "<span class=\"math-inline\">" + x + "</span>" + (CODE_TAG + "0" + CodeHtml(Some(Trim(y))))
    ensures Formatted(CollisionInput(x, y), Repaired) == html
  {
    var h := CodeHtml(Some(Trim(y)));
    CodeHtmlWithoutEsc(y);
    var tail := CODE_TAG + "0" + h;
    CollisionCodeRepaired(h, [Trim(y)]);
    TailWithoutEsc(h);
    CollisionMathRepaired(x, tail);
    RestoreCodeInRepaired(Marker(LATEX_TAG, 0) + CollisionTail(), [Trim(y)]);
    CollisionBeforeRestore(x, y, Repaired, Marker(LATEX_TAG, 0) + tail, html);
  }
}
