/**
 * The two restoration passes of the formatter (frontend/script.js:44-56):
 * global replacements of /\x1BCODE(\d+)\x1B/ and /\x1BLATEX(\d+)\x1B/ whose
 * callbacks look the captured digits up in the table the matching
 * extraction pass filled. The lookup is JavaScript property access with a
 * digit string, so only a canonical index below the table's length finds
 * an entry; anything else reads `undefined`. A code marker then renders the
 * word `undefined`; a math marker calls `startsWith` on `undefined`, which
 * throws, so that pass has an Outcome rather than a string.
 */
module Restore {
  import opened Text
  import opened Extract

  /** The result of a pass that may throw a JavaScript exception. */
  datatype Outcome = Done(text: string) | Thrown(message: string)

  /** Completed output p followed by the outcome of the rest; an exception discards p. */
  function Prepend(p: string, o: Outcome): (r: Outcome)
    ensures r.Done? <==> o.Done?
    ensures r.Done? ==> r.text == p + o.text
    ensures r.Thrown? ==> r == o
  {
    if o.Done? then Done(p + o.text) else o
  }

  lemma PrependPrepend(p: string, q: string, o: Outcome)
    ensures Prepend(p, Prepend(q, o)) == Prepend(p + q, o)
  {
    if o.Done? {
      assert p + (q + o.text) == (p + q) + o.text;
    }
  }

  /** The message V8 gives the TypeError of `undefined.startsWith(…)`. */
  const UNDEFINED_STARTS_WITH: string := "Cannot read properties of undefined (reading 'startsWith')"

  // ---------------------------------------------------------------------
  // Matching a marker

  /** The longest run of digits at the start of s: what a greedy `\d+` takes. */
  function DigitRun(s: string): (r: string)
    ensures |r| <= |s| && r == s[..|r|] && AllDigits(r)
    ensures |r| == |s| || !IsDigit(s[|r|])
    decreases |s|
  {
    if s != [] && IsDigit(s[0]) then
      var t := DigitRun(s[1..]);
      assert s[..|t| + 1] == [s[0]] + s[1..][..|t|];
      [s[0]] + t
    else []
  }

  /**
   * The match of /\x1B TAG (\d+)\x1B/ at the start of s: its length and the
   * captured digits. A shorter digit run cannot be followed by ESC, which is
   * not a digit, so backtracking from the greedy run finds nothing else.
   */
  function MarkerMatch(s: string, tag: string): (r: Option<(nat, string)>)
    ensures r.Some? ==> |r.value.1| > 0 && AllDigits(r.value.1)
    ensures r.Some? ==> r.value.0 <= |s| && s[..r.value.0] == [ESC] + tag + r.value.1 + [ESC]
  {
    var h := |tag| + 1;
    if IsAt(s, 0, [ESC] + tag) then
      var d := DigitRun(s[h..]);
      if |d| > 0 && h + |d| < |s| && s[h + |d|] == ESC then
        assert s[..h + |d| + 1] == s[..h] + s[h..][..|d|] + [ESC];
        Some((h + |d| + 1, d))
      else None
    else None
  }

  /** `table[index]` for a digit string index: an entry only under its canonical name. */
  function ArrayIndex(table: seq<string>, d: string): (r: Option<string>)
    ensures r.Some? <==> IsCanonicalIndex(d) && DigitsValue(d) < |table|
    ensures r.Some? ==> r.value == table[DigitsValue(d)]
  {
    if IsCanonicalIndex(d) && DigitsValue(d) < |table| then Some(table[DigitsValue(d)]) else None
  }

  // ---------------------------------------------------------------------
  // Code markers

  /** The callback's `<pre><code>${code}</code></pre>`, where an undefined code prints as `undefined`. */
  function CodeHtml(code: Option<string>): string {
    "<pre><code>" + (if code.Some? then code.value else "undefined") + "</code></pre>"
  }

  /** withMarkdownFormatting.replace(/\x1BCODE(\d+)\x1B/g, …) */
  function RestoreCode(s: string, codeBlocks: seq<string>): string
    decreases |s|
  {
    if s == [] then []
    else match MarkerMatch(s, CODE_TAG)
      case Some((n, d)) => CodeHtml(ArrayIndex(codeBlocks, d)) + RestoreCode(s[n..], codeBlocks)
      case None => [s[0]] + RestoreCode(s[1..], codeBlocks)
  }

  /**
   * The code pass as evidently intended: a math marker is passed over whole,
   * so its closing ESC cannot be taken for the opening ESC of a code marker.
   */
  function RestoreCodeKeepingMath(s: string, codeBlocks: seq<string>): string
    decreases |s|
  {
    if s == [] then []
    else match MarkerMatch(s, LATEX_TAG)
      case Some((n, _)) => s[..n] + RestoreCodeKeepingMath(s[n..], codeBlocks)
      case None =>
        (match MarkerMatch(s, CODE_TAG)
         case Some((n, d)) => CodeHtml(ArrayIndex(codeBlocks, d)) + RestoreCodeKeepingMath(s[n..], codeBlocks)
         case None => [s[0]] + RestoreCodeKeepingMath(s[1..], codeBlocks))
  }

  // ---------------------------------------------------------------------
  // Math markers

  /** `s.slice(start, -cutEnd)`: both ends clamped, empty when they cross. */
  function JsSlice(s: string, start: nat, cutEnd: nat): (r: string)
    requires cutEnd > 0
    ensures |s| >= start + cutEnd ==> r == s[start..|s| - cutEnd]
    ensures |s| < start + cutEnd ==> r == []
  {
    var b := if start < |s| then start else |s|;
    var e := if cutEnd < |s| then |s| - cutEnd else 0;
    if b < e then s[b..e] else []
  }

  /** The callback: display form when the span starts with `$$`, inline form otherwise. */
  function MathHtml(latex: string): string {
    if IsAt(latex, 0, "$$") then "<div class=\"math-display\">" + JsSlice(latex, 2, 2) + "</div>"
    else "<span class=\"math-inline\">" + JsSlice(latex, 1, 1) + "</span>"
  }

  /** withCodeRestored.replace(/\x1BLATEX(\d+)\x1B/g, …), which throws at the first marker without an entry. */
  function RestoreMath(s: string, latexBlocks: seq<string>): Outcome
    decreases |s|
  {
    if s == [] then Done([])
    else match MarkerMatch(s, LATEX_TAG)
      case Some((n, d)) =>
        (match ArrayIndex(latexBlocks, d)
         case Some(latex) => Prepend(MathHtml(latex), RestoreMath(s[n..], latexBlocks))
         case None => Thrown(UNDEFINED_STARTS_WITH))
      case None => Prepend([s[0]], RestoreMath(s[1..], latexBlocks))
  }

  // ---------------------------------------------------------------------
  // Markers are found where the extraction passes wrote them

  lemma {:induction false} DigitRunOfDigits(d: string, t: string)
    requires AllDigits(d)
    ensures DigitRun(d + [ESC] + t) == d
    decreases |d|
  {
    if d != [] {
      assert (d + [ESC] + t)[0] == d[0];
      assert (d + [ESC] + t)[1..] == d[1..] + [ESC] + t;
      DigitRunOfDigits(d[1..], t);
      assert d == [d[0]] + d[1..];
    }
  }

  /** Every marker starts with ESC. */
  lemma MarkerMatchNeedsEsc(s: string, tag: string)
    requires s != [] && s[0] != ESC
    ensures MarkerMatch(s, tag).None?
  {
    assert !IsAt(s, 0, [ESC] + tag) by {
      if |tag| + 1 <= |s| {
        assert s[..|tag| + 1][0] == s[0];
      }
    }
  }

  /** The marker for index k is matched whole, with the decimal numeral of k captured. */
  lemma MarkerMatchOfMarker(tag: string, k: nat, t: string)
    ensures MarkerMatch(Marker(tag, k) + t, tag) == Some((|Marker(tag, k)|, Decimal(k)))
  {
    var s := Marker(tag, k) + t;
    var h := |tag| + 1;
    DecimalIsCanonical(k);
    assert s[..h] == [ESC] + tag;
    assert s[h..] == Decimal(k) + [ESC] + t;
    DigitRunOfDigits(Decimal(k), t);
    assert s[h + |Decimal(k)|] == ESC;
  }

  /**
   * At the start of s the marker regex matches exactly ESC, the tag, a
   * non-empty digit run, ESC: whenever s starts so, that match is found, with
   * those digits captured.
   */
  lemma MarkerMatchExactly(s: string, tag: string, d: string)
    ensures MarkerMatch(s, tag) == Some((|tag| + |d| + 2, d))
            <==> |d| > 0 && AllDigits(d) && IsAt(s, 0, [ESC] + tag + d + [ESC])
  {
    var m := [ESC] + tag + d + [ESC];
    if |d| > 0 && AllDigits(d) && IsAt(s, 0, m) {
      var t := s[|m|..];
      assert s == m + t;
      MarkerShape(tag, d, t);
      DigitRunOfDigits(d, t);
    }
  }

  lemma MarkerShape(tag: string, d: string, t: string)
    ensures ([ESC] + tag + d + [ESC] + t)[..|tag| + 1] == [ESC] + tag
    ensures ([ESC] + tag + d + [ESC] + t)[|tag| + 1..] == d + [ESC] + t
  {
  }

  /**
   * A digit string finds entry x exactly when it is the numeral of an index
   * below the table's length that holds x: `"007"` and `"7 "` find nothing.
   */
  lemma ArrayIndexNames(table: seq<string>, d: string, x: string)
    ensures ArrayIndex(table, d) == Some(x) <==> exists k :: 0 <= k < |table| && Decimal(k) == d && table[k] == x
  {
    if ArrayIndex(table, d) == Some(x) {
      CanonicalIsDecimal(d);
      assert Decimal(DigitsValue(d)) == d;
    }
    if exists k :: 0 <= k < |table| && Decimal(k) == d && table[k] == x {
      var k :| 0 <= k < |table| && Decimal(k) == d && table[k] == x;
      ArrayIndexOfDecimal(table, k);
    }
  }

  /** Looking up the numeral of k finds entry k when there is one. */
  lemma ArrayIndexOfDecimal(table: seq<string>, k: nat)
    ensures ArrayIndex(table, Decimal(k)) == if k < |table| then Some(table[k]) else None
  {
    DecimalIsCanonical(k);
  }

  /** A marker of the other pass is not a match: the tags differ in their first letter. */
  lemma MarkerMatchOtherTag(s: string)
    ensures MarkerMatch([ESC] + LATEX_TAG + s, CODE_TAG).None?
    ensures MarkerMatch([ESC] + CODE_TAG + s, LATEX_TAG).None?
  {
    var a := [ESC] + LATEX_TAG + s;
    var b := [ESC] + CODE_TAG + s;
    assert a[1] == 'L';
    assert b[1] == 'C';
    if |a| >= 5 {
      assert a[..5][1] == 'L';
    }
    if |b| >= 6 {
      assert b[..6][1] == 'C';
    }
  }

  // ---------------------------------------------------------------------
  // The code pass

  /** Text with no ESC passes through the code pass unchanged. */
  lemma {:induction false} RestoreCodeWithoutEsc(a: string, t: string, codeBlocks: seq<string>)
    requires ESC !in a
    ensures RestoreCode(a + t, codeBlocks) == a + RestoreCode(t, codeBlocks)
    decreases |a|
  {
    if a == [] {
      assert a + t == t;
    } else {
      var b := a[1..];
      StringUncons(a, t);
      TailChars(a);
      RestoreCodeHead(a[0], b + t, codeBlocks);
      RestoreCodeWithoutEsc(b, t, codeBlocks);
      StringAssoc([a[0]], b, RestoreCode(t, codeBlocks));
    }
  }

  lemma RestoreCodeHead(c: char, u: string, codeBlocks: seq<string>)
    requires c != ESC
    ensures RestoreCode([c] + u, codeBlocks) == [c] + RestoreCode(u, codeBlocks)
  {
    var s := [c] + u;
    assert s[0] == c && s[1..] == u;
    MarkerMatchNeedsEsc(s, CODE_TAG);
    RestoreCodeStep(s, codeBlocks);
  }

  /** The marker for index k becomes code block k, or `undefined` when the table has no entry k. */
  lemma RestoreCodeMarker(k: nat, t: string, codeBlocks: seq<string>)
    ensures RestoreCode(Marker(CODE_TAG, k) + t, codeBlocks)
            == CodeHtml(if k < |codeBlocks| then Some(codeBlocks[k]) else None) + RestoreCode(t, codeBlocks)
  {
    var s := Marker(CODE_TAG, k) + t;
    MarkerMatchOfMarker(CODE_TAG, k, t);
    ArrayIndexOfDecimal(codeBlocks, k);
    assert s[|Marker(CODE_TAG, k)|..] == t;
  }

  /** The ESC tail of a math marker can open a code marker only when `CODE` follows it. */
  lemma RestoreCodeEscNotCode(t: string, codeBlocks: seq<string>)
    requires t == [] || t[0] != 'C'
    ensures RestoreCode([ESC] + t, codeBlocks) == [ESC] + RestoreCode(t, codeBlocks)
  {
    var u := [ESC] + t;
    assert !IsAt(u, 0, [ESC] + CODE_TAG) by {
      if |u| >= 5 {
        assert u[..5][1] == u[1];
      }
    }
    assert u[1..] == t;
  }

  /**
   * A math marker is left for the next pass, unless the text right after it
   * starts with `C`: then its closing ESC may open a code marker.
   */
  lemma RestoreCodeKeepsMathMarker(k: nat, t: string, codeBlocks: seq<string>)
    requires t == [] || t[0] != 'C'
    ensures RestoreCode(Marker(LATEX_TAG, k) + t, codeBlocks)
            == Marker(LATEX_TAG, k) + RestoreCode(t, codeBlocks)
  {
    var d := Decimal(k);
    var body := LATEX_TAG + d;
    var m := Marker(LATEX_TAG, k);
    MarkerParts(LATEX_TAG, k, t);
    MarkerMatchOtherTag(d + [ESC] + t);
    TagDigitsWithoutEsc(LATEX_TAG, k);
    RestoreCodeSkipsUnmatched(m + t, body, t, codeBlocks);
  }

  /** The ways the text of a marker followed by t is grouped. */
  lemma MarkerParts(tag: string, k: nat, t: string)
    ensures Marker(tag, k) + t == [ESC] + tag + (Decimal(k) + [ESC] + t)
    ensures Marker(tag, k) + t == [ESC] + (tag + Decimal(k)) + [ESC] + t
    ensures Marker(tag, k) == [ESC] + (tag + Decimal(k)) + [ESC]
  {
  }

  /** ESC body ESC, when no code marker starts at its first ESC, passes through. */
  lemma RestoreCodeSkipsUnmatched(s: string, body: string, t: string, codeBlocks: seq<string>)
    requires s == [ESC] + body + [ESC] + t && ESC !in body
    requires MarkerMatch(s, CODE_TAG).None?
    requires t == [] || t[0] != 'C'
    ensures RestoreCode(s, codeBlocks) == [ESC] + body + [ESC] + RestoreCode(t, codeBlocks)
  {
    var tail := [ESC] + t;
    var x := RestoreCode(t, codeBlocks);
    assert s[0] == ESC && s[1..] == body + tail;
    RestoreCodeStep(s, codeBlocks);
    RestoreCodeWithoutEsc(body, tail, codeBlocks);
    RestoreCodeEscNotCode(t, codeBlocks);
    assert RestoreCode(s, codeBlocks) == [ESC] + (body + ([ESC] + x));
    ConcatAssoc([ESC], body, [ESC], x);
  }

  lemma ConcatAssoc(a: string, b: string, c: string, d: string)
    ensures a + (b + (c + d)) == a + b + c + d
  {
  }

  lemma RestoreCodeStep(s: string, codeBlocks: seq<string>)
    requires s != [] && MarkerMatch(s, CODE_TAG).None?
    ensures RestoreCode(s, codeBlocks) == [s[0]] + RestoreCode(s[1..], codeBlocks)
  {
  }

  lemma TagDigitsWithoutEsc(tag: string, k: nat)
    requires ESC !in tag
    ensures ESC !in tag + Decimal(k)
  {
    DecimalIsCanonical(k);
    var body := tag + Decimal(k);
    forall i | 0 <= i < |body|
      ensures body[i] != ESC
    {
      if i >= |tag| {
        assert body[i] == Decimal(k)[i - |tag|];
      } else {
        assert body[i] == tag[i];
      }
    }
  }

  /**
   * As written, the closing ESC of a math marker followed by `CODE`, digits
   * and ESC is read as a code marker: the math marker loses its closing ESC
   * and the next pass can no longer find it.
   */
  lemma MathMarkerCollision(k: nat, j: nat, t: string, codeBlocks: seq<string>)
    ensures RestoreCode(Marker(LATEX_TAG, k) + CODE_TAG + Decimal(j) + [ESC] + t, codeBlocks)
            == [ESC] + LATEX_TAG + Decimal(k)
               + CodeHtml(if j < |codeBlocks| then Some(codeBlocks[j]) else None) + RestoreCode(t, codeBlocks)
  {
    var body := LATEX_TAG + Decimal(k);
    var tail := Marker(CODE_TAG, j) + t;
    CollisionText(k, j, t);
    MarkerMatchOtherTag(Decimal(k) + tail);
    RestoreCodeLatexBody(k, tail, codeBlocks);
    RestoreCodeMarker(j, t, codeBlocks);
    var h := CodeHtml(if j < |codeBlocks| then Some(codeBlocks[j]) else None);
    StringAssoc([ESC] + body, h, RestoreCode(t, codeBlocks));
  }

  /** How the text of a collision splits. */
  lemma CollisionText(k: nat, j: nat, t: string)
    ensures Marker(LATEX_TAG, k) + CODE_TAG + Decimal(j) + [ESC] + t
            == [ESC] + (LATEX_TAG + Decimal(k)) + (Marker(CODE_TAG, j) + t)
    ensures [ESC] + (LATEX_TAG + Decimal(k)) + (Marker(CODE_TAG, j) + t)
            == [ESC] + LATEX_TAG + (Decimal(k) + (Marker(CODE_TAG, j) + t))
    ensures [ESC] + (LATEX_TAG + Decimal(k)) == [ESC] + LATEX_TAG + Decimal(k)
  {
    CollisionGroups([ESC], LATEX_TAG, Decimal(k), CODE_TAG, Decimal(j), t);
  }

  lemma CollisionGroups(e: string, l: string, dk: string, c: string, dj: string, t: string)
    ensures (e + l + dk + e) + c + dj + e + t == e + (l + dk) + ((e + c + dj + e) + t)
    ensures e + (l + dk) + ((e + c + dj + e) + t) == e + l + (dk + ((e + c + dj + e) + t))
    ensures e + (l + dk) == e + l + dk
  {
  }

  lemma RestoreCodeLatexBody(k: nat, tail: string, codeBlocks: seq<string>)
    requires MarkerMatch([ESC] + (LATEX_TAG + Decimal(k)) + tail, CODE_TAG).None?
    ensures RestoreCode([ESC] + (LATEX_TAG + Decimal(k)) + tail, codeBlocks)
            == [ESC] + (LATEX_TAG + Decimal(k)) + RestoreCode(tail, codeBlocks)
  {
    TagDigitsWithoutEsc(LATEX_TAG, k);
    RestoreCodeEscBody(LATEX_TAG + Decimal(k), tail, codeBlocks);
  }

  /** ESC, text without ESC, and no code marker at the ESC: the code pass copies both. */
  lemma RestoreCodeEscBody(body: string, tail: string, codeBlocks: seq<string>)
    requires ESC !in body
    requires MarkerMatch([ESC] + body + tail, CODE_TAG).None?
    ensures RestoreCode([ESC] + body + tail, codeBlocks) == [ESC] + body + RestoreCode(tail, codeBlocks)
  {
    var s := [ESC] + body + tail;
    ConsParts(ESC, body, tail);
    RestoreCodeStep(s, codeBlocks);
    RestoreCodeWithoutEsc(body, tail, codeBlocks);
    StringAssoc([ESC], body, RestoreCode(tail, codeBlocks));
  }

  /** Corrected: whatever follows it, a math marker is left for the math pass. */
  lemma KeepingMathKeepsMathMarker(k: nat, t: string, codeBlocks: seq<string>)
    ensures RestoreCodeKeepingMath(Marker(LATEX_TAG, k) + t, codeBlocks)
            == Marker(LATEX_TAG, k) + RestoreCodeKeepingMath(t, codeBlocks)
  {
    var s := Marker(LATEX_TAG, k) + t;
    var n := |Marker(LATEX_TAG, k)|;
    MarkerMatchOfMarker(LATEX_TAG, k, t);
    assert s[..n] == Marker(LATEX_TAG, k) && s[n..] == t;
  }

  /** Corrected: a code marker still becomes its block. */
  lemma KeepingMathCodeMarker(k: nat, t: string, codeBlocks: seq<string>)
    ensures RestoreCodeKeepingMath(Marker(CODE_TAG, k) + t, codeBlocks)
            == CodeHtml(if k < |codeBlocks| then Some(codeBlocks[k]) else None)
               + RestoreCodeKeepingMath(t, codeBlocks)
  {
    MarkerParts(CODE_TAG, k, t);
    MarkerMatchOtherTag(Decimal(k) + [ESC] + t);
    MarkerMatchOfMarker(CODE_TAG, k, t);
    ArrayIndexOfDecimal(codeBlocks, k);
    DropPrefix(Marker(CODE_TAG, k), t);
  }

  lemma {:induction false} KeepingMathWithoutEsc(a: string, t: string, codeBlocks: seq<string>)
    requires ESC !in a
    ensures RestoreCodeKeepingMath(a + t, codeBlocks) == a + RestoreCodeKeepingMath(t, codeBlocks)
    decreases |a|
  {
    if a == [] {
      assert a + t == t;
    } else {
      var b := a[1..];
      StringUncons(a, t);
      TailChars(a);
      KeepingMathHead(a[0], b + t, codeBlocks);
      KeepingMathWithoutEsc(b, t, codeBlocks);
      StringAssoc([a[0]], b, RestoreCodeKeepingMath(t, codeBlocks));
    }
  }

  lemma KeepingMathHead(c: char, u: string, codeBlocks: seq<string>)
    requires c != ESC
    ensures RestoreCodeKeepingMath([c] + u, codeBlocks) == [c] + RestoreCodeKeepingMath(u, codeBlocks)
  {
    var s := [c] + u;
    assert s[0] == c && s[1..] == u;
    MarkerMatchNeedsEsc(s, LATEX_TAG);
    MarkerMatchNeedsEsc(s, CODE_TAG);
    KeepingMathStep(s, codeBlocks);
  }

  lemma KeepingMathStep(s: string, codeBlocks: seq<string>)
    requires s != [] && MarkerMatch(s, LATEX_TAG).None? && MarkerMatch(s, CODE_TAG).None?
    ensures RestoreCodeKeepingMath(s, codeBlocks) == [s[0]] + RestoreCodeKeepingMath(s[1..], codeBlocks)
  {
  }

  /** Corrected: the text of the collision keeps its math marker and restores the code marker after it. */
  lemma KeepingMathNoCollision(k: nat, j: nat, t: string, codeBlocks: seq<string>)
    ensures RestoreCodeKeepingMath(Marker(LATEX_TAG, k) + (CODE_TAG + Decimal(j) + ([ESC] + t)), codeBlocks)
            == Marker(LATEX_TAG, k) + (CODE_TAG + Decimal(j) + RestoreCodeKeepingMath([ESC] + t, codeBlocks))
  {
    KeepingMathKeepsMathMarker(k, CODE_TAG + Decimal(j) + ([ESC] + t), codeBlocks);
    KeepingMathCodeBody(j, [ESC] + t, codeBlocks);
  }

  lemma KeepingMathCodeBody(j: nat, rest: string, codeBlocks: seq<string>)
    ensures RestoreCodeKeepingMath(CODE_TAG + Decimal(j) + rest, codeBlocks)
            == CODE_TAG + Decimal(j) + RestoreCodeKeepingMath(rest, codeBlocks)
  {
    TagDigitsWithoutEsc(CODE_TAG, j);
    KeepingMathWithoutEsc(CODE_TAG + Decimal(j), rest, codeBlocks);
  }

  /**
   * Text between the extractions and the restorations: characters other than
   * ESC, code markers and math markers, interleaved in any order.
   */
  datatype Token = Char(c: char) | CodeRef(k: nat) | MathRef(k: nat)

  function Spelled(ts: seq<Token>): string
    decreases |ts|
  {
    if ts == [] then []
    else match ts[0]
      case Char(c) => [c] + Spelled(ts[1..])
      case CodeRef(k) => Marker(CODE_TAG, k) + Spelled(ts[1..])
      case MathRef(k) => Marker(LATEX_TAG, k) + Spelled(ts[1..])
  }

  /** What the code pass is meant to leave: code marker k replaced by block k, all else as it is. */
  function CodeRestored(ts: seq<Token>, codeBlocks: seq<string>): string
    decreases |ts|
  {
    if ts == [] then []
    else match ts[0]
      case Char(c) => [c] + CodeRestored(ts[1..], codeBlocks)
      case CodeRef(k) => CodeHtml(if k < |codeBlocks| then Some(codeBlocks[k]) else None) + CodeRestored(ts[1..], codeBlocks)
      case MathRef(k) => Marker(LATEX_TAG, k) + CodeRestored(ts[1..], codeBlocks)
  }

  predicate NoEscChar(ts: seq<Token>) {
    forall i :: 0 <= i < |ts| && ts[i].Char? ==> ts[i].c != ESC
  }

  lemma NoEscCharTail(ts: seq<Token>)
    requires ts != [] && NoEscChar(ts)
    ensures NoEscChar(ts[1..]) && (ts[0].Char? ==> ts[0].c != ESC)
  {
    forall i | 0 <= i < |ts[1..]| && ts[1..][i].Char?
      ensures ts[1..][i].c != ESC
    {
      assert ts[1..][i] == ts[i + 1];
    }
  }

  /**
   * Corrected: however code and math markers are interleaved, the code pass
   * puts block k at every code marker k and leaves every math marker whole.
   */
  lemma {:induction false} KeepingMathRestoresEveryCodeMarker(ts: seq<Token>, codeBlocks: seq<string>)
    requires NoEscChar(ts)
    ensures RestoreCodeKeepingMath(Spelled(ts), codeBlocks) == CodeRestored(ts, codeBlocks)
    decreases |ts|
  {
    if ts != [] {
      NoEscCharTail(ts);
      KeepingMathRestoresEveryCodeMarker(ts[1..], codeBlocks);
      var rest := Spelled(ts[1..]);
      match ts[0]
      case Char(c) =>
        KeepingMathWithoutEsc([c], rest, codeBlocks);
      case CodeRef(k) =>
        KeepingMathCodeMarker(k, rest, codeBlocks);
      case MathRef(k) =>
        KeepingMathKeepsMathMarker(k, rest, codeBlocks);
    }
  }

  // ---------------------------------------------------------------------
  // The math pass

  lemma {:induction false} RestoreMathWithoutEsc(a: string, t: string, latexBlocks: seq<string>)
    requires ESC !in a
    ensures RestoreMath(a + t, latexBlocks) == Prepend(a, RestoreMath(t, latexBlocks))
    decreases |a|
  {
    if a == [] {
      PrependNothing(t, RestoreMath(t, latexBlocks));
    } else {
      StringUncons(a, t);
      TailChars(a);
      MathHead(a[0], a[1..] + t, latexBlocks);
      RestoreMathWithoutEsc(a[1..], t, latexBlocks);
      PrependPrepend([a[0]], a[1..], RestoreMath(t, latexBlocks));
    }
  }

  lemma PrependNothing(t: string, o: Outcome)
    ensures [] + t == t && Prepend([], o) == o
  {
    if o.Done? {
      assert [] + o.text == o.text;
    }
  }

  lemma MathHead(c: char, u: string, latexBlocks: seq<string>)
    requires c != ESC
    ensures RestoreMath([c] + u, latexBlocks) == Prepend([c], RestoreMath(u, latexBlocks))
  {
    var s := [c] + u;
    assert s[0] == c && s[1..] == u;
    MarkerMatchNeedsEsc(s, LATEX_TAG);
  }

  /** The marker for index k becomes its math container, or throws when the table has no entry k. */
  lemma RestoreMathMarker(k: nat, t: string, latexBlocks: seq<string>)
    ensures k < |latexBlocks| ==>
              RestoreMath(Marker(LATEX_TAG, k) + t, latexBlocks)
              == Prepend(MathHtml(latexBlocks[k]), RestoreMath(t, latexBlocks))
    ensures k >= |latexBlocks| ==>
              RestoreMath(Marker(LATEX_TAG, k) + t, latexBlocks) == Thrown(UNDEFINED_STARTS_WITH)
  {
    var s := Marker(LATEX_TAG, k) + t;
    MarkerMatchOfMarker(LATEX_TAG, k, t);
    ArrayIndexOfDecimal(latexBlocks, k);
    assert s[|Marker(LATEX_TAG, k)|..] == t;
  }

  /** The two containers, with the delimiters stripped and the content as it was. */
  lemma MathHtmlForms(x: string)
    ensures MathHtml("$$" + x + "$$") == "<div class=\"math-display\">" + x + "</div>"
    ensures x != [] && x[0] != '$' ==> MathHtml("$" + x + "$") == "<span class=\"math-inline\">" + x + "</span>"
    ensures MathHtml("$$") == "<div class=\"math-display\"></div>"
  {
    var d := "$$" + x + "$$";
    assert d[..2] == "$$";
    assert d[2..|d| - 2] == x;
    var i := "$" + x + "$";
    assert i[1..|i| - 1] == x;
    if x != [] && x[0] != '$' {
      assert i[1] == x[0];
      assert !IsAt(i, 0, "$$") by {
        assert i[..2][1] == i[1];
      }
    }
    assert "$$"[..2] == "$$";
  }

  // ---------------------------------------------------------------------
  // Placeholders round-trip in order

  /** Extracted code pieces as restored: each span at its place, as a code block. */
  function RenderedCode(ps: seq<Piece>): string
    decreases |ps|
  {
    if ps == [] then []
    else match ps[0]
      case Plain(c) => [c] + RenderedCode(ps[1..])
      case Span(b) => CodeHtml(Some(b)) + RenderedCode(ps[1..])
  }

  function RenderedMath(ps: seq<Piece>): string
    decreases |ps|
  {
    if ps == [] then []
    else match ps[0]
      case Plain(c) => [c] + RenderedMath(ps[1..])
      case Span(b) => MathHtml(b) + RenderedMath(ps[1..])
  }

  predicate NoEscPlain(ps: seq<Piece>) {
    forall i :: 0 <= i < |ps| && ps[i].Plain? ==> ps[i].c != ESC
  }

  /** table[k..] starts with the blocks of ps: marker k + j names the j-th span of ps. */
  predicate TableFrom(table: seq<string>, k: nat, ps: seq<Piece>) {
    k + |Blocks(ps)| <= |table| && table[k..k + |Blocks(ps)|] == Blocks(ps)
  }

  lemma TableFromTail(table: seq<string>, k: nat, ps: seq<Piece>)
    requires ps != [] && TableFrom(table, k, ps)
    ensures ps[0].Span? ==> k < |table| && table[k] == ps[0].block && TableFrom(table, k + 1, ps[1..])
    ensures ps[0].Plain? ==> TableFrom(table, k, ps[1..])
  {
    var b := Blocks(ps);
    if ps[0].Span? {
      assert b == [ps[0].block] + Blocks(ps[1..]);
      assert table[k] == table[k..k + |b|][0];
      assert table[k + 1..k + 1 + |Blocks(ps[1..])|] == table[k..k + |b|][1..];
    }
  }

  /**
   * Restoring the code markers of an extraction puts span k back at marker k
   * for every k: the marked text restores to the pieces in their order.
   */
  lemma {:induction false} RestoreCodeRoundTrip(ps: seq<Piece>, table: seq<string>, k: nat)
    requires NoEscPlain(ps) && TableFrom(table, k, ps)
    ensures RestoreCode(Marked(ps, CODE_TAG, k), table) == RenderedCode(ps)
    decreases |ps|
  {
    if ps != [] {
      TableFromTail(table, k, ps);
      assert NoEscPlain(ps[1..]) by {
        forall i | 0 <= i < |ps[1..]| && ps[1..][i].Plain?
          ensures ps[1..][i].c != ESC
        {
          assert ps[1..][i] == ps[i + 1];
        }
      }
      match ps[0]
      case Plain(c) =>
        assert ps[0].c != ESC;
        RestoreCodeWithoutEsc([c], Marked(ps[1..], CODE_TAG, k), table);
        RestoreCodeRoundTrip(ps[1..], table, k);
      case Span(b) =>
        RestoreCodeMarker(k, Marked(ps[1..], CODE_TAG, k + 1), table);
        RestoreCodeRoundTrip(ps[1..], table, k + 1);
    }
  }

  /** The same for math markers, and then no marker throws. */
  lemma {:induction false} RestoreMathRoundTrip(ps: seq<Piece>, table: seq<string>, k: nat)
    requires NoEscPlain(ps) && TableFrom(table, k, ps)
    ensures RestoreMath(Marked(ps, LATEX_TAG, k), table) == Done(RenderedMath(ps))
    decreases |ps|
  {
    if ps != [] {
      TableFromTail(table, k, ps);
      assert NoEscPlain(ps[1..]) by {
        forall i | 0 <= i < |ps[1..]| && ps[1..][i].Plain?
          ensures ps[1..][i].c != ESC
        {
          assert ps[1..][i] == ps[i + 1];
        }
      }
      match ps[0]
      case Plain(c) =>
        assert ps[0].c != ESC;
        RestoreMathWithoutEsc([c], Marked(ps[1..], LATEX_TAG, k), table);
        RestoreMathRoundTrip(ps[1..], table, k);
      case Span(b) =>
        RestoreMathMarker(k, Marked(ps[1..], LATEX_TAG, k + 1), table);
        RestoreMathRoundTrip(ps[1..], table, k + 1);
    }
  }

  // ---------------------------------------------------------------------
  // Markers that the math pass cannot match

  /** A lone ESC matches no marker: every pass copies it. */
  lemma LoneEsc(codeBlocks: seq<string>, latexBlocks: seq<string>)
    ensures RestoreCode([ESC], codeBlocks) == [ESC]
    ensures RestoreCodeKeepingMath([ESC], codeBlocks) == [ESC]
    ensures RestoreMath([ESC], latexBlocks) == Done([ESC])
  {
    assert MarkerMatch([ESC], CODE_TAG).None?;
    assert MarkerMatch([ESC], LATEX_TAG).None?;
    assert [ESC][1..] == [];
  }

  /** The greedy digit run stops at the first character that is not a digit. */
  lemma {:induction false} DigitRunStops(d: string, rest: string)
    requires AllDigits(d) && (rest == [] || !IsDigit(rest[0]))
    ensures DigitRun(d + rest) == d
    decreases |d|
  {
    if d == [] {
      assert d + rest == rest;
    } else {
      assert (d + rest)[0] == d[0];
      assert (d + rest)[1..] == d[1..] + rest;
      DigitRunStops(d[1..], rest);
      assert d == [d[0]] + d[1..];
    }
  }

  /**
   * ESC, LATEX and digits followed by something other than a digit or ESC is
   * no math marker: the pass copies the ESC and goes on after it.
   */
  lemma RestoreMathBrokenMarker(k: nat, rest: string, latexBlocks: seq<string>)
    requires rest != [] && !IsDigit(rest[0]) && rest[0] != ESC
    ensures RestoreMath([ESC] + LATEX_TAG + Decimal(k) + rest, latexBlocks)
            == Prepend([ESC], RestoreMath(LATEX_TAG + Decimal(k) + rest, latexBlocks))
  {
    var d := Decimal(k);
    var s := [ESC] + LATEX_TAG + d + rest;
    var h := |LATEX_TAG| + 1;
    DecimalIsCanonical(k);
    assert s[..h] == [ESC] + LATEX_TAG;
    assert s[h..] == d + rest;
    DigitRunStops(d, rest);
    assert s[h + |d|] == rest[0];
    assert MarkerMatch(s, LATEX_TAG).None?;
    assert s[1..] == LATEX_TAG + d + rest;
  }
}
