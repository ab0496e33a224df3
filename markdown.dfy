/**
 * The emphasis chain of the formatter (frontend/script.js:34-42): four
 * global replacements of the form /(OPEN)(.*?)CLOSE/g. A rule is the list of
 * its opening alternatives, tried in order at each position, each with the
 * closers its lazy group may stop at (the back-reference `\1` closes with
 * the same text it opened with); the replacement wraps the captured text.
 */
module Markdown {
  import opened Text

  /** One opening alternative and the closers that may end it. */
  datatype Alt = Alt(open: string, closers: seq<string>)

  /** A global substitution /(open₁|open₂…)(.*?)close/g → before + $2 + after. */
  datatype Rule = Rule(alts: seq<Alt>, before: string, after: string)

  predicate WellFormed(r: Rule) {
    forall i :: 0 <= i < |r.alts| ==> |r.alts[i].open| > 0
  }

  /** Every opening alternative starts with `*` or `_`. */
  predicate OpensWithMark(r: Rule) {
    WellFormed(r) && forall i :: 0 <= i < |r.alts| ==> r.alts[i].open[0] == '*' || r.alts[i].open[0] == '_'
  }

  /** No character any emphasis rule can open with. */
  predicate Inert(s: string) {
    '*' !in s && '_' !in s
  }

  /** /(\*\*|__)(.*?)\1/g → <strong>$2</strong> */
  const BOLD := Rule([Alt("**", ["**"]), Alt("__", ["__"])], "<strong>", "</strong>")
  /** /(\*|_)(.*?)\1/g → <em>$2</em> */
  const ITALIC := Rule([Alt("*", ["*"]), Alt("_", ["_"])], "<em>", "</em>")
  /** /(\*\*\*|___)(.*?)\1/g → <strong><em>$2</em></strong> */
  const BOLD_ITALIC := Rule([Alt("***", ["***"]), Alt("___", ["___"])], "<strong><em>", "</em></strong>")
  /** /(\*\*_|__\*)(.*?)(_\*\*|\*__)/g → <strong><em>$2</em></strong> */
  const BOLD_ITALIC_MIXED := Rule([Alt("**_", ["_**", "*__"]), Alt("__*", ["_**", "*__"])], "<strong><em>", "</em></strong>")

  /** A match at the start of the text: the captured group is s[start..end], the match ends at next. */
  datatype Match = Match(start: nat, end: nat, next: nat)

  /** The first alternative, in order, whose opener is here and whose lazy group reaches a closer on this line. */
  function AltMatch(s: string, alts: seq<Alt>): (r: Option<Match>)
    requires forall i :: 0 <= i < |alts| ==> |alts[i].open| > 0
    ensures r.Some? ==> 0 < r.value.start <= r.value.end <= r.value.next <= |s|
    ensures r.Some? ==> exists i :: 0 <= i < |alts| && IsAt(s, 0, alts[i].open) && r.value.start == |alts[i].open|
    ensures r.Some? ==> SingleLine(s[r.value.start..r.value.end])
    decreases |alts|
  {
    if alts == [] then None
    else
      var a := alts[0];
      var found := if IsAt(s, 0, a.open) then FindCloser(s, a.closers, false, |a.open|) else None;
      if found.Some? then
        var q := found.value;
        var c := CloserAt(s, q, a.closers).value;
        assert forall j :: 0 <= j < q - |a.open| ==> s[|a.open|..q][j] == s[|a.open| + j];
        Some(Match(|a.open|, q, q + |c|))
      else
        assert forall i :: 0 <= i < |alts| - 1 ==> alts[1..][i] == alts[i + 1];
        AltMatch(s, alts[1..])
  }

  /** Alternative a opens at the start of s and its lazy group reaches a closer on this line. */
  predicate Reaches(s: string, a: Alt) {
    IsAt(s, 0, a.open) && FindCloser(s, a.closers, false, |a.open|).Some?
  }

  /**
   * Alternative i is the first of alts to reach a closer, and m is its match:
   * the group starts after the opener, ends at the first closer position, and
   * the match ends after the first of the alternative's closers found there.
   */
  predicate FirstReaching(s: string, alts: seq<Alt>, i: int, m: Match) {
    && 0 <= i < |alts| && Reaches(s, alts[i])
    && (forall k :: 0 <= k < i ==> !Reaches(s, alts[k]))
    && m.start == |alts[i].open| <= |s|
    && FindCloser(s, alts[i].closers, false, |alts[i].open|) == Some(m.end)
    && m.end <= m.next <= |s|
    && CloserAt(s, m.end, alts[i].closers) == Some(s[m.end..m.next])
  }

  /**
   * The regex engine's choice at one position: no match exactly when no
   * alternative reaches a closer; otherwise the match of the first
   * alternative that does.
   */
  lemma {:induction false} AltMatchIsFirst(s: string, alts: seq<Alt>)
    requires forall i :: 0 <= i < |alts| ==> |alts[i].open| > 0
    ensures AltMatch(s, alts).None? <==> forall i :: 0 <= i < |alts| ==> !Reaches(s, alts[i])
    ensures AltMatch(s, alts).Some? ==> exists i :: FirstReaching(s, alts, i, AltMatch(s, alts).value)
    decreases |alts|
  {
    if alts != [] && !Reaches(s, alts[0]) {
      var tail := alts[1..];
      AltMatchSkip(s, alts);
      AltMatchIsFirst(s, tail);
      if AltMatch(s, tail).Some? {
        var i :| FirstReaching(s, tail, i, AltMatch(s, tail).value);
        FirstReachingShift(s, alts, i, AltMatch(s, tail).value);
      } else {
        UnreachedShift(s, alts);
      }
    } else if alts != [] {
      var a := alts[0];
      var q := FindCloser(s, a.closers, false, |a.open|).value;
      var c := CloserAt(s, q, a.closers).value;
      assert AltMatch(s, alts) == Some(Match(|a.open|, q, q + |c|));
      assert s[q..q + |c|] == c;
      assert FirstReaching(s, alts, 0, Match(|a.open|, q, q + |c|));
    }
  }

  /** When the first alternative does not reach a closer, the match is that of the others. */
  lemma AltMatchSkip(s: string, alts: seq<Alt>)
    requires alts != [] && forall i :: 0 <= i < |alts| ==> |alts[i].open| > 0
    requires !Reaches(s, alts[0])
    ensures forall i :: 0 <= i < |alts[1..]| ==> |alts[1..][i].open| > 0
    ensures AltMatch(s, alts) == AltMatch(s, alts[1..])
  {
  }

  lemma FirstReachingShift(s: string, alts: seq<Alt>, i: int, m: Match)
    requires alts != [] && !Reaches(s, alts[0]) && FirstReaching(s, alts[1..], i, m)
    ensures FirstReaching(s, alts, i + 1, m)
  {
    var tail := alts[1..];
    assert alts[i + 1] == tail[i];
    forall k | 0 <= k < i + 1
      ensures !Reaches(s, alts[k])
    {
      if k > 0 { assert alts[k] == tail[k - 1]; }
    }
  }

  lemma UnreachedShift(s: string, alts: seq<Alt>)
    requires alts != [] && !Reaches(s, alts[0])
    requires forall i :: 0 <= i < |alts[1..]| ==> !Reaches(s, alts[1..][i])
    ensures forall i :: 0 <= i < |alts| ==> !Reaches(s, alts[i])
  {
    forall i | 0 <= i < |alts|
      ensures !Reaches(s, alts[i])
    {
      if i > 0 { assert alts[i] == alts[1..][i - 1]; }
    }
  }

  /** s.replace(regex, before + '$2' + after) for the rule's regex. */
  function ApplyRule(s: string, r: Rule): string
    requires WellFormed(r)
    decreases |s|
  {
    if s == [] then []
    else match AltMatch(s, r.alts)
      case Some(m) => r.before + s[m.start..m.end] + r.after + ApplyRule(s[m.next..], r)
      case None => [s[0]] + ApplyRule(s[1..], r)
  }

  /** The order the four rules run in: script.js's, or bold-italic first. */
  datatype EmphasisOrder = AsWritten | BoldItalicFirst

  /** The emphasis chain for an order of its rules. */
  function Emphasis(s: string, order: EmphasisOrder): string {
    match order
    case AsWritten =>
      ApplyRule(ApplyRule(ApplyRule(ApplyRule(s, BOLD), ITALIC), BOLD_ITALIC), BOLD_ITALIC_MIXED)
    case BoldItalicFirst =>
      ApplyRule(ApplyRule(ApplyRule(ApplyRule(s, BOLD_ITALIC), BOLD_ITALIC_MIXED), BOLD), ITALIC)
  }

  // ---------------------------------------------------------------------
  // Text without `*` and `_` is left alone

  lemma RulesOpenWithMark()
    ensures OpensWithMark(BOLD) && OpensWithMark(ITALIC)
    ensures OpensWithMark(BOLD_ITALIC) && OpensWithMark(BOLD_ITALIC_MIXED)
  {
  }

  lemma {:induction false} AltMatchNoOpener(s: string, alts: seq<Alt>)
    requires s != []
    requires forall i :: 0 <= i < |alts| ==> |alts[i].open| > 0 && alts[i].open[0] != s[0]
    ensures AltMatch(s, alts).None?
    decreases |alts|
  {
    if alts != [] {
      assert !IsAt(s, 0, alts[0].open) by {
        if |alts[0].open| <= |s| {
          assert s[..|alts[0].open|][0] == s[0];
        }
      }
      AltMatchNoOpener(s, alts[1..]);
    }
  }

  /** A prefix without `*` and `_` is copied and the rule goes on after it. */
  lemma {:induction false} ApplyRuleInertPrefix(p: string, t: string, r: Rule)
    requires OpensWithMark(r) && Inert(p)
    ensures ApplyRule(p + t, r) == p + ApplyRule(t, r)
    decreases |p|
  {
    if p == [] {
      assert p + t == t;
    } else {
      var q := p[1..];
      StringUncons(p, t);
      assert p[0] in p && forall c :: c in q ==> c in p;
      ApplyRuleInertHead(p[0], q + t, r);
      ApplyRuleInertPrefix(q, t, r);
      StringAssoc([p[0]], q, ApplyRule(t, r));
    }
  }

  lemma ApplyRuleInertHead(c: char, u: string, r: Rule)
    requires OpensWithMark(r) && c != '*' && c != '_'
    ensures ApplyRule([c] + u, r) == [c] + ApplyRule(u, r)
  {
    var s := [c] + u;
    AltMatchNoOpener(s, r.alts);
    assert s[0] == c && s[1..] == u;
  }

  lemma ApplyRuleInert(s: string, r: Rule)
    requires OpensWithMark(r) && Inert(s)
    ensures ApplyRule(s, r) == s
  {
    ApplyRuleInertPrefix(s, [], r);
    assert s + [] == s;
  }

  /** Without `*` and `_` the emphasis chain changes nothing, in either order. */
  lemma EmphasisInert(s: string, order: EmphasisOrder)
    requires Inert(s)
    ensures Emphasis(s, order) == s
  {
    RulesOpenWithMark();
    ApplyRuleInert(s, BOLD);
    ApplyRuleInert(s, ITALIC);
    ApplyRuleInert(s, BOLD_ITALIC);
    ApplyRuleInert(s, BOLD_ITALIC_MIXED);
  }

  /** Text between prefix and suffix without marks leaves the chain's result in the same frame. */
  lemma EmphasisInertFrame(p: string, t: string, order: EmphasisOrder)
    requires Inert(p) && Inert(t)
    ensures Emphasis(p + t, order) == p + t
  {
    assert Inert(p + t) by {
      assert forall c :: c in p + t ==> c in p || c in t;
    }
    EmphasisInert(p + t, order);
  }

  // ---------------------------------------------------------------------
  // One wrapped span

  /** A rule whose first alternative opens at the start of d + body + d with closer d wraps body. */
  lemma ApplyRuleWrapsFirst(r: Rule, body: string)
    requires OpensWithMark(r) && |r.alts| > 0
    requires r.alts[0].closers == [r.alts[0].open]
    requires ClosesOnlyAtEnd(body, r.alts[0].open) && SingleLine(body)
    ensures ApplyRule(r.alts[0].open + body + r.alts[0].open, r) == r.before + body + r.after
  {
    var d := r.alts[0].open;
    var s := d + body + d;
    var q := |d| + |body|;
    assert s == d + body + d + [];
    assert IsAt(s, 0, d) by { assert s[..|d|] == d; }
    FindsClosingDelimiter(d, body, [], false);
    assert s[q..q + |d|] == d;
    AltMatchFirst(s, r.alts, q, d);
    ApplyRuleAt(s, r, Match(|d|, q, q + |d|));
    assert s[|d|..q] == body;
    assert s[q + |d|..] == [];
    WrapEmptyTail(ApplyRule(s, r), r.before, body, r.after, ApplyRule([], r));
  }

  lemma WrapEmptyTail(whole: string, before: string, body: string, after: string, rest: string)
    requires whole == before + body + after + rest && rest == []
    ensures whole == before + body + after
  {
  }

  /** `**a**` becomes `<strong>a</strong>` when a holds no mark and no line break, in either order. */
  lemma BoldWraps(a: string, order: EmphasisOrder)
    requires Inert(a) && SingleLine(a)
    ensures Emphasis("**" + a + "**", order) == "<strong>" + a + "</strong>"
  {
    var s := "**" + a + "**";
    var r := "<strong>" + a + "</strong>";
    BoldRuleWraps(a);
    RulesOpenWithMark();
    ApplyRuleInert(r, ITALIC);
    if order == AsWritten {
      EmphasisInertTail(r);
      AsWrittenChain(s, r, r);
    } else {
      BoldTriplesSkip(a);
      BoldItalicFirstChain(s, r, r);
    }
  }

  /** The bold rule wraps `**a**`, and what it gives holds no mark. */
  lemma BoldRuleWraps(a: string)
    requires Inert(a) && SingleLine(a)
    ensures ApplyRule("**" + a + "**", BOLD) == "<strong>" + a + "</strong>"
    ensures Inert("<strong>" + a + "</strong>")
  {
    RulesOpenWithMark();
    ClosesOnlyAtEndWithout(a, "**");
    ApplyRuleWrapsFirst(BOLD, a);
    TagsInert();
    InertWrap("<strong>", a, "</strong>");
  }

  /** The two bold-italic rules leave `**a**` alone. */
  lemma BoldTriplesSkip(a: string)
    requires Inert(a)
    ensures ApplyRule("**" + a + "**", BOLD_ITALIC) == "**" + a + "**"
    ensures ApplyRule("**" + a + "**", BOLD_ITALIC_MIXED) == "**" + a + "**"
  {
    if a == [] {
      assert "**" + a + "**" == "****";
      QuadrupleStar();
    } else {
      BoldNoTriple(a);
      TripleRulesSkip("**" + a + "**");
    }
  }

  /** After the bold rule, the other three rules leave text without marks alone. */
  lemma EmphasisInertTail(s: string)
    requires Inert(s)
    ensures ApplyRule(ApplyRule(ApplyRule(s, ITALIC), BOLD_ITALIC), BOLD_ITALIC_MIXED) == s
    ensures ApplyRule(ApplyRule(s, BOLD_ITALIC), BOLD_ITALIC_MIXED) == s
  {
    RulesOpenWithMark();
    ApplyRuleInert(s, ITALIC);
    ApplyRuleInert(s, BOLD_ITALIC);
    ApplyRuleInert(s, BOLD_ITALIC_MIXED);
  }

  /** A single `*` is no bold span. */
  lemma LoneStar()
    ensures ApplyRule("*", BOLD) == "*"
  {
    assert !IsAt("*", 0, "**") && !IsAt("*", 0, "__");
    assert "*"[1..] == [];
  }

  /** The replacement tags hold no mark. */
  lemma TagsInert()
    ensures Inert("<strong>") && Inert("</strong>") && Inert("<em>") && Inert("</em>")
    ensures Inert("<strong><em>") && Inert("</strong></em>") && Inert("</em></strong>")
  {
  }

  lemma InertConcat(a: string, b: string)
    requires Inert(a) && Inert(b)
    ensures Inert(a + b)
  {
    assert forall c :: c in a + b ==> c in a || c in b;
  }

  lemma InertWrap(before: string, a: string, after: string)
    requires Inert(before) && Inert(a) && Inert(after)
    ensures Inert(before + a + after)
  {
    InertConcat(before, a);
    InertConcat(before + a, after);
  }

  /** `*a*` becomes `<em>a</em>` when a holds no mark and no line break, in either order. */
  lemma ItalicWraps(a: string, order: EmphasisOrder)
    requires Inert(a) && SingleLine(a)
    ensures Emphasis("*" + a + "*", order) == "<em>" + a + "</em>"
  {
    var s := "*" + a + "*";
    var r := "<em>" + a + "</em>";
    RulesOpenWithMark();
    ItalicSkipsBold(a);
    ClosesOnlyAtEndWithout(a, "*");
    ApplyRuleWrapsFirst(ITALIC, a);
    TagsInert();
    InertConcat("<em>" + a, "</em>");
    ApplyRuleInert(r, BOLD_ITALIC);
    ApplyRuleInert(r, BOLD_ITALIC_MIXED);
    if order == BoldItalicFirst {
      ItalicNoTriple(a);
      TripleRulesSkip(s);
      BoldItalicFirstChain(s, s, r);
    }
  }

  /** The bold rule, which runs before the italic rule, finds no `**` span in `*a*`. */
  lemma ItalicSkipsBold(a: string)
    requires Inert(a) && SingleLine(a)
    ensures ApplyRule("*" + a + "*", BOLD) == "*" + a + "*"
  {
    RulesOpenWithMark();
    var s := "*" + a + "*";
    if a == [] {
      assert s == "**";
      assert FindCloser(s, ["**"], false, 2).None?;
      assert AltMatch(s, BOLD.alts).None?;
      assert AltMatch(s[1..], BOLD.alts).None?;
      assert ApplyRule(s[1..], BOLD) == s[1..] by {
        assert s[1..][1..] == [];
      }
      assert ApplyRule(s, BOLD) == s;
    } else {
      assert s[1] == a[0] && a[0] in a;
      assert !IsAt(s, 0, "**") by {
        assert s[..2][1] == s[1];
      }
      assert !IsAt(s, 0, "__") by {
        assert s[..2][0] == s[0];
      }
      assert AltMatch(s, BOLD.alts).None?;
      assert s[1..] == a + "*";
      ApplyRuleInertPrefix(a, "*", BOLD);
      LoneStar();
      assert ApplyRule(s, BOLD) == s;
    }
  }

  /** The reordered chain, when its two bold-italic rules leave s alone. */
  lemma BoldItalicFirstChain(s: string, b: string, r: string)
    requires ApplyRule(s, BOLD_ITALIC) == s && ApplyRule(s, BOLD_ITALIC_MIXED) == s
    requires ApplyRule(s, BOLD) == b && ApplyRule(b, ITALIC) == r
    ensures Emphasis(s, BoldItalicFirst) == r
  {
  }

  predicate IsMark(c: char) {
    c == '*' || c == '_'
  }

  /** No three marks in a row: no bold-italic opener occurs anywhere. */
  predicate NoTripleMark(s: string) {
    forall j :: 0 <= j < |s| - 2 ==> !(IsMark(s[j]) && IsMark(s[j + 1]) && IsMark(s[j + 2]))
  }

  /** A rule none of whose alternatives reaches a closer from any position of s leaves s unchanged. */
  lemma {:induction false} ApplyRuleUnreached(s: string, r: Rule)
    requires WellFormed(r)
    requires forall j, i :: 0 <= j < |s| && 0 <= i < |r.alts| ==> !Reaches(s[j..], r.alts[i])
    ensures ApplyRule(s, r) == s
    decreases |s|
  {
    if s != [] {
      AltMatchIsFirst(s, r.alts);
      assert forall i :: 0 <= i < |r.alts| ==> !Reaches(s[0..], r.alts[i]);
      assert s[0..] == s;
      assert AltMatch(s, r.alts).None?;
      var t := s[1..];
      assert forall j :: 0 <= j < |t| ==> t[j..] == s[j + 1..];
      ApplyRuleUnreached(t, r);
      assert s == [s[0]] + t;
    }
  }

  /** A rule none of whose openers occurs anywhere in s leaves s unchanged. */
  lemma ApplyRuleNoOpener(s: string, r: Rule)
    requires WellFormed(r)
    requires forall j, i :: 0 <= j <= |s| && 0 <= i < |r.alts| ==> !IsAt(s, j, r.alts[i].open)
    ensures ApplyRule(s, r) == s
  {
    forall j, i | 0 <= j < |s| && 0 <= i < |r.alts|
      ensures !Reaches(s[j..], r.alts[i])
    {
      IsAtSuffix(s, j, 0, r.alts[i].open);
    }
    ApplyRuleUnreached(s, r);
  }

  /** Text too short to hold an opener and a closer cannot reach one. */
  lemma ShortUnreached(t: string, a: Alt)
    requires |a.open| > 0
    requires forall c :: c in a.closers ==> |t| < |a.open| + |c|
    ensures !Reaches(t, a)
  {
  }

  /** Where there are no three marks in a row, the two bold-italic rules change nothing. */
  lemma TripleRulesSkip(s: string)
    requires NoTripleMark(s)
    ensures ApplyRule(s, BOLD_ITALIC) == s && ApplyRule(s, BOLD_ITALIC_MIXED) == s
  {
    TripleOpeners();
    forall j, i | 0 <= j <= |s| && 0 <= i < 2
      ensures !IsAt(s, j, BOLD_ITALIC.alts[i].open) && !IsAt(s, j, BOLD_ITALIC_MIXED.alts[i].open)
    {
      ThreeMarksAbsent(s, j, BOLD_ITALIC.alts[i].open);
      ThreeMarksAbsent(s, j, BOLD_ITALIC_MIXED.alts[i].open);
    }
    ApplyRuleNoOpener(s, BOLD_ITALIC);
    ApplyRuleNoOpener(s, BOLD_ITALIC_MIXED);
  }

  lemma TripleOpeners()
    ensures |BOLD_ITALIC.alts| == 2 && |BOLD_ITALIC_MIXED.alts| == 2
    ensures WellFormed(BOLD_ITALIC) && WellFormed(BOLD_ITALIC_MIXED)
    ensures forall i :: 0 <= i < 2 ==> |BOLD_ITALIC.alts[i].open| == 3 && |BOLD_ITALIC_MIXED.alts[i].open| == 3
    ensures forall i, k :: 0 <= i < 2 && 0 <= k < 3 ==> IsMark(BOLD_ITALIC.alts[i].open[k]) && IsMark(BOLD_ITALIC_MIXED.alts[i].open[k])
    ensures forall i, c :: 0 <= i < 2 && c in BOLD_ITALIC.alts[i].closers ==> |c| == 3
    ensures forall i, c :: 0 <= i < 2 && c in BOLD_ITALIC_MIXED.alts[i].closers ==> |c| == 3
  {
  }

  lemma ThreeMarksAbsent(s: string, j: nat, p: string)
    requires NoTripleMark(s) && |p| == 3 && IsMark(p[0]) && IsMark(p[1]) && IsMark(p[2])
    ensures !IsAt(s, j, p)
  {
  }

  /** `**a**` with a non-empty and free of marks has no three marks in a row. */
  lemma BoldNoTriple(a: string)
    requires a != [] && Inert(a)
    ensures NoTripleMark("**" + a + "**")
  {
    var s := "**" + a + "**";
    forall j | 0 <= j < |s| - 2
      ensures !(IsMark(s[j]) && IsMark(s[j + 1]) && IsMark(s[j + 2]))
    {
      var k := if j < 2 then 2 else j;
      assert s[k] == a[k - 2] && a[k - 2] in a;
    }
  }

  /** `*a*` with a free of marks has no three marks in a row. */
  lemma ItalicNoTriple(a: string)
    requires Inert(a)
    ensures NoTripleMark("*" + a + "*")
  {
    var s := "*" + a + "*";
    forall j | 0 <= j < |s| - 2
      ensures !(IsMark(s[j]) && IsMark(s[j + 1]) && IsMark(s[j + 2]))
    {
      assert s[j + 1] == a[j] && a[j] in a;
    }
  }

  /** `****`: the two bold-italic rules find an opener but no closer after it. */
  lemma QuadrupleStar()
    ensures ApplyRule("****", BOLD_ITALIC) == "****" && ApplyRule("****", BOLD_ITALIC_MIXED) == "****"
  {
    var s := "****";
    TripleOpeners();
    forall j, i | 0 <= j < |s| && 0 <= i < 2
      ensures !Reaches(s[j..], BOLD_ITALIC.alts[i]) && !Reaches(s[j..], BOLD_ITALIC_MIXED.alts[i])
    {
      ShortUnreached(s[j..], BOLD_ITALIC.alts[i]);
      ShortUnreached(s[j..], BOLD_ITALIC_MIXED.alts[i]);
    }
    ApplyRuleUnreached(s, BOLD_ITALIC);
    ApplyRuleUnreached(s, BOLD_ITALIC_MIXED);
  }

  // ---------------------------------------------------------------------
  // The triple marks

  /**
   * As script.js orders the rules, `***x***` is taken apart by the bold
   * rule, then the italic rule, and the tags come out crossed.
   */
  lemma TripleAsWritten(x: string)
    requires x != [] && Inert(x) && SingleLine(x)
    ensures Emphasis("***" + x + "***", AsWritten) == "<strong><em>" + x + "</strong></em>"
  {
    var b := "<strong>*" + x + "</strong>*";
    var r := "<strong><em>" + x + "</strong></em>";
    TripleBoldStep(x);
    TripleItalicStep(x);
    TagsInert();
    InertWrap("<strong><em>", x, "</strong></em>");
    EmphasisInertTail(r);
    AsWrittenChain("***" + x + "***", b, r);
  }

  /** The chain in script.js's order, given what its first two rules return. */
  lemma AsWrittenChain(s: string, b: string, r: string)
    requires ApplyRule(s, BOLD) == b && ApplyRule(b, ITALIC) == r
    requires ApplyRule(ApplyRule(r, BOLD_ITALIC), BOLD_ITALIC_MIXED) == r
    ensures Emphasis(s, AsWritten) == r
  {
  }

  /** The repaired chain, given what its first rule returns. */
  lemma RepairedChain(s: string, r: string)
    requires ApplyRule(s, BOLD_ITALIC) == r
    requires ApplyRule(ApplyRule(ApplyRule(r, BOLD_ITALIC_MIXED), BOLD), ITALIC) == r
    ensures Emphasis(s, BoldItalicFirst) == r
  {
  }

  /** The bold rule: `**` opens, the lazy group takes `*x`, `**` closes, one `*` is left over. */
  lemma TripleBoldStep(x: string)
    requires x != [] && Inert(x) && SingleLine(x)
    ensures ApplyRule("***" + x + "***", BOLD) == "<strong>*" + x + "</strong>*"
  {
    var s := "***" + x + "***";
    var body := "*" + x;
    var q := 2 + |body|;
    TripleBoldMatch(x);
    ApplyRuleAt(s, BOLD, Match(2, q, q + 2));
    StarsSlices(x);
    LoneStar();
    BoldParts();
    Regroup(ApplyRule(s, BOLD), BOLD.before, s[2..q], BOLD.after, ApplyRule(s[q + 2..], BOLD),
            "<strong>", body, "</strong>", "*");
    StrayStar(x);
  }

  /** The bold rule's first alternative matches `***x***` from 0 to the second `**`. */
  lemma TripleBoldMatch(x: string)
    requires x != [] && Inert(x) && SingleLine(x)
    ensures AltMatch("***" + x + "***", BOLD.alts) == Some(Match(2, 3 + |x|, 5 + |x|))
  {
    var s := "***" + x + "***";
    var body := "*" + x;
    var q := 2 + |body|;
    StarsSplit(x);
    StarBody(x);
    FindsClosingDelimiter("**", body, "*", false);
    assert IsAt(s, 0, "**");
    assert CloserAt(s, q, ["**"]) == Some("**");
    BoldParts();
    AltMatchFirst(s, BOLD.alts, q, "**");
  }

  lemma StarsSplit(x: string)
    ensures "***" + x + "***" == "**" + ("*" + x) + "**" + "*"
    ensures ("***" + x + "***")[..2] == "**"
    ensures ("***" + x + "***")[3 + |x|..5 + |x|] == "**"
  {
  }

  lemma StarsSlices(x: string)
    ensures ("***" + x + "***")[2..3 + |x|] == "*" + x && ("***" + x + "***")[5 + |x|..] == "*"
  {
  }

  /** The first alternative matches when its opener is here and its lazy group reaches a closer. */
  lemma AltMatchFirst(s: string, alts: seq<Alt>, q: nat, c: string)
    requires alts != [] && forall i :: 0 <= i < |alts| ==> |alts[i].open| > 0
    requires IsAt(s, 0, alts[0].open)
    requires FindCloser(s, alts[0].closers, false, |alts[0].open|) == Some(q)
    requires CloserAt(s, q, alts[0].closers) == Some(c)
    ensures AltMatch(s, alts) == Some(Match(|alts[0].open|, q, q + |c|))
  {
  }

  /** `*x` cannot close a `**` span early and stays on one line. */
  lemma StarBody(x: string)
    requires x != [] && Inert(x) && SingleLine(x)
    ensures ClosesOnlyAtEnd("*" + x, "**") && SingleLine("*" + x)
  {
    var body := "*" + x;
    forall j | 0 <= j < |body|
      ensures !IsAt(body + "**", j, "**")
    {
      var u := body + "**";
      if j == 0 {
        assert u[1] == x[0] && x[0] in x;
        assert u[..2][1] == u[1];
      } else {
        assert u[j] == x[j - 1] && x[j - 1] in x;
        assert u[j..j + 2][0] == u[j];
      }
    }
    assert forall i :: 1 <= i < |body| ==> body[i] == x[i - 1];
  }

  /** One step of a rule at a match. */
  lemma ApplyRuleAt(s: string, r: Rule, m: Match)
    requires WellFormed(r) && s != [] && AltMatch(s, r.alts) == Some(m)
    ensures ApplyRule(s, r) == r.before + s[m.start..m.end] + r.after + ApplyRule(s[m.next..], r)
  {
  }

  lemma BoldParts()
    ensures BOLD.before == "<strong>" && BOLD.after == "</strong>" && WellFormed(BOLD)
    ensures BOLD.alts[0] == Alt("**", ["**"])
  {
  }

  /** Equal parts make equal concatenations. */
  lemma Regroup(r: string, a: string, b: string, c: string, d: string, a': string, b': string, c': string, d': string)
    requires r == a + b + c + d && a == a' && b == b' && c == c' && d == d'
    ensures r == a' + b' + c' + d'
  {
  }

  /** The italic rule: the `*` before x opens and the `*` left over closes, across `</strong>`. */
  lemma TripleItalicStep(x: string)
    requires x != [] && Inert(x) && SingleLine(x)
    ensures ApplyRule("<strong>*" + x + "</strong>*", ITALIC) == "<strong><em>" + x + "</strong></em>"
  {
    RulesOpenWithMark();
    var inner := x + "</strong>";
    var t := "*" + inner + "*";
    assert "<strong>*" + x + "</strong>*" == "<strong>" + t;
    ApplyRuleInertPrefix("<strong>", t, ITALIC);
    TagsInert();
    InertConcat(x, "</strong>");
    ClosesOnlyAtEndWithout(inner, "*");
    ClosingTagSingleLine();
    SingleLineConcat(x, "</strong>");
    ApplyRuleWrapsFirst(ITALIC, inner);
    assert ApplyRule("<strong>*" + x + "</strong>*", ITALIC) == "<strong>" + ("<em>" + inner + "</em>");
    CrossedTags(x);
  }

  lemma ClosingTagSingleLine()
    ensures SingleLine("</strong>")
  {
  }

  lemma SingleLineConcat(a: string, b: string)
    requires SingleLine(a) && SingleLine(b)
    ensures SingleLine(a + b)
  {
    forall i | 0 <= i < |a + b|
      ensures !IsLineTerminator((a + b)[i])
    {
      if i < |a| {
        assert (a + b)[i] == a[i];
      } else {
        assert (a + b)[i] == b[i - |a|];
      }
    }
  }

  lemma StrayStar(x: string)
    ensures "<strong>" + ("*" + x) + "</strong>" + "*" == "<strong>*" + x + "</strong>*"
  {
  }

  lemma CrossedTags(x: string)
    ensures "<strong>" + ("<em>" + (x + "</strong>") + "</em>") == "<strong><em>" + x + "</strong></em>"
  {
  }

  /** With the bold-italic rules first, `***x***` nests its tags properly. */
  lemma TripleBoldItalicFirst(x: string)
    requires Inert(x) && SingleLine(x)
    ensures Emphasis("***" + x + "***", BoldItalicFirst) == "<strong><em>" + x + "</em></strong>"
  {
    var r := "<strong><em>" + x + "</em></strong>";
    BoldItalicWraps(x);
    TagsInert();
    InertWrap("<strong><em>", x, "</em></strong>");
    RepairedTail(r);
    RepairedChain("***" + x + "***", r);
  }

  /** The bold-italic rule wraps `***x***` whole. */
  lemma BoldItalicWraps(x: string)
    requires Inert(x) && SingleLine(x)
    ensures ApplyRule("***" + x + "***", BOLD_ITALIC) == "<strong><em>" + x + "</em></strong>"
  {
    RulesOpenWithMark();
    ClosesOnlyAtEndWithout(x, "***");
    ApplyRuleWrapsFirst(BOLD_ITALIC, x);
  }

  /** After the bold-italic rule, the other three leave text without marks alone. */
  lemma RepairedTail(s: string)
    requires Inert(s)
    ensures ApplyRule(ApplyRule(ApplyRule(s, BOLD_ITALIC_MIXED), BOLD), ITALIC) == s
  {
    RulesOpenWithMark();
    ApplyRuleInert(s, BOLD_ITALIC_MIXED);
    ApplyRuleInert(s, BOLD);
    ApplyRuleInert(s, ITALIC);
  }
}
