/**
 * The HTML escape step of the formatter: three global replacements run one
 * after another, `&` first, then `<`, then `>` (frontend/script.js:29-32).
 * EscapeHtml is the one-pass reference definition the chain is proved equal
 * to, and Unescape is its inverse.
 */
module Escape {

  /** The entity that stands for one character in escaped text. */
  function EscapeChar(c: char): string {
    if c == '&' then "&amp;"
    else if c == '<' then "&lt;"
    else if c == '>' then "&gt;"
    else [c]
  }

  /** Reference definition: every character replaced by its entity in one pass. */
  function EscapeHtml(s: string): string
    decreases |s|
  {
    if s == [] then [] else EscapeChar(s[0]) + EscapeHtml(s[1..])
  }

  /** `s.replace(/c/g, rep)` for a one-character pattern. */
  function ReplaceAll(s: string, c: char, rep: string): string
    decreases |s|
  {
    if s == [] then []
    else (if s[0] == c then rep else [s[0]]) + ReplaceAll(s[1..], c, rep)
  }

  /** The chain formatContent applies, in script.js's order. */
  function EscapeChain(s: string): string {
    ReplaceAll(ReplaceAll(ReplaceAll(s, '&', "&amp;"), '<', "&lt;"), '>', "&gt;")
  }

  lemma {:induction false} ReplaceAllConcat(a: string, b: string, c: char, rep: string)
    ensures ReplaceAll(a + b, c, rep) == ReplaceAll(a, c, rep) + ReplaceAll(b, c, rep)
    decreases |a|
  {
    if a == [] {
      assert a + b == b;
    } else {
      assert (a + b)[0] == a[0] && (a + b)[1..] == a[1..] + b;
      ReplaceAllConcat(a[1..], b, c, rep);
    }
  }

  lemma {:induction false} ReplaceAllAbsent(s: string, c: char, rep: string)
    requires c !in s
    ensures ReplaceAll(s, c, rep) == s
    decreases |s|
  {
    if s != [] {
      assert s == [s[0]] + s[1..];
      ReplaceAllAbsent(s[1..], c, rep);
    }
  }

  lemma EscapeChainConcat(a: string, b: string)
    ensures EscapeChain(a + b) == EscapeChain(a) + EscapeChain(b)
  {
    ReplaceAllConcat(a, b, '&', "&amp;");
    var a1, b1 := ReplaceAll(a, '&', "&amp;"), ReplaceAll(b, '&', "&amp;");
    ReplaceAllConcat(a1, b1, '<', "&lt;");
    ReplaceAllConcat(ReplaceAll(a1, '<', "&lt;"), ReplaceAll(b1, '<', "&lt;"), '>', "&gt;");
  }

  lemma ReplaceAllOne(c: char, x: char, rep: string)
    ensures ReplaceAll([c], x, rep) == if c == x then rep else [c]
  {
    var one := [c];
    assert one[1..] == [];
  }

  lemma EscapeChainChar(c: char)
    ensures EscapeChain([c]) == EscapeChar(c)
  {
    EntitiesHoldNoBracket();
    ReplaceAllOne(c, '&', "&amp;");
    if c == '&' {
      ReplaceAllAbsent("&amp;", '<', "&lt;");
      ReplaceAllAbsent("&amp;", '>', "&gt;");
    } else {
      ReplaceAllOne(c, '<', "&lt;");
      if c == '<' {
        ReplaceAllAbsent("&lt;", '>', "&gt;");
      } else {
        ReplaceAllOne(c, '>', "&gt;");
      }
    }
  }

  lemma EntitiesHoldNoBracket()
    ensures '<' !in "&amp;" && '>' !in "&amp;" && '>' !in "&lt;"
  {
  }

  /** The chain equals the one-pass escape: since `&` goes first, no entity is escaped twice. */
  lemma {:induction false} EscapeChainIsEscapeHtml(s: string)
    ensures EscapeChain(s) == EscapeHtml(s)
    decreases |s|
  {
    if s != [] {
      assert s == [s[0]] + s[1..];
      EscapeChainConcat([s[0]], s[1..]);
      EscapeChainChar(s[0]);
      EscapeChainIsEscapeHtml(s[1..]);
    }
  }

  /** The other order turns `<` into `&amp;lt;`: the reason `&` is replaced first. */
  lemma AmpersandLastDoubleEscapes()
    ensures ReplaceAll(ReplaceAll("<", '<', "&lt;"), '&', "&amp;") == "&amp;lt;"
  {
    assert ReplaceAll("<", '<', "&lt;") == "&lt;" by {
      assert "<"[1..] == [];
    }
    assert "&lt;" == "&" + "lt;";
    ReplaceAllConcat("&", "lt;", '&', "&amp;");
    assert "&"[1..] == [];
    ReplaceAllAbsent("lt;", '&', "&amp;");
  }

  lemma {:induction false} EscapeHtmlConcat(a: string, b: string)
    ensures EscapeHtml(a + b) == EscapeHtml(a) + EscapeHtml(b)
    decreases |a|
  {
    if a == [] {
      assert a + b == b;
    } else {
      assert (a + b)[0] == a[0] && (a + b)[1..] == a[1..] + b;
      EscapeHtmlConcat(a[1..], b);
    }
  }

  /**
   * Escaped text holds no `<` or `>`, and every other character it holds
   * is either from s or part of one of the three entities.
   */
  lemma {:induction false} EscapeHtmlChars(s: string)
    ensures '<' !in EscapeHtml(s) && '>' !in EscapeHtml(s)
    ensures forall c :: c in EscapeHtml(s) ==> c in s || c in "&amp;lt;gt;"
    decreases |s|
  {
    if s != [] {
      EscapeHtmlChars(s[1..]);
    }
  }

  lemma EscapeHtmlAbsent(s: string)
    requires '&' !in s && '<' !in s && '>' !in s
    ensures EscapeHtml(s) == s
  {
    EscapeChainIsEscapeHtml(s);
    ReplaceAllAbsent(s, '&', "&amp;");
    ReplaceAllAbsent(s, '<', "&lt;");
    ReplaceAllAbsent(s, '>', "&gt;");
  }

  /** Decoding the three entities; anything else is kept as it is. */
  function Unescape(s: string): string
    decreases |s|
  {
    if s == [] then []
    else if |s| >= 5 && s[..5] == "&amp;" then "&" + Unescape(s[5..])
    else if |s| >= 4 && s[..4] == "&lt;" then "<" + Unescape(s[4..])
    else if |s| >= 4 && s[..4] == "&gt;" then ">" + Unescape(s[4..])
    else [s[0]] + Unescape(s[1..])
  }

  /** Escaping loses nothing: the escaped text decodes to the original. */
  lemma {:induction false} UnescapeEscapeHtml(s: string)
    ensures Unescape(EscapeHtml(s)) == s
    decreases |s|
  {
    if s != [] {
      var e, rest := EscapeChar(s[0]), EscapeHtml(s[1..]);
      var t := e + rest;
      UnescapeEscapeHtml(s[1..]);
      if s[0] == '&' {
        assert t[..5] == "&amp;" && t[5..] == rest;
      } else if s[0] == '<' {
        assert t[1] == 'l' && t[..4] == "&lt;" && t[4..] == rest;
        assert |t| >= 5 ==> t[..5][1] == t[1];
      } else if s[0] == '>' {
        assert t[1] == 'g' && t[..4] == "&gt;" && t[4..] == rest;
        assert |t| >= 5 ==> t[..5][1] == t[1];
        assert t[..4][1] == t[1];
      } else {
        assert t[0] == s[0] && t[1..] == rest;
        assert |t| >= 5 ==> t[..5][0] == t[0];
        assert |t| >= 4 ==> t[..4][0] == t[0];
      }
      assert s == [s[0]] + s[1..];
    }
  }
}
