/**
 * Character classes and string primitives shared by the formatter and the
 * chat controller: the JavaScript notions of line terminator and white space,
 * String.prototype.trim, decimal rendering of a marker index, and the lazy
 * scan that every `(.*?)` / `([\s\S]*?)` group of the formatter's regular
 * expressions performs.
 */
module Text {

  datatype Option<T> = None | Some(value: T)

  /** The ESC character (U+001B) that brackets every placeholder marker. */
  const ESC: char := '\U{1B}'

  /** ECMAScript LineTerminator: the characters `.` refuses to match. */
  predicate IsLineTerminator(c: char) {
    c == '\n' || c == '\r' || c == '\U{2028}' || c == '\U{2029}'
  }

  /** ECMAScript WhiteSpace or LineTerminator: what String.prototype.trim strips. */
  predicate IsJsSpace(c: char) {
    || IsLineTerminator(c)
    || c == '\t' || c == '\U{B}' || c == '\U{C}' || c == ' ' || c == '\U{A0}'
    || c == '\U{1680}' || ('\U{2000}' <= c <= '\U{200A}')
    || c == '\U{202F}' || c == '\U{205F}' || c == '\U{3000}' || c == '\U{FEFF}'
  }

  /** `\d` in a JavaScript regular expression: an ASCII digit. */
  predicate IsDigit(c: char) {
    '0' <= c <= '9'
  }

  /** No character of s is a line terminator, so `.` can cross all of it. */
  predicate SingleLine(s: string) {
    forall i :: 0 <= i < |s| ==> !IsLineTerminator(s[i])
  }

  /** pat occurs in s starting at index i. */
  predicate IsAt(s: string, i: nat, pat: string) {
    i + |pat| <= |s| && s[i..i + |pat|] == pat
  }

  /** pat occurs in s at no index. */
  predicate HasNo(s: string, pat: string) {
    forall j :: 0 <= j <= |s| ==> !IsAt(s, j, pat)
  }

  lemma IsAtSuffix(s: string, k: nat, j: nat, pat: string)
    requires k <= |s|
    ensures IsAt(s[k..], j, pat) <==> IsAt(s, k + j, pat)
  {
    if k + j + |pat| <= |s| {
      assert s[k..][j..j + |pat|] == s[k + j..k + j + |pat|];
    }
  }

  lemma IsAtConcat(a: string, b: string, j: nat, pat: string)
    requires j + |pat| <= |a|
    ensures IsAt(a + b, j, pat) <==> IsAt(a, j, pat)
  {
    assert (a + b)[j..j + |pat|] == a[j..j + |pat|];
  }

  lemma IsAtFirstChar(s: string, j: nat, pat: string)
    requires IsAt(s, j, pat) && |pat| > 0
    ensures j < |s| && s[j] == pat[0]
  {
    assert s[j..j + |pat|][0] == s[j];
  }

  /** Regrouping a concatenation, stated on bare strings so that no function of them is in view. */
  lemma StringAssoc(a: string, b: string, c: string)
    ensures a + (b + c) == (a + b) + c
  {
  }

  lemma StringUncons(p: string, t: string)
    requires p != []
    ensures p == [p[0]] + p[1..] && p + t == [p[0]] + (p[1..] + t)
  {
  }

  lemma TailChars(p: string)
    requires p != []
    ensures p[0] in p && forall c :: c in p[1..] ==> c in p
  {
  }

  lemma DropPrefix(p: string, t: string)
    ensures (p + t)[..|p|] == p && (p + t)[|p|..] == t
  {
  }

  lemma ConsParts(c: char, u: string, v: string)
    ensures ([c] + u + v)[0] == c && ([c] + u + v)[1..] == u + v
  {
  }

  // ---------------------------------------------------------------------
  // String.prototype.trim

  function TrimStart(s: string): (r: string)
    ensures |r| <= |s| && r == s[|s| - |r|..]
    ensures r == [] || !IsJsSpace(r[0])
    ensures forall i :: 0 <= i < |s| - |r| ==> IsJsSpace(s[i])
    decreases |s|
  {
    if s != [] && IsJsSpace(s[0]) then TrimStart(s[1..]) else s
  }

  function TrimEnd(s: string): (r: string)
    ensures |r| <= |s| && r == s[..|r|]
    ensures r == [] || !IsJsSpace(r[|r| - 1])
    ensures forall i :: |r| <= i < |s| ==> IsJsSpace(s[i])
    decreases |s|
  {
    if s != [] && IsJsSpace(s[|s| - 1]) then TrimEnd(s[..|s| - 1]) else s
  }

  /**
   * String.prototype.trim: the longest infix of s that neither starts nor
   * ends with white space, with only white space cut off on either side.
   */
  function Trim(s: string): (r: string)
    ensures r == [] || (!IsJsSpace(r[0]) && !IsJsSpace(r[|r| - 1]))
    ensures r == [] <==> forall i :: 0 <= i < |s| ==> IsJsSpace(s[i])
    ensures forall c :: c in r ==> c in s
  {
    var t := TrimStart(s);
    var r := TrimEnd(t);
    TrimInfix(s, t, r);
    r
  }

  /** Cutting white space off the front, then off the back, leaves an infix with a non-space at each end. */
  lemma TrimInfix(s: string, t: string, r: string)
    requires |t| <= |s| && t == s[|s| - |t|..] && (t == [] || !IsJsSpace(t[0]))
    requires forall i :: 0 <= i < |s| - |t| ==> IsJsSpace(s[i])
    requires |r| <= |t| && r == t[..|r|] && (r == [] || !IsJsSpace(r[|r| - 1]))
    requires forall i :: |r| <= i < |t| ==> IsJsSpace(t[i])
    ensures r == [] || (!IsJsSpace(r[0]) && !IsJsSpace(r[|r| - 1]))
    ensures r == [] <==> forall i :: 0 <= i < |s| ==> IsJsSpace(s[i])
    ensures forall c :: c in r ==> c in s
  {
    var d := |s| - |t|;
    assert forall i :: 0 <= i < |t| ==> t[i] == s[d + i];
    assert forall i :: 0 <= i < |r| ==> r[i] == t[i];
    forall c | c in r
      ensures c in s
    {
      var i :| 0 <= i < |r| && r[i] == c;
      assert s[d + i] == c;
    }
  }

  /** s is white space throughout. */
  predicate Blank(s: string) {
    forall k :: 0 <= k < |s| ==> IsJsSpace(s[k])
  }

  /**
   * What trim returns, pinned down: an infix s[i..j] with only white space
   * outside it and a non-space at each of its ends. Only one infix is so.
   */
  lemma TrimIsInfix(s: string)
    ensures exists i, j :: 0 <= i <= j <= |s| && Trim(s) == s[i..j] && Blank(s[..i]) && Blank(s[j..])
    ensures Trim(s) == [] || (!IsJsSpace(Trim(s)[0]) && !IsJsSpace(Trim(s)[|Trim(s)| - 1]))
  {
    var i, j := TrimCutsOf(s);
  }

  /** The two cuts trim makes in s. */
  lemma TrimCutsOf(s: string) returns (i: nat, j: nat)
    ensures i <= j <= |s| && Trim(s) == s[i..j] && Blank(s[..i]) && Blank(s[j..])
    ensures i == j || (!IsJsSpace(s[i]) && !IsJsSpace(s[j - 1]))
  {
    TrimUnfolds(s);
    i, j := TrimCuts(s, TrimStart(s), Trim(s));
  }

  lemma TrimUnfolds(s: string)
    ensures Trim(s) == TrimEnd(TrimStart(s))
  {
  }

  /** Where the two cuts of trim lie in s. */
  lemma TrimCuts(s: string, t: string, r: string) returns (i: nat, j: nat)
    requires |t| <= |s| && t == s[|s| - |t|..] && (t == [] || !IsJsSpace(t[0]))
    requires forall i :: 0 <= i < |s| - |t| ==> IsJsSpace(s[i])
    requires |r| <= |t| && r == t[..|r|] && (r == [] || !IsJsSpace(r[|r| - 1]))
    requires forall i :: |r| <= i < |t| ==> IsJsSpace(t[i])
    ensures i <= j <= |s| && r == s[i..j] && Blank(s[..i]) && Blank(s[j..])
    ensures i == j || (!IsJsSpace(s[i]) && !IsJsSpace(s[j - 1]))
  {
    i, j := |s| - |t|, |s| - |t| + |r|;
    assert forall k :: j <= k < |s| ==> s[k] == t[k - i];
    if r != [] {
      assert r[0] == t[0] == s[i];
      assert r[|r| - 1] == s[j - 1];
    }
  }

  /** Any infix with white space only outside it and a non-space at each end is what trim returns. */
  lemma TrimOfInfix(s: string, i: nat, j: nat)
    requires i <= j <= |s| && Blank(s[..i]) && Blank(s[j..])
    requires i == j || (!IsJsSpace(s[i]) && !IsJsSpace(s[j - 1]))
    ensures Trim(s) == s[i..j]
  {
    var i', j' := TrimCutsOf(s);
    BlankCutsAgree(s, i, j, i', j');
  }

  lemma BlankCutsAgree(s: string, i: nat, j: nat, i': nat, j': nat)
    requires i <= j <= |s| && Blank(s[..i]) && Blank(s[j..])
    requires i == j || (!IsJsSpace(s[i]) && !IsJsSpace(s[j - 1]))
    requires i' <= j' <= |s| && Blank(s[..i']) && Blank(s[j'..])
    requires i' == j' || (!IsJsSpace(s[i']) && !IsJsSpace(s[j' - 1]))
    ensures s[i..j] == s[i'..j']
  {
    BlankBefore(s, i', i);
    BlankBefore(s, i, i');
    BlankAfter(s, j', j - 1);
    BlankAfter(s, j, j' - 1);
    BlankAfter(s, j, i');
    BlankAfter(s, j', i);
  }

  lemma BlankBefore(s: string, b: nat, a: int)
    requires b <= |s| && Blank(s[..b])
    ensures 0 <= a < b ==> IsJsSpace(s[a])
  {
    if 0 <= a < b {
      assert s[..b][a] == s[a];
    }
  }

  lemma BlankAfter(s: string, b: nat, a: int)
    requires b <= |s| && Blank(s[b..])
    ensures b <= a < |s| ==> IsJsSpace(s[a])
  {
    if b <= a < |s| {
      assert s[b..][a - b] == s[a];
    }
  }

  lemma {:induction false} TrimIdempotent(s: string)
    ensures Trim(Trim(s)) == Trim(s)
  {
    var r := Trim(s);
    if r != [] {
      assert TrimStart(r) == r;
      assert TrimEnd(r) == r;
    }
  }

  // ---------------------------------------------------------------------
  // Decimal rendering of a marker index, and the digit strings that denote
  // an array element in JavaScript

  function DigitChar(d: nat): (c: char)
    requires d < 10
    ensures IsDigit(c)
  {
    ('0' as int + d) as char
  }

  /** The decimal numeral of n, as `${n}` writes it. */
  function Decimal(n: nat): string
    decreases n
  {
    if n < 10 then [DigitChar(n)] else Decimal(n / 10) + [DigitChar(n % 10)]
  }

  predicate AllDigits(d: string) {
    forall i :: 0 <= i < |d| ==> IsDigit(d[i])
  }

  /** The value of a string of decimal digits. */
  function DigitsValue(d: string): nat
    requires AllDigits(d)
    decreases |d|
  {
    if d == [] then 0
    else DigitsValue(d[..|d| - 1]) * 10 + (d[|d| - 1] as int - '0' as int)
  }

  /**
   * A digit string that is the canonical name of an array index: no leading
   * zero unless it is "0" itself. `a["007"]` is not `a[7]` in JavaScript.
   */
  predicate IsCanonicalIndex(d: string) {
    |d| > 0 && AllDigits(d) && (|d| == 1 || d[0] != '0')
  }

  lemma {:induction false} DecimalIsCanonical(n: nat)
    ensures IsCanonicalIndex(Decimal(n))
    ensures DigitsValue(Decimal(n)) == n
    decreases n
  {
    if n >= 10 {
      DecimalIsCanonical(n / 10);
      var d := Decimal(n / 10);
      assert Decimal(n) == d + [DigitChar(n % 10)];
      assert Decimal(n)[..|Decimal(n)| - 1] == d;
    }
  }

  /** A digit string that does not start with `0` has a positive value. */
  lemma {:induction false} LeadingDigitPositive(d: string)
    requires |d| > 0 && AllDigits(d) && d[0] != '0'
    ensures DigitsValue(d) > 0
    decreases |d|
  {
    if |d| > 1 {
      var init := d[..|d| - 1];
      assert init[0] == d[0];
      LeadingDigitPositive(init);
    }
  }

  /** A canonical index is the numeral of its value: no other digit string names an array element. */
  lemma {:induction false} CanonicalIsDecimal(d: string)
    requires IsCanonicalIndex(d)
    ensures Decimal(DigitsValue(d)) == d
    decreases |d|
  {
    var v := DigitsValue(d);
    if |d| == 1 {
      assert d == [d[0]];
    } else {
      var init := d[..|d| - 1];
      assert init[0] == d[0];
      LeadingDigitPositive(init);
      CanonicalIsDecimal(init);
      assert v / 10 == DigitsValue(init) && v % 10 == d[|d| - 1] as int - '0' as int;
      assert d == init + [d[|d| - 1]];
    }
  }

  // ---------------------------------------------------------------------
  // Lazy matching of a closing delimiter

  /** The first of `closers`, in order, that occurs in s at index j. */
  function CloserAt(s: string, j: nat, closers: seq<string>): (r: Option<string>)
    ensures r.Some? ==> r.value in closers && IsAt(s, j, r.value)
    ensures r.None? ==> forall c :: c in closers ==> !IsAt(s, j, c)
    decreases |closers|
  {
    if closers == [] then None
    else if IsAt(s, j, closers[0]) then Some(closers[0])
    else CloserAt(s, j, closers[1..])
  }

  lemma CloserAtOne(s: string, j: nat, d: string)
    ensures CloserAt(s, j, [d]).None? <==> !IsAt(s, j, d)
  {
    assert [d][0] == d && [d][1..] == [];
  }

  /**
   * What a lazy group `(.*?)` (crossLines false) or `([\s\S]*?)` (crossLines
   * true) followed by one of `closers` does from index `from`: the least j at
   * which a closer occurs, where the skipped characters s[from..j] contain no
   * line terminator unless crossLines.
   */
  function FindCloser(s: string, closers: seq<string>, crossLines: bool, from: nat): (r: Option<nat>)
    requires from <= |s|
    ensures r.Some? ==> from <= r.value <= |s| && CloserAt(s, r.value, closers).Some?
    ensures r.Some? ==> forall j :: from <= j < r.value ==> CloserAt(s, j, closers).None?
    ensures r.Some? && !crossLines ==> forall j :: from <= j < r.value ==> !IsLineTerminator(s[j])
    ensures r.None? ==> forall j :: from <= j <= |s| && CloserAt(s, j, closers).Some? ==>
              !crossLines && exists m :: from <= m < j && IsLineTerminator(s[m])
    decreases |s| - from
  {
    if CloserAt(s, from, closers).Some? then Some(from)
    else if from == |s| || (!crossLines && IsLineTerminator(s[from])) then None
    else FindCloser(s, closers, crossLines, from + 1)
  }

  /** A closer at q with none before it and nothing forbidden skipped is what the lazy scan finds. */
  lemma FindCloserFinds(s: string, closers: seq<string>, crossLines: bool, from: nat, q: nat)
    requires from <= q <= |s|
    requires CloserAt(s, q, closers).Some?
    requires forall j :: from <= j < q ==> CloserAt(s, j, closers).None?
    requires !crossLines ==> forall j :: from <= j < q ==> !IsLineTerminator(s[j])
    ensures FindCloser(s, closers, crossLines, from) == Some(q)
  {
  }

  /** A lazy body followed by delim ends exactly at the end of body: no earlier delim. */
  predicate ClosesOnlyAtEnd(body: string, delim: string) {
    forall j :: 0 <= j < |body| ==> !IsAt(body + delim, j, delim)
  }

  /** A body without the delimiter's first character cannot close early. */
  lemma ClosesOnlyAtEndWithout(body: string, delim: string)
    requires |delim| > 0 && delim[0] !in body
    ensures ClosesOnlyAtEnd(body, delim)
  {
    forall j | 0 <= j < |body|
      ensures !IsAt(body + delim, j, delim)
    {
      assert (body + delim)[j..j + |delim|][0] == body[j];
      assert body[j] in body;
    }
  }

  /** The lazy scan after an opening delim finds the closing delim right after body. */
  lemma FindsClosingDelimiter(d: string, body: string, rest: string, crossLines: bool)
    requires |d| > 0 && ClosesOnlyAtEnd(body, d)
    requires !crossLines ==> SingleLine(body)
    ensures FindCloser(d + body + d + rest, [d], crossLines, |d|) == Some(|d| + |body|)
  {
    var s := d + body + d + rest;
    var q := |d| + |body|;
    DelimitedParts(d, body, rest);
    assert CloserAt(s, q, [d]).Some?;
    forall j | |d| <= j < q
      ensures CloserAt(s, j, [d]).None?
    {
      IsAtSuffix(s, |d|, j - |d|, d);
      IsAtConcat(body + d, rest, j - |d|, d);
      assert !IsAt(body + d, j - |d|, d);
      assert [d][1..] == [];
    }
    FindCloserFinds(s, [d], crossLines, |d|, q);
  }

  /** Where the parts of d + body + d + rest lie. */
  lemma DelimitedParts(d: string, body: string, rest: string)
    ensures IsAt(d + body + d + rest, |d| + |body|, d)
    ensures (d + body + d + rest)[|d|..] == (body + d) + rest
    ensures SingleLine(body) ==> forall j :: |d| <= j < |d| + |body| ==> !IsLineTerminator((d + body + d + rest)[j])
  {
    var s := d + body + d + rest;
    var q := |d| + |body|;
    assert s[q..q + |d|] == d;
    assert forall j :: |d| <= j < q ==> s[j] == body[j - |d|];
  }

}
