/**
 * String helpers of the JavaScript runtime that the products controller relies
 * on: case mapping (`toUpperCase`, `toLowerCase`), `trim`, substring search,
 * and the decimal rendering of integers (template literals, `toString`).
 */
module Text {
  import opened Options

  /** String concatenation is associative. */
  lemma ConcatAssoc(a: string, b: string, c: string)
    ensures a + (b + c) == (a + b) + c
  {
  }

  // ---------------------------------------------------------------------------
  // Case mapping
  // ---------------------------------------------------------------------------

  /**
   * Upper-case form of one character. Besides `a`..`z`, U+0131 (dotless i) and
   * U+017F (long s) are the characters whose JavaScript upper-case form is a
   * single ASCII letter (`I` and `S`); every other character keeps a non-ASCII
   * or unchanged form, and the whitelist comparison can observe nothing more.
   */
  function UpperChar(c: char): char {
    if 'a' <= c <= 'z' then (c as int - 32) as char
    else if c == '\U{131}' then 'I'
    else if c == '\U{17F}' then 'S'
    else c
  }

  /**
   * Lower-case form of one character. Besides `A`..`Z`, U+212A (Kelvin sign)
   * is the one character whose JavaScript lower-case form is a single ASCII
   * letter (`k`).
   */
  function LowerChar(c: char): char {
    if 'A' <= c <= 'Z' then (c as int + 32) as char
    else if c == '\U{212A}' then 'k'
    else c
  }

  function ToUpper(s: string): string {
    seq(|s|, i requires 0 <= i < |s| => UpperChar(s[i]))
  }

  function ToLower(s: string): string {
    seq(|s|, i requires 0 <= i < |s| => LowerChar(s[i]))
  }

  /** `c` is a way of writing the capital `u`: itself, its small letter, the dotless i for `I` or the long s for `S`. */
  predicate UpperSpelling(c: char, u: char) {
    && 'A' <= u <= 'Z'
    && (c == u || c as int == u as int + 32 || (u == 'I' && c == '\U{131}') || (u == 'S' && c == '\U{17F}'))
  }

  /** `c` is a way of writing the small letter `l`: itself, its capital, or the Kelvin sign for `k`. */
  predicate LowerSpelling(c: char, l: char) {
    && 'a' <= l <= 'z'
    && (c == l || c as int == l as int - 32 || (l == 'k' && c == '\U{212A}'))
  }

  /** `s` spells the capital word `w` letter by letter, each letter in any of its spellings. */
  predicate UpperVariant(s: string, w: string) {
    |s| == |w| && forall i :: 0 <= i < |s| ==> UpperSpelling(s[i], w[i])
  }

  /** `s` spells the small-letter word `w` letter by letter, each letter in any of its spellings. */
  predicate LowerVariant(s: string, w: string) {
    |s| == |w| && forall i :: 0 <= i < |s| ==> LowerSpelling(s[i], w[i])
  }

  predicate Capitals(w: string) {
    forall i :: 0 <= i < |w| ==> 'A' <= w[i] <= 'Z'
  }

  predicate SmallLetters(w: string) {
    forall i :: 0 <= i < |w| ==> 'a' <= w[i] <= 'z'
  }

  /** The upper-case form of `s` is the capital word `w` exactly when `s` is a spelling of `w`. */
  lemma ToUpperIsWord(s: string, w: string)
    requires Capitals(w)
    ensures ToUpper(s) == w <==> UpperVariant(s, w)
  {
    if UpperVariant(s, w) {
      assert forall i :: 0 <= i < |s| ==> ToUpper(s)[i] == w[i];
    }
  }

  /** The lower-case form of `s` is the small-letter word `w` exactly when `s` is a spelling of `w`. */
  lemma ToLowerIsWord(s: string, w: string)
    requires SmallLetters(w)
    ensures ToLower(s) == w <==> LowerVariant(s, w)
  {
    if LowerVariant(s, w) {
      assert forall i :: 0 <= i < |s| ==> ToLower(s)[i] == w[i];
    }
  }

  // ---------------------------------------------------------------------------
  // String.prototype.trim
  // ---------------------------------------------------------------------------

  /** The WhiteSpace and LineTerminator code points that JavaScript's `trim` removes. */
  predicate IsJsSpace(c: char) {
    || c == '\t' || c == '\n' || c == '\U{B}' || c == '\U{C}' || c == '\r' || c == ' '
    || c == '\U{A0}' || c == '\U{1680}' || ('\U{2000}' <= c <= '\U{200A}')
    || c == '\U{2028}' || c == '\U{2029}' || c == '\U{202F}' || c == '\U{205F}'
    || c == '\U{3000}' || c == '\U{FEFF}'
  }

  predicate AllSpace(s: string) {
    forall k :: 0 <= k < |s| ==> IsJsSpace(s[k])
  }

  /** `r` is `s` without the white space around it: what is cut is white space, and `r` neither starts nor ends with any. */
  ghost predicate TrimmedOf(r: string, s: string) {
    && (exists a, b :: s == a + r + b && AllSpace(a) && AllSpace(b))
    && (r == [] || (!IsJsSpace(r[0]) && !IsJsSpace(r[|r| - 1])))
  }

  /** Drops the leading white space: the result is the suffix of `s` after it. */
  function TrimStart(s: string): (r: string)
    ensures |r| <= |s| && r == s[|s| - |r|..]
    ensures r == [] || !IsJsSpace(r[0])
    ensures AllSpace(s[..|s| - |r|])
  {
    if s != [] && IsJsSpace(s[0]) then
      var p := s[1..];
      var r := TrimStart(p);
      assert s[..|s| - |r|] == [s[0]] + p[..|p| - |r|];
      AllSpaceCons(s[0], p[..|p| - |r|]);
      r
    else s
  }

  /** Drops the trailing white space: the result is the prefix of `s` before it. */
  function TrimEnd(s: string): (r: string)
    ensures |r| <= |s| && r == s[..|r|]
    ensures r == [] || !IsJsSpace(r[|r| - 1])
    ensures AllSpace(s[|r|..])
  {
    if s != [] && IsJsSpace(s[|s| - 1]) then
      var p := s[..|s| - 1];
      var r := TrimEnd(p);
      assert s[..|r|] == p[..|r|];
      assert s[|r|..] == p[|r|..] + [s[|s| - 1]];
      AllSpaceSnoc(p[|r|..], s[|s| - 1]);
      r
    else s
  }

  lemma AllSpaceCons(c: char, t: string)
    requires IsJsSpace(c) && AllSpace(t)
    ensures AllSpace([c] + t)
  {
    assert forall k :: 1 <= k < |t| + 1 ==> ([c] + t)[k] == t[k - 1];
  }

  lemma AllSpaceSnoc(t: string, c: char)
    requires AllSpace(t) && IsJsSpace(c)
    ensures AllSpace(t + [c])
  {
    assert forall k :: 0 <= k < |t| ==> (t + [c])[k] == t[k];
  }

  /**
   * `s.trim()`: `s` is white space, then the result, then white space, and the
   * result neither starts nor ends with white space.
   */
  function Trim(s: string): (r: string)
    ensures TrimmedOf(r, s)
  {
    var t := TrimStart(s);
    var r := TrimEnd(t);
    TrimParts(s, t, r);
    r
  }

  /**
   * When `t` is `s` without its leading white space and `r` is `t` without its
   * trailing white space, `r` is `s` less white space on both sides.
   */
  lemma TrimParts(s: string, t: string, r: string)
    requires |t| <= |s| && t == s[|s| - |t|..] && AllSpace(s[..|s| - |t|])
    requires t == [] || !IsJsSpace(t[0])
    requires |r| <= |t| && r == t[..|r|] && AllSpace(t[|r|..])
    requires r == [] || !IsJsSpace(r[|r| - 1])
    ensures TrimmedOf(r, s)
  {
    var a, b := s[..|s| - |t|], t[|r|..];
    assert s == a + t;
    assert t == r + b;
    assert s == a + r + b;
  }

  /** Trimming twice is trimming once. */
  lemma TrimIdempotent(s: string)
    ensures Trim(Trim(s)) == Trim(s)
  {
    var r := Trim(s);
    assert TrimStart(r) == r;
    assert TrimEnd(r) == r;
  }

  // ---------------------------------------------------------------------------
  // Substring search (SQL `LIKE '%t%'`, Sequelize's `Op.substring`)
  // ---------------------------------------------------------------------------

  /** `t` occurs somewhere in `s`. */
  predicate Contains(s: string, t: string)
    decreases |s|
  {
    t <= s || (s != [] && Contains(s[1..], t))
  }

  /** `Contains` holds exactly when `t` is a prefix of some suffix of `s`. */
  lemma {:induction false} ContainsIffOccurs(s: string, t: string)
    ensures Contains(s, t) <==> exists i :: 0 <= i <= |s| && t <= s[i..]
    decreases |s|
  {
    if t <= s {
      assert s[0..] == s;
    } else if s != [] {
      ContainsIffOccurs(s[1..], t);
      if Contains(s[1..], t) {
        var i :| 0 <= i <= |s| - 1 && t <= s[1..][i..];
        assert s[1..][i..] == s[i + 1..];
      }
      if exists i :: 0 <= i <= |s| && t <= s[i..] {
        var i :| 0 <= i <= |s| && t <= s[i..];
        assert i != 0;
        assert s[1..][i - 1..] == s[i..];
      }
    }
  }

  // ---------------------------------------------------------------------------
  // Decimal rendering and reading of integers
  // ---------------------------------------------------------------------------

  predicate IsDigit(c: char) {
    '0' <= c <= '9'
  }

  predicate AllDigits(s: string) {
    forall k :: 0 <= k < |s| ==> IsDigit(s[k])
  }

  function DigitChar(d: int): (c: char)
    requires 0 <= d < 10
    ensures IsDigit(c)
  {
    (d + '0' as int) as char
  }

  function DigitValue(c: char): (d: nat)
    requires IsDigit(c)
    ensures d < 10
  {
    c as int - '0' as int
  }

  /** The decimal digits of `n`, most significant first, without leading zeros. */
  function NatToString(n: nat): (s: string)
    ensures |s| > 0 && AllDigits(s)
    ensures |s| > 1 ==> s[0] != '0'
    decreases n
  {
    if n < 10 then [DigitChar(n)] else NatToString(n / 10) + [DigitChar(n % 10)]
  }

  /** How JavaScript renders an integer-valued number in a template literal. */
  function IntToString(i: int): string {
    if i < 0 then "-" + NatToString(-i) else NatToString(i)
  }

  /** The number a string of decimal digits denotes. */
  function DigitsValue(s: string): nat
    requires AllDigits(s)
  {
    if s == [] then 0 else 10 * DigitsValue(s[..|s| - 1]) + DigitValue(s[|s| - 1])
  }

  /**
   * Reads an optional minus sign followed by decimal digits (what `+x` yields
   * for such a string); anything else is `None`.
   */
  function ParseDecimal(s: string): Option<int> {
    if |s| > 1 && s[0] == '-' && AllDigits(s[1..]) then Some(-(DigitsValue(s[1..]) as int))
    else if |s| > 0 && AllDigits(s) then Some(DigitsValue(s))
    else None
  }

  lemma {:induction false} NatToStringValue(n: nat)
    ensures DigitsValue(NatToString(n)) == n
    decreases n
  {
    var s := NatToString(n);
    if n < 10 {
    } else {
      NatToStringValue(n / 10);
      assert s[..|s| - 1] == NatToString(n / 10);
    }
  }

  /** Reading back a rendered integer gives the integer. */
  lemma IntToStringRoundTrip(i: int)
    ensures ParseDecimal(IntToString(i)) == Some(i)
  {
    if i < 0 {
      ReadNegative(-i);
    } else {
      ReadNatural(i);
    }
  }

  lemma ReadNatural(n: nat)
    ensures ParseDecimal(NatToString(n)) == Some(n)
  {
    NatToStringValue(n);
  }

  lemma ReadNegative(n: nat)
    requires n > 0
    ensures ParseDecimal("-" + NatToString(n)) == Some(-(n as int))
  {
    var s := "-" + NatToString(n);
    assert s[1..] == NatToString(n);
    NatToStringValue(n);
  }

  /** A rendered integer holds digits and possibly a leading minus sign only. */
  lemma IntToStringChars(i: int)
    ensures forall k :: 0 <= k < |IntToString(i)| ==>
      IsDigit(IntToString(i)[k]) || (k == 0 && IntToString(i)[k] == '-')
  {
    if i < 0 {
      var s := IntToString(i);
      assert forall k :: 1 <= k < |s| ==> s[k] == NatToString(-i)[k - 1];
    }
  }
}
