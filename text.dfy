/**
 * String operations the three analyzers use: the prefix and substring tests their
 * regular expressions reduce to, ASCII case mapping, Python's str.strip, and the
 * decimal reading that pandas' to_numeric and Python's float() apply to a cell.
 */
module Text {
  import opened Wrappers

  predicate IsPrefix(p: string, s: string) {
    |p| <= |s| && s[..|p|] == p
  }

  /** `w` occurs somewhere in `s` (a regular-expression search for a literal). */
  predicate Contains(s: string, w: string)
    decreases |s|
  {
    IsPrefix(w, s) || (|s| > 0 && Contains(s[1..], w))
  }

  lemma {:induction false} ContainsAt(s: string, w: string, i: nat)
    requires i + |w| <= |s| && s[i..i + |w|] == w
    ensures Contains(s, w)
    decreases i
  {
    if i == 0 {
      assert s[..|w|] == w;
    } else {
      assert s[1..][i - 1..i - 1 + |w|] == s[i..i + |w|];
      ContainsAt(s[1..], w, i - 1);
    }
  }

  lemma {:induction false} ContainsWitness(s: string, w: string) returns (i: nat)
    requires Contains(s, w)
    ensures i + |w| <= |s| && s[i..i + |w|] == w
    decreases |s|
  {
    if IsPrefix(w, s) {
      i := 0;
    } else {
      var j := ContainsWitness(s[1..], w);
      assert s[1..][j..j + |w|] == s[j + 1..j + 1 + |w|];
      i := j + 1;
    }
  }

  /** A text holding `w` holds every character of `w`. */
  lemma ContainsHasChar(s: string, w: string, c: char)
    ensures Contains(s, w) && c in w ==> c in s
  {
    if Contains(s, w) && c in w {
      var i := ContainsWitness(s, w);
      var k :| 0 <= k < |w| && w[k] == c;
      assert s[i + k] == s[i..i + |w|][k];
    }
  }

  // ----- ASCII case mapping --------------------------------------------------

  function LowerChar(c: char): char {
    if 'A' <= c <= 'Z' then (c as int + 32) as char else c
  }

  function UpperChar(c: char): char {
    if 'a' <= c <= 'z' then (c as int - 32) as char else c
  }

  /** str.lower() restricted to ASCII letters. */
  function Lower(s: string): (r: string)
    ensures |r| == |s|
  {
    seq(|s|, k requires 0 <= k < |s| => LowerChar(s[k]))
  }

  /** str.upper() restricted to ASCII letters. */
  function Upper(s: string): (r: string)
    ensures |r| == |s|
  {
    seq(|s|, k requires 0 <= k < |s| => UpperChar(s[k]))
  }

  /** Upper-casing `s` gives `w` exactly when `s` equals `w` up to the case of ASCII letters. */
  lemma UpperEqualsIff(s: string, w: string)
    requires forall k :: 0 <= k < |w| ==> 'A' <= w[k] <= 'Z'
    ensures Upper(s) == w <==> |s| == |w| && forall k :: 0 <= k < |s| ==> UpperChar(s[k]) == w[k]
  {
    if |s| == |w| && forall k :: 0 <= k < |s| ==> UpperChar(s[k]) == w[k] {
      assert forall k :: 0 <= k < |s| ==> Upper(s)[k] == w[k];
    }
  }

  /** Lower-casing forgets an earlier upper-casing. */
  lemma LowerOfUpper(s: string)
    ensures Lower(Upper(s)) == Lower(s)
  {
    assert forall k :: 0 <= k < |s| ==> LowerChar(UpperChar(s[k])) == LowerChar(s[k]);
  }

  // ----- Python's str.strip ---------------------------------------------------

  /** The characters Python's str.isspace accepts: str.strip() removes these. */
  predicate IsSpace(c: char) {
    var n := c as int;
    (9 <= n <= 13) || (28 <= n <= 32) || n == 0x85 || n == 0xA0 || n == 0x1680 ||
    (0x2000 <= n <= 0x200A) || n == 0x2028 || n == 0x2029 || n == 0x202F || n == 0x205F ||
    n == 0x3000
  }

  predicate IsQuote(c: char) {
    c == '"'
  }

  /** The first position from `i` on whose character `p` rejects, or |s|. */
  function FirstKept(s: string, p: char -> bool, i: nat): (j: nat)
    requires i <= |s|
    ensures i <= j <= |s|
    ensures forall k :: i <= k < j ==> p(s[k])
    ensures j < |s| ==> !p(s[j])
    decreases |s| - i
  {
    if i == |s| || !p(s[i]) then i else FirstKept(s, p, i + 1)
  }

  /** The end of what stays when trailing characters that `p` accepts are dropped from s[lo..j]. */
  function LastKept(s: string, p: char -> bool, lo: nat, j: nat): (e: nat)
    requires lo <= j <= |s|
    ensures lo <= e <= j
    ensures forall k :: e <= k < j ==> p(s[k])
    ensures e > lo ==> !p(s[e - 1])
  {
    if j == lo || !p(s[j - 1]) then j else LastKept(s, p, lo, j - 1)
  }

  /**
   * Python's s.strip(chars): removes every leading and trailing character that `p`
   * accepts. What is left is a slice of `s` with only accepted characters cut off on either
   * side; it starts and ends with a kept character, every character the result has comes
   * from `s`, and every character of `s` that `p` rejects survives.
   */
  function Trim(s: string, p: char -> bool): (r: string)
    ensures |r| <= |s|
    ensures exists a, e :: 0 <= a <= e <= |s| && r == s[a..e] && forall k :: 0 <= k < a || e <= k < |s| ==> p(s[k])
    ensures r == [] || (!p(r[0]) && !p(r[|r| - 1]))
    ensures forall c :: c in r ==> c in s
    ensures forall k :: 0 <= k < |s| && !p(s[k]) ==> s[k] in r
    ensures (forall k :: 0 <= k < |s| ==> !p(s[k])) ==> r == s
  {
    TrimSlice(s, p);
    TrimEnds(s, p);
    TrimFrom(s, p);
    TrimKeeps(s, p);
    TrimNothing(s, p);
    TrimCore(s, p)
  }

  /** The slice between the first and the last character `p` rejects. */
  function TrimCore(s: string, p: char -> bool): string {
    var a := FirstKept(s, p, 0);
    s[a..LastKept(s, p, a, |s|)]
  }

  lemma TrimSlice(s: string, p: char -> bool)
    ensures exists a, e ::
      0 <= a <= e <= |s| && TrimCore(s, p) == s[a..e] && forall k :: 0 <= k < a || e <= k < |s| ==> p(s[k])
  {
    var a := FirstKept(s, p, 0);
    var e := LastKept(s, p, a, |s|);
    assert TrimCore(s, p) == s[a..e];
  }

  lemma TrimEnds(s: string, p: char -> bool)
    ensures var r := TrimCore(s, p); r == [] || (!p(r[0]) && !p(r[|r| - 1]))
  {
    var a := FirstKept(s, p, 0);
    var e := LastKept(s, p, a, |s|);
    if a < e {
      assert TrimCore(s, p)[0] == s[a] && TrimCore(s, p)[e - a - 1] == s[e - 1];
    }
  }

  lemma TrimFrom(s: string, p: char -> bool)
    ensures forall c :: c in TrimCore(s, p) ==> c in s
  {
    var a := FirstKept(s, p, 0);
    var e := LastKept(s, p, a, |s|);
    forall c | c in TrimCore(s, p) ensures c in s {
      var i :| 0 <= i < e - a && TrimCore(s, p)[i] == c;
      assert s[a + i] == c;
    }
  }

  lemma TrimKeeps(s: string, p: char -> bool)
    ensures forall k :: 0 <= k < |s| && !p(s[k]) ==> s[k] in TrimCore(s, p)
  {
    var a := FirstKept(s, p, 0);
    var e := LastKept(s, p, a, |s|);
    forall k | 0 <= k < |s| && !p(s[k]) ensures s[k] in TrimCore(s, p) {
      assert a <= k < e;
      assert TrimCore(s, p)[k - a] == s[k];
    }
  }

  lemma TrimNothing(s: string, p: char -> bool)
    ensures (forall k :: 0 <= k < |s| ==> !p(s[k])) ==> TrimCore(s, p) == s
  {
    if forall k :: 0 <= k < |s| ==> !p(s[k]) {
      var a := FirstKept(s, p, 0);
      assert a == 0;
      var e := LastKept(s, p, a, |s|);
      assert e == |s|;
      assert s[0..|s|] == s;
    }
  }

  /** s.strip(): removes leading and trailing whitespace. */
  function Strip(s: string): string {
    Trim(s, IsSpace)
  }

  /** s.strip('"'): removes leading and trailing double quotes. */
  function StripQuotes(s: string): string {
    Trim(s, IsQuote)
  }

  // ----- decimal numbers ------------------------------------------------------

  predicate IsDigit(c: char) {
    '0' <= c <= '9'
  }

  predicate AllDigits(s: string) {
    forall k :: 0 <= k < |s| ==> IsDigit(s[k])
  }

  function DigitChar(d: nat): (c: char)
    requires d < 10
    ensures IsDigit(c) && c as int - '0' as int == d
  {
    ('0' as int + d) as char
  }

  /** The value of a string of decimal digits, most significant first. */
  function DigitsValue(s: string): nat
    requires AllDigits(s)
  {
    if s == [] then 0 else 10 * DigitsValue(s[..|s| - 1]) + (s[|s| - 1] as int - '0' as int)
  }

  /** Python's str(n) for a natural number: its shortest decimal rendering. */
  function NatText(n: nat): (r: string)
    ensures |r| >= 1 && AllDigits(r)
  {
    if n < 10 then [DigitChar(n)] else NatText(n / 10) + [DigitChar(n % 10)]
  }

  lemma {:induction false} DigitsValueOfNatText(n: nat)
    ensures DigitsValue(NatText(n)) == n
  {
    if n >= 10 {
      var r := NatText(n);
      assert r[..|r| - 1] == NatText(n / 10);
      DigitsValueOfNatText(n / 10);
    }
  }

  /** The value of the digits after a decimal point: "25" is 0.25. */
  function FractionValue(s: string): (r: real)
    requires AllDigits(s)
    ensures 0.0 <= r < 1.0
  {
    if s == [] then 0.0 else ((s[0] as int - '0' as int) as real + FractionValue(s[1..])) / 10.0
  }

  /** Index of the first occurrence of `c` in `s`, or |s| when there is none. */
  function Find(s: string, c: char): (k: nat)
    ensures k <= |s|
    ensures forall j :: 0 <= j < k ==> s[j] != c
    ensures k < |s| ==> s[k] == c
  {
    if s == [] then 0 else if s[0] == c then 0 else 1 + Find(s[1..], c)
  }

  /** Digits with an optional decimal point and at least one digit: "12", "1.5", ".5", "3.". */
  function ParseUnsigned(s: string): (r: Option<real>)
    ensures r.Some? ==> r.value >= 0.0
  {
    var k := Find(s, '.');
    var whole := s[..k];
    var frac := if k < |s| then s[k + 1..] else [];
    if AllDigits(whole) && AllDigits(frac) && |whole| + |frac| > 0 then
      Some(DigitsValue(whole) as real + FractionValue(frac))
    else
      None
  }

  /**
   * The value pandas' to_numeric or Python's float() reads from a cell's text: an
   * optional sign followed by an unsigned decimal; None when the text is not a number.
   */
  function ParseNumber(s: string): (r: Option<real>)
    ensures s == [] ==> r.None?
  {
    if |s| > 0 && (s[0] == '-' || s[0] == '+') then
      match ParseUnsigned(s[1..])
      case None => None
      case Some(v) => Some(if s[0] == '-' then -v else v)
    else
      ParseUnsigned(s)
  }

  /** Reading back the rendering of a natural number gives that number. */
  lemma ParseNatText(n: nat)
    ensures ParseNumber(NatText(n)) == Some(n as real)
  {
    var s := NatText(n);
    assert Find(s, '.') == |s| by {
      assert forall j :: 0 <= j < |s| ==> s[j] != '.';
    }
    assert s[..|s|] == s;
    DigitsValueOfNatText(n);
    assert s[0] != '-' && s[0] != '+';
  }

  /** A minus sign before a rendered natural number negates it. */
  lemma ParseNegatedNatText(n: nat)
    ensures ParseNumber("-" + NatText(n)) == Some(-(n as real))
  {
    var s := "-" + NatText(n);
    assert s[1..] == NatText(n);
    ParseNatText(n);
  }
}
