/**
 * Decimal text as produced by `%d` in sprintf and read back by `%d` in
 * sscanf, which tnm/generic/tnmDns.c uses for messages, MX priorities and
 * the dotted address of a reverse lookup.
 */
module Decimal {

  import opened Wire

  predicate IsDigit(c: char) {
    '0' <= c <= '9'
  }

  function DigitChar(d: nat): (c: char)
    requires d < 10
    ensures IsDigit(c)
  {
    (48 + d) as char
  }

  function DigitValue(c: char): (d: nat)
    requires IsDigit(c)
    ensures d < 10
  {
    c as int - 48
  }

  /** `%d` of a non-negative value. */
  function NatText(n: nat): (s: string)
    ensures |s| >= 1
  {
    if n < 10 then [DigitChar(n)] else NatText(n / 10) + [DigitChar(n % 10)]
  }

  /** `%d` of any int. */
  function IntText(i: int): (s: string)
    ensures |s| >= 1
  {
    if i < 0 then "-" + NatText(-i) else NatText(i)
  }

  predicate AllDigits(s: string) {
    forall i :: 0 <= i < |s| ==> IsDigit(s[i])
  }

  lemma {:induction false} NatTextDigits(n: nat)
    ensures AllDigits(NatText(n))
  {
    if n >= 10 {
      NatTextDigits(n / 10);
    }
  }

  /** The value of a string of digits read left to right. */
  function DigitsValue(s: string): nat
    requires AllDigits(s)
  {
    if s == [] then 0 else DigitsValue(s[..|s| - 1]) * 10 + DigitValue(s[|s| - 1])
  }

  lemma {:induction false} NatTextValue(n: nat)
    ensures AllDigits(NatText(n)) && DigitsValue(NatText(n)) == n
  {
    NatTextDigits(n);
    if n >= 10 {
      var s := NatText(n);
      assert s[..|s| - 1] == NatText(n / 10);
      NatTextDigits(n / 10);
      NatTextValue(n / 10);
    }
  }

  /** The white space that `%d` skips (isspace in the C locale). */
  predicate IsSpace(c: char) {
    c == ' ' || c == '\t' || c == '\n' || c == '\U{B}' || c == '\U{C}' || c == '\r'
  }

  /** The end of the run of characters from `i` on that satisfy IsDigit. */
  function DigitRunEnd(s: string, i: nat): (j: nat)
    requires i <= |s|
    ensures i <= j <= |s|
    ensures forall k :: i <= k < j ==> IsDigit(s[k])
    ensures j < |s| ==> !IsDigit(s[j])
    decreases |s| - i
  {
    if i < |s| && IsDigit(s[i]) then DigitRunEnd(s, i + 1) else i
  }

  function SkipSpace(s: string, i: nat): (j: nat)
    requires i <= |s|
    ensures i <= j <= |s|
    ensures j < |s| ==> !IsSpace(s[j])
    decreases |s| - i
  {
    if i < |s| && IsSpace(s[i]) then SkipSpace(s, i + 1) else i
  }

  /**
   * One `%d` conversion of sscanf starting at index `i`: optional white
   * space, an optional sign and at least one digit. Gives the value and
   * the index just after the digits, or None when no digit follows.
   */
  function ScanInt(s: string, i: nat): (r: Option<(int, nat)>)
    requires i <= |s|
    ensures r.Some? ==> i < r.value.1 <= |s|
  {
    var j := SkipSpace(s, i);
    var neg := j < |s| && s[j] == '-';
    var k := if j < |s| && (s[j] == '-' || s[j] == '+') then j + 1 else j;
    var e := DigitRunEnd(s, k);
    if e == k then None
    else
      assert AllDigits(s[k..e]) by {
        forall i | 0 <= i < e - k ensures IsDigit(s[k..e][i]) { assert s[k..e][i] == s[k + i]; }
      }
      var v: int := DigitsValue(s[k..e]);
      Some((if neg then -v else v, e))
  }

  /** One `%d` conversion at `i` followed by a literal '.': the value and the index after the dot. */
  function ScanIntDot(s: string, i: nat): (r: Option<(int, nat)>)
    requires i <= |s|
    ensures r.Some? ==> i < r.value.1 <= |s|
  {
    match ScanInt(s, i)
    case None => None
    case Some((v, j)) => if j < |s| && s[j] == '.' then Some((v, j + 1)) else None
  }

  /** sscanf(s, "%d.%d.%d.%d", ...) == 4: the four integers, if all four convert. */
  function ScanDotted(s: string): (r: Option<(int, int, int, int)>)
  {
    var ra := ScanIntDot(s, 0);
    if ra.None? then None else
    var rb := ScanIntDot(s, ra.value.1);
    if rb.None? then None else
    var rc := ScanIntDot(s, rb.value.1);
    if rc.None? then None else
    var rd := ScanInt(s, rc.value.1);
    if rd.None? then None else
    Some((ra.value.0, rb.value.0, rc.value.0, rd.value.0))
  }

  /** sprintf(s, "%d.%d.%d.%d", a, b, c, d). */
  function Dotted(a: int, b: int, c: int, d: int): string {
    IntText(a) + "." + IntText(b) + "." + IntText(c) + "." + IntText(d)
  }

  /** The characters of `t` stand in `s` from index `i` on. */
  predicate TextAt(s: string, i: nat, t: string) {
    i + |t| <= |s| && forall j :: 0 <= j < |t| ==> s[i + j] == t[j]
  }

  /** The digits `%d` wrote for `m`, read as a run of digits, give `m` back. */
  lemma DigitsAt(m: nat, s: string, k: nat)
    requires TextAt(s, k, NatText(m))
    requires k + |NatText(m)| == |s| || !IsDigit(s[k + |NatText(m)|])
    ensures DigitRunEnd(s, k) == k + |NatText(m)|
    ensures AllDigits(s[k..k + |NatText(m)|]) && DigitsValue(s[k..k + |NatText(m)|]) == m
  {
    var t := NatText(m);
    NatTextValue(m);
    forall j | k <= j < k + |t| ensures IsDigit(s[j]) {
      assert s[k + (j - k)] == t[j - k];
    }
    DigitRunAll(s, k, k + |t|);
    assert s[k..k + |t|] == t by {
      forall j | 0 <= j < |t| ensures s[k..k + |t|][j] == t[j] {
        assert s[k + j] == t[j];
      }
    }
  }

  /** Reading back what `%d` wrote at index `i`, when the text is followed by a non-digit or ends. */
  lemma ScanIntText(x: int, s: string, i: nat)
    requires TextAt(s, i, IntText(x))
    requires i + |IntText(x)| == |s| || !IsDigit(s[i + |IntText(x)|])
    ensures ScanInt(s, i) == Some((x, i + |IntText(x)|))
  {
    if x < 0 {
      var t := NatText(-x);
      TextAtParts(s, i, "-", t);
      assert s[i + 0] == "-"[0];
      FirstDigit(-x);
      DigitsAt(-x, s, i + 1);
      ScanSigned(s, i, true, i + 1, i + 1 + |t|, -x);
    } else {
      var t := NatText(x);
      FirstDigit(x);
      assert s[i + 0] == t[0];
      DigitsAt(x, s, i);
      ScanSigned(s, i, false, i, i + |t|, x);
    }
  }

  /** Two texts one after the other stand where their concatenation does. */
  lemma TextAtParts(s: string, i: nat, p: string, t: string)
    requires TextAt(s, i, p + t)
    ensures TextAt(s, i, p) && TextAt(s, i + |p|, t)
  {
    forall j | 0 <= j < |t| ensures s[i + |p| + j] == t[j] {
      assert s[i + (|p| + j)] == (p + t)[|p| + j];
    }
    forall j | 0 <= j < |p| ensures s[i + j] == p[j] {
      assert s[i + j] == (p + t)[j];
    }
  }

  lemma FirstDigit(m: nat)
    ensures IsDigit(NatText(m)[0])
  {
    NatTextDigits(m);
  }

  /** One `%d` conversion once its sign and its digits are known. */
  lemma ScanSigned(s: string, i: nat, neg: bool, k: nat, e: nat, m: nat)
    requires i < |s| && k < e <= |s|
    requires neg ==> s[i] == '-' && k == i + 1
    requires !neg ==> IsDigit(s[i]) && k == i
    requires DigitRunEnd(s, k) == e && AllDigits(s[k..e]) && DigitsValue(s[k..e]) == m
    ensures ScanInt(s, i) == Some((if neg then -(m as int) else m as int, e))
  {
    assert SkipSpace(s, i) == i;
  }

  lemma {:induction false} DigitRunAll(s: string, i: nat, j: nat)
    requires i <= j <= |s|
    requires forall k :: i <= k < j ==> IsDigit(s[k])
    requires j == |s| || !IsDigit(s[j])
    ensures DigitRunEnd(s, i) == j
    decreases j - i
  {
    if i < j {
      DigitRunAll(s, i + 1, j);
    }
  }

  /** A `%d.` conversion reads back the text `t` that sprintf wrote for `x` before a dot. */
  lemma ScanIntDotText(x: int, t: string, s: string, i: nat, e: nat)
    requires t == IntText(x) && TextAt(s, i, t) && i + |t| < |s| && s[i + |t|] == '.'
    requires e == i + |t| + 1
    ensures ScanIntDot(s, i) == Some((x, e))
  {
    ScanIntText(x, s, i);
  }

  /** A final `%d` conversion reads back the text `t` that sprintf wrote for `x` at the end. */
  lemma ScanIntEndText(x: int, t: string, s: string, i: nat)
    requires t == IntText(x) && TextAt(s, i, t) && i + |t| == |s|
    ensures ScanInt(s, i) == Some((x, |s|))
  {
    ScanIntText(x, s, i);
  }

  /** Four texts joined by dots stand in `s`, and nothing else does. */
  predicate JoinedAt(s: string, ta: string, tb: string, tc: string, td: string) {
    TextAt(s, 0, ta) && |ta| < |s| && s[|ta|] == '.'
    && TextAt(s, |ta| + 1, tb) && |ta| + 1 + |tb| < |s| && s[|ta| + 1 + |tb|] == '.'
    && TextAt(s, |ta| + |tb| + 2, tc) && |ta| + |tb| + 2 + |tc| < |s| && s[|ta| + |tb| + 2 + |tc|] == '.'
    && TextAt(s, |ta| + |tb| + |tc| + 3, td) && |s| == |ta| + |tb| + |tc| + |td| + 3
  }

  lemma Joined(ta: string, tb: string, tc: string, td: string)
    ensures JoinedAt(ta + "." + tb + "." + tc + "." + td, ta, tb, tc, td)
  {
  }

  /** Reading a dotted quad back gives the four integers that formed it. */
  lemma ScanDottedText(a: int, b: int, c: int, d: int)
    ensures ScanDotted(Dotted(a, b, c, d)) == Some((a, b, c, d))
  {
    Joined(IntText(a), IntText(b), IntText(c), IntText(d));
    ScanQuad(Dotted(a, b, c, d), a, b, c, d, IntText(a), IntText(b), IntText(c), IntText(d));
  }

  lemma ScanQuad(s: string, a: int, b: int, c: int, d: int, ta: string, tb: string, tc: string, td: string)
    requires ta == IntText(a) && tb == IntText(b) && tc == IntText(c) && td == IntText(d)
    requires JoinedAt(s, ta, tb, tc, td)
    ensures ScanDotted(s) == Some((a, b, c, d))
  {
    var i, j, k := |ta| + 1, |ta| + |tb| + 2, |ta| + |tb| + |tc| + 3;
    ScanIntDotText(a, ta, s, 0, i);
    ScanIntDotText(b, tb, s, i, j);
    ScanIntDotText(c, tc, s, j, k);
    ScanIntEndText(d, td, s, k);
    ScanDottedSteps(s, a, b, c, d, i, j, k);
  }

  lemma ScanDottedSteps(s: string, a: int, b: int, c: int, d: int, i: nat, j: nat, k: nat)
    requires i <= |s| && j <= |s| && k <= |s|
    requires ScanIntDot(s, 0) == Some((a, i)) && ScanIntDot(s, i) == Some((b, j))
    requires ScanIntDot(s, j) == Some((c, k)) && ScanInt(s, k) == Some((d, |s|))
    ensures ScanDotted(s) == Some((a, b, c, d))
  {
  }
}
