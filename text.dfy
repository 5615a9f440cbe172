/**
 * String helpers the sign-out code relies on: JavaScript's `trim`, the `\s`
 * character class, `parseInt` on digit strings and the decimal rendering of
 * a non-negative integer (template literals, `toString`, `padStart(2, '0')`).
 */
module Text {

  /** The characters `String.prototype.trim` and the regular-expression `\s` treat as white space. */
  predicate IsSpace(c: char)
  {
    c == ' ' || c == '\t' || c == '\n' || c == '\r' || c == '\U{000B}' || c == '\U{000C}'
    || c == '\U{00A0}' || c == '\U{1680}' || ('\U{2000}' <= c <= '\U{200A}')
    || c == '\U{2028}' || c == '\U{2029}' || c == '\U{202F}' || c == '\U{205F}'
    || c == '\U{3000}' || c == '\U{FEFF}'
  }

  /** `!s || s.trim() === ""`: the empty string or white space only. */
  predicate Blank(s: string)
  {
    forall i :: 0 <= i < |s| ==> IsSpace(s[i])
  }

  function TrimStart(s: string): (r: string)
    ensures |r| <= |s| && r == s[|s| - |r|..]
    ensures r == [] || !IsSpace(r[0])
    ensures Blank(s[..|s| - |r|])
  {
    if |s| > 0 && IsSpace(s[0]) then
      var r := TrimStart(s[1..]);
      assert r == s[|s| - |r|..] && Blank(s[..|s| - |r|]) by {
        assert s[1..][|s| - 1 - |r|..] == s[|s| - |r|..];
        BlankAfterSpace(s, |s| - |r|);
      }
      r
    else s
  }

  lemma BlankAfterSpace(s: string, n: nat)
    requires 0 < n <= |s| && IsSpace(s[0]) && Blank(s[1..][..n - 1])
    ensures Blank(s[..n])
  {
    forall i | 0 <= i < n ensures IsSpace(s[..n][i]) {
      if i > 0 {
        assert s[..n][i] == s[1..][..n - 1][i - 1];
      }
    }
  }

  function TrimEnd(s: string): (r: string)
    ensures |r| <= |s| && r == s[..|r|]
    ensures r == [] || !IsSpace(r[|r| - 1])
    ensures Blank(s[|r|..])
  {
    if |s| > 0 && IsSpace(s[|s| - 1]) then
      var r := TrimEnd(s[..|s| - 1]);
      assert s[|r|..] == s[..|s| - 1][|r|..] + [s[|s| - 1]];
      r
    else s
  }

  /** `s.trim()`: `s` without its leading and trailing white space. */
  function Trim(s: string): (r: string)
    ensures r == [] || (!IsSpace(r[0]) && !IsSpace(r[|r| - 1]))
    ensures r == [] <==> Blank(s)
    ensures |r| <= |s|
    ensures CutFromBlanks(s, r)
  {
    var a := TrimStart(s);
    var r := TrimEnd(a);
    TrimFacts(s, |s| - |a|, a, r);
    r
  }

  /** `r` is a slice of `s` with only white space before and after it. */
  predicate CutFromBlanks(s: string, r: string)
  {
    exists k :: 0 <= k <= |s| - |r| && r == s[k..k + |r|] && Blank(s[..k]) && Blank(s[k + |r|..])
  }

  /** A slice starting at `at` with only white space around it is cut from blanks. */
  lemma TrimSlice(s: string, at: nat, r: string)
    requires at + |r| <= |s| && r == s[at..at + |r|] && Blank(s[..at]) && Blank(s[at + |r|..])
    ensures CutFromBlanks(s, r)
  {
  }

  /**
   * Cutting leading blanks (leaving `a`) and then trailing blanks (leaving
   * `r`) leaves a slice of `s` with only blanks around it, itself unpadded,
   * and empty exactly when `s` is blank.
   */
  lemma TrimFacts(s: string, k: nat, a: string, r: string)
    requires k <= |s| && a == s[k..] && Blank(s[..k]) && (a == [] || !IsSpace(a[0]))
    requires |r| <= |a| && r == a[..|r|] && Blank(a[|r|..]) && (r == [] || !IsSpace(r[|r| - 1]))
    ensures r == [] || (!IsSpace(r[0]) && !IsSpace(r[|r| - 1]))
    ensures r == [] <==> Blank(s)
    ensures |r| <= |s|
    ensures CutFromBlanks(s, r)
  {
    assert s[k + |r|..] == a[|r|..];
    TrimSlice(s, k, r);
    if r != [] {
      assert r[0] == a[0];
      assert !Blank(s) by {
        assert s[k] == r[0];
      }
    } else {
      assert a == a[|r|..];
      BlankJoin(s[..k], a);
      assert s == s[..k] + a;
    }
  }

  /** Two blank strings joined are blank. */
  lemma BlankJoin(x: string, y: string)
    requires Blank(x) && Blank(y)
    ensures Blank(x + y)
  {
    forall i | 0 <= i < |x + y| ensures IsSpace((x + y)[i]) {
      if i >= |x| {
        assert (x + y)[i] == y[i - |x|];
      }
    }
  }

  /** Trimming leaves a string alone when it neither starts nor ends with white space. */
  lemma TrimUnpadded(s: string)
    requires s != [] && !IsSpace(s[0]) && !IsSpace(s[|s| - 1])
    ensures Trim(s) == s
  {
  }

  predicate IsDigit(c: char) { '0' <= c <= '9' }

  predicate AllDigits(s: string)
  {
    forall i :: 0 <= i < |s| ==> IsDigit(s[i])
  }

  function DigitChar(d: nat): (c: char)
    requires d < 10
    ensures IsDigit(c)
  {
    ('0' as int + d) as char
  }

  /** `parseInt(s, 10)` for a string of decimal digits. */
  function DigitsValue(s: string): (n: nat)
    requires AllDigits(s)
  {
    if s == [] then 0
    else DigitsValue(s[..|s| - 1]) * 10 + (s[|s| - 1] as int - '0' as int)
  }

  /** The decimal rendering of `n`, as `n.toString()` gives it. */
  function NatToString(n: nat): (s: string)
    ensures AllDigits(s) && 1 <= |s|
    ensures |s| == 1 <==> n < 10
    ensures |s| == 2 <==> 10 <= n < 100
  {
    if n < 10 then [DigitChar(n)] else NatToString(n / 10) + [DigitChar(n % 10)]
  }

  /** `n.toString().padStart(2, '0')`. */
  function PadTwo(n: nat): (s: string)
    requires n < 100
    ensures |s| == 2 && AllDigits(s)
  {
    if n < 10 then ['0'] + NatToString(n) else NatToString(n)
  }

  /** `parseInt` undoes `toString` on every non-negative integer. */
  lemma {:induction false} DigitsValueOfNatToString(n: nat)
    ensures DigitsValue(NatToString(n)) == n
  {
    if n >= 10 {
      var s := NatToString(n);
      DigitsValueOfNatToString(n / 10);
      assert s[..|s| - 1] == NatToString(n / 10);
    }
  }

  /** `parseInt` undoes `padStart(2, '0')`. */
  lemma PadTwoValue(n: nat)
    requires n < 100
    ensures DigitsValue(PadTwo(n)) == n
  {
    DigitsValueOfNatToString(n);
    if n < 10 {
      assert PadTwo(n)[..1] == ['0'];
    }
  }
}
