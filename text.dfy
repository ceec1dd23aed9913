/** The string operations of Python that app.py relies on: `in`, `str.split('.')[-1]`
    and `str(int)`. Prefix tests (`str.startswith`) are Dafny's `<=` on sequences. */
module Text {

  /** Python's `sub in s`. */
  predicate Contains(s: string, sub: string)
    decreases |s|
  {
    sub <= s || (|s| > 0 && Contains(s[1..], sub))
  }

  /** `Contains` holds exactly when `sub` occurs at some position of `s`. */
  lemma {:induction false} ContainsIff(s: string, sub: string)
    ensures Contains(s, sub) <==> exists i :: 0 <= i <= |s| && sub <= s[i..]
    decreases |s|
  {
    if sub <= s {
      assert sub <= s[0..];
    } else if |s| > 0 {
      ContainsIff(s[1..], sub);
      if Contains(s[1..], sub) {
        var i :| 0 <= i <= |s[1..]| && sub <= s[1..][i..];
        assert s[1..][i..] == s[i + 1..];
      }
      if exists i :: 0 <= i <= |s| && sub <= s[i..] {
        var i :| 0 <= i <= |s| && sub <= s[i..];
        assert i != 0;
        assert s[1..][i - 1..] == s[i..];
      }
    } else {
      assert forall i :: 0 <= i <= |s| ==> s[i..] == s;
    }
  }

  /** An occurrence survives any text put around it. */
  lemma ContainsInContext(pre: string, s: string, post: string, sub: string)
    requires Contains(s, sub)
    ensures Contains(pre + s + post, sub)
  {
    ContainsIff(s, sub);
    var i :| 0 <= i <= |s| && sub <= s[i..];
    var t := pre + s + post;
    assert t[|pre| + i..][..|sub|] == s[i..][..|sub|];
    assert sub <= t[|pre| + i..];
    ContainsIff(t, sub);
  }

  /** Python's `s.split('.')[-1]`: the text after the last dot, or all of `s`
      when it has no dot. */
  function AfterLastDot(s: string): (r: string)
    ensures |r| <= |s| && '.' !in r
    decreases |s|
  {
    if s == [] then []
    else if s[|s| - 1] == '.' then []
    else AfterLastDot(s[..|s| - 1]) + [s[|s| - 1]]
  }

  /** `AfterLastDot(s)` is a suffix of `s` that is either all of `s` or is preceded by a dot. */
  lemma {:induction false} AfterLastDotIsLastSegment(s: string)
    ensures var r := AfterLastDot(s);
      s[|s| - |r|..] == r && (|r| == |s| || s[|s| - |r| - 1] == '.')
    decreases |s|
  {
    if s != [] && s[|s| - 1] != '.' {
      var p := s[..|s| - 1];
      AfterLastDotIsLastSegment(p);
      var q := AfterLastDot(p);
      var r := q + [s[|s| - 1]];
      assert AfterLastDot(s) == r;
      assert s[|s| - |r|..] == p[|p| - |q|..] + [s[|s| - 1]];
      assert |q| < |p| ==> s[|s| - |r| - 1] == p[|p| - |q| - 1];
    }
  }

  /** A name without a dot is its own last segment. */
  lemma {:induction false} AfterLastDotNoDot(s: string)
    requires '.' !in s
    ensures AfterLastDot(s) == s
    decreases |s|
  {
    if s != [] {
      var p := s[..|s| - 1];
      assert '.' !in p by {
        forall k | 0 <= k < |p| ensures p[k] != '.' { assert p[k] == s[k]; }
      }
      AfterLastDotNoDot(p);
      assert s == p + [s[|s| - 1]];
    }
  }

  /** Whatever precedes the last dot does not matter. */
  lemma {:induction false} AfterLastDotAppend(pre: string, ext: string)
    requires '.' !in ext
    ensures AfterLastDot(pre + "." + ext) == ext
    decreases |ext|
  {
    var s := pre + "." + ext;
    if ext == [] {
      assert s[|s| - 1] == '.';
    } else {
      var e := ext[..|ext| - 1];
      assert '.' !in e by {
        forall k | 0 <= k < |e| ensures e[k] != '.' { assert e[k] == ext[k]; }
      }
      AfterLastDotAppend(pre, e);
      assert s[..|s| - 1] == pre + "." + e;
      assert s[|s| - 1] == ext[|ext| - 1];
      assert ext == e + [ext[|ext| - 1]];
    }
  }

  predicate IsDigit(c: char) { '0' <= c <= '9' }

  function DigitChar(d: nat): (c: char)
    requires d < 10
    ensures IsDigit(c)
  {
    ['0', '1', '2', '3', '4', '5', '6', '7', '8', '9'][d]
  }

  /** Python's `str(n)` for a non-negative integer. */
  function NatToString(n: nat): (s: string)
    ensures |s| > 0 && forall k :: 0 <= k < |s| ==> IsDigit(s[k])
    decreases n
  {
    if n < 10 then [DigitChar(n)] else NatToString(n / 10) + [DigitChar(n % 10)]
  }

  /** The value of a string of decimal digits (Python's `int(s)` on such a string). */
  function DigitsValue(s: string): nat
    requires forall k :: 0 <= k < |s| ==> IsDigit(s[k])
    decreases |s|
  {
    if s == [] then 0
    else 10 * DigitsValue(s[..|s| - 1]) + DigitValue(s[|s| - 1])
  }

  function DigitValue(c: char): (d: nat)
    requires IsDigit(c)
    ensures d < 10
  {
    (c as int) - ('0' as int)
  }

  lemma DigitCharValue(d: nat)
    requires d < 10
    ensures DigitValue(DigitChar(d)) == d
  {
  }

  /** Rendering a number and reading it back gives the number. */
  lemma {:induction false} NatToStringRoundTrip(n: nat)
    ensures DigitsValue(NatToString(n)) == n
    decreases n
  {
    var s := NatToString(n);
    if n < 10 {
      DigitCharValue(n);
    } else {
      NatToStringRoundTrip(n / 10);
      DigitCharValue(n % 10);
      assert s[..|s| - 1] == NatToString(n / 10);
    }
  }
}
