/**
 * The string operations the validators use: Python's `str.strip()` and
 * `str.lower()`, and the whitespace class shared by `strip` and the regular
 * expression escape `\s`. Only ASCII is modelled: whitespace is what
 * `str.isspace()` accepts below code point 128, case folding maps 'A'..'Z'
 * to 'a'..'z' and leaves every other character alone.
 */
module Text {

  /** Tab, line feed, vertical tab, form feed, carriage return, the four
      information separators 0x1C..0x1F, and space. */
  predicate IsSpace(c: char) {
    9 <= c as int <= 13 || 28 <= c as int <= 32
  }

  predicate AllSpace(s: string) {
    forall i :: 0 <= i < |s| ==> IsSpace(s[i])
  }

  /** Neither the first nor the last character is whitespace. */
  predicate NoEdgeSpace(s: string) {
    s == [] || (!IsSpace(s[0]) && !IsSpace(s[|s| - 1]))
  }

  /** The first index at or after `i` that does not hold whitespace
      (`|s|` when there is none): the forward scan of `strip`. */
  function SkipSpace(s: string, i: nat): (j: nat)
    requires i <= |s|
    ensures i <= j <= |s|
    ensures forall k :: i <= k < j ==> IsSpace(s[k])
    ensures j == |s| || !IsSpace(s[j])
    decreases |s| - i
  {
    if i < |s| && IsSpace(s[i]) then SkipSpace(s, i + 1) else i
  }

  /** The end left after walking back from `j` over whitespace, never
      below `lo`: the backward scan of `strip`. */
  function BackSpace(s: string, lo: nat, j: nat): (k: nat)
    requires lo <= j <= |s|
    ensures lo <= k <= j
    ensures forall m :: k <= m < j ==> IsSpace(s[m])
    ensures k == lo || !IsSpace(s[k - 1])
    decreases j
  {
    if lo < j && IsSpace(s[j - 1]) then BackSpace(s, lo, j - 1) else j
  }

  /** `s.strip()`: the slice between the first and after the last
      non-whitespace character. */
  function Strip(s: string): (r: string)
    ensures |r| <= |s|
    ensures NoEdgeSpace(r)
  {
    var i := SkipSpace(s, 0);
    s[i..BackSpace(s, i, |s|)]
  }

  /** The forward scan stops exactly at the first non-whitespace index. */
  lemma {:induction false} SkipSpaceAt(s: string, i: nat, m: nat)
    requires i <= m <= |s|
    requires forall k :: i <= k < m ==> IsSpace(s[k])
    requires m == |s| || !IsSpace(s[m])
    ensures SkipSpace(s, i) == m
  {
  }

  /** The backward scan stops exactly after the last non-whitespace index. */
  lemma {:induction false} BackSpaceAt(s: string, lo: nat, j: nat, m: nat)
    requires lo <= m <= j <= |s|
    requires forall k :: m <= k < j ==> IsSpace(s[k])
    requires m == lo || !IsSpace(s[m - 1])
    ensures BackSpace(s, lo, j) == m
  {
  }

  /** `strip` removes exactly the whitespace padding: a string without
      whitespace at its edges, padded with whitespace on both sides, strips
      back to itself. */
  lemma {:induction false} StripUnique(a: string, r: string, b: string)
    requires AllSpace(a) && AllSpace(b) && NoEdgeSpace(r)
    ensures Strip(a + r + b) == r
  {
    var x := a + r + b;
    if r == [] {
      assert forall k :: 0 <= k < |x| ==> IsSpace(x[k]) by {
        forall k | 0 <= k < |x| ensures IsSpace(x[k]) {
          if k < |a| { assert x[k] == a[k]; } else { assert x[k] == b[k - |a|]; }
        }
      }
      SkipSpaceAt(x, 0, |x|);
      BackSpaceAt(x, |x|, |x|, |x|);
    } else {
      assert forall k :: 0 <= k < |a| ==> IsSpace(x[k]) by {
        forall k | 0 <= k < |a| ensures IsSpace(x[k]) { assert x[k] == a[k]; }
      }
      assert x[|a|] == r[0];
      SkipSpaceAt(x, 0, |a|);
      var e := |a| + |r|;
      assert forall k :: e <= k < |x| ==> IsSpace(x[k]) by {
        forall k | e <= k < |x| ensures IsSpace(x[k]) { assert x[k] == b[k - e]; }
      }
      assert x[e - 1] == r[|r| - 1];
      BackSpaceAt(x, |a|, |x|, e);
      assert x[|a|..e] == r;
    }
  }

  /** Every string is its stripped form padded by whitespace on both sides. */
  lemma {:induction false} StripDecompose(s: string) returns (a: string, b: string)
    ensures AllSpace(a) && AllSpace(b)
    ensures s == a + Strip(s) + b
  {
    var i := SkipSpace(s, 0);
    var k := BackSpace(s, i, |s|);
    a, b := s[..i], s[k..];
    assert s == s[..i] + s[i..k] + s[k..];
  }

  /** A string without whitespace at its edges is its own stripped form. */
  lemma {:induction false} StripUnpadded(s: string)
    requires NoEdgeSpace(s)
    ensures Strip(s) == s
  {
    StripUnique([], s, []);
    assert [] + s + [] == s;
  }

  /** Stripping twice is stripping once. */
  lemma {:induction false} StripIdempotent(s: string)
    ensures Strip(Strip(s)) == Strip(s)
  {
    StripUnpadded(Strip(s));
  }

  /** Surrounding whitespace does not change the stripped result. */
  lemma {:induction false} StripIgnoresPadding(a: string, s: string, b: string)
    requires AllSpace(a) && AllSpace(b)
    ensures Strip(a + s + b) == Strip(s)
  {
    var a', b' := StripDecompose(s);
    var m := Strip(s);
    assert AllSpace(a + a') && AllSpace(b' + b);
    Regroup(a, a', m, b', b);
    StripUnique(a + a', m, b' + b);
  }

  /** Re-association of a five-part concatenation. */
  lemma Regroup(a: string, a': string, m: string, b': string, b: string)
    ensures a + (a' + m + b') + b == (a + a') + m + (b' + b)
  {
  }

  /** A whitespace-only string strips to the empty string. */
  lemma {:induction false} StripAllSpace(s: string)
    requires AllSpace(s)
    ensures Strip(s) == []
  {
    StripUnique(s, [], []);
    assert s + [] + [] == s;
  }

  /** ASCII `lower()` of one character. */
  function LowerChar(c: char): (d: char)
    ensures !('A' <= d <= 'Z')
    ensures IsSpace(d) == IsSpace(c)
    ensures d == c || ('A' <= c <= 'Z' && d as int == c as int + 32)
  {
    if 'A' <= c <= 'Z' then (c as int + 32) as char else c
  }

  /** `s.lower()` restricted to ASCII letters. */
  function Lower(s: string): (r: string)
    ensures |r| == |s|
    ensures forall i :: 0 <= i < |r| ==> !('A' <= r[i] <= 'Z')
    ensures forall i :: 0 <= i < |r| ==> IsSpace(r[i]) == IsSpace(s[i])
    ensures forall i :: 0 <= i < |r| ==> r[i] == s[i] || ('A' <= s[i] <= 'Z' && r[i] as int == s[i] as int + 32)
  {
    seq(|s|, i requires 0 <= i < |s| => LowerChar(s[i]))
  }

  /** Lowercasing twice is lowercasing once. */
  lemma {:induction false} LowerIdempotent(s: string)
    ensures Lower(Lower(s)) == Lower(s)
  {
  }

  /** Lowercasing works piecewise. */
  lemma LowerConcat(a: string, b: string)
    ensures Lower(a + b) == Lower(a) + Lower(b)
  {
  }

  /** Two strings that agree after lowercasing: Django's `iexact`. */
  predicate EqualIgnoringCase(a: string, b: string) {
    Lower(a) == Lower(b)
  }

  /** Two characters are the same letter in either case, or the same character. */
  predicate SameIgnoringCase(c: char, d: char) {
    c == d
    || ('A' <= c <= 'Z' && d as int == c as int + 32)
    || ('A' <= d <= 'Z' && c as int == d as int + 32)
  }

  /** Case-insensitive equality is position-by-position equality up to
      ASCII letter case. */
  lemma {:induction false} EqualIgnoringCaseCharwise(a: string, b: string)
    ensures EqualIgnoringCase(a, b) <==>
      |a| == |b| && forall i :: 0 <= i < |a| ==> SameIgnoringCase(a[i], b[i])
  {
    if |a| == |b| {
      if forall i :: 0 <= i < |a| ==> SameIgnoringCase(a[i], b[i]) {
        forall i | 0 <= i < |a| ensures Lower(a)[i] == Lower(b)[i] {
          assert SameIgnoringCase(a[i], b[i]);
        }
      }
      if EqualIgnoringCase(a, b) {
        forall i | 0 <= i < |a| ensures SameIgnoringCase(a[i], b[i]) {
          assert Lower(a)[i] == Lower(b)[i];
        }
      }
    }
  }
}
