/** String primitives the bridge relies on: JavaScript's `indexOf`, the
    upper-casing of typed characters, and the decimal rendering of a number. */
module Text {

  /** `w` occurs in `s` starting at index `j`. */
  predicate OccursAt(s: string, w: string, j: int)
  {
    0 <= j && j + |w| <= |s| && s[j..j + |w|] == w
  }

  /** `w` occurs somewhere in `s`. */
  ghost predicate Contains(s: string, w: string)
  {
    exists j :: OccursAt(s, w, j)
  }

  /** The first occurrence of `w` in `s` at or after `i`, or -1. */
  function IndexFrom(s: string, w: string, i: nat): (r: int)
    decreases |s| - i
    ensures r == -1 || (i <= r && OccursAt(s, w, r))
    ensures r == -1 ==> forall j :: i <= j ==> !OccursAt(s, w, j)
    ensures r >= 0 ==> forall j :: i <= j < r ==> !OccursAt(s, w, j)
  {
    if i + |w| > |s| then -1
    else if s[i..i + |w|] == w then i
    else IndexFrom(s, w, i + 1)
  }

  /** JavaScript's `s.indexOf(w)`: the first index at which `w` occurs, or -1
      when it does not occur at all. */
  function IndexOf(s: string, w: string): (r: int)
    ensures r == -1 <==> !Contains(s, w)
    ensures r >= 0 ==> OccursAt(s, w, r)
    ensures r >= 0 ==> forall j :: 0 <= j < r ==> !OccursAt(s, w, j)
  {
    IndexFrom(s, w, 0)
  }

  /** A string holds no character `c` exactly when no one-character slice of it is `[c]`. */
  lemma {:induction false} NoOccurrenceOfChar(s: string, c: char, k: int)
    requires 0 <= k <= |s|
    requires forall j :: 0 <= j < k ==> !OccursAt(s, [c], j)
    ensures c !in s[..k]
  {
    if c in s[..k] {
      var j :| 0 <= j < k && s[..k][j] == c;
      assert s[j..j + 1] == [c];
      assert OccursAt(s, [c], j);
    }
  }

  /** A word that occurs in a slice of `s` occurs in `s`. */
  lemma ContainsInSlice(s: string, w: string, a: int, b: int)
    requires 0 <= a <= b <= |s|
    requires Contains(s[a..b], w)
    ensures Contains(s, w)
  {
    var j :| OccursAt(s[a..b], w, j);
    forall i | 0 <= i < |w|
      ensures s[a + j + i] == w[i]
    {
      assert w[i] == s[a..b][j..j + |w|][i];
    }
    assert s[a + j..a + j + |w|] == w;
    assert OccursAt(s, w, a + j);
  }

  /** An occurrence of `w` that lies within `s[a..b]` is an occurrence in that slice. */
  lemma ContainsSlice(s: string, w: string, j: int, a: int, b: int)
    requires OccursAt(s, w, j)
    requires 0 <= a <= j && j + |w| <= b <= |s|
    ensures Contains(s[a..b], w)
  {
    forall i | 0 <= i < |w|
      ensures s[a..b][j - a + i] == w[i]
    {
      assert w[i] == s[j..j + |w|][i];
    }
    assert s[a..b][j - a..j - a + |w|] == w;
    assert OccursAt(s[a..b], w, j - a);
  }

  /** An occurrence of `w` does not cover an index holding a character that `w` lacks. */
  lemma OccurrenceAvoids(s: string, w: string, j: int, i: int)
    requires OccursAt(s, w, j)
    requires 0 <= i < |s| && s[i] !in w
    ensures i < j || j + |w| <= i
  {
  }

  /** `w` occurs in `s` at a place that ends after index `n`: an occurrence
      that is not wholly inside `s[..n]`. */
  ghost predicate EndsAfter(s: string, w: string, n: int)
  {
    exists j :: OccursAt(s, w, j) && n < j + |w|
  }

  /** An occurrence that lies within `s[a..b]` is the same occurrence in that
      slice, shifted by `a`, and conversely. */
  lemma OccursInSlice(s: string, w: string, j: int, a: int, b: int)
    requires 0 <= a <= j && j + |w| <= b <= |s|
    ensures OccursAt(s, w, j) <==> OccursAt(s[a..b], w, j - a)
  {
    if OccursAt(s, w, j) {
      forall i | 0 <= i < |w|
        ensures s[a..b][j - a + i] == w[i]
      {
        assert w[i] == s[j..j + |w|][i];
      }
      assert s[a..b][j - a..j - a + |w|] == w;
    }
    if OccursAt(s[a..b], w, j - a) {
      forall i | 0 <= i < |w|
        ensures s[j + i] == w[i]
      {
        assert w[i] == s[a..b][j - a..j - a + |w|][i];
      }
      assert s[j..j + |w|] == w;
    }
  }

  /** An occurrence in `x + y` that ends within `x` is an occurrence in `x`. */
  lemma OccursInPrefix(x: string, y: string, w: string, j: int)
    requires OccursAt(x + y, w, j) && j + |w| <= |x|
    ensures OccursAt(x, w, j)
  {
    assert (x + y)[0..|x|] == x;
    OccursInSlice(x + y, w, j, 0, |x|);
  }

  /** An occurrence in `x + y` that starts within `y` is an occurrence in `y`. */
  lemma OccursInSuffix(x: string, y: string, w: string, j: int)
    requires OccursAt(x + y, w, j) && |x| <= j
    ensures OccursAt(y, w, j - |x|)
  {
    assert (x + y)[|x|..|x + y|] == y;
    OccursInSlice(x + y, w, j, |x|, |x + y|);
  }

  /** An occurrence ending after `n` in `x` is one in `x + y`. */
  lemma EndsAfterPrefix(x: string, y: string, w: string, n: int)
    requires EndsAfter(x, w, n)
    ensures EndsAfter(x + y, w, n)
  {
    var j :| OccursAt(x, w, j) && n < j + |w|;
    assert (x + y)[0..|x|] == x;
    OccursInSlice(x + y, w, j, 0, |x|);
    assert OccursAt(x + y, w, j);
  }

  /** An occurrence ending after `n` in `y` is one ending after `|x| + n` in `x + y`. */
  lemma EndsAfterShift(x: string, y: string, w: string, n: int)
    requires EndsAfter(y, w, n)
    ensures EndsAfter(x + y, w, |x| + n)
  {
    var j :| OccursAt(y, w, j) && n < j + |w|;
    assert (x + y)[|x|..|x + y|] == y;
    OccursInSlice(x + y, w, |x| + j, |x|, |x + y|);
    assert OccursAt(x + y, w, |x| + j);
  }

  /** Where to start reading `s` so as to see every occurrence of `w` that
      ends after index `n`: the last `|w| - 1` characters up to `n`. */
  function WindowStart(n: nat, w: string): nat
  {
    if n + 1 < |w| then 0 else n + 1 - |w|
  }

  /** The text from `WindowStart` on holds `w` exactly when `s` has an
      occurrence of `w` ending after `n`. */
  lemma ContainsWindow(s: string, w: string, n: nat)
    requires |w| > 0 && n <= |s|
    ensures WindowStart(n, w) <= |s|
    ensures Contains(s[WindowStart(n, w)..], w) <==> EndsAfter(s, w, n)
  {
    var k := WindowStart(n, w);
    assert s[k..|s|] == s[k..];
    if Contains(s[k..], w) {
      var i :| OccursAt(s[k..], w, i);
      OccursInSlice(s, w, k + i, k, |s|);
      assert OccursAt(s, w, k + i);
    }
    if EndsAfter(s, w, n) {
      var j :| OccursAt(s, w, j) && n < j + |w|;
      OccursInSlice(s, w, j, k, |s|);
      assert OccursAt(s[k..], w, j - k);
    }
  }

  /** Upper-casing of one character, for the ASCII letters. */
  function Upper(c: char): (u: char)
    ensures 'a' <= c <= 'z' ==> 'A' <= u <= 'Z' && u as int - 'A' as int == c as int - 'a' as int
    ensures !('a' <= c <= 'z') ==> u == c
  {
    if 'a' <= c <= 'z' then (c as int - 'a' as int + 'A' as int) as char else c
  }

  /** Upper-casing of a whole string, character by character. */
  function UpperAll(s: string): (u: string)
    ensures |u| == |s|
    ensures forall i :: 0 <= i < |s| ==> u[i] == Upper(s[i])
  {
    if |s| == 0 then [] else [Upper(s[0])] + UpperAll(s[1..])
  }

  predicate IsDigit(c: char)
  {
    '0' <= c <= '9'
  }

  function DigitChar(d: nat): (c: char)
    requires d < 10
    ensures IsDigit(c) && c as int - '0' as int == d
  {
    (d + '0' as int) as char
  }

  function DigitValue(c: char): nat
    requires IsDigit(c)
  {
    c as int - '0' as int
  }

  /** JavaScript's `n.toString()` for a non-negative integer: its decimal
      digits, most significant first, with no leading zero. */
  function Decimal(n: nat): (r: string)
    decreases n
    ensures |r| > 0
    ensures forall i :: 0 <= i < |r| ==> IsDigit(r[i])
    ensures |r| > 1 ==> r[0] != '0'
  {
    if n < 10 then [DigitChar(n)] else Decimal(n / 10) + [DigitChar(n % 10)]
  }

  /** Reads a string of decimal digits back into its value. */
  function ParseDecimal(s: string): nat
    requires forall i :: 0 <= i < |s| ==> IsDigit(s[i])
    decreases |s|
  {
    if |s| == 0 then 0 else ParseDecimal(s[..|s| - 1]) * 10 + DigitValue(s[|s| - 1])
  }

  /** Rendering a number in decimal and reading it back gives the number. */
  lemma {:induction false} DecimalRoundTrip(n: nat)
    ensures ParseDecimal(Decimal(n)) == n
    decreases n
  {
    var r := Decimal(n);
    if n >= 10 {
      DecimalRoundTrip(n / 10);
      assert r[..|r| - 1] == Decimal(n / 10);
    }
  }
}
