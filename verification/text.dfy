/**
 * The string operations the focus label needs, on strings as sequences of
 * characters: ECMAScript whitespace, `trim`, `split("\n")`, `slice(0, n)` and
 * the decimal rendering of a non-negative integer in a template literal.
 */
module Text {

  /**
   * ECMAScript's WhiteSpace and LineTerminator characters, which
   * `String.prototype.trim` removes, as inclusive code point ranges: TAB, LF,
   * VT, FF and CR; the space separators (category Zs); LS and PS; ZWNBSP.
   */
  const WhitespaceRanges: seq<(char, char)> := [
    ('\t', '\r'), (' ', ' '), ('\U{00A0}', '\U{00A0}'), ('\U{1680}', '\U{1680}'),
    ('\U{2000}', '\U{200A}'), ('\U{2028}', '\U{2029}'), ('\U{202F}', '\U{202F}'),
    ('\U{205F}', '\U{205F}'), ('\U{3000}', '\U{3000}'), ('\U{FEFF}', '\U{FEFF}')
  ]

  predicate InRanges(c: char, ranges: seq<(char, char)>) {
    ranges != [] && ((ranges[0].0 <= c <= ranges[0].1) || InRanges(c, ranges[1..]))
  }

  predicate IsWhitespace(c: char) {
    InRanges(c, WhitespaceRanges)
  }

  /** Every character of `s` is whitespace. */
  predicate AllWhitespace(s: string) {
    s == [] || (IsWhitespace(s[0]) && AllWhitespace(s[1..]))
  }

  /** `AllWhitespace` says of every position what it says of the first. */
  lemma {:induction false} AllWhitespaceAt(s: string)
    ensures AllWhitespace(s) <==> forall k :: 0 <= k < |s| ==> IsWhitespace(s[k])
  {
    if s != [] {
      AllWhitespaceAt(s[1..]);
      assert forall k :: 1 <= k < |s| ==> s[k] == s[1..][k - 1];
      if forall k :: 0 <= k < |s| ==> IsWhitespace(s[k]) {
        forall k | 0 <= k < |s[1..]| ensures IsWhitespace(s[1..][k]) {
          assert s[1..][k] == s[k + 1];
        }
      }
    }
  }

  /** The characters of `s` from position `i` up to, not including, `j` are whitespace. */
  predicate WhitespaceBetween(s: string, i: nat, j: nat)
    requires i <= j <= |s|
    decreases j - i
  {
    i == j || (IsWhitespace(s[i]) && WhitespaceBetween(s, i + 1, j))
  }

  lemma {:induction false} WhitespaceBetweenIsAll(s: string, i: nat, j: nat)
    requires i <= j <= |s|
    ensures WhitespaceBetween(s, i, j) <==> AllWhitespace(s[i..j])
    decreases j - i
  {
    if i < j {
      assert s[i..j][1..] == s[i + 1..j];
      WhitespaceBetweenIsAll(s, i + 1, j);
    }
  }

  lemma {:induction false} WhitespaceBetweenSplit(s: string, i: nat, k: nat, j: nat)
    requires i <= k <= j <= |s|
    ensures WhitespaceBetween(s, i, j) <==> WhitespaceBetween(s, i, k) && WhitespaceBetween(s, k, j)
    decreases k - i
  {
    if i < k {
      WhitespaceBetweenSplit(s, i + 1, k, j);
    }
  }

  /**
   * Where the text of `s` starts, looking from position `i`: the first
   * position from `i` on that does not hold whitespace, or the end of `s`.
   */
  function TextStart(s: string, i: nat): (a: nat)
    requires i <= |s|
    ensures i <= a <= |s| && WhitespaceBetween(s, i, a)
    ensures a == |s| || !IsWhitespace(s[a])
    decreases |s| - i
  {
    if i < |s| && IsWhitespace(s[i]) then TextStart(s, i + 1) else i
  }

  /**
   * Where the text of `s` ends, looking back from position `j` but not past
   * `a`: just after the last position before `j` that does not hold
   * whitespace, or `a`.
   */
  function TextEnd(s: string, a: nat, j: nat): (b: nat)
    requires a <= j <= |s|
    ensures a <= b <= j && WhitespaceBetween(s, b, j)
    ensures b == a || !IsWhitespace(s[b - 1])
    decreases j - a
  {
    if a < j && IsWhitespace(s[j - 1]) then
      var b := TextEnd(s, a, j - 1);
      WhitespaceBetweenSplit(s, b, j - 1, j);
      b
    else j
  }

  /** `s.trim()`: `s` without its leading and trailing whitespace. */
  function Trim(s: string): (r: string)
    ensures |r| <= |s|
  {
    var a := TextStart(s, 0);
    s[a..TextEnd(s, a, |s|)]
  }

  /**
   * `s.trim()` is the piece of `s` right after its leading whitespace, and
   * `s` holds only whitespace before and after that piece.
   */
  lemma TrimIsPiece(s: string)
    ensures TextStart(s, 0) + |Trim(s)| <= |s|
    ensures Trim(s) == s[TextStart(s, 0)..TextStart(s, 0) + |Trim(s)|]
    ensures AllWhitespace(s[..TextStart(s, 0)])
    ensures AllWhitespace(s[TextStart(s, 0) + |Trim(s)|..])
  {
    var a := TextStart(s, 0);
    var b := TextEnd(s, a, |s|);
    WhitespaceBetweenIsAll(s, 0, a);
    WhitespaceBetweenIsAll(s, b, |s|);
    assert s[..a] == s[0..a];
    assert s[b..] == s[b..|s|];
  }

  /** `s.trim()` starts and ends with a non-whitespace character, unless it is empty. */
  lemma TrimEnds(s: string)
    ensures Trim(s) == [] || (!IsWhitespace(Trim(s)[0]) && !IsWhitespace(Trim(s)[|Trim(s)| - 1]))
  {
  }

  /** `s.trim()` is empty exactly when `s` is all whitespace. */
  lemma TrimEmpty(s: string)
    ensures Trim(s) == [] <==> AllWhitespace(s)
  {
    var a := TextStart(s, 0);
    var b := TextEnd(s, a, |s|);
    WhitespaceBetweenIsAll(s, 0, |s|);
    assert s[0..|s|] == s;
    WhitespaceBetweenSplit(s, 0, a, |s|);
    WhitespaceBetweenSplit(s, a, b, |s|);
  }

  /** `s.slice(0, n)`: the first `n` characters of `s`, or all of `s` when it is shorter. */
  function Take(s: string, n: nat): (r: string)
    ensures |r| <= n && r <= s
    ensures |s| <= n ==> r == s
    ensures |s| >= n ==> |r| == n
  {
    if |s| <= n then s else s[..n]
  }

  /** `s.split("\n")`: the pieces of `s` between line feeds; there is always at least one. */
  function SplitLines(s: string): (r: seq<string>)
    ensures |r| >= 1
    ensures forall l :: l in r ==> '\n' !in l
  {
    if s == [] then [[]]
    else
      var rest := SplitLines(s[1..]);
      if s[0] == '\n' then [[]] + rest
      else
        assert rest[0] in rest;
        [[s[0]] + rest[0]] + rest[1..]
  }

  /** `lines.join("\n")`. */
  function JoinLines(lines: seq<string>): string {
    if |lines| == 0 then []
    else if |lines| == 1 then lines[0]
    else lines[0] + ['\n'] + JoinLines(lines[1..])
  }

  /** Splitting loses nothing: joining the lines back with line feeds gives the original text. */
  lemma {:induction false} JoinSplitLines(s: string)
    ensures JoinLines(SplitLines(s)) == s
  {
    if s != [] {
      var rest := SplitLines(s[1..]);
      JoinSplitLines(s[1..]);
      if s[0] == '\n' {
        assert SplitLines(s) == [[]] + rest;
        assert ([[]] + rest)[1..] == rest;
      } else {
        var lines := [[s[0]] + rest[0]] + rest[1..];
        assert SplitLines(s) == lines;
        if |rest| == 1 {
          assert JoinLines(lines) == [s[0]] + rest[0];
        } else {
          assert lines[1..] == rest[1..];
          assert JoinLines(rest) == rest[0] + ['\n'] + JoinLines(rest[1..]);
        }
      }
    }
  }

  /** The whole text is whitespace exactly when every one of its lines is. */
  lemma {:induction false} AllWhitespaceByLines(s: string)
    ensures AllWhitespace(s) <==> forall l :: l in SplitLines(s) ==> AllWhitespace(l)
  {
    if s != [] {
      var rest := SplitLines(s[1..]);
      AllWhitespaceByLines(s[1..]);
      if s[0] == '\n' {
        assert IsWhitespace(s[0]) && AllWhitespace([]);
        assert SplitLines(s) == [[]] + rest;
        assert forall l :: l in SplitLines(s) <==> l == [] || l in rest;
        if !AllWhitespace(s) {
          var l :| l in rest && !AllWhitespace(l);
          assert l in SplitLines(s);
        }
      } else {
        var first := [s[0]] + rest[0];
        assert SplitLines(s) == [first] + rest[1..];
        assert rest == [rest[0]] + rest[1..];
        assert first[0] == s[0] && first[1..] == rest[0];
        assert AllWhitespace(first) <==> IsWhitespace(s[0]) && AllWhitespace(rest[0]);
        assert (forall l :: l in rest ==> AllWhitespace(l)) <==>
               AllWhitespace(rest[0]) && forall l :: l in rest[1..] ==> AllWhitespace(l);
        assert (forall l :: l in SplitLines(s) ==> AllWhitespace(l)) <==>
               AllWhitespace(first) && forall l :: l in rest[1..] ==> AllWhitespace(l);
      }
    }
  }

  predicate IsDigit(c: char) {
    '0' <= c <= '9'
  }

  /** The decimal digits of `n` without leading zeros, as `${n}` renders a non-negative integer. */
  function DecimalString(n: nat): (r: string)
    ensures r != [] && forall k :: 0 <= k < |r| ==> IsDigit(r[k])
    ensures r[0] == '0' <==> n == 0
    ensures n == 0 ==> r == "0"
  {
    if n < 10 then [('0' as int + n) as char]
    else DecimalString(n / 10) + [('0' as int + n % 10) as char]
  }

  /** The number a string of decimal digits stands for. */
  function DecimalValue(s: string): nat
    requires forall k :: 0 <= k < |s| ==> IsDigit(s[k])
  {
    if s == [] then 0
    else DecimalValue(s[..|s| - 1]) * 10 + DigitValue(s[|s| - 1])
  }

  function DigitValue(c: char): nat
    requires IsDigit(c)
  {
    c as int - '0' as int
  }

  /** Rendering loses nothing: the digits of `n` read back as `n`. */
  lemma {:induction false} DecimalRoundTrip(n: nat)
    ensures DecimalValue(DecimalString(n)) == n
  {
    if n >= 10 {
      var d := DecimalString(n / 10);
      DecimalRoundTrip(n / 10);
      assert (d + [('0' as int + n % 10) as char])[..|d|] == d;
    }
  }

  /** The longest run of decimal digits at the start of `s`. */
  function LeadingDigits(s: string): (r: string)
    ensures r <= s && forall k :: 0 <= k < |r| ==> IsDigit(r[k])
    ensures |r| < |s| ==> !IsDigit(s[|r|])
  {
    if s != [] && IsDigit(s[0]) then [s[0]] + LeadingDigits(s[1..]) else []
  }

  /** The leading digits of a digit string followed by a non-digit are that digit string. */
  lemma {:induction false} LeadingDigitsOfPrefix(d: string, rest: string)
    requires forall k :: 0 <= k < |d| ==> IsDigit(d[k])
    requires rest != [] && !IsDigit(rest[0])
    ensures LeadingDigits(d + rest) == d
  {
    if d != [] {
      assert (d + rest)[1..] == d[1..] + rest;
      LeadingDigitsOfPrefix(d[1..], rest);
    } else {
      assert d + rest == rest;
    }
  }
}
