/** String helpers shared by the models: prefix/suffix tests, substring search,
    ASCII lower-casing, JavaScript's `trim`, and decimal rendering of numbers. */
module Strings {

  /** Python `s.startswith(p)` / JavaScript `s.startsWith(p)`. */
  predicate StartsWith(s: string, p: string) {
    |p| <= |s| && s[..|p|] == p
  }

  /** Python `s.endswith(p)`. */
  predicate EndsWith(s: string, p: string) {
    |p| <= |s| && s[|s| - |p|..] == p
  }

  /** `needle` occurs in `hay` at position `i`. */
  predicate OccursAt(hay: string, needle: string, i: nat) {
    i + |needle| <= |hay| && hay[i..i + |needle|] == needle
  }

  /** JavaScript `hay.includes(needle)`: a left-to-right search for an occurrence. */
  function Contains(hay: string, needle: string): (r: bool)
    ensures r <==> exists i :: 0 <= i <= |hay| && OccursAt(hay, needle, i)
  {
    ContainsFrom(hay, needle, 0)
  }

  function ContainsFrom(hay: string, needle: string, start: nat): (r: bool)
    requires start <= |hay|
    ensures r <==> exists i :: start <= i <= |hay| && OccursAt(hay, needle, i)
    decreases |hay| - start
  {
    if OccursAt(hay, needle, start) then true
    else if start == |hay| then false
    else ContainsFrom(hay, needle, start + 1)
  }

  /** Python `s.replace(pat, rep)` for a non-empty pattern: every occurrence, taken left to
      right without overlaps, is replaced. */
  function ReplaceAll(s: string, pat: string, rep: string): (r: string)
    requires |pat| > 0
    ensures !Contains(s, pat) ==> r == s
    ensures StartsWith(s, pat) ==> r == rep + ReplaceAll(s[|pat|..], pat, rep)
    // A character that does not start an occurrence is copied, and the scan goes on after it.
    ensures !StartsWith(s, pat) && s != [] ==> r == [s[0]] + ReplaceAll(s[1..], pat, rep)
    ensures s == [] ==> r == []
    decreases |s|
  {
    if StartsWith(s, pat) then rep + ReplaceAll(s[|pat|..], pat, rep)
    else if s == [] then []
    else
      assert !Contains(s, pat) ==> !Contains(s[1..], pat) by {
        if Contains(s[1..], pat) {
          var i :| 0 <= i <= |s[1..]| && OccursAt(s[1..], pat, i);
          assert OccursAt(s, pat, i + 1);
        }
      }
      [s[0]] + ReplaceAll(s[1..], pat, rep)
  }

  /** Characters that cannot start the pattern are copied through unchanged. */
  lemma {:induction false} ReplaceAllCopiesPlain(x: string, s: string, pat: string, rep: string)
    requires |pat| > 0
    requires forall i :: 0 <= i < |x| ==> x[i] != pat[0]
    ensures ReplaceAll(x + s, pat, rep) == x + ReplaceAll(s, pat, rep)
    decreases |x|
  {
    if x == [] {
      assert x + s == s;
    } else {
      var xs := x + s;
      assert xs[0] == x[0] && xs[1..] == x[1..] + s;
      assert xs[0] != pat[0];
      var tail := ReplaceAll(s, pat, rep);
      calc {
        ReplaceAll(xs, pat, rep);
        [x[0]] + ReplaceAll(x[1..] + s, pat, rep);
        { ReplaceAllCopiesPlain(x[1..], s, pat, rep); }
        [x[0]] + (x[1..] + tail);
        { HeadThenRest(x, tail); }
        x + tail;
      }
    }
  }

  lemma HeadThenRest(x: string, t: string)
    requires x != []
    ensures [x[0]] + (x[1..] + t) == x + t
  {
    assert [x[0]] + x[1..] == x;
  }

  /** Lower-casing of one character; only ASCII `A`-`Z` are mapped. */
  function LowerChar(c: char): char {
    if 'A' <= c <= 'Z' then (c as int - 'A' as int + 'a' as int) as char else c
  }

  /** `s.toLowerCase()` restricted to ASCII letters. */
  function ToLower(s: string): (r: string)
    ensures |r| == |s|
    ensures forall i :: 0 <= i < |s| ==> r[i] == LowerChar(s[i])
  {
    if s == [] then [] else [LowerChar(s[0])] + ToLower(s[1..])
  }

  /** The characters JavaScript's `String.prototype.trim` removes: the WhiteSpace
      code points (TAB, VT, FF, SPACE, NBSP, ZWNBSP and the Zs category) and the
      LineTerminator code points (LF, CR, LS, PS), per section 12.2 and 12.3 of
      ECMA-262. */
  predicate IsJsWhitespace(c: char) {
    c == '\t' || c == '\U{B}' || c == '\U{C}' || c == ' ' || c == '\U{A0}' ||
    c == '\U{FEFF}' || c == '\U{1680}' || ('\U{2000}' <= c <= '\U{200A}') ||
    c == '\U{202F}' || c == '\U{205F}' || c == '\U{3000}' ||
    c == '\n' || c == '\r' || c == '\U{2028}' || c == '\U{2029}'
  }

  predicate AllWhitespace(s: string) {
    forall i :: 0 <= i < |s| ==> IsJsWhitespace(s[i])
  }

  /** Index of the first non-whitespace character of `s` at or after `i` (or `|s|`). */
  function LeadEnd(s: string, i: nat): (k: nat)
    requires i <= |s|
    ensures i <= k <= |s|
    ensures forall m :: i <= m < k ==> IsJsWhitespace(s[m])
    ensures k < |s| ==> !IsJsWhitespace(s[k])
    decreases |s| - i
  {
    if i == |s| || !IsJsWhitespace(s[i]) then i else LeadEnd(s, i + 1)
  }

  /** End of `s[lo..j]` once its trailing whitespace is dropped. */
  function TrailStart(s: string, lo: nat, j: nat): (k: nat)
    requires lo <= j <= |s|
    ensures lo <= k <= j
    ensures forall m :: k <= m < j ==> IsJsWhitespace(s[m])
    ensures k > lo ==> !IsJsWhitespace(s[k - 1])
    decreases j
  {
    if j == lo || !IsJsWhitespace(s[j - 1]) then j else TrailStart(s, lo, j - 1)
  }

  /** JavaScript `s.trim()`: `s` without its leading and trailing whitespace. */
  function Trim(s: string): (r: string)
    ensures r == [] || (!IsJsWhitespace(r[0]) && !IsJsWhitespace(r[|r| - 1]))
    ensures r == s[LeadEnd(s, 0)..TrailStart(s, LeadEnd(s, 0), |s|)]
    ensures AllWhitespace(s[..LeadEnd(s, 0)])
    ensures AllWhitespace(s[TrailStart(s, LeadEnd(s, 0), |s|)..])
  {
    var i := LeadEnd(s, 0);
    var j := TrailStart(s, i, |s|);
    s[i..j]
  }

  /** Trimming yields the empty string exactly when the input is all whitespace. */
  lemma TrimEmptyIff(s: string)
    ensures Trim(s) == [] <==> AllWhitespace(s)
  {
    var i := LeadEnd(s, 0);
    if i < |s| {
      assert !IsJsWhitespace(s[i]);
      assert TrailStart(s, i, |s|) > i;
    }
  }

  /** `a + b + c` starts with `a`, and what follows `a` is `b + c`. */
  lemma SplitAfterPrefix(a: string, b: string, c: string)
    ensures StartsWith(a + b + c, a) && (a + b + c)[|a|..] == b + c
  {
    assert (a + b + c)[..|a|] == a;
    assert (a + b + c)[|a|..] == b + c;
  }

  lemma Regroup(a: string, b: string, c: string, d: string)
    ensures a + b + c + d == a + b + (c + d)
    ensures a + (b + (c + d)) == a + b + c + d
  {
  }

  /** Decimal digits of a natural number, as Python's `f"{n}"` prints it. */
  function NatToDecimal(n: nat): (r: string)
    ensures |r| >= 1
    ensures forall i :: 0 <= i < |r| ==> '0' <= r[i] <= '9'
    ensures r[0] == '0' ==> n == 0
    decreases n
  {
    if n < 10 then [Digit(n)] else NatToDecimal(n / 10) + [Digit(n % 10)]
  }

  function Digit(d: nat): (c: char)
    requires d < 10
    ensures '0' <= c <= '9' && c as int - '0' as int == d
  {
    ('0' as int + d) as char
  }

  /** Value of a non-empty digit string. */
  function DecimalValue(s: string): nat
    requires forall i :: 0 <= i < |s| ==> '0' <= s[i] <= '9'
  {
    if s == [] then 0 else DecimalValue(s[..|s| - 1]) * 10 + (s[|s| - 1] as int - '0' as int)
  }

  /** Reading the decimal rendering back gives the number. */
  lemma {:induction false} DecimalRoundTrip(n: nat)
    ensures DecimalValue(NatToDecimal(n)) == n
    decreases n
  {
    if n >= 10 {
      var s := NatToDecimal(n);
      assert s[..|s| - 1] == NatToDecimal(n / 10);
      DecimalRoundTrip(n / 10);
    }
  }
}
