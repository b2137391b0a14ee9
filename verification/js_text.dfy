/** The JavaScript string operations the data-view engine relies on:
    `toLowerCase`, `trim`, `includes`, the relational `<` / `>` on strings,
    and the decimal rendering of a number inside a template literal. */
module JsText {

  /** Lower-casing of one character (ASCII letters only; see README). */
  function LowerChar(c: char): char {
    if 'A' <= c <= 'Z' then (c as int + 32) as char else c
  }

  /** `String.prototype.toLowerCase`, character by character: the result
      has no upper-case letter left, and every other character is kept. */
  function ToLower(s: string): (r: string)
    ensures |r| == |s|
    ensures forall i :: 0 <= i < |r| ==> !('A' <= r[i] <= 'Z')
    ensures forall i :: 0 <= i < |s| && !('A' <= s[i] <= 'Z') ==> r[i] == s[i]
  {
    seq(|s|, i requires 0 <= i < |s| => LowerChar(s[i]))
  }

  /** The characters `String.prototype.trim` removes: the ECMAScript
      WhiteSpace and LineTerminator productions. */
  predicate IsWhiteSpace(c: char) {
    c == '\t' || c == '\n' || c == '\U{B}' || c == '\U{C}' || c == '\r' || c == ' '
    || c == '\U{A0}' || c == '\U{1680}' || ('\U{2000}' <= c <= '\U{200A}')
    || c == '\U{2028}' || c == '\U{2029}' || c == '\U{202F}' || c == '\U{205F}'
    || c == '\U{3000}' || c == '\U{FEFF}'
  }

  predicate IsBlank(s: string) {
    forall i :: 0 <= i < |s| ==> IsWhiteSpace(s[i])
  }

  function TrimStart(s: string): string {
    if |s| > 0 && IsWhiteSpace(s[0]) then TrimStart(s[1..]) else s
  }

  function TrimEnd(s: string): string {
    if |s| > 0 && IsWhiteSpace(s[|s| - 1]) then TrimEnd(s[..|s| - 1]) else s
  }

  /** `String.prototype.trim`. */
  function Trim(s: string): string {
    TrimEnd(TrimStart(s))
  }

  /** `needle` occurs in `haystack` starting at index `i`. */
  predicate OccursAt(haystack: string, needle: string, i: int) {
    0 <= i <= |haystack| - |needle| && haystack[i..i + |needle|] == needle
  }

  /** `haystack.includes(needle)`: never true of a longer needle, always
      true of the empty one. */
  predicate Contains(haystack: string, needle: string)
    ensures Contains(haystack, needle) ==> |needle| <= |haystack|
    ensures |needle| == 0 ==> Contains(haystack, needle)
  {
    assert |needle| == 0 ==> OccursAt(haystack, needle, 0);
    exists i | 0 <= i <= |haystack| - |needle| :: OccursAt(haystack, needle, i)
  }

  /** The relational `x < y` on strings: lexicographic on characters, a
      proper prefix being smaller. */
  predicate Less(x: string, y: string)
    ensures |x| < |y| && x == y[..|x|] ==> Less(x, y)
  {
    if |x| == 0 then |y| > 0
    else if |y| == 0 then false
    else if x[0] != y[0] then x[0] < y[0]
    else Less(x[1..], y[1..])
  }

  function DigitChar(d: nat): (c: char)
    requires d < 10
    ensures '0' <= c <= '9' && c as int - '0' as int == d
  {
    ('0' as int + d) as char
  }

  /** The decimal text of a natural number, as `${n}` renders it. */
  function NatToString(n: nat): (r: string)
    ensures |r| > 0
    ensures forall i :: 0 <= i < |r| ==> '0' <= r[i] <= '9'
    ensures r[0] == '0' ==> n == 0
  {
    if n < 10 then [DigitChar(n)] else NatToString(n / 10) + [DigitChar(n % 10)]
  }

  // ---------------------------------------------------------------- lemmas

  /** No string is smaller than itself. */
  lemma {:induction false} LessIrreflexive(x: string)
    ensures !Less(x, x)
  {
    if |x| > 0 {
      LessIrreflexive(x[1..]);
    }
  }

  /** Two different strings are ordered one way or the other. */
  lemma {:induction false} LessTotal(x: string, y: string)
    requires x != y
    ensures Less(x, y) || Less(y, x)
  {
    if |x| > 0 && |y| > 0 && x[0] == y[0] {
      assert x == [x[0]] + x[1..] && y == [y[0]] + y[1..];
      LessTotal(x[1..], y[1..]);
    }
  }

  /** ... and never both ways. */
  lemma {:induction false} LessAsymmetric(x: string, y: string)
    requires Less(x, y)
    ensures !Less(y, x)
  {
    if |x| > 0 && |y| > 0 && x[0] == y[0] {
      LessAsymmetric(x[1..], y[1..]);
    }
  }

  lemma {:induction false} LessTransitive(x: string, y: string, z: string)
    requires Less(x, y) && Less(y, z)
    ensures Less(x, z)
  {
    if |x| > 0 && |y| > 0 && |z| > 0 && x[0] == y[0] && y[0] == z[0] {
      LessTransitive(x[1..], y[1..], z[1..]);
    }
  }

  /** The lexicographic order spelled out: `x` is a proper prefix of `y`,
      or the first character where they differ is smaller in `x`. */
  predicate LexBefore(x: string, y: string) {
    (|x| < |y| && x == y[..|x|])
    || (exists k :: 0 <= k < |x| && k < |y| && x[..k] == y[..k] && x[k] < y[k])
  }

  /** `<` on strings is exactly the lexicographic order. */
  lemma {:induction false} LessLexicographic(x: string, y: string)
    ensures Less(x, y) <==> LexBefore(x, y)
  {
    if |x| > 0 && |y| > 0 {
      if x[0] == y[0] {
        LessLexicographic(x[1..], y[1..]);
        if LexBefore(x[1..], y[1..]) {
          LexBeforeTailsUp(x, y);
        }
        if LexBefore(x, y) {
          LexBeforeTailsDown(x, y);
        }
      } else {
        LexBeforeHeads(x, y);
      }
    } else if |x| == 0 && |y| > 0 {
      assert x == y[..0];
    }
  }

  /** Different first characters decide the order. */
  lemma LexBeforeHeads(x: string, y: string)
    requires |x| > 0 && |y| > 0 && x[0] != y[0]
    ensures LexBefore(x, y) <==> x[0] < y[0]
  {
    if x[0] < y[0] {
      assert x[..0] == y[..0];
    }
  }

  /** A shared first character can be dropped: the tails are ordered
      when the strings are ... */
  lemma LexBeforeTailsDown(x: string, y: string)
    requires |x| > 0 && |y| > 0 && x[0] == y[0] && LexBefore(x, y)
    ensures LexBefore(x[1..], y[1..])
  {
    if |x| < |y| && x == y[..|x|] {
      assert x[1..] == y[1..][..|x[1..]|];
    } else {
      var k :| 0 <= k < |x| && k < |y| && x[..k] == y[..k] && x[k] < y[k];
      assert k > 0;
      assert x[1..][..k - 1] == x[..k][1..];
      assert y[1..][..k - 1] == y[..k][1..];
    }
  }

  /** ... and the strings are ordered when the tails are. */
  lemma LexBeforeTailsUp(x: string, y: string)
    requires |x| > 0 && |y| > 0 && x[0] == y[0] && LexBefore(x[1..], y[1..])
    ensures LexBefore(x, y)
  {
    if |x[1..]| < |y[1..]| && x[1..] == y[1..][..|x[1..]|] {
      assert x == [x[0]] + x[1..];
      assert y[..|x|] == [y[0]] + y[1..][..|x[1..]|];
    } else {
      var k :| 0 <= k < |x[1..]| && k < |y[1..]| && x[1..][..k] == y[1..][..k] && x[1..][k] < y[1..][k];
      assert x[..k + 1] == [x[0]] + x[1..][..k];
      assert y[..k + 1] == [y[0]] + y[1..][..k];
    }
  }

  /** Each upper-case letter becomes the lower-case letter at the same
      position in the alphabet. */
  lemma ToLowerLetters(s: string)
    ensures forall i :: 0 <= i < |s| && 'A' <= s[i] <= 'Z' ==>
              'a' <= ToLower(s)[i] <= 'z' && ToLower(s)[i] as int - 'a' as int == s[i] as int - 'A' as int
  {
  }

  /** Lower-casing distributes over concatenation. */
  lemma ToLowerAppend(a: string, b: string)
    ensures ToLower(a + b) == ToLower(a) + ToLower(b)
  {
  }

  /** Lower-casing is idempotent. */
  lemma ToLowerIdempotent(s: string)
    ensures ToLower(ToLower(s)) == ToLower(s)
  {
  }

  /** `trim` yields the empty string exactly on blank input. */
  lemma {:induction false} TrimEmptyIffBlank(s: string)
    ensures Trim(s) == "" <==> IsBlank(s)
  {
    TrimStartBlank(s);
    var t := TrimStart(s);
    if t != "" {
      TrimEndKeepsNonBlankStart(t);
    }
  }

  lemma {:induction false} TrimStartBlank(s: string)
    ensures TrimStart(s) == "" <==> IsBlank(s)
    ensures TrimStart(s) != "" ==> !IsWhiteSpace(TrimStart(s)[0])
  {
    if |s| > 0 && IsWhiteSpace(s[0]) {
      TrimStartBlank(s[1..]);
      if IsBlank(s[1..]) {
        assert IsBlank(s) by {
          forall i | 0 <= i < |s| ensures IsWhiteSpace(s[i]) {
            if i > 0 { assert s[i] == s[1..][i - 1]; }
          }
        }
      } else {
        var j :| 0 <= j < |s[1..]| && !IsWhiteSpace(s[1..][j]);
        assert !IsWhiteSpace(s[j + 1]);
      }
    } else if |s| > 0 {
      assert !IsWhiteSpace(s[0]);
    }
  }

  lemma {:induction false} TrimEndKeepsNonBlankStart(t: string)
    requires t != "" && !IsWhiteSpace(t[0])
    ensures TrimEnd(t) != ""
  {
    if IsWhiteSpace(t[|t| - 1]) {
      assert |t| > 1;
      TrimEndKeepsNonBlankStart(t[..|t| - 1]);
    }
  }

  /** `trim` strips a blank run from each end of its input and changes
      nothing else; what is left neither starts nor ends with white space. */
  lemma TrimShape(s: string)
    ensures exists p, q :: IsBlank(p) && IsBlank(q) && s == p + Trim(s) + q
    ensures Contains(s, Trim(s))
    ensures Trim(s) == "" || (!IsWhiteSpace(Trim(s)[0]) && !IsWhiteSpace(Trim(s)[|Trim(s)| - 1]))
  {
    var t := TrimStart(s);
    var r := TrimEnd(t);
    TrimStartStrips(s);
    var p :| IsBlank(p) && s == p + t;
    TrimEndStrips(t);
    var q :| IsBlank(q) && t == r + q;
    assert s == p + r + q;
    TrimStartSuffix(s);
    TrimEndPrefix(t);
    var k := |s| - |t|;
    assert s[k..k + |r|] == r by {
      assert s[k..k + |r|] == s[k..][..|r|];
    }
    assert OccursAt(s, r, k);
    if r != "" {
      TrimStartBlank(s);
      assert r[0] == t[0];
    }
  }

  lemma {:induction false} TrimStartStrips(s: string)
    ensures exists p :: IsBlank(p) && s == p + TrimStart(s)
  {
    if |s| > 0 && IsWhiteSpace(s[0]) {
      TrimStartStrips(s[1..]);
      var p :| IsBlank(p) && s[1..] == p + TrimStart(s[1..]);
      assert s == [s[0]] + p + TrimStart(s);
      assert IsBlank([s[0]] + p);
    } else {
      assert s == [] + TrimStart(s);
    }
  }

  lemma {:induction false} TrimEndStrips(s: string)
    ensures exists q :: IsBlank(q) && s == TrimEnd(s) + q
  {
    if |s| > 0 && IsWhiteSpace(s[|s| - 1]) {
      TrimEndStrips(s[..|s| - 1]);
      var q :| IsBlank(q) && s[..|s| - 1] == TrimEnd(s[..|s| - 1]) + q;
      assert s == TrimEnd(s) + (q + [s[|s| - 1]]);
      assert IsBlank(q + [s[|s| - 1]]);
    } else {
      assert s == TrimEnd(s) + [];
    }
  }

  lemma {:induction false} TrimStartSuffix(s: string)
    ensures |TrimStart(s)| <= |s| && TrimStart(s) == s[|s| - |TrimStart(s)|..]
  {
    if |s| > 0 && IsWhiteSpace(s[0]) {
      TrimStartSuffix(s[1..]);
    }
  }

  lemma {:induction false} TrimEndPrefix(t: string)
    ensures |TrimEnd(t)| <= |t| && TrimEnd(t) == t[..|TrimEnd(t)|]
    ensures TrimEnd(t) == "" || !IsWhiteSpace(TrimEnd(t)[|TrimEnd(t)| - 1])
  {
    if |t| > 0 && IsWhiteSpace(t[|t| - 1]) {
      TrimEndPrefix(t[..|t| - 1]);
    }
  }

  /** A string occurs in any concatenation that has it in the middle. */
  lemma ContainsMiddle(a: string, b: string, c: string)
    ensures Contains(a + b + c, b)
  {
    var h := a + b + c;
    assert h[|a|..|a| + |b|] == b;
    assert OccursAt(h, b, |a|);
  }

  /** A needle whose first character never occurs in the haystack is not
      contained in it. */
  lemma AbsentFirstChar(haystack: string, needle: string)
    requires |needle| > 0 && needle[0] !in haystack
    ensures !Contains(haystack, needle)
  {
    forall i | 0 <= i <= |haystack| - |needle| ensures !OccursAt(haystack, needle, i) {
      assert haystack[i] in haystack;
    }
  }

  /** The number a run of decimal digits denotes: the last digit plus ten
      times the number the rest denotes. */
  function DigitsValue(s: string): int {
    if s == [] then 0 else DigitsValue(s[..|s| - 1]) * 10 + (s[|s| - 1] as int - '0' as int)
  }

  /** The decimal rendering denotes the number it renders. */
  lemma {:induction false} NatToStringValue(n: nat)
    ensures DigitsValue(NatToString(n)) == n
  {
    if n >= 10 {
      NatToStringValue(n / 10);
      var r := NatToString(n);
      assert r[..|r| - 1] == NatToString(n / 10);
    }
  }
}
