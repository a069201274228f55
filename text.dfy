/** Strings as the recipe pages treat them: JavaScript's `trim`, `toLowerCase`,
    `includes` and `split("\n")`, the numeric coercion behind `isNaN`, and the
    order in which ISO-8601 timestamps compare. */
module Text {

  /** The code points `String.prototype.trim` removes: ECMAScript WhiteSpace
      (tab, vertical tab, form feed, space, no-break space, byte order mark and
      every space separator) and LineTerminator (LF, CR, U+2028, U+2029). */
  predicate IsSpace(c: char) {
    var n := c as int;
    n == 0x09 || n == 0x0A || n == 0x0B || n == 0x0C || n == 0x0D || n == 0x20
    || n == 0xA0 || n == 0x1680 || (0x2000 <= n <= 0x200A) || n == 0x2028
    || n == 0x2029 || n == 0x202F || n == 0x205F || n == 0x3000 || n == 0xFEFF
  }

  /** `s.trim() === ""`: every character of `s` is white space. */
  predicate IsBlank(s: string) {
    forall i :: 0 <= i < |s| ==> IsSpace(s[i])
  }

  /** Drops the leading white space: the result is the longest suffix that does
      not start with white space, and what was dropped is blank. */
  function TrimStart(s: string): (r: string)
    ensures |r| <= |s| && r == s[|s| - |r|..]
    ensures r != [] ==> !IsSpace(r[0])
    ensures IsBlank(s[..|s| - |r|])
    decreases |s|
  {
    if s != [] && IsSpace(s[0]) then
      var r := TrimStart(s[1..]);
      assert s[..|s| - |r|] == [s[0]] + s[1..][..|s| - 1 - |r|];
      r
    else s
  }

  /** Drops the trailing white space: the result is the longest prefix that does
      not end with white space, and what was dropped is blank. */
  function TrimEnd(s: string): (r: string)
    ensures |r| <= |s| && r == s[..|r|]
    ensures r != [] ==> !IsSpace(r[|r| - 1])
    ensures IsBlank(s[|r|..])
    decreases |s|
  {
    if s != [] && IsSpace(s[|s| - 1]) then
      var r := TrimEnd(s[..|s| - 1]);
      assert s[|r|..] == s[..|s| - 1][|r|..] + [s[|s| - 1]];
      r
    else s
  }

  /** `s.trim()`. */
  function Trim(s: string): string {
    TrimEnd(TrimStart(s))
  }

  /** Trimming leaves nothing exactly when the string is blank, so the source's
      two spellings of the test (`s.trim()` as a condition, `s.trim() !== ""`)
      agree with `IsBlank`. */
  lemma TrimIsEmptyIffBlank(s: string)
    ensures Trim(s) == [] <==> IsBlank(s)
  {
    var front := TrimStart(s);
    if front == [] {
      assert s[..|s|] == s;
    } else {
      var back := TrimEnd(front);
      assert s[|s| - |front|] == front[0];
    }
  }

  /** `toLowerCase` on the ASCII letters; every other character is kept. */
  function LowerChar(c: char): char {
    if 'A' <= c <= 'Z' then (c as int + 32) as char else c
  }

  function Lower(s: string): (r: string)
    ensures |r| == |s|
    ensures forall i :: 0 <= i < |s| ==> r[i] == LowerChar(s[i])
  {
    seq(|s|, i requires 0 <= i < |s| => LowerChar(s[i]))
  }

  /** Lower-casing twice is lower-casing once. */
  lemma LowerIsIdempotent(s: string)
    ensures Lower(Lower(s)) == Lower(s)
  {
    assert forall i :: 0 <= i < |s| ==> LowerChar(LowerChar(s[i])) == LowerChar(s[i]);
  }

  predicate IsPrefix(p: string, s: string) {
    |p| <= |s| && s[..|p|] == p
  }

  /** `s.includes(sub)`, scanning the start positions of `s` from the left. */
  predicate Contains(s: string, sub: string)
    decreases |s|
  {
    IsPrefix(sub, s) || (s != [] && Contains(s[1..], sub))
  }

  /** `sub` occurs in `s` starting at position `i`. */
  predicate OccursAt(s: string, sub: string, i: int) {
    0 <= i <= |s| - |sub| && s[i..i + |sub|] == sub
  }

  /** `Contains` holds exactly when `sub` occurs at some position of `s`. */
  lemma {:induction false} ContainsIffOccurs(s: string, sub: string)
    ensures Contains(s, sub) <==> exists i :: OccursAt(s, sub, i)
    decreases |s|
  {
    if IsPrefix(sub, s) {
      assert OccursAt(s, sub, 0);
    } else if s == [] {
    } else {
      ContainsIffOccurs(s[1..], sub);
      if exists i :: OccursAt(s, sub, i) {
        var i :| OccursAt(s, sub, i);
        assert i != 0;
        assert s[1..][i - 1..i - 1 + |sub|] == s[i..i + |sub|];
        assert OccursAt(s[1..], sub, i - 1);
      }
      if Contains(s[1..], sub) {
        var j :| OccursAt(s[1..], sub, j);
        assert s[1..][j..j + |sub|] == s[j + 1..j + 1 + |sub|];
        assert OccursAt(s, sub, j + 1);
      }
    }
  }

  /** The empty string occurs in every string. */
  lemma ContainsEmpty(s: string)
    ensures Contains(s, "")
  {
    assert IsPrefix("", s);
  }

  // ---------------------------------------------------------------------
  // split("\n")

  /** `s.split("\n")`: the pieces between line feeds, never fewer than one. */
  function SplitLines(s: string): (pieces: seq<string>)
    ensures |pieces| >= 1
    decreases |s|
  {
    if s == [] then [[]]
    else
      var rest := SplitLines(s[1..]);
      if s[0] == '\n' then [[]] + rest
      else [[s[0]] + rest[0]] + rest[1..]
  }

  /** `pieces.join("\n")`. */
  function JoinLines(pieces: seq<string>): string
    requires |pieces| >= 1
  {
    if |pieces| == 1 then pieces[0] else pieces[0] + "\n" + JoinLines(pieces[1..])
  }

  /** Splitting loses nothing: joining the pieces gives the text back, and no
      piece contains a line feed. */
  lemma {:induction false} SplitLinesInverse(s: string)
    ensures JoinLines(SplitLines(s)) == s
    ensures forall k :: 0 <= k < |SplitLines(s)| ==> '\n' !in SplitLines(s)[k]
    decreases |s|
  {
    if s != [] {
      var rest := SplitLines(s[1..]);
      SplitLinesInverse(s[1..]);
      if s[0] == '\n' {
        assert [[]] + rest == [[]] + rest;
        assert ([[]] + rest)[1..] == rest;
      } else {
        var pieces := [[s[0]] + rest[0]] + rest[1..];
        assert pieces[1..] == rest[1..];
        if |rest| == 1 {
          assert JoinLines(pieces) == [s[0]] + rest[0];
        } else {
          assert JoinLines(rest) == rest[0] + "\n" + JoinLines(rest[1..]);
          assert JoinLines(pieces) == [s[0]] + rest[0] + "\n" + JoinLines(rest[1..]);
        }
        assert s == [s[0]] + s[1..];
        forall k | 0 <= k < |pieces| ensures '\n' !in pieces[k] {
          if k == 0 {
            assert '\n' !in rest[0];
          } else {
            assert pieces[k] == rest[k];
          }
        }
      }
    }
  }

  // ---------------------------------------------------------------------
  // isNaN(id) on a string id

  predicate IsDecimalDigit(c: char) { '0' <= c <= '9' }

  /** A non-empty run of characters accepted by `isDigit`. */
  predicate AllDigits(s: string, radix: nat) {
    s != [] && forall i :: 0 <= i < |s| ==> IsDigitIn(s[i], radix)
  }

  predicate IsDigitIn(c: char, radix: nat) {
    if radix == 16 then IsDecimalDigit(c) || 'a' <= c <= 'f' || 'A' <= c <= 'F'
    else '0' <= c && (c as int) < ('0' as int) + radix
  }

  /** The number of leading decimal digits of `s`. */
  function LeadingDigits(s: string): (n: nat)
    ensures n <= |s|
    ensures forall i :: 0 <= i < n ==> IsDecimalDigit(s[i])
    ensures n < |s| ==> !IsDecimalDigit(s[n])
    decreases |s|
  {
    if s != [] && IsDecimalDigit(s[0]) then 1 + LeadingDigits(s[1..]) else 0
  }

  /** An exponent part: `e` or `E`, an optional sign, then decimal digits. */
  predicate IsExponent(s: string) {
    |s| >= 2 && (s[0] == 'e' || s[0] == 'E')
    && (if s[1] == '+' || s[1] == '-' then AllDigits(s[2..], 10) else AllDigits(s[1..], 10))
  }

  /** ECMAScript's StrUnsignedDecimalLiteral: `Infinity`, or digits with an
      optional fraction and exponent, with at least one digit in the mantissa. */
  predicate IsUnsignedDecimal(s: string) {
    s == "Infinity" ||
    var whole := LeadingDigits(s);
    var rest := s[whole..];
    if rest != [] && rest[0] == '.' then
      var fraction := LeadingDigits(rest[1..]);
      var tail := rest[1..][fraction..];
      (whole > 0 || fraction > 0) && (tail == [] || IsExponent(tail))
    else
      whole > 0 && (rest == [] || IsExponent(rest))
  }

  /** `0x`/`0o`/`0b` integer literals (no sign allowed). */
  predicate IsNonDecimalInteger(s: string) {
    |s| >= 3 && s[0] == '0' &&
    (((s[1] == 'x' || s[1] == 'X') && AllDigits(s[2..], 16))
     || ((s[1] == 'o' || s[1] == 'O') && AllDigits(s[2..], 8))
     || ((s[1] == 'b' || s[1] == 'B') && AllDigits(s[2..], 2)))
  }

  /** `!isNaN(s)`: `Number(s)` is a number. The string is trimmed first, and an
      empty (or blank) string converts to 0. */
  predicate LooksNumeric(s: string) {
    var t := Trim(s);
    t == [] || IsNonDecimalInteger(t)
    || (if t[0] == '+' || t[0] == '-' then IsUnsignedDecimal(t[1..]) else IsUnsignedDecimal(t))
  }

  /** A TheMealDB id such as "52772" (a run of decimal digits) looks numeric. */
  lemma DigitStringLooksNumeric(s: string)
    requires AllDigits(s, 10)
    ensures LooksNumeric(s)
  {
    assert TrimStart(s) == s;
    assert TrimEnd(s) == s;
    assert LeadingDigits(s) == |s|;
  }

  /** An id that starts with a letter other than `I` (the start of
      `Infinity`) does not look numeric, so such ids go straight to the local
      store. */
  lemma LeadingLetterIsNotNumeric(s: string)
    requires s != [] && s[0] != 'I' && ('a' <= s[0] <= 'z' || 'A' <= s[0] <= 'Z')
    ensures !LooksNumeric(s)
  {
    assert TrimStart(s) == s;
    var t := TrimEnd(s);
    assert t != [] && t[0] == s[0];
    assert LeadingDigits(t) == 0;
    assert t != "Infinity";
  }

  // ---------------------------------------------------------------------
  // Order of ISO-8601 timestamps

  /** Code-unit-wise string order. `toISOString` always yields the fixed-width
      form `YYYY-MM-DDTHH:mm:ss.sssZ`, on which this order is time order. */
  predicate LexLess(a: string, b: string)
    decreases |a|
  {
    if a == [] then b != []
    else if b == [] then false
    else a[0] < b[0] || (a[0] == b[0] && LexLess(a[1..], b[1..]))
  }

  lemma {:induction false} LexLessTotal(a: string, b: string)
    ensures LexLess(a, b) || a == b || LexLess(b, a)
    ensures !(LexLess(a, b) && LexLess(b, a))
    decreases |a|
  {
    if a != [] && b != [] && a[0] == b[0] {
      LexLessTotal(a[1..], b[1..]);
      if a[1..] == b[1..] {
        assert a == [a[0]] + a[1..] && b == [b[0]] + b[1..];
      }
    }
  }

  lemma {:induction false} LexLessTransitive(a: string, b: string, c: string)
    requires LexLess(a, b) && LexLess(b, c)
    ensures LexLess(a, c)
    decreases |a|
  {
    if a != [] && a[0] == b[0] && b[0] == c[0] {
      LexLessTransitive(a[1..], b[1..], c[1..]);
    }
  }
}
