/**
 * The parts of Python's `str` behaviour that the scripts rely on: the
 * whitespace class shared by `str.strip()` and the regular-expression class
 * `\s`, ASCII digits, ASCII case folding, `strip()` and the `in` operator.
 */
module Text {

  /**
   * Python's `str.isspace()` (the characters `strip()` removes and `\s`
   * matches in a `str` pattern): U+0009..U+000D, U+001C..U+001F, U+0020,
   * U+0085, U+00A0, U+1680, U+2000..U+200A, U+2028, U+2029, U+202F, U+205F
   * and U+3000.
   */
  predicate IsSpace(c: char) {
    var n := c as int;
    (0x09 <= n <= 0x0D) || (0x1C <= n <= 0x1F) || n == 0x20 || n == 0x85 || n == 0xA0
    || n == 0x1680 || (0x2000 <= n <= 0x200A) || n == 0x2028 || n == 0x2029
    || n == 0x202F || n == 0x205F || n == 0x3000
  }

  /** `\d`, restricted to the ASCII digits. */
  predicate IsDigit(c: char) {
    '0' <= c <= '9'
  }

  /** The value of an ASCII digit. */
  function DigitValue(c: char): (d: nat)
    requires IsDigit(c)
    ensures d < 10
  {
    c as int - '0' as int
  }

  /** Lower-case mapping used for `re.IGNORECASE`, restricted to ASCII letters. */
  function LowerAscii(c: char): (r: char)
    ensures 'A' <= c <= 'Z' ==> 'a' <= r <= 'z' && r as int - c as int == 32
    ensures !('A' <= c <= 'Z') ==> r == c
  {
    if 'A' <= c <= 'Z' then (c as int + 32) as char else c
  }

  predicate AllSpace(s: string) {
    forall k :: 0 <= k < |s| ==> IsSpace(s[k])
  }

  /** Number of whitespace characters at the front of `s`. */
  function LeadingSpace(s: string): (i: nat)
    ensures i <= |s|
    ensures forall k :: 0 <= k < i ==> IsSpace(s[k])
    ensures i == |s| || !IsSpace(s[i])
  {
    if s != [] && IsSpace(s[0]) then 1 + LeadingSpace(s[1..]) else 0
  }

  /** Index just past the last non-whitespace character of `s`. */
  function TrailingStart(s: string): (j: nat)
    ensures j <= |s|
    ensures forall k :: j <= k < |s| ==> IsSpace(s[k])
    ensures j == 0 || !IsSpace(s[j - 1])
  {
    if s != [] && IsSpace(s[|s| - 1]) then TrailingStart(s[..|s| - 1]) else |s|
  }

  /**
   * `str.strip()` with no argument: the text between the leading and the
   * trailing whitespace.
   */
  function Strip(s: string): (r: string)
    ensures |r| <= |s|
    ensures r == [] || (!IsSpace(r[0]) && !IsSpace(r[|r| - 1]))
    ensures r == [] <==> AllSpace(s)
    ensures exists i :: 0 <= i <= |s| - |r| && s[i..i + |r|] == r
                        && AllSpace(s[..i]) && AllSpace(s[i + |r|..])
  {
    var i := LeadingSpace(s);
    var j := TrailingStart(s[i..]);
    StrippedShape(s, i, j);
    s[i..i + j]
  }

  /** The postcondition of `Strip`, for the text it keeps. */
  lemma StrippedShape(s: string, i: nat, j: nat)
    requires i == LeadingSpace(s) && j == TrailingStart(s[i..])
    ensures i + j <= |s|
    ensures var r := s[i..i + j];
            && (r == [] || (!IsSpace(r[0]) && !IsSpace(r[|r| - 1])))
            && (r == [] <==> AllSpace(s))
            && AllSpace(s[..i]) && AllSpace(s[i + |r|..])
  {
    StrippedEnds(s, i, j);
    StrippedEmpty(s, i, j);
    StrippedWithin(s, i, j);
  }

  /** The kept text starts and ends with a non-whitespace character. */
  lemma StrippedEnds(s: string, i: nat, j: nat)
    requires i == LeadingSpace(s) && j == TrailingStart(s[i..])
    ensures i + j <= |s|
    ensures j == 0 || (!IsSpace(s[i]) && !IsSpace(s[i + j - 1]))
  {
    if j > 0 {
      assert s[i..][j - 1] == s[i + j - 1];
    }
  }

  /** Nothing is kept exactly when the text is all whitespace. */
  lemma StrippedEmpty(s: string, i: nat, j: nat)
    requires i == LeadingSpace(s) && j == TrailingStart(s[i..])
    ensures j == 0 <==> AllSpace(s)
  {
    if i < |s| {
      assert s[i..][0] == s[i];
    }
  }

  /** The kept text lies between two runs of whitespace. */
  lemma StrippedWithin(s: string, i: nat, j: nat)
    requires i == LeadingSpace(s) && j == TrailingStart(s[i..])
    ensures i + j <= |s|
    ensures AllSpace(s[..i]) && AllSpace(s[i + j..])
  {
    var head, rest, tail := s[..i], s[i..], s[i + j..];
    forall k | 0 <= k < |head| ensures IsSpace(head[k]) {
      assert head[k] == s[k];
    }
    forall k | 0 <= k < |tail| ensures IsSpace(tail[k]) {
      assert tail[k] == rest[j + k];
    }
  }

  /** Strip of a string with no whitespace at either end is the string itself. */
  lemma StripStripped(s: string)
    requires s == [] || (!IsSpace(s[0]) && !IsSpace(s[|s| - 1]))
    ensures Strip(s) == s
  {
    if s != [] {
      assert LeadingSpace(s) == 0;
      assert s[0..] == s;
    }
  }

  /** `strip()` is idempotent. */
  lemma StripIdempotent(s: string)
    ensures Strip(Strip(s)) == Strip(s)
  {
    StripStripped(Strip(s));
  }

  lemma {:induction false} LeadingSpaceOf(before: string, rest: string)
    requires AllSpace(before)
    requires rest != [] && !IsSpace(rest[0])
    ensures LeadingSpace(before + rest) == |before|
    decreases |before|
  {
    if before == [] {
      assert before + rest == rest;
    } else {
      assert (before + rest)[1..] == before[1..] + rest;
      LeadingSpaceOf(before[1..], rest);
    }
  }

  lemma {:induction false} TrailingStartOf(rest: string, after: string)
    requires AllSpace(after)
    requires rest != [] && !IsSpace(rest[|rest| - 1])
    ensures TrailingStart(rest + after) == |rest|
    decreases |after|
  {
    if after == [] {
      assert rest + after == rest;
    } else {
      var x := rest + after;
      assert x[..|x| - 1] == rest + after[..|after| - 1];
      TrailingStartOf(rest, after[..|after| - 1]);
    }
  }

  /**
   * `strip()` removes exactly the surrounding whitespace: text with no
   * whitespace at either end, padded on both sides by whitespace, strips
   * back to itself.
   */
  lemma StripSurrounded(before: string, m: string, after: string)
    requires AllSpace(before) && AllSpace(after)
    requires m != [] && !IsSpace(m[0]) && !IsSpace(m[|m| - 1])
    ensures Strip(before + m + after) == m
  {
    var x := before + m + after;
    assert x == before + (m + after);
    LeadingSpaceOf(before, m + after);
    assert x[|before|..] == m + after;
    TrailingStartOf(m, after);
    assert (m + after)[..|m|] == m;
  }

  predicate StartsWith(s: string, prefix: string) {
    |prefix| <= |s| && s[..|prefix|] == prefix
  }

  /** Python's `sub in s` for strings (case-sensitive substring test). */
  predicate Contains(s: string, sub: string)
    decreases |s|
  {
    StartsWith(s, sub) || (s != [] && Contains(s[1..], sub))
  }

  /** `sub` occurs in `s` starting at index `i`. */
  predicate OccursAt(s: string, sub: string, i: int) {
    0 <= i <= |s| - |sub| && s[i..i + |sub|] == sub
  }

  /** `Contains` holds exactly when `sub` occurs at some index of `s`. */
  lemma {:induction false} ContainsAt(s: string, sub: string)
    ensures Contains(s, sub) <==> exists i :: OccursAt(s, sub, i)
    decreases |s|
  {
    if StartsWith(s, sub) {
      assert OccursAt(s, sub, 0);
    }
    if s != [] {
      ContainsAt(s[1..], sub);
      if Contains(s[1..], sub) {
        var i :| OccursAt(s[1..], sub, i);
        assert s[i + 1..i + 1 + |sub|] == s[1..][i..i + |sub|];
        assert OccursAt(s, sub, i + 1);
      }
      if exists i :: OccursAt(s, sub, i) {
        var i :| OccursAt(s, sub, i);
        if i > 0 {
          assert s[1..][i - 1..i - 1 + |sub|] == s[i..i + |sub|];
          assert OccursAt(s[1..], sub, i - 1);
        } else {
          assert StartsWith(s, sub);
        }
      }
    } else {
      if exists i :: OccursAt(s, sub, i) {
        var i :| OccursAt(s, sub, i);
        assert StartsWith(s, sub);
      }
    }
  }
}
