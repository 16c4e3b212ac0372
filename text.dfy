/**
 * The few string operations of Python's `str` that the core relies on,
 * restricted to ASCII (and the Kelvin sign for `lower`): `isspace`,
 * `strip`, `lower`, `upper` and the
 * substring test `sub in s`. Stripping is stated for either of the two
 * whitespace sets the core meets: that of `str.isspace` and `str.strip`,
 * and the narrower one `int()` skips around a number.
 */
module Text {

  /** Which characters count as whitespace. */
  datatype SpaceSet =
    | StrSpace  // `str.isspace` on ASCII: tab to carriage return, the separators 0x1C-0x1F and space
    | IntSpace  // what `int()` skips around the digits of an ASCII string: tab to carriage return and space

  /** `c` is whitespace in the set `sp`. */
  predicate IsSpace(c: char, sp: SpaceSet)
  {
    c == ' ' || ('\t' <= c <= '\r') || (sp == StrSpace && '\U{1C}' <= c <= '\U{1F}')
  }

  /** Every character of `s` is whitespace in `sp` (true of the empty string). */
  predicate AllSpace(s: string, sp: SpaceSet)
  {
    forall i :: 0 <= i < |s| ==> IsSpace(s[i], sp)
  }

  /** `lstrip`: the longest suffix of `s` that does not start with a space of `sp`. */
  function StripLeading(s: string, sp: SpaceSet): (r: string)
    ensures |r| <= |s| && r == s[|s| - |r|..]
    ensures AllSpace(s[..|s| - |r|], sp)
    ensures r != [] ==> !IsSpace(r[0], sp)
  {
    if s != [] && IsSpace(s[0], sp) then
      var r := StripLeading(s[1..], sp);
      assert s[..|s| - |r|] == [s[0]] + s[1..][..|s| - 1 - |r|];
      r
    else s
  }

  /** `rstrip`: the longest prefix of `s` that does not end with a space of `sp`. */
  function StripTrailing(s: string, sp: SpaceSet): (r: string)
    ensures |r| <= |s| && r == s[..|r|]
    ensures AllSpace(s[|r|..], sp)
    ensures r != [] ==> !IsSpace(r[|r| - 1], sp)
  {
    if s != [] && IsSpace(s[|s| - 1], sp) then
      var r := StripTrailing(s[..|s| - 1], sp);
      assert s[|r|..] == s[..|s| - 1][|r|..] + [s[|s| - 1]];
      r
    else s
  }

  /** `s[start..start + |r|]` is `r` and everything around it is space. */
  predicate TrimmedAt(s: string, r: string, start: int, sp: SpaceSet)
  {
    0 <= start <= |s| - |r| && r == s[start..start + |r|]
    && AllSpace(s[..start], sp) && AllSpace(s[start + |r|..], sp)
  }

  /**
   * `s` without its leading and trailing spaces of `sp`: with `StrSpace` this
   * is `str.strip()`, with `IntSpace` what `int()` drops around a number. The result
   * is a slice of `s` with only space around it; it neither starts nor ends
   * with a space, it is empty exactly when `s` is all space, and a string
   * that neither starts nor ends with a space is left as it is.
   */
  function Strip(s: string, sp: SpaceSet): (r: string)
    ensures exists start :: TrimmedAt(s, r, start, sp)
    ensures r != [] ==> !IsSpace(r[0], sp) && !IsSpace(r[|r| - 1], sp)
    ensures r == [] <==> AllSpace(s, sp)
    ensures s != [] && !IsSpace(s[0], sp) && !IsSpace(s[|s| - 1], sp) ==> r == s
  {
    var left := StripLeading(s, sp);
    var r := StripTrailing(left, sp);
    StripBothEnds(s, left, r, sp);
    r
  }

  /**
   * What stripping one end and then the other leaves: the middle slice,
   * with space around it and none at its ends; nothing exactly when all is
   * space; and the whole string when neither end is space.
   */
  lemma StripBothEnds(s: string, left: string, r: string, sp: SpaceSet)
    requires |left| <= |s| && left == s[|s| - |left|..] && AllSpace(s[..|s| - |left|], sp)
    requires left != [] ==> !IsSpace(left[0], sp)
    requires |r| <= |left| && r == left[..|r|] && AllSpace(left[|r|..], sp)
    requires r != [] ==> !IsSpace(r[|r| - 1], sp)
    ensures TrimmedAt(s, r, |s| - |left|, sp)
    ensures r != [] ==> !IsSpace(r[0], sp) && !IsSpace(r[|r| - 1], sp)
    ensures r == [] <==> AllSpace(s, sp)
    ensures s != [] && !IsSpace(s[0], sp) && !IsSpace(s[|s| - 1], sp) ==> r == s
  {
    var start := |s| - |left|;
    forall i | 0 <= i < |r|
      ensures r[i] == s[start + i]
    {
      assert r[i] == left[i];
    }
    assert left[|r|..] == s[start + |r|..];
    if r == [] {
      assert s == s[..start];
    } else {
      assert r[0] == left[0];
    }
    if s != [] && !IsSpace(s[0], sp) && !IsSpace(s[|s| - 1], sp) {
      assert left == s;
    }
  }

  /** A character that is not space lies inside the trimmed slice. */
  lemma TrimmedKeepsVisible(s: string, r: string, start: int, i: int, sp: SpaceSet)
    requires TrimmedAt(s, r, start, sp)
    requires 0 <= i < |s| && !IsSpace(s[i], sp)
    ensures start <= i < start + |r|
  {
  }

  /**
   * `str.lower()` on one character: ASCII capitals, and the Kelvin sign
   * U+212A, whose lower case is the ASCII `k`. Every other character is
   * kept, so the result is ASCII exactly when Python's would be.
   */
  function LowerChar(c: char): char
  {
    if 'A' <= c <= 'Z' then (c as int + 32) as char
    else if c == '\U{212A}' then 'k'
    else c
  }

  function UpperChar(c: char): char
  {
    if 'a' <= c <= 'z' then (c as int - 32) as char else c
  }

  /** `str.lower()`, character by character. */
  function Lower(s: string): string
  {
    seq(|s|, i requires 0 <= i < |s| => LowerChar(s[i]))
  }

  /** `str.upper()` on ASCII letters. */
  function Upper(s: string): string
  {
    seq(|s|, i requires 0 <= i < |s| => UpperChar(s[i]))
  }

  /** Python's `sub in s`. */
  function Contains(s: string, sub: string): bool
  {
    |sub| <= |s| && (s[..|sub|] == sub || Contains(s[1..], sub))
  }

  /** `sub` occurs in `s` starting at position `i`. */
  predicate OccursAt(s: string, sub: string, i: int)
  {
    0 <= i <= |s| - |sub| && s[i..i + |sub|] == sub
  }

  /** `sub in s` holds exactly when `sub` occurs in `s` at some position. */
  lemma {:induction false} ContainsAt(s: string, sub: string)
    ensures Contains(s, sub) <==> exists i :: OccursAt(s, sub, i)
  {
    if |sub| <= |s| {
      if s[..|sub|] == sub {
        assert OccursAt(s, sub, 0);
      } else {
        ContainsAt(s[1..], sub);
        if Contains(s[1..], sub) {
          var i :| OccursAt(s[1..], sub, i);
          assert s[i + 1..i + 1 + |sub|] == s[1..][i..i + |sub|];
          assert OccursAt(s, sub, i + 1);
        } else {
          forall i | 0 <= i <= |s| - |sub|
            ensures !OccursAt(s, sub, i)
          {
            if i == 0 {
              assert s[..|sub|] == s[0..0 + |sub|];
            } else {
              var tail := s[1..];
              assert !OccursAt(tail, sub, i - 1);
              assert tail[i - 1..i - 1 + |sub|] != sub;
              var here, there := s[i..i + |sub|], tail[i - 1..i - 1 + |sub|];
              forall k | 0 <= k < |sub|
                ensures here[k] == there[k]
              {
                assert here[k] == s[i + k] == tail[i - 1 + k] == there[k];
              }
              assert here == there;
            }
          }
        }
      }
    }
  }

  /** A string lacking one of the characters of `sub` does not contain `sub`. */
  lemma MissingCharNotContained(s: string, sub: string, c: char)
    requires c in sub && c !in s
    ensures !Contains(s, sub)
  {
    ContainsAt(s, sub);
    var k :| 0 <= k < |sub| && sub[k] == c;
    forall i | 0 <= i <= |s| - |sub|
      ensures !OccursAt(s, sub, i)
    {
      assert s[i..i + |sub|][k] == s[i + k];
      assert s[i + k] != c;
    }
  }
}
