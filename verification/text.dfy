/**
 * The Python `str` operations the backend relies on: `strip`, `lower`,
 * `upper`, `replace`, `startswith`, `endswith` and the substring test `in`.
 * Case mapping covers ASCII letters only; whitespace is Python's own set.
 */
module Text {

  /** Python's `str.isspace()` for one character: what `strip()` removes. */
  predicate IsSpace(c: char) {
    var n := c as int;
    (9 <= n <= 13) || (28 <= n <= 32) || n == 0x85 || n == 0xA0 || n == 0x1680
    || (0x2000 <= n <= 0x200A) || n == 0x2028 || n == 0x2029 || n == 0x202F
    || n == 0x205F || n == 0x3000
  }

  /** True when every character is whitespace (the empty string included). */
  predicate IsBlank(s: string) {
    forall i :: 0 <= i < |s| ==> IsSpace(s[i])
  }

  /**
   * `s.strip()`: drops whitespace from the front, then from the back, until
   * neither end is whitespace.
   */
  function Strip(s: string): (r: string)
    ensures |r| <= |s|
    ensures r != [] ==> !IsSpace(r[0]) && !IsSpace(r[|r| - 1])
  {
    if s != [] && IsSpace(s[0]) then Strip(s[1..])
    else if s != [] && IsSpace(s[|s| - 1]) then Strip(s[..|s| - 1])
    else s
  }

  /** `s.strip()` is a slice of `s`. */
  lemma {:induction false} StripSlice(s: string)
    ensures exists i :: OccursAt(s, Strip(s), i)
    decreases |s|
  {
    var r := Strip(s);
    if s != [] && IsSpace(s[0]) {
      assert r == Strip(s[1..]);
      StripSlice(s[1..]);
      var i :| OccursAt(s[1..], r, i);
      assert 0 <= i && i + 1 + |r| <= |s|;
      assert s[i + 1..i + 1 + |r|] == s[1..][i..i + |r|] == r;
      assert OccursAt(s, r, i + 1);
    } else if s != [] && IsSpace(s[|s| - 1]) {
      assert r == Strip(s[..|s| - 1]);
      StripSlice(s[..|s| - 1]);
      var i :| OccursAt(s[..|s| - 1], r, i);
      assert 0 <= i && i + |r| <= |s| - 1;
      assert s[i..i + |r|] == s[..|s| - 1][i..i + |r|] == r;
      assert OccursAt(s, r, i);
    } else {
      assert r == s;
      assert OccursAt(s, r, 0);
    }
  }

  /** `s.strip()` is empty exactly when `s` is all whitespace. */
  lemma {:induction false} StripEmpty(s: string)
    ensures Strip(s) == [] <==> IsBlank(s)
    decreases |s|
  {
    if s != [] && IsSpace(s[0]) {
      assert Strip(s) == Strip(s[1..]);
      StripEmpty(s[1..]);
      assert IsBlank(s) <==> IsBlank(s[1..]) by {
        assert forall k :: 0 < k < |s| ==> s[k] == s[1..][k - 1];
      }
    } else if s != [] && IsSpace(s[|s| - 1]) {
      assert Strip(s) == Strip(s[..|s| - 1]);
      StripEmpty(s[..|s| - 1]);
      assert IsBlank(s) <==> IsBlank(s[..|s| - 1]) by {
        assert forall k :: 0 <= k < |s| - 1 ==> s[k] == s[..|s| - 1][k];
      }
    } else {
      assert Strip(s) == s;
      assert s != [] ==> !IsSpace(s[0]);
    }
  }

  /** A string with no whitespace at either end is its own `strip()`. */
  lemma StripNoop(s: string)
    requires s == [] || (!IsSpace(s[0]) && !IsSpace(s[|s| - 1]))
    ensures Strip(s) == s
  {
  }

  /** Stripping twice is stripping once. */
  lemma StripIdempotent(s: string)
    ensures Strip(Strip(s)) == Strip(s)
  {
    StripNoop(Strip(s));
  }

  /** Every character of `Strip(s)` occurs in `s`. */
  lemma StripChars(s: string, k: nat)
    requires k < |Strip(s)|
    ensures exists j :: 0 <= j < |s| && Strip(s)[k] == s[j]
  {
    StripSlice(s);
    var i :| OccursAt(s, Strip(s), i);
    assert Strip(s)[k] == s[i + k];
  }

  function LowerChar(c: char): char {
    if 'A' <= c <= 'Z' then (c as int + 32) as char else c
  }

  function UpperChar(c: char): char {
    if 'a' <= c <= 'z' then (c as int - 32) as char else c
  }

  /** `s.lower()` (ASCII letters). */
  function Lower(s: string): string {
    seq(|s|, i requires 0 <= i < |s| => LowerChar(s[i]))
  }

  /** `s.upper()` (ASCII letters). */
  function Upper(s: string): string {
    seq(|s|, i requires 0 <= i < |s| => UpperChar(s[i]))
  }

  /** True when `lower()` leaves the string as it is. */
  predicate IsLower(s: string) {
    forall i :: 0 <= i < |s| ==> LowerChar(s[i]) == s[i]
  }

  /** True when `upper()` leaves the string as it is. */
  predicate IsUpper(s: string) {
    forall i :: 0 <= i < |s| ==> UpperChar(s[i]) == s[i]
  }

  /** Case mapping never touches whitespace, so it commutes with `strip()`. */
  lemma CaseKeepsSpace(c: char)
    ensures IsSpace(LowerChar(c)) <==> IsSpace(c)
    ensures IsSpace(UpperChar(c)) <==> IsSpace(c)
  {
  }

  /** `s.startswith(prefix)`. */
  predicate StartsWith(s: string, prefix: string) {
    |prefix| <= |s| && s[..|prefix|] == prefix
  }

  /** `s.endswith(suffix)`. */
  predicate EndsWith(s: string, suffix: string) {
    |suffix| <= |s| && s[|s| - |suffix|..] == suffix
  }

  /** Python's `part in s`. */
  predicate Contains(s: string, part: string)
    decreases |s|
  {
    StartsWith(s, part) || (s != [] && Contains(s[1..], part))
  }

  /** `part` occurs in `s` starting at offset `i`. */
  predicate OccursAt(s: string, part: string, i: int) {
    0 <= i && i + |part| <= |s| && s[i..i + |part|] == part
  }

  /** `part in s` holds exactly when `part` is found at some offset of `s`. */
  lemma {:induction false} ContainsAt(s: string, part: string)
    ensures Contains(s, part) <==> exists i :: OccursAt(s, part, i)
  {
    if s != [] {
      ContainsAt(s[1..], part);
      if StartsWith(s, part) {
        assert OccursAt(s, part, 0);
      } else if Contains(s[1..], part) {
        var i :| OccursAt(s[1..], part, i);
        assert 0 <= i && i + 1 + |part| <= |s|;
        assert s[i + 1..i + 1 + |part|] == s[1..][i..i + |part|] == part;
        assert OccursAt(s, part, i + 1);
      }
      if exists i :: OccursAt(s, part, i) {
        var i :| OccursAt(s, part, i);
        if i > 0 {
          assert OccursAt(s[1..], part, i - 1);
        } else {
          assert StartsWith(s, part);
        }
      }
    } else if Contains(s, part) {
      assert OccursAt(s, part, 0);
    }
  }

  /** The empty string is in every string; every string is in itself. */
  lemma ContainsTrivial(s: string)
    ensures Contains(s, "")
    ensures Contains(s, s)
  {
    assert StartsWith(s, "");
    assert StartsWith(s, s);
  }

  /**
   * `s.replace(pat, rep)`: every non-overlapping occurrence of `pat`, found
   * scanning from the left, is replaced by `rep`.
   */
  function ReplaceAll(s: string, pat: string, rep: string): string
    requires pat != []
    decreases |s|
  {
    if |s| < |pat| then s
    else if s[..|pat|] == pat then rep + ReplaceAll(s[|pat|..], pat, rep)
    else [s[0]] + ReplaceAll(s[1..], pat, rep)
  }

  /** Replacing one character by another works position by position. */
  lemma {:induction false} ReplaceCharAt(s: string, a: char, b: char)
    ensures |ReplaceAll(s, [a], [b])| == |s|
    ensures forall i :: 0 <= i < |s| ==> ReplaceAll(s, [a], [b])[i] == if s[i] == a then b else s[i]
  {
    if s != [] {
      ReplaceCharAt(s[1..], a, b);
      var r := ReplaceAll(s, [a], [b]);
      var t := ReplaceAll(s[1..], [a], [b]);
      if s[..1] == [a] {
        assert r == [b] + t;
      } else {
        assert r == [s[0]] + t;
      }
      forall i | 0 < i < |s| ensures r[i] == if s[i] == a then b else s[i] {
        assert r[i] == t[i - 1] && s[1..][i - 1] == s[i];
      }
    }
  }

  /** Removing a pattern never lengthens a string, and leaves one without it alone. */
  lemma {:induction false} RemoveNeverGrows(s: string, pat: string)
    requires pat != []
    ensures |ReplaceAll(s, pat, "")| <= |s|
    ensures !Contains(s, pat) ==> ReplaceAll(s, pat, "") == s
    decreases |s|
  {
    if |s| < |pat| {
    } else if s[..|pat|] == pat {
      RemoveNeverGrows(s[|pat|..], pat);
    } else {
      RemoveNeverGrows(s[1..], pat);
    }
  }

  /**
   * Removing a pattern that occurs anywhere in `s`, even in the middle of a
   * longer word, shortens `s`.
   */
  lemma {:induction false} RemoveShortens(s: string, pat: string)
    requires pat != [] && Contains(s, pat)
    ensures |ReplaceAll(s, pat, "")| < |s|
    decreases |s|
  {
    if |s| < |pat| {
      assert !StartsWith(s, pat);
      NotContainedWhenShorter(s[1..], pat);
    } else if s[..|pat|] == pat {
      RemoveNeverGrows(s[|pat|..], pat);
    } else {
      RemoveShortens(s[1..], pat);
    }
  }

  lemma {:induction false} NotContainedWhenShorter(s: string, part: string)
    requires |s| < |part|
    ensures !Contains(s, part)
    decreases |s|
  {
    if s != [] {
      NotContainedWhenShorter(s[1..], part);
    }
  }
}
