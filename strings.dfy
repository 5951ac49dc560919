/** The few Python `str` operations the text service relies on:
    `str.isspace` on one character, `str.strip()`, `str.lower()` and the
    substring test `needle in haystack`, restricted to ASCII. */
module Strings {

  /** Python's whitespace characters below 128: tab, line feed, vertical tab,
      form feed, carriage return, the four information separators 0x1C-0x1F
      and the space. */
  predicate IsSpace(c: char) {
    c == ' ' || ('\t' <= c <= '\r') || ('\U{1C}' <= c <= '\U{1F}')
  }

  /** Every character of `s` is whitespace (true of the empty string). */
  predicate Blank(s: string) {
    forall i :: 0 <= i < |s| ==> IsSpace(s[i])
  }

  /** `s.lstrip()`: drop leading whitespace. */
  function TrimStart(s: string): string {
    if s != [] && IsSpace(s[0]) then TrimStart(s[1..]) else s
  }

  /** `s.rstrip()`: drop trailing whitespace. */
  function TrimEnd(s: string): string {
    if s != [] && IsSpace(s[|s| - 1]) then TrimEnd(s[..|s| - 1]) else s
  }

  /** `s.strip()`: drop whitespace at both ends. */
  function Strip(s: string): string {
    TrimEnd(TrimStart(s))
  }

  /** `lstrip()` keeps a suffix, removes only whitespace, and stops at the
      first character that is not whitespace. */
  lemma {:induction false} TrimStartSpec(s: string)
    ensures var r := TrimStart(s);
      && |r| <= |s| && r == s[|s| - |r|..]
      && Blank(s[..|s| - |r|])
      && (r == [] || !IsSpace(r[0]))
  {
    if s != [] && IsSpace(s[0]) {
      TrimStartSpec(s[1..]);
      var r := TrimStart(s[1..]);
      assert s[..|s| - |r|] == [s[0]] + s[1..][..|s| - 1 - |r|];
    }
  }

  /** `rstrip()` keeps a prefix, removes only whitespace, and stops at the
      last character that is not whitespace. */
  lemma {:induction false} TrimEndSpec(s: string)
    ensures var r := TrimEnd(s);
      && |r| <= |s| && r == s[..|r|]
      && Blank(s[|r|..])
      && (r == [] || !IsSpace(r[|r| - 1]))
  {
    if s != [] && IsSpace(s[|s| - 1]) {
      TrimEndSpec(s[..|s| - 1]);
      var r := TrimEnd(s[..|s| - 1]);
      assert s[|r|..] == s[..|s| - 1][|r|..] + [s[|s| - 1]];
    }
  }

  /** `s.strip()` is empty exactly when `s` holds nothing but whitespace;
      otherwise it neither starts nor ends with whitespace. */
  lemma StripEmptyIffBlank(s: string)
    ensures Strip(s) == [] <==> Blank(s)
    ensures Strip(s) != [] ==> !IsSpace(Strip(s)[0]) && !IsSpace(Strip(s)[|Strip(s)| - 1])
  {
    var t := TrimStart(s);
    TrimStartSpec(s);
    TrimEndSpec(t);
    if Strip(s) == [] {
      assert t[0..] == t;
      assert t == [];
      assert s[..|s|] == s;
    }
    if Blank(s) {
      BlankTrimsAway(s);
    }
    if Strip(s) != [] {
      var r := Strip(s);
      assert r[0] == t[0];
    }
  }

  /** A string of whitespace loses every character to `lstrip()`. */
  lemma {:induction false} BlankTrimsAway(s: string)
    requires Blank(s)
    ensures TrimStart(s) == []
  {
    if s != [] {
      assert forall i :: 0 <= i < |s| - 1 ==> s[1..][i] == s[i + 1];
      BlankTrimsAway(s[1..]);
    }
  }

  /** Python's `str.lower()` on one character, for ASCII letters. */
  function LowerChar(c: char): char {
    if 'A' <= c <= 'Z' then (c as int + 32) as char else c
  }

  /** Python's `str.lower()`: the string with every character lower-cased. */
  function Lower(s: string): string {
    seq(|s|, i requires 0 <= i < |s| => LowerChar(s[i]))
  }

  /** Lower-casing leaves nothing to lower-case: `s.lower().lower() == s.lower()`. */
  lemma LowerIdempotent(s: string)
    ensures Lower(Lower(s)) == Lower(s)
  {
  }

  /** Lower-casing never turns whitespace into text or text into whitespace. */
  lemma LowerPreservesBlank(s: string)
    ensures Blank(Lower(s)) <==> Blank(s)
  {
    forall i | 0 <= i < |s| ensures IsSpace(Lower(s)[i]) <==> IsSpace(s[i]) {
      assert Lower(s)[i] == LowerChar(s[i]);
    }
  }

  /** Python's `needle in haystack` on strings: `needle` is a prefix of
      `haystack` or of one of its suffixes (the empty needle is in every
      string). */
  predicate IsSubstring(needle: string, haystack: string)
    decreases |haystack|
  {
    |needle| <= |haystack|
    && (haystack[..|needle|] == needle || IsSubstring(needle, haystack[1..]))
  }

  /** `needle` starts at index `i` of `haystack`. */
  predicate OccursAt(needle: string, haystack: string, i: int) {
    0 <= i <= |haystack| - |needle| && haystack[i..i + |needle|] == needle
  }

  /** The substring test holds exactly when some slice of `haystack` equals
      `needle`. */
  lemma IsSubstringSpec(needle: string, haystack: string)
    ensures IsSubstring(needle, haystack) <==> exists i :: OccursAt(needle, haystack, i)
  {
    if IsSubstring(needle, haystack) {
      var i := SubstringWitness(needle, haystack);
    }
    if i :| OccursAt(needle, haystack, i) {
      OccursAtIsSubstring(needle, haystack, i);
    }
  }

  /** Where the substring test holds, the needle occurs at some index. */
  lemma {:induction false} SubstringWitness(needle: string, haystack: string) returns (i: int)
    requires IsSubstring(needle, haystack)
    ensures OccursAt(needle, haystack, i)
    decreases |haystack|
  {
    if haystack[..|needle|] == needle {
      i := 0;
    } else {
      var tail := haystack[1..];
      var j := SubstringWitness(needle, tail);
      assert haystack[j + 1..j + 1 + |needle|] == tail[j..j + |needle|];
      i := j + 1;
    }
  }

  /** A needle occurring at some index passes the substring test. */
  lemma {:induction false} OccursAtIsSubstring(needle: string, haystack: string, i: int)
    requires OccursAt(needle, haystack, i)
    ensures IsSubstring(needle, haystack)
    decreases i
  {
    if i > 0 {
      var tail := haystack[1..];
      assert tail[i - 1..i - 1 + |needle|] == haystack[i..i + |needle|];
      OccursAtIsSubstring(needle, tail, i - 1);
    }
  }

  /** A needle whose first character occurs nowhere in `haystack` is not in
      it. */
  lemma {:induction false} FirstCharAbsent(needle: string, haystack: string)
    requires needle != [] && forall i :: 0 <= i < |haystack| ==> haystack[i] != needle[0]
    ensures !IsSubstring(needle, haystack)
    decreases |haystack|
  {
    if |needle| <= |haystack| {
      assert haystack[..|needle|][0] == haystack[0];
      FirstCharAbsent(needle, haystack[1..]);
    }
  }
}
