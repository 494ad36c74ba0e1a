/**
C strings. A NUL-terminated `char*` that is only read is the sequence of the
characters before its terminator; a buffer that is written is an array, and
CStr gives the string it holds. Source: drivers/keyboard.c and the comparison
loops of fs/filesystem.c.
*/
module CStrings {
  type cstring = s: string | '\0' !in s witness ""

  /** The first position of c in s at or after i, or |s|. */
  function IndexFrom(s: string, c: char, i: nat): (k: nat)
    requires i <= |s|
    ensures i <= k <= |s| && (forall m :: i <= m < k ==> s[m] != c) && (k < |s| ==> s[k] == c)
    decreases |s| - i
  {
    if i == |s| || s[i] == c then i else IndexFrom(s, c, i + 1)
  }

  /** The longest prefix of s that has no c in it. */
  function UpTo(s: string, c: char): (p: string)
    ensures |p| <= |s| && p == s[..|p|] && c !in p
    ensures |p| < |s| ==> s[|p|] == c
  {
    s[..IndexFrom(s, c, 0)]
  }

  /** UpTo is the only prefix with its two properties. */
  lemma UpToUnique(s: string, c: char, n: nat)
    requires n <= |s| && c !in s[..n]
    requires n < |s| ==> s[n] == c
    ensures UpTo(s, c) == s[..n]
  {
    assert |UpTo(s, c)| == n;
  }

  /** The last position of c in s before n, or -1. */
  function LastBefore(s: string, c: char, n: nat): (i: int)
    requires n <= |s|
    ensures -1 <= i < n && (0 <= i ==> s[i] == c) && forall k :: i < k < n ==> s[k] != c
  {
    if n == 0 then -1 else if s[n - 1] == c then n - 1 else LastBefore(s, c, n - 1)
  }

  /** The last position of c in s, or -1. */
  function LastIndex(s: string, c: char): (i: int)
    ensures -1 <= i < |s|
    ensures 0 <= i ==> s[i] == c
    ensures forall k :: i < k < |s| ==> s[k] != c
  {
    LastBefore(s, c, |s|)
  }

  lemma LastIndexUnique(s: string, c: char, i: int)
    requires -1 <= i < |s| && (0 <= i ==> s[i] == c)
    requires forall k :: i < k < |s| ==> s[k] != c
    ensures LastIndex(s, c) == i
  {
    var j := LastIndex(s, c);
    assert j <= i <= j;
  }

  function UpperChar(c: char): char {
    if 'a' <= c <= 'z' then (c as int - 32) as char else c
  }

  function LowerChar(c: char): char {
    if 'A' <= c <= 'Z' then (c as int + 32) as char else c
  }

  /** Equality up to the case of ASCII letters. */
  predicate Same(s: string, t: string) {
    |s| == |t| && forall k :: 0 <= k < |s| ==> UpperChar(s[k]) == UpperChar(t[k])
  }

  lemma SameEquivalence(s: string, t: string, u: string)
    ensures Same(s, s) && (Same(s, t) ==> Same(t, s)) && (Same(s, t) && Same(t, u) ==> Same(s, u))
  {
  }

  /** A string the same as one that has a caseless character has it in the same places. */
  lemma SameKeeps(s: string, t: string, k: nat, c: char)
    requires Same(s, t) && k < |s| && s[k] == c
    requires !('a' <= c <= 'z') && !('A' <= c <= 'Z')
    ensures k < |t| && t[k] == c
  {
    assert UpperChar(s[k]) == UpperChar(t[k]);
  }

  /** A string with a slash is not the same as one without. */
  lemma SlashDiffers(s: string, t: string)
    requires '/' in s && '/' !in t
    ensures !Same(s, t)
  {
    var k :| 0 <= k < |s| && s[k] == '/';
    if Same(s, t) { SameKeeps(s, t, k, '/'); }
  }

  /** s ends in the suffix, ignoring case. */
  predicate HasSuffix(s: string, suffix: string) {
    |suffix| <= |s| && Same(s[|s| - |suffix|..], suffix)
  }

  function CStr(a: array<char>): (s: string)
    reads a
  {
    UpTo(a[..], '\0')
  }

  /** The buffer holds a terminator. */
  predicate Terminated(a: array<char>)
    reads a
  {
    |CStr(a)| < a.Length
  }

  lemma CStrIs(a: array<char>, s: cstring)
    requires |s| < a.Length && a[..|s|] == s && a[|s|] == '\0'
    ensures CStr(a) == s && Terminated(a)
  {
    assert a[..][..|s|] == s;
    UpToUnique(a[..], '\0', |s|);
  }

  method StrLength(a: array<char>) returns (len: nat)
    requires Terminated(a)
    ensures len == |CStr(a)|
  {
    len := 0;
    while a[len] != '\0'
      invariant len <= |CStr(a)|
      decreases |CStr(a)| - len
    {
      assert a[len] != '\0' ==> len != |CStr(a)|;
      len := len + 1;
    }
  }

  method StrCopy(dest: array<char>, src: cstring)
    requires |src| < dest.Length
    modifies dest
    ensures CStr(dest) == src && Terminated(dest)
  {
    var i := 0;
    while i < |src|
      invariant i <= |src| && dest[..i] == src[..i]
    {
      dest[i] := src[i];
      i := i + 1;
    }
    dest[i] := '\0';
    CStrIs(dest, src);
  }

  /** str_equal_nocase decides Same. Position |s| stands for the terminator. */
  method StrEqualNocase(s1: cstring, s2: cstring) returns (equal: bool)
    ensures equal == Same(s1, s2)
  {
    var i := 0;
    while i < |s1| && i < |s2|
      invariant i <= |s1| && i <= |s2|
      invariant forall k :: 0 <= k < i ==> UpperChar(s1[k]) == UpperChar(s2[k])
    {
      var c1, c2 := s1[i], s2[i];
      if 'a' <= c1 <= 'z' { c1 := (c1 as int - 32) as char; }
      if 'a' <= c2 <= 'z' { c2 := (c2 as int - 32) as char; }
      if c1 != c2 {
        return false;
      }
      i := i + 1;
    }
    equal := i == |s1| && i == |s2|;
  }

  /** has_extension compares in lower case; that decides the same suffix relation. */
  method HasExtension(filename: cstring, extension: cstring) returns (has: bool)
    ensures has == HasSuffix(filename, extension)
  {
    if |filename| < |extension| {
      return false;
    }
    var tail := filename[|filename| - |extension|..];
    var i := 0;
    while i < |extension|
      invariant i <= |extension|
      invariant forall k :: 0 <= k < i ==> UpperChar(tail[k]) == UpperChar(extension[k])
    {
      var c1, c2 := LowerChar(tail[i]), LowerChar(extension[i]);
      if c1 != c2 {
        return false;
      }
      i := i + 1;
    }
    has := true;
  }
}
