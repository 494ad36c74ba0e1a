/**
The 8.3 name field (DIR_Name, section "FAT Directory Structure" of the Microsoft
FAT specification): eight bytes of base name and three of extension, each padded
with spaces. Source: parse_filename and format_filename of fs/filesystem.c.
*/
module Names {
  import opened CStrings

  type Field = f: cstring | |f| == 11 witness "           "

  function Spaces(n: nat): (s: string)
    ensures |s| == n && forall k :: 0 <= k < n ==> s[k] == ' '
  {
    seq(n, _ => ' ')
  }

  /** s cut or padded to n characters. */
  function Pad(s: cstring, n: nat): (p: cstring)
    ensures |p| == n
    ensures forall k :: 0 <= k < n ==> p[k] == if k < |s| then s[k] else ' '
  {
    if n <= |s| then s[..n] else s + Spaces(n - |s|)
  }

  /** The part of a name before its last dot; all of it when there is none. */
  function Base(n: cstring): cstring {
    if LastIndex(n, '.') == -1 then n else n[..LastIndex(n, '.')]
  }

  /** The part after the last dot. */
  function Extension(n: cstring): cstring {
    if LastIndex(n, '.') == -1 then "" else n[LastIndex(n, '.') + 1..]
  }

  function Parse(n: cstring): Field {
    Pad(Base(n), 8) + Pad(Extension(n), 3)
  }

  /** An extension is printed only when nothing but spaces lies between the base and it. */
  function Format(f: Field): (n: cstring)
    ensures |n| <= 12 && ' ' !in n
  {
    var base := UpTo(f[..8], ' ');
    if (forall k :: |base| <= k < 8 ==> f[k] == ' ') && f[8] != ' ' then
      base + "." + UpTo(f[8..], ' ')
    else
      base
  }

  /** What a name looks like once it has been stored and printed again. */
  function Reprint(n: cstring): cstring {
    Format(Parse(n))
  }

  /** The names that fit the field: no space, base of at most 8, extension of 1 to 3 after a dot. */
  predicate Fits(n: cstring) {
    && ' ' !in n
    && |Base(n)| <= 8
    && (LastIndex(n, '.') == -1 || 1 <= |Extension(n)| <= 3)
  }

  // ---- what the parser and the printer do to each other ----

  /** The printer reads a padded base and a padded extension back. */
  lemma FormatPadded(base: cstring, ext: cstring)
    requires ' ' !in base + ext && |base| <= 8 && |ext| <= 3
    ensures Format(Pad(base, 8) + Pad(ext, 3)) == if ext == "" then base else base + "." + ext
  {
    hide UpTo;
    var f: Field := Pad(base, 8) + Pad(ext, 3);
    assert f[..8] == Pad(base, 8) && f[8..] == Pad(ext, 3);
    assert f[..8][..|base|] == base && f[8..][..|ext|] == ext;
    assert forall k :: 0 <= k < |ext| ==> ext[k] in base + ext;
    assert ' ' !in ext;
    assert forall k :: 0 <= k < |base| ==> base[k] in base + ext;
    UpToUnique(f[..8], ' ', |base|);
    UpToUnique(f[8..], ' ', |ext|);
    assert ext != "" ==> f[8] == ext[0];
  }

  /** The last dot of a name with a dot-free extension is the one that was put there. */
  lemma {:induction false} LastDot(base: string, ext: string)
    requires '.' !in ext
    ensures LastIndex(base + "." + ext, '.') == |base|
  {
    var n := base + "." + ext;
    forall k | |base| < k < |n| ensures n[k] != '.' {
      assert n[k] == ext[k - |base| - 1];
    }
    LastIndexUnique(n, '.', |base|);
  }

  /** A name without dots has no extension and is its own base. */
  lemma NoDot(n: string)
    ensures LastIndex(n, '.') == -1 <==> '.' !in n
  {
    if '.' in n {
      var k :| 0 <= k < |n| && n[k] == '.';
      assert LastIndex(n, '.') >= k;
    }
  }

  lemma Split(n: cstring)
    ensures '.' !in Extension(n)
    ensures LastIndex(n, '.') != -1 ==> n == Base(n) + "." + Extension(n)
  {
    hide LastIndex;
    var d := LastIndex(n, '.');
    if d != -1 {
      assert forall k :: 0 <= k < |Extension(n)| ==> Extension(n)[k] == n[d + 1 + k];
    }
  }

  /** A name prints back unchanged exactly when it fits the field. */
  lemma PrintsBack(n: cstring)
    ensures Reprint(n) == n <==> Fits(n)
  {
    Split(n);
    if ' ' !in n {
      var base, ext: cstring := Pad(Base(n), 8), Pad(Extension(n), 3);
      var b: cstring := if |Base(n)| <= 8 then Base(n) else Base(n)[..8];
      var e: cstring := if |Extension(n)| <= 3 then Extension(n) else Extension(n)[..3];
      assert Pad(b, 8) == base && Pad(e, 3) == ext;
      assert ' ' !in Base(n) && ' ' !in Extension(n);
      FormatPadded(b, e);
    }
  }

  /** The 8.3 names: a base of 1 to 8 and an optional extension of 1 to 3, without other dots or spaces. */
  lemma RoundTrip(base: cstring, ext: cstring)
    requires ' ' !in base + ext && '.' !in base + ext
    requires 1 <= |base| <= 8 && |ext| <= 3
    ensures var n: cstring := if ext == "" then base else base + "." + ext; Reprint(n) == n
  {
    var n: cstring := if ext == "" then base else base + "." + ext;
    assert forall k :: 0 <= k < |ext| ==> ext[k] == (base + ext)[|base| + k];
    assert forall k :: 0 <= k < |base| ==> base[k] == (base + ext)[k];
    NoDot(base);
    LastDot(base, ext);
    PrintsBack(n);
  }

  /** The extension a stored name is printed with has no dot and no space, and is its own extension. */
  lemma PrintedExtension(n: cstring)
    ensures var base, ext := UpTo(Parse(n)[..8], ' '), UpTo(Parse(n)[8..], ' ');
            '.' !in ext && (Reprint(n) == base || (1 <= |ext| <= 3 && Reprint(n) == base + "." + ext))
    ensures '.' !in Base(n) ==> '.' !in UpTo(Parse(n)[..8], ' ')
  {
    var f := Parse(n);
    var base, ext := UpTo(f[..8], ' '), UpTo(f[8..], ' ');
    Split(n);
    forall k | 0 <= k < |ext| ensures ext[k] != '.' {
      assert ext[k] == f[8..][k] == Pad(Extension(n), 3)[k];
    }
    assert forall k :: 0 <= k < |base| ==> base[k] == f[..8][k] == Pad(Base(n), 8)[k];
    assert f[8..][0] == f[8];
  }

  /** A printed name prints back exactly when it has no dot or one to three characters after its last dot. */
  lemma PrintedPrintsBack(n: cstring)
    ensures var p := Reprint(n);
            Reprint(p) == p <==> (LastIndex(p, '.') == -1 || 1 <= |Extension(p)| <= 3)
  {
    var base, ext := UpTo(Parse(n)[..8], ' '), UpTo(Parse(n)[8..], ' ');
    PrintedExtension(n);
    LastDot(base, ext);
    PrintsBack(Reprint(n));
  }

  /** What is printed of a name's base: its first eight characters, up to a space. */
  function StoredBase(n: cstring): cstring {
    UpTo(Pad(Base(n), 8), ' ')
  }

  /** The extension is printed too: it starts with a character, and nothing follows the spaces in the base. */
  predicate PrintsExtension(n: cstring) {
    && (forall k :: |StoredBase(n)| <= k < 8 ==> Pad(Base(n), 8)[k] == ' ')
    && Extension(n) != "" && Extension(n)[0] != ' '
  }

  lemma PrintedForm(n: cstring)
    ensures var ext := UpTo(Parse(n)[8..], ' ');
            Reprint(n) == if PrintsExtension(n) then StoredBase(n) + "." + ext else StoredBase(n)
  {
    hide UpTo;
    hide LastIndex;
    var f := Parse(n);
    assert f[..8] == Pad(Base(n), 8) && f[8] == Pad(Extension(n), 3)[0];
    assert forall k :: 0 <= k < 8 ==> f[k] == Pad(Base(n), 8)[k];
  }

  /**
  Printing is stable after one pass exactly when the name's extension is printed,
  or what is printed of its base has no dot, or it has one to three characters
  after its last dot.
  */
  lemma ReprintIdempotent(n: cstring)
    ensures var b := StoredBase(n);
            Reprint(Reprint(n)) == Reprint(n) <==> PrintsExtension(n) || '.' !in b || 1 <= |Extension(b)| <= 3
  {
    var b, ext := StoredBase(n), UpTo(Parse(n)[8..], ' ');
    PrintedForm(n);
    PrintedExtension(n);
    PrintedPrintsBack(n);
    if PrintsExtension(n) { LastDot(b, ext); } else { NoDot(b); }
  }

  /** One dot at most in the input is enough for that. */
  lemma OneDotIdempotent(n: cstring)
    requires '.' !in Base(n)
    ensures Reprint(Reprint(n)) == Reprint(n)
  {
    var b := StoredBase(n);
    assert forall k :: 0 <= k < |b| ==> b[k] == Pad(Base(n), 8)[k];
    ReprintIdempotent(n);
  }

  /** A long extension is cut to three characters. */
  lemma {:induction false} ReprintCuts(base: cstring, ext: cstring)
    requires ' ' !in base + ext && '.' !in ext && |base| <= 8
    ensures Reprint(base + "." + ext) == if ext == "" then base else base + "." + if |ext| <= 3 then ext else ext[..3]
  {
    var short: cstring := if |ext| <= 3 then ext else ext[..3];
    var n := base + "." + ext;
    LastDot(base, ext);
    assert Base(n) == base && Extension(n) == ext;
    assert forall k :: 0 <= k < |base + short| ==> (base + short)[k] == (base + ext)[k];
    assert Pad(ext, 3) == Pad(short, 3);
    FormatPadded(base, short);
  }

  /** Two dots are not, as "A.LONG." shows: it prints as "A.LONG", which prints as "A.LON". */
  lemma {:induction false} TwoDotsNotIdempotent(base: cstring, ext: cstring)
    requires ' ' !in base + ext && '.' !in ext && 3 < |ext| && |base| + 1 + |ext| <= 8
    ensures var p: cstring := base + "." + ext;
            Reprint(p + ".") == p && Reprint(p) == base + "." + ext[..3]
  {
    var p: cstring := base + "." + ext;
    assert forall k :: 0 <= k < |p| ==> p[k] == '.' || p[k] in base + ext;
    ReprintCuts(p, "");
    ReprintCuts(base, ext);
    assert p + "." + "" == p + ".";
  }

  /** A field is canonical when both parts are padded on the right only and only the base may have dots. */
  predicate Canonical(f: Field) {
    var base, ext := UpTo(f[..8], ' '), UpTo(f[8..], ' ');
    && (forall k :: |base| <= k < 8 ==> f[k] == ' ')
    && (forall k :: 8 + |ext| <= k < 11 ==> f[k] == ' ')
    && '.' !in ext
    && (ext == "" ==> '.' !in base)
  }

  /** The parser takes a base and a dot-free extension apart again. */
  lemma ParseJoined(base: cstring, ext: cstring)
    requires '.' !in ext && (ext == "" ==> '.' !in base)
    ensures Parse(if ext == "" then base else base + "." + ext) == Pad(base, 8) + Pad(ext, 3)
  {
    hide LastIndex;
    var n: cstring := if ext == "" then base else base + "." + ext;
    if ext == "" { NoDot(base); } else { LastDot(base, ext); }
    assert Base(n) == base && Extension(n) == ext;
  }

  lemma CanonicalReadsBack(f: Field)
    requires Canonical(f)
    ensures Parse(Format(f)) == f
  {
    hide UpTo;
    hide Parse;
    var base, ext := UpTo(f[..8], ' '), UpTo(f[8..], ' ');
    assert f[8] == f[8..][0];
    assert Format(f) == if ext == "" then base else base + "." + ext;
    hide Format;
    ParseJoined(base, ext);
    assert Pad(base, 8) == f[..8];
    assert Pad(ext, 3) == f[8..];
  }

  lemma SpacelessParts(n: cstring)
    requires ' ' !in n
    ensures ' ' !in Base(n) && ' ' !in Extension(n)
  {
    hide LastIndex;
    assert forall k :: 0 <= k < |Base(n)| ==> Base(n)[k] in n;
    assert forall k :: 0 <= k < |Extension(n)| ==> Extension(n)[k] in n;
  }

  /** A padded text without spaces is blank from the end of its first run on. */
  lemma PaddedBlank(s: cstring, n: nat)
    requires ' ' !in s
    ensures UpTo(Pad(s, n), ' ') == if |s| <= n then s else s[..n]
    ensures forall k :: |UpTo(Pad(s, n), ' ')| <= k < n ==> Pad(s, n)[k] == ' '
  {
    UpToUnique(Pad(s, n), ' ', if |s| <= n then |s| else n);
  }

  /** What the parser makes is padded on the right only, and an extension it makes has no dot. */
  lemma ReadBackIsCanonical(f: Field)
    requires Parse(Format(f)) == f
    ensures Canonical(f)
  {
    hide UpTo;
    hide LastIndex;
    var base, ext := UpTo(f[..8], ' '), UpTo(f[8..], ' ');
    var n := Format(f);
    assert f[8] == f[8..][0];
    assert ext == "" ==> n == base;
    hide Format;
    assert f[..8] == Pad(Base(n), 8) && f[8..] == Pad(Extension(n), 3);
    SpacelessParts(n);
    PaddedBlank(Base(n), 8);
    PaddedBlank(Extension(n), 3);
    assert forall k :: 8 + |ext| <= k < 11 ==> f[k] == f[8..][k - 8];
    Split(n);
    assert forall k :: 0 <= k < |ext| ==> ext[k] == Extension(n)[k];
    NoDot(n);
    assert '.' in n ==> |Base(n)| < |n|;
  }

  /** Exactly the canonical fields are read back from what is printed for them. */
  lemma FieldRoundTrip(f: Field)
    ensures Parse(Format(f)) == f <==> Canonical(f)
  {
    if Canonical(f) { CanonicalReadsBack(f); }
    if Parse(Format(f)) == f { ReadBackIsCanonical(f); }
  }

  /** Storing a name adds no characters but spaces and the dot. */
  lemma NoNewCharacter(n: cstring, c: char)
    requires c !in n && c != ' ' && c != '.'
    ensures c !in Reprint(n)
  {
    hide UpTo;
    hide LastIndex;
    var f := Parse(n);
    assert forall k :: 0 <= k < 8 ==> f[k] == Pad(Base(n), 8)[k];
    assert forall k :: 8 <= k < 11 ==> f[k] == Pad(Extension(n), 3)[k - 8];
    assert forall k :: 0 <= k < |f| ==> f[k] == ' ' || f[k] in n;
    assert forall k :: 0 <= k < 8 ==> f[..8][k] == f[k];
    assert forall k :: 0 <= k < 3 ==> f[8..][k] == f[8 + k];
  }

  // ---- the loops that fill the character buffers ----

  /** The parser's pair of loops: copy src to output[from..to] as far as it goes, then pad with spaces. */
  method FillField(output: array<char>, from: nat, to: nat, src: cstring)
    requires from <= to <= output.Length
    modifies output
    ensures forall k :: from <= k < to ==> output[k] == Pad(src, to - from)[k - from]
    ensures forall k :: 0 <= k < output.Length && !(from <= k < to) ==> output[k] == old(output[k])
  {
    var i, j := from, 0;
    while j < |src| && i < to
      invariant j <= |src| && from <= i <= to && i - from == j
      invariant forall k :: from <= k < i ==> output[k] == src[k - from]
      invariant forall k :: 0 <= k < output.Length && !(from <= k < to) ==> output[k] == old(output[k])
    {
      output[i] := src[j];
      i, j := i + 1, j + 1;
    }
    while i < to
      invariant j <= i - from && i <= to && (i < to ==> j == |src|)
      invariant forall k :: from <= k < i ==> output[k] == if k - from < |src| then src[k - from] else ' '
      invariant forall k :: 0 <= k < output.Length && !(from <= k < to) ==> output[k] == old(output[k])
    {
      output[i] := ' ';
      i := i + 1;
    }
  }

  method ParseFilename(input: cstring, output: array<char>)
    requires output.Length == 12
    modifies output
    ensures CStr(output) == Parse(input) && Terminated(output)
  {
    hide LastIndex;
    hide UpTo;
    var i, dotPos := 0, -1;
    while i < |input|
      invariant i <= |input| && -1 <= dotPos < i && (0 <= dotPos ==> input[dotPos] == '.')
      invariant forall k :: dotPos < k < i ==> input[k] != '.'
    {
      if input[i] == '.' { dotPos := i; }
      i := i + 1;
    }
    LastIndexUnique(input, '.', dotPos);
    if dotPos == -1 {
      FillField(output, 0, 8, input);
      FillField(output, 8, 11, "");
    } else {
      FillField(output, 0, 8, input[..dotPos]);
      FillField(output, 8, 11, input[dotPos + 1..]);
    }
    output[11] := '\0';
    assert output[..8] == Pad(Base(input), 8) && output[8..11] == Pad(Extension(input), 3);
    assert output[..11] == output[..8] + output[8..11];
    CStrIs(output, Parse(input));
  }

  /** The printer's copying loop: the run of characters up to a space or to the end of the part. */
  method CopyRun(dest: array<char>, at: nat, src: cstring) returns (len: nat)
    requires at + |src| <= dest.Length
    modifies dest
    ensures len == |UpTo(src, ' ')| && dest[at..at + len] == UpTo(src, ' ')
    ensures dest[..at] == old(dest[..at])
  {
    len := 0;
    while len < |src| && src[len] != ' '
      invariant len <= |src| && ' ' !in src[..len]
      invariant dest[at..at + len] == src[..len] && dest[..at] == old(dest[..at])
    {
      dest[at + len] := src[len];
      len := len + 1;
    }
    UpToUnique(src, ' ', len);
  }

  method FormatFilename(dest: array<char>, src: Field)
    requires dest.Length == 13
    modifies dest
    ensures CStr(dest) == Format(src) && Terminated(dest)
  {
    var j := CopyRun(dest, 0, src[..8]);
    var i := j;
    while i < 8 && src[i] == ' '
      invariant j <= i <= 8
      invariant forall k :: j <= k < i ==> src[k] == ' '
    {
      i := i + 1;
    }
    if i >= 8 && src[8] != ' ' {
      ghost var base := UpTo(src[..8], ' ');
      dest[j] := '.';
      assert dest[..j + 1] == base + ".";
      var len := CopyRun(dest, j + 1, src[8..]);
      assert dest[..j + 1 + len] == base + "." + UpTo(src[8..], ' ');
      j := j + 1 + len;
    }
    dest[j] := '\0';
    assert dest[..j] == Format(src);
    CStrIs(dest, Format(src));
  }
}
