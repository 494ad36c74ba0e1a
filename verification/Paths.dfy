/**
Path text: splitting into components, the parent and the last name of a path,
and the edits cd makes to the current path. Source: get_parent_path,
get_filename and the path edits of fs_change_directory in fs/filesystem.c.
*/
module Paths {
  import opened CStrings

  /** The non-empty components of a path, in order. */
  function Components(p: cstring): (cs: seq<cstring>)
    ensures forall k :: 0 <= k < |cs| ==> cs[k] != "" && '/' !in cs[k]
    decreases |p|
  {
    if p == "" then []
    else if p[0] == '/' then Components(p[1..])
    else [UpTo(p, '/')] + Components(p[|UpTo(p, '/')|..])
  }

  predicate Absolute(p: string) {
    p != "" && p[0] == '/'
  }

  /** A slash separates what is on its two sides, whatever else is there. */
  lemma {:induction false} SlashSeparates(p: cstring, q: cstring)
    ensures Components(p + "/" + q) == Components(p) + Components(q)
    decreases |p|
  {
    var r: cstring := p + "/" + q;
    if p == "" {
      assert r[1..] == q;
    } else if p[0] == '/' {
      assert r[1..] == p[1..] + "/" + q;
      SlashSeparates(p[1..], q);
    } else {
      var w := UpTo(p, '/');
      UpToUnique(r, '/', |w|);
      assert r[..|w|] == w && r[|w|..] == p[|w|..] + "/" + q;
      SlashSeparates(p[|w|..], q);
    }
  }

  /** Doubling a slash, or ending with one more, changes nothing. */
  lemma {:induction false} SlashesDoNotMatter(p: cstring, q: cstring)
    ensures Components(p + "/" + ("/" + q)) == Components(p + "/" + q)
    ensures Components(p + "/") == Components(p)
    ensures Absolute(p + "/" + ("/" + q)) == Absolute(p + "/" + q) && (p != "" ==> Absolute(p + "/") == Absolute(p))
  {
    SlashSeparates(p, "/" + q);
    SlashSeparates(p, q);
    SlashSeparates("", q);
    SlashSeparates(p, "");
    assert "" + "/" + q == "/" + q && p + "/" + "" == p + "/";
  }

  lemma SingleComponent(w: cstring)
    requires '/' !in w && w != ""
    ensures Components(w) == [w]
  {
    UpToUnique(w, '/', |w|);
    assert w[..|w|] == w && w[|w|..] == "";
  }

  // ---- the parent and the last name of a path argument ----

  /** Everything up to and with the last slash; "/" when there is none. */
  function ParentPath(p: cstring): (r: cstring)
    ensures '/' in r
  {
    var i := LastIndex(p, '/');
    if i < 0 then "/" else assert p[..i + 1][i] == '/'; p[..i + 1]
  }

  /** Everything after the last slash. */
  function FileName(p: cstring): (r: cstring)
    ensures '/' !in r
  {
    p[LastIndex(p, '/') + 1..]
  }

  /** The text before the last slash. */
  function Stem(p: cstring): cstring
  {
    var i := LastIndex(p, '/');
    if i < 0 then "" else p[..i]
  }

  lemma ParentAndName(p: cstring)
    ensures '/' !in p ==> FileName(p) == p && ParentPath(p) == "/"
    ensures '/' in p ==> ParentPath(p) == Stem(p) + "/" && p == Stem(p) + "/" + FileName(p)
  {
    var i := LastIndex(p, '/');
    if '/' in p {
      var k :| 0 <= k < |p| && p[k] == '/';
      assert k <= i;
      assert p[..i + 1] == p[..i] + [p[i]];
    }
  }

  /** A path with a last name has it as its last component, after those of its parent. */
  lemma {:induction false} LastComponent(p: cstring)
    requires FileName(p) != ""
    ensures Components(p) != [] && Components(p)[|Components(p)| - 1] == FileName(p)
    ensures '/' in p ==> Components(p) == Components(ParentPath(p)) + [FileName(p)]
  {
    var name := FileName(p);
    ParentAndName(p);
    SingleComponent(name);
    if '/' in p {
      SlashSeparates(Stem(p), name);
      SlashesDoNotMatter(Stem(p), "");
    }
  }

  /** The backward scan both helpers start with. */
  method FindLastSlash(path: cstring) returns (i: int)
    ensures i == LastIndex(path, '/')
  {
    i := |path| - 1;
    while i >= 0 && path[i] != '/'
      invariant -1 <= i < |path| && forall k :: i < k < |path| ==> path[k] != '/'
    {
      i := i - 1;
    }
    LastIndexUnique(path, '/', i);
  }

  method GetParentPath(path: cstring, buffer: array<char>)
    requires |path| + 1 < buffer.Length && 2 <= buffer.Length
    modifies buffer
    ensures CStr(buffer) == ParentPath(path) && Terminated(buffer)
  {
    var i := FindLastSlash(path);
    if i < 0 {
      buffer[0], buffer[1] := '/', '\0';
      CStrIs(buffer, "/");
      return;
    }
    var j := 0;
    while j <= i
      invariant 0 <= j <= i + 1 && buffer[..j] == path[..j]
    {
      buffer[j] := path[j];
      j := j + 1;
    }
    buffer[j] := '\0';
    CStrIs(buffer, path[..i + 1]);
  }

  method GetFilename(path: cstring, buffer: array<char>)
    requires |FileName(path)| < buffer.Length
    modifies buffer
    ensures CStr(buffer) == FileName(path) && Terminated(buffer)
  {
    var i := FindLastSlash(path);
    StrCopy(buffer, path[i + 1..]);
  }

  // ---- the current path ----

  const MAX_PATH := 256

  /** "/a/b/c" for the components a, b, c; empty for none. */
  function Join(cs: seq<cstring>): (p: cstring)
    ensures cs != [] ==> |p| >= 1 && p[0] == '/'
  {
    if cs == [] then "" else Join(cs[..|cs| - 1]) + "/" + cs[|cs| - 1]
  }

  predicate GoodNames(cs: seq<cstring>) {
    forall k :: 0 <= k < |cs| ==> cs[k] != "" && '/' !in cs[k]
  }

  /** The current path spells these components, with or without a slash at the end. */
  predicate Spells(p: cstring, cs: seq<cstring>) {
    && GoodNames(cs)
    && if cs == [] then p == "/" else p == Join(cs) || p == Join(cs) + "/"
  }

  lemma {:induction false} JoinComponents(cs: seq<cstring>)
    requires GoodNames(cs)
    ensures Components(Join(cs)) == cs
    decreases |cs|
  {
    if cs != [] {
      var init, last := cs[..|cs| - 1], cs[|cs| - 1];
      JoinComponents(init);
      SlashSeparates(Join(init), last);
      SingleComponent(last);
    }
  }

  lemma SpellsComponents(p: cstring, cs: seq<cstring>)
    requires Spells(p, cs)
    ensures Components(p) == cs
  {
    JoinComponents(cs);
    SlashesDoNotMatter(Join(cs), "");
  }

  lemma {:induction false} JoinLength(cs: seq<cstring>, width: nat)
    requires forall k :: 0 <= k < |cs| ==> |cs[k]| <= width
    ensures |Join(cs)| <= |cs| * (width + 1)
    decreases |cs|
  {
    if cs != [] {
      JoinLength(cs[..|cs| - 1], width);
      assert |cs| * (width + 1) == (|cs| - 1) * (width + 1) + (width + 1);
    }
  }

  /** What cd appends; characters past the end of the 256-byte buffer are dropped. */
  function Extend(p: cstring, name: cstring): cstring {
    var base: cstring := if |p| > 1 && p[|p| - 1] != '/' then p + "/" else p;
    var room := MAX_PATH - 1 - |base|;
    base + if |name| <= room then name else if room <= 0 then "" else name[..room]
  }

  /** The last slash at or before i, or 0. */
  function LastSlash(p: string, i: nat): (k: nat)
    requires i < |p|
    ensures k <= i && (k == 0 || p[k] == '/') && forall m :: k < m <= i ==> p[m] != '/'
  {
    if i == 0 || p[i] == '/' then i else LastSlash(p, i - 1)
  }

  /** What cd ".." cuts: the last component, leaving the slash before it. */
  function Shorten(p: cstring): (r: cstring)
    ensures |r| <= |p|
  {
    if |p| <= 1 then p
    else p[..LastSlash(p, if p[|p| - 1] == '/' then |p| - 2 else |p| - 1) + 1]
  }

  lemma {:induction false} ExtendSpells(p: cstring, cs: seq<cstring>, name: cstring)
    requires Spells(p, cs) && name != "" && '/' !in name && |p| + 1 + |name| < MAX_PATH
    ensures Spells(Extend(p, name), cs + [name])
  {
    assert (cs + [name])[..|cs|] == cs;
    if cs != [] {
      var last := cs[|cs| - 1];
      assert Join(cs)[|Join(cs)| - 1] == last[|last| - 1] != '/';
    }
  }

  lemma LastSlashIs(p: string, from: nat, cut: nat)
    requires cut <= from < |p| && (cut == 0 || p[cut] == '/')
    requires forall m :: cut < m <= from ==> p[m] != '/'
    ensures LastSlash(p, from) == cut
  {
    var k := LastSlash(p, from);
    assert k <= cut <= k;
  }

  /** Cutting "/a/b" or "/a/b/" after its last inner slash. */
  lemma ShortenCuts(p: cstring, init: cstring, last: cstring)
    requires last != "" && '/' !in last
    requires p == init + "/" + last || p == init + "/" + last + "/"
    ensures Shorten(p) == init + "/"
  {
    var full := init + "/" + last;
    var cut := |init|;
    assert full[|full| - 1] == last[|last| - 1];
    assert p[..|full|] == full && p[cut] == '/';
    var from := if p[|p| - 1] == '/' then |p| - 2 else |p| - 1;
    assert from == |full| - 1;
    forall m | cut < m <= from ensures p[m] != '/' {
      assert p[m] == last[m - cut - 1];
    }
    LastSlashIs(p, from, cut);
    assert p[..cut + 1] == init + "/";
  }

  lemma {:induction false} ShortenSpells(p: cstring, cs: seq<cstring>)
    requires Spells(p, cs)
    ensures Spells(Shorten(p), if cs == [] then [] else cs[..|cs| - 1])
  {
    if cs != [] {
      ShortenCuts(p, Join(cs[..|cs| - 1]), cs[|cs| - 1]);
    }
  }

  // ---- the same edits in the 256-byte buffer ----

  /** The copying loop of cd: as much of the name as leaves room for the terminator. */
  method AppendName(path: array<char>, at: nat, name: cstring) returns (len: nat)
    requires path.Length == MAX_PATH && at < MAX_PATH
    modifies path
    ensures len == at + (if |name| <= MAX_PATH - 1 - at then |name| else MAX_PATH - 1 - at)
    ensures path[..at] == old(path[..at]) && path[at..len] == name[..len - at] && path[len] == '\0'
  {
    var j := 0;
    while j < |name| && at + j < MAX_PATH - 1
      invariant j <= |name| && at + j <= MAX_PATH - 1
      invariant path[..at] == old(path[..at]) && path[at..at + j] == name[..j]
    {
      path[at + j] := name[j];
      j := j + 1;
    }
    len := at + j;
    path[len] := '\0';
  }

  lemma ExtendText(p: cstring, name: cstring, base: cstring, k: nat)
    requires base == if |p| > 1 && p[|p| - 1] != '/' then p + "/" else p
    requires |base| < MAX_PATH && k == if |name| <= MAX_PATH - 1 - |base| then |name| else MAX_PATH - 1 - |base|
    ensures Extend(p, name) == base + name[..k]
  {
    assert name[..|name|] == name && name[..0] == "";
  }

  method ExtendInPlace(path: array<char>, name: cstring)
    requires path.Length == MAX_PATH && Terminated(path) && |CStr(path)| < MAX_PATH - 1
    modifies path
    ensures Terminated(path) && CStr(path) == Extend(old(CStr(path)), name)
  {
    ghost var p, base := CStr(path), CStr(path);
    var len := StrLength(path);
    if len > 1 && path[len - 1] != '/' {
      path[len] := '/';
      len := len + 1;
      base := p + "/";
    }
    assert path[..len] == base;
    var end := AppendName(path, len, name);
    assert path[..end] == path[..len] + path[len..end];
    ExtendText(p, name, base, end - len);
    CStrIs(path, base + name[..end - len]);
  }

  method ShortenInPlace(path: array<char>)
    requires path.Length == MAX_PATH && Terminated(path)
    modifies path
    ensures Terminated(path) && CStr(path) == Shorten(old(CStr(path)))
  {
    ghost var p := CStr(path);
    var len := StrLength(path);
    var i := len as int - 1;
    if i > 0 {
      if path[i] == '/' {
        i := i - 1;
      }
      ghost var from: nat := i;
      while i > 0 && path[i] != '/'
        invariant 0 <= i <= from && forall m :: i < m <= from ==> path[m] != '/'
      {
        i := i - 1;
      }
      LastSlashIs(p, from, i);
      path[i + 1] := '\0';
      assert path[..i + 1] == Shorten(p);
      CStrIs(path, Shorten(p));
    }
  }

  // ---- one turn of the resolver's loop ----

  /** Every component fits a 13-byte name buffer. */
  predicate ComponentsFit(p: cstring) {
    forall k :: 0 <= k < |Components(p)| ==> |Components(p)[k]| <= 12
  }

  lemma {:induction false} LeadingSlashes(p: cstring, k: nat)
    requires k <= |p| && forall m :: 0 <= m < k ==> p[m] == '/'
    ensures Components(p) == Components(p[k..])
    decreases k
  {
    if k == 0 {
      assert p[0..] == p;
    } else {
      LeadingSlashes(p[1..], k - 1);
      assert p[1..][k - 1..] == p[k..];
    }
  }

  /** The text up to a slash is a component if it is not empty; the slashes after it are skipped. */
  lemma NextComponent(p: cstring, n: nat, m: nat)
    requires n <= m <= |p| && n == |UpTo(p, '/')|
    requires forall k :: n <= k < m ==> p[k] == '/'
    ensures Components(p) == (if n == 0 then [] else [p[..n]]) + Components(p[m..])
    ensures m < |p| && p[m] != '/' ==> Components(p[m..]) != []
  {
    LeadingSlashes(p[n..], m - n);
    assert p[n..][m - n..] == p[m..];
    if n > 0 {
      assert Components(p) == [UpTo(p, '/')] + Components(p[n..]);
    } else {
      assert p[n..] == p;
    }
  }

  /** Copy the text from i up to a slash into the component buffer. */
  method CopyComponent(path: cstring, i: nat, component: array<char>) returns (next: nat)
    requires i < |path| && component.Length == 13 && |UpTo(path[i..], '/')| <= 12
    modifies component
    ensures next == i + |UpTo(path[i..], '/')| && Terminated(component) && CStr(component) == UpTo(path[i..], '/')
  {
    ghost var rest := path[i..];
    ghost var w := UpTo(rest, '/');
    var j := 0;
    next := i;
    while next < |path| && path[next] != '/'
      invariant next == i + j && j <= |w| && component[..j] == w[..j]
    {
      assert path[next] == rest[j] && j < |w| && w[j] == rest[j];
      component[j] := path[next];
      next, j := next + 1, j + 1;
    }
    assert next < |path| ==> path[next] == rest[j];
    assert j == |w|;
    component[j] := '\0';
    CStrIs(component, w);
  }

  lemma FitsOn(p: cstring, q: cstring, w: cstring)
    requires ComponentsFit(p) && Components(p) == (if w == "" then [] else [w]) + Components(q)
    ensures ComponentsFit(q) && (w != "" ==> |w| <= 12)
  {
    assert forall k :: 0 <= k < |Components(q)| ==>
      Components(q)[k] == Components(p)[if w == "" then k else k + 1];
    if w != "" { assert Components(p)[0] == w; }
  }

  lemma ComponentIs(rest: cstring, n: nat, m: nat)
    requires n == |UpTo(rest, '/')| && n <= m <= |rest| && forall k :: n <= k < m ==> rest[k] == '/'
    ensures var w: cstring := UpTo(rest, '/');
            Components(rest) == (if w == "" then [] else [w]) + Components(rest[m..])
    ensures m < |rest| && rest[m] != '/' ==> Components(rest[m..]) != []
    ensures m == |rest| ==> Components(rest[m..]) == []
  {
    NextComponent(rest, n, m);
  }

  /** Read one component and skip the slashes after it. */
  method ReadComponent(path: cstring, i: nat, component: array<char>) returns (next: nat)
    requires i < |path| && component.Length == 13 && ComponentsFit(path[i..])
    modifies component
    ensures i < next <= |path| && Terminated(component) && ComponentsFit(path[next..])
    ensures var w: cstring := CStr(component);
            Components(path[i..]) == (if w == "" then [] else [w]) + Components(path[next..])
    ensures next == |path| <==> Components(path[next..]) == []
  {
    hide Components;
    hide UpTo;
    ghost var w: cstring := UpTo(path[i..], '/');
    ComponentIs(path[i..], |w|, |w|);
    FitsOn(path[i..], path[i + |w|..], w);
    var stop := CopyComponent(path, i, component);
    next := stop;
    while next < |path| && path[next] == '/'
      invariant stop <= next <= |path| && forall k :: stop <= k < next ==> path[k] == '/'
    {
      next := next + 1;
    }
    ComponentIs(path[i..], |w|, next - i);
    assert path[i..][next - i..] == path[next..];
    FitsOn(path[i..], path[next..], w);
  }
}
