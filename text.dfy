/** The C-string helpers that every variant carries its own copy of: length,
  * equality and the replacement of a path's extension. A C string is a
  * buffer of characters holding a NUL somewhere; its text is what comes
  * before the first NUL. */
module CText {
  const NUL: char := 0 as char

  predicate Terminated(buf: seq<char>) { NUL in buf }

  /** The text of a NUL-terminated buffer. */
  function Text(buf: seq<char>): (t: seq<char>)
    requires Terminated(buf)
    ensures |t| < |buf| && buf[..|t|] == t && buf[|t|] == NUL
    ensures NUL !in t
  {
    if buf[0] == NUL then [] else [buf[0]] + Text(buf[1..])
  }

  /** A buffer holding exactly `t` and its terminator. */
  lemma TextOfTerminated(t: seq<char>, rest: seq<char>)
    requires NUL !in t
    ensures Terminated(t + [NUL] + rest) && Text(t + [NUL] + rest) == t
  {
    var buf := t + [NUL] + rest;
    assert buf[|t|] == NUL;
    assert buf[..|t|] == t;
  }

  /** `strlen`: counts the characters before the NUL. */
  method StrLen(str: seq<char>) returns (len: nat)
    requires Terminated(str)
    ensures len < |str| && str[len] == NUL && str[..len] == Text(str)
  {
    len := 0;
    while str[len] != NUL
      invariant len <= |Text(str)|
      decreases |str| - len
      invariant str[..len] == Text(str)[..len]
    {
      len := len + 1;
    }
  }

  /** `streq`: walks both strings while neither has ended and the characters
    * agree, then compares the two characters it stopped at, so that a
    * string is never equal to a proper prefix of itself. */
  method StrEq(a: seq<char>, b: seq<char>) returns (r: bool)
    requires Terminated(a) && Terminated(b)
    ensures r <==> Text(a) == Text(b)
  {
    var i := 0;
    var ca, cb := a[0], b[0];
    while ca != NUL && cb != NUL
      invariant i <= |Text(a)| && i <= |Text(b)|
      invariant Text(a)[..i] == Text(b)[..i]
      invariant ca == a[i] && cb == b[i]
      decreases |a| - i
    {
      if ca != cb {
        assert Text(a)[i] != Text(b)[i];
        return false;
      }
      i := i + 1;
      ca, cb := a[i], b[i];
    }
    r := ca == cb;
  }

  predicate IsSeparator(c: char) { c == '/' || c == '\\' }

  /** The characters the extension scan stops at. */
  predicate IsMark(c: char) { c == '.' || IsSeparator(c) }

  /** Where the backward scan of `replaceExt` stops on a path of text `p`:
    * the last '.', '/' or '\\', or the start of the path. It starts on the
    * terminator, which is never a mark. */
  function ScanStop(p: seq<char>): (d: nat)
    ensures d <= |p|
    ensures d == 0 || (d < |p| && IsMark(p[d]))
    ensures forall k :: d < k < |p| ==> !IsMark(p[k])
  {
    ScanFrom(p, |p|)
  }

  function ScanFrom(p: seq<char>, from: nat): (d: nat)
    requires from <= |p|
    ensures d <= from
    ensures d == 0 || (d < |p| && IsMark(p[d]))
    ensures forall k :: d < k <= from && k < |p| ==> !IsMark(p[k])
  {
    if from == 0 then 0
    else if from < |p| && IsMark(p[from]) then from
    else ScanFrom(p, from - 1)
  }

  /** The scan found an extension: a '.' that neither opens the path nor
    * directly follows a separator. */
  predicate HasExtension(p: seq<char>)
  {
    var d := ScanStop(p);
    d > 0 && d < |p| && p[d] == '.' && !IsSeparator(p[d - 1])
  }

  /** The path that `replaceExt` builds. */
  function ReplaceExtension(p: seq<char>, ext: seq<char>): seq<char>
  {
    if HasExtension(p) then p[..ScanStop(p)] + "." + ext else p + "." + ext
  }

  /** The backward scan of `replaceExt`, from the terminator at `pathLen`. */
  method ScanBack(path: seq<char>, pathLen: nat) returns (dotPos: nat)
    requires Terminated(path) && pathLen == |Text(path)|
    ensures dotPos == ScanStop(Text(path))
  {
    ghost var p := Text(path);
    dotPos := pathLen;
    while dotPos > 0 && path[dotPos] != '.' && path[dotPos] != '\\' && path[dotPos] != '/'
      invariant dotPos <= pathLen
      invariant ScanFrom(p, pathLen) == ScanFrom(p, dotPos)
    {
      dotPos := dotPos - 1;
    }
  }

  /** The two copy loops of `replaceExt`: the first `stemLen` characters of
    * the path, a dot, the extension and the terminator. */
  method FillPath(newPath: array<char>, path: seq<char>, stemLen: nat, ext: seq<char>, extLen: nat)
    requires Terminated(ext) && extLen == |Text(ext)|
    requires stemLen <= |path| && newPath.Length == stemLen + 1 + extLen + 1
    modifies newPath
    ensures newPath[..] == path[..stemLen] + "." + Text(ext) + [NUL]
  {
    ghost var e := Text(ext);
    var i := 0;
    while i < stemLen
      invariant i <= stemLen
      invariant newPath[..i] == path[..i]
    {
      newPath[i] := path[i];
      i := i + 1;
    }
    newPath[i] := '.';
    i := i + 1;
    assert newPath[..i] == path[..stemLen] + ".";
    var k := 0;
    while ext[k] != NUL
      invariant k <= extLen && i == stemLen + 1 + k
      invariant newPath[..i] == path[..stemLen] + "." + e[..k]
      decreases |ext| - k
    {
      newPath[i] := ext[k];
      i := i + 1;
      k := k + 1;
    }
    newPath[i] := NUL;
    assert e[..k] == e;
    assert newPath[..] == newPath[..i] + [NUL];
  }

  /** `replaceExt`: allocates the new path at exactly its length plus the
    * terminator and fills it. */
  method ReplaceExt(path: seq<char>, ext: seq<char>) returns (newPath: array<char>)
    requires Terminated(path) && Terminated(ext)
    ensures fresh(newPath)
    ensures newPath[..] == ReplaceExtension(Text(path), Text(ext)) + [NUL]
  {
    var extLen := StrLen(ext);
    var pathLen := StrLen(path);
    ghost var p := Text(path);
    var dotPos := ScanBack(path, pathLen);
    var stemLen: nat;
    if path[dotPos] == '.' && dotPos > 0 && path[dotPos - 1] != '\\' && path[dotPos - 1] != '/' {
      var oldExtLen := pathLen - (dotPos + 1);
      newPath := new char[pathLen + extLen - oldExtLen + 1];
      stemLen := dotPos;
      assert HasExtension(p) && path[..stemLen] == p[..ScanStop(p)];
    } else {
      newPath := new char[pathLen + extLen + 2];
      stemLen := pathLen;
      assert !HasExtension(p) && path[..stemLen] == p;
    }
    FillPath(newPath, path, stemLen, ext, extLen);
  }

  /** A path with an extension keeps everything before its last dot. */
  lemma ReplaceKeepsStem(p: seq<char>, ext: seq<char>)
    requires HasExtension(p)
    ensures ReplaceExtension(p, ext) == p[..ScanStop(p)] + "." + ext
    ensures 0 < ScanStop(p) < |p| && p[ScanStop(p)] == '.'
    ensures forall k :: ScanStop(p) < k < |p| ==> !IsMark(p[k])
  {
  }

  predicate PlainExtension(ext: seq<char>) { forall k :: 0 <= k < |ext| ==> !IsMark(ext[k]) }

  /** The path built always ends in "." followed by the new extension, and
    * with a plain extension that dot is where the next scan stops. */
  lemma ScanFindsNewDot(stem: seq<char>, ext: seq<char>)
    requires PlainExtension(ext)
    ensures ScanStop(stem + "." + ext) == |stem|
  {
    var q := stem + "." + ext;
    assert q[|stem|] == '.';
    assert forall k :: |stem| < k < |q| ==> q[k] == ext[k - |stem| - 1];
  }

  /** Replacing the extension twice with the same plain extension changes
    * nothing the second time, as long as the stem is not empty and does not
    * end in a separator (otherwise the new dot reads as a hidden-file name
    * and a second extension is appended). */
  lemma ReplaceIdempotent(p: seq<char>, ext: seq<char>)
    requires PlainExtension(ext)
    requires var stem := if HasExtension(p) then p[..ScanStop(p)] else p; |stem| > 0 && !IsSeparator(stem[|stem| - 1])
    ensures ReplaceExtension(ReplaceExtension(p, ext), ext) == ReplaceExtension(p, ext)
  {
    var stem := if HasExtension(p) then p[..ScanStop(p)] else p;
    var q := ReplaceExtension(p, ext);
    assert q == stem + "." + ext;
    ScanFindsNewDot(stem, ext);
    assert q[|stem|] == '.' && q[|stem| - 1] == stem[|stem| - 1];
    assert HasExtension(q);
    assert q[..|stem|] == stem;
  }

  /** An extension is replaced. */
  lemma ReplaceExample()
    ensures ReplaceExtension("file.txt", "ext") == "file.ext"
  {
    var p := "file.txt";
    assert p[4] == '.' && p[5] == 't' && p[6] == 'x' && p[7] == 't' && p[3] == 'e';
    assert ScanFrom(p, 8) == ScanFrom(p, 7) == ScanFrom(p, 6) == ScanFrom(p, 5) == ScanFrom(p, 4) == 4;
    assert p[..4] == "file";
  }

  /** A dot before the last separator is not an extension. */
  lemma ReplaceDotInDirectory()
    ensures ReplaceExtension("a.b/c", "ext") == "a.b/c.ext"
  {
    var p := "a.b/c";
    assert p[3] == '/' && p[4] == 'c';
    assert ScanFrom(p, 5) == ScanFrom(p, 4) == ScanFrom(p, 3) == 3;
    assert p[..3] == "a.b" && p[2] == 'b';
  }

  /** A leading dot names a hidden file, not an extension. */
  lemma ReplaceHidden()
    ensures ReplaceExtension(".bashrc", "ext") == ".bashrc.ext"
  {
    assert ScanStop(".bashrc") == 0;
  }

  /** A dot right after a separator names a hidden file too. */
  lemma ReplaceHiddenInDirectory()
    ensures ReplaceExtension("dir/.cfg", "ext") == "dir/.cfg.ext"
  {
    var p := "dir/.cfg";
    assert p[3] == '/' && p[4] == '.';
    assert ScanFrom(p, 5) == 4;
    assert ScanStop(p) == 4;
  }

  /** Without a dot the extension is appended. */
  lemma ReplaceAppends()
    ensures ReplaceExtension("output", "txt") == "output.txt"
  {
    assert ScanStop("output") == 0;
  }
}
