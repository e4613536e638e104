/**
 * The parts of Python's string and `pathlib` behaviour that the uploader relies on:
 * `str.lower`, `str.rfind`, `Path.name`, `Path.suffix`, `str.rstrip('/')` and `str.join`.
 * Paths are taken to be already in the normal form `str(Path(p))` produces.
 */
module Text {

  /** `str.lower` on one character; only the ASCII letters A-Z change. */
  function LowerChar(c: char): char {
    if 'A' <= c <= 'Z' then (c as int - 'A' as int + 'a' as int) as char else c
  }

  function Lower(s: string): (r: string)
    ensures |r| == |s|
    ensures forall i :: 0 <= i < |s| ==> r[i] == LowerChar(s[i])
  {
    seq(|s|, i requires 0 <= i < |s| => LowerChar(s[i]))
  }

  /** Lower-casing commutes with taking a tail. */
  lemma LowerDrop(s: string, i: nat)
    requires i <= |s|
    ensures Lower(s[i..]) == Lower(s)[i..]
  {
  }

  /** `s.rfind(c)`: the last position holding `c`, or -1. */
  function LastIndex(s: string, c: char): (r: int)
    ensures -1 <= r < |s|
    ensures r >= 0 ==> s[r] == c
    ensures forall j :: r < j < |s| ==> s[j] != c
  {
    if |s| == 0 then -1
    else if s[|s| - 1] == c then |s| - 1
    else LastIndex(s[..|s| - 1], c)
  }

  /** The last position of `c` is the one after which `c` no longer occurs. */
  lemma LastIndexAt(s: string, c: char, i: int)
    requires -1 <= i < |s| && (i >= 0 ==> s[i] == c)
    requires forall j :: i < j < |s| ==> s[j] != c
    ensures LastIndex(s, c) == i
  {
  }

  /** Lower-casing never creates nor removes a '.' or a '/', so it keeps their last positions. */
  lemma LastIndexLower(s: string, c: char)
    requires c == '.' || c == '/'
    ensures LastIndex(Lower(s), c) == LastIndex(s, c)
  {
    assert forall j :: 0 <= j < |s| ==> (Lower(s)[j] == c <==> s[j] == c);
  }

  /** `Path(p).name`: everything after the last '/'. */
  function Name(path: string): (n: string)
    ensures '/' !in n
    ensures |n| <= |path| && n == path[|path| - |n|..]
  {
    var i := LastIndex(path, '/');
    var n := path[i + 1..];
    forall k | 0 <= k < |n| ensures n[k] != '/' {
      assert n[k] == path[i + 1 + k];
    }
    n
  }

  /** The name starts right after the last '/' of the path, or is the whole path when it has none. */
  lemma NameIsLastComponent(path: string)
    ensures var n := Name(path); |n| == |path| || path[|path| - |n| - 1] == '/'
  {
  }

  /**
   * `Path(p).suffix`: the name from its last '.' on, provided that '.' is neither the
   * first nor the last character of the name; otherwise the empty string.
   */
  function Suffix(path: string): (ext: string)
    ensures ext == "" || (ext[0] == '.' && |ext| >= 2 && '.' !in ext[1..])
    ensures ext != "" ==> |ext| < |Name(path)| && Name(path)[|Name(path)| - |ext|..] == ext
  {
    var n := Name(path);
    var i := LastIndex(n, '.');
    if 0 < i < |n| - 1 then n[i..] else ""
  }

  /** Taking the name and lower-casing can be done in either order. */
  lemma NameLower(p: string)
    ensures Lower(Name(p)) == Name(Lower(p))
  {
    LastIndexLower(p, '/');
    LowerDrop(p, LastIndex(p, '/') + 1);
  }

  /** Taking the suffix and lower-casing can be done in either order. */
  lemma SuffixLower(p: string)
    ensures Lower(Suffix(p)) == Suffix(Lower(p))
  {
    NameLower(p);
    TailFromLastDotLower(Name(p));
  }

  /** Cutting a name at its last '.' and lower-casing can be done in either order. */
  lemma TailFromLastDotLower(n: string)
    ensures var ln := Lower(n);
      var i, li := LastIndex(n, '.'), LastIndex(ln, '.');
      Lower(if 0 < i < |n| - 1 then n[i..] else "") == (if 0 < li < |ln| - 1 then ln[li..] else "")
  {
    LastIndexLower(n, '.');
    var i := LastIndex(n, '.');
    if 0 < i < |n| - 1 {
      LowerDrop(n, i);
    }
  }

  /** Two paths that agree up to case have suffixes that agree up to case. */
  lemma SuffixIgnoresCase(p: string, q: string)
    requires Lower(p) == Lower(q)
    ensures Lower(Suffix(p)) == Lower(Suffix(q))
  {
    SuffixLower(p);
    SuffixLower(q);
  }

  /** `s.rstrip('/')`: drop every trailing '/' and nothing else. */
  function RStripSlash(s: string): (r: string)
    ensures |r| <= |s| && r == s[..|r|]
    ensures r == "" || r[|r| - 1] != '/'
    ensures forall k :: |r| <= k < |s| ==> s[k] == '/'
  {
    if |s| > 0 && s[|s| - 1] == '/' then RStripSlash(s[..|s| - 1]) else s
  }

  /** Stripping twice strips nothing more. */
  lemma {:induction false} RStripSlashIdempotent(s: string)
    ensures RStripSlash(RStripSlash(s)) == RStripSlash(s)
  {
    var r := RStripSlash(s);
    assert r == "" || r[|r| - 1] != '/';
  }

  /** `sep.join(parts)`: no parts give the empty string, one part gives itself, and the result starts with the first part. */
  function Join(sep: string, parts: seq<string>): (r: string)
    ensures |parts| == 0 ==> r == ""
    ensures |parts| == 1 ==> r == parts[0]
    ensures |parts| >= 1 ==> |parts[0]| <= |r| && r[..|parts[0]|] == parts[0]
  {
    if |parts| == 0 then ""
    else if |parts| == 1 then parts[0]
    else parts[0] + sep + Join(sep, parts[1..])
  }

  /** Joining a non-empty list in which every part is non-empty gives a non-empty string. */
  lemma {:induction false} JoinNonEmpty(sep: string, parts: seq<string>)
    requires forall i :: 0 <= i < |parts| ==> parts[i] != ""
    ensures Join(sep, parts) == "" <==> parts == []
  {
    if |parts| >= 2 {
      assert |Join(sep, parts)| >= |parts[0]|;
    } else if |parts| == 1 {
      assert parts[0] != "";
    }
  }
}
