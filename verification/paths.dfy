/** POSIX path handling used by the converter: `os.path.basename`,
    `os.path.dirname`, `os.path.join` (the posixpath rules) and the `stem` of
    a `pathlib` file name. Paths are plain strings with `/` as separator. */
module Paths {

  /** The POSIX path separator. */
  const Sep: char := '/'

  /** Index of the last occurrence of `c` in `s`, or -1 when there is none
      (Python's `str.rfind`). */
  function RFind(s: string, c: char): (r: int)
    ensures -1 <= r < |s|
    ensures r >= 0 ==> s[r] == c
    decreases |s|
  {
    if |s| == 0 then -1
    else if s[|s| - 1] == c then |s| - 1
    else RFind(s[..|s| - 1], c)
  }

  /** No occurrence of `c` follows the one `RFind` returns. */
  lemma {:induction false} RFindIsLast(s: string, c: char)
    ensures forall j :: RFind(s, c) < j < |s| ==> s[j] != c
    decreases |s|
  {
    if |s| > 0 && s[|s| - 1] != c {
      RFindIsLast(s[..|s| - 1], c);
    }
  }

  /** True when every character of `s` is a separator (vacuously for ""). */
  predicate AllSeps(s: string) {
    forall i :: 0 <= i < |s| ==> s[i] == Sep
  }

  /** The shape of every `os.path.dirname` result: empty, made of separators
      only, or not ending in a separator. */
  predicate IsNormalDir(d: string) {
    d == [] || AllSeps(d) || d[|d| - 1] != Sep
  }

  /** `os.path.basename`: the text after the last separator. */
  function Basename(p: string): (r: string)
    ensures |r| <= |p| && p[|p| - |r|..] == r
  {
    p[RFind(p, Sep) + 1..]
  }

  /** A basename holds no separator. */
  lemma BasenameHasNoSep(p: string)
    ensures Sep !in Basename(p)
  {
    RFindIsLast(p, Sep);
    var b := Basename(p);
    assert forall k :: 0 <= k < |b| ==> b[k] == p[RFind(p, Sep) + 1 + k];
  }

  /** The head of `os.path.split`: everything up to and including the last
      separator, so that the path is the head followed by its basename. */
  function Head(p: string): (r: string)
    ensures p == r + Basename(p)
    ensures r == [] || r[|r| - 1] == Sep
  {
    p[..RFind(p, Sep) + 1]
  }

  /** `str.rstrip('/')`. */
  function RStripSeps(s: string): (r: string)
    ensures |r| <= |s| && s[..|r|] == r
    ensures r == [] || r[|r| - 1] != Sep
    decreases |s|
  {
    if |s| > 0 && s[|s| - 1] == Sep then RStripSeps(s[..|s| - 1]) else s
  }

  /** `os.path.dirname` (posixpath): the head, with its trailing separators
      removed unless it consists of separators only. */
  function Dirname(p: string): (r: string)
    ensures IsNormalDir(r)
    ensures |r| <= |p| && p[..|r|] == r
  {
    var head := Head(p);
    if head != [] && !AllSeps(head) then RStripSeps(head) else head
  }

  /** `os.path.join(a, b)` for two components (posixpath): an absolute `b`
      replaces `a`; otherwise a separator is inserted unless `a` is empty or
      already ends in one. */
  function Join(a: string, b: string): string {
    if |b| > 0 && b[0] == Sep then b
    else if a == [] || a[|a| - 1] == Sep then a + b
    else a + [Sep] + b
  }

  /** The suffix of a `pathlib` file name: from the last dot on, provided that
      dot is neither the first nor the last character; otherwise empty. */
  function Suffix(name: string): string {
    var i := RFind(name, '.');
    if 0 < i < |name| - 1 then name[i..] else []
  }

  /** The stem of a `pathlib` file name: the name without its suffix. */
  function Stem(name: string): (r: string)
    ensures r + Suffix(name) == name
  {
    var i := RFind(name, '.');
    if 0 < i < |name| - 1 then name[..i] else name
  }

  /** Only the last extension is dropped: a name made of a non-empty `x`, a
      dot and a non-empty extension without dots has stem `x`, whatever dots
      `x` itself holds. */
  lemma StemDropsLastExtension(x: string, ext: string)
    requires x != [] && ext != [] && '.' !in ext
    ensures Stem(x + "." + ext) == x
    ensures Suffix(x + "." + ext) == "." + ext
  {
    var name := x + "." + ext;
    RFindAppend(x + ".", ext, '.');
    assert RFind(x + ".", '.') == |x|;
    assert name[..|x|] == x;
    assert name[|x|..] == "." + ext;
  }

  /** A stem is a prefix of its name, so it holds no separator when the name
      holds none. */
  lemma StemHasNoSep(name: string)
    requires Sep !in name
    ensures Sep !in Stem(name)
  {
    var r := Stem(name);
    assert forall k :: 0 <= k < |r| ==> r[k] == name[k];
  }

  /** Appending text free of `c` does not move the last occurrence of `c`. */
  lemma {:induction false} RFindAppend(x: string, b: string, c: char)
    requires c !in b
    ensures RFind(x + b, c) == RFind(x, c)
    decreases |b|
  {
    if b != [] {
      var b' := b[..|b| - 1];
      assert (x + b)[..|x + b| - 1] == x + b';
      assert (x + b)[|x + b| - 1] == b[|b| - 1];
      RFindAppend(x, b', c);
    } else {
      assert x + b == x;
    }
  }

  /** The path `x + b`, with `x` empty or ending in a separator and `b` a
      plain file name, splits back into head `x` and basename `b`. */
  lemma SplitAfterSep(x: string, b: string)
    requires x == [] || x[|x| - 1] == Sep
    requires Sep !in b
    ensures Head(x + b) == x
    ensures Basename(x + b) == b
  {
    RFindAppend(x, b, Sep);
    assert RFind(x, Sep) == |x| - 1;
    assert (x + b)[..|x|] == x;
    assert (x + b)[|x|..] == b;
  }

  /** Joining a plain file name onto any directory yields a path whose
      basename is that file name. */
  lemma BasenameOfJoin(a: string, b: string)
    requires b != [] && Sep !in b
    ensures Basename(Join(a, b)) == b
  {
    if a == [] || a[|a| - 1] == Sep {
      SplitAfterSep(a, b);
    } else {
      assert Join(a, b) == (a + [Sep]) + b;
      SplitAfterSep(a + [Sep], b);
    }
  }

  /** Joining a plain file name onto a directory in `dirname` shape and taking
      `dirname` again gives the directory back. */
  lemma DirnameOfJoin(a: string, b: string)
    requires IsNormalDir(a)
    requires b != [] && Sep !in b
    ensures Dirname(Join(a, b)) == a
  {
    if a == [] {
      assert Join(a, b) == [] + b;
      SplitAfterSep([], b);
    } else if a[|a| - 1] == Sep {
      SplitAfterSep(a, b);
    } else {
      var x := a + [Sep];
      assert Join(a, b) == x + b;
      SplitAfterSep(x, b);
      assert !AllSeps(x) by { assert x[|a| - 1] != Sep; }
      assert RStripSeps(x) == RStripSeps(x[..|x| - 1]);
      assert x[..|x| - 1] == a;
    }
  }
}
