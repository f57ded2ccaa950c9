/** The part of pathlib's PurePath that the script relies on, over plain
    strings: the final component (`name`), its `stem` and `suffix`, and
    `with_name`. Separators are '/' only and paths are not normalised. */
module Paths {

  /** The final path component: everything after the last '/'. */
  function Name(p: string): (n: string)
    ensures '/' !in n
    ensures |n| <= |p|
  {
    if |p| == 0 || p[|p| - 1] == '/' then []
    else Name(p[..|p| - 1]) + [p[|p| - 1]]
  }

  /** The final component is a suffix of the path, preceded by a '/' when
      it is not the whole path. */
  lemma {:induction false} NameIsSuffix(p: string)
    ensures p[|p| - |Name(p)|..] == Name(p)
    ensures |Name(p)| < |p| ==> p[|p| - |Name(p)| - 1] == '/'
  {
    if |p| > 0 && p[|p| - 1] != '/' {
      var init := p[..|p| - 1];
      NameIsSuffix(init);
      assert p[|p| - |Name(p)|..] == init[|init| - |Name(init)|..] + [p[|p| - 1]];
    }
  }

  /** Everything up to and including the last '/' (empty when there is none). */
  function Dir(p: string): string
  {
    p[..|p| - |Name(p)|]
  }

  lemma {:induction false} DirNameSplit(p: string)
    ensures Dir(p) + Name(p) == p
    ensures Dir(p) == [] || Dir(p)[|Dir(p)| - 1] == '/'
  {
    NameIsSuffix(p);
    assert p == p[..|p| - |Name(p)|] + p[|p| - |Name(p)|..];
  }

  /** Appending a component with no separator to a directory prefix makes that
      component the final one. */
  lemma {:induction false} NameAfterDir(d: string, n: string)
    requires d == [] || d[|d| - 1] == '/'
    requires '/' !in n
    ensures Name(d + n) == n
    ensures Dir(d + n) == d
  {
    if n == [] {
      assert d + n == d;
    } else {
      var m := n[..|n| - 1];
      NameAfterDir(d, m);
      assert (d + n)[..|d + n| - 1] == d + m;
    }
  }

  /** Appending separator-free text extends the final component. */
  lemma {:induction false} NameOfAppend(p: string, t: string)
    requires '/' !in t
    ensures Name(p + t) == Name(p) + t
    ensures Dir(p + t) == Dir(p)
  {
    DirNameSplit(p);
    assert '/' !in Name(p) + t;
    assert p + t == Dir(p) + (Name(p) + t);
    NameAfterDir(Dir(p), Name(p) + t);
  }

  /** Index of the last '.' in s, or -1. */
  function LastDot(s: string): (i: int)
    ensures -1 <= i < |s|
    ensures i >= 0 ==> s[i] == '.'
    ensures forall j :: i < j < |s| ==> s[j] != '.'
  {
    if |s| == 0 then -1
    else if s[|s| - 1] == '.' then |s| - 1
    else LastDot(s[..|s| - 1])
  }

  lemma {:induction false} LastDotAppend(a: string, b: string)
    requires '.' in b
    ensures LastDot(a + b) == |a| + LastDot(b)
  {
    var j := LastDot(b);
    assert (a + b)[|a| + j] == '.';
    assert forall k :: |a| + j < k < |a + b| ==> (a + b)[k] == b[k - |a|];
  }

  /** Whether the name has a suffix in pathlib's sense: a last dot that is
      neither the first nor the last character. */
  predicate HasSuffix(name: string)
  {
    0 < LastDot(name) < |name| - 1
  }

  /** PurePath.stem: the final component without its last suffix. */
  function Stem(p: string): (s: string)
    ensures '/' !in s
    ensures s <= Name(p)
    ensures !HasSuffix(Name(p)) ==> s == Name(p)
    ensures HasSuffix(Name(p)) ==> |s| == LastDot(Name(p))
  {
    var n := Name(p);
    if HasSuffix(n) then n[..LastDot(n)] else n
  }

  /** PurePath.suffix: the last suffix of the final component, or "". */
  function Suffix(p: string): (x: string)
    ensures Stem(p) + x == Name(p)
    ensures x == [] || x[0] == '.'
  {
    var n := Name(p);
    if HasSuffix(n) then
      assert n[..LastDot(n)] + n[LastDot(n)..] == n;
      n[LastDot(n)..]
    else []
  }

  /** A stem followed by separator-free text is a valid new name. */
  lemma StemWithTag(p: string, tag: string)
    requires '/' !in tag
    ensures '/' !in Stem(p) + tag
  {
  }

  /** PurePath.with_name: the same directory with a new final component. */
  function WithName(p: string, n: string): (q: string)
    requires '/' !in n
    ensures Name(q) == n
    ensures Dir(q) == Dir(p)
  {
    DirNameSplit(p);
    NameAfterDir(Dir(p), n);
    Dir(p) + n
  }

  /** Text whose last '.' is its first character, such as ".mp4". */
  predicate IsExtension(e: string)
  {
    |e| > 1 && '/' !in e && LastDot(e) == 0
  }

  /** The stem of base + ext: the base's final component when it is non-empty,
      and otherwise the extension itself (pathlib treats ".mp4" as a name with
      no suffix). */
  lemma {:induction false} StemOfExtended(base: string, ext: string)
    requires IsExtension(ext)
    ensures Name(base) != [] ==> Stem(base + ext) == Name(base)
    ensures Name(base) == [] ==> Stem(base + ext) == ext
  {
    NameOfAppend(base, ext);
    var n := Name(base + ext);
    assert n == Name(base) + ext;
    assert ext[0] == '.';
    assert '.' in ext;
    LastDotAppend(Name(base), ext);
    if Name(base) != [] {
      assert HasSuffix(n);
      assert n[..LastDot(n)] == Name(base);
    } else {
      assert n == ext;
      assert !HasSuffix(n);
    }
  }
}
