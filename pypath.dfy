/** The `posixpath` functions the converter calls: `basename`, `join` of two
    parts and the root half of `splitext`. */
module PyPath {

  const SEP := '/'
  const EXTSEP := '.'

  /** `p.rfind(c)`: the index of the last `c` in `p`, or -1. */
  function RFind(p: string, c: char): (k: int)
    ensures -1 <= k < |p|
    ensures 0 <= k ==> p[k] == c
    ensures forall j :: k < j < |p| ==> p[j] != c
  {
    if p == [] then -1
    else if p[|p| - 1] == c then |p| - 1
    else RFind(p[..|p| - 1], c)
  }

  /** `posixpath.basename(p)`: what follows the last separator. */
  function Basename(p: string): (r: string)
    ensures SEP !in r
    ensures |r| <= |p| && p[|p| - |r|..] == r
    ensures |r| < |p| ==> p[|p| - |r| - 1] == SEP
  {
    p[RFind(p, SEP) + 1..]
  }

  /** `posixpath.join(a, b)` for two parts: an absolute `b` replaces `a`;
      otherwise `b` is appended, after a separator unless `a` is empty or
      already ends in one. */
  function Join(a: string, b: string): (r: string)
    ensures |b| > 0 && b[0] == SEP ==> r == b
    ensures !(|b| > 0 && b[0] == SEP) ==>
              && |a| + |b| <= |r| <= |a| + |b| + 1
              && r[..|a|] == a && r[|r| - |b|..] == b
              && (|r| > |a| + |b| ==> r[|a|] == SEP)
  {
    if |b| > 0 && b[0] == SEP then b
    else if a == [] || a[|a| - 1] == SEP then a + b
    else a + [SEP] + b
  }

  /** Whether the last component of `p` has a dot at `dot` that starts an
      extension: `dot` comes after the last separator and some character
      between that separator and `dot` is not a dot (so the leading dots of
      a name like `.bashrc` do not start one). */
  predicate SplitsAt(p: string, dot: int)
  {
    && 0 <= dot < |p| && p[dot] == EXTSEP && RFind(p, SEP) < dot
    && exists i :: RFind(p, SEP) < i < dot && p[i] != EXTSEP
  }

  /** `posixpath.splitext(p)[0]`: `p` without the extension that starts at
      its last dot, when that dot splits the last component; otherwise `p`.
      The root is a prefix of `p`, and what it drops is a dot followed by
      neither a dot nor a separator. */
  function Stem(p: string): (r: string)
    ensures |r| <= |p| && p[..|r|] == r
    ensures r != p ==> p[|r|] == EXTSEP && forall j :: |r| < j < |p| ==> p[j] != EXTSEP && p[j] != SEP
  {
    var dot := RFind(p, EXTSEP);
    if SplitsAt(p, dot) then p[..dot] else p
  }

  /** The stem is empty only for the empty path: an extension is split off
      only after a character that is not a dot. */
  lemma StemEmpty(p: string)
    ensures Stem(p) == [] <==> p == []
  {
    var dot := RFind(p, EXTSEP);
    if SplitsAt(p, dot) {
      var i :| RFind(p, SEP) < i < dot && p[i] != EXTSEP;
      assert |p[..dot]| > 0;
    }
  }

  /** A name with no separator is its own basename. */
  lemma BasenameOfName(name: string)
    requires SEP !in name
    ensures Basename(name) == name
  {
  }

  /** Joining a name without separators onto a directory and taking the
      basename gives the name back. */
  lemma BasenameOfJoin(dir: string, name: string)
    requires name != [] && SEP !in name
    ensures Basename(Join(dir, name)) == name
  {
    assert name[0] != SEP;
    var p := Join(dir, name);
    if dir == [] {
      BasenameOfName(name);
    } else {
      var k := if dir[|dir| - 1] == SEP then |dir| - 1 else |dir|;
      assert p == p[..k + 1] + name;
      assert forall j :: k < j < |p| ==> p[j] == name[j - k - 1];
      RFindAt(p, SEP, k);
    }
  }

  /** A joined name without separators stays directly inside the directory:
      the path is the directory, then at most one separator, then the name. */
  lemma JoinStaysInside(dir: string, name: string)
    requires name != [] && SEP !in name
    ensures Join(dir, name) == dir + name || Join(dir, name) == dir + [SEP] + name
    ensures |Join(dir, name)| >= |dir| && Join(dir, name)[..|dir|] == dir
  {
    assert name[0] != SEP;
  }

  /** The last dot of a name, when no dot or separator follows it. */
  lemma RFindAt(p: string, c: char, k: nat)
    requires k < |p| && p[k] == c
    requires forall j :: k < j < |p| ==> p[j] != c
    ensures RFind(p, c) == k
  {
  }

  /** Splitting `n.ext`: when `ext` has no dot, no part has a separator and
      `n` has a character other than a dot, the stem is `n`. This is how
      `note42.html` gives the title `note42`. */
  lemma StemOfExtension(n: string, ext: string)
    requires SEP !in n && SEP !in ext && EXTSEP !in ext
    requires exists i :: 0 <= i < |n| && n[i] != EXTSEP
    ensures Stem(n + [EXTSEP] + ext) == n
  {
    var p := n + [EXTSEP] + ext;
    var i :| 0 <= i < |n| && n[i] != EXTSEP;
    assert forall j :: |n| < j < |p| ==> p[j] == ext[j - |n| - 1];
    RFindAt(p, EXTSEP, |n|);
    assert forall j :: 0 <= j < |p| ==> p[j] != SEP by {
      forall j | 0 <= j < |p| ensures p[j] != SEP {
        if j < |n| { assert p[j] == n[j]; }
        else if j > |n| { assert p[j] == ext[j - |n| - 1]; }
      }
    }
    assert RFind(p, SEP) == -1;
    assert p[i] == n[i];
    assert SplitsAt(p, |n|);
    assert p[..|n|] == n;
  }

  /** A name whose only dots are leading ones (like `.bashrc`) has no
      extension, and neither has a name without dots. */
  lemma StemOfLeadingDots(dots: string, rest: string)
    requires forall i :: 0 <= i < |dots| ==> dots[i] == EXTSEP
    requires SEP !in rest && EXTSEP !in rest
    ensures Stem(dots + rest) == dots + rest
  {
    var p := dots + rest;
    var k := RFind(p, EXTSEP);
    if 0 <= k {
      assert k < |dots|;
      assert !SplitsAt(p, k) by {
        forall i | RFind(p, SEP) < i < k ensures p[i] == EXTSEP {
          assert p[i] == dots[i];
        }
      }
    }
  }
}
