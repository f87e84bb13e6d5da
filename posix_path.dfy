/** Models of the `posixpath` functions the renaming scripts call:
    `dirname`, `basename`, `splitext` and two-argument `join`. */
module PosixPath {
  import opened PyStr

  /** `s.rfind(c)`: the index of the last `c`, or -1. */
  function LastIndexOf(s: string, c: char): (r: int)
    ensures -1 <= r < |s|
    ensures r >= 0 ==> s[r] == c
    ensures forall j :: r < j < |s| ==> s[j] != c
  {
    if s == [] then -1
    else if s[|s| - 1] == c then |s| - 1
    else LastIndexOf(s[..|s| - 1], c)
  }

  /** The last `c` is the only one with no `c` after it. */
  lemma LastIndexOfIs(s: string, c: char, i: int)
    requires -1 <= i < |s|
    requires i >= 0 ==> s[i] == c
    requires forall j :: i < j < |s| ==> s[j] != c
    ensures LastIndexOf(s, c) == i
  {
  }

  predicate AllChar(s: string, c: char)
  {
    forall j :: 0 <= j < |s| ==> s[j] == c
  }

  /** `s.rstrip(c)`. */
  function RStrip(s: string, c: char): (r: string)
    ensures |r| <= |s| && r == s[..|r|]
    ensures r == [] || r[|r| - 1] != c
    ensures forall j :: |r| <= j < |s| ==> s[j] == c
  {
    if s != [] && s[|s| - 1] == c then RStrip(s[..|s| - 1], c) else s
  }

  /** What `dirname` can return: empty, a run of slashes, or a path not ending in a slash. */
  predicate DirShaped(d: string)
  {
    d == [] || d[|d| - 1] != '/' || AllChar(d, '/')
  }

  /** `posixpath.dirname`: everything up to the last slash, trailing slashes
      removed unless the whole head is slashes. */
  function Dirname(p: string): (d: string)
    ensures |d| <= |p| && d == p[..|d|]
    ensures DirShaped(d)
    ensures '/' !in p ==> d == []
  {
    var i := LastIndexOf(p, '/') + 1;
    var head := p[..i];
    if head != [] && !AllChar(head, '/') then RStrip(head, '/') else head
  }

  /** `posixpath.basename`: everything after the last slash. */
  function Basename(p: string): (b: string)
    ensures '/' !in b
    ensures |b| <= |p| && p[|p| - |b|..] == b
    ensures |b| < |p| ==> p[|p| - |b| - 1] == '/'
  {
    p[LastIndexOf(p, '/') + 1..]
  }

  /** The extensions `splitext` can return: empty, or a dot followed by
      characters that are neither dots nor slashes. */
  predicate ValidExt(e: string)
  {
    e == [] || (e[0] == '.' && forall j :: 0 < j < |e| ==> e[j] != '.' && e[j] != '/')
  }

  /** `posixpath.splitext`: the extension starts at the last dot after the
      last slash, provided the base name has a non-dot character before it
      (leading dots of a base name never start an extension). */
  function Splitext(p: string): (r: (string, string))
    ensures r.0 + r.1 == p
    ensures ValidExt(r.1)
  {
    var sep := LastIndexOf(p, '/');
    var dot := LastIndexOf(p, '.');
    if dot > sep && NonDotBetween(p, sep, dot) then (p[..dot], p[dot..]) else (p, [])
  }

  /** Some character strictly between `lo` and `hi` is not a dot. */
  predicate NonDotBetween(p: string, lo: int, hi: int)
  {
    exists k :: lo < k < hi && 0 <= k < |p| && p[k] != '.'
  }

  lemma NonDotBetweenShift(pre: string, name: string, lo: int, hi: int)
    requires -1 <= lo && hi <= |name|
    ensures NonDotBetween(pre + name, |pre| + lo, |pre| + hi) == NonDotBetween(name, lo, hi)
  {
    var p := pre + name;
    if NonDotBetween(name, lo, hi) {
      var k :| lo < k < hi && 0 <= k < |name| && name[k] != '.';
      assert p[|pre| + k] == name[k];
    }
    if NonDotBetween(p, |pre| + lo, |pre| + hi) {
      var k :| |pre| + lo < k < |pre| + hi && 0 <= k < |p| && p[k] != '.';
      assert name[k - |pre|] == p[k];
    }
  }

  /** `posixpath.join(a, b)`: an absolute `b` wins, otherwise a slash is
      inserted unless `a` is empty or already ends with one. */
  function Join(a: string, b: string): (r: string)
    ensures EndsWith(r, b)
    ensures b != [] && b[0] == '/' ==> r == b
    ensures b == [] || b[0] != '/' ==> |a| <= |r| && r[..|a|] == a
  {
    if b != [] && b[0] == '/' then b
    else if a == [] || a[|a| - 1] == '/' then a + b
    else a + "/" + b
  }

  /** What `Join` puts in front of a relative right-hand side. */
  function JoinPrefix(a: string): (pre: string)
    ensures pre == [] || pre[|pre| - 1] == '/'
  {
    if a == [] || a[|a| - 1] == '/' then a else a + "/"
  }

  lemma JoinRelative(a: string, b: string)
    requires b == [] || b[0] != '/'
    ensures Join(a, b) == JoinPrefix(a) + b
  {
  }

  /** A path is what precedes its base name followed by the base name. */
  lemma SplitAtBasename(p: string)
    ensures p == p[..|p| - |Basename(p)|] + Basename(p)
    ensures var pre := p[..|p| - |Basename(p)|]; pre == [] || pre[|pre| - 1] == '/'
  {
  }

  /** Joining a directory-shaped prefix with a slash-free name: the name is the base name. */
  lemma {:induction false} BasenameOfJoin(d: string, name: string)
    requires '/' !in name
    ensures Basename(Join(d, name)) == name
  {
    var pre := JoinPrefix(d);
    JoinRelative(d, name);
    var p := pre + name;
    if pre == [] {
      assert p == name;
      LastIndexOfIs(p, '/', -1);
    } else {
      LastIndexOfIs(p, '/', |pre| - 1);
      assert p[|pre|..] == name;
    }
  }

  /** `dirname` of a path whose last slash is at `i`. */
  lemma DirnameAt(p: string, i: int)
    requires 0 <= i < |p| && p[i] == '/'
    requires forall j :: i < j < |p| ==> p[j] != '/'
    ensures Dirname(p) == if AllChar(p[..i + 1], '/') then p[..i + 1] else RStrip(p[..i + 1], '/')
  {
    LastIndexOfIs(p, '/', i);
  }

  /** Joining what `dirname` returns with a slash-free name gives back the same directory. */
  lemma {:induction false} DirnameOfJoin(d: string, name: string)
    requires DirShaped(d)
    requires '/' !in name
    ensures Dirname(Join(d, name)) == d
  {
    JoinRelative(d, name);
    var p := Join(d, name);
    if d == [] {
      assert p == name;
    } else if d[|d| - 1] == '/' {
      assert p == d + name;
      DirnameAt(p, |d| - 1);
      assert p[..|d|] == d;
    } else {
      assert p == d + "/" + name;
      DirnameAt(p, |d|);
      var head := p[..|d| + 1];
      assert head == d + "/";
      assert head[|d| - 1] != '/';
      assert head[..|head| - 1] == d;
      assert RStrip(head, '/') == RStrip(d, '/');
    }
  }

  /** `splitext` in terms of the last slash and the last dot. */
  lemma SplitextAt(p: string, sep: int, dot: int)
    requires sep == LastIndexOf(p, '/') && dot == LastIndexOf(p, '.')
    ensures Splitext(p).1 == if dot > sep && NonDotBetween(p, sep, dot) then p[dot..] else []
  {
  }

  /** The extension of a path depends only on its base name. */
  lemma {:induction false} ExtAfterSlash(pre: string, name: string)
    requires pre == [] || pre[|pre| - 1] == '/'
    requires '/' !in name
    ensures Splitext(pre + name).1 == Splitext(name).1
  {
    var p := pre + name;
    LastIndexOfIs(p, '/', |pre| - 1);
    LastIndexOfIs(name, '/', -1);
    var dn := LastIndexOf(name, '.');
    SplitextAt(name, -1, dn);
    if dn >= 0 {
      ExtAfterSlashDot(pre, name, dn);
    } else {
      var dp := LastIndexOf(pre, '.');
      assert forall j :: |pre| <= j < |p| ==> p[j] == name[j - |pre|];
      LastIndexOfIs(p, '.', dp);
      assert pre != [] ==> dp < |pre| - 1;
      SplitextAt(p, |pre| - 1, dp);
    }
  }

  lemma LastSlashAfterPrefix(pre: string, name: string)
    requires pre == [] || pre[|pre| - 1] == '/'
    requires '/' !in name
    ensures LastIndexOf(pre + name, '/') == |pre| - 1
  {
    var p := pre + name;
    assert forall j :: |pre| <= j < |p| ==> p[j] == name[j - |pre|];
    LastIndexOfIs(p, '/', |pre| - 1);
  }

  lemma LastDotInName(pre: string, name: string, dn: int)
    requires 0 <= dn && dn == LastIndexOf(name, '.')
    ensures LastIndexOf(pre + name, '.') == |pre| + dn
  {
    var p := pre + name;
    assert forall j :: |pre| <= j < |p| ==> p[j] == name[j - |pre|];
    LastIndexOfIs(p, '.', |pre| + dn);
  }

  lemma ExtAfterSlashDot(pre: string, name: string, dn: int)
    requires pre == [] || pre[|pre| - 1] == '/'
    requires '/' !in name
    requires 0 <= dn && dn == LastIndexOf(name, '.')
    ensures Splitext(pre + name).1 == if NonDotBetween(name, -1, dn) then name[dn..] else []
  {
    var p := pre + name;
    var dot := |pre| + dn;
    LastSlashAfterPrefix(pre, name);
    LastDotInName(pre, name, dn);
    SplitextAt(p, |pre| - 1, dot);
    assert p[dot..] == name[dn..];
    NonDotBetweenShift(pre, name, -1, dn);
  }

  /** A name made of a dot-free, slash-free stem and an extension has that extension. */
  lemma StemThenExt(stem: string, e: string)
    requires stem != [] && '.' !in stem && '/' !in stem
    requires ValidExt(e)
    ensures Splitext(stem + e).1 == e
  {
    var p := stem + e;
    LastIndexOfIs(p, '/', -1);
    if e == [] {
      assert p == stem;
      LastIndexOfIs(p, '.', -1);
    } else {
      LastIndexOfIs(p, '.', |stem|);
      assert p[0] == stem[0];
      assert p[|stem|..] == e;
    }
  }

  /** The extension of a path is the extension of its base name. */
  lemma ExtOfBasename(p: string)
    ensures Splitext(p).1 == Splitext(Basename(p)).1
  {
    SplitAtBasename(p);
    ExtAfterSlash(p[..|p| - |Basename(p)|], Basename(p));
  }

  /** A slash-free, dot-free piece put in front of the extension becomes part
      of the root: the extension is unchanged. */
  lemma SplitextInsert(v: string, t: string)
    requires t != [] && '.' !in t && '/' !in t
    ensures Splitext(Splitext(v).0 + t + Splitext(v).1) == (Splitext(v).0 + t, Splitext(v).1)
  {
    var sep := LastIndexOf(v, '/');
    var dot := LastIndexOf(v, '.');
    SplitextAt(v, sep, dot);
    if dot > sep && NonDotBetween(v, sep, dot) {
      SplitextInsertExt(v, t, sep, dot);
    } else {
      SplitextInsertNoExt(v, t, sep, dot);
    }
  }

  lemma SplitextInsertExt(v: string, t: string, sep: int, dot: int)
    requires t != [] && '.' !in t && '/' !in t
    requires sep == LastIndexOf(v, '/') && dot == LastIndexOf(v, '.')
    requires dot > sep && NonDotBetween(v, sep, dot)
    ensures Splitext(v[..dot] + t + v[dot..]) == (v[..dot] + t, v[dot..])
  {
    var p := v[..dot] + t + v[dot..];
    var d := dot + |t|;
    assert forall j :: 0 <= j < dot ==> p[j] == v[j];
    assert forall j :: d <= j < |p| ==> p[j] == v[j - |t|];
    assert forall j :: dot <= j < d ==> p[j] == t[j - dot];
    LastIndexOfIs(p, '/', sep);
    LastIndexOfIs(p, '.', d);
    assert p[dot] == t[0];
    assert NonDotBetween(p, sep, d);
    SplitextAt(p, sep, d);
    assert p[..d] == v[..dot] + t;
    assert p[d..] == v[dot..];
  }

  lemma SplitextInsertNoExt(v: string, t: string, sep: int, dot: int)
    requires t != [] && '.' !in t && '/' !in t
    requires sep == LastIndexOf(v, '/') && dot == LastIndexOf(v, '.')
    requires !(dot > sep && NonDotBetween(v, sep, dot))
    ensures Splitext(v + t) == (v + t, [])
  {
    var p := v + t;
    assert forall j :: 0 <= j < |v| ==> p[j] == v[j];
    assert forall j :: |v| <= j < |p| ==> p[j] == t[j - |v|];
    LastIndexOfIs(p, '/', sep);
    LastIndexOfIs(p, '.', dot);
    SplitextAt(p, sep, dot);
  }
}
