/** `get_unique_path_for_images` of `exif_rename_files.py`: destinations
    claimed by several sources get a zero-padded counter before their
    extension. */
module Resolver {
  import opened PyStr
  import opened PosixPath
  import opened PyCollections

  // ---------------------------------------------------------------------------
  // Specification

  /** The sources whose raw destination is `v`. */
  function Group(raw: map<string, string>, v: string): set<string>
  {
    set k | k in raw && raw[k] == v
  }

  /** The position of `k` once its group is sorted: the members below it. */
  function Rank(k: string, group: set<string>): nat
  {
    |set x | x in group && Less(x, k)|
  }

  /** `"_" + str(i).zfill(len(str(n)))`. */
  function Tag(i: nat, n: nat): string
  {
    "_" + ZFill(Str(i), |Str(n)|)
  }

  /** `re.sub(ext + '$', tag + ext, v)` read literally: `tag` goes in front of
      the extension of `v`. */
  function Suffixed(v: string, tag: string): string
  {
    Splitext(v).0 + tag + Splitext(v).1
  }

  /** The destination the resolver computes for source `k`. */
  function Target(raw: map<string, string>, k: string): string
    requires k in raw
  {
    var group := Group(raw, raw[k]);
    if |group| == 1 then raw[k] else Suffixed(raw[k], Tag(Rank(k, group), |group|))
  }

  function Targets(raw: map<string, string>): (t: map<string, string>)
    ensures t.Keys == raw.Keys
  {
    map k | k in raw :: Target(raw, k)
  }

  /** The sources of `ks` that move, with their destination. */
  function ResolveOn(t: map<string, string>, ks: set<string>): map<string, string>
  {
    map k | k in ks && k in t && t[k] != k :: t[k]
  }

  /** `dNewPathUnique` as a function of `dNewPathRawWithPossibleCollision`:
      only sources of the input appear, and none is mapped to itself. */
  function Resolve(raw: map<string, string>): (r: map<string, string>)
    ensures forall k :: k in r ==> k in raw && r[k] != k
  {
    map k | k in raw && Target(raw, k) != k :: Target(raw, k)
  }

  /** The sources whose raw destination is one of `vs`. */
  function Claimed(raw: map<string, string>, vs: seq<string>): set<string>
  {
    set k | k in raw && raw[k] in vs
  }

  // ---------------------------------------------------------------------------
  // The method

  /** `dNewOldPath` after the first loop has seen the sources `done`: every
      destination met so far, with the sources that claim it, each once. */
  ghost predicate GroupsOf(groups: map<string, seq<string>>, raw: map<string, string>, done: seq<string>)
  {
    && (forall k :: k in done && k in raw ==> raw[k] in groups)
    && (forall v :: v in groups ==> groups[v] != [] && Distinct(groups[v]))
    && (forall v, k :: v in groups ==> (k in groups[v] <==> k in done && k in raw && raw[k] == v))
  }

  /** `get_unique_path_for_images(dNewPathRawWithPossibleCollision)`. The dict
      iteration orders are left open, so the result does not depend on them. */
  method GetUniquePathForImages(raw: map<string, string>) returns (unique: map<string, string>)
    ensures unique == Resolve(raw)
  {
    var newOld := GroupByDestination(raw);
    ghost var t := Targets(raw);
    unique := map[];
    var paths := ListKeys(newOld);
    for j := 0 to |paths|
      invariant unique == ResolveOn(t, Claimed(raw, paths[..j]))
    {
      var newPath := paths[j];
      var sources := newOld[newPath];
      ghost var before := Claimed(raw, paths[..j]);
      ClaimedExtend(raw, paths[..j], newPath);
      assert paths[..j + 1] == paths[..j] + [newPath];
      assert Claimed(raw, paths[..j + 1]) == before + Group(raw, newPath);
      if |sources| == 1 {
        SingletonGroup(raw, before, newPath, sources);
        if sources[0] != newPath {
          unique := unique[sources[0] := newPath];
        }
      } else {
        unique := SuffixGroup(raw, before, unique, newPath, sources);
      }
    }
    ClaimedAll(raw, paths);
    assert paths[..|paths|] == paths;
    ResolveOnAll(raw);
  }

  /** The first loop: `dNewOldPath.setdefault(v, []).append(k)` for every item. */
  method GroupByDestination(raw: map<string, string>) returns (newOld: map<string, seq<string>>)
    ensures forall k :: k in raw ==> raw[k] in newOld
    ensures forall v :: v in newOld ==>
              newOld[v] != [] && Distinct(newOld[v]) && Members(newOld[v]) == Group(raw, v)
  {
    newOld := map[];
    var items := ListKeys(raw);
    for i := 0 to |items|
      invariant GroupsOf(newOld, raw, items[..i])
    {
      var k := items[i];
      var v := raw[k];
      assert items[..i + 1] == items[..i] + [k];
      GroupsStep(newOld, raw, items[..i], k);
      var sources := if v in newOld then newOld[v] else [];
      newOld := newOld[v := sources + [k]];
    }
    assert items[..|items|] == items;
    GroupsComplete(newOld, raw, items);
  }

  /** One `setdefault(v, []).append(k)` for a source not seen before. */
  lemma GroupsStep(groups: map<string, seq<string>>, raw: map<string, string>, done: seq<string>, k: string)
    requires GroupsOf(groups, raw, done) && k in raw && k !in done
    ensures var v := raw[k];
            var sources := if v in groups then groups[v] else [];
            GroupsOf(groups[v := sources + [k]], raw, done + [k])
  {
    var v := raw[k];
    var sources := if v in groups then groups[v] else [];
    assert k !in sources;
    assert Distinct(sources + [k]);
  }

  lemma GroupsComplete(groups: map<string, seq<string>>, raw: map<string, string>, done: seq<string>)
    requires GroupsOf(groups, raw, done)
    requires forall k :: k in done <==> k in raw
    ensures forall k :: k in raw ==> raw[k] in groups
    ensures forall v :: v in groups ==>
              groups[v] != [] && Distinct(groups[v]) && Members(groups[v]) == Group(raw, v)
  {
  }

  /** The loop over a group of several sources, sorted (lines 195-211). */
  method SuffixGroup(ghost raw: map<string, string>, ghost before: set<string>,
                     unique0: map<string, string>, newPath: string, sources: seq<string>)
    returns (unique: map<string, string>)
    requires |sources| > 1 && Distinct(sources)
    requires Members(sources) == Group(raw, newPath)
    requires unique0 == ResolveOn(Targets(raw), before)
    ensures unique == ResolveOn(Targets(raw), before + Group(raw, newPath))
  {
    ghost var t := Targets(raw);
    unique := unique0;
    var n := |sources|;
    var digits := |Str(n)|;
    var sorted := Sort(sources);
    DistinctPermutation(sources, sorted);
    assert Members(sorted) == Members(sources);
    assert |sorted| == n by { assert |multiset(sorted)| == |multiset(sources)|; }
    for i := 0 to |sorted|
      invariant unique == ResolveOn(t, before + Members(sorted[..i]))
    {
      var oldPath := sorted[i];
      var ext := Splitext(newPath).1;
      var tag := "_" + ZFill(Str(i), digits);
      var uniquePath := newPath[..|newPath| - |ext|] + tag + ext;
      SuffixStep(raw, before, newPath, sorted, i);
      if oldPath != uniquePath {
        unique := unique[oldPath := uniquePath];
      }
    }
    assert sorted[..|sorted|] == sorted;
  }

  // ---------------------------------------------------------------------------
  // Lemmas the method rests on

  /** One turn of the loop over a sorted group: the `i`-th member is added
      with the path `re.sub` gives it. */
  lemma SuffixStep(raw: map<string, string>, before: set<string>, v: string, s: seq<string>, i: int)
    requires Sorted(s) && Distinct(s) && |s| > 1 && 0 <= i < |s|
    requires Members(s) == Group(raw, v)
    ensures var t := Targets(raw);
            var ext := Splitext(v).1;
            var u := v[..|v| - |ext|] + ("_" + ZFill(Str(i), |Str(|s|)|)) + ext;
            var done := ResolveOn(t, before + Members(s[..i]));
            ResolveOn(t, before + Members(s[..i + 1])) == if s[i] != u then done[s[i] := u] else done
  {
    var t := Targets(raw);
    var ext := Splitext(v).1;
    var u := v[..|v| - |ext|] + ("_" + ZFill(Str(i), |Str(|s|)|)) + ext;
    TargetOfSorted(raw, v, s, i);
    SuffixedAtEnd(v, Tag(i, |s|));
    assert t[s[i]] == u;
    assert s[..i + 1] == s[..i] + [s[i]];
    MembersAppend(s[..i], s[i]);
    assert before + Members(s[..i + 1]) == (before + Members(s[..i])) + {s[i]};
    ResolveOnAdd(t, before + Members(s[..i]), s[i]);
  }

  /** Inserting before the extension is cutting the extension off the end. */
  lemma SuffixedAtEnd(v: string, tag: string)
    ensures var e := Splitext(v).1;
            |e| <= |v| && Suffixed(v, tag) == v[..|v| - |e|] + tag + e
  {
    var (root, e) := Splitext(v);
    assert v[..|v| - |e|] == root;
  }

  lemma ResolveOnAdd(t: map<string, string>, ks: set<string>, k: string)
    requires k in t
    ensures ResolveOn(t, ks + {k}) == if t[k] != k then ResolveOn(t, ks)[k := t[k]] else ResolveOn(t, ks)
  {
  }

  lemma ResolveOnAll(raw: map<string, string>)
    ensures ResolveOn(Targets(raw), raw.Keys) == Resolve(raw)
  {
  }

  lemma ClaimedExtend(raw: map<string, string>, vs: seq<string>, v: string)
    ensures Claimed(raw, vs + [v]) == Claimed(raw, vs) + Group(raw, v)
  {
  }

  lemma ClaimedAll(raw: map<string, string>, vs: seq<string>)
    requires forall k :: k in raw ==> raw[k] in vs
    ensures Claimed(raw, vs) == raw.Keys
  {
  }

  /** A destination claimed by one source passes through, unless it is that source. */
  lemma SingletonGroup(raw: map<string, string>, before: set<string>, v: string, sources: seq<string>)
    requires |sources| == 1 && Members(sources) == Group(raw, v)
    ensures var t := Targets(raw);
            ResolveOn(t, before + Group(raw, v))
            == if sources[0] != v then ResolveOn(t, before)[sources[0] := v] else ResolveOn(t, before)
  {
    var k := sources[0];
    assert k in Members(sources);
    assert Members(sources) == {k};
    ResolveOnAdd(Targets(raw), before, k);
  }

  /** The member at position `i` of its sorted group has rank `i`. */
  lemma TargetOfSorted(raw: map<string, string>, v: string, s: seq<string>, i: int)
    requires Sorted(s) && Distinct(s) && |s| > 1 && 0 <= i < |s|
    requires Members(s) == Group(raw, v)
    ensures s[i] in raw && Targets(raw)[s[i]] == Suffixed(v, Tag(i, |s|))
  {
    assert s[i] in Members(s);
    DistinctCardinality(s);
    RankOfSorted(s, i);
  }

  /** In a sorted list without duplicates, the entry at `i` has exactly `i` entries below it. */
  lemma RankOfSorted(s: seq<string>, i: int)
    requires Sorted(s) && Distinct(s) && 0 <= i < |s|
    ensures Rank(s[i], Members(s)) == i
  {
    var si := s[i];
    var below := set x | x in Members(s) && Less(x, si);
    forall x | x in below ensures x in Members(s[..i]) {
      var j :| 0 <= j < |s| && s[j] == x;
      if j >= i {
        if j == i { LessIrreflexive(x); }
        else { SortedDistinctIncreasing(s, i, j); LessAsymmetric(si, x); }
      }
      assert s[..i][j] == x;
    }
    forall x | x in Members(s[..i]) ensures x in below {
      var j :| 0 <= j < i && s[..i][j] == x;
      SortedDistinctIncreasing(s, j, i);
    }
    assert below == Members(s[..i]);
    assert Distinct(s[..i]);
    DistinctCardinality(s[..i]);
  }

  // ---------------------------------------------------------------------------
  // Properties of the resolved map

  /** A source whose destination no other source claims keeps that
      destination, and is dropped exactly when it already is that path. */
  lemma SingletonPassThrough(raw: map<string, string>, k: string)
    requires k in raw && Group(raw, raw[k]) == {k}
    ensures k in Resolve(raw) <==> raw[k] != k
    ensures k in Resolve(raw) ==> Resolve(raw)[k] == raw[k]
  {
  }

  /** The counter tag: an underscore, then `i` written with exactly as many
      digits as `n` has. */
  lemma TagShape(i: nat, n: nat)
    requires i < n
    ensures var tag := Tag(i, n);
            && |tag| == 1 + |Str(n)| && tag[0] == '_'
            && AllDigits(tag[1..]) && Value(tag[1..]) == i
  {
    StrLengthMonotone(i, n);
    ZFillStr(i, |Str(n)|);
    assert Tag(i, n)[1..] == ZFill(Str(i), |Str(n)|);
  }

  /** A source claiming a shared destination `v` gets `v` with `_` and its
      zero-padded rank in the sorted group inserted before the extension. */
  lemma SharedDestination(raw: map<string, string>, k: string)
    requires k in raw && |Group(raw, raw[k])| != 1
    ensures var group := Group(raw, raw[k]);
            var (root, ext) := Splitext(raw[k]);
            exists digits ::
              && Target(raw, k) == root + "_" + digits + ext
              && |digits| == |Str(|group|)| && AllDigits(digits)
              && Value(digits) == Rank(k, group) < |group|
  {
    var group := Group(raw, raw[k]);
    var rank := Rank(k, group);
    RankBelow(k, group);
    TagShape(rank, |group|);
    var tag := Tag(rank, |group|);
    var digits := tag[1..];
    assert tag == "_" + digits;
    var (root, ext) := Splitext(raw[k]);
    assert Target(raw, k) == root + tag + ext;
    assert Target(raw, k) == root + "_" + digits + ext;
  }

  lemma RankBelow(k: string, group: set<string>)
    requires k in group
    ensures Rank(k, group) < |group|
  {
    LessIrreflexive(k);
    SubsetCard((set x | x in group && Less(x, k)), group - {k});
  }

  lemma {:induction false} SubsetCard(a: set<string>, b: set<string>)
    requires a <= b
    ensures |a| <= |b|
    decreases a
  {
    if a != {} {
      var x :| x in a;
      SubsetCard(a - {x}, b - {x});
    }
  }

  /** Members of one group have different ranks. */
  lemma RankInjective(a: string, b: string, group: set<string>)
    requires a in group && b in group && a != b
    ensures Rank(a, group) != Rank(b, group)
  {
    LessTotal(a, b);
    if Less(a, b) { RankLess(a, b, group); } else { RankLess(b, a, group); }
  }

  lemma RankLess(a: string, b: string, group: set<string>)
    requires a in group && Less(a, b)
    ensures Rank(a, group) < Rank(b, group)
  {
    var belowA := set x | x in group && Less(x, a);
    var belowB := set x | x in group && Less(x, b);
    forall x | x in belowA ensures x in belowB - {a} {
      LessTransitive(x, a, b);
      LessIrreflexive(a);
    }
    SubsetCard(belowA, belowB - {a});
  }

  /** Two sources claiming the same destination end up at different paths. */
  lemma GroupTargetsDistinct(raw: map<string, string>, k1: string, k2: string)
    requires k1 in raw && k2 in raw && k1 != k2 && raw[k1] == raw[k2]
    ensures Target(raw, k1) != Target(raw, k2)
  {
    var v := raw[k1];
    var group := Group(raw, v);
    SubsetCard({k1, k2}, group);
    RankBelow(k1, group);
    RankBelow(k2, group);
    RankInjective(k1, k2, group);
    var t1 := Tag(Rank(k1, group), |group|);
    var t2 := Tag(Rank(k2, group), |group|);
    TagShape(Rank(k1, group), |group|);
    TagShape(Rank(k2, group), |group|);
    assert t1 != t2;
    if Target(raw, k1) == Target(raw, k2) {
      assert Target(raw, k1) == Suffixed(v, t1) && Target(raw, k2) == Suffixed(v, t2);
      SuffixedInjective(v, t1, t2);
    }
  }

  lemma SuffixedInjective(v: string, t1: string, t2: string)
    requires |t1| == |t2| && Suffixed(v, t1) == Suffixed(v, t2)
    ensures t1 == t2
  {
    var root := Splitext(v).0;
    assert Suffixed(v, t1)[|root|..|root| + |t1|] == t1;
    assert Suffixed(v, t2)[|root|..|root| + |t2|] == t2;
  }

  // ---------------------------------------------------------------------------
  // Across groups

  /** The number of decimal digits that end `s`. */
  function TrailingDigits(s: string): (n: nat)
    ensures n <= |s| && AllDigits(s[|s| - n..])
    ensures n < |s| ==> !IsDigit(s[|s| - n - 1])
  {
    if s != [] && IsDigit(s[|s| - 1]) then 1 + TrailingDigits(s[..|s| - 1]) else 0
  }

  /** A root that ends like one the resolver produces: `_` and digits. */
  predicate LooksSuffixed(root: string)
  {
    var n := TrailingDigits(root);
    0 < n < |root| && root[|root| - n - 1] == '_'
  }

  /** A root whose last character before its final digits is neither a
      digit nor `_` does not look like one the resolver produces. */
  lemma NotLooksSuffixed(root: string, x: char, d: string)
    requires AllDigits(d) && !IsDigit(x) && x != '_'
    requires EndsWith(root, [x] + d)
    ensures !LooksSuffixed(root)
  {
    var s := root[..|root| - |d|];
    assert root == s + d;
    assert s[|s| - 1] == x by {
      assert s[|s| - 1] == root[|root| - |d| - 1] == ([x] + d)[0];
    }
    TrailingDigitsAfter(s, d);
  }

  lemma {:induction false} TrailingDigitsAfter(s: string, d: string)
    requires AllDigits(d) && s != [] && !IsDigit(s[|s| - 1])
    ensures TrailingDigits(s + d) == |d|
  {
    if d == [] {
      assert s + d == s;
    } else {
      var d' := d[..|d| - 1];
      TrailingDigitsAfter(s, d');
      assert (s + d)[..|s + d| - 1] == s + d';
    }
  }

  /** Every root with a tag in front of its extension looks suffixed. */
  lemma TaggedLooksSuffixed(root: string, tag: string)
    requires |tag| > 1 && tag[0] == '_' && AllDigits(tag[1..])
    ensures LooksSuffixed(root + tag)
  {
    assert root + tag == (root + "_") + tag[1..];
    TrailingDigitsAfter(root + "_", tag[1..]);
  }

  /** Two tagged roots that are equal carry tags of the same width. */
  lemma TaggedRootsAlign(r1: string, t1: string, r2: string, t2: string)
    requires |t1| > 1 && t1[0] == '_' && AllDigits(t1[1..])
    requires |t2| > 1 && t2[0] == '_' && AllDigits(t2[1..])
    requires r1 + t1 == r2 + t2
    ensures |t1| == |t2| && r1 == r2
  {
    TaggedWidthBound(r1, t1, r2, t2);
    TaggedWidthBound(r2, t2, r1, t1);
    assert r1 == (r1 + t1)[..|r1|] == (r2 + t2)[..|r2|] == r2;
  }

  /** The underscore of the shorter tag would have to face a digit of the longer one. */
  lemma TaggedWidthBound(r1: string, t1: string, r2: string, t2: string)
    requires |t1| > 1 && t1[0] == '_'
    requires |t2| > 1 && AllDigits(t2[1..])
    requires r1 + t1 == r2 + t2
    ensures |t2| <= |t1|
  {
    var s := r1 + t1;
    assert s[|r1|] == '_';
    forall j | |r2| < j < |s| ensures IsDigit(s[j]) {
      assert s[j] == t2[1..][j - |r2| - 1];
    }
  }

  /** What a source claiming a shared destination gets, split at its extension. */
  lemma SharedTargetSplits(raw: map<string, string>, k: string)
    requires k in raw && |Group(raw, raw[k])| != 1
    ensures var group := Group(raw, raw[k]);
            var tag := Tag(Rank(k, group), |group|);
            && |tag| > 1 && tag[0] == '_' && AllDigits(tag[1..])
            && Splitext(Target(raw, k)) == (Splitext(raw[k]).0 + tag, Splitext(raw[k]).1)
  {
    var group := Group(raw, raw[k]);
    RankBelow(k, group);
    var tag := Tag(Rank(k, group), |group|);
    TagShape(Rank(k, group), |group|);
    assert '.' !in tag && '/' !in tag by {
      forall j | 0 <= j < |tag| ensures tag[j] != '.' && tag[j] != '/' {
        if j > 0 { assert tag[j] == tag[1..][j - 1]; }
      }
    }
    SplitextInsert(raw[k], tag);
  }

  /** No two sources end up at the same path, provided no raw destination
      already ends the way a suffixed one does. */
  lemma TargetsInjective(raw: map<string, string>, k1: string, k2: string)
    requires k1 in raw && k2 in raw && k1 != k2
    requires forall k :: k in raw ==> !LooksSuffixed(Splitext(raw[k]).0)
    ensures Target(raw, k1) != Target(raw, k2)
  {
    var v1, v2 := raw[k1], raw[k2];
    if v1 == v2 {
      GroupTargetsDistinct(raw, k1, k2);
    } else if |Group(raw, v1)| != 1 && |Group(raw, v2)| != 1 {
      SharedTargetsDiffer(raw, k1, k2);
    } else if |Group(raw, v2)| != 1 {
      SingletonBesideShared(raw, k1, k2);
    } else if |Group(raw, v1)| != 1 {
      SingletonBesideShared(raw, k2, k1);
    }
  }

  lemma SharedTargetsDiffer(raw: map<string, string>, k1: string, k2: string)
    requires k1 in raw && k2 in raw && raw[k1] != raw[k2]
    requires |Group(raw, raw[k1])| != 1 && |Group(raw, raw[k2])| != 1
    ensures Target(raw, k1) != Target(raw, k2)
  {
    SharedTargetSplits(raw, k1);
    SharedTargetSplits(raw, k2);
    var (r1, e1) := Splitext(raw[k1]);
    var (r2, e2) := Splitext(raw[k2]);
    if Target(raw, k1) == Target(raw, k2) {
      var g1, g2 := Group(raw, raw[k1]), Group(raw, raw[k2]);
      TaggedRootsAlign(r1, Tag(Rank(k1, g1), |g1|), r2, Tag(Rank(k2, g2), |g2|));
    }
  }

  lemma SingletonBesideShared(raw: map<string, string>, k1: string, k2: string)
    requires k1 in raw && k2 in raw && raw[k1] != raw[k2]
    requires |Group(raw, raw[k1])| == 1 && |Group(raw, raw[k2])| != 1
    requires !LooksSuffixed(Splitext(raw[k1]).0)
    ensures Target(raw, k1) != Target(raw, k2)
  {
    SharedTargetSplits(raw, k2);
    if Target(raw, k1) == Target(raw, k2) {
      var g2 := Group(raw, raw[k2]);
      TaggedLooksSuffixed(Splitext(raw[k2]).0, Tag(Rank(k2, g2), |g2|));
    }
  }

  /** The resolved map never sends two sources to one path, under the same proviso. */
  lemma ResolveInjective(raw: map<string, string>)
    requires forall k :: k in raw ==> !LooksSuffixed(Splitext(raw[k]).0)
    ensures var r := Resolve(raw);
            forall k1, k2 :: k1 in r && k2 in r && k1 != k2 ==> r[k1] != r[k2]
  {
    forall k1, k2 | k1 in Resolve(raw) && k2 in Resolve(raw) && k1 != k2
      ensures Resolve(raw)[k1] != Resolve(raw)[k2]
    {
      TargetsInjective(raw, k1, k2);
    }
  }

  /** Without the proviso two sources can meet: `x_1.jpg`, claimed once, is
      also what the second of two sources claiming `x.jpg` is given. */
  lemma CrossGroupCollision()
    ensures var raw := map["a.jpg" := "x_1.jpg", "b.jpg" := "x.jpg", "c.jpg" := "x.jpg"];
            && "a.jpg" in Resolve(raw) && "c.jpg" in Resolve(raw)
            && Resolve(raw)["a.jpg"] == Resolve(raw)["c.jpg"] == "x_1.jpg"
  {
    var raw := map["a.jpg" := "x_1.jpg", "b.jpg" := "x.jpg", "c.jpg" := "x.jpg"];
    CollisionGroups(raw);
    CollisionRank({"b.jpg", "c.jpg"}, "c.jpg");
    CollisionTag();
    CollisionSuffixed();
  }

  lemma CollisionGroups(raw: map<string, string>)
    requires raw == map["a.jpg" := "x_1.jpg", "b.jpg" := "x.jpg", "c.jpg" := "x.jpg"]
    ensures Group(raw, "x_1.jpg") == {"a.jpg"} && Group(raw, "x.jpg") == {"b.jpg", "c.jpg"}
  {
    assert "x.jpg" != "x_1.jpg" by { assert |"x.jpg"| != |"x_1.jpg"|; }
  }

  lemma CollisionRank(group: set<string>, k: string)
    requires group == {"b.jpg", "c.jpg"} && k == "c.jpg"
    ensures Rank(k, group) == 1
  {
    var below := set x | x in group && Less(x, k);
    assert Less("b.jpg", "c.jpg");
    LessIrreflexive(k);
    assert "b.jpg" in below && k !in below;
    assert below == {"b.jpg"};
  }

  lemma CollisionTag()
    ensures Tag(1, |{"b.jpg", "c.jpg"}|) == "_1"
  {
    assert "b.jpg" != "c.jpg" by { assert "b.jpg"[0] != "c.jpg"[0]; }
    assert Str(1) == "1" && Str(2) == "2";
  }

  lemma CollisionSuffixed()
    ensures Suffixed("x.jpg", "_1") == "x_1.jpg"
  {
    StemThenExt("x", ".jpg");
    assert "x" + ".jpg" == "x.jpg";
    assert Splitext("x.jpg").0 == "x";
  }
}
