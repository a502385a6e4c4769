/**
 The path rewrite `ExtraPackage::fixRelativePaths` applies to an autoload
 section before merging it: `array_walk_recursive` visits every leaf and
 prefixes it with the manifest's directory and a slash, or with nothing when
 that directory is ".". Keys, key order and nesting are untouched.
 */
module RelativePaths {
  import opened PhpArray
  import PathName

  /** The prefix for leaves of a manifest read from `path`. */
  function Base(path: string): (r: string)
    ensures r == "" || r[|r| - 1] == '/'
  {
    var dir := PathName.Dirname(path);
    if dir == "." then "" else dir + "/"
  }

  /** The walk over one value; a null leaf reads as the empty string. */
  function FixValue(v: Value, base: string): Value
  {
    match v
    case Str(s) => Str(base + s)
    case Null => Str(base)
    case Arr(es) => Arr(seq(|es|, i requires 0 <= i < |es| => Entry(es[i].key, FixValue(es[i].value, base))))
  }

  function FixEntries(es: seq<Entry>, base: string): seq<Entry>
  {
    FixValue(Arr(es), base).entries
  }

  /** `fixRelativePaths($paths)` for the manifest at `path`. */
  function FixRelativePaths(path: string, es: seq<Entry>): (r: seq<Entry>)
    ensures SameShape(Arr(es), Arr(r))
    ensures LeafSeqs(r) == Prefixed(Base(path), LeafSeqs(es))
    ensures NoNulls(Arr(r))
    ensures StringKeys(r) == StringKeys(es)
    ensures WellFormedEntries(es) ==> WellFormedEntries(r)
  {
    var base := Base(path);
    FixPreservesShape(Arr(es), base);
    FixNoNulls(Arr(es), base);
    SameShapeStringKeys(es, FixEntries(es, base));
    FixLeaves(Arr(es), base);
    FixWellFormed(Arr(es), base);
    FixEntries(es, base)
  }

  /** The walk keeps every key in place. */
  lemma FixEntriesKeys(es: seq<Entry>, base: string)
    ensures |FixEntries(es, base)| == |es|
    ensures forall i :: 0 <= i < |es| ==> FixEntries(es, base)[i].key == es[i].key
    ensures DistinctKeys(es) ==> DistinctKeys(FixEntries(es, base))
  {
  }

  /** Whatever a key held before the walk, it holds rewritten afterwards. */
  lemma FixEntriesGet(es: seq<Entry>, base: string, k: Key)
    ensures Get(FixEntries(es, base), k) == if Get(es, k).Some? then Some(FixValue(Get(es, k).value, base)) else None
  {
    var r := FixEntries(es, base);
    var fa, fr := Find(es, k), Find(r, k);
    assert fa < |es| ==> r[fa].key == k;
    assert fr < |r| ==> es[fr].key == k;
  }

  // ---------------------------------------------------------------------
  // Reference definitions: what it means for a rewrite to touch only leaves.

  /** Same keys in the same order at every level; scalars may differ. */
  predicate SameShape(v: Value, w: Value)
  {
    match v
    case Arr(a) =>
      && w.Arr?
      && |a| == |w.entries|
      && forall i :: 0 <= i < |a| ==>
           a[i].key == w.entries[i].key && SameShape(a[i].value, w.entries[i].value)
    case _ => !w.Arr?
  }

  lemma SameShapeStringKeys(a: seq<Entry>, b: seq<Entry>)
    requires SameShape(Arr(a), Arr(b))
    ensures StringKeys(a) == StringKeys(b)
  {
    forall s | s in StringKeys(a) ensures s in StringKeys(b) {
      var i :| 0 <= i < |a| && a[i].key.SKey? && a[i].key.s == s;
      assert b[i].key == a[i].key;
    }
    forall s | s in StringKeys(b) ensures s in StringKeys(a) {
      var i :| 0 <= i < |b| && b[i].key.SKey? && b[i].key.s == s;
      assert b[i].key == a[i].key;
    }
  }

  /** Every string of `ss`, in order, with `base` in front. */
  function Prefixed(base: string, ss: seq<string>): (r: seq<string>)
  {
    seq(|ss|, i requires 0 <= i < |ss| => base + ss[i])
  }

  lemma PrefixedConcat(base: string, a: seq<string>, b: seq<string>)
    ensures Prefixed(base, a + b) == Prefixed(base, a) + Prefixed(base, b)
  {
  }

  // ---------------------------------------------------------------------
  // What the rewrite does.

  lemma {:induction false} FixPreservesShape(v: Value, base: string)
    ensures SameShape(v, FixValue(v, base))
  {
    match v
    case Arr(es) =>
      forall i | 0 <= i < |es| {
        FixPreservesShape(es[i].value, base);
      }
    case _ =>
  }

  lemma {:induction false} FixNoNulls(v: Value, base: string)
    ensures NoNulls(FixValue(v, base))
  {
    match v
    case Arr(es) =>
      forall i | 0 <= i < |es| {
        FixNoNulls(es[i].value, base);
      }
    case _ =>
  }

  lemma {:induction false} FixWellFormed(v: Value, base: string)
    ensures WellFormed(v) ==> WellFormed(FixValue(v, base))
  {
    match v
    case Arr(es) =>
      forall i | 0 <= i < |es| {
        FixWellFormed(es[i].value, base);
      }
    case _ =>
  }

  /** Every leaf `s` becomes `base + s`, in the same depth-first order. */
  lemma {:induction false} FixLeaves(v: Value, base: string)
    ensures LeafSeq(FixValue(v, base)) == Prefixed(base, LeafSeq(v))
    decreases Size(v), 0
  {
    match v
    case Arr(es) =>
      EntriesSizeOfArr(es);
      FixLeavesEntries(es, base);
    case Str(s) =>
    case Null =>
      assert base + "" == base;
  }

  lemma {:induction false} FixLeavesEntries(es: seq<Entry>, base: string)
    ensures LeafSeqs(FixEntries(es, base)) == Prefixed(base, LeafSeqs(es))
    decreases EntriesSize(es), 1
  {
    if es != [] {
      EntriesSizeCons(es);
      var fs := FixEntries(es, base);
      assert fs[0].value == FixValue(es[0].value, base);
      assert fs[1..] == FixEntries(es[1..], base);
      FixLeaves(es[0].value, base);
      FixLeavesEntries(es[1..], base);
      PrefixedConcat(base, LeafSeq(es[0].value), LeafSeqs(es[1..]));
    }
  }

  /** With an empty prefix the rewrite changes nothing, as long as no leaf is null. */
  lemma {:induction false} FixWithEmptyBaseIsIdentity(v: Value)
    requires NoNulls(v)
    ensures FixValue(v, "") == v
  {
    match v
    case Arr(es) =>
      forall i | 0 <= i < |es| {
        FixWithEmptyBaseIsIdentity(es[i].value);
      }
      assert FixValue(v, "").entries == es;
    case Str(s) =>
      assert "" + s == s;
    case Null =>
  }

  /** Entries read from a manifest in the current directory merge unchanged. */
  lemma FixRelativePathsInCurrentDirectory(path: string, es: seq<Entry>)
    requires PathName.Dirname(path) == "."
    requires NoNulls(Arr(es))
    ensures FixRelativePaths(path, es) == es
  {
    FixWithEmptyBaseIsIdentity(Arr(es));
  }

  /** Entries read from `dir/name` get `dir/` in front of every leaf. */
  lemma FixRelativePathsInDirectory(dir: string, name: string, es: seq<Entry>)
    requires dir != "" && dir[|dir| - 1] != '/' && dir != "."
    requires name != "" && '/' !in name
    ensures LeafSeqs(FixRelativePaths(dir + "/" + name, es)) == Prefixed(dir + "/", LeafSeqs(es))
  {
    PathName.DirnameOfFileInDirectory(dir, name);
  }

  lemma FixSingleEntry(k: Key, s: string, base: string)
    ensures FixEntries([Entry(k, Str(s))], base) == [Entry(k, Str(base + s))]
  {
    var es := [Entry(k, Str(s))];
    var r := FixEntries(es, base);
    assert FixValue(es[0].value, base) == Str(base + s);
    assert |r| == 1;
    assert r[0] == Entry(es[0].key, FixValue(es[0].value, base));
  }

  /** A PSR-4 entry `src/` read from `vendor/x/y/composer.json` becomes `vendor/x/y/src/`. */
  lemma SrcInVendorDirectory()
    ensures FixRelativePaths("vendor/x/y" + "/" + "composer.json", [Entry(SKey("App\\"), Str("src/"))])
         == [Entry(SKey("App\\"), Str("vendor/x/y" + "/" + "src/"))]
  {
    PathName.DirnameOfFileInDirectory("vendor/x/y", "composer.json");
    FixSingleEntry(SKey("App\\"), "src/", "vendor/x/y" + "/");
  }

  /** The same entry read from `composer.json` in the current directory stays `src/`. */
  lemma SrcInCurrentDirectory()
    ensures FixRelativePaths("composer.json", [Entry(SKey("App\\"), Str("src/"))])
         == [Entry(SKey("App\\"), Str("src/"))]
  {
    PathName.DirnameOfBareName("composer.json");
    FixSingleEntry(SKey("App\\"), "src/", "");
    assert "" + "src/" == "src/";
  }

  // ---------------------------------------------------------------------
  // The shape and the leaves pin the rewrite down completely.

  lemma {:induction false} SameShapeLeafCount(v: Value, w: Value)
    requires SameShape(v, w)
    ensures |LeafSeq(v)| == |LeafSeq(w)|
    decreases Size(v), 0
  {
    match v
    case Arr(a) =>
      EntriesSizeOfArr(a);
      SameShapeLeafCountEntries(a, w.entries);
    case _ =>
  }

  lemma {:induction false} SameShapeLeafCountEntries(a: seq<Entry>, b: seq<Entry>)
    requires SameShape(Arr(a), Arr(b))
    ensures |LeafSeqs(a)| == |LeafSeqs(b)|
    decreases EntriesSize(a), 1
  {
    if a != [] {
      EntriesSizeCons(a);
      SameShapeLeafCount(a[0].value, b[0].value);
      SameShapeLeafCountEntries(a[1..], b[1..]);
    }
  }

  /**
   A value with the shape of `v`, no null leaves, and the leaves of `v` each
   prefixed with `base`, is the rewrite of `v`: keeping the structure and
   prefixing the leaves is all the rewrite does.
   */
  lemma {:induction false} FixIsUnique(v: Value, w: Value, base: string)
    requires SameShape(v, w) && NoNulls(w)
    requires LeafSeq(w) == Prefixed(base, LeafSeq(v))
    ensures w == FixValue(v, base)
    decreases Size(v), 0
  {
    match v
    case Arr(a) =>
      EntriesSizeOfArr(a);
      FixIsUniqueEntries(a, w.entries, base);
    case Str(s) =>
      assert LeafSeq(w)[0] == base + s;
    case Null =>
      assert LeafSeq(w)[0] == base + "";
      assert base + "" == base;
  }

  lemma {:induction false} FixIsUniqueEntries(a: seq<Entry>, b: seq<Entry>, base: string)
    requires SameShape(Arr(a), Arr(b)) && NoNulls(Arr(b))
    requires LeafSeqs(b) == Prefixed(base, LeafSeqs(a))
    ensures b == FixEntries(a, base)
    decreases EntriesSize(a), 1
  {
    if a != [] {
      EntriesSizeCons(a);
      var x := LeafSeq(a[0].value);
      var y := LeafSeqs(a[1..]);
      PrefixedConcat(base, x, y);
      SameShapeLeafCount(a[0].value, b[0].value);
      assert Prefixed(base, x) == LeafSeq(b[0].value) && Prefixed(base, y) == LeafSeqs(b[1..]) by {
        var lhs := LeafSeq(b[0].value) + LeafSeqs(b[1..]);
        assert lhs[..|x|] == LeafSeq(b[0].value) && lhs[|x|..] == LeafSeqs(b[1..]);
        var rhs := Prefixed(base, x) + Prefixed(base, y);
        assert rhs[..|x|] == Prefixed(base, x) && rhs[|x|..] == Prefixed(base, y);
      }
      assert NoNulls(b[0].value);
      FixIsUnique(a[0].value, b[0].value, base);
      assert NoNulls(Arr(b[1..])) by {
        forall i | 0 <= i < |b[1..]| ensures NoNulls(b[1..][i].value) {
          assert b[1..][i] == b[i + 1];
        }
      }
      assert SameShape(Arr(a[1..]), Arr(b[1..])) by {
        forall i | 0 <= i < |a[1..]|
          ensures a[1..][i].key == b[1..][i].key && SameShape(a[1..][i].value, b[1..][i].value)
        {
          assert a[1..][i] == a[i + 1] && b[1..][i] == b[i + 1];
        }
      }
      FixIsUniqueEntries(a[1..], b[1..], base);
      var fs := FixEntries(a, base);
      assert fs[1..] == FixEntries(a[1..], base);
      assert b == [b[0]] + b[1..];
      assert fs == [fs[0]] + fs[1..];
    }
  }
}
