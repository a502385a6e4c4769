/**
 PHP's `array_merge_recursive` for two arrays. The first array is copied with
 its integer keys renumbered; then every entry of the second array is merged
 in, in order:
 - a string key the destination lacks is added with its value;
 - a string key the destination has merges the two values: the destination
   value is turned into an array (a scalar `x` becomes `[0 => x]`), then an
   array source value is merged into it recursively and a scalar source value
   is appended to it;
 - an integer key is ignored and the value appended under the next index.
 */
module ArrayMerge {
  import opened PhpArray

  /** PHP's `(array)` cast on a value about to absorb another one. */
  function ToArray(v: Value): (r: seq<Entry>)
    ensures LeafSeqs(r) == LeafSeq(v)
    ensures WellFormed(v) ==> WellFormedEntries(r)
  {
    match v
    case Arr(es) => es
    case _ => [Entry(IKey(0), v)]
  }

  /** Merging the source value `s` into the destination value `d` found under the same string key. */
  function MergeValue(d: Value, s: Value): (r: Value)
    decreases Size(s), 0
    ensures r.Arr?
  {
    match s
    case Arr(ses) =>
      EntriesSizeOfArr(ses);
      Arr(MergeInto(ToArray(d), ses))
    case _ => Arr(Append(ToArray(d), s))
  }

  /** Merging one source entry into the destination array. */
  function MergeEntry(dest: seq<Entry>, e: Entry): (r: seq<Entry>)
    decreases Size(e.value), 1
  {
    match e.key
    case SKey(_) =>
      var j := Find(dest, e.key);
      if j < |dest| then dest[j := Entry(e.key, MergeValue(dest[j].value, e.value))]
      else dest + [e]
    case IKey(_) => Append(dest, e.value)
  }

  /** `php_array_merge_recursive(dest, src)`: every source entry in order. */
  function MergeInto(dest: seq<Entry>, src: seq<Entry>): (r: seq<Entry>)
    decreases EntriesSize(src), 2
  {
    if src == [] then dest
    else
      EntriesSizeCons(src);
      MergeInto(MergeEntry(dest, src[0]), src[1..])
  }

  /** The copy of the first argument: string keys kept, integer keys renumbered from 0. */
  function Renumber(es: seq<Entry>): (r: seq<Entry>)
    ensures |r| == |es|
    ensures forall i :: 0 <= i < |es| ==> r[i].value == es[i].value
    ensures forall i :: 0 <= i < |es| ==> (r[i].key.SKey? <==> es[i].key.SKey?)
    ensures forall i :: 0 <= i < |es| && es[i].key.SKey? ==> r[i].key == es[i].key
    ensures DistinctKeys(es) ==> DistinctKeys(r)
  {
    if es == [] then []
    else
      var p := Renumber(es[..|es| - 1]);
      var last := es[|es| - 1];
      if last.key.SKey? then p + [last] else Append(p, last.value)
  }

  /** `array_merge_recursive($a, $b)`. */
  function ArrayMergeRecursive(a: seq<Entry>, b: seq<Entry>): seq<Entry>
  {
    MergeInto(Renumber(a), b)
  }

  // ---------------------------------------------------------------------
  // The copy of the first array numbers its integer keys 0, 1, 2, ... in order.

  /** The number of entries of `es` with an integer key. */
  function CountIntKeys(es: seq<Entry>): nat
  {
    if es == [] then 0
    else CountIntKeys(es[..|es| - 1]) + (if es[|es| - 1].key.IKey? then 1 else 0)
  }

  /** Every integer key is the number of integer keys before it. */
  predicate NumberedInOrder(es: seq<Entry>)
  {
    forall i :: 0 <= i < |es| && es[i].key.IKey? ==> es[i].key == IKey(CountIntKeys(es[..i]))
  }

  lemma {:induction false} CountIntKeysSameKinds(a: seq<Entry>, b: seq<Entry>)
    requires |a| == |b|
    requires forall i :: 0 <= i < |a| ==> (a[i].key.IKey? <==> b[i].key.IKey?)
    ensures CountIntKeys(a) == CountIntKeys(b)
    decreases |a|
  {
    if a != [] {
      CountIntKeysSameKinds(a[..|a| - 1], b[..|b| - 1]);
    }
  }

  lemma {:induction false} CountIntKeysOfAllInt(es: seq<Entry>)
    requires forall i :: 0 <= i < |es| ==> es[i].key.IKey?
    ensures CountIntKeys(es) == |es|
    decreases |es|
  {
    if es != [] {
      CountIntKeysOfAllInt(es[..|es| - 1]);
    }
  }

  /** In an array numbered in order, the next free index is the number of integer keys. */
  lemma {:induction false} NumberedNextIndex(es: seq<Entry>)
    requires NumberedInOrder(es)
    ensures NextIndex(es) == CountIntKeys(es)
    decreases |es|
  {
    if es != [] {
      var init := es[..|es| - 1];
      assert NumberedInOrder(init) by {
        forall i | 0 <= i < |init| && init[i].key.IKey?
          ensures init[i].key == IKey(CountIntKeys(init[..i]))
        {
          assert init[..i] == es[..i];
        }
      }
      NumberedNextIndex(init);
    }
  }

  /**
   `r` numbers the integer keys of `es`: same length, and where `es` has an
   integer key, `r` has the number of integer keys before that position.
   */
  predicate NumberedLike(es: seq<Entry>, r: seq<Entry>)
  {
    && |r| == |es|
    && forall i :: 0 <= i < |es| && es[i].key.IKey? ==> r[i].key == IKey(CountIntKeys(es[..i]))
  }

  lemma NumberedLikeNextIndex(es: seq<Entry>, r: seq<Entry>)
    requires NumberedLike(es, r)
    requires forall i :: 0 <= i < |es| ==> (r[i].key.IKey? <==> es[i].key.IKey?)
    ensures NextIndex(r) == CountIntKeys(es)
  {
    forall i | 0 <= i < |r| && r[i].key.IKey? ensures r[i].key == IKey(CountIntKeys(r[..i])) {
      CountIntKeysSameKinds(es[..i], r[..i]);
    }
    NumberedNextIndex(r);
    CountIntKeysSameKinds(es, r);
  }

  lemma NumberedLikeSnoc(es: seq<Entry>, r: seq<Entry>, e: Entry, f: Entry)
    requires NumberedLike(es, r)
    requires e.key.IKey? ==> f.key == IKey(CountIntKeys(es))
    ensures NumberedLike(es + [e], r + [f])
  {
    var es', r' := es + [e], r + [f];
    forall i | 0 <= i < |es'| && es'[i].key.IKey? ensures r'[i].key == IKey(CountIntKeys(es'[..i])) {
      if i < |es| {
        assert es'[..i] == es[..i];
      } else {
        assert es'[..i] == es;
      }
    }
  }

  /**
   The copy of the first array gives its integer-keyed entries the keys 0, 1,
   2, ... in the order they appear.
   */
  lemma {:induction false} RenumberNumbersIntKeys(es: seq<Entry>)
    ensures NumberedLike(es, Renumber(es))
    decreases |es|
  {
    if es != [] {
      var init, last := es[..|es| - 1], es[|es| - 1];
      var p := Renumber(init);
      RenumberNumbersIntKeys(init);
      SplitLast(es);
      if last.key.SKey? {
        NumberedLikeSnoc(init, p, last, last);
      } else {
        NumberedLikeNextIndex(init, p);
        NumberedLikeSnoc(init, p, last, Entry(IKey(NextIndex(p)), last.value));
      }
    }
  }

  lemma NumberedListIsSame(es: seq<Entry>, r: seq<Entry>)
    requires IsList(es) && NumberedLike(es, r)
    requires forall i :: 0 <= i < |es| ==> r[i].value == es[i].value
    ensures r == es
  {
    forall i | 0 <= i < |es| ensures r[i] == es[i] {
      var pre := es[..i];
      assert forall j :: 0 <= j < |pre| ==> pre[j].key == es[j].key;
      CountIntKeysOfAllInt(pre);
    }
  }

  /** The copy of a list is the same list. */
  lemma RenumberKeepsList(es: seq<Entry>)
    requires IsList(es)
    ensures Renumber(es) == es
  {
    RenumberNumbersIntKeys(es);
    NumberedListIsSame(es, Renumber(es));
  }

  // ---------------------------------------------------------------------
  // Nothing is dropped: leaves add up.

  lemma {:induction false} MergeValueLeaves(d: Value, s: Value)
    ensures multiset(LeafSeq(MergeValue(d, s))) == multiset(LeafSeq(d)) + multiset(LeafSeq(s))
    decreases Size(s), 0
  {
    var da := ToArray(d);
    assert LeafSeqs(da) == LeafSeq(d);
    match s
    case Arr(ses) =>
      EntriesSizeOfArr(ses);
      MergeIntoLeaves(da, ses);
      assert LeafSeq(MergeValue(d, s)) == LeafSeqs(MergeInto(da, ses));
      assert LeafSeq(s) == LeafSeqs(ses);
    case _ =>
      AppendLeaves(da, s);
      assert LeafSeq(MergeValue(d, s)) == LeafSeqs(Append(da, s));
  }

  lemma {:induction false} MergeEntryLeaves(dest: seq<Entry>, e: Entry)
    ensures multiset(LeafSeqs(MergeEntry(dest, e))) == multiset(LeafSeqs(dest)) + multiset(LeafSeq(e.value))
    decreases Size(e.value), 1
  {
    match e.key
    case SKey(_) =>
      var j := Find(dest, e.key);
      if j < |dest| {
        var r := MergeEntry(dest, e);
        MergeValueLeaves(dest[j].value, e.value);
        LeafSeqsAround(dest, j);
        LeafSeqsAround(r, j);
        assert r[..j] == dest[..j] && r[j + 1..] == dest[j + 1..];
      } else {
        LeafSeqsConcat(dest, [e]);
      }
    case IKey(_) =>
      AppendLeaves(dest, e.value);
  }

  lemma {:induction false} MergeIntoLeaves(dest: seq<Entry>, src: seq<Entry>)
    ensures Leaves(MergeInto(dest, src)) == Leaves(dest) + Leaves(src)
    decreases EntriesSize(src), 2
  {
    if src != [] {
      EntriesSizeCons(src);
      MergeEntryLeaves(dest, src[0]);
      MergeIntoLeaves(MergeEntry(dest, src[0]), src[1..]);
    }
  }

  lemma {:induction false} RenumberLeaves(es: seq<Entry>)
    ensures LeafSeqs(Renumber(es)) == LeafSeqs(es)
    decreases |es|
  {
    if es != [] {
      var init, last := es[..|es| - 1], es[|es| - 1];
      var p := Renumber(init);
      RenumberLeaves(init);
      calc {
        LeafSeqs(Renumber(es));
        { if last.key.SKey? {
            assert Renumber(es) == p + [last];
            LeafSeqsConcat(p, [last]);
            LeafSeqsSingleton(last);
          } else {
            assert Renumber(es) == Append(p, last.value);
            AppendLeaves(p, last.value);
          } }
        LeafSeqs(p) + LeafSeq(last.value);
        { LeafSeqsConcat(init, [last]); LeafSeqsSingleton(last); }
        LeafSeqs(init + [last]);
        { SplitLast(es); }
        LeafSeqs(es);
      }
    }
  }

  /** The leaf multiset of `array_merge_recursive($a, $b)` is that of `$a` plus that of `$b`. */
  lemma ArrayMergeRecursiveLeaves(a: seq<Entry>, b: seq<Entry>)
    ensures Leaves(ArrayMergeRecursive(a, b)) == Leaves(a) + Leaves(b)
  {
    RenumberLeaves(a);
    MergeIntoLeaves(Renumber(a), b);
  }

  // ---------------------------------------------------------------------
  // Destination entries stay where they are, under the same keys.

  /** One source entry: destination keys stay in place, and its string key (if any) joins them. */
  lemma MergeEntryKeepsDestination(dest: seq<Entry>, e: Entry)
    ensures var r := MergeEntry(dest, e);
      && |r| >= |dest|
      && (forall i :: 0 <= i < |dest| ==> r[i].key == dest[i].key)
      && StringKeys(r) == StringKeys(dest) + StringKeys([e])
  {
    var r := MergeEntry(dest, e);
    match e.key
    case SKey(k) =>
      StringKeysSingleton(e);
      var j := Find(dest, e.key);
      if j < |dest| {
        SameKeysStringKeys(dest, r);
        assert k in StringKeys(dest) by { assert dest[j].key == e.key; }
      } else {
        StringKeysConcat(dest, [e]);
      }
    case IKey(_) =>
      StringKeysSingleton(e);
      var last := Entry(IKey(NextIndex(dest)), e.value);
      StringKeysSingleton(last);
      StringKeysConcat(dest, [last]);
  }

  lemma {:induction false} MergeIntoKeepsDestination(dest: seq<Entry>, src: seq<Entry>)
    ensures |MergeInto(dest, src)| >= |dest|
    ensures forall i :: 0 <= i < |dest| ==> MergeInto(dest, src)[i].key == dest[i].key
    ensures StringKeys(MergeInto(dest, src)) == StringKeys(dest) + StringKeys(src)
    decreases EntriesSize(src), 2
  {
    if src != [] {
      EntriesSizeCons(src);
      var d1 := MergeEntry(dest, src[0]);
      MergeEntryKeepsDestination(dest, src[0]);
      MergeIntoKeepsDestination(d1, src[1..]);
      assert src == [src[0]] + src[1..];
      StringKeysConcat([src[0]], src[1..]);
    }
  }

  lemma StringKeysSingleton(e: Entry)
    ensures StringKeys([e]) == if e.key.SKey? then {e.key.s} else {}
  {
    if e.key.SKey? {
      assert [e][0].key.s == e.key.s;
    }
  }

  /** Arrays with the same keys in the same places have the same string keys. */
  lemma SameKeysStringKeys(a: seq<Entry>, b: seq<Entry>)
    requires |a| == |b| && forall i :: 0 <= i < |a| ==> a[i].key == b[i].key
    ensures StringKeys(a) == StringKeys(b)
  {
    forall s | s in StringKeys(a) ensures s in StringKeys(b) {
      var i :| 0 <= i < |a| && a[i].key.SKey? && a[i].key.s == s;
      assert b[i].key == a[i].key;
    }
    forall s | s in StringKeys(b) ensures s in StringKeys(a) {
      var i :| 0 <= i < |b| && b[i].key.SKey? && b[i].key.s == s;
      assert b[i].key == a[i].key;
    }
  }

  lemma StringKeysConcat(a: seq<Entry>, b: seq<Entry>)
    ensures StringKeys(a + b) == StringKeys(a) + StringKeys(b)
  {
    var ab := a + b;
    forall s | s in StringKeys(ab) ensures s in StringKeys(a) + StringKeys(b) {
      var i :| 0 <= i < |ab| && ab[i].key.SKey? && ab[i].key.s == s;
      if i >= |a| {
        assert b[i - |a|] == ab[i];
      }
    }
    forall s | s in StringKeys(a) ensures s in StringKeys(ab) {
      var i :| 0 <= i < |a| && a[i].key.SKey? && a[i].key.s == s;
      assert ab[i] == a[i];
    }
    forall s | s in StringKeys(b) ensures s in StringKeys(ab) {
      var i :| 0 <= i < |b| && b[i].key.SKey? && b[i].key.s == s;
      assert ab[|a| + i] == b[i];
    }
  }

  /** Every string key of `$a` and of `$b` is a key of the merge, and no other string key is. */
  lemma ArrayMergeRecursiveStringKeys(a: seq<Entry>, b: seq<Entry>)
    ensures StringKeys(ArrayMergeRecursive(a, b)) == StringKeys(a) + StringKeys(b)
  {
    var ra := Renumber(a);
    assert StringKeys(ra) == StringKeys(a) by {
      forall s | s in StringKeys(a) ensures s in StringKeys(ra) {
        var i :| 0 <= i < |a| && a[i].key.SKey? && a[i].key.s == s;
        assert ra[i].key == a[i].key;
      }
    }
    MergeIntoKeepsDestination(ra, b);
  }

  // ---------------------------------------------------------------------
  // The result is again a PHP array: keys stay distinct at every level.

  lemma {:induction false} MergeValueWellFormed(d: Value, s: Value)
    requires WellFormed(d) && WellFormed(s)
    ensures WellFormed(MergeValue(d, s))
    decreases Size(s), 0
  {
    match s
    case Arr(ses) =>
      EntriesSizeOfArr(ses);
      MergeIntoWellFormed(ToArray(d), ses);
    case _ =>
  }

  lemma {:induction false} MergeEntryWellFormed(dest: seq<Entry>, e: Entry)
    requires WellFormedEntries(dest) && WellFormed(e.value)
    ensures WellFormedEntries(MergeEntry(dest, e))
    decreases Size(e.value), 1
  {
    match e.key
    case SKey(_) =>
      var j := Find(dest, e.key);
      if j < |dest| {
        MergeValueWellFormed(dest[j].value, e.value);
      }
    case IKey(_) =>
  }

  lemma {:induction false} MergeIntoWellFormed(dest: seq<Entry>, src: seq<Entry>)
    requires WellFormedEntries(dest) && WellFormedEntries(src)
    ensures WellFormedEntries(MergeInto(dest, src))
    decreases EntriesSize(src), 2
  {
    if src != [] {
      EntriesSizeCons(src);
      MergeEntryWellFormed(dest, src[0]);
      MergeIntoWellFormed(MergeEntry(dest, src[0]), src[1..]);
    }
  }

  lemma ArrayMergeRecursiveWellFormed(a: seq<Entry>, b: seq<Entry>)
    requires WellFormedEntries(a) && WellFormedEntries(b)
    ensures WellFormedEntries(ArrayMergeRecursive(a, b))
  {
    MergeIntoWellFormed(Renumber(a), b);
  }

  // ---------------------------------------------------------------------
  // Lists concatenate.

  /** An array whose keys are exactly 0, 1, 2, ... in order: a JSON list. */
  predicate IsList(es: seq<Entry>)
  {
    forall i :: 0 <= i < |es| ==> es[i].key == IKey(i)
  }

  function Values(es: seq<Entry>): seq<Value>
  {
    seq(|es|, i requires 0 <= i < |es| => es[i].value)
  }

  lemma {:induction false} ListNextIndex(es: seq<Entry>)
    requires IsList(es)
    ensures NextIndex(es) == |es|
    decreases |es|
  {
    if es != [] {
      ListNextIndex(es[..|es| - 1]);
    }
  }

  /**
   Merging a list into a list concatenates them: the destination's paths come
   first, the source's follow, and the result is again a list.
   */
  lemma {:induction false} MergeListsConcatenates(dest: seq<Entry>, src: seq<Entry>)
    requires IsList(dest)
    requires forall i :: 0 <= i < |src| ==> src[i].key.IKey?
    ensures IsList(MergeInto(dest, src))
    ensures Values(MergeInto(dest, src)) == Values(dest) + Values(src)
    decreases |src|
  {
    if src != [] {
      EntriesSizeCons(src);
      ListNextIndex(dest);
      var d1 := Append(dest, src[0].value);
      assert IsList(d1);
      assert Values(d1) == Values(dest) + [src[0].value];
      MergeListsConcatenates(d1, src[1..]);
      assert Values(src) == [src[0].value] + Values(src[1..]);
    }
  }

  /** Two scalars that collide under a string key become a two-element list. */
  lemma CollidingScalarsBecomeList(k: string, x: string, y: string)
    ensures ArrayMergeRecursive([Entry(SKey(k), Str(x))], [Entry(SKey(k), Str(y))])
         == [Entry(SKey(k), Arr([Entry(IKey(0), Str(x)), Entry(IKey(1), Str(y))]))]
  {
    var a := [Entry(SKey(k), Str(x))];
    var b := [Entry(SKey(k), Str(y))];
    assert a[..0] == [];
    assert Renumber(a) == a;
    var one := [Entry(IKey(0), Str(x))];
    assert one[..0] == [];
    assert NextIndex(one) == 1;
    var merged := Arr([Entry(IKey(0), Str(x)), Entry(IKey(1), Str(y))]);
    assert MergeValue(Str(x), Str(y)) == merged;
    assert Find(a, SKey(k)) == 0;
    assert MergeEntry(a, b[0]) == [Entry(SKey(k), merged)];
    EntriesSizeCons(b);
    assert b[1..] == [];
    assert MergeInto(a, b) == MergeInto(MergeEntry(a, b[0]), []);
  }

  // ---------------------------------------------------------------------
  // What ends up under a string key.

  /**
   The value under one string key after a merge, from the values the
   destination and the source hold under it: both present merge, otherwise
   whichever is present stays.
   */
  function Combine(d: Option<Value>, s: Option<Value>): Option<Value>
  {
    match (d, s)
    case (Some(x), Some(y)) => Some(MergeValue(x, y))
    case (Some(_), None) => d
    case (None, _) => s
  }

  lemma MergeEntryGet(dest: seq<Entry>, e: Entry, k: string)
    ensures Get(MergeEntry(dest, e), SKey(k))
         == if e.key == SKey(k) then Combine(Get(dest, SKey(k)), Some(e.value)) else Get(dest, SKey(k))
  {
    match e.key
    case SKey(_) =>
      var j := Find(dest, e.key);
      if j < |dest| {
        GetAfterUpdate(dest, j, Entry(e.key, MergeValue(dest[j].value, e.value)));
      } else {
        assert !HasKey(dest, e.key);
        GetAfterAppend(dest, e);
      }
    case IKey(_) =>
      GetAfterAppend(dest, Entry(IKey(NextIndex(dest)), e.value));
  }

  /** Merging a source array: the value under `k` combines the two sides' values under `k`. */
  lemma {:induction false} MergeIntoGet(dest: seq<Entry>, src: seq<Entry>, k: string)
    requires DistinctKeys(src)
    ensures Get(MergeInto(dest, src), SKey(k)) == Combine(Get(dest, SKey(k)), Get(src, SKey(k)))
    decreases |src|
  {
    if src != [] {
      EntriesSizeCons(src);
      var d1 := MergeEntry(dest, src[0]);
      MergeEntryGet(dest, src[0], k);
      MergeIntoGet(d1, src[1..], k);
      if src[0].key == SKey(k) {
        assert !HasKey(src[1..], SKey(k)) by {
          assert forall i :: 0 <= i < |src[1..]| ==> src[1..][i].key == src[i + 1].key;
        }
      } else {
        assert Find(src, SKey(k)) == 1 + Find(src[1..], SKey(k));
      }
    }
  }

  lemma GetSameStringKeys(a: seq<Entry>, r: seq<Entry>, k: string)
    requires |r| == |a|
    requires forall i :: 0 <= i < |a| ==> r[i].value == a[i].value
    requires forall i :: 0 <= i < |a| ==> (r[i].key.SKey? <==> a[i].key.SKey?)
    requires forall i :: 0 <= i < |a| && a[i].key.SKey? ==> r[i].key == a[i].key
    ensures Get(r, SKey(k)) == Get(a, SKey(k))
  {
    var fa, fr := Find(a, SKey(k)), Find(r, SKey(k));
    assert fa < |a| ==> r[fa].key == SKey(k);
    assert fr < |r| ==> a[fr].key == SKey(k);
  }

  /** The copy of the first array keeps what every string key holds. */
  lemma RenumberGet(a: seq<Entry>, k: string)
    ensures Get(Renumber(a), SKey(k)) == Get(a, SKey(k))
  {
    GetSameStringKeys(a, Renumber(a), k);
  }

  /**
   `array_merge_recursive($a, $b)` under a string key `k`: merged values when
   both arrays have `k`, the one value when only one has it, nothing when
   neither does.
   */
  lemma ArrayMergeRecursiveGet(a: seq<Entry>, b: seq<Entry>, k: string)
    requires DistinctKeys(b)
    ensures HasKey(a, SKey(k)) && HasKey(b, SKey(k)) ==>
              Get(ArrayMergeRecursive(a, b), SKey(k)) == Some(MergeValue(Get(a, SKey(k)).value, Get(b, SKey(k)).value))
    ensures HasKey(a, SKey(k)) && !HasKey(b, SKey(k)) ==> Get(ArrayMergeRecursive(a, b), SKey(k)) == Get(a, SKey(k))
    ensures !HasKey(a, SKey(k)) && HasKey(b, SKey(k)) ==> Get(ArrayMergeRecursive(a, b), SKey(k)) == Get(b, SKey(k))
    ensures !HasKey(a, SKey(k)) && !HasKey(b, SKey(k)) ==> !HasKey(ArrayMergeRecursive(a, b), SKey(k))
  {
    RenumberGet(a, k);
    MergeIntoGet(Renumber(a), b, k);
  }

  /**
   Two lists under the same string key concatenate: the first array's paths
   first, then the second's, and the result is again a list.
   */
  lemma SameKeyListsConcatenate(a: seq<Entry>, b: seq<Entry>, k: string, la: seq<Entry>, lb: seq<Entry>)
    requires DistinctKeys(b)
    requires Get(a, SKey(k)) == Some(Arr(la)) && IsList(la)
    requires Get(b, SKey(k)) == Some(Arr(lb)) && forall i :: 0 <= i < |lb| ==> lb[i].key.IKey?
    ensures Get(ArrayMergeRecursive(a, b), SKey(k)) == Some(Arr(MergeInto(la, lb)))
    ensures IsList(MergeInto(la, lb)) && Values(MergeInto(la, lb)) == Values(la) + Values(lb)
  {
    ArrayMergeRecursiveGet(a, b, k);
    MergeListsConcatenates(la, lb);
  }

  // ---------------------------------------------------------------------
  // One level down: what a collision under a string key produces.

  /** Two arrays colliding under a string key: each inner string key combines as at the top. */
  lemma MergeValueGet(d: seq<Entry>, s: seq<Entry>, k: string)
    requires DistinctKeys(s)
    ensures Get(MergeValue(Arr(d), Arr(s)).entries, SKey(k)) == Combine(Get(d, SKey(k)), Get(s, SKey(k)))
  {
    MergeIntoGet(d, s, k);
  }

  /**
   A collision keeps the destination value's entries (after the array cast)
   under their keys and in place; only an array source adds string keys.
   */
  lemma MergeValueKeepsDestination(d: Value, s: Value)
    ensures var r := MergeValue(d, s).entries;
      && |r| >= |ToArray(d)|
      && (!s.Arr? ==> |r| == |ToArray(d)| + 1)
      && (forall i :: 0 <= i < |ToArray(d)| ==> r[i].key == ToArray(d)[i].key)
      && StringKeys(r) == StringKeys(ToArray(d)) + (if s.Arr? then StringKeys(s.entries) else {})
  {
    if s.Arr? {
      EntriesSizeOfArr(s.entries);
      MergeIntoKeepsDestination(ToArray(d), s.entries);
    } else {
      var last := Entry(IKey(NextIndex(ToArray(d))), s);
      StringKeysSingleton(last);
      StringKeysConcat(ToArray(d), [last]);
    }
  }

  /** Two scalars (null included) colliding under a string key become the list `[x, y]`. */
  lemma CollidingScalars(x: Value, y: Value)
    requires !x.Arr? && !y.Arr?
    ensures MergeValue(x, y) == Arr([Entry(IKey(0), x), Entry(IKey(1), y)])
  {
    var one := [Entry(IKey(0), x)];
    assert one[..0] == [];
    assert NextIndex(one) == 1;
  }

  /** A value autoload reads as paths: a single path, or a list of paths. */
  predicate PathList(v: Value)
  {
    v.Arr? ==> IsList(v.entries)
  }

  /** The paths a path-list value stands for, in order. */
  function ListOf(v: Value): seq<Value>
  {
    if v.Arr? then Values(v.entries) else [v]
  }

  lemma ToArrayOfPathList(v: Value)
    requires PathList(v)
    ensures IsList(ToArray(v)) && Values(ToArray(v)) == ListOf(v)
  {
  }

  /**
   Two path lists (or single paths) colliding under a string key become one
   list: the destination's paths, then the source's.
   */
  lemma PathListsConcatenate(x: Value, y: Value)
    requires PathList(x) && PathList(y)
    ensures MergeValue(x, y).Arr? && PathList(MergeValue(x, y))
    ensures ListOf(MergeValue(x, y)) == ListOf(x) + ListOf(y)
  {
    var d := ToArray(x);
    ToArrayOfPathList(x);
    if y.Arr? {
      MergeListsConcatenates(d, y.entries);
    } else {
      ListNextIndex(d);
      var r := Append(d, y);
      assert IsList(r);
      assert Values(r) == Values(d) + [y];
    }
  }
}
