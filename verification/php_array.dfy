/**
 PHP arrays as they come out of a decoded JSON manifest: ordered maps whose
 keys are integers or strings and whose values are scalars or nested arrays.
 Keys that PHP would turn into integers (the string "7") are assumed to be
 IKey already. JSON numbers and booleans are not modelled: the autoload
 sections this project merges hold strings, lists and maps only.
 */
module PhpArray {

  datatype Key = IKey(i: int) | SKey(s: string)

  datatype Value = Str(s: string) | Null | Arr(entries: seq<Entry>)

  datatype Entry = Entry(key: Key, value: Value)

  datatype Option<T> = None | Some(value: T)

  /** Index of the first entry with key `k`, or `|es|` when there is none. */
  function Find(es: seq<Entry>, k: Key): (r: nat)
    ensures r <= |es|
    ensures r < |es| ==> es[r].key == k
    ensures forall j :: 0 <= j < r ==> es[j].key != k
  {
    if es == [] then 0
    else if es[0].key == k then 0
    else 1 + Find(es[1..], k)
  }

  predicate HasKey(es: seq<Entry>, k: Key)
  {
    exists i :: 0 <= i < |es| && es[i].key == k
  }

  /** `$a[$k] ?? null` without the null: the value stored under `k`, if any. */
  function Get(es: seq<Entry>, k: Key): (r: Option<Value>)
    ensures r.Some? <==> HasKey(es, k)
    ensures r.Some? ==> exists i :: 0 <= i < |es| && es[i] == Entry(k, r.value)
  {
    var j := Find(es, k);
    if j < |es| then Some(es[j].value) else None
  }

  /** The set of string keys at the top level of an array. */
  function StringKeys(es: seq<Entry>): set<string>
  {
    set i | 0 <= i < |es| && es[i].key.SKey? :: es[i].key.s
  }

  /** A PHP array never holds the same key twice. */
  predicate DistinctKeys(es: seq<Entry>)
  {
    forall i, j :: 0 <= i < j < |es| ==> es[i].key != es[j].key
  }

  /** Distinct keys at every level of nesting. */
  predicate WellFormed(v: Value)
  {
    match v
    case Arr(es) =>
      && DistinctKeys(es)
      && forall i :: 0 <= i < |es| ==> WellFormed(es[i].value)
    case _ => true
  }

  predicate WellFormedEntries(es: seq<Entry>)
  {
    WellFormed(Arr(es))
  }

  /** True when no leaf anywhere below `v` is null. */
  predicate NoNulls(v: Value)
  {
    match v
    case Null => false
    case Str(_) => true
    case Arr(es) => forall i :: 0 <= i < |es| ==> NoNulls(es[i].value)
  }

  /** Replacing an entry by one with the same key moves no key. */
  lemma FindAfterUpdate(a: seq<Entry>, j: nat, e: Entry)
    requires j < |a| && a[j].key == e.key
    ensures forall k :: Find(a[j := e], k) == Find(a, k)
    ensures WellFormedEntries(a) && WellFormed(e.value) ==> WellFormedEntries(a[j := e])
  {
    var b := a[j := e];
    forall k ensures Find(b, k) == Find(a, k) {
      var fa, fb := Find(a, k), Find(b, k);
      assert fa < |a| ==> b[fa].key == k;
      assert fb < |b| ==> a[fb].key == k;
    }
  }

  /** Appending an entry leaves every other key where it was. */
  lemma GetAfterAppend(a: seq<Entry>, e: Entry)
    ensures forall k :: k != e.key ==> Get(a + [e], k) == Get(a, k)
    ensures !HasKey(a, e.key) ==> Get(a + [e], e.key) == Some(e.value)
    ensures !HasKey(a, e.key) && WellFormedEntries(a) && WellFormed(e.value) ==> WellFormedEntries(a + [e])
  {
    var ae := a + [e];
    forall k | k != e.key ensures Get(ae, k) == Get(a, k) {
      var f, g := Find(a, k), Find(ae, k);
      assert f < |a| ==> ae[f] == a[f];
      assert g < |a| ==> ae[g] == a[g];
    }
    if !HasKey(a, e.key) {
      assert Find(ae, e.key) == |a| by {
        var g := Find(ae, e.key);
        assert ae[|a|].key == e.key;
      }
    }
  }

  /** Replacing an entry by one with the same key leaves every other lookup alone. */
  lemma GetAfterUpdate(a: seq<Entry>, j: nat, e: Entry)
    requires j == Find(a, e.key) && j < |a|
    ensures Get(a[j := e], e.key) == Some(e.value)
    ensures forall k :: k != e.key ==> Get(a[j := e], k) == Get(a, k)
  {
    FindAfterUpdate(a, j, e);
    forall k | k != e.key ensures Get(a[j := e], k) == Get(a, k) {
      var f := Find(a, k);
      assert f < |a| ==> f != j;
    }
  }

  // ---------------------------------------------------------------------
  // Size: a measure for functions that walk an array entry by entry.

  function Sum(xs: seq<nat>): nat
  {
    if xs == [] then 0 else xs[0] + Sum(xs[1..])
  }

  function Size(v: Value): nat
  {
    match v
    case Arr(es) => 1 + Sum(seq(|es|, i requires 0 <= i < |es| => Size(es[i].value)))
    case _ => 1
  }

  function EntriesSize(es: seq<Entry>): nat
  {
    Sum(seq(|es|, i requires 0 <= i < |es| => Size(es[i].value)))
  }

  lemma EntriesSizeOfArr(es: seq<Entry>)
    ensures Size(Arr(es)) == 1 + EntriesSize(es)
  {
  }

  /** The measure of a non-empty array splits into its head and its tail. */
  lemma EntriesSizeCons(es: seq<Entry>)
    requires es != []
    ensures EntriesSize(es) == Size(es[0].value) + EntriesSize(es[1..])
    ensures Size(es[0].value) >= 1
  {
    var xs := seq(|es|, i requires 0 <= i < |es| => Size(es[i].value));
    var ys := seq(|es[1..]|, i requires 0 <= i < |es[1..]| => Size(es[1..][i].value));
    assert xs[1..] == ys;
  }

  // ---------------------------------------------------------------------
  // Leaves: the scalar values of an array in depth-first order, as the text
  // PHP would print for them (a null prints as the empty string).

  function LeafText(v: Value): string
    requires !v.Arr?
  {
    if v.Str? then v.s else ""
  }

  function LeafSeq(v: Value): seq<string>
    decreases Size(v), 0
  {
    match v
    case Arr(es) =>
      EntriesSizeOfArr(es);
      LeafSeqs(es)
    case _ => [LeafText(v)]
  }

  function LeafSeqs(es: seq<Entry>): seq<string>
    decreases EntriesSize(es), 1
  {
    if es == [] then []
    else
      EntriesSizeCons(es);
      LeafSeq(es[0].value) + LeafSeqs(es[1..])
  }

  /** The leaf multiset of an array. */
  function Leaves(es: seq<Entry>): multiset<string>
  {
    multiset(LeafSeqs(es))
  }

  lemma {:induction false} LeafSeqsConcat(a: seq<Entry>, b: seq<Entry>)
    ensures LeafSeqs(a + b) == LeafSeqs(a) + LeafSeqs(b)
    decreases |a|
  {
    if a == [] {
      assert a + b == b;
    } else {
      assert (a + b)[0] == a[0];
      assert (a + b)[1..] == a[1..] + b;
      LeafSeqsConcat(a[1..], b);
    }
  }

  /** The leaves of an array are those before index `j`, those of entry `j`, and those after it. */
  lemma {:induction false} LeafSeqsAround(es: seq<Entry>, j: nat)
    requires j < |es|
    ensures LeafSeqs(es) == LeafSeqs(es[..j]) + LeafSeq(es[j].value) + LeafSeqs(es[j + 1..])
    decreases j
  {
    if j == 0 {
      assert es[..0] == [];
    } else {
      var tail := es[1..];
      LeafSeqsAround(tail, j - 1);
      assert tail[..j - 1] == es[..j][1..];
      assert tail[j - 1] == es[j];
      assert tail[j..] == es[j + 1..];
      var head := LeafSeq(es[0].value);
      calc {
        LeafSeqs(es);
        head + LeafSeqs(tail);
        head + (LeafSeqs(es[..j][1..]) + LeafSeq(es[j].value) + LeafSeqs(es[j + 1..]));
        { ConcatAssociates(head, LeafSeqs(es[..j][1..]) + LeafSeq(es[j].value), LeafSeqs(es[j + 1..]));
          ConcatAssociates(head, LeafSeqs(es[..j][1..]), LeafSeq(es[j].value)); }
        head + LeafSeqs(es[..j][1..]) + LeafSeq(es[j].value) + LeafSeqs(es[j + 1..]);
        { assert es[..j][0] == es[0]; }
        LeafSeqs(es[..j]) + LeafSeq(es[j].value) + LeafSeqs(es[j + 1..]);
      }
    }
  }

  lemma LeafSeqsSingleton(e: Entry)
    ensures LeafSeqs([e]) == LeafSeq(e.value)
  {
    assert [e][1..] == [];
  }

  lemma SplitLast<T>(s: seq<T>)
    requires s != []
    ensures s == s[..|s| - 1] + [s[|s| - 1]]
  {
  }

  lemma ConcatAssociates<T>(a: seq<T>, b: seq<T>, c: seq<T>)
    ensures a + (b + c) == a + b + c
  {
  }

  // ---------------------------------------------------------------------
  // Appending without a key: `$a[] = $v`.

  /**
   The key `$a[] = $v` uses: one more than the largest integer key, and never
   below zero (the rule of PHP before 8.3, where the counter starts at 0).
   */
  function NextIndex(es: seq<Entry>): (r: nat)
    ensures forall j :: 0 <= j < |es| && es[j].key.IKey? ==> es[j].key.i < r
    ensures r == 0 || exists j :: 0 <= j < |es| && es[j].key == IKey(r - 1)
  {
    if es == [] then 0
    else
      var p := NextIndex(es[..|es| - 1]);
      var last := es[|es| - 1];
      if last.key.IKey? && last.key.i + 1 > p then last.key.i + 1 else p
  }

  function Append(es: seq<Entry>, v: Value): (r: seq<Entry>)
    ensures |r| == |es| + 1 && r[..|es|] == es
    ensures r[|es|].value == v && r[|es|].key.IKey?
    ensures forall j :: 0 <= j < |es| ==> r[j].key != r[|es|].key
  {
    es + [Entry(IKey(NextIndex(es)), v)]
  }

  lemma AppendLeaves(es: seq<Entry>, v: Value)
    ensures LeafSeqs(Append(es, v)) == LeafSeqs(es) + LeafSeq(v)
  {
    LeafSeqsConcat(es, [Entry(IKey(NextIndex(es)), v)]);
  }
}
