/** Priority key ordering: `propComparator`, `sortObjectByKeyNameList` and
    `prioritySort` of asyncapi-format.js. */
module KeyOrder {
  import opened Wrappers
  import opened JsonTree

  // ---------------------------------------------------------------------------
  // String order
  // ---------------------------------------------------------------------------

  /** JavaScript's `a < b` on two strings: lexicographic, a proper prefix first. */
  predicate LexLess(a: string, b: string)
    decreases |a|
  {
    if a == [] then b != []
    else b != [] && (a[0] < b[0] || (a[0] == b[0] && LexLess(a[1..], b[1..])))
  }

  lemma {:induction false} LexIrreflexive(a: string)
    ensures !LexLess(a, a)
    decreases |a|
  {
    if a != [] {
      LexIrreflexive(a[1..]);
    }
  }

  lemma {:induction false} LexAsymmetric(a: string, b: string)
    ensures LexLess(a, b) ==> !LexLess(b, a)
    decreases |a|
  {
    if a != [] && b != [] && a[0] == b[0] {
      LexAsymmetric(a[1..], b[1..]);
    }
  }

  lemma {:induction false} LexTransitive(a: string, b: string, c: string)
    requires LexLess(a, b) && LexLess(b, c)
    ensures LexLess(a, c)
    decreases |a|
  {
    if a != [] && a[0] == b[0] && b[0] == c[0] {
      LexTransitive(a[1..], b[1..], c[1..]);
    }
  }

  lemma {:induction false} LexConnected(a: string, b: string)
    requires a != b
    ensures LexLess(a, b) || LexLess(b, a)
    decreases |a|
  {
    if a != [] && b != [] && a[0] == b[0] {
      assert a == [a[0]] + a[1..] && b == [b[0]] + b[1..];
      LexConnected(a[1..], b[1..]);
    }
  }

  // ---------------------------------------------------------------------------
  // The comparator
  // ---------------------------------------------------------------------------

  /** `Array.prototype.indexOf` on a list of names. */
  function IndexOf(l: seq<string>, x: string): (r: int)
    ensures -1 <= r < |l|
    ensures r == -1 <==> x !in l
    ensures 0 <= r ==> l[r] == x && forall j :: 0 <= j < r ==> l[j] != x
  {
    if l == [] then -1
    else if l[0] == x then 0
    else
      var r := IndexOf(l[1..], x);
      assert x in l[1..] ==> x in l;
      assert x in l && l[0] != x ==> x in l[1..] by {
        if x in l && l[0] != x {
          var j :| 0 <= j < |l| && l[j] == x;
          assert l[1..][j - 1] == x;
        }
      }
      if r == -1 then -1 else r + 1
  }

  /** `propComparator(priorityArr)(a, b)`; `None` stands for a priority list that
      is not an array (for instance `undefined`). */
  function PropComparator(priority: Option<seq<string>>, a: string, b: string): int
  {
    if a == b then 0
    else if priority.None? then 0
    else
      var ia := IndexOf(priority.value, a);
      var ib := IndexOf(priority.value, b);
      if ia != -1 then (if ib != -1 then ia - ib else -1)
      else if ib != -1 || LexLess(b, a) then 1
      else if LexLess(a, b) then -1
      else 0
  }

  /** The comparison a sort runs with: `sort()` without an argument compares the
      strings themselves; `sort(propComparator(priority))` uses the comparator. */
  datatype Order = DefaultOrder | Priority(priority: Option<seq<string>>)

  function Compare(order: Order, a: string, b: string): int
  {
    match order
    case DefaultOrder => if LexLess(a, b) then -1 else if LexLess(b, a) then 1 else 0
    case Priority(p) => PropComparator(p, a, b)
  }

  /** The orders under which two different keys never compare equal. */
  predicate Strict(order: Order)
  {
    order.DefaultOrder? || order.priority.Some?
  }

  /** Reference definition of the priority order on two keys: a listed key comes
      before an unlisted one, two listed keys come in list order, two unlisted keys
      in string order. */
  predicate Precedes(l: seq<string>, a: string, b: string)
  {
    if a in l then b !in l || IndexOf(l, a) < IndexOf(l, b)
    else b !in l && LexLess(a, b)
  }

  /** For two different keys and an array priority list, the comparator is
      negative exactly when the reference order puts the first key first. */
  lemma PropComparatorMatchesPrecedes(l: seq<string>, a: string, b: string)
    requires a != b
    ensures PropComparator(Some(l), a, b) < 0 <==> Precedes(l, a, b)
    ensures PropComparator(Some(l), a, b) != 0
  {
    if a !in l && b !in l {
      LexAsymmetric(a, b);
      LexConnected(a, b);
    } else if a in l && b in l {
      assert IndexOf(l, a) != IndexOf(l, b);
    }
  }

  /** A listed key precedes any unlisted key. */
  lemma ListedKeyFirst(l: seq<string>, a: string, b: string)
    requires a in l && b !in l
    ensures PropComparator(Some(l), a, b) < 0 && PropComparator(Some(l), b, a) > 0
  {
  }

  /** Two listed keys are ordered by their position in the list. */
  lemma ListedKeysByIndex(l: seq<string>, a: string, b: string)
    requires a in l && b in l && a != b
    ensures PropComparator(Some(l), a, b) < 0 <==> IndexOf(l, a) < IndexOf(l, b)
    ensures PropComparator(Some(l), a, b) != 0
  {
  }

  /** Two unlisted keys compare in ascending string order, not in their original
      order; only identical keys compare 0. */
  lemma UnlistedKeysLexical(l: seq<string>, a: string, b: string)
    requires a !in l && b !in l
    ensures PropComparator(Some(l), a, b) < 0 <==> LexLess(a, b)
    ensures PropComparator(Some(l), a, b) > 0 <==> LexLess(b, a)
    ensures PropComparator(Some(l), a, b) == 0 <==> a == b
  {
    LexAsymmetric(a, b);
    LexIrreflexive(a);
    if a != b {
      LexConnected(a, b);
    }
  }

  /** A priority list that is not an array makes every comparison a tie. */
  lemma NonArrayPriorityTies(a: string, b: string)
    ensures PropComparator(None, a, b) == 0
  {
  }

  lemma CompareReflexive(order: Order, a: string)
    ensures Compare(order, a, a) == 0
  {
    LexIrreflexive(a);
  }

  lemma CompareAntisymmetric(order: Order, a: string, b: string)
    ensures Compare(order, a, b) < 0 <==> Compare(order, b, a) > 0
  {
    LexAsymmetric(a, b);
    LexAsymmetric(b, a);
  }

  lemma CompareConnected(order: Order, a: string, b: string)
    requires Strict(order) && a != b
    ensures Compare(order, a, b) != 0
  {
    LexConnected(a, b);
    if order.Priority? {
      PropComparatorMatchesPrecedes(order.priority.value, a, b);
    }
  }

  lemma CompareTransitive(order: Order, a: string, b: string, c: string)
    requires Compare(order, a, b) < 0 && Compare(order, b, c) < 0
    ensures Compare(order, a, c) < 0
  {
    match order
    case DefaultOrder =>
      LexTransitive(a, b, c);
    case Priority(p) =>
      var l := p.value;
      PropComparatorMatchesPrecedes(l, a, b);
      PropComparatorMatchesPrecedes(l, b, c);
      if a == c {
        LexAsymmetric(a, b);
      } else {
        PropComparatorMatchesPrecedes(l, a, c);
        if a !in l && b !in l && c !in l {
          LexTransitive(a, b, c);
        }
      }
  }

  /** With an array priority list (and for the default sort) the comparator is a
      strict total order on keys: irreflexive, asymmetric, transitive, connected. */
  lemma ComparatorIsStrictTotalOrder(order: Order, a: string, b: string, c: string)
    requires Strict(order)
    ensures Compare(order, a, a) == 0
    ensures Compare(order, a, b) < 0 <==> Compare(order, b, a) > 0
    ensures Compare(order, a, b) < 0 && Compare(order, b, c) < 0 ==> Compare(order, a, c) < 0
    ensures a != b ==> Compare(order, a, b) != 0
  {
    CompareReflexive(order, a);
    CompareAntisymmetric(order, a, b);
    if Compare(order, a, b) < 0 && Compare(order, b, c) < 0 {
      CompareTransitive(order, a, b, c);
    }
    if a != b {
      CompareConnected(order, a, b);
    }
  }

  // ---------------------------------------------------------------------------
  // Sorting the keys
  // ---------------------------------------------------------------------------

  function Insert(order: Order, x: string, ys: seq<string>): seq<string>
  {
    if ys == [] then [x]
    else if Compare(order, x, ys[0]) <= 0 then [x] + ys
    else [ys[0]] + Insert(order, x, ys[1..])
  }

  /** `keys.sort(compareFn)`: a stable sort, written as an insertion sort. */
  function SortKeys(order: Order, ks: seq<string>): seq<string>
  {
    if ks == [] then [] else Insert(order, ks[0], SortKeys(order, ks[1..]))
  }

  /** Every two keys of `s` are in strictly increasing order. */
  predicate SortedBy(order: Order, s: seq<string>)
  {
    forall i, j :: 0 <= i < j < |s| ==> Compare(order, s[i], s[j]) < 0
  }

  lemma {:induction false} InsertPermutes(order: Order, x: string, ys: seq<string>)
    ensures multiset(Insert(order, x, ys)) == multiset(ys) + multiset{x}
  {
    if ys != [] && Compare(order, x, ys[0]) > 0 {
      InsertPermutes(order, x, ys[1..]);
      assert ys == [ys[0]] + ys[1..];
    }
  }

  /** The sort only reorders: the result is a permutation of the keys. */
  lemma {:induction false} SortKeysPermutes(order: Order, ks: seq<string>)
    ensures multiset(SortKeys(order, ks)) == multiset(ks)
    ensures |SortKeys(order, ks)| == |ks|
  {
    if ks != [] {
      var rest := SortKeys(order, ks[1..]);
      SortKeysPermutes(order, ks[1..]);
      InsertPermutes(order, ks[0], rest);
      assert multiset(ks) == multiset(ks[1..]) + multiset{ks[0]} by {
        assert ks == [ks[0]] + ks[1..];
      }
      assert |multiset(SortKeys(order, ks))| == |SortKeys(order, ks)|;
    }
  }

  lemma {:induction false} InsertSorted(order: Order, x: string, ys: seq<string>)
    requires Strict(order) && SortedBy(order, ys) && x !in ys
    ensures SortedBy(order, Insert(order, x, ys))
  {
    if ys != [] {
      if Compare(order, x, ys[0]) <= 0 {
        InsertBeforeHead(order, x, ys);
      } else {
        assert ys[1..] == ys[1..] && SortedBy(order, ys[1..]);
        InsertSorted(order, x, ys[1..]);
        InsertAfterHead(order, x, ys);
      }
    }
  }

  /** A key no greater than the head goes in front. */
  lemma InsertBeforeHead(order: Order, x: string, ys: seq<string>)
    requires Strict(order) && SortedBy(order, ys) && ys != [] && x !in ys
    requires Compare(order, x, ys[0]) <= 0
    ensures SortedBy(order, [x] + ys)
  {
    CompareConnected(order, x, ys[0]);
    forall j | 0 <= j < |ys| ensures Compare(order, x, ys[j]) < 0 {
      if j > 0 {
        CompareTransitive(order, x, ys[0], ys[j]);
      }
    }
    ConsSorted(order, x, ys);
  }

  /** A key greater than the head goes into the sorted tail, after the head. */
  lemma InsertAfterHead(order: Order, x: string, ys: seq<string>)
    requires Strict(order) && SortedBy(order, ys) && ys != [] && x !in ys
    requires Compare(order, x, ys[0]) > 0
    requires SortedBy(order, Insert(order, x, ys[1..]))
    ensures SortedBy(order, [ys[0]] + Insert(order, x, ys[1..]))
  {
    HeadBelowInsert(order, x, ys);
    ConsSorted(order, ys[0], Insert(order, x, ys[1..]));
  }

  lemma HeadBelowInsert(order: Order, x: string, ys: seq<string>)
    requires SortedBy(order, ys) && ys != [] && Compare(order, x, ys[0]) > 0
    ensures forall z :: z in Insert(order, x, ys[1..]) ==> Compare(order, ys[0], z) < 0
  {
    CompareAntisymmetric(order, x, ys[0]);
    forall z | z in ys[1..] ensures Compare(order, ys[0], z) < 0 {
      var k :| 0 <= k < |ys[1..]| && ys[1..][k] == z;
      assert ys[k + 1] == z;
    }
    InsertMembers(order, x, ys[1..]);
  }

  /** A key below every key of a sorted sequence can go in front of it. */
  lemma ConsSorted(order: Order, h: string, r: seq<string>)
    requires SortedBy(order, r) && forall z :: z in r ==> Compare(order, h, z) < 0
    ensures SortedBy(order, [h] + r)
  {
    var t := [h] + r;
    forall a, b | 0 <= a < b < |t| ensures Compare(order, t[a], t[b]) < 0 {
      assert t[b] == r[b - 1];
      if a > 0 {
        assert t[a] == r[a - 1];
      }
    }
  }

  lemma {:induction false} InsertMembers(order: Order, x: string, ys: seq<string>)
    ensures forall z :: z in Insert(order, x, ys) <==> z == x || z in ys
  {
    if ys != [] && Compare(order, x, ys[0]) > 0 {
      InsertMembers(order, x, ys[1..]);
      assert ys == [ys[0]] + ys[1..];
    }
  }

  lemma SortedHasNoDuplicates(order: Order, s: seq<string>)
    requires SortedBy(order, s)
    ensures Distinct(s)
  {
    forall i, j | 0 <= i < j < |s| ensures s[i] != s[j] {
      CompareReflexive(order, s[i]);
    }
  }

  /** For a strict total order and distinct keys the sort yields its keys in
      strictly increasing order. */
  lemma {:induction false} SortKeysSorted(order: Order, ks: seq<string>)
    requires Strict(order) && Distinct(ks)
    ensures SortedBy(order, SortKeys(order, ks))
  {
    if ks != [] {
      SortKeysSorted(order, ks[1..]);
      SortKeysPermutes(order, ks[1..]);
      assert ks[0] !in ks[1..];
      assert ks[0] !in multiset(SortKeys(order, ks[1..]));
      InsertSorted(order, ks[0], SortKeys(order, ks[1..]));
    }
  }

  /** A stable sort under a comparator that ties every pair keeps the original
      order. */
  lemma {:induction false} SortKeysWithoutPriorityKeepsOrder(ks: seq<string>)
    ensures SortKeys(Priority(None), ks) == ks
  {
    if ks != [] {
      SortKeysWithoutPriorityKeepsOrder(ks[1..]);
      assert ks == [ks[0]] + ks[1..];
    }
  }

  /** Two strictly sorted sequences holding the same keys are equal. */
  lemma {:induction false} SortedUnique(order: Order, a: seq<string>, b: seq<string>)
    requires SortedBy(order, a) && SortedBy(order, b)
    requires forall x :: x in a <==> x in b
    ensures a == b
    decreases |a|
  {
    if a != [] {
      assert a[0] in b;
    }
    if b != [] {
      assert b[0] in a;
    }
    if a != [] && b != [] {
      SortedHeadsAgree(order, a, b);
      SortedTailsAgree(order, a, b);
      SortedUnique(order, a[1..], b[1..]);
      assert a == [a[0]] + a[1..] && b == [b[0]] + b[1..];
    }
  }

  /** Two strictly sorted sequences with the same keys start with the same key. */
  lemma SortedHeadsAgree(order: Order, a: seq<string>, b: seq<string>)
    requires SortedBy(order, a) && SortedBy(order, b) && a != [] && b != []
    requires forall x :: x in a <==> x in b
    ensures a[0] == b[0]
  {
    assert a[0] in b && b[0] in a;
    if a[0] != b[0] {
      var i :| 0 <= i < |b| && b[i] == a[0];
      var j :| 0 <= j < |a| && a[j] == b[0];
      assert Compare(order, b[0], a[0]) < 0;
      assert Compare(order, a[0], b[0]) < 0;
      CompareAntisymmetric(order, a[0], b[0]);
    }
  }

  /** ... and so their tails hold the same keys. */
  lemma SortedTailsAgree(order: Order, a: seq<string>, b: seq<string>)
    requires SortedBy(order, a) && SortedBy(order, b) && a != [] && b != [] && a[0] == b[0]
    requires forall x :: x in a <==> x in b
    ensures SortedBy(order, a[1..]) && SortedBy(order, b[1..])
    ensures forall x :: x in a[1..] <==> x in b[1..]
  {
    SortedHasNoDuplicates(order, a);
    SortedHasNoDuplicates(order, b);
    forall x ensures x in a[1..] <==> x in b[1..] {
      if x in a[1..] {
        var i :| 1 <= i < |a| && a[i] == x;
        assert x != a[0];
        assert x in b;
      }
      if x in b[1..] {
        var i :| 1 <= i < |b| && b[i] == x;
        assert x != b[0];
        assert x in a;
      }
    }
    forall i, j | 0 <= i < j < |a[1..]| ensures Compare(order, a[1..][i], a[1..][j]) < 0 {
      assert a[1..][i] == a[i + 1] && a[1..][j] == a[j + 1];
    }
    forall i, j | 0 <= i < j < |b[1..]| ensures Compare(order, b[1..][i], b[1..][j]) < 0 {
      assert b[1..][i] == b[i + 1] && b[1..][j] == b[j + 1];
    }
  }

  // ---------------------------------------------------------------------------
  // Building the sorted obj
  // ---------------------------------------------------------------------------

  /** `total[key] = value` on a plain obj: an existing key keeps its place. */
  function Assign(total: Fields, key: string, value: Json): Fields
  {
    if key in Keys(total) then total[KeyIndex(total, key) := (key, value)] else total + [(key, value)]
  }

  /** The `reduce` of sortObjectByKeyNameList: copy `obj[key]` into `total` for
      every name that is a key of the obj, in the order of `names`. */
  function Collect(obj: Fields, names: seq<string>, total: Fields): Fields
    decreases |names|
  {
    if names == [] then total
    else
      var total' := if names[0] in Keys(obj) then Assign(total, names[0], Lookup(obj, names[0])) else total;
      Collect(obj, names[1..], total')
  }

  /** How sortObjectByKeyNameList is asked to sort: by a list of names, or by a
      comparator `propComparator(priority)`. */
  datatype SortWith = KeyNameList(names: seq<string>) | Comparator(priority: Option<seq<string>>)

  /** sortObjectByKeyNameList(obj, sortWith). */
  function SortObjectByKeyNameList(obj: Fields, sortWith: SortWith): Fields
  {
    var keys := if sortWith.KeyNameList? then sortWith.names else [];
    var order := if sortWith.Comparator? then Priority(sortWith.priority) else DefaultOrder;
    Collect(obj, keys + SortKeys(order, Keys(obj)), [])
  }

  /** prioritySort(jsonProp, sortPriority). */
  function PrioritySort(obj: Fields, priority: Option<seq<string>>): Fields
  {
    SortObjectByKeyNameList(obj, Comparator(priority))
  }

  /** prioritySort applied to a value; the model leaves values that are not
      objects alone (the callers never pass one, see SortWalk.SortableAt). */
  function PrioritySortValue(v: Json, priority: Option<seq<string>>): Json
  {
    if v.Obj? then Obj(PrioritySort(v.fields, priority)) else v
  }

  // ---------------------------------------------------------------------------
  // What `reduce` builds
  // ---------------------------------------------------------------------------

  /** The entries of `obj` for the keys `ks`, in that order. */
  function Entries(obj: Fields, ks: seq<string>): Fields
    requires forall i :: 0 <= i < |ks| ==> ks[i] in Keys(obj)
  {
    seq(|ks|, i requires 0 <= i < |ks| => (ks[i], Lookup(obj, ks[i])))
  }

  /** The names that `reduce` adds as new keys, given the keys `seen` already present. */
  function Fresh(obj: Fields, names: seq<string>, seen: seq<string>): (f: seq<string>)
    ensures forall i :: 0 <= i < |f| ==> f[i] in Keys(obj)
    decreases |names|
  {
    if names == [] then []
    else if names[0] in Keys(obj) && names[0] !in seen then [names[0]] + Fresh(obj, names[1..], seen + [names[0]])
    else Fresh(obj, names[1..], seen)
  }

  lemma {:induction false} FreshFacts(obj: Fields, names: seq<string>, seen: seq<string>)
    ensures forall x :: x in Fresh(obj, names, seen) <==> x in names && x in Keys(obj) && x !in seen
    ensures Distinct(Fresh(obj, names, seen))
    decreases |names|
  {
    if names != [] {
      FreshFacts(obj, names[1..], seen + [names[0]]);
      FreshFacts(obj, names[1..], seen);
      assert names == [names[0]] + names[1..];
    }
  }

  lemma {:induction false} FreshAppend(obj: Fields, a: seq<string>, b: seq<string>, seen: seq<string>)
    ensures Fresh(obj, a + b, seen) == Fresh(obj, a, seen) + Fresh(obj, b, seen + Fresh(obj, a, seen))
    decreases |a|
  {
    if a == [] {
      assert a + b == b && seen + [] == seen;
    } else if a[0] in Keys(obj) && a[0] !in seen {
      FreshAppend(obj, a[1..], b, seen + [a[0]]);
      FreshAppendTake(obj, a, b, seen);
    } else {
      FreshAppend(obj, a[1..], b, seen);
      FreshAppendSkip(obj, a, b, seen);
    }
  }

  /** The step of FreshAppend for a first name that is added. */
  lemma FreshAppendTake(obj: Fields, a: seq<string>, b: seq<string>, seen: seq<string>)
    requires a != [] && a[0] in Keys(obj) && a[0] !in seen
    requires var seen' := seen + [a[0]];
      Fresh(obj, a[1..] + b, seen') == Fresh(obj, a[1..], seen') + Fresh(obj, b, seen' + Fresh(obj, a[1..], seen'))
    ensures Fresh(obj, a + b, seen) == Fresh(obj, a, seen) + Fresh(obj, b, seen + Fresh(obj, a, seen))
  {
    var seen' := seen + [a[0]];
    var f := Fresh(obj, a[1..], seen');
    var g := Fresh(obj, b, seen' + f);
    assert (a + b)[0] == a[0] && (a + b)[1..] == a[1..] + b;
    FreshTakes(obj, a + b, seen);
    FreshTakes(obj, a, seen);
    ConcatAssociates(seen, [a[0]], f);
    ConcatAssociates([a[0]], f, g);
  }

  lemma ConcatAssociates<T>(x: seq<T>, y: seq<T>, z: seq<T>)
    ensures x + (y + z) == (x + y) + z
  {
  }

  /** One step of Fresh on a name it adds. */
  lemma FreshTakes(obj: Fields, names: seq<string>, seen: seq<string>)
    requires names != [] && names[0] in Keys(obj) && names[0] !in seen
    ensures Fresh(obj, names, seen) == [names[0]] + Fresh(obj, names[1..], seen + [names[0]])
  {
  }

  /** The step of FreshAppend for a first name that is skipped. */
  lemma FreshAppendSkip(obj: Fields, a: seq<string>, b: seq<string>, seen: seq<string>)
    requires a != [] && !(a[0] in Keys(obj) && a[0] !in seen)
    requires Fresh(obj, a[1..] + b, seen) == Fresh(obj, a[1..], seen) + Fresh(obj, b, seen + Fresh(obj, a[1..], seen))
    ensures Fresh(obj, a + b, seen) == Fresh(obj, a, seen) + Fresh(obj, b, seen + Fresh(obj, a, seen))
  {
    assert (a + b)[0] == a[0] && (a + b)[1..] == a[1..] + b;
  }

  /** Keys that are all new and all keys of the obj are added as they come. */
  lemma {:induction false} FreshOfNewKeys(obj: Fields, ks: seq<string>, seen: seq<string>)
    requires Distinct(ks)
    requires forall i :: 0 <= i < |ks| ==> ks[i] in Keys(obj) && ks[i] !in seen
    ensures Fresh(obj, ks, seen) == ks
    decreases |ks|
  {
    if ks != [] {
      assert ks[0] !in ks[1..];
      FreshOfNewKeys(obj, ks[1..], seen + [ks[0]]);
      assert ks == [ks[0]] + ks[1..];
    }
  }

  /** Invariant of the `reduce`: every entry of `total` holds the obj's value. */
  predicate CopiedFrom(obj: Fields, total: Fields)
  {
    && Distinct(Keys(total))
    && forall i :: 0 <= i < |total| ==> total[i].0 in Keys(obj) && total[i].1 == Lookup(obj, total[i].0)
  }

  lemma {:induction false} CollectIsEntries(obj: Fields, names: seq<string>, total: Fields)
    requires CopiedFrom(obj, total)
    ensures Collect(obj, names, total) == total + Entries(obj, Fresh(obj, names, Keys(total)))
    decreases |names|
  {
    if names == [] {
      assert total + [] == total;
    } else {
      var k := names[0];
      if k in Keys(obj) && k in Keys(total) {
        AssignPresentKey(obj, total, k);
        CollectIsEntries(obj, names[1..], total);
      } else if k in Keys(obj) {
        var e := (k, Lookup(obj, k));
        var total' := total + [e];
        AppendNewKey(obj, total, k);
        CollectIsEntries(obj, names[1..], total');
        var rest := Fresh(obj, names[1..], Keys(total'));
        assert Collect(obj, names, total) == total' + Entries(obj, rest);
        assert Fresh(obj, names, Keys(total)) == [k] + rest;
        EntriesCons(obj, k, rest);
        ConcatAssociates(total, [e], Entries(obj, rest));
      } else {
        CollectIsEntries(obj, names[1..], total);
      }
    }
  }

  lemma EntriesCons(obj: Fields, k: string, rest: seq<string>)
    requires k in Keys(obj) && forall i :: 0 <= i < |rest| ==> rest[i] in Keys(obj)
    ensures forall i :: 0 <= i < |[k] + rest| ==> ([k] + rest)[i] in Keys(obj)
    ensures Entries(obj, [k] + rest) == [(k, Lookup(obj, k))] + Entries(obj, rest)
  {
  }

  /** Copying a key that is already there changes nothing. */
  lemma AssignPresentKey(obj: Fields, total: Fields, k: string)
    requires CopiedFrom(obj, total) && k in Keys(obj) && k in Keys(total)
    ensures Assign(total, k, Lookup(obj, k)) == total
  {
    var i := KeyIndex(total, k);
    assert total[i] == (k, Lookup(obj, k));
  }

  /** Copying a new key appends its entry and keeps the invariant. */
  lemma AppendNewKey(obj: Fields, total: Fields, k: string)
    requires CopiedFrom(obj, total) && k in Keys(obj) && k !in Keys(total)
    ensures Assign(total, k, Lookup(obj, k)) == total + [(k, Lookup(obj, k))]
    ensures CopiedFrom(obj, total + [(k, Lookup(obj, k))])
    ensures Keys(total + [(k, Lookup(obj, k))]) == Keys(total) + [k]
  {
    var total' := total + [(k, Lookup(obj, k))];
    assert Keys(total') == Keys(total) + [k];
    forall i, j | 0 <= i < j < |Keys(total')| ensures Keys(total')[i] != Keys(total')[j] {
      if j == |total| {
        assert Keys(total')[i] == Keys(total)[i];
      }
    }
  }

  /** An obj with distinct keys is the sequence of its own entries. */
  lemma EntriesOfOwnKeys(obj: Fields)
    requires Distinct(Keys(obj))
    ensures Entries(obj, Keys(obj)) == obj
  {
    forall i | 0 <= i < |obj| ensures Entries(obj, Keys(obj))[i] == obj[i] {
      assert Keys(obj)[i] == obj[i].0;
      var r := KeyIndex(obj, obj[i].0);
      assert Keys(obj)[r] == Keys(obj)[i];
    }
  }

  lemma DistinctIfSameElements(a: seq<string>, b: seq<string>)
    requires Distinct(a) && multiset(a) == multiset(b)
    ensures Distinct(b) && forall x :: x in a <==> x in b
  {
    forall x ensures x in a <==> x in b {
      assert x in a <==> x in multiset(a);
      assert x in b <==> x in multiset(b);
    }
    forall i, j | 0 <= i < j < |b| ensures b[i] != b[j] {
      if b[i] == b[j] {
        var x := b[i];
        assert b == b[..i] + [x] + b[i + 1..j] + [x] + b[j + 1..];
        assert multiset(b)[x] >= 2;
        MultiplicityInDistinct(a, x);
      }
    }
  }

  lemma {:induction false} MultiplicityInDistinct(a: seq<string>, x: string)
    requires Distinct(a)
    ensures multiset(a)[x] <= 1
  {
    if a != [] {
      MultiplicityInDistinct(a[1..], x);
      assert a == [a[0]] + a[1..];
      assert a[0] !in a[1..];
    }
  }

  // ---------------------------------------------------------------------------
  // What prioritySort promises
  // ---------------------------------------------------------------------------

  /** The entries for distinct keys of an object: exactly those keys, in that
      order, each with its value in the object. */
  lemma EntriesFacts(obj: Fields, ks: seq<string>)
    requires Distinct(ks)
    requires forall i :: 0 <= i < |ks| ==> ks[i] in Keys(obj)
    ensures Keys(Entries(obj, ks)) == ks
    ensures forall i :: 0 <= i < |ks| ==> Entries(obj, ks)[i] in obj
    ensures forall k :: k in ks ==> Lookup(Entries(obj, ks), k) == Lookup(obj, k)
  {
    var r := Entries(obj, ks);
    assert Keys(r) == ks;
    forall i | 0 <= i < |ks| ensures r[i] in obj {
      assert r[i] == obj[KeyIndex(obj, ks[i])];
    }
    forall k | k in ks ensures Lookup(r, k) == Lookup(obj, k) {
      var i := KeyIndex(r, k);
      assert r[i] == (ks[i], Lookup(obj, ks[i]));
    }
  }

  /** prioritySort builds the entries of the object in sorted key order. */
  lemma PrioritySortIsEntries(obj: Fields, priority: Option<seq<string>>)
    requires Distinct(Keys(obj))
    ensures var ks := SortKeys(Priority(priority), Keys(obj));
      && (forall i :: 0 <= i < |ks| ==> ks[i] in Keys(obj))
      && PrioritySort(obj, priority) == Entries(obj, ks)
  {
    var ks := SortKeys(Priority(priority), Keys(obj));
    SortKeysPermutes(Priority(priority), Keys(obj));
    DistinctIfSameElements(Keys(obj), ks);
    assert [] + ks == ks;
    assert Keys([]) == [];
    FreshOfNewKeys(obj, ks, []);
    CollectIsEntries(obj, ks, []);
  }

  /** prioritySort only reorders: its key order is the sorted key list, it has
      exactly the keys of the input, and every key keeps its value. */
  lemma PrioritySortReorders(obj: Fields, priority: Option<seq<string>>)
    requires Distinct(Keys(obj))
    ensures var r := PrioritySort(obj, priority);
      && Keys(r) == SortKeys(Priority(priority), Keys(obj))
      && multiset(Keys(r)) == multiset(Keys(obj))
      && Distinct(Keys(r))
      && (forall i :: 0 <= i < |r| ==> r[i] in obj)
      && (forall k :: k in Keys(r) <==> k in Keys(obj))
      && (forall k :: k in Keys(obj) ==> Lookup(r, k) == Lookup(obj, k))
  {
    var ks := SortKeys(Priority(priority), Keys(obj));
    SortKeysPermutes(Priority(priority), Keys(obj));
    DistinctIfSameElements(Keys(obj), ks);
    PrioritySortIsEntries(obj, priority);
    EntriesFacts(obj, ks);
  }

  /** With an array priority list the keys come out in the reference priority
      order: listed keys first and in list order, then the rest in string order. */
  lemma PrioritySortOrdersKeys(obj: Fields, l: seq<string>)
    requires Distinct(Keys(obj))
    ensures var ks := Keys(PrioritySort(obj, Some(l)));
      forall i, j :: 0 <= i < j < |ks| ==> Precedes(l, ks[i], ks[j])
  {
    PrioritySortReorders(obj, Some(l));
    var ks := Keys(PrioritySort(obj, Some(l)));
    SortKeysSorted(Priority(Some(l)), Keys(obj));
    forall i, j | 0 <= i < j < |ks| ensures Precedes(l, ks[i], ks[j]) {
      PropComparatorMatchesPrecedes(l, ks[i], ks[j]);
    }
  }

  /** A priority list that is not an array leaves the object as it is: the stable
      sort keeps the original order. */
  lemma PrioritySortWithoutPriorityIsIdentity(obj: Fields)
    requires Distinct(Keys(obj))
    ensures PrioritySort(obj, None) == obj
  {
    SortKeysWithoutPriorityKeepsOrder(Keys(obj));
    PrioritySortIsEntries(obj, None);
    EntriesOfOwnKeys(obj);
  }

  /** Two objects with the same entries are identical after prioritySort with an
      array priority list: the output does not depend on the input key order. */
  lemma PrioritySortIgnoresInputOrder(a: Fields, b: Fields, l: seq<string>)
    requires Distinct(Keys(a)) && Distinct(Keys(b))
    requires forall k :: k in Keys(a) <==> k in Keys(b)
    requires forall k :: k in Keys(a) ==> Lookup(a, k) == Lookup(b, k)
    ensures PrioritySort(a, Some(l)) == PrioritySort(b, Some(l))
  {
    var o := Priority(Some(l));
    var ka := SortKeys(o, Keys(a));
    var kb := SortKeys(o, Keys(b));
    SortKeysSorted(o, Keys(a));
    SortKeysSorted(o, Keys(b));
    SortKeysPermutes(o, Keys(a));
    SortKeysPermutes(o, Keys(b));
    DistinctIfSameElements(Keys(a), ka);
    DistinctIfSameElements(Keys(b), kb);
    SortedUnique(o, ka, kb);
    PrioritySortIsEntries(a, Some(l));
    PrioritySortIsEntries(b, Some(l));
    var ra := Entries(a, ka);
    var rb := Entries(b, ka);
    forall i | 0 <= i < |ka| ensures ra[i] == rb[i] {
      assert ka[i] in Keys(a);
    }
    assert ra == rb;
  }

  /** Applying prioritySort twice equals applying it once. */
  lemma PrioritySortIdempotent(obj: Fields, priority: Option<seq<string>>)
    requires Distinct(Keys(obj))
    ensures PrioritySort(PrioritySort(obj, priority), priority) == PrioritySort(obj, priority)
  {
    var r := PrioritySort(obj, priority);
    PrioritySortReorders(obj, priority);
    if priority.None? {
      PrioritySortWithoutPriorityIsIdentity(r);
    } else {
      PrioritySortIgnoresInputOrder(r, obj, priority.value);
    }
  }

  /** Every entry the reduce copies is an entry of the object, whatever its keys. */
  lemma {:induction false} CollectDrawsFrom(obj: Fields, names: seq<string>, total: Fields)
    requires forall i :: 0 <= i < |total| ==> total[i] in obj
    ensures forall e :: e in Collect(obj, names, total) ==> e in obj
    decreases |names|
  {
    if names != [] {
      var k := names[0];
      if k in Keys(obj) {
        var e := (k, Lookup(obj, k));
        assert e in obj by {
          assert obj[KeyIndex(obj, k)] == e;
        }
        var t' := Assign(total, k, Lookup(obj, k));
        assert forall i :: 0 <= i < |t'| ==> t'[i] == e || t'[i] in total;
        assert Collect(obj, names, total) == Collect(obj, names[1..], t');
        forall i | 0 <= i < |t'| ensures t'[i] in obj {
          if t'[i] != e {
            var j :| 0 <= j < |total| && total[j] == t'[i];
          }
        }
        CollectDrawsFrom(obj, names[1..], t');

      } else {
        CollectDrawsFrom(obj, names[1..], total);
      }
    }
  }

  lemma PrioritySortDrawsFrom(obj: Fields, priority: Option<seq<string>>)
    ensures forall e :: e in PrioritySort(obj, priority) ==> e in obj
  {
    assert PrioritySort(obj, priority) == Collect(obj, [] + SortKeys(Priority(priority), Keys(obj)), []);
    CollectDrawsFrom(obj, [] + SortKeys(Priority(priority), Keys(obj)), []);
  }

  /** With an array priority list the keys of the result are sorted by the
      comparator. */
  lemma PrioritySortSorted(obj: Fields, l: seq<string>)
    requires Distinct(Keys(obj))
    ensures SortedBy(Priority(Some(l)), Keys(PrioritySort(obj, Some(l))))
  {
    PrioritySortReorders(obj, Some(l));
    SortKeysSorted(Priority(Some(l)), Keys(obj));
  }

  /** An object whose keys are already sorted by the comparator is left as it is. */
  lemma PrioritySortOfSorted(obj: Fields, l: seq<string>)
    requires Distinct(Keys(obj)) && SortedBy(Priority(Some(l)), Keys(obj))
    ensures PrioritySort(obj, Some(l)) == obj
  {
    var o := Priority(Some(l));
    var ks := SortKeys(o, Keys(obj));
    SortKeysSorted(o, Keys(obj));
    SortKeysPermutes(o, Keys(obj));
    DistinctIfSameElements(Keys(obj), ks);
    SortedUnique(o, Keys(obj), ks);
    PrioritySortIsEntries(obj, Some(l));
    EntriesOfOwnKeys(obj);
  }

  // ---------------------------------------------------------------------------
  // The key-list branch of sortObjectByKeyNameList
  // ---------------------------------------------------------------------------

  /** The names of `f` appear in list `l`, in the same order. */
  predicate FollowsList(l: seq<string>, f: seq<string>)
  {
    forall i, j :: 0 <= i < j < |f| ==> IndexOf(l, f[i]) < IndexOf(l, f[j])
  }

  lemma IndexOfTail(l: seq<string>, x: string)
    requires l != [] && x != l[0] && x in l[1..]
    ensures IndexOf(l, x) == IndexOf(l[1..], x) + 1 && IndexOf(l, x) >= 1
  {
  }

  lemma FollowsListShift(l: seq<string>, f: seq<string>)
    requires l != [] && FollowsList(l[1..], f)
    requires forall i :: 0 <= i < |f| ==> f[i] != l[0] && f[i] in l[1..]
    ensures FollowsList(l, f) && FollowsList(l, [l[0]] + f)
  {
    forall i | 0 <= i < |f| ensures IndexOf(l, f[i]) == IndexOf(l[1..], f[i]) + 1 >= 1 {
      IndexOfTail(l, f[i]);
    }
    var g := [l[0]] + f;
    forall i, j | 0 <= i < j < |g| ensures IndexOf(l, g[i]) < IndexOf(l, g[j]) {
      assert g[j] == f[j - 1];
      if i > 0 {
        assert g[i] == f[i - 1];
      }
    }
  }

  /** The names the reduce keeps come in the order of the list. */
  lemma {:induction false} FreshFollowsList(obj: Fields, l: seq<string>, seen: seq<string>)
    ensures FollowsList(l, Fresh(obj, l, seen))
    decreases |l|
  {
    if l != [] {
      var seen' := if l[0] in Keys(obj) && l[0] !in seen then seen + [l[0]] else seen;
      var rest := Fresh(obj, l[1..], seen');
      FreshFollowsList(obj, l[1..], seen');
      FreshFacts(obj, l[1..], seen');
      forall i | 0 <= i < |rest| ensures rest[i] != l[0] && rest[i] in l[1..] {
        assert rest[i] in rest;
        if l[0] in Keys(obj) && l[0] !in seen {
          assert l[0] in seen';
        }
      }
      FollowsListShift(l, rest);
    }
  }

  lemma {:induction false} FreshKeepsSorted(order: Order, obj: Fields, s: seq<string>, seen: seq<string>)
    requires SortedBy(order, s)
    ensures SortedBy(order, Fresh(obj, s, seen))
    decreases |s|
  {
    if s != [] {
      var s' := s[1..];
      var seen' := if s[0] in Keys(obj) && s[0] !in seen then seen + [s[0]] else seen;
      FreshKeepsSorted(order, obj, s', seen');
      FreshFacts(obj, s', seen');
      var rest := Fresh(obj, s', seen');
      forall j | 0 <= j < |rest| ensures Compare(order, s[0], rest[j]) < 0 {
        assert rest[j] in rest;
        var k :| 0 <= k < |s'| && s'[k] == rest[j];
        assert s[k + 1] == rest[j];
      }
    }
  }

  /** Listed names in list order followed by unlisted names in string order are
      sorted by the comparator with that list. */
  lemma ListedThenUnlistedSorted(l: seq<string>, f1: seq<string>, f2: seq<string>)
    requires FollowsList(l, f1) && SortedBy(DefaultOrder, f2)
    requires forall x :: x in f1 ==> x in l
    requires forall x :: x in f2 ==> x !in l
    ensures SortedBy(Priority(Some(l)), f1 + f2)
  {
    var ks := f1 + f2;
    forall i, j | 0 <= i < j < |ks| ensures PropComparator(Some(l), ks[i], ks[j]) < 0 {
      if j < |f1| {
        assert ks[i] == f1[i] && ks[j] == f1[j];
        assert ks[i] in f1 && ks[j] in f1;
        assert ks[i] != ks[j];
        ListedKeysByIndex(l, ks[i], ks[j]);
      } else if i < |f1| {
        assert ks[i] in f1 && ks[j] == f2[j - |f1|];
        assert ks[j] in f2;
        ListedKeyFirst(l, ks[i], ks[j]);
      } else {
        assert ks[i] == f2[i - |f1|] && ks[j] == f2[j - |f1|];
        assert ks[i] in f2 && ks[j] in f2;
        assert Compare(DefaultOrder, f2[i - |f1|], f2[j - |f1|]) < 0;
        UnlistedKeysLexical(l, ks[i], ks[j]);
      }
    }
  }

  /** The keys that sortObjectByKeyNameList with a list of names copies: the
      listed keys of the object in list order, then the others in string order. */
  lemma KeyNameListKeys(obj: Fields, l: seq<string>)
    requires Distinct(Keys(obj))
    ensures var ks := Fresh(obj, l + SortKeys(DefaultOrder, Keys(obj)), []);
      && SortedBy(Priority(Some(l)), ks)
      && (forall x :: x in ks <==> x in Keys(obj))
  {
    var keys := Keys(obj);
    var sorted := SortKeys(DefaultOrder, keys);
    FreshAppend(obj, l, sorted, []);
    var f1 := Fresh(obj, l, []);
    assert [] + f1 == f1;
    var f2 := Fresh(obj, sorted, f1);
    FreshFacts(obj, l, []);
    FreshFacts(obj, sorted, f1);
    SortKeysPermutes(DefaultOrder, keys);
    DistinctIfSameElements(keys, sorted);
    SortKeysSorted(DefaultOrder, keys);
    FreshKeepsSorted(DefaultOrder, obj, sorted, f1);
    FreshFollowsList(obj, l, []);
    ListedThenUnlistedSorted(l, f1, f2);
  }

  /** sortObjectByKeyNameList with a list of names puts the listed keys first, in
      list order, and the others after them in string order; that is the very
      order prioritySort gives with that list as priority. */
  lemma KeyNameListMatchesPrioritySort(obj: Fields, l: seq<string>)
    requires Distinct(Keys(obj))
    ensures SortObjectByKeyNameList(obj, KeyNameList(l)) == PrioritySort(obj, Some(l))
  {
    var keys := Keys(obj);
    var o := Priority(Some(l));
    var ks := Fresh(obj, l + SortKeys(DefaultOrder, keys), []);
    KeyNameListKeys(obj, l);
    var target := SortKeys(o, keys);
    SortKeysSorted(o, keys);
    SortKeysPermutes(o, keys);
    DistinctIfSameElements(keys, target);
    SortedUnique(o, ks, target);
    assert Keys([]) == [];
    CollectIsEntries(obj, l + SortKeys(DefaultOrder, keys), []);
    PrioritySortIsEntries(obj, Some(l));
  }
}
