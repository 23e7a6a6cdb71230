/** What asyncapiFilter guarantees: the filter of the root tags, the identity
    of an empty filter set, the errors, that the filter only ever deletes, and
    that its output leaves nothing for the rules to remove. */
module FilterLaws {
  import opened Wrappers
  import opened JsonTree
  import opened FilterWalk

  // ---------------------------------------------------------------------------
  // Rule 4: the root tags
  // ---------------------------------------------------------------------------

  /** `a` is `b` with some elements left out. */
  predicate IsSubsequence<T(==)>(a: seq<T>, b: seq<T>)
    decreases |b|
  {
    a == [] || (b != [] && ((a[0] == b[0] && IsSubsequence(a[1..], b[1..])) || IsSubsequence(a, b[1..])))
  }

  /** `Object.keys(item)` names one of `props` (null names nothing: it throws). */
  predicate MentionsProp(props: seq<string>, x: Json)
  {
    match ObjectKeysOf(x)
    case Success(ks) => exists p :: p in props && p in ks
    case Failure(_) => false
  }

  /** The root tags keep, in order, exactly the tags whose keys name no prop,
      each as often as it occurs; with no props all of them; and a null tag
      throws as soon as there is a prop to look for. */
  lemma {:induction false} FilterTagsSpec(props: seq<string>, items: seq<Json>)
    ensures FilterTags(props, items).Failure? <==> props != [] && Null in items
    ensures props == [] ==> FilterTags(props, items) == Success(items)
    ensures FilterTags(props, items).Success? ==>
      && IsSubsequence(FilterTags(props, items).value, items)
      && (forall x :: x in FilterTags(props, items).value <==> x in items && !MentionsProp(props, x))
      && forall x :: multiset(FilterTags(props, items).value)[x] == if MentionsProp(props, x) then 0 else multiset(items)[x]
  {
    if items != [] {
      FilterTagsSpec(props, items[1..]);
      assert items == [items[0]] + items[1..];
      assert forall x :: x in items <==> x == items[0] || x in items[1..];
      var k := KeepTag(props, items[0]);
      if k.Success? && FilterTags(props, items[1..]).Success? {
        var rest := FilterTags(props, items[1..]).value;
        var out := FilterTags(props, items).value;
        assert k.value == !MentionsProp(props, items[0]);
        assert multiset(items) == multiset([items[0]]) + multiset(items[1..]);
        if k.value {
          assert out == [items[0]] + rest;
          assert out[0] == items[0] && out[1..] == rest;
          assert multiset(out) == multiset([items[0]]) + multiset(rest);
        } else {
          assert out == rest;
        }
      }
    }
  }

  // ---------------------------------------------------------------------------
  // An empty filter set
  // ---------------------------------------------------------------------------

  predicate NoFilters(f: FilterSet)
  {
    f.operations == [] && f.tags == [] && Props(f) == []
  }

  /** With nothing to filter every node is kept as it is. */
  lemma {:induction false} VisitWithoutFilters(f: FilterSet, pos: FPos, node: Json)
    requires NoFilters(f)
    ensures VisitNode(f, pos, node) == Success(Visit(Keep(node), NoRequest))
    decreases Depth(node), 1
  {
    assert OwnRequest(f, pos, node) == NoRequest && !RemovesSelf(f, pos);
    if node.Arr? {
      FilterTagsSpec(Props(f), node.items);
      assert RootTagsUpdate(f, pos, node) == Success(if IsRootTags(pos, node) then Some(node) else None);
      ItemsWithoutFilters(f, pos, node.items, 0);
      assert node.items[0..] == node.items;
    } else {
      assert RootTagsUpdate(f, pos, node) == Success(None);
      if node.Obj? {
        EntriesWithoutFilters(f, pos, node.fields, 0);
        var none: Fields := [];
        assert node.fields[0..] + none == node.fields;
      }
    }
  }

  lemma {:induction false} EntriesWithoutFilters(f: FilterSet, pos: FPos, fs: Fields, i: nat)
    requires NoFilters(f) && i <= |fs|
    ensures VisitEntries(f, pos, fs, i) == Success(EntryWalk(fs[i..], [], false, false))
    decreases Depth(Obj(fs)), 0, |fs| - i
  {
    if i < |fs| {
      ChildrenAreShallower(Obj(fs));
      VisitWithoutFilters(f, FChild(fs[i].0, pos.FRoot?), fs[i].1);
      EntriesWithoutFilters(f, pos, fs, i + 1);
      var none: Fields := [];
      assert VisitEntries(f, pos, fs, i)
        == Success(EntryWalk([(fs[i].0, fs[i].1)] + fs[i + 1..], none + none, false, false));
      assert [(fs[i].0, fs[i].1)] + fs[i + 1..] == fs[i..];
      assert none + none == none;
    } else {
      assert fs[i..] == [];
    }
  }

  lemma {:induction false} ItemsWithoutFilters(f: FilterSet, pos: FPos, items: seq<Json>, i: nat)
    requires NoFilters(f) && i <= |items|
    ensures VisitItems(f, pos, items, i) == Success(ItemWalk(items[i..], false, false))
    decreases Depth(Arr(items)), 0, |items| - i
  {
    if i < |items| {
      ChildrenAreShallower(Arr(items));
      VisitWithoutFilters(f, FChild(IndexKey(i), pos.FRoot?), items[i]);
      ItemsWithoutFilters(f, pos, items, i + 1);
      var here: seq<Json> := [items[i]];
      assert here + items[i + 1..] == items[i..];
      assert VisitItems(f, pos, items, i) == Success(ItemWalk(here + items[i + 1..], false, false));
    } else {
      assert items[i..] == [];
    }
  }

  /** With an empty filter set only the clean-up has an effect. */
  lemma FilterWithoutFilters(f: FilterSet, doc: Json)
    requires NoFilters(f)
    ensures FilterPass(f, doc) == Success(doc)
    ensures AsyncapiFilter(f, doc) == Cleanup(doc)
  {
    VisitWithoutFilters(f, FRoot, doc);
  }

  // ---------------------------------------------------------------------------
  // The root has no parent
  // ---------------------------------------------------------------------------

  lemma {:induction false} AskingRootEntryFails(f: FilterSet, fs: Fields, i: nat, j: nat)
    requires i <= j < |fs| && OwnRequest(f, FChild(fs[j].0, true), fs[j].1) != NoRequest
    ensures VisitEntries(f, FRoot, fs, i).Failure?
    decreases j - i
  {
    if i < j {
      AskingRootEntryFails(f, fs, i + 1, j);
    }
  }

  lemma {:induction false} AskingRootItemFails(f: FilterSet, items: seq<Json>, i: nat, j: nat)
    requires i <= j < |items| && OwnRequest(f, FChild(IndexKey(j), true), items[j]) != NoRequest
    ensures VisitItems(f, FRoot, items, i).Failure?
    decreases j - i
  {
    if i < j {
      AskingRootItemFails(f, items, i + 1, j);
    }
  }

  /** A filter tag in a `tags` array, or a flagged field, directly below the root
      would remove or delete the root: the filter throws instead. */
  lemma FilterNeedsQuietRoot(f: FilterSet, doc: Json)
    ensures FilterPass(f, doc).Success? && doc.Obj? ==>
      forall j :: 0 <= j < |doc.fields| ==> OwnRequest(f, FChild(doc.fields[j].0, true), doc.fields[j].1) == NoRequest
    ensures FilterPass(f, doc).Success? && doc.Arr? ==>
      forall j :: 0 <= j < |doc.items| ==> OwnRequest(f, FChild(IndexKey(j), true), doc.items[j]) == NoRequest
  {
    if doc.Obj? {
      forall j | 0 <= j < |doc.fields| && OwnRequest(f, FChild(doc.fields[j].0, true), doc.fields[j].1) != NoRequest
        ensures FilterPass(f, doc).Failure?
      {
        AskingRootEntryFails(f, doc.fields, 0, j);
      }
    } else if doc.Arr? {
      forall j | 0 <= j < |doc.items| && OwnRequest(f, FChild(IndexKey(j), true), doc.items[j]) != NoRequest
        ensures FilterPass(f, doc).Failure?
      {
        AskingRootItemFails(f, doc.items, 0, j);
      }
    }
  }

  // ---------------------------------------------------------------------------
  // The filter only deletes
  // ---------------------------------------------------------------------------

  /** `o` is what is left of `i` once entries have been deleted from objects
      and elements dropped from arrays or replaced by holes. Every object of
      `o` has distinct keys and, when `ordered`, keeps the keys it has left in
      their original order. */
  predicate PrunedWith(o: Json, i: Json, ordered: bool)
    decreases o, 1
  {
    match o
    case Obj(gs) =>
      && i.Obj? && Distinct(Keys(gs))
      && (ordered ==> IsSubsequence(Keys(gs), Keys(i.fields)))
      && forall j :: 0 <= j < |gs| ==> gs[j].0 in Keys(i.fields) && PrunedWith(gs[j].1, Lookup(i.fields, gs[j].0), ordered)
    case Arr(ys) => i.Arr? && ItemsPrunedWith(ys, i.items, ordered)
    case _ => o == i
  }

  /** `ys` is drawn, in order, from `xs`: each element is a hole or pruned from
      an element of `xs`, and elements of `xs` may be skipped. */
  predicate ItemsPrunedWith(ys: seq<Json>, xs: seq<Json>, ordered: bool)
    decreases ys, 0, |xs|
  {
    || ys == []
    || (&& xs != []
        && (|| ((ys[0] == Null || PrunedWith(ys[0], xs[0], ordered)) && ItemsPrunedWith(ys[1..], xs[1..], ordered))
            || ItemsPrunedWith(ys, xs[1..], ordered)))
  }

  /** Only deletions: what is left keeps its place. */
  predicate Pruned(o: Json, i: Json)
  {
    PrunedWith(o, i, true)
  }

  predicate ItemsPruned(ys: seq<Json>, xs: seq<Json>)
  {
    ItemsPrunedWith(ys, xs, true)
  }

  /** Deletions, and object keys in any order. */
  predicate PrunedUpToKeyOrder(o: Json, i: Json)
  {
    PrunedWith(o, i, false)
  }

  lemma {:induction false} SubsequenceTransitive<T>(a: seq<T>, b: seq<T>, c: seq<T>)
    requires IsSubsequence(a, b) && IsSubsequence(b, c)
    ensures IsSubsequence(a, c)
    decreases |c|
  {
    if a != [] {
      if IsSubsequence(b, c[1..]) {
        SubsequenceTransitive(a, b, c[1..]);
      } else if a[0] == b[0] && IsSubsequence(a[1..], b[1..]) {
        SubsequenceTransitive(a[1..], b[1..], c[1..]);
      } else {
        SubsequenceTransitive(a, b[1..], c[1..]);
      }
    }
  }

  lemma {:induction false} PrunedTransitive(a: Json, b: Json, c: Json, ordered: bool)
    requires PrunedWith(a, b, ordered) && PrunedWith(b, c, ordered)
    ensures PrunedWith(a, c, ordered)
    decreases a, 1
  {
    match a
    case Obj(gs) =>
      if ordered {
        SubsequenceTransitive(Keys(gs), Keys(b.fields), Keys(c.fields));
      }
      forall j | 0 <= j < |gs| ensures gs[j].0 in Keys(c.fields) && PrunedWith(gs[j].1, Lookup(c.fields, gs[j].0), ordered) {
        var k := gs[j].0;
        var m := KeyIndex(b.fields, k);
        PrunedTransitive(gs[j].1, Lookup(b.fields, k), Lookup(c.fields, k), ordered);
      }
    case Arr(ys) => ItemsPrunedTransitive(ys, b.items, c.items, ordered);
    case _ =>
  }

  lemma {:induction false} ItemsPrunedTransitive(xs: seq<Json>, ys: seq<Json>, zs: seq<Json>, ordered: bool)
    requires ItemsPrunedWith(xs, ys, ordered) && ItemsPrunedWith(ys, zs, ordered)
    ensures ItemsPrunedWith(xs, zs, ordered)
    decreases xs, 0, |ys| + |zs|
  {
    if xs != [] {
      if ItemsPrunedWith(ys, zs[1..], ordered) {
        ItemsPrunedTransitive(xs, ys, zs[1..], ordered);
      } else if (xs[0] == Null || PrunedWith(xs[0], ys[0], ordered)) && ItemsPrunedWith(xs[1..], ys[1..], ordered) {
        if xs[0] != Null && ys[0] != Null {
          PrunedTransitive(xs[0], ys[0], zs[0], ordered);
        }
        ItemsPrunedTransitive(xs[1..], ys[1..], zs[1..], ordered);
      } else {
        ItemsPrunedTransitive(xs, ys[1..], zs[1..], ordered);
      }
    }
  }

  /** A pruning that keeps key order is one up to key order. */
  lemma {:induction false} PrunedIsPrunedUpToKeyOrder(o: Json, i: Json)
    requires Pruned(o, i)
    ensures PrunedUpToKeyOrder(o, i)
    decreases o, 1
  {
    match o
    case Obj(gs) =>
      forall j | 0 <= j < |gs| ensures PrunedUpToKeyOrder(gs[j].1, Lookup(i.fields, gs[j].0)) {
        PrunedIsPrunedUpToKeyOrder(gs[j].1, Lookup(i.fields, gs[j].0));
      }
    case Arr(ys) => ItemsPrunedIsUpToKeyOrder(ys, i.items);
    case _ =>
  }

  lemma {:induction false} ItemsPrunedIsUpToKeyOrder(ys: seq<Json>, xs: seq<Json>)
    requires ItemsPruned(ys, xs)
    ensures ItemsPrunedWith(ys, xs, false)
    decreases ys, 0, |xs|
  {
    if ys != [] {
      if (ys[0] == Null || Pruned(ys[0], xs[0])) && ItemsPruned(ys[1..], xs[1..]) {
        if ys[0] != Null {
          PrunedIsPrunedUpToKeyOrder(ys[0], xs[0]);
        }
        ItemsPrunedIsUpToKeyOrder(ys[1..], xs[1..]);
      } else {
        ItemsPrunedIsUpToKeyOrder(ys, xs[1..]);
      }
    }
  }

  /** Skipping elements of the source keeps a pruning a pruning. */
  lemma {:induction false} ItemsPrunedFromSubsequence(ys: seq<Json>, xs: seq<Json>, zs: seq<Json>)
    requires ItemsPruned(ys, xs) && IsSubsequence(xs, zs)
    ensures ItemsPruned(ys, zs)
    decreases |zs|
  {
    if ys != [] {
      if IsSubsequence(xs, zs[1..]) {
        ItemsPrunedFromSubsequence(ys, xs, zs[1..]);
      } else if (ys[0] == Null || Pruned(ys[0], xs[0])) && ItemsPruned(ys[1..], xs[1..]) {
        ItemsPrunedFromSubsequence(ys[1..], xs[1..], zs[1..]);
      } else {
        ItemsPrunedFromSubsequence(ys, xs[1..], zs[1..]);
      }
    }
  }

  /** A string element survives only if it was there. */
  lemma {:induction false} ItemsPrunedStrings(ys: seq<Json>, xs: seq<Json>, s: string)
    requires ItemsPruned(ys, xs) && Str(s) in ys
    ensures Str(s) in xs
    decreases |ys| + |xs|
  {
    if (ys[0] == Null || Pruned(ys[0], xs[0])) && ItemsPruned(ys[1..], xs[1..]) {
      if ys[0] != Str(s) {
        assert Str(s) in ys[1..];
        ItemsPrunedStrings(ys[1..], xs[1..], s);
      }
    } else {
      ItemsPrunedStrings(ys, xs[1..], s);
    }
  }

  lemma {:induction false} PrunedWellFormed(o: Json, i: Json)
    requires Pruned(o, i)
    ensures WellFormed(o)
    decreases o, 1
  {
    match o
    case Obj(gs) =>
      forall j | 0 <= j < |gs| ensures WellFormed(gs[j].1) {
        PrunedWellFormed(gs[j].1, Lookup(i.fields, gs[j].0));
      }
    case Arr(ys) => ItemsPrunedWellFormed(ys, i.items);
    case _ =>
  }

  lemma {:induction false} ItemsPrunedWellFormed(ys: seq<Json>, xs: seq<Json>)
    requires ItemsPruned(ys, xs)
    ensures forall j :: 0 <= j < |ys| ==> WellFormed(ys[j])
    decreases ys, 0, |xs|
  {
    if ys != [] {
      if (ys[0] == Null || Pruned(ys[0], xs[0])) && ItemsPruned(ys[1..], xs[1..]) {
        if ys[0] != Null {
          PrunedWellFormed(ys[0], xs[0]);
        }
        ItemsPrunedWellFormed(ys[1..], xs[1..]);
        forall j | 1 <= j < |ys| ensures WellFormed(ys[j]) {
          assert ys[j] == ys[1..][j - 1];
        }
      } else {
        ItemsPrunedWellFormed(ys, xs[1..]);
      }
    }
  }

  lemma DistinctCons(e: (string, Json), es: Fields)
    requires Distinct(Keys(es)) && e.0 !in Keys(es)
    ensures Distinct(Keys([e] + es))
  {
    var ks := Keys([e] + es);
    forall p, q | 0 <= p < q < |ks| ensures ks[p] != ks[q] {
      assert ks[q] == Keys(es)[q - 1];
      if p > 0 {
        assert ks[p] == Keys(es)[p - 1];
      }
    }
  }

  lemma DistinctAppend(a: Fields, b: Fields)
    requires Distinct(Keys(a)) && Distinct(Keys(b))
    requires forall x, y :: x in a && y in b ==> x.0 != y.0
    ensures Distinct(Keys(a + b))
  {
    var ks := Keys(a + b);
    forall p, q | 0 <= p < q < |ks| ensures ks[p] != ks[q] {
      if q >= |a| {
        assert (a + b)[q] == b[q - |a|];
        if p < |a| {
          assert (a + b)[p] == a[p];
          assert a[p] in a && b[q - |a|] in b;
        } else {
          assert (a + b)[p] == b[p - |a|];
          assert Keys(b)[p - |a|] == ks[p] && Keys(b)[q - |a|] == ks[q];
        }
      } else {
        assert Keys(a)[p] == ks[p] && Keys(a)[q] == ks[q];
      }
    }
  }

  /** Every entry of `es` is an entry of `fs` at index `i` or later, pruned. */
  predicate FromEntries(es: Fields, fs: Fields, i: nat)
  {
    forall e :: e in es ==> e.0 in Keys(fs) && KeyIndex(fs, e.0) >= i && Pruned(e.1, Lookup(fs, e.0))
  }

  /** Kept and readded entries are entries of the walked object, pruned, each
      key at most once; the kept keys keep their order. */
  predicate EntriesPrunedFrom(w: EntryWalk, fs: Fields, i: nat)
  {
    && i <= |fs| && IsSubsequence(Keys(w.kept), Keys(fs[i..]))
    && FromEntries(w.kept, fs, i) && FromEntries(w.readded, fs, i)
    && Distinct(Keys(w.kept)) && Distinct(Keys(w.readded))
    && (forall x, y :: x in w.kept && y in w.readded ==> x.0 != y.0)
  }

  lemma FromEntriesCons(fs: Fields, i: nat, v: Json, es: Fields)
    requires Distinct(Keys(fs)) && i < |fs| && Pruned(v, fs[i].1) && FromEntries(es, fs, i + 1)
    ensures FromEntries([(fs[i].0, v)] + es, fs, i)
    ensures forall e :: e in es ==> e.0 != fs[i].0
  {
    LookupOfEntry(fs, i);
  }

  lemma FromEntriesLater(es: Fields, fs: Fields, i: nat)
    requires FromEntries(es, fs, i + 1)
    ensures FromEntries(es, fs, i)
  {
  }

  lemma FromEntriesAppend(a: Fields, b: Fields, fs: Fields, i: nat)
    requires FromEntries(a, fs, i) && FromEntries(b, fs, i)
    ensures FromEntries(a + b, fs, i)
  {
  }

  /** An object of pruned entries of `fs`, with distinct keys in the order of
      `fs`, is pruned from `fs`. */
  lemma PrunedObject(gs: Fields, fs: Fields)
    requires Distinct(Keys(gs)) && FromEntries(gs, fs, 0) && IsSubsequence(Keys(gs), Keys(fs))
    ensures Pruned(Obj(gs), Obj(fs))
  {
    forall j | 0 <= j < |gs| ensures gs[j].0 in Keys(fs) && Pruned(gs[j].1, Lookup(fs, gs[j].0)) {
      assert gs[j] in gs;
    }
  }

  lemma SubsequenceCons<T>(x: T, a: seq<T>, b: seq<T>)
    requires IsSubsequence(a, b)
    ensures IsSubsequence([x] + a, [x] + b) && IsSubsequence(a, [x] + b)
  {
    assert ([x] + a)[0] == x && ([x] + a)[1..] == a && ([x] + b)[1..] == b;
  }

  lemma {:induction false} SubsequenceSnoc<T>(a: seq<T>, b: seq<T>, z: T)
    requires IsSubsequence(a, b)
    ensures IsSubsequence(a + [z], b + [z])
    decreases |b|
  {
    if b == [] {
      assert a == [] && a + [z] == [z] && [z][1..] == [];
    } else {
      assert (b + [z])[0] == b[0] && (b + [z])[1..] == b[1..] + [z];
      if a == [] {
        SubsequenceSnoc(a, b[1..], z);
        assert a + [z] == [z];
      } else if a[0] == b[0] && IsSubsequence(a[1..], b[1..]) {
        SubsequenceSnoc(a[1..], b[1..], z);
        assert (a + [z])[0] == a[0] && (a + [z])[1..] == a[1..] + [z];
      } else {
        SubsequenceSnoc(a, b[1..], z);
      }
    }
  }

  /** `s` without the elements equal to `x`. */
  function Drop<T(==)>(s: seq<T>, x: T): seq<T>
    decreases |s|
  {
    if s == [] then [] else (if s[0] == x then [] else [s[0]]) + Drop(s[1..], x)
  }

  lemma {:induction false} DropMembers<T>(s: seq<T>, x: T)
    ensures forall y :: y in Drop(s, x) <==> y in s && y != x
    decreases |s|
  {
    if s != [] {
      DropMembers(s[1..], x);
      assert forall y :: y in s <==> y == s[0] || y in s[1..];
    }
  }

  lemma {:induction false} SubsequenceOfDrop<T>(a: seq<T>, b: seq<T>, x: T)
    requires IsSubsequence(a, b) && x !in a
    ensures IsSubsequence(a, Drop(b, x))
    decreases |b|
  {
    if a != [] {
      var d := Drop(b[1..], x);
      if a[0] == b[0] && IsSubsequence(a[1..], b[1..]) {
        assert forall y :: y in a[1..] ==> y in a;
        SubsequenceOfDrop(a[1..], b[1..], x);
        assert Drop(b, x) == [b[0]] + d;
        SubsequenceCons(b[0], a[1..], d);
        assert a == [b[0]] + a[1..];
      } else {
        SubsequenceOfDrop(a, b[1..], x);
        if b[0] != x {
          assert Drop(b, x) == [b[0]] + d;
          SubsequenceCons(b[0], a, d);
        } else {
          assert Drop(b, x) == d;
        }
      }
    }
  }

  /** The entries of `fs` other than those with key `k`. */
  function Without(fs: Fields, k: string): Fields
    decreases |fs|
  {
    if fs == [] then [] else (if fs[0].0 == k then [] else [fs[0]]) + Without(fs[1..], k)
  }

  /** The object `fs` after `delete fs[k]` and a new assignment to `k`: the
      entry of `k` comes last. */
  function MovedLast(fs: Fields, k: string): Fields
    requires k in Keys(fs)
  {
    Without(fs, k) + [(k, Lookup(fs, k))]
  }

  lemma {:induction false} KeysOfWithout(fs: Fields, k: string)
    ensures Keys(Without(fs, k)) == Drop(Keys(fs), k)
    decreases |fs|
  {
    if fs != [] {
      KeysOfWithout(fs[1..], k);
      var p: Fields := if fs[0].0 == k then [] else [fs[0]];
      KeysOfAppend(p, Without(fs[1..], k));
      assert Keys(p) == (if fs[0].0 == k then [] else [fs[0].0]);
      assert Keys(fs)[0] == fs[0].0 && Keys(fs)[1..] == Keys(fs[1..]);
    }
  }

  lemma {:induction false} LookupWithout(fs: Fields, k: string, x: string)
    requires x in Keys(fs) && x != k
    ensures x in Keys(Without(fs, k)) && Lookup(Without(fs, k), x) == Lookup(fs, x)
    decreases |fs|
  {
    var p: Fields := if fs[0].0 == k then [] else [fs[0]];
    var w := Without(fs[1..], k);
    assert Without(fs, k) == p + w;
    if fs[0].0 == x {
      KeyIndexIsFirst(p + w, x, 0);
    } else {
      var m := KeyIndex(fs, x);
      assert Keys(fs[1..])[m - 1] == x;
      LookupWithout(fs[1..], k, x);
      KeyIndexIsFirst(fs[1..], x, m - 1);
      assert x !in Keys(p);
      LookupPastPrefix(p, w, x);
    }
  }

  /** Moving the entry of `k` last keeps every key and what it looks up. */
  lemma MovedLastLookups(fs: Fields, k: string)
    requires k in Keys(fs)
    ensures forall x :: x in Keys(MovedLast(fs, k)) <==> x in Keys(fs)
    ensures forall x :: x in Keys(fs) ==> Lookup(MovedLast(fs, k), x) == Lookup(fs, x)
  {
    var w := Without(fs, k);
    var last: Fields := [(k, Lookup(fs, k))];
    KeysOfWithout(fs, k);
    DropMembers(Keys(fs), k);
    KeysOfAppend(w, last);
    assert Keys(last) == [k];
    forall x | x in Keys(fs) ensures Lookup(MovedLast(fs, k), x) == Lookup(fs, x) {
      if x == k {
        LookupPastPrefix(w, last, k);
        KeyIndexIsFirst(last, k, 0);
      } else {
        LookupWithout(fs, k, x);
        LookupInPrefix(w, last, x);
      }
    }
  }

  /** What the first pass leaves of the root: a pruning, except that rule 4
      may take out the root `tags` and assign them again, so that they come
      last. */
  predicate RootPruned(o: Json, i: Json)
  {
    || Pruned(o, i)
    || (i.Obj? && "tags" in Keys(i.fields) && Pruned(o, Obj(MovedLast(i.fields, "tags"))))
  }

  /** Pruning a root pruning gives a root pruning. */
  lemma RootPrunedAfterPruning(a: Json, b: Json, c: Json)
    requires Pruned(a, b) && RootPruned(b, c)
    ensures RootPruned(a, c)
    ensures Pruned(b, c) ==> Pruned(a, c)
  {
    if Pruned(b, c) {
      PrunedTransitive(a, b, c, true);
    } else {
      PrunedTransitive(a, b, Obj(MovedLast(c.fields, "tags")), true);
    }
  }

  /** Moving the root `tags` last is a change of key order. */
  lemma RootPrunedIsPrunedUpToKeyOrder(o: Json, i: Json)
    requires RootPruned(o, i)
    ensures PrunedUpToKeyOrder(o, i)
  {
    if Pruned(o, i) {
      PrunedIsPrunedUpToKeyOrder(o, i);
    } else {
      var m := MovedLast(i.fields, "tags");
      MovedLastLookups(i.fields, "tags");
      PrunedIsPrunedUpToKeyOrder(o, Obj(m));
      forall j | 0 <= j < |o.fields|
        ensures o.fields[j].0 in Keys(i.fields) && PrunedUpToKeyOrder(o.fields[j].1, Lookup(i.fields, o.fields[j].0))
      {
        assert PrunedWith(o.fields[j].1, Lookup(m, o.fields[j].0), false);
      }
    }
  }

  /** The kept entries, in order, followed by the re-added `tags`: a pruning
      of the object with its `tags` moved last. */
  lemma PrunedWithTagsLast(kept: Fields, t: (string, Json), fs: Fields)
    requires Distinct(Keys(kept)) && FromEntries(kept, fs, 0) && IsSubsequence(Keys(kept), Keys(fs))
    requires t.0 in Keys(fs) && Pruned(t.1, Lookup(fs, t.0))
    requires forall e :: e in kept ==> e.0 != t.0
    ensures Pruned(Obj(kept + [t]), Obj(MovedLast(fs, t.0)))
  {
    var k := t.0;
    var m := MovedLast(fs, k);
    MovedLastLookups(fs, k);
    KeysMembership(kept);
    DistinctAppend(kept, [t]);
    KeysOfAppend(kept, [t]);
    assert Keys([t]) == [k];
    KeysOfWithout(fs, k);
    SubsequenceOfDrop(Keys(kept), Keys(fs), k);
    SubsequenceSnoc(Keys(kept), Drop(Keys(fs), k), k);
    KeysOfAppend(Without(fs, k), [(k, Lookup(fs, k))]);
    assert Keys([(k, Lookup(fs, k))]) == [k];
    var gs := kept + [t];
    forall j | 0 <= j < |gs| ensures gs[j].0 in Keys(m) && Pruned(gs[j].1, Lookup(m, gs[j].0)) {
      if j < |kept| {
        assert gs[j] == kept[j] && kept[j] in kept;
      } else {
        assert gs[j] == t;
      }
    }
  }

  /** One step of an entry walk keeps the kept keys in the object's order. */
  lemma KeptKeysStep(fs: Fields, i: nat, kept: Fields, restKept: Fields, keep: bool, v: Json)
    requires i < |fs| && IsSubsequence(Keys(restKept), Keys(fs[i + 1..]))
    requires kept == (if keep then [(fs[i].0, v)] else []) + restKept
    ensures IsSubsequence(Keys(kept), Keys(fs[i..]))
  {
    var k := fs[i].0;
    assert fs[i..] == [fs[i]] + fs[i + 1..];
    KeysOfAppend([fs[i]], fs[i + 1..]);
    assert Keys([fs[i]]) == [k];
    SubsequenceCons(k, Keys(restKept), Keys(fs[i + 1..]));
    if keep {
      KeysOfAppend([(k, v)], restKept);
      assert Keys([(k, v)]) == [k];
    } else {
      assert kept == restKept;
    }
  }

  /** Only the `tags` of the root are put back, and only when `tags` is an
      operation. */
  lemma {:induction false} ReaddedTags(f: FilterSet, pos: FPos, fs: Fields, i: nat)
    requires i <= |fs|
    ensures var r := VisitEntries(f, pos, fs, i);
      r.Success? ==> forall e :: e in r.value.readded ==> pos.FRoot? && e.0 == "tags" && "tags" in f.operations
    decreases |fs| - i
  {
    if i < |fs| {
      VisitFacts(f, FChild(fs[i].0, pos.FRoot?), fs[i].1);
      ReaddedTags(f, pos, fs, i + 1);
      EntriesStep(f, pos, fs, i);
    }
  }

  lemma {:induction false} VisitPrunes(f: FilterSet, pos: FPos, node: Json)
    requires WellFormed(node)
    ensures var r := VisitNode(f, pos, node);
      r.Success? && (r.value.fate.Keep? || r.value.fate.Readded?) ==>
        Pruned(r.value.fate.value, node) || (pos.FRoot? && "tags" in f.operations && RootPruned(r.value.fate.value, node))
    decreases Depth(node), 2
  {
    var r := VisitNode(f, pos, node);
    if r.Success? && (r.value.fate.Keep? || r.value.fate.Readded?) {
      if node.Obj? {
        assert RootTagsUpdate(f, pos, node) == Success(None);
        KeptEntriesPrune(f, pos, node.fields);
      } else if node.Arr? {
        VisitedItemsPrune(f, pos, node);
      }
    }
  }

  /** Entries with distinct keys that all have key `k` are at most one. */
  lemma AtMostOneWithKey(es: Fields, k: string)
    requires Distinct(Keys(es)) && forall e :: e in es ==> e.0 == k
    ensures |es| <= 1
  {
    if |es| > 1 {
      FirstTwoEntries(es);
      assert false;
    }
  }

  lemma FirstTwoEntries(es: Fields)
    ensures |es| > 1 ==> es[0] in es && es[1] in es && Keys(es)[0] == es[0].0 && Keys(es)[1] == es[1].0
  {
  }

  /** Below the root a visit yields a pruning of the node. */
  lemma ChildVisitPrunes(f: FilterSet, pos: FPos, node: Json)
    requires WellFormed(node) && pos.FChild?
    ensures var r := VisitNode(f, pos, node);
      r.Success? && (r.value.fate.Keep? || r.value.fate.Readded?) ==> Pruned(r.value.fate.value, node)
  {
    VisitPrunes(f, pos, node);
  }

  /** The entries an object visit keeps, followed by those it re-adds, make a
      pruning of the object, or of the root with its `tags` moved last. */
  lemma {:induction false} KeptEntriesPrune(f: FilterSet, pos: FPos, fs: Fields)
    requires WellFormed(Obj(fs))
    ensures var r := VisitEntries(f, pos, fs, 0);
      r.Success? ==>
        var o := Obj(r.value.kept + r.value.readded);
        Pruned(o, Obj(fs)) || (pos.FRoot? && "tags" in f.operations && RootPruned(o, Obj(fs)))
    decreases Depth(Obj(fs)), 1
  {
    EntriesPrune(f, pos, fs, 0);
    ReaddedTags(f, pos, fs, 0);
    if VisitEntries(f, pos, fs, 0).Success? {
      WalkedEntriesPrune(fs, VisitEntries(f, pos, fs, 0).value, pos.FRoot?, "tags" in f.operations);
    }
  }

  /** The entries kept in order and re-added at the end: a pruning of the
      object, or of the root with its `tags` moved last. */
  lemma WalkedEntriesPrune(fs: Fields, w: EntryWalk, atRoot: bool, tagsOp: bool)
    requires EntriesPrunedFrom(w, fs, 0)
    requires forall e :: e in w.readded ==> atRoot && e.0 == "tags" && tagsOp
    ensures var o := Obj(w.kept + w.readded);
      Pruned(o, Obj(fs)) || (atRoot && tagsOp && RootPruned(o, Obj(fs)))
  {
    assert fs[0..] == fs;
    if w.readded == [] {
      assert w.kept + w.readded == w.kept;
      PrunedObject(w.kept, fs);
    } else {
      var t := w.readded[0];
      assert t in w.readded;
      AtMostOneWithKey(w.readded, "tags");
      assert w.readded == [t];
      PrunedWithTagsLast(w.kept, t, fs);
    }
  }

  /** The array the root-tags update leaves is drawn, in order, from the
      original, so its elements are well-formed and it is no deeper. */
  lemma UpdatedItems(f: FilterSet, pos: FPos, node: Json)
    requires WellFormed(node) && node.Arr?
    ensures var u := RootTagsUpdate(f, pos, node);
      u.Success? ==>
        var n' := if u.value.Some? then u.value.value else node;
        && n'.Arr? && Depth(n') <= Depth(node)
        && (forall m :: 0 <= m < |n'.items| ==> WellFormed(n'.items[m]))
        && IsSubsequence(n'.items, node.items)
  {
    var u := RootTagsUpdate(f, pos, node);
    if u.Success? {
      var n' := if u.value.Some? then u.value.value else node;
      UpdateNoDeeper(node, n');
      if u.value.Some? {
        FilterTagsSpec(Props(f), node.items);
      } else {
        SubsequenceOfItself(node.items);
      }
      forall m | 0 <= m < |n'.items| ensures WellFormed(n'.items[m]) {
        assert n'.items[m] in n'.items;
        var q :| 0 <= q < |node.items| && node.items[q] == n'.items[m];
      }
    }
  }

  lemma {:induction false} SubsequenceOfItself<T>(xs: seq<T>)
    ensures IsSubsequence(xs, xs)
    decreases |xs|
  {
    if xs != [] {
      SubsequenceOfItself(xs[1..]);
    }
  }

  /** The elements an array visit keeps, after the root-tags update, make a
      pruning of the array. */
  lemma {:induction false} VisitedItemsPrune(f: FilterSet, pos: FPos, node: Json)
    requires WellFormed(node) && node.Arr?
    ensures var u := RootTagsUpdate(f, pos, node);
      u.Success? ==>
        var n' := if u.value.Some? then u.value.value else node;
        var r := VisitItems(f, pos, n'.items, 0);
        r.Success? ==> ItemsPruned(r.value.items, node.items)
    decreases Depth(node), 1
  {
    var u := RootTagsUpdate(f, pos, node);
    if u.Success? {
      var n' := if u.value.Some? then u.value.value else node;
      UpdatedItems(f, pos, node);
      ItemsPrune(f, pos, n'.items, 0);
      assert n'.items[0..] == n'.items;
      if u.value.Some? && VisitItems(f, pos, n'.items, 0).Success? {
        ItemsPrunedFromSubsequence(VisitItems(f, pos, n'.items, 0).value.items, n'.items, node.items);
      }
    }
  }

  lemma {:induction false} EntriesPrune(f: FilterSet, pos: FPos, fs: Fields, i: nat)
    requires WellFormed(Obj(fs)) && i <= |fs|
    ensures var r := VisitEntries(f, pos, fs, i);
      r.Success? ==> EntriesPrunedFrom(r.value, fs, i)
    decreases Depth(Obj(fs)), 0, |fs| - i
  {
    var r := VisitEntries(f, pos, fs, i);
    if i < |fs| && r.Success? {
      ChildrenAreShallower(Obj(fs));
      EntriesStep(f, pos, fs, i);
      var k := fs[i].0;
      VisitPrunes(f, FChild(k, pos.FRoot?), fs[i].1);
      EntriesPrune(f, pos, fs, i + 1);
      var fate := VisitNode(f, FChild(k, pos.FRoot?), fs[i].1).value.fate;
      EntryStepPrunes(fs, i, fate, VisitEntries(f, pos, fs, i + 1).value, r.value);
    }
  }

  /** One step of the entry walk, spelled out. */
  lemma EntriesStep(f: FilterSet, pos: FPos, fs: Fields, i: nat)
    requires i < |fs|
    ensures var r := VisitEntries(f, pos, fs, i);
      r.Success? ==>
        var k := fs[i].0;
        var v := VisitNode(f, FChild(k, pos.FRoot?), fs[i].1);
        var rest := VisitEntries(f, pos, fs, i + 1);
        && v.Success? && rest.Success?
        && r.value.kept == (if v.value.fate.Keep? then [(k, v.value.fate.value)] else []) + rest.value.kept
        && r.value.readded == (if v.value.fate.Readded? then [(k, v.value.fate.value)] else []) + rest.value.readded
        && r.value.removeReq == (v.value.request == RemoveParent || rest.value.removeReq)
        && r.value.deleteReq == (v.value.request == DeleteParent || rest.value.deleteReq)
  {
  }

  /** One entry's fate put in front of the walk of the later entries. */
  lemma EntryStepPrunes(fs: Fields, i: nat, fate: Fate, rest: EntryWalk, w: EntryWalk)
    requires Distinct(Keys(fs)) && i < |fs|
    requires (fate.Keep? || fate.Readded?) ==> Pruned(fate.value, fs[i].1)
    requires EntriesPrunedFrom(rest, fs, i + 1)
    requires w.kept == (if fate.Keep? then [(fs[i].0, fate.value)] else []) + rest.kept
    requires w.readded == (if fate.Readded? then [(fs[i].0, fate.value)] else []) + rest.readded
    ensures EntriesPrunedFrom(w, fs, i)
  {
    var k := fs[i].0;
    KeptKeysStep(fs, i, w.kept, rest.kept, fate.Keep?, if fate.Keep? then fate.value else Null);
    FromEntriesLater(rest.kept, fs, i);
    FromEntriesLater(rest.readded, fs, i);
    if fate.Keep? {
      assert w.readded == rest.readded;
      FromEntriesCons(fs, i, fate.value, rest.kept);
      FromEntriesCons(fs, i, fate.value, rest.readded);
      NewKeyDistinct((k, fate.value), rest.kept, rest.readded);
    } else if fate.Readded? {
      assert w.kept == rest.kept;
      FromEntriesCons(fs, i, fate.value, rest.readded);
      FromEntriesCons(fs, i, fate.value, rest.kept);
      NewKeyDistinct((k, fate.value), rest.readded, rest.kept);
    } else {
      assert w.kept == rest.kept && w.readded == rest.readded;
    }
  }

  /** An entry whose key no other entry has can go in front of a list. */
  lemma NewKeyDistinct(e: (string, Json), es: Fields, others: Fields)
    requires Distinct(Keys(es)) && Distinct(Keys(others))
    requires forall x :: x in es ==> x.0 != e.0
    requires forall x :: x in others ==> x.0 != e.0
    requires forall x, y :: x in es && y in others ==> x.0 != y.0
    ensures Distinct(Keys([e] + es))
    ensures forall x, y :: x in [e] + es && y in others ==> x.0 != y.0
    ensures forall x, y :: x in others && y in [e] + es ==> x.0 != y.0
  {
    KeysMembership(es);
    DistinctCons(e, es);
  }

  lemma {:induction false} ItemsPrune(f: FilterSet, pos: FPos, items: seq<Json>, i: nat)
    requires (forall m :: 0 <= m < |items| ==> WellFormed(items[m])) && i <= |items|
    ensures var r := VisitItems(f, pos, items, i);
      r.Success? ==> ItemsPruned(r.value.items, items[i..])
    decreases Depth(Arr(items)), 0, |items| - i
  {
    var r := VisitItems(f, pos, items, i);
    if i < |items| && r.Success? {
      ChildrenAreShallower(Arr(items));
      var v := VisitNode(f, FChild(IndexKey(i), pos.FRoot?), items[i]).value;
      VisitPrunes(f, FChild(IndexKey(i), pos.FRoot?), items[i]);
      ItemsPrune(f, pos, items, i + 1);
      var rest := VisitItems(f, pos, items, i + 1).value.items;
      var xs := items[i..];
      assert xs[0] == items[i] && xs[1..] == items[i + 1..];
      var ys := r.value.items;
      if v.fate.Removed? {
        assert ys == rest;
      } else {
        assert ys[0] == (if v.fate.Deleted? then Null else v.fate.value) && ys[1..] == rest;
      }
    }
  }

  /** The first pass only deletes, and what is left keeps its order, except
      that rule 4 moves the root `tags` last when `tags` is an operation. */
  lemma FilterPassPrunes(f: FilterSet, doc: Json)
    requires WellFormed(doc)
    ensures FilterPass(f, doc).Success? ==> RootPruned(FilterPass(f, doc).value, doc)
    ensures FilterPass(f, doc).Success? && "tags" !in f.operations ==> Pruned(FilterPass(f, doc).value, doc)
  {
    RootVisitKeeps(f, doc);
    VisitPrunes(f, FRoot, doc);
  }

  // ---------------------------------------------------------------------------
  // The output leaves nothing to filter
  // ---------------------------------------------------------------------------

  /** Nothing at `pos` for the rules to act on: no `tags` array with a filter
      tag, no flagged field, and no key among the operations except the root
      tags, which rule 4 puts back. */
  predicate Settled(f: FilterSet, pos: FPos, v: Json)
    decreases v, 1
  {
    && OwnRequest(f, pos, v) == NoRequest
    && (RemovesSelf(f, pos) ==> IsRootTags(pos, v))
    && ChildrenSettled(f, pos.FRoot?, v)
  }

  predicate ChildrenSettled(f: FilterSet, atRoot: bool, v: Json)
    decreases v, 0
  {
    match v
    case Obj(fs) => forall j :: 0 <= j < |fs| ==> Settled(f, FChild(fs[j].0, atRoot), fs[j].1)
    case Arr(xs) => forall j :: 0 <= j < |xs| ==> Settled(f, FChild(IndexKey(j), atRoot), xs[j])
    case _ => true
  }

  /** The filter set names no array index: dropping an element then cannot
      bring another under a rule by moving it to a new index. */
  ghost predicate NoIndexKeys(f: FilterSet)
  {
    forall n: nat :: IndexKey(n) !in f.operations && IndexKey(n) !in Props(f)
  }

  lemma IndexPositionQuiet(f: FilterSet, n: nat, atRoot: bool, x: Json)
    requires NoIndexKeys(f)
    ensures OwnRequest(f, FChild(IndexKey(n), atRoot), x) == NoRequest
    ensures !RemovesSelf(f, FChild(IndexKey(n), atRoot))
  {
    IndexKeyIsDecimal(n);
    assert "tags"[0] == 't' && "operationId"[0] == 'o';
    assert IndexKey(n)[0] in IndexKey(n);
  }

  /** What a successful visit says about the node: its request is its own, it
      is kept only if its key is not an operation, it is put back only by the
      root-tags update after removing itself, and it is kept or put back only if no child asked
      anything of it. */
  lemma VisitFacts(f: FilterSet, pos: FPos, node: Json)
    ensures var r := VisitNode(f, pos, node);
      r.Success? ==>
        && r.value.request == OwnRequest(f, pos, node)
        && (r.value.fate.Keep? ==> !RemovesSelf(f, pos))
        && (r.value.fate.Readded? ==> IsRootTags(pos, node) && RemovesSelf(f, pos) && r.value.fate.value.Arr?)
  {
  }

  lemma FateFacts(selfRemove: bool, updated: bool, out: Json, removeReq: bool, deleteReq: bool)
    ensures var fate := FateOf(selfRemove, updated, out, removeReq, deleteReq);
      (fate.Keep? || fate.Readded?) ==> !removeReq && !deleteReq && fate.value == out
  {
  }

  /** Pruning never brings a value under rule 2 or rule 3. */
  lemma PrunedKeepsQuiet(f: FilterSet, pos: FPos, o: Json, i: Json)
    requires Pruned(o, i) && OwnRequest(f, pos, i) == NoRequest
    ensures OwnRequest(f, pos, o) == NoRequest
    ensures IsRootTags(pos, i) ==> IsRootTags(pos, o)
  {
    if o.Arr? {
      forall t | t in f.tags && Str(t) in o.items ensures Str(t) in i.items {
        ItemsPrunedStrings(o.items, i.items, t);
      }
    }
  }

  predicate SettledEntries(f: FilterSet, atRoot: bool, es: Fields)
  {
    forall e :: e in es ==> Settled(f, FChild(e.0, atRoot), e.1)
  }

  lemma {:induction false} VisitSettles(f: FilterSet, pos: FPos, node: Json)
    requires WellFormed(node) && NoIndexKeys(f)
    ensures var r := VisitNode(f, pos, node);
      r.Success? && (r.value.fate.Keep? || r.value.fate.Readded?) ==> ChildrenSettled(f, pos.FRoot?, r.value.fate.value)
    decreases Depth(node), 2
  {
    var r := VisitNode(f, pos, node);
    if r.Success? && (r.value.fate.Keep? || r.value.fate.Readded?) {
      if node.Obj? {
        assert RootTagsUpdate(f, pos, node) == Success(None);
        var w := VisitEntries(f, pos, node.fields, 0).value;
        FateFacts(RemovesSelf(f, pos), false, Obj(w.kept + w.readded), w.removeReq, w.deleteReq);
        KeptEntriesSettled(f, pos, node.fields);
      } else if node.Arr? {
        var u := RootTagsUpdate(f, pos, node);
        var n' := if u.value.Some? then u.value.value else node;
        var w := VisitItems(f, pos, n'.items, 0).value;
        FateFacts(RemovesSelf(f, pos), u.value.Some?, Arr(w.items), w.removeReq, w.deleteReq);
        VisitedItemsSettled(f, pos, node);
      }
    }
  }

  /** The entries an object visit keeps or re-adds are settled when no entry
      asked anything of the object. */
  lemma {:induction false} KeptEntriesSettled(f: FilterSet, pos: FPos, fs: Fields)
    requires WellFormed(Obj(fs)) && NoIndexKeys(f)
    ensures var r := VisitEntries(f, pos, fs, 0);
      r.Success? && !r.value.removeReq && !r.value.deleteReq ==>
        ChildrenSettled(f, pos.FRoot?, Obj(r.value.kept + r.value.readded))
    decreases Depth(Obj(fs)), 1
  {
    var r := VisitEntries(f, pos, fs, 0);
    if r.Success? && !r.value.removeReq && !r.value.deleteReq {
      var w := r.value;
      EntriesSettle(f, pos, fs, 0);
      var gs := w.kept + w.readded;
      forall j | 0 <= j < |gs| ensures Settled(f, FChild(gs[j].0, pos.FRoot?), gs[j].1) {
        assert gs[j] in w.kept || gs[j] in w.readded;
      }
    }
  }

  /** The elements an array visit keeps are settled when no element asked
      anything of the array. */
  lemma {:induction false} VisitedItemsSettled(f: FilterSet, pos: FPos, node: Json)
    requires WellFormed(node) && node.Arr? && NoIndexKeys(f)
    ensures var u := RootTagsUpdate(f, pos, node);
      u.Success? ==>
        var n' := if u.value.Some? then u.value.value else node;
        var r := VisitItems(f, pos, n'.items, 0);
        r.Success? && !r.value.removeReq && !r.value.deleteReq ==> ChildrenSettled(f, pos.FRoot?, Arr(r.value.items))
    decreases Depth(node), 1
  {
    var u := RootTagsUpdate(f, pos, node);
    if u.Success? {
      var n' := if u.value.Some? then u.value.value else node;
      UpdatedItems(f, pos, node);
      var r := VisitItems(f, pos, n'.items, 0);
      if r.Success? && !r.value.removeReq && !r.value.deleteReq {
        var w := r.value;
        ItemsSettle(f, pos, n'.items, 0);
        forall j | 0 <= j < |w.items| ensures Settled(f, FChild(IndexKey(j), pos.FRoot?), w.items[j]) {
          IndexPositionQuiet(f, j, pos.FRoot?, w.items[j]);
          assert w.items[j] in w.items;
        }
      }
    }
  }

  /** A child that asks nothing of its parent, and that a successful visit
      keeps or re-adds, is settled. */
  lemma {:induction false} ChildSettles(f: FilterSet, cpos: FPos, node: Json)
    requires WellFormed(node) && NoIndexKeys(f) && cpos.FChild? && OwnRequest(f, cpos, node) == NoRequest
    ensures var r := VisitNode(f, cpos, node);
      r.Success? && (r.value.fate.Keep? || r.value.fate.Readded?) ==> Settled(f, cpos, r.value.fate.value)
    decreases Depth(node), 3
  {
    var r := VisitNode(f, cpos, node);
    VisitFacts(f, cpos, node);
    ChildVisitPrunes(f, cpos, node);
    VisitSettles(f, cpos, node);
    if r.Success? && (r.value.fate.Keep? || r.value.fate.Readded?) {
      PrunedKeepsQuiet(f, cpos, r.value.fate.value, node);
    }
  }

  lemma {:induction false} EntriesSettle(f: FilterSet, pos: FPos, fs: Fields, i: nat)
    requires WellFormed(Obj(fs)) && NoIndexKeys(f) && i <= |fs|
    ensures var r := VisitEntries(f, pos, fs, i);
      r.Success? && !r.value.removeReq && !r.value.deleteReq ==>
        SettledEntries(f, pos.FRoot?, r.value.kept) && SettledEntries(f, pos.FRoot?, r.value.readded)
    decreases Depth(Obj(fs)), 0, |fs| - i
  {
    var r := VisitEntries(f, pos, fs, i);
    if i < |fs| && r.Success? && !r.value.removeReq && !r.value.deleteReq {
      ChildrenAreShallower(Obj(fs));
      EntriesStep(f, pos, fs, i);
      var k := fs[i].0;
      var cpos := FChild(k, pos.FRoot?);
      var v := VisitNode(f, cpos, fs[i].1).value;
      VisitFacts(f, cpos, fs[i].1);
      ChildSettles(f, cpos, fs[i].1);
      EntriesSettle(f, pos, fs, i + 1);
      var rest := VisitEntries(f, pos, fs, i + 1).value;
      if v.fate.Keep? {
        assert r.value.kept == [(k, v.fate.value)] + rest.kept && r.value.readded == rest.readded;
      } else if v.fate.Readded? {
        assert r.value.readded == [(k, v.fate.value)] + rest.readded && r.value.kept == rest.kept;
      } else {
        assert r.value.kept == rest.kept && r.value.readded == rest.readded;
      }
    }
  }

  lemma {:induction false} ItemsSettle(f: FilterSet, pos: FPos, items: seq<Json>, i: nat)
    requires (forall m :: 0 <= m < |items| ==> WellFormed(items[m])) && NoIndexKeys(f) && i <= |items|
    ensures var r := VisitItems(f, pos, items, i);
      r.Success? && !r.value.removeReq && !r.value.deleteReq ==>
        forall y :: y in r.value.items ==> y == Null || ChildrenSettled(f, false, y)
    decreases Depth(Arr(items)), 0, |items| - i
  {
    var r := VisitItems(f, pos, items, i);
    if i < |items| && r.Success? && !r.value.removeReq && !r.value.deleteReq {
      ChildrenAreShallower(Arr(items));
      var v := VisitNode(f, FChild(IndexKey(i), pos.FRoot?), items[i]).value;
      VisitSettles(f, FChild(IndexKey(i), pos.FRoot?), items[i]);
      ItemsSettle(f, pos, items, i + 1);
      var rest := VisitItems(f, pos, items, i + 1).value.items;
      if v.fate.Removed? {
        assert r.value.items == rest;
      } else {
        assert r.value.items == [if v.fate.Deleted? then Null else v.fate.value] + rest;
      }
    }
  }

  /** After the first pass the rules find nothing more to do. */
  lemma FilterPassSettles(f: FilterSet, doc: Json)
    requires WellFormed(doc) && NoIndexKeys(f)
    ensures FilterPass(f, doc).Success? ==> Settled(f, FRoot, FilterPass(f, doc).value)
  {
    RootVisitKeeps(f, doc);
    VisitSettles(f, FRoot, doc);
  }

  /** The element of the source an element of a pruned array comes from. */
  lemma {:induction false} ItemsPrunedSource(ys: seq<Json>, xs: seq<Json>, j: nat) returns (m: nat)
    requires ItemsPruned(ys, xs) && j < |ys| && ys[j] != Null
    ensures m < |xs| && Pruned(ys[j], xs[m])
    decreases |ys| + |xs|
  {
    if (ys[0] == Null || Pruned(ys[0], xs[0])) && ItemsPruned(ys[1..], xs[1..]) {
      if j == 0 {
        m := 0;
      } else {
        var m' := ItemsPrunedSource(ys[1..], xs[1..], j - 1);
        m := m' + 1;
      }
    } else {
      var m' := ItemsPrunedSource(ys, xs[1..], j);
      m := m' + 1;
    }
  }

  /** Deleting more keeps a settled value settled. */
  lemma {:induction false} SettledUnderPruning(f: FilterSet, pos: FPos, o: Json, v: Json)
    requires NoIndexKeys(f) && Settled(f, pos, v) && Pruned(o, v)
    ensures Settled(f, pos, o)
    decreases o, 1
  {
    PrunedKeepsQuiet(f, pos, o, v);
    match o
    case Obj(gs) =>
      forall j | 0 <= j < |gs| ensures Settled(f, FChild(gs[j].0, pos.FRoot?), gs[j].1) {
        var k := gs[j].0;
        var m := KeyIndex(v.fields, k);
        SettledUnderPruning(f, FChild(k, pos.FRoot?), gs[j].1, Lookup(v.fields, k));
      }
    case Arr(ys) =>
      forall j | 0 <= j < |ys| ensures Settled(f, FChild(IndexKey(j), pos.FRoot?), ys[j]) {
        IndexPositionQuiet(f, j, pos.FRoot?, ys[j]);
        if ys[j] != Null {
          var m := ItemsPrunedSource(ys, v.items, j);
          IndexPositionQuiet(f, m, pos.FRoot?, v.items[m]);
          IndexPositionQuiet(f, j, pos.FRoot?, v.items[m]);
          assert Settled(f, FChild(IndexKey(m), pos.FRoot?), v.items[m]);
          SettledUnderPruning(f, FChild(IndexKey(j), pos.FRoot?), ys[j], v.items[m]);
        }
      }
    case _ =>
  }

  // ---------------------------------------------------------------------------
  // What becomes of a container
  // ---------------------------------------------------------------------------

  /** Some field of the object asks `req` of it. */
  predicate EntryAsks(f: FilterSet, pos: FPos, fs: Fields, req: Request)
  {
    exists j :: 0 <= j < |fs| && OwnRequest(f, FChild(fs[j].0, pos.FRoot?), fs[j].1) == req
  }

  /** Some element of the array asks `req` of it. */
  predicate ItemAsks(f: FilterSet, pos: FPos, xs: seq<Json>, req: Request)
  {
    exists j :: 0 <= j < |xs| && OwnRequest(f, FChild(IndexKey(j), pos.FRoot?), xs[j]) == req
  }

  lemma {:induction false} EntriesCollectRequests(f: FilterSet, pos: FPos, fs: Fields, i: nat)
    requires i <= |fs|
    ensures var r := VisitEntries(f, pos, fs, i);
      r.Success? ==>
        && (r.value.removeReq <==> exists j :: i <= j < |fs| && OwnRequest(f, FChild(fs[j].0, pos.FRoot?), fs[j].1) == RemoveParent)
        && (r.value.deleteReq <==> exists j :: i <= j < |fs| && OwnRequest(f, FChild(fs[j].0, pos.FRoot?), fs[j].1) == DeleteParent)
    decreases |fs| - i
  {
    if i < |fs| {
      VisitFacts(f, FChild(fs[i].0, pos.FRoot?), fs[i].1);
      EntriesCollectRequests(f, pos, fs, i + 1);
    }
  }

  /** Whether a walk of children recorded request `req`. */
  function Recorded(removeReq: bool, deleteReq: bool, req: Request): bool
  {
    if req == RemoveParent then removeReq else if req == DeleteParent then deleteReq else false
  }

  /** Some element of the array from index `i` on asks `req` of it. */
  predicate ItemAsksFrom(f: FilterSet, pos: FPos, xs: seq<Json>, i: nat, req: Request)
  {
    exists j :: i <= j < |xs| && OwnRequest(f, FChild(IndexKey(j), pos.FRoot?), xs[j]) == req
  }

  lemma ItemAsksFromStep(f: FilterSet, pos: FPos, xs: seq<Json>, i: nat, req: Request)
    requires i < |xs|
    ensures ItemAsksFrom(f, pos, xs, i, req) <==>
      OwnRequest(f, FChild(IndexKey(i), pos.FRoot?), xs[i]) == req || ItemAsksFrom(f, pos, xs, i + 1, req)
  {
    if ItemAsksFrom(f, pos, xs, i, req) && OwnRequest(f, FChild(IndexKey(i), pos.FRoot?), xs[i]) != req {
      var j :| i <= j < |xs| && OwnRequest(f, FChild(IndexKey(j), pos.FRoot?), xs[j]) == req;
      assert j != i;
    }
  }

  lemma {:induction false} ItemsCollectRequest(f: FilterSet, pos: FPos, xs: seq<Json>, i: nat, req: Request)
    requires i <= |xs| && req != NoRequest
    ensures var r := VisitItems(f, pos, xs, i);
      r.Success? ==> (Recorded(r.value.removeReq, r.value.deleteReq, req) <==> ItemAsksFrom(f, pos, xs, i, req))
    decreases |xs| - i
  {
    var r := VisitItems(f, pos, xs, i);
    if i < |xs| && r.Success? {
      var cpos := FChild(IndexKey(i), pos.FRoot?);
      VisitFacts(f, cpos, xs[i]);
      ItemsCollectRequest(f, pos, xs, i + 1, req);
      ItemAsksFromStep(f, pos, xs, i, req);
      var v := VisitNode(f, cpos, xs[i]).value;
      var rest := VisitItems(f, pos, xs, i + 1).value;
      assert Recorded(r.value.removeReq, r.value.deleteReq, req)
        == (v.request == req || Recorded(rest.removeReq, rest.deleteReq, req));
    }
  }

  /** An object is removed when its key is an operation (rule 1) or one of its
      fields is flagged (rule 3); failing that it is deleted when one of its
      fields is a `tags` array with a filter tag (rule 2); otherwise it stays. */
  lemma ObjectFate(f: FilterSet, pos: FPos, fs: Fields)
    ensures var r := VisitNode(f, pos, Obj(fs));
      r.Success? ==>
        && (r.value.fate == Removed <==> RemovesSelf(f, pos) || EntryAsks(f, pos, fs, RemoveParent))
        && (r.value.fate == Deleted <==>
              !RemovesSelf(f, pos) && !EntryAsks(f, pos, fs, RemoveParent) && EntryAsks(f, pos, fs, DeleteParent))
        && (r.value.fate.Keep? <==>
              !RemovesSelf(f, pos) && !EntryAsks(f, pos, fs, RemoveParent) && !EntryAsks(f, pos, fs, DeleteParent))
  {
    EntriesCollectRequests(f, pos, fs, 0);
  }

  /** The same for an array other than the root tags. */
  lemma ArrayFate(f: FilterSet, pos: FPos, xs: seq<Json>)
    requires !IsRootTags(pos, Arr(xs))
    ensures var r := VisitNode(f, pos, Arr(xs));
      r.Success? ==>
        && (r.value.fate == Removed <==> RemovesSelf(f, pos) || ItemAsks(f, pos, xs, RemoveParent))
        && (r.value.fate == Deleted <==>
              !RemovesSelf(f, pos) && !ItemAsks(f, pos, xs, RemoveParent) && ItemAsks(f, pos, xs, DeleteParent))
        && (r.value.fate.Keep? <==>
              !RemovesSelf(f, pos) && !ItemAsks(f, pos, xs, RemoveParent) && !ItemAsks(f, pos, xs, DeleteParent))
  {
    ItemsCollectRequest(f, pos, xs, 0, RemoveParent);
    ItemsCollectRequest(f, pos, xs, 0, DeleteParent);
  }

  // ---------------------------------------------------------------------------
  // Clean-up
  // ---------------------------------------------------------------------------

  lemma {:induction false} CleanPrunes(v: Json)
    requires WellFormed(v)
    ensures Pruned(CleanNode(v), v)
    decreases v, 1
  {
    match v
    case Obj(fs) =>
      CleanEntriesPrune(fs, 0);
      assert fs[0..] == fs;
      PrunedObject(CleanEntries(fs, 0), fs);
    case Arr(xs) =>
      CleanItemsPrune(xs, 0);
      assert xs[0..] == xs;
    case _ =>
  }

  lemma {:induction false} CleanEntriesPrune(fs: Fields, i: nat)
    requires WellFormed(Obj(fs)) && i <= |fs|
    ensures FromEntries(CleanEntries(fs, i), fs, i) && Distinct(Keys(CleanEntries(fs, i)))
    ensures IsSubsequence(Keys(CleanEntries(fs, i)), Keys(fs[i..]))
    decreases Obj(fs), 0, |fs| - i
  {
    if i < |fs| {
      CleanEntriesPrune(fs, i + 1);
      var rest := CleanEntries(fs, i + 1);
      KeptKeysStep(fs, i, CleanEntries(fs, i), rest, !IsEmptyObject(fs[i].1), CleanNode(fs[i].1));
      FromEntriesLater(rest, fs, i);
      if !IsEmptyObject(fs[i].1) {
        CleanPrunes(fs[i].1);
        FromEntriesCons(fs, i, CleanNode(fs[i].1), rest);
        NewKeyDistinct((fs[i].0, CleanNode(fs[i].1)), rest, []);
      } else {
        assert CleanEntries(fs, i) == rest;
      }
    }
  }

  lemma {:induction false} CleanItemsPrune(xs: seq<Json>, i: nat)
    requires (forall m :: 0 <= m < |xs| ==> WellFormed(xs[m])) && i <= |xs|
    ensures ItemsPruned(CleanItems(xs, i), xs[i..])
    decreases Arr(xs), 0, |xs| - i
  {
    if i < |xs| {
      CleanItemsPrune(xs, i + 1);
      if !IsEmptyObject(xs[i]) {
        CleanPrunes(xs[i]);
      }
      var ys := CleanItems(xs, i);
      assert ys[1..] == CleanItems(xs, i + 1);
      assert xs[i..][0] == xs[i] && xs[i..][1..] == xs[i + 1..];
    }
  }

  lemma {:induction false} CleanEntriesMembers(fs: Fields, i: nat)
    requires i <= |fs|
    ensures forall m :: i <= m < |fs| && !IsEmptyObject(fs[m].1) ==> (fs[m].0, CleanNode(fs[m].1)) in CleanEntries(fs, i)
    ensures forall e :: e in CleanEntries(fs, i) ==>
      exists m :: i <= m < |fs| && !IsEmptyObject(fs[m].1) && e == (fs[m].0, CleanNode(fs[m].1))
    decreases |fs| - i
  {
    if i < |fs| {
      CleanEntriesMembers(fs, i + 1);
    }
  }

  /** One level of clean-up: the object loses exactly its entries whose value
      is an empty object, the others keep their order, and every other value
      is cleaned in turn. */
  lemma CleanupDropsEmptyObjects(fs: Fields)
    requires WellFormed(Obj(fs))
    ensures var out := CleanNode(Obj(fs)).fields;
      && (forall k :: k in Keys(out) <==> k in Keys(fs) && !IsEmptyObject(Lookup(fs, k)))
      && IsSubsequence(Keys(out), Keys(fs)) && Distinct(Keys(out))
      && (forall k :: k in Keys(out) ==> Lookup(out, k) == CleanNode(Lookup(fs, k)))
  {
    var out := CleanEntries(fs, 0);
    CleanEntriesMembers(fs, 0);
    CleanEntriesPrune(fs, 0);
    assert fs[0..] == fs;
    KeysMembership(out);
    forall k | k in Keys(out) ensures k in Keys(fs) && !IsEmptyObject(Lookup(fs, k)) && Lookup(out, k) == CleanNode(Lookup(fs, k)) {
      var e := out[KeyIndex(out, k)];
      assert e in out;
      var m :| 0 <= m < |fs| && !IsEmptyObject(fs[m].1) && e == (fs[m].0, CleanNode(fs[m].1));
      LookupOfEntry(fs, m);
    }
    forall k | k in Keys(fs) && !IsEmptyObject(Lookup(fs, k)) ensures k in Keys(out) {
      var m := KeyIndex(fs, k);
      assert (fs[m].0, CleanNode(fs[m].1)) in out;
    }
  }

  lemma {:induction false} CleanItemsPointwise(xs: seq<Json>, i: nat)
    requires i <= |xs|
    ensures |CleanItems(xs, i)| == |xs| - i
    ensures forall j :: i <= j < |xs| ==> CleanItems(xs, i)[j - i] == if IsEmptyObject(xs[j]) then Null else CleanNode(xs[j])
    decreases |xs| - i
  {
    if i < |xs| {
      CleanItemsPointwise(xs, i + 1);
      var ys := CleanItems(xs, i);
      var rest := CleanItems(xs, i + 1);
      assert ys == [if IsEmptyObject(xs[i]) then Null else CleanNode(xs[i])] + rest;
      forall j | i < j < |xs| ensures ys[j - i] == if IsEmptyObject(xs[j]) then Null else CleanNode(xs[j]) {
        assert ys[j - i] == rest[j - (i + 1)];
      }
    }
  }

  /** In an array the clean-up leaves a hole (`null`) where an element is an
      empty object, and cleans every other element, in place. */
  lemma CleanupHolesEmptyElements(xs: seq<Json>)
    ensures var out := CleanNode(Arr(xs)).items;
      && |out| == |xs|
      && forall j :: 0 <= j < |xs| ==> out[j] == if IsEmptyObject(xs[j]) then Null else CleanNode(xs[j])
  {
    CleanItemsPointwise(xs, 0);
  }

  /** A parent emptied by the clean-up is not looked at again, so cleaning
      twice can remove more than cleaning once. */
  lemma CleanupIsNotIdempotent()
    ensures var d := Obj([("a", Obj([("b", Obj([]))]))]);
      && Cleanup(d) == Success(Obj([("a", Obj([]))]))
      && Cleanup(Cleanup(d).value) == Success(Obj([]))
  {
    var inner := [("b", Obj([]))];
    assert CleanEntries(inner, 1) == [];
    assert CleanEntries(inner, 0) == [];
    var outer := [("a", Obj([("b", Obj([]))]))];
    assert CleanEntries(outer, 1) == [];
    assert CleanEntries(outer, 0) == [("a", Obj([]))];
    var once := [("a", Obj([]))];
    assert CleanEntries(once, 1) == [];
    assert CleanEntries(once, 0) == [];
  }

  // ---------------------------------------------------------------------------
  // asyncapiFilter
  // ---------------------------------------------------------------------------

  /** The filter only deletes, keeps the order of what is left except that the
      root `tags` move last when `tags` is an operation, keeps every object's
      keys distinct, and, when the filter set names no array index, leaves
      nothing the rules would act on. */
  lemma AsyncapiFilterSpec(f: FilterSet, doc: Json)
    requires WellFormed(doc)
    ensures AsyncapiFilter(f, doc).Success? ==>
      RootPruned(AsyncapiFilter(f, doc).value, doc) && WellFormed(AsyncapiFilter(f, doc).value)
    ensures AsyncapiFilter(f, doc).Success? && "tags" !in f.operations ==> Pruned(AsyncapiFilter(f, doc).value, doc)
    ensures AsyncapiFilter(f, doc).Success? && NoIndexKeys(f) ==> Settled(f, FRoot, AsyncapiFilter(f, doc).value)
  {
    if AsyncapiFilter(f, doc).Success? {
      var p := FilterPass(f, doc).value;
      FilterPassPrunes(f, doc);
      assert WellFormed(p) by {
        if Pruned(p, doc) {
          PrunedWellFormed(p, doc);
        } else {
          PrunedWellFormed(p, Obj(MovedLast(doc.fields, "tags")));
        }
      }
      CleanPrunes(p);
      RootPrunedAfterPruning(CleanNode(p), p, doc);
      PrunedWellFormed(CleanNode(p), p);
      if NoIndexKeys(f) {
        FilterPassSettles(f, doc);
        SettledUnderPruning(f, FRoot, CleanNode(p), p);
      }
    }
  }
}
