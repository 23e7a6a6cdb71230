/** What asyncapiSort promises: the three sorting cases seen in the result, the
    root re-sort, and that sorting a sorted document changes nothing. */
module SortLaws {
  import opened Wrappers
  import opened JsonTree
  import opened KeyOrder
  import opened SortWalk

  // ---------------------------------------------------------------------------
  // Small facts about one step of the walk
  // ---------------------------------------------------------------------------

  /** The case at a node depends only on its position and on its kind. */
  lemma DispatchByKind(sortSet: SortSet, pos: Pos, a: Json, b: Json)
    requires a.Arr? == b.Arr? && a.Obj? == b.Obj? && a.Null? == b.Null?
    requires IsContainer(a) || a.Null? || (!b.Null? && !IsContainer(b))
    ensures Dispatch(sortSet, pos, a) == Dispatch(sortSet, pos, b)
  {
  }

  /** Two nodes with the same case and the same update walk the same way. */
  lemma SameUpdateSameWalk(sortSet: SortSet, pos: Pos, a: Json, b: Json)
    requires Dispatch(sortSet, pos, a) == Dispatch(sortSet, pos, b)
    requires Update(Dispatch(sortSet, pos, a), a) == Update(Dispatch(sortSet, pos, b), b)
    ensures SortNode(sortSet, pos, a) == SortNode(sortSet, pos, b)
  {
  }

  /** The walk keeps the key order the update gave the node. */
  lemma WalkKeepsUpdatedKeys(sortSet: SortSet, pos: Pos, x: Json)
    requires x.Obj?
    ensures var u := Update(Dispatch(sortSet, pos, x), x);
      u.Obj? && Keys(SortNode(sortSet, pos, x).fields) == Keys(u.fields)
  {
    UpdateShallower(Dispatch(sortSet, pos, x), x);
  }

  /** Only the own-keys case reorders the keys of the node itself. */
  lemma UpdateKeepsKeysUnlessOwnSort(sortSet: SortSet, pos: Pos, x: Json)
    requires x.Obj? && !Dispatch(sortSet, pos, x).SortOwnKeys?
    ensures Keys(SortNode(sortSet, pos, x).fields) == Keys(x.fields)
  {
    WalkKeepsUpdatedKeys(sortSet, pos, x);
    var c := Dispatch(sortSet, pos, x);
    if c.SortEntries? {
      EachEntrySortedKeys(x.fields, c.priority);
    }
  }

  /** An object whose entries are all fixed by the walk, at a node where nothing
      is updated, is fixed by the walk. */
  lemma FixedEntriesFixedNode(sortSet: SortSet, pos: Pos, gs: Fields)
    requires Dispatch(sortSet, pos, Obj(gs)) == NoSort
    requires forall e :: e in gs ==> SortNode(sortSet, EntryPos(pos, e.0), e.1) == e.1
    ensures SortNode(sortSet, pos, Obj(gs)) == Obj(gs)
  {
    var r := SortNode(sortSet, pos, Obj(gs));
    forall i | 0 <= i < |gs| ensures r.fields[i] == gs[i] {
      assert gs[i] in gs;
    }
  }

  // ---------------------------------------------------------------------------
  // Idempotence
  // ---------------------------------------------------------------------------

  /** Walking a walked node again changes nothing. */
  lemma {:induction false} SortNodeIdempotent(sortSet: SortSet, pos: Pos, x: Json)
    requires WellFormed(x)
    ensures SortNode(sortSet, pos, SortNode(sortSet, pos, x)) == SortNode(sortSet, pos, x)
    decreases Depth(x), 1
  {
    match x
    case Arr(items) => ItemsIdempotent(sortSet, pos, items);
    case Obj(fs) =>
      if Dispatch(sortSet, pos, x).SortOwnKeys? {
        OwnKeysIdempotent(sortSet, pos, fs);
      } else {
        EntriesIdempotent(sortSet, pos, fs);
      }
    case _ =>
  }

  lemma {:induction false} ItemsIdempotent(sortSet: SortSet, pos: Pos, items: seq<Json>)
    requires WellFormed(Arr(items))
    ensures var y := SortNode(sortSet, pos, Arr(items)); SortNode(sortSet, pos, y) == y
    decreases Depth(Arr(items)), 0
  {
    var x := Arr(items);
    ChildrenAreShallower(x);
    var c := Dispatch(sortSet, pos, x);
    var y := SortNode(sortSet, pos, x);
    DispatchByKind(sortSet, pos, y, x);
    var y' := SortNode(sortSet, pos, y);
    forall i | 0 <= i < |items| ensures y'.items[i] == y.items[i] {
      if c.SortItems? {
        PresortedIdempotent(sortSet, ItemPos(pos, i), items[i], c.priority);
      } else {
        SortNodeIdempotent(sortSet, ItemPos(pos, i), items[i]);
      }
    }
  }

  lemma {:induction false} OwnKeysIdempotent(sortSet: SortSet, pos: Pos, fs: Fields)
    requires WellFormed(Obj(fs)) && Dispatch(sortSet, pos, Obj(fs)).SortOwnKeys?
    ensures var y := SortNode(sortSet, pos, Obj(fs)); SortNode(sortSet, pos, y) == y
    decreases Depth(Obj(fs)), 0
  {
    var x := Obj(fs);
    ChildrenAreShallower(x);
    var c := Dispatch(sortSet, pos, x);
    var u := Update(c, x);
    var y := SortNode(sortSet, pos, x);
    DispatchByKind(sortSet, pos, y, x);
    var y' := SortNode(sortSet, pos, y);
    var p := c.priority;
    PrioritySortReorders(fs, Some(p));
    PrioritySortSorted(fs, p);
    WalkKeepsUpdatedKeys(sortSet, pos, x);
    PrioritySortOfSorted(y.fields, p);
    forall i | 0 <= i < |u.fields| ensures y'.fields[i] == y.fields[i] {
      assert u.fields[i] in u.fields;
      var j :| 0 <= j < |fs| && fs[j] == u.fields[i];
      SortNodeIdempotent(sortSet, EntryPos(pos, fs[j].0), fs[j].1);
    }
  }

  lemma {:induction false} EntriesIdempotent(sortSet: SortSet, pos: Pos, fs: Fields)
    requires WellFormed(Obj(fs)) && !Dispatch(sortSet, pos, Obj(fs)).SortOwnKeys?
    ensures var y := SortNode(sortSet, pos, Obj(fs)); SortNode(sortSet, pos, y) == y
    decreases Depth(Obj(fs)), 0
  {
    var x := Obj(fs);
    ChildrenAreShallower(x);
    var c := Dispatch(sortSet, pos, x);
    var y := SortNode(sortSet, pos, x);
    DispatchByKind(sortSet, pos, y, x);
    var y' := SortNode(sortSet, pos, y);
    forall i | 0 <= i < |fs| ensures y'.fields[i] == y.fields[i] {
      if c.SortEntries? {
        PresortedIdempotent(sortSet, EntryPos(pos, fs[i].0), fs[i].1, c.priority);
      } else {
        SortNodeIdempotent(sortSet, EntryPos(pos, fs[i].0), fs[i].1);
      }
    }
  }

  /** The same for a node its parent presorts with `p`: presorting and walking a
      node that was presorted and walked changes nothing. */
  lemma {:induction false} PresortedIdempotent(sortSet: SortSet, pos: Pos, x: Json, p: seq<string>)
    requires WellFormed(x)
    ensures var y := SortNode(sortSet, pos, PrioritySortValue(x, Some(p)));
      SortNode(sortSet, pos, PrioritySortValue(y, Some(p))) == y
    decreases Depth(x), 2
  {
    var z := PrioritySortValue(x, Some(p));
    PresortWellFormed(Some(p), x);
    SortNodeIdempotent(sortSet, pos, z);
    var y := SortNode(sortSet, pos, z);
    if x.Obj? {
      SortNodeWellFormed(sortSet, pos, z, None);
      var c := Dispatch(sortSet, pos, z);
      var w := PrioritySortValue(y, Some(p));
      if c.SortOwnKeys? {
        PrioritySortReorders(y.fields, Some(p));
        PrioritySortIgnoresInputOrder(w.fields, y.fields, c.priority);
        DispatchByKind(sortSet, pos, w, z);
        DispatchByKind(sortSet, pos, y, z);
        SameUpdateSameWalk(sortSet, pos, w, y);
      } else {
        UpdateKeepsKeysUnlessOwnSort(sortSet, pos, z);
        PrioritySortSorted(x.fields, p);
        PrioritySortOfSorted(y.fields, p);
      }
    }
  }

  // ---------------------------------------------------------------------------
  // The walk keeps documents sortable
  // ---------------------------------------------------------------------------

  /** The case checks and the checks of the children hold for any object made of
      entries of a sortable object. */
  lemma SortableSubset(sortSet: SortSet, pos: Pos, fs: Fields, gs: Fields)
    requires SortableAt(sortSet, pos, Obj(fs))
    requires forall e :: e in gs ==> e in fs
    ensures SortableAt(sortSet, pos, Obj(gs))
  {
    assert Dispatch(sortSet, pos, Obj(gs)) == Dispatch(sortSet, pos, Obj(fs));
    forall i | 0 <= i < |gs|
      ensures SortableAt(sortSet, EntryPos(pos, gs[i].0), gs[i].1)
      ensures Dispatch(sortSet, pos, Obj(fs)).SortEntries? ==> gs[i].1.Obj?
    {
      assert gs[i] in gs;
      var j :| 0 <= j < |fs| && fs[j] == gs[i];
    }
  }

  lemma PresortSortable(sortSet: SortSet, pos: Pos, x: Json, pre: Option<seq<string>>)
    requires SortableAt(sortSet, pos, x)
    ensures SortableAt(sortSet, pos, Presort(pre, x))
  {
    if pre.Some? && x.Obj? {
      PrioritySortDrawsFrom(x.fields, pre);
      SortableSubset(sortSet, pos, x.fields, PrioritySort(x.fields, pre));
    }
  }

  /** The walk maps a sortable node to a sortable node. */
  lemma {:induction false} SortNodeSortable(sortSet: SortSet, pos: Pos, x: Json, pre: Option<seq<string>>)
    requires WellFormed(x) && SortableAt(sortSet, pos, x)
    ensures SortableAt(sortSet, pos, SortNode(sortSet, pos, Presort(pre, x)))
    decreases Depth(x), 2
  {
    match x
    case Arr(items) => ItemsStaySortable(sortSet, pos, items, pre);
    case Obj(fs) => EntriesStaySortable(sortSet, pos, fs, pre);
    case _ => PresortSortable(sortSet, pos, x, pre);
  }

  lemma {:induction false} ItemsStaySortable(sortSet: SortSet, pos: Pos, items: seq<Json>, pre: Option<seq<string>>)
    requires WellFormed(Arr(items)) && SortableAt(sortSet, pos, Arr(items))
    ensures SortableAt(sortSet, pos, SortNode(sortSet, pos, Presort(pre, Arr(items))))
    decreases Depth(Arr(items)), 1
  {
    var x := Arr(items);
    ChildrenAreShallower(x);
    PresortSortable(sortSet, pos, x, pre);
    var c := Dispatch(sortSet, pos, x);
    var u := Update(c, x);
    var r := SortNode(sortSet, pos, x);
    DispatchByKind(sortSet, pos, r, x);
    forall i | 0 <= i < |items| ensures SortableAt(sortSet, ItemPos(pos, i), r.items[i]) {
      assert u.items[i] == Presort(ChildPresort(c), items[i]);
      SortNodeSortable(sortSet, ItemPos(pos, i), items[i], ChildPresort(c));
    }
  }

  lemma {:induction false} EntriesStaySortable(sortSet: SortSet, pos: Pos, fs: Fields, pre: Option<seq<string>>)
    requires WellFormed(Obj(fs)) && SortableAt(sortSet, pos, Obj(fs))
    ensures SortableAt(sortSet, pos, SortNode(sortSet, pos, Presort(pre, Obj(fs))))
    decreases Depth(Obj(fs)), 1
  {
    var z := Presort(pre, Obj(fs));
    PresortSortable(sortSet, pos, Obj(fs), pre);
    WalkedCaseApplies(sortSet, pos, z);
    WalkedEntriesSortable(sortSet, pos, fs, pre);
  }

  /** The case of a walked object still applies to it. */
  lemma WalkedCaseApplies(sortSet: SortSet, pos: Pos, z: Json)
    requires z.Obj? && SortableAt(sortSet, pos, z)
    ensures var r := SortNode(sortSet, pos, z);
      CaseApplies(Dispatch(sortSet, pos, r), r)
  {
    var c := Dispatch(sortSet, pos, z);
    var r := SortNode(sortSet, pos, z);
    DispatchByKind(sortSet, pos, r, z);
    UpdateShallower(c, z);
    if c.SortEntries? {
      var u := Update(c, z);
      forall i | 0 <= i < |r.fields| ensures r.fields[i].1.Obj? {
        assert u.fields[i].1 == PrioritySortValue(z.fields[i].1, Some(c.priority));
      }
    }
  }

  /** Every entry of a walked object is sortable at its position. */
  lemma {:induction false} WalkedEntriesSortable(sortSet: SortSet, pos: Pos, fs: Fields, pre: Option<seq<string>>)
    requires WellFormed(Obj(fs)) && SortableAt(sortSet, pos, Obj(fs))
    ensures var r := SortNode(sortSet, pos, Presort(pre, Obj(fs)));
      forall i :: 0 <= i < |r.fields| ==> SortableAt(sortSet, EntryPos(pos, r.fields[i].0), r.fields[i].1)
    decreases Depth(Obj(fs)), 0
  {
    var z := Presort(pre, Obj(fs));
    var c := Dispatch(sortSet, pos, z);
    var u := Update(c, z);
    var r := SortNode(sortSet, pos, z);
    UpdateEntries(sortSet, pos, fs, pre);
    var ufs := u.fields;
    WalkKeepsUpdatedKeys(sortSet, pos, z);
    forall i | 0 <= i < |ufs| ensures SortableAt(sortSet, EntryPos(pos, r.fields[i].0), r.fields[i].1) {
      var j := KeyIndex(fs, ufs[i].0);
      EntryShallower(fs, fs[j]);
      SortNodeSortable(sortSet, EntryPos(pos, ufs[i].0), fs[j].1, ChildPresort(c));
    }
  }

  // ---------------------------------------------------------------------------
  // asyncapiSort as a whole
  // ---------------------------------------------------------------------------

  /** The walk of a document keeps its kind, its well-formedness and its
      sortability; an object root keeps its key order. */
  lemma WalkDocumentFacts(sortSet: SortSet, doc: Json)
    requires WellFormed(doc) && SortableAt(sortSet, Root, doc)
    ensures var w := WalkDocument(sortSet, doc);
      && w.Obj? == doc.Obj? && w.Null? == doc.Null?
      && WellFormed(w) && SortableAt(sortSet, Root, w)
      && (doc.Obj? ==> Keys(w.fields) == Keys(doc.fields))
      && (Dispatch(sortSet, Root, doc) == NoSort ==> SortNode(sortSet, Root, w) == w)
  {
    SortNodeWellFormed(sortSet, Root, doc, None);
    SortNodeSortable(sortSet, Root, doc, None);
    SortNodeIdempotent(sortSet, Root, doc);
    if doc.Obj? {
      UpdateKeepsKeysUnlessOwnSort(sortSet, Root, doc);
    }
  }

  /** The root re-sort keeps the root sortable and well-formed. */
  lemma SortRootFacts(sortSet: SortSet, w: Json)
    requires WellFormed(w) && SortableAt(sortSet, Root, w)
    ensures var r := SortRoot(sortSet, w);
      && r.Obj? == w.Obj? && r.Null? == w.Null?
      && WellFormed(r) && SortableAt(sortSet, Root, r)
  {
    if w.Obj? && Truthy(Get(w.fields, "asyncapi")) {
      PrioritySortReorders(w.fields, RootPriority(sortSet));
      PrioritySortDrawsFrom(w.fields, RootPriority(sortSet));
      SortableSubset(sortSet, Root, w.fields, PrioritySort(w.fields, RootPriority(sortSet)));
    }
  }

  /** A walked root object that the walk fixes stays fixed by the root re-sort
      and by a second walk. */
  lemma ResortedRootIsFixed(sortSet: SortSet, w: Json)
    requires w.Obj? && WellFormed(w)
    requires Dispatch(sortSet, Root, w) == NoSort && SortNode(sortSet, Root, w) == w
    ensures var r := SortRoot(sortSet, w);
      WalkDocument(sortSet, r) == r && SortRoot(sortSet, r) == r
  {
    var r := SortRoot(sortSet, w);
    if Truthy(Get(w.fields, "asyncapi")) {
      var p := RootPriority(sortSet);
      var gs := PrioritySort(w.fields, p);
      PrioritySortReorders(w.fields, p);
      PrioritySortDrawsFrom(w.fields, p);
      forall e | e in gs ensures SortNode(sortSet, EntryPos(Root, e.0), e.1) == e.1 {
        var i :| 0 <= i < |w.fields| && w.fields[i] == e;
        assert SortNode(sortSet, Root, w).fields[i] == w.fields[i];
      }
      FixedEntriesFixedNode(sortSet, Root, gs);
      assert Get(gs, "asyncapi") == Get(w.fields, "asyncapi");
      PrioritySortIdempotent(w.fields, p);
    }
  }

  /** Sorting a sorted document again changes nothing. */
  lemma AsyncapiSortIdempotent(options: SortOptions, doc: Json)
    requires WellFormed(doc)
    requires !options.sortOff ==> doc != Null && SortableAt(options.sortSet, Root, doc)
    ensures var r := AsyncapiSort(options, doc);
      && (!options.sortOff ==> r != Null && SortableAt(options.sortSet, Root, r))
      && AsyncapiSort(options, r) == r
  {
    if !options.sortOff {
      var sortSet := options.sortSet;
      WalkDocumentFacts(sortSet, doc);
      var w := WalkDocument(sortSet, doc);
      SortRootFacts(sortSet, w);
      var r := SortRoot(sortSet, w);
      assert r == AsyncapiSort(options, doc);
      if Dispatch(sortSet, Root, doc) == NoSort {
        DispatchByKind(sortSet, Root, w, doc);
        if w.Obj? {
          ResortedRootIsFixed(sortSet, w);
        } else {
          assert r == w;
        }
      } else {
        assert w == doc && r == doc;
      }
      assert WalkDocument(sortSet, r) == r && SortRoot(sortSet, r) == r;
    }
  }

  // ---------------------------------------------------------------------------
  // The sorting cases, seen in the result
  // ---------------------------------------------------------------------------

  /** An object under a key of the sort set, whose parent is not `components`,
      and which is not the channels/schemas/properties case: its keys come out in
      the priority order of its key's list, and are exactly its keys. */
  lemma OwnKeysSorted(sortSet: SortSet, key: string, parentKey: Option<string>, fs: Fields)
    requires WellFormed(Obj(fs))
    requires key in sortSet
    requires !(key in CollectionKeys && parentKey != Some("properties") && parentKey != Some("payload"))
    requires parentKey != Some("components")
    ensures var ks := Keys(SortNode(sortSet, Child(key, parentKey), Obj(fs)).fields);
      && multiset(ks) == multiset(Keys(fs))
      && forall i, j :: 0 <= i < j < |ks| ==> Precedes(sortSet[key], ks[i], ks[j])
  {
    var pos := Child(key, parentKey);
    assert Dispatch(sortSet, pos, Obj(fs)) == SortOwnKeys(sortSet[key]);
    var sorted := PrioritySort(fs, Some(sortSet[key]));
    WalkKeepsUpdatedKeys(sortSet, pos, Obj(fs));
    assert Keys(SortNode(sortSet, pos, Obj(fs)).fields) == Keys(sorted);
    assert multiset(Keys(sorted)) == multiset(Keys(fs)) by {
      PrioritySortReorders(fs, Some(sortSet[key]));
    }
    PrioritySortOrdersKeys(fs, sortSet[key]);
  }

  /** Every other object keeps its key order: its key is not in the sort set,
      it is a channels/schemas/properties collection (whose entries are sorted
      instead), its parent is `components`, or it is the root. */
  lemma OtherKeysKept(sortSet: SortSet, pos: Pos, fs: Fields)
    requires pos.Child? ==>
      || pos.key !in sortSet
      || (pos.key in CollectionKeys && pos.parentKey != Some("properties") && pos.parentKey != Some("payload"))
      || pos.parentKey == Some("components")
    ensures Keys(SortNode(sortSet, pos, Obj(fs)).fields) == Keys(fs)
  {
    UpdateKeepsKeysUnlessOwnSort(sortSet, pos, Obj(fs));
  }

  /** An array under a key of the sort set: every element object comes out in
      the priority order of that key's list (unless its own index is itself a sort
      key), with exactly its keys. */
  lemma EachItemSortedInResult(sortSet: SortSet, pos: Pos, items: seq<Json>, i: nat)
    requires WellFormed(Arr(items)) && KeyName(pos) in sortSet
    requires i < |items| && items[i].Obj? && IndexKey(i) !in sortSet
    ensures var r := SortNode(sortSet, pos, Arr(items));
      var ks := Keys(r.items[i].fields);
      && r.items[i].Obj?
      && multiset(ks) == multiset(Keys(items[i].fields))
      && forall a, b :: 0 <= a < b < |ks| ==> Precedes(sortSet[KeyName(pos)], ks[a], ks[b])
  {
    var p := sortSet[KeyName(pos)];
    var item := PrioritySortValue(items[i], Some(p));
    assert SortNode(sortSet, pos, Arr(items)).items[i] == SortNode(sortSet, ItemPos(pos, i), item);
    UpdateKeepsKeysUnlessOwnSort(sortSet, ItemPos(pos, i), item);
    PrioritySortReorders(items[i].fields, Some(p));
    PrioritySortOrdersKeys(items[i].fields, p);
  }

  /** A channels/schemas/properties object under a key of the sort set, whose
      parent key is not `properties` or `payload`: every entry object comes out
      in the priority order of the collection key's list (unless the entry's own
      key is a sort key), with exactly its keys. */
  lemma EachEntrySortedInResult(sortSet: SortSet, key: string, parentKey: Option<string>, fs: Fields, i: nat)
    requires WellFormed(Obj(fs)) && key in sortSet && key in CollectionKeys
    requires parentKey != Some("properties") && parentKey != Some("payload")
    requires i < |fs| && fs[i].1.Obj? && fs[i].0 !in sortSet
    ensures var r := SortNode(sortSet, Child(key, parentKey), Obj(fs));
      var e := r.fields[i];
      && e.0 == fs[i].0 && e.1.Obj?
      && multiset(Keys(e.1.fields)) == multiset(Keys(fs[i].1.fields))
      && forall a, b :: 0 <= a < b < |e.1.fields| ==> Precedes(sortSet[key], Keys(e.1.fields)[a], Keys(e.1.fields)[b])
  {
    var pos := Child(key, parentKey);
    var p := sortSet[key];
    var v := PrioritySortValue(fs[i].1, Some(p));
    assert SortNode(sortSet, pos, Obj(fs)).fields[i] == (fs[i].0, SortNode(sortSet, EntryPos(pos, fs[i].0), v));
    UpdateKeepsKeysUnlessOwnSort(sortSet, EntryPos(pos, fs[i].0), v);
    PrioritySortReorders(fs[i].1.fields, Some(p));
    PrioritySortOrdersKeys(fs[i].1.fields, p);
  }

  /** The walk keeps the kind of a value, so the truthiness of `asyncapi`. */
  lemma WalkKeepsTruthy(sortSet: SortSet, pos: Pos, v: Json)
    ensures Truthy(Some(SortNode(sortSet, pos, v))) == Truthy(Some(v))
  {
  }

  /** A root object without a truthy `asyncapi` field keeps its key order. */
  lemma RootKeptWithoutAsyncapi(options: SortOptions, fs: Fields)
    requires WellFormed(Obj(fs)) && SortableAt(options.sortSet, Root, Obj(fs))
    requires !Truthy(Get(fs, "asyncapi"))
    ensures Keys(AsyncapiSort(options, Obj(fs)).fields) == Keys(fs)
  {
    if !options.sortOff {
      var sortSet := options.sortSet;
      WalkDocumentFacts(sortSet, Obj(fs));
      var w := WalkDocument(sortSet, Obj(fs));
      RootAsyncapiValue(sortSet, fs);
    }
  }

  /** A root object with a truthy `asyncapi` field is re-sorted by the `root`
      list of the sort set: its keys come out in that priority order. */
  lemma RootSortedWithAsyncapi(options: SortOptions, fs: Fields)
    requires WellFormed(Obj(fs)) && SortableAt(options.sortSet, Root, Obj(fs))
    requires !options.sortOff && Truthy(Get(fs, "asyncapi")) && "root" in options.sortSet
    ensures var ks := Keys(AsyncapiSort(options, Obj(fs)).fields);
      && multiset(ks) == multiset(Keys(fs))
      && forall i, j :: 0 <= i < j < |ks| ==> Precedes(options.sortSet["root"], ks[i], ks[j])
  {
    var sortSet := options.sortSet;
    WalkDocumentFacts(sortSet, Obj(fs));
    var w := WalkDocument(sortSet, Obj(fs));
    RootAsyncapiValue(sortSet, fs);
    PrioritySortReorders(w.fields, Some(sortSet["root"]));
    PrioritySortOrdersKeys(w.fields, sortSet["root"]);
  }

  /** The walk keeps the truthiness of the root's `asyncapi` field. */
  lemma RootAsyncapiValue(sortSet: SortSet, fs: Fields)
    requires WellFormed(Obj(fs))
    ensures var w := WalkDocument(sortSet, Obj(fs));
      w.Obj? && Truthy(Get(w.fields, "asyncapi")) == Truthy(Get(fs, "asyncapi"))
  {
    var w := WalkDocument(sortSet, Obj(fs));
    UpdateKeepsKeysUnlessOwnSort(sortSet, Root, Obj(fs));
    if "asyncapi" in Keys(fs) {
      var i := KeyIndex(fs, "asyncapi");
      assert Keys(w.fields)[i] == "asyncapi";
      assert KeyIndex(w.fields, "asyncapi") == i by {
        var j := KeyIndex(w.fields, "asyncapi");
        assert Keys(w.fields)[j] == "asyncapi";
      }
      WalkKeepsTruthy(sortSet, EntryPos(Root, "asyncapi"), fs[i].1);
    }
  }
}
