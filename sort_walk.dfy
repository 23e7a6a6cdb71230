/** The sort walk of asyncapiSort: the case that applies at each node of the
    document, the pre-order walk that applies it, and the final re-sort of the
    root. */
module SortWalk {
  import opened Wrappers
  import opened JsonTree
  import opened KeyOrder

  /** `options.sortSet`: a sort key and the priority list for it. Entries whose
      value is not an array never take part (`Array.isArray(sortSet[this.key])`),
      so the model keeps only the array-valued ones. */
  type SortSet = map<string, seq<string>>

  /** Where the walk stands: at the root (no parent, key `undefined`), or at a
      child with its key and the key of its parent (`None` when the parent is
      the root). */
  datatype Pos = Root | Child(key: string, parentKey: Option<string>)

  /** `this.key`. */
  function KeyOf(pos: Pos): Option<string>
  {
    if pos.Root? then None else Some(pos.key)
  }

  /** `this.key` as a property name: `sortSet.hasOwnProperty(undefined)` looks
      up the name "undefined". */
  function KeyName(pos: Pos): string
  {
    if pos.Root? then "undefined" else pos.key
  }

  /** The positions reached from `pos` by the walk: array element `i` sits
      under the key `IndexKey(i)`, an object entry under its own key. */
  function ItemPos(pos: Pos, i: nat): Pos
  {
    Child(IndexKey(i), KeyOf(pos))
  }

  function EntryPos(pos: Pos, k: string): Pos
  {
    Child(k, KeyOf(pos))
  }

  /** The sorting cases of asyncapiSort. */
  datatype Case =
    | NoSort
    | SortItems(priority: seq<string>)    // an array: sort every element
    | SortEntries(priority: seq<string>)  // channels/schemas/properties: sort every entry
    | SortOwnKeys(priority: seq<string>)  // anything else: sort the node's own keys

  /** `typeof node === 'object'`: objects, arrays and null. */
  predicate IsObjectType(j: Json)
  {
    j.Null? || j.Arr? || j.Obj?
  }

  const CollectionKeys: seq<string> := ["channels", "schemas", "properties"]

  /** The case that applies to `node` at `pos`. */
  function Dispatch(sortSet: SortSet, pos: Pos, node: Json): Case
  {
    var k := KeyName(pos);
    if !IsObjectType(node) || k !in sortSet then NoSort
    else if node.Arr? then SortItems(sortSet[k])
    else if pos.Child? && k in CollectionKeys
      && pos.parentKey != Some("properties") && pos.parentKey != Some("payload")
    then SortEntries(sortSet[k])
    else if pos.Child? && pos.parentKey != Some("components") then SortOwnKeys(sortSet[k])
    else NoSort
  }

  /** `sortedObj[i] = prioritySort(sortedObj[i], …)` for every element. */
  function EachItemSorted(items: seq<Json>, p: seq<string>): seq<Json>
  {
    seq(|items|, i requires 0 <= i < |items| => PrioritySortValue(items[i], Some(p)))
  }

  /** `sortedObj[keyRes] = prioritySort(sortedObj[keyRes], …)` for every key. */
  function EachEntrySorted(fs: Fields, p: seq<string>): Fields
  {
    seq(|fs|, i requires 0 <= i < |fs| => (fs[i].0, PrioritySortValue(fs[i].1, Some(p))))
  }

  /** The loop over the copied array: element `i` is replaced by its sorted
      form, one index at a time. */
  method SortEachItem(items: seq<Json>, p: seq<string>) returns (sorted: seq<Json>)
    ensures sorted == EachItemSorted(items, p)
  {
    var a := new Json[|items|];
    forall j | 0 <= j < a.Length {
      a[j] := items[j];
    }
    var i := 0;
    while i < a.Length
      invariant 0 <= i <= a.Length == |items|
      invariant forall j :: 0 <= j < i ==> a[j] == PrioritySortValue(items[j], Some(p))
      invariant forall j :: i <= j < a.Length ==> a[j] == items[j]
    {
      a[i] := PrioritySortValue(a[i], Some(p));
      i := i + 1;
    }
    sorted := a[..];
    assert forall j :: 0 <= j < |items| ==> sorted[j] == EachItemSorted(items, p)[j];
  }

  /** The loop over the keys of the copied object: the value at each key is
      replaced by its sorted form, and the keys stay where they are. */
  method SortEachEntry(fs: Fields, p: seq<string>) returns (sorted: Fields)
    ensures sorted == EachEntrySorted(fs, p)
    ensures Keys(sorted) == Keys(fs)
  {
    sorted := fs;
    var i := 0;
    while i < |sorted|
      invariant |sorted| == |fs| && 0 <= i <= |fs|
      invariant forall j :: 0 <= j < i ==> sorted[j] == (fs[j].0, PrioritySortValue(fs[j].1, Some(p)))
      invariant forall j :: i <= j < |fs| ==> sorted[j] == fs[j]
    {
      sorted := sorted[i := (sorted[i].0, PrioritySortValue(sorted[i].1, Some(p)))];
      i := i + 1;
    }
    EachEntrySortedKeys(fs, p);
  }

  /** The value `this.update` installs for a case (the node itself when nothing
      is updated). A `null` in the entries case passes through unchanged, since
      `for (keyRes in null)` does nothing. */
  function Update(c: Case, node: Json): Json
  {
    match c
    case NoSort => node
    case SortItems(p) => if node.Arr? then Arr(EachItemSorted(node.items, p)) else node
    case SortEntries(p) => if node.Obj? then Obj(EachEntrySorted(node.fields, p)) else node
    case SortOwnKeys(p) => if node.Obj? then Obj(PrioritySort(node.fields, Some(p))) else node
  }

  // ---------------------------------------------------------------------------
  // Depth bookkeeping for the walk
  // ---------------------------------------------------------------------------

  lemma EntryShallower(fs: Fields, e: (string, Json))
    requires e in fs
    ensures Depth(e.1) < Depth(Obj(fs))
  {
    ChildrenAreShallower(Obj(fs));
    var i :| 0 <= i < |fs| && fs[i] == e;
  }

  lemma PrioritySortValueDepth(v: Json, p: Option<seq<string>>)
    ensures Depth(PrioritySortValue(v, p)) <= Depth(v)
  {
    if v.Obj? {
      PrioritySortDrawsFrom(v.fields, p);
      ValuesBoundDepth(v.fields, PrioritySort(v.fields, p));
    }
  }

  /** An update keeps the kind of the node, and the children of the updated
      node are shallower than the node. */
  lemma UpdateShallower(c: Case, node: Json)
    ensures var u := Update(c, node);
      && (u.Arr? <==> node.Arr?) && (u.Obj? <==> node.Obj?)
      && (!IsContainer(node) ==> u == node)
      && (u.Arr? ==> forall i :: 0 <= i < |u.items| ==> Depth(u.items[i]) < Depth(node))
      && (u.Obj? ==> forall i :: 0 <= i < |u.fields| ==> Depth(u.fields[i].1) < Depth(node))
  {
    ChildrenAreShallower(node);
    var u := Update(c, node);
    match c
    case NoSort =>
    case SortItems(p) =>
      if node.Arr? {
        forall i | 0 <= i < |u.items| ensures Depth(u.items[i]) < Depth(node) {
          PrioritySortValueDepth(node.items[i], Some(p));
        }
      }
    case SortEntries(p) =>
      if node.Obj? {
        forall i | 0 <= i < |u.fields| ensures Depth(u.fields[i].1) < Depth(node) {
          PrioritySortValueDepth(node.fields[i].1, Some(p));
        }
      }
    case SortOwnKeys(p) =>
      if node.Obj? {
        PrioritySortDrawsFrom(node.fields, Some(p));
        forall i | 0 <= i < |u.fields| ensures Depth(u.fields[i].1) < Depth(node) {
          assert u.fields[i] in u.fields;
          EntryShallower(node.fields, u.fields[i]);
        }
      }
  }

  // ---------------------------------------------------------------------------
  // The walk
  // ---------------------------------------------------------------------------

  /** The pre-order walk from `node` at `pos`: apply the update of the case that
      applies, then walk the children of the updated node. */
  function SortNode(sortSet: SortSet, pos: Pos, node: Json): (r: Json)
    ensures r.Arr? <==> node.Arr?
    ensures r.Obj? <==> node.Obj?
    ensures r.Arr? ==> |r.items| == |node.items|
    ensures !IsContainer(node) ==> r == node
    decreases Depth(node)
  {
    var u := Update(Dispatch(sortSet, pos, node), node);
    UpdateShallower(Dispatch(sortSet, pos, node), node);
    match u
    case Arr(items) =>
      Arr(seq(|items|, i requires 0 <= i < |items| => SortNode(sortSet, ItemPos(pos, i), items[i])))
    case Obj(fs) =>
      Obj(seq(|fs|, i requires 0 <= i < |fs| => (fs[i].0, SortNode(sortSet, EntryPos(pos, fs[i].0), fs[i].1))))
    case _ => u
  }

  /** `traverse(jsonObj).forEach(…)` over the whole document. The walk hands back
      the original root object, so when the root itself is updated (an array
      root under a sort key "undefined") that update and everything below it is
      lost and the document is unchanged. */
  function WalkDocument(sortSet: SortSet, doc: Json): Json
  {
    if Dispatch(sortSet, Root, doc) != NoSort then doc else SortNode(sortSet, Root, doc)
  }

  /** `sortSet['root']`, `None` when it is not an array. */
  function RootPriority(sortSet: SortSet): Option<seq<string>>
  {
    if "root" in sortSet then Some(sortSet["root"]) else None
  }

  /** The options asyncapiSort reads: `sortOff` is `options.sort === false`, and
      `sortSet` is `options.sortSet` or, when that is missing, the default set
      the caller has read from disk. */
  datatype SortOptions = SortOptions(sortOff: bool, sortSet: SortSet)

  /** The documents asyncapiSort handles without meeting a JavaScript coercion:
      `prioritySort` is only ever applied to objects (never to `null`, which
      throws, nor to a string, an array or a number, which `Object.keys` turns
      into an object), checked wherever the walk applies it. */
  predicate CaseApplies(c: Case, node: Json)
  {
    match c
    case NoSort => true
    case SortItems(_) => node.Arr? ==> forall i :: 0 <= i < |node.items| ==> node.items[i].Obj?
    case SortEntries(_) => node.Obj? ==> forall i :: 0 <= i < |node.fields| ==> node.fields[i].1.Obj?
    case SortOwnKeys(_) => node.Obj?
  }

  predicate SortableAt(sortSet: SortSet, pos: Pos, node: Json)
    decreases node
  {
    && CaseApplies(Dispatch(sortSet, pos, node), node)
    && match node
       case Arr(items) => forall i :: 0 <= i < |items| ==> SortableAt(sortSet, ItemPos(pos, i), items[i])
       case Obj(fs) => forall i :: 0 <= i < |fs| ==> SortableAt(sortSet, EntryPos(pos, fs[i].0), fs[i].1)
       case _ => true
  }

  /** asyncapiSort(oaObj, options). The deep copy is the identity on values. The
      root is re-sorted with `sortSet.root` when its `asyncapi` field is truthy;
      `jsonObj.asyncapi` on a `null` root throws, which the precondition rules out. */
  function AsyncapiSort(options: SortOptions, doc: Json): (r: Json)
    requires WellFormed(doc)
    requires !options.sortOff ==> doc != Null && SortableAt(options.sortSet, Root, doc)
    ensures options.sortOff ==> r == doc
    ensures WellFormed(r)
    ensures SameUpToKeyOrder(r, doc)
  {
    SortDocumentKeepsContent(options.sortSet, doc);
    SameUpToKeyOrderReflexive(doc);
    if options.sortOff then doc
    else SortRoot(options.sortSet, WalkDocument(options.sortSet, doc))
  }

  /** `if (jsonObj.asyncapi) jsonObj = prioritySort(jsonObj, sortSet['root'])`. */
  function SortRoot(sortSet: SortSet, w: Json): Json
  {
    if w.Obj? && Truthy(Get(w.fields, "asyncapi")) then Obj(PrioritySort(w.fields, RootPriority(sortSet))) else w
  }

  // ---------------------------------------------------------------------------
  // Content preservation
  // ---------------------------------------------------------------------------

  /** The presort a parent applies to a child before the child is walked. */
  function Presort(pre: Option<seq<string>>, x: Json): Json
  {
    if pre.Some? then PrioritySortValue(x, pre) else x
  }

  function ChildPresort(c: Case): Option<seq<string>>
  {
    match c
    case SortItems(p) => Some(p)
    case SortEntries(p) => Some(p)
    case _ => None
  }

  predicate EntriesFrom(u: Fields, x: Fields, pre: Option<seq<string>>)
  {
    && Distinct(Keys(u))
    && multiset(Keys(u)) == multiset(Keys(x))
    && forall i :: 0 <= i < |u| ==> u[i].0 in Keys(x) && u[i].1 == Presort(pre, Lookup(x, u[i].0))
  }

  lemma EntriesFromOwn(x: Fields)
    requires Distinct(Keys(x))
    ensures EntriesFrom(x, x, None)
  {
    forall i | 0 <= i < |x| ensures x[i].0 in Keys(x) && x[i].1 == Lookup(x, x[i].0) {
      LookupOfEntry(x, i);
    }
  }

  lemma EachEntrySortedKeys(fs: Fields, p: seq<string>)
    ensures Keys(EachEntrySorted(fs, p)) == Keys(fs)
  {
    var g := EachEntrySorted(fs, p);
    assert |Keys(g)| == |Keys(fs)|;
    forall i | 0 <= i < |fs| ensures Keys(g)[i] == Keys(fs)[i] {
    }
  }

  /** Sorting the entries of an object presorts every value and keeps the entries. */
  lemma EntriesFromEachEntrySorted(z: Fields, x: Fields, p: seq<string>)
    requires EntriesFrom(z, x, None)
    ensures EntriesFrom(EachEntrySorted(z, p), x, Some(p))
  {
    EachEntrySortedKeys(z, p);
  }

  /** Reordering keeps the entries. */
  lemma EntriesFromPrioritySort(z: Fields, x: Fields, q: Option<seq<string>>)
    requires EntriesFrom(z, x, None)
    ensures EntriesFrom(PrioritySort(z, q), x, None)
  {
    var u := PrioritySort(z, q);
    PrioritySortReorders(z, q);
    forall i | 0 <= i < |u| ensures u[i].0 in Keys(x) && u[i].1 == Lookup(x, u[i].0) {
      var k := u[i].0;
      assert Keys(u)[i] == k;
      assert k in Keys(z);
      var j := KeyIndex(z, k);
      assert Keys(z)[j] == k;
      LookupOfEntry(u, i);
    }
  }

  /** What a node's update does to the entries of an object: the updated node
      holds the entries of the original, each presorted with the presort the
      case gives the children. */
  lemma UpdateEntries(sortSet: SortSet, pos: Pos, x: Fields, pre: Option<seq<string>>)
    requires Distinct(Keys(x))
    ensures var z := Presort(pre, Obj(x));
      var c := Dispatch(sortSet, pos, z);
      var u := Update(c, z);
      u.Obj? && EntriesFrom(u.fields, x, ChildPresort(c))
  {
    var z := Presort(pre, Obj(x));
    EntriesFromOwn(x);
    if pre.Some? {
      EntriesFromPrioritySort(x, x, pre);
    }
    assert EntriesFrom(z.fields, x, None);
    var c := Dispatch(sortSet, pos, z);
    match c
    case NoSort =>
    case SortItems(p) =>
    case SortEntries(p) =>
      EntriesFromEachEntrySorted(z.fields, x, p);
    case SortOwnKeys(p) =>
      EntriesFromPrioritySort(z.fields, x, Some(p));
  }

  lemma PresortWellFormed(pre: Option<seq<string>>, x: Json)
    requires WellFormed(x)
    ensures WellFormed(Presort(pre, x)) && Depth(Presort(pre, x)) <= Depth(x)
  {
    if pre.Some? && x.Obj? {
      var u := PrioritySort(x.fields, pre);
      PrioritySortReorders(x.fields, pre);
      forall i | 0 <= i < |u| ensures WellFormed(u[i].1) {
        var j :| 0 <= j < |x.fields| && x.fields[j] == u[i];
      }
      PrioritySortValueDepth(x, pre);
    }
  }

  lemma SameUpToKeyOrderReflexive(x: Json)
    requires WellFormed(x)
    ensures SameUpToKeyOrder(x, x)
    decreases x
  {
    match x
    case Arr(items) =>
      forall i | 0 <= i < |items| ensures SameUpToKeyOrder(items[i], items[i]) {
        SameUpToKeyOrderReflexive(items[i]);
      }
    case Obj(fs) =>
      forall i | 0 <= i < |fs| ensures fs[i].0 in Keys(fs) && SameUpToKeyOrder(fs[i].1, Lookup(fs, fs[i].0)) {
        LookupOfEntry(fs, i);
        SameUpToKeyOrderReflexive(fs[i].1);
      }
    case _ =>
  }

  /** The walk from a node presorted with `pre` leaves every object with
      distinct keys. */
  lemma {:induction false} SortNodeWellFormed(sortSet: SortSet, pos: Pos, x: Json, pre: Option<seq<string>>)
    requires WellFormed(x)
    ensures WellFormed(SortNode(sortSet, pos, Presort(pre, x)))
    decreases Depth(x), 1
  {
    match x
    case Arr(items) => ItemsStayWellFormed(sortSet, pos, items, pre);
    case Obj(fs) => EntriesStayWellFormed(sortSet, pos, fs, pre);
    case _ =>
  }

  lemma {:induction false} ItemsStayWellFormed(sortSet: SortSet, pos: Pos, items: seq<Json>, pre: Option<seq<string>>)
    requires WellFormed(Arr(items))
    ensures WellFormed(SortNode(sortSet, pos, Presort(pre, Arr(items))))
    decreases Depth(Arr(items)), 0
  {
    var x := Arr(items);
    ChildrenAreShallower(x);
    var c := Dispatch(sortSet, pos, x);
    var u := Update(c, x);
    var r := SortNode(sortSet, pos, x);
    forall i | 0 <= i < |items| ensures WellFormed(r.items[i]) {
      assert u.items[i] == Presort(ChildPresort(c), items[i]);
      SortNodeWellFormed(sortSet, ItemPos(pos, i), items[i], ChildPresort(c));
    }
  }

  lemma {:induction false} EntriesStayWellFormed(sortSet: SortSet, pos: Pos, fs: Fields, pre: Option<seq<string>>)
    requires WellFormed(Obj(fs))
    ensures WellFormed(SortNode(sortSet, pos, Presort(pre, Obj(fs))))
    decreases Depth(Obj(fs)), 0
  {
    var z := Presort(pre, Obj(fs));
    var c := Dispatch(sortSet, pos, z);
    var u := Update(c, z);
    var r := SortNode(sortSet, pos, z);
    UpdateEntries(sortSet, pos, fs, pre);
    var ufs := u.fields;
    assert Keys(r.fields) == Keys(ufs);
    forall i | 0 <= i < |ufs| ensures WellFormed(r.fields[i].1) {
      var e := fs[KeyIndex(fs, ufs[i].0)];
      EntryShallower(fs, e);
      SortNodeWellFormed(sortSet, EntryPos(pos, ufs[i].0), e.1, ChildPresort(c));
    }
  }

  /** The last step of the content proof for an object: entries whose values
      agree with those of `x` make an object that agrees with `x`. */
  lemma SameObject(rs: Fields, us: Fields, x: Fields, pre: Option<seq<string>>)
    requires EntriesFrom(us, x, pre) && Keys(rs) == Keys(us)
    requires forall i :: 0 <= i < |rs| ==> SameUpToKeyOrder(rs[i].1, Lookup(x, us[i].0))
    ensures SameUpToKeyOrder(Obj(rs), Obj(x))
  {
    forall i | 0 <= i < |rs| ensures rs[i].0 in Keys(x) && SameUpToKeyOrder(rs[i].1, Lookup(x, rs[i].0)) {
      assert Keys(rs)[i] == rs[i].0 && Keys(us)[i] == us[i].0;
    }
    assert multiset(Keys(rs)) == multiset(Keys(x));
  }

  /** The walk from a node presorted with `pre` keeps every key and every value
      of the node: the result equals the node up to the order of object keys. */
  lemma {:induction false} SortNodeKeepsContent(sortSet: SortSet, pos: Pos, x: Json, pre: Option<seq<string>>)
    requires WellFormed(x)
    ensures SameUpToKeyOrder(SortNode(sortSet, pos, Presort(pre, x)), x)
    decreases Depth(x), 1
  {
    match x
    case Arr(items) => ItemsKeepContent(sortSet, pos, items, pre);
    case Obj(fs) => EntriesKeepContent(sortSet, pos, fs, pre);
    case _ =>
  }

  lemma {:induction false} ItemsKeepContent(sortSet: SortSet, pos: Pos, items: seq<Json>, pre: Option<seq<string>>)
    requires WellFormed(Arr(items))
    ensures SameUpToKeyOrder(SortNode(sortSet, pos, Presort(pre, Arr(items))), Arr(items))
    decreases Depth(Arr(items)), 0
  {
    var x := Arr(items);
    ChildrenAreShallower(x);
    var c := Dispatch(sortSet, pos, x);
    var u := Update(c, x);
    var r := SortNode(sortSet, pos, x);
    forall i | 0 <= i < |items| ensures SameUpToKeyOrder(r.items[i], items[i]) {
      assert u.items[i] == Presort(ChildPresort(c), items[i]);
      SortNodeKeepsContent(sortSet, ItemPos(pos, i), items[i], ChildPresort(c));
    }
  }

  lemma {:induction false} EntriesKeepContent(sortSet: SortSet, pos: Pos, fs: Fields, pre: Option<seq<string>>)
    requires WellFormed(Obj(fs))
    ensures SameUpToKeyOrder(SortNode(sortSet, pos, Presort(pre, Obj(fs))), Obj(fs))
    decreases Depth(Obj(fs)), 0
  {
    var z := Presort(pre, Obj(fs));
    var c := Dispatch(sortSet, pos, z);
    var u := Update(c, z);
    var r := SortNode(sortSet, pos, z);
    UpdateEntries(sortSet, pos, fs, pre);
    var ufs := u.fields;
    assert Keys(r.fields) == Keys(ufs);
    forall i | 0 <= i < |ufs| ensures SameUpToKeyOrder(r.fields[i].1, Lookup(fs, ufs[i].0)) {
      var e := fs[KeyIndex(fs, ufs[i].0)];
      EntryShallower(fs, e);
      SortNodeKeepsContent(sortSet, EntryPos(pos, ufs[i].0), e.1, ChildPresort(c));
    }
    SameObject(r.fields, ufs, fs, ChildPresort(c));
  }

  lemma SortDocumentKeepsContent(sortSet: SortSet, doc: Json)
    requires WellFormed(doc)
    ensures var r := SortRoot(sortSet, WalkDocument(sortSet, doc));
      SameUpToKeyOrder(r, doc) && WellFormed(r)
  {
    SameUpToKeyOrderReflexive(doc);
    SortNodeKeepsContent(sortSet, Root, doc, None);
    SortNodeWellFormed(sortSet, Root, doc, None);
    var w := WalkDocument(sortSet, doc);
    if w.Obj? && Truthy(Get(w.fields, "asyncapi")) {
      ReorderedObjectKeepsContent(w.fields, doc, RootPriority(sortSet));
    }
  }

  /** prioritySort on an object that agrees with `doc` up to key order gives
      another such object. */
  lemma ReorderedObjectKeepsContent(ws: Fields, doc: Json, p: Option<seq<string>>)
    requires WellFormed(Obj(ws)) && SameUpToKeyOrder(Obj(ws), doc)
    ensures var r := Obj(PrioritySort(ws, p));
      SameUpToKeyOrder(r, doc) && WellFormed(r)
  {
    var r := PrioritySort(ws, p);
    PrioritySortReorders(ws, p);
    PresortWellFormed(p, Obj(ws));
    forall i | 0 <= i < |r|
      ensures r[i].0 in Keys(doc.fields) && SameUpToKeyOrder(r[i].1, Lookup(doc.fields, r[i].0))
    {
      var k := r[i].0;
      assert Keys(r)[i] == k;
      var j := KeyIndex(ws, k);
      assert Keys(ws)[j] == k;
      LookupOfEntry(r, i);
    }
  }
}
