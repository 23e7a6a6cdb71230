/** The filter walk of asyncapiFilter: the deletion rules applied at each node in
    pre-order, the clean-up pass that drops empty objects, and the errors the
    two passes can raise. */
module FilterWalk {
  import opened Wrappers
  import opened JsonTree

  /** The merged filter set: `Object.assign({}, defaultFilter, options.filterSet)`,
      with the defaults supplied by the caller. */
  datatype FilterSet = FilterSet(operations: seq<string>, tags: seq<string>, operationIds: seq<string>, flags: seq<string>)

  /** `filterProps`: the operation ids and the flags. */
  function Props(f: FilterSet): seq<string>
  {
    f.operationIds + f.flags
  }

  /** Where the walk stands: the root, or a child with its key and whether its
      parent is the root (`this.parent.key === undefined`). */
  datatype FPos = FRoot | FChild(key: string, parentIsRoot: bool)

  /** What a node asks of its parent: `this.parent.remove()` or `this.parent.delete()`. */
  datatype Request = NoRequest | RemoveParent | DeleteParent

  /** The TypeErrors the filter throws: `this.parent.remove()`/`delete()` from a
      child of the root, or on the root itself (the root has no parent), and
      `Object.keys(null)`. */
  datatype FilterError = RootHasNoParent | KeysOfNull

  /** What becomes of a node in its parent: kept (with its processed value),
      removed, deleted (a hole in an array), or removed and then put back by
      `this.update`, which assigns the key anew at the end of the object. */
  datatype Fate = Keep(value: Json) | Removed | Deleted | Readded(value: Json)

  datatype Visit = Visit(fate: Fate, request: Request)

  /** The outcome of walking the entries of an object: the entries kept in place,
      the entries put back at the end, and whether some child asked for the
      object to be removed or deleted. */
  datatype EntryWalk = EntryWalk(kept: Fields, readded: Fields, removeReq: bool, deleteReq: bool)

  datatype ItemWalk = ItemWalk(items: seq<Json>, removeReq: bool, deleteReq: bool)

  // ---------------------------------------------------------------------------
  // The rules
  // ---------------------------------------------------------------------------

  /** `filterArray.some(i => node.includes(i))`. */
  predicate HasBlockedTag(items: seq<Json>, tags: seq<string>)
  {
    exists t :: t in tags && Str(t) in items
  }

  /** Rule 1: the key is one of `filterSet.operations`; the node removes itself. */
  predicate RemovesSelf(f: FilterSet, pos: FPos)
  {
    pos.FChild? && pos.key in f.operations
  }

  /** Rule 2: a `tags` array holding a filter tag. */
  predicate BlockedTags(f: FilterSet, pos: FPos, node: Json)
  {
    pos.FChild? && pos.key == "tags" && node.Arr? && f.tags != [] && HasBlockedTag(node.items, f.tags)
  }

  /** Rule 3: a string, number or boolean whose key is in `filterProps`, or an
      `operationId` whose value is. */
  predicate FlaggedField(f: FilterSet, pos: FPos, node: Json)
  {
    && IsScalar(node) && Props(f) != [] && pos.FChild?
    && (pos.key in Props(f) || (pos.key == "operationId" && node.Str? && node.s in Props(f)))
  }

  function OwnRequest(f: FilterSet, pos: FPos, node: Json): Request
  {
    if BlockedTags(f, pos, node) then DeleteParent
    else if FlaggedField(f, pos, node) then RemoveParent
    else NoRequest
  }

  /** Rule 4: the `tags` array of the root. */
  predicate IsRootTags(pos: FPos, node: Json)
  {
    pos.FChild? && pos.parentIsRoot && pos.key == "tags" && node.Arr?
  }

  /** `Object.keys(item)`; `null` throws. */
  function ObjectKeysOf(item: Json): Result<seq<string>, FilterError>
  {
    match item
    case Null => Failure(KeysOfNull)
    case Obj(fs) => Success(Keys(fs))
    case Arr(items) => Success(IndexKeys(|items|))
    case Str(s) => Success(IndexKeys(|s|))
    case _ => Success([])
  }

  /** `!filterProps.some(i => Object.keys(item).includes(i))`: with no props the
      callback never runs, so even `null` is kept. */
  function KeepTag(props: seq<string>, item: Json): Result<bool, FilterError>
  {
    if props == [] then Success(true)
    else
      match ObjectKeysOf(item)
      case Failure(e) => Failure(e)
      case Success(ks) => Success(!exists p :: p in props && p in ks)
  }

  /** `oaTags.filter(item => !filterProps.some(…))`. */
  function FilterTags(props: seq<string>, items: seq<Json>): (r: Result<seq<Json>, FilterError>)
    ensures r.Success? ==> forall x :: x in r.value ==> x in items
  {
    if items == [] then Success([])
    else
      match KeepTag(props, items[0])
      case Failure(e) => Failure(e)
      case Success(keep) =>
        match FilterTags(props, items[1..])
        case Failure(e) => Failure(e)
        case Success(rest) => Success((if keep then [items[0]] else []) + rest)
  }

  /** The update of rule 4, `None` when the rule does not apply. */
  function RootTagsUpdate(f: FilterSet, pos: FPos, node: Json): (r: Result<Option<Json>, FilterError>)
    ensures r.Success? && r.value.Some? ==> IsRootTags(pos, node) && r.value.value.Arr?
    ensures r.Success? && r.value.Some? ==> forall x :: x in r.value.value.items ==> x in node.items
  {
    if IsRootTags(pos, node) then
      match FilterTags(Props(f), node.items)
      case Failure(e) => Failure(e)
      case Success(kept) => Success(Some(Arr(kept)))
    else Success(None)
  }

  /** How the operations on the parent during a visit combine, in the order the
      walk performs them: the node's own `remove` (rule 1), the `update` of
      rule 4, then the requests of its children. In an object a key that was
      removed and then updated is assigned again, at the end; in an array an
      element that is removed is dropped and one that is deleted leaves a hole. */
  function FateOf(selfRemove: bool, updated: bool, out: Json, removeReq: bool, deleteReq: bool): Fate
  {
    if updated && !removeReq && !deleteReq then (if selfRemove then Readded(out) else Keep(out))
    else if selfRemove || removeReq then Removed
    else if deleteReq then Deleted
    else Keep(out)
  }

  /** The root-tags update keeps a subset of the elements, so it is no deeper. */
  lemma UpdateNoDeeper(node: Json, n': Json)
    requires n' == node || (node.Arr? && n'.Arr? && forall x :: x in n'.items ==> x in node.items)
    ensures Depth(n') <= Depth(node)
  {
    if n' != node && n'.items != [] {
      ChildrenAreShallower(node);
      var ds := seq(|n'.items|, i requires 0 <= i < |n'.items| => Depth(n'.items[i]));
      var i :| 0 <= i < |ds| && ds[i] == MaxOf(ds);
      assert n'.items[i] in n'.items;
      var j :| 0 <= j < |node.items| && node.items[j] == n'.items[i];
    }
  }

  // ---------------------------------------------------------------------------
  // Pass 1: the rules, in pre-order
  // ---------------------------------------------------------------------------

  /** Visit a node: apply its rules, then walk the children of the (possibly
      updated) node. A request from a child of the root fails, since the root
      has no parent. */
  function VisitNode(f: FilterSet, pos: FPos, node: Json): Result<Visit, FilterError>
    decreases Depth(node), 1
  {
    var req := OwnRequest(f, pos, node);
    if req != NoRequest && pos.FChild? && pos.parentIsRoot then Failure(RootHasNoParent)
    else
      match RootTagsUpdate(f, pos, node)
      case Failure(e) => Failure(e)
      case Success(upd) =>
        var n' := if upd.Some? then upd.value else node;
        if n'.Obj? then
          match VisitEntries(f, pos, n'.fields, 0)
          case Failure(e) => Failure(e)
          case Success(w) =>
            Success(Visit(FateOf(RemovesSelf(f, pos), upd.Some?, Obj(w.kept + w.readded), w.removeReq, w.deleteReq), req))
        else if n'.Arr? then
          (UpdateNoDeeper(node, n');
          match VisitItems(f, pos, n'.items, 0)
          case Failure(e) => Failure(e)
          case Success(w) =>
            Success(Visit(FateOf(RemovesSelf(f, pos), upd.Some?, Arr(w.items), w.removeReq, w.deleteReq), req)))
        else Success(Visit(FateOf(RemovesSelf(f, pos), upd.Some?, n', false, false), req))
  }

  /** The entries of an object from index `i` on, each visited in turn. */
  function VisitEntries(f: FilterSet, pos: FPos, fs: Fields, i: nat): Result<EntryWalk, FilterError>
    requires i <= |fs|
    decreases Depth(Obj(fs)), 0, |fs| - i
  {
    if i == |fs| then Success(EntryWalk([], [], false, false))
    else
      ChildrenAreShallower(Obj(fs));
      var k := fs[i].0;
      match VisitNode(f, FChild(k, pos.FRoot?), fs[i].1)
      case Failure(e) => Failure(e)
      case Success(v) =>
        match VisitEntries(f, pos, fs, i + 1)
        case Failure(e) => Failure(e)
        case Success(rest) =>
          Success(EntryWalk(
            (if v.fate.Keep? then [(k, v.fate.value)] else []) + rest.kept,
            (if v.fate.Readded? then [(k, v.fate.value)] else []) + rest.readded,
            v.request == RemoveParent || rest.removeReq,
            v.request == DeleteParent || rest.deleteReq))
  }

  /** The elements of an array from index `i` on, each visited in turn under
      the key `IndexKey(i)`. */
  function VisitItems(f: FilterSet, pos: FPos, items: seq<Json>, i: nat): Result<ItemWalk, FilterError>
    requires i <= |items|
    decreases Depth(Arr(items)), 0, |items| - i
  {
    if i == |items| then Success(ItemWalk([], false, false))
    else
      ChildrenAreShallower(Arr(items));
      match VisitNode(f, FChild(IndexKey(i), pos.FRoot?), items[i])
      case Failure(e) => Failure(e)
      case Success(v) =>
        match VisitItems(f, pos, items, i + 1)
        case Failure(e) => Failure(e)
        case Success(rest) =>
          var here := match v.fate
            case Keep(w) => [w]
            case Readded(w) => [w]
            case Removed => []
            case Deleted => [Null];
          Success(ItemWalk(here + rest.items,
            v.request == RemoveParent || rest.removeReq,
            v.request == DeleteParent || rest.deleteReq))
  }

  /** A child of the root never gets to ask anything of the root: it fails
      first. So the root itself is always kept. */
  lemma RootVisitKeeps(f: FilterSet, doc: Json)
    ensures var r := VisitNode(f, FRoot, doc);
      r.Success? ==> r.value.fate.Keep? && r.value.request == NoRequest
  {
    if doc.Obj? {
      RootEntriesAskNothing(f, doc.fields, 0);
    } else if doc.Arr? {
      RootItemsAskNothing(f, doc.items, 0);
    }
  }

  lemma {:induction false} RootEntriesAskNothing(f: FilterSet, fs: Fields, i: nat)
    requires i <= |fs|
    ensures var r := VisitEntries(f, FRoot, fs, i);
      r.Success? ==> !r.value.removeReq && !r.value.deleteReq
    decreases |fs| - i
  {
    if i < |fs| {
      RootEntriesAskNothing(f, fs, i + 1);
    }
  }

  lemma {:induction false} RootItemsAskNothing(f: FilterSet, items: seq<Json>, i: nat)
    requires i <= |items|
    ensures var r := VisitItems(f, FRoot, items, i);
      r.Success? ==> !r.value.removeReq && !r.value.deleteReq
    decreases |items| - i
  {
    if i < |items| {
      RootItemsAskNothing(f, items, i + 1);
    }
  }

  /** The first traverse pass of asyncapiFilter. */
  function FilterPass(f: FilterSet, doc: Json): Result<Json, FilterError>
  {
    RootVisitKeeps(f, doc);
    match VisitNode(f, FRoot, doc)
    case Failure(e) => Failure(e)
    case Success(v) => Success(v.fate.value)
  }

  // ---------------------------------------------------------------------------
  // Pass 2: clean-up
  // ---------------------------------------------------------------------------

  /** `node && Object.keys(node).length === 0 && node.constructor === Object`. */
  predicate IsEmptyObject(v: Json)
  {
    v == Obj([])
  }

  /** The clean-up walk below a node that is not itself deleted: an empty object
      entry is dropped, an empty object element leaves a hole, everything else
      is walked. Nothing is re-checked after its children are cleaned. */
  function CleanNode(v: Json): Json
    decreases v, 1
  {
    match v
    case Obj(fs) => Obj(CleanEntries(fs, 0))
    case Arr(items) => Arr(CleanItems(items, 0))
    case _ => v
  }

  /** The entries of `fs` from index `i` on, cleaned. */
  function CleanEntries(fs: Fields, i: nat): Fields
    requires i <= |fs|
    decreases Obj(fs), 0, |fs| - i
  {
    if i == |fs| then []
    else (if IsEmptyObject(fs[i].1) then [] else [(fs[i].0, CleanNode(fs[i].1))]) + CleanEntries(fs, i + 1)
  }

  /** The elements of `items` from index `i` on, cleaned. */
  function CleanItems(items: seq<Json>, i: nat): seq<Json>
    requires i <= |items|
    decreases Arr(items), 0, |items| - i
  {
    if i == |items| then []
    else [if IsEmptyObject(items[i]) then Null else CleanNode(items[i])] + CleanItems(items, i + 1)
  }

  /** The clean-up pass; an empty root deletes itself and throws. */
  function Cleanup(doc: Json): Result<Json, FilterError>
  {
    if IsEmptyObject(doc) then Failure(RootHasNoParent) else Success(CleanNode(doc))
  }

  /** asyncapiFilter(oaObj, options); the deep copy is the identity on values. */
  function AsyncapiFilter(f: FilterSet, doc: Json): Result<Json, FilterError>
  {
    match FilterPass(f, doc)
    case Failure(e) => Failure(e)
    case Success(d) => Cleanup(d)
  }
}
