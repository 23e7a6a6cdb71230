/** `this.parent.remove()` on an element of an array splices the array while
    the walk goes on over the keys it listed before the first element, and a
    later `this.parent.delete()` from the same element acts on whatever is
    then at its index. This module models that walk as written and sets it
    beside the index-stable removal that the filter model uses. */
module FilterFindings {
  import opened Wrappers
  import opened JsonTree
  import opened FilterWalk

  /** The calls one field of an array element makes on the element, in the
      order of the rules: `this.parent.delete()` from a `tags` array with a
      filter tag (rule 2), and `this.parent.remove()` once from its key and
      once from an `operationId` value (rule 3), which can both fire. */
  function FieldCalls(f: FilterSet, k: string, v: Json): (cs: seq<Request>)
    ensures NoRequest !in cs
    ensures forall r :: r != NoRequest ==> (r in cs <==> OwnRequest(f, FChild(k, false), v) == r)
  {
    if BlockedTags(f, FChild(k, false), v) then [DeleteParent]
    else if !IsScalar(v) || Props(f) == [] then []
    else
      (if k in Props(f) then [RemoveParent] else [])
      + (if k == "operationId" && v.Str? && v.s in Props(f) then [RemoveParent] else [])
  }

  /** The calls the fields of an element make, field after field. */
  function FieldsCalls(f: FilterSet, fs: Fields): (cs: seq<Request>)
    ensures NoRequest !in cs
    ensures forall r :: r != NoRequest ==>
      (r in cs <==> exists j :: 0 <= j < |fs| && OwnRequest(f, FChild(fs[j].0, false), fs[j].1) == r)
  {
    if fs == [] then []
    else
      var rest := FieldsCalls(f, fs[1..]);
      assert forall j :: 1 <= j < |fs| ==> fs[j] == fs[1..][j - 1];
      FieldCalls(f, fs[0].0, fs[0].1) + rest
  }

  /** The calls an array element makes on its array: it asks for a removal or
      a deletion exactly when, in the filter model, one of its fields does. */
  function ElementCalls(f: FilterSet, x: Json): (cs: seq<Request>)
    ensures NoRequest !in cs
    ensures !x.Obj? ==> cs == []
    ensures x.Obj? ==> forall r :: r != NoRequest ==>
      (r in cs <==> exists j :: 0 <= j < |x.fields| && OwnRequest(f, FChild(x.fields[j].0, false), x.fields[j].1) == r)
  {
    if x.Obj? then FieldsCalls(f, x.fields) else []
  }

  /** The calls of the element visited at index `i`, applied one after the
      other at that index: `remove` splices out whatever is there now and
      `delete` leaves a hole there; past the end neither does anything. */
  function ApplyCalls(arr: seq<Json>, i: nat, cs: seq<Request>): seq<Json>
    decreases |cs|
  {
    if cs == [] || i >= |arr| then arr
    else
      var next := match cs[0]
        case RemoveParent => arr[..i] + arr[i + 1..]
        case DeleteParent => arr[i := Null]
        case NoRequest => arr;
      ApplyCalls(next, i, cs[1..])
  }

  /** The array walk as written, from key `i` to the last of the `n` keys
      listed up front: the calls of each element act on the array as it is
      now, so after a splice the next element moves under the key being
      visited, and a key past the end visits nothing. */
  function SpliceWalk(f: FilterSet, arr: seq<Json>, i: nat, n: nat): seq<Json>
    decreases n - i
  {
    if i >= n then arr
    else if i < |arr| then SpliceWalk(f, ApplyCalls(arr, i, ElementCalls(f, arr[i])), i + 1, n)
    else SpliceWalk(f, arr, i + 1, n)
  }

  function SpliceWalkAsWritten(f: FilterSet, arr: seq<Json>): seq<Json>
  {
    SpliceWalk(f, arr, 0, |arr|)
  }

  const Internal: Json := Obj([("x-internal", Bool(true))])
  const Clean: Json := Obj([("name", Str("user"))])
  const BothFlags: Json := Obj([("x-a", Bool(true)), ("x-b", Bool(true))])
  const FlaggedAndTagged: Json := Obj([("x-a", Bool(true)), ("tags", Arr([Str("t")]))])

  /** Two flagged elements next to each other: the first is spliced out, the
      second moves under the key just visited and is never looked at. */
  lemma AdjacentFlaggedElementSurvives()
    ensures SpliceWalkAsWritten(FilterSet([], [], [], ["x-internal"]), [Internal, Internal]) == [Internal]
  {
    var f := FilterSet([], [], [], ["x-internal"]);
    assert FieldsCalls(f, Internal.fields[1..]) == [];
    assert ElementCalls(f, Internal) == [RemoveParent];
    var a := [Internal, Internal];
    assert a[..0] + a[1..] == [Internal];
    assert ApplyCalls(a, 0, [RemoveParent]) == [Internal];
    assert SpliceWalk(f, [Internal], 1, 2) == [Internal];
  }

  /** An element with two flagged fields splices twice, and the second splice
      takes out the element after it, which matches no rule. */
  lemma DoublyFlaggedElementTakesNeighbour()
    ensures SpliceWalkAsWritten(FilterSet([], [], [], ["x-a", "x-b"]), [BothFlags, Clean]) == []
  {
    var f := FilterSet([], [], [], ["x-a", "x-b"]);
    assert FieldsCalls(f, BothFlags.fields[1..][1..]) == [];
    assert FieldsCalls(f, BothFlags.fields[1..]) == [RemoveParent];
    assert ElementCalls(f, BothFlags) == [RemoveParent, RemoveParent];
    var a := [BothFlags, Clean];
    assert a[..0] + a[1..] == [Clean];
    assert ApplyCalls([Clean], 0, [RemoveParent]) == [];
    assert ApplyCalls(a, 0, [RemoveParent, RemoveParent]) == [];
    assert SpliceWalk(f, [], 1, 2) == [];
  }

  /** An element with a flagged field and a blocked `tags` field: the flag
      splices it out, and the `delete` of rule 2 then lands on the element
      that moved under its index, leaving only a hole. */
  lemma FlaggedAndTaggedElementLeavesHole()
    ensures SpliceWalkAsWritten(FilterSet([], ["t"], [], ["x-a"]), [FlaggedAndTagged, Clean]) == [Null]
  {
    var h := FilterSet([], ["t"], [], ["x-a"]);
    assert FieldCalls(h, "tags", Arr([Str("t")])) == [DeleteParent] by {
      assert BlockedTags(h, FChild("tags", false), Arr([Str("t")])) by {
        assert "t" in h.tags && Str("t") in [Str("t")];
      }
    }
    assert FieldsCalls(h, FlaggedAndTagged.fields[1..][1..]) == [];
    assert FieldsCalls(h, FlaggedAndTagged.fields[1..]) == [DeleteParent];
    assert ElementCalls(h, FlaggedAndTagged) == [RemoveParent, DeleteParent];
    var a := [FlaggedAndTagged, Clean];
    assert a[..0] + a[1..] == [Clean];
    assert ApplyCalls([Clean], 0, [DeleteParent]) == [Null];
    assert ApplyCalls(a, 0, [RemoveParent, DeleteParent]) == [Null];
    assert SpliceWalk(h, [Null], 1, 2) == [Null];
  }

  /** The filter model removes the element with one flagged field, under any key. */
  lemma InternalIsRemoved(key: string)
    ensures VisitNode(FilterSet([], [], [], ["x-internal"]), FChild(key, false), Internal) == Success(Visit(Removed, NoRequest))
  {
    var f := FilterSet([], [], [], ["x-internal"]);
    var e: Fields := [("x-internal", Bool(true))];
    var none: Fields := [];
    assert e + none == e && none + none == none;
    assert Internal.fields == e;
    assert VisitEntries(f, FChild(key, false), e, 1) == Success(EntryWalk([], [], false, false));
    assert VisitNode(f, FChild("x-internal", false), Bool(true)) == Success(Visit(Keep(Bool(true)), RemoveParent));
    assert VisitEntries(f, FChild(key, false), e, 0) == Success(EntryWalk(e, [], true, false));
  }

  /** The filter model removes the element with two flagged fields, once. */
  lemma BothFlagsIsRemoved(key: string)
    ensures VisitNode(FilterSet([], [], [], ["x-a", "x-b"]), FChild(key, false), BothFlags) == Success(Visit(Removed, NoRequest))
  {
    var g := FilterSet([], [], [], ["x-a", "x-b"]);
    var eb: Fields := [("x-b", Bool(true))];
    var none: Fields := [];
    assert eb + none == eb && none + none == none;
    assert [("x-a", Bool(true))] + eb == BothFlags.fields;
    assert VisitNode(g, FChild("x-a", false), Bool(true)) == Success(Visit(Keep(Bool(true)), RemoveParent));
    assert VisitNode(g, FChild("x-b", false), Bool(true)) == Success(Visit(Keep(Bool(true)), RemoveParent));
    assert VisitEntries(g, FChild(key, false), BothFlags.fields, 2) == Success(EntryWalk([], [], false, false));
    assert VisitEntries(g, FChild(key, false), BothFlags.fields, 1) == Success(EntryWalk(eb, [], true, false));
    assert VisitEntries(g, FChild(key, false), BothFlags.fields, 0) == Success(EntryWalk(BothFlags.fields, [], true, false));
  }

  /** The filter model keeps the element that matches no rule, unchanged. */
  lemma CleanIsKept(g: FilterSet, key: string)
    requires g.operations == [] && "name" !in Props(g)
    ensures VisitNode(g, FChild(key, false), Clean) == Success(Visit(Keep(Clean), NoRequest))
  {
    var en: Fields := [("name", Str("user"))];
    var none: Fields := [];
    assert en + none == en && none + none == none;
    assert Clean.fields == en;
    assert VisitNode(g, FChild("name", false), Str("user")) == Success(Visit(Keep(Str("user")), NoRequest));
    assert VisitEntries(g, FChild(key, false), en, 1) == Success(EntryWalk([], [], false, false));
    assert VisitEntries(g, FChild(key, false), en, 0) == Success(EntryWalk(en, [], false, false));
  }

  /** The walk the filter model uses, on the first array: both flagged
      elements go. */
  lemma IndexStableWalkDropsBoth()
    ensures VisitItems(FilterSet([], [], [], ["x-internal"]), FChild("messages", false), [Internal, Internal], 0)
      == Success(ItemWalk([], false, false))
  {
    var f := FilterSet([], [], [], ["x-internal"]);
    var pos := FChild("messages", false);
    InternalIsRemoved(IndexKey(0));
    InternalIsRemoved(IndexKey(1));
    var a := [Internal, Internal];
    assert VisitItems(f, pos, a, 2) == Success(ItemWalk([], false, false));
    assert VisitItems(f, pos, a, 1) == Success(ItemWalk([], false, false));
  }

  /** The walk the filter model uses, on the second array: the flagged element
      goes and its neighbour stays. */
  lemma IndexStableWalkKeepsNeighbour()
    ensures VisitItems(FilterSet([], [], [], ["x-a", "x-b"]), FChild("messages", false), [BothFlags, Clean], 0)
      == Success(ItemWalk([Clean], false, false))
  {
    var g := FilterSet([], [], [], ["x-a", "x-b"]);
    BothFlagsIsRemoved(IndexKey(0));
    CleanIsKept(g, IndexKey(1));
    RemovedThenKept(g, FChild("messages", false), BothFlags, Clean);
  }

  /** A two-element array whose first element the walk removes and whose second
      it keeps unchanged comes out as the second element alone. */
  lemma RemovedThenKept(f: FilterSet, pos: FPos, x: Json, y: Json)
    requires VisitNode(f, FChild(IndexKey(0), pos.FRoot?), x) == Success(Visit(Removed, NoRequest))
    requires VisitNode(f, FChild(IndexKey(1), pos.FRoot?), y) == Success(Visit(Keep(y), NoRequest))
    ensures VisitItems(f, pos, [x, y], 0) == Success(ItemWalk([y], false, false))
  {
    var a := [x, y];
    var none: seq<Json> := [];
    assert [y] + none == [y] && none + [y] == [y];
    assert VisitItems(f, pos, a, 2) == Success(ItemWalk([], false, false));
    assert VisitItems(f, pos, a, 1) == Success(ItemWalk([y], false, false));
  }

  /** The filter model removes the element with a flagged field and a blocked
      `tags` field, once. */
  lemma FlaggedAndTaggedIsRemoved(key: string)
    ensures VisitNode(FilterSet([], ["t"], [], ["x-a"]), FChild(key, false), FlaggedAndTagged) == Success(Visit(Removed, NoRequest))
  {
    var h := FilterSet([], ["t"], [], ["x-a"]);
    var tags := Arr([Str("t")]);
    var et: Fields := [("tags", tags)];
    var none: Fields := [];
    assert et + none == et && none + none == none;
    assert [("x-a", Bool(true))] + et == FlaggedAndTagged.fields;
    BlockedTagsAskDelete();
    assert VisitNode(h, FChild("x-a", false), Bool(true)) == Success(Visit(Keep(Bool(true)), RemoveParent));
    assert VisitEntries(h, FChild(key, false), FlaggedAndTagged.fields, 2) == Success(EntryWalk([], [], false, false));
    assert VisitEntries(h, FChild(key, false), FlaggedAndTagged.fields, 1) == Success(EntryWalk(et, [], false, true));
    assert VisitEntries(h, FChild(key, false), FlaggedAndTagged.fields, 0)
      == Success(EntryWalk(FlaggedAndTagged.fields, [], true, true));
  }

  /** A `tags` list holding a blocked tag is kept unchanged and asks for its
      parent's deletion. */
  lemma BlockedTagsAskDelete()
    ensures VisitNode(FilterSet([], ["t"], [], ["x-a"]), FChild("tags", false), Arr([Str("t")]))
      == Success(Visit(Keep(Arr([Str("t")])), DeleteParent))
  {
    var h := FilterSet([], ["t"], [], ["x-a"]);
    var tags := Arr([Str("t")]);
    var noItems: seq<Json> := [];
    assert [Str("t")] + noItems == [Str("t")];
    assert IndexKey(0) == "0";
    assert VisitNode(h, FChild("0", false), Str("t")) == Success(Visit(Keep(Str("t")), NoRequest));
    assert VisitItems(h, FChild("tags", false), [Str("t")], 1) == Success(ItemWalk([], false, false));
    assert VisitItems(h, FChild("tags", false), [Str("t")], 0) == Success(ItemWalk([Str("t")], false, false));
    assert BlockedTags(h, FChild("tags", false), tags) by {
      assert "t" in h.tags && Str("t") in tags.items;
    }
  }

  /** The walk the filter model uses, on the third array: the element with
      the flag and the blocked tags goes and its neighbour stays. */
  lemma IndexStableWalkRemovesTaggedElement()
    ensures VisitItems(FilterSet([], ["t"], [], ["x-a"]), FChild("messages", false), [FlaggedAndTagged, Clean], 0)
      == Success(ItemWalk([Clean], false, false))
  {
    var h := FilterSet([], ["t"], [], ["x-a"]);
    FlaggedAndTaggedIsRemoved(IndexKey(0));
    CleanIsKept(h, IndexKey(1));
    RemovedThenKept(h, FChild("messages", false), FlaggedAndTagged, Clean);
  }
}
