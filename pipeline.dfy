/** The command line's pipeline: filter when a filter set is given, then sort
    when sorting is on, then rename when a new title is given. */
module Pipeline {
  import opened Wrappers
  import opened JsonTree
  import opened SortWalk
  import opened FilterWalk
  import opened FilterLaws
  import opened Rename

  datatype FormatError =
    | FilterFailed(cause: FilterError)
    | AsyncapiOfNull                  // `jsonObj.asyncapi` on a null document
    | RenameFailed(reason: RenameError)

  /** The options the pipeline reads, after the option files are loaded:
      `filterSet` is the filter set merged over the defaults, `sort` is
      `options.sort === true`, and `sortSet` is the sort set asyncapiSort uses. */
  datatype Options = Options(filterSet: Option<FilterSet>, sort: bool, sortSet: SortSet, rename: Option<string>)

  /** `if (options.rename)`: an empty name is falsy. */
  predicate RenameRequested(opts: Options)
  {
    opts.rename.Some? && opts.rename.value != ""
  }

  /** The document after the filter step, with distinct keys. */
  function FilterStep(opts: Options, doc: Json): (r: Result<Json, FormatError>)
    requires WellFormed(doc)
    ensures r.Success? ==> WellFormed(r.value)
    ensures opts.filterSet.None? ==> r == Success(doc)
  {
    if opts.filterSet.None? then Success(doc)
    else
      AsyncapiFilterSpec(opts.filterSet.value, doc);
      match AsyncapiFilter(opts.filterSet.value, doc)
      case Failure(e) => Failure(FilterFailed(e))
      case Success(x) => Success(x)
  }

  /** The documents the sort step takes without a JavaScript coercion. */
  predicate SortStepApplies(opts: Options, doc: Json)
    requires WellFormed(doc)
  {
    opts.sort && FilterStep(opts, doc).Success? && FilterStep(opts, doc).value != Null ==>
      SortableAt(opts.sortSet, Root, FilterStep(opts, doc).value)
  }

  /** The command line's pipeline on a parsed document. */
  function Format(opts: Options, doc: Json): (r: Result<Json, FormatError>)
    requires WellFormed(doc) && SortStepApplies(opts, doc)
    ensures r.Success? ==> WellFormed(r.value)
  {
    match FilterStep(opts, doc)
    case Failure(e) => Failure(e)
    case Success(filtered) =>
      if opts.sort && filtered == Null then Failure(AsyncapiOfNull)
      else
        var sorted := if opts.sort then AsyncapiSort(SortOptions(false, opts.sortSet), filtered) else filtered;
        if !RenameRequested(opts) then Success(sorted)
        else
          RenameKeepsWellFormed(opts.rename, sorted);
          match AsyncapiRename(opts.rename, sorted)
          case Failure(e) => Failure(RenameFailed(e))
          case Success(x) => Success(x)
  }

  // ---------------------------------------------------------------------------
  // Laws
  // ---------------------------------------------------------------------------

  lemma {:induction false} ItemsPrunedPointwise(ys: seq<Json>, xs: seq<Json>)
    requires |ys| == |xs| && forall i :: 0 <= i < |ys| ==> PrunedUpToKeyOrder(ys[i], xs[i])
    ensures ItemsPrunedWith(ys, xs, false)
    decreases |ys|
  {
    if ys != [] {
      ItemsPrunedPointwise(ys[1..], xs[1..]);
    }
  }

  /** A reordering of a document is, in particular, a pruning of it up to key
      order that deletes nothing. */
  lemma {:induction false} ReorderedIsPruned(a: Json, b: Json)
    requires WellFormed(a) && SameUpToKeyOrder(a, b)
    ensures PrunedUpToKeyOrder(a, b)
    decreases a
  {
    match a
    case Obj(fa) =>
      forall j | 0 <= j < |fa| ensures PrunedUpToKeyOrder(fa[j].1, Lookup(b.fields, fa[j].0)) {
        ReorderedIsPruned(fa[j].1, Lookup(b.fields, fa[j].0));
      }
    case Arr(ia) =>
      forall j | 0 <= j < |ia| ensures PrunedUpToKeyOrder(ia[j], b.items[j]) {
        ReorderedIsPruned(ia[j], b.items[j]);
      }
      ItemsPrunedPointwise(ia, b.items);
    case _ =>
  }

  /** Without a rename the pipeline only deletes: every key and element of the
      output comes from the input, up to key order and holes. */
  lemma FormatOnlyDeletes(opts: Options, doc: Json)
    requires WellFormed(doc) && SortStepApplies(opts, doc) && !RenameRequested(opts)
    ensures Format(opts, doc).Success? ==> PrunedUpToKeyOrder(Format(opts, doc).value, doc)
  {
    if Format(opts, doc).Success? {
      var filtered := FilterStep(opts, doc).value;
      assert PrunedUpToKeyOrder(filtered, doc) by {
        if opts.filterSet.Some? {
          AsyncapiFilterSpec(opts.filterSet.value, doc);
          RootPrunedIsPrunedUpToKeyOrder(filtered, doc);
        } else {
          ReorderedIsPruned(doc, doc) by { SameUpToKeyOrderReflexive(doc); }
        }
      }
      if opts.sort {
        var sorted := AsyncapiSort(SortOptions(false, opts.sortSet), filtered);
        ReorderedIsPruned(sorted, filtered);
        PrunedTransitive(sorted, filtered, doc, false);
      }
    }
  }

  /** Without a filter set, sorting or a rename the pipeline hands the
      document back. */
  lemma FormatWithoutOptions(sortSet: SortSet, doc: Json)
    requires WellFormed(doc)
    ensures Format(Options(None, false, sortSet, None), doc) == Success(doc)
  {
  }

  /** The sort step never fails on a document the filter left; it fails only
      on a null document, and the rename step fails on nothing that got that far. */
  lemma FormatFailures(opts: Options, doc: Json)
    requires WellFormed(doc) && SortStepApplies(opts, doc)
    ensures Format(opts, doc).Failure? <==>
      FilterStep(opts, doc).Failure? || (opts.sort && FilterStep(opts, doc).value == Null)
      || (RenameRequested(opts) && FilterStep(opts, doc).value == Null)
  {
    var fr := FilterStep(opts, doc);
    if fr.Success? && !(opts.sort && fr.value == Null) && RenameRequested(opts) {
      var sorted := if opts.sort then AsyncapiSort(SortOptions(false, opts.sortSet), fr.value) else fr.value;
      assert sorted == Null <==> fr.value == Null by {
        if opts.sort {
          assert SameUpToKeyOrder(sorted, fr.value);
        }
      }
      RenameUnchanged(opts.rename, sorted);
    }
  }

  /** With a rename, the output carries the new title whenever the document
      has a truthy `info.title` after the first two steps. */
  lemma FormatRenames(opts: Options, doc: Json)
    requires WellFormed(doc) && SortStepApplies(opts, doc) && RenameRequested(opts)
    requires Format(opts, doc).Success?
    ensures var before := if opts.sort then AsyncapiSort(SortOptions(false, opts.sortSet), FilterStep(opts, doc).value)
                          else FilterStep(opts, doc).value;
      RenameApplies(opts.rename, before) ==> Title(Format(opts, doc).value) == Some(Str(opts.rename.value))
  {
    var filtered := FilterStep(opts, doc).value;
    var before := if opts.sort then AsyncapiSort(SortOptions(false, opts.sortSet), filtered) else filtered;
    if RenameApplies(opts.rename, before) {
      RenameSetsTitle(opts.rename, before);
    }
  }
}
