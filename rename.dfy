/** asyncapiRename: replace the title of the document. */
module Rename {
  import opened Wrappers
  import opened JsonTree

  /** `jsonObj.info` on a `null` document throws. */
  datatype RenameError = InfoOfNull

  /** The entries of `fs` with the value at key `k` replaced by `v`, in place. */
  function SetEntry(fs: Fields, k: string, v: Json): (r: Fields)
    ensures Keys(r) == Keys(fs)
  {
    seq(|fs|, i requires 0 <= i < |fs| => if fs[i].0 == k then (k, v) else fs[i])
  }

  /** `jsonObj.info && jsonObj.info.title && options.rename && options.rename !== ""`. */
  predicate RenameApplies(rename: Option<string>, doc: Json)
  {
    && rename.Some? && rename.value != ""
    && doc.Obj? && Truthy(Get(doc.fields, "info"))
    && Lookup(doc.fields, "info").Obj?
    && Truthy(Get(Lookup(doc.fields, "info").fields, "title"))
  }

  /** `info.title` of a document, when the document has one. */
  function Title(doc: Json): (t: Option<Json>)
    ensures t.Some? ==> doc.Obj? && "info" in Keys(doc.fields) && Lookup(doc.fields, "info").Obj?
  {
    if doc.Obj? && "info" in Keys(doc.fields) && Lookup(doc.fields, "info").Obj? then
      Get(Lookup(doc.fields, "info").fields, "title")
    else None
  }

  /** asyncapiRename(oaObj, options); the deep copy is the identity on values. */
  function AsyncapiRename(rename: Option<string>, doc: Json): Result<Json, RenameError>
  {
    if doc == Null then Failure(InfoOfNull)
    else if RenameApplies(rename, doc) then
      var info := Lookup(doc.fields, "info");
      Success(Obj(SetEntry(doc.fields, "info", Obj(SetEntry(info.fields, "title", Str(rename.value))))))
    else Success(doc)
  }

  /** Looking a key up after `SetEntry` finds the new value at that key and the
      old value everywhere else. */
  lemma LookupSetEntry(fs: Fields, k: string, v: Json, q: string)
    requires Distinct(Keys(fs)) && q in Keys(fs)
    ensures Lookup(SetEntry(fs, k, v), q) == if q == k then v else Lookup(fs, q)
  {
    var r := SetEntry(fs, k, v);
    var i := KeyIndex(fs, q);
    LookupOfEntry(fs, i);
    LookupOfEntry(r, i);
  }

  /** When it applies, the rename puts the new name in `info.title` and leaves
      every other key of the document and of `info` as it was, in the same order. */
  lemma RenameSetsTitle(rename: Option<string>, doc: Json)
    requires WellFormed(doc) && doc != Null && RenameApplies(rename, doc)
    ensures var r := AsyncapiRename(rename, doc).value;
      && r.Obj? && Keys(r.fields) == Keys(doc.fields)
      && (forall k :: k in Keys(doc.fields) && k != "info" ==> Lookup(r.fields, k) == Lookup(doc.fields, k))
      && var info := Lookup(doc.fields, "info").fields;
         var info' := Lookup(r.fields, "info");
         && info'.Obj? && Keys(info'.fields) == Keys(info)
         && Lookup(info'.fields, "title") == Str(rename.value)
         && (forall k :: k in Keys(info) && k != "title" ==> Lookup(info'.fields, k) == Lookup(info, k))
  {
    var info := Lookup(doc.fields, "info");
    assert WellFormed(info) by {
      LookupOfEntry(doc.fields, KeyIndex(doc.fields, "info"));
    }
    var newInfo := Obj(SetEntry(info.fields, "title", Str(rename.value)));
    LookupSetEntry(doc.fields, "info", newInfo, "info");
    forall k | k in Keys(doc.fields) && k != "info" ensures Lookup(SetEntry(doc.fields, "info", newInfo), k) == Lookup(doc.fields, k) {
      LookupSetEntry(doc.fields, "info", newInfo, k);
    }
    LookupSetEntry(info.fields, "title", Str(rename.value), "title");
    forall k | k in Keys(info.fields) && k != "title"
      ensures Lookup(SetEntry(info.fields, "title", Str(rename.value)), k) == Lookup(info.fields, k)
    {
      LookupSetEntry(info.fields, "title", Str(rename.value), k);
    }
  }

  /** Setting a key to the value it already has changes nothing. */
  lemma SetEntrySame(fs: Fields, k: string, v: Json)
    requires Distinct(Keys(fs)) && k in Keys(fs) && Lookup(fs, k) == v
    ensures SetEntry(fs, k, v) == fs
  {
    var r := SetEntry(fs, k, v);
    forall i | 0 <= i < |r| ensures r[i] == fs[i] {
      if fs[i].0 == k {
        LookupOfEntry(fs, i);
      }
    }
  }

  /** The renamed document keeps distinct keys. */
  lemma RenameKeepsWellFormed(rename: Option<string>, doc: Json)
    requires WellFormed(doc)
    ensures AsyncapiRename(rename, doc).Success? ==> WellFormed(AsyncapiRename(rename, doc).value)
  {
    if RenameApplies(rename, doc) {
      var info := Lookup(doc.fields, "info");
      LookupOfEntry(doc.fields, KeyIndex(doc.fields, "info"));
      var newInfo := Obj(SetEntry(info.fields, "title", Str(rename.value)));
      assert WellFormed(newInfo);
      var r := SetEntry(doc.fields, "info", newInfo);
      assert forall i :: 0 <= i < |r| ==> WellFormed(r[i].1);
    }
  }

  /** The document comes back unchanged exactly when the rename does not apply
      or the title already is the new name; only a null document fails. */
  lemma RenameUnchanged(rename: Option<string>, doc: Json)
    requires WellFormed(doc)
    ensures AsyncapiRename(rename, doc).Failure? <==> doc == Null
    ensures doc != Null ==>
      (AsyncapiRename(rename, doc) == Success(doc) <==>
       !RenameApplies(rename, doc) || Lookup(Lookup(doc.fields, "info").fields, "title") == Str(rename.value))
  {
    if doc != Null && RenameApplies(rename, doc) {
      RenameSetsTitle(rename, doc);
      var info := Lookup(doc.fields, "info");
      if Lookup(info.fields, "title") == Str(rename.value) {
        LookupOfEntry(doc.fields, KeyIndex(doc.fields, "info"));
        SetEntrySame(info.fields, "title", Str(rename.value));
        SetEntrySame(doc.fields, "info", info);
      }
    }
  }

  /** Renaming twice with the same name is renaming once. */
  lemma RenameIdempotent(rename: Option<string>, doc: Json)
    requires WellFormed(doc) && doc != Null
    ensures AsyncapiRename(rename, AsyncapiRename(rename, doc).value) == AsyncapiRename(rename, doc)
  {
    if RenameApplies(rename, doc) {
      RenameSetsTitle(rename, doc);
      RenameKeepsWellFormed(rename, doc);
      var r := AsyncapiRename(rename, doc).value;
      var info' := Lookup(r.fields, "info");
      assert Get(r.fields, "info") == Some(info');
      assert Get(info'.fields, "title") == Some(Str(rename.value));
      RenameUnchanged(rename, r);
    }
  }
}
