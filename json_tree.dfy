/** The document tree the formatter works on: a parsed JSON/YAML value whose
    object key order is part of the output. */
module JsonTree {
  import opened Wrappers

  /** A JSON value. An object is the sequence of its entries in key order; a JSON
      number is only ever compared with zero and for equality, so a real stands for it. */
  datatype Json =
    | Null
    | Bool(b: bool)
    | Num(n: real)
    | Str(s: string)
    | Arr(items: seq<Json>)
    | Obj(fields: seq<(string, Json)>)

  type Fields = seq<(string, Json)>

  /** `Object.keys` of an object: its keys in order. */
  function Keys(fs: Fields): (ks: seq<string>)
  {
    seq(|fs|, i requires 0 <= i < |fs| => fs[i].0)
  }

  predicate Distinct(ks: seq<string>)
  {
    forall i, j :: 0 <= i < j < |ks| ==> ks[i] != ks[j]
  }

  /** The position of key `k` in `fs` (the first, should there be several). */
  function KeyIndex(fs: Fields, k: string): (i: nat)
    requires k in Keys(fs)
    ensures i < |fs| && fs[i].0 == k
    ensures forall j :: 0 <= j < i ==> fs[j].0 != k
  {
    if fs[0].0 == k then 0
    else
      assert k in Keys(fs[1..]) by {
        var j :| 0 <= j < |fs| && fs[j].0 == k;
        assert Keys(fs[1..])[j - 1] == k;
      }
      KeyIndex(fs[1..], k) + 1
  }

  /** `object[k]` for a key the object has. */
  function Lookup(fs: Fields, k: string): Json
    requires k in Keys(fs)
  {
    fs[KeyIndex(fs, k)].1
  }

  /** In an object with distinct keys, looking up the key of an entry finds that entry. */
  lemma LookupOfEntry(fs: Fields, i: nat)
    requires Distinct(Keys(fs)) && i < |fs|
    ensures fs[i].0 in Keys(fs) && KeyIndex(fs, fs[i].0) == i && Lookup(fs, fs[i].0) == fs[i].1
  {
    assert Keys(fs)[i] == fs[i].0;
    var j := KeyIndex(fs, fs[i].0);
    assert Keys(fs)[j] == fs[i].0;
  }

  /** The keys of two entry lists put together are the keys of the first,
      then those of the second. */
  lemma KeysOfAppend(a: Fields, b: Fields)
    ensures Keys(a + b) == Keys(a) + Keys(b)
  {
  }

  /** `KeyIndex` is the first position that holds the key. */
  lemma KeyIndexIsFirst(fs: Fields, k: string, i: nat)
    requires i < |fs| && fs[i].0 == k && forall j :: 0 <= j < i ==> fs[j].0 != k
    ensures k in Keys(fs) && KeyIndex(fs, k) == i
  {
    assert Keys(fs)[i] == k;
  }

  /** Entries put after an object do not change what its keys look up. */
  lemma LookupInPrefix(a: Fields, b: Fields, k: string)
    requires k in Keys(a)
    ensures k in Keys(a + b) && Lookup(a + b, k) == Lookup(a, k)
  {
    var m := KeyIndex(a, k);
    KeyIndexIsFirst(a + b, k, m);
  }

  /** Entries put before an object, none with key `k`, do not change what `k`
      looks up. */
  lemma LookupPastPrefix(a: Fields, b: Fields, k: string)
    requires k !in Keys(a) && k in Keys(b)
    ensures k in Keys(a + b) && Lookup(a + b, k) == Lookup(b, k)
  {
    var m := KeyIndex(b, k);
    forall j | 0 <= j < |a| ensures a[j].0 != k {
      assert Keys(a)[j] == a[j].0;
    }
    KeyIndexIsFirst(a + b, k, |a| + m);
  }

  /** A key is in `Keys(fs)` exactly when some entry has it. */
  lemma KeysMembership(fs: Fields)
    ensures forall k :: k in Keys(fs) <==> exists e :: e in fs && e.0 == k
  {
    forall k | k in Keys(fs) ensures exists e :: e in fs && e.0 == k {
      var m :| 0 <= m < |fs| && Keys(fs)[m] == k;
      assert fs[m] in fs;
    }
    forall k | exists e :: e in fs && e.0 == k ensures k in Keys(fs) {
      var e :| e in fs && e.0 == k;
      var m :| 0 <= m < |fs| && fs[m] == e;
      assert Keys(fs)[m] == k;
    }
  }

  /** `object[k]`, with `None` for `undefined`. */
  function Get(fs: Fields, k: string): Option<Json>
  {
    if k in Keys(fs) then Some(Lookup(fs, k)) else None
  }

  /** Every object in the tree has distinct keys, as a parsed document does. */
  predicate WellFormed(j: Json)
    decreases j
  {
    match j
    case Arr(items) => forall i :: 0 <= i < |items| ==> WellFormed(items[i])
    case Obj(fs) => Distinct(Keys(fs)) && forall i :: 0 <= i < |fs| ==> WellFormed(fs[i].1)
    case _ => true
  }

  /** JavaScript truthiness of a property value (`None` is `undefined`). */
  predicate Truthy(v: Option<Json>)
  {
    match v
    case None => false
    case Some(Null) => false
    case Some(Bool(b)) => b
    case Some(Num(n)) => n != 0.0
    case Some(Str(s)) => s != []
    case Some(_) => true
  }

  /** Values of type 'object' that are not null, into which a walk descends. */
  predicate IsContainer(j: Json)
  {
    j.Arr? || j.Obj?
  }

  /** Values for which `typeof` is neither 'object' nor an array: strings, numbers
      and booleans. */
  predicate IsScalar(j: Json)
  {
    j.Bool? || j.Num? || j.Str?
  }

  function Digit(d: nat): char
    requires d < 10
  {
    "0123456789"[d]
  }

  /** The key under which a walk visits array element `i`: its index written in
      decimal, as `Object.keys` returns it. */
  function IndexKey(i: nat): (s: string)
    decreases i
  {
    if i < 10 then [Digit(i)] else IndexKey(i / 10) + [Digit(i % 10)]
  }

  predicate AllDigits(s: string)
  {
    forall c :: c in s ==> '0' <= c <= '9'
  }

  lemma {:induction false} IndexKeyIsDecimal(i: nat)
    ensures |IndexKey(i)| > 0 && AllDigits(IndexKey(i))
    decreases i
  {
    if i >= 10 {
      IndexKeyIsDecimal(i / 10);
    }
  }

  /** `Object.keys` of an array or string of length `n`. */
  function IndexKeys(n: nat): (ks: seq<string>)
  {
    seq(n, i requires 0 <= i < n => IndexKey(i))
  }

  function MaxOf(s: seq<nat>): (m: nat)
    ensures forall i :: 0 <= i < |s| ==> s[i] <= m
    ensures s != [] ==> exists i :: 0 <= i < |s| && s[i] == m
  {
    if s == [] then 0
    else
      var rest := MaxOf(s[1..]);
      assert forall i :: 1 <= i < |s| ==> s[i] == s[1..][i - 1];
      if s[0] >= rest then s[0] else rest
  }

  /** Nesting depth of a value; the measure that the walks decrease. */
  function Depth(j: Json): nat
    decreases j
  {
    match j
    case Arr(items) => 1 + MaxOf(seq(|items|, i requires 0 <= i < |items| => Depth(items[i])))
    case Obj(fs) => 1 + MaxOf(seq(|fs|, i requires 0 <= i < |fs| => Depth(fs[i].1)))
    case _ => 0
  }

  lemma ChildrenAreShallower(j: Json)
    ensures j.Arr? ==> forall i :: 0 <= i < |j.items| ==> Depth(j.items[i]) < Depth(j)
    ensures j.Obj? ==> forall i :: 0 <= i < |j.fields| ==> Depth(j.fields[i].1) < Depth(j)
  {
    if j.Arr? {
      var ds := seq(|j.items|, i requires 0 <= i < |j.items| => Depth(j.items[i]));
      forall i | 0 <= i < |j.items| ensures Depth(j.items[i]) < Depth(j) {
        assert ds[i] == Depth(j.items[i]);
      }
    }
    if j.Obj? {
      var ds := seq(|j.fields|, i requires 0 <= i < |j.fields| => Depth(j.fields[i].1));
      forall i | 0 <= i < |j.fields| ensures Depth(j.fields[i].1) < Depth(j) {
        assert ds[i] == Depth(j.fields[i].1);
      }
    }
  }

  /** An object whose every value is a value of `fs` is no deeper than `Obj(fs)`. */
  lemma ValuesBoundDepth(fs: Fields, gs: Fields)
    requires forall i :: 0 <= i < |gs| ==> gs[i] in fs
    ensures Depth(Obj(gs)) <= Depth(Obj(fs))
  {
    var dg := seq(|gs|, i requires 0 <= i < |gs| => Depth(gs[i].1));
    var df := seq(|fs|, i requires 0 <= i < |fs| => Depth(fs[i].1));
    if gs != [] {
      var m := MaxOf(dg);
      var i :| 0 <= i < |gs| && dg[i] == m;
      var j :| 0 <= j < |fs| && fs[j] == gs[i];
      assert df[j] == m;
    }
  }

  /** The two values are equal up to the order of keys inside objects. */
  predicate SameUpToKeyOrder(a: Json, b: Json)
    decreases a
  {
    match a
    case Obj(fa) =>
      && b.Obj?
      && multiset(Keys(fa)) == multiset(Keys(b.fields))
      && forall i :: 0 <= i < |fa| ==> fa[i].0 in Keys(b.fields) && SameUpToKeyOrder(fa[i].1, Lookup(b.fields, fa[i].0))
    case Arr(ia) =>
      && b.Arr?
      && |ia| == |b.items|
      && forall i :: 0 <= i < |ia| ==> SameUpToKeyOrder(ia[i], b.items[i])
    case _ => a == b
  }
}
