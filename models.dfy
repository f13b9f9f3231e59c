/**
 * The stored objects of the back end (models/parent_model.py and its
 * subclasses) as the storage engines see them, and the insertion-ordered
 * dictionary both engines keep them in.
 */
module StoreModels {
  import opened Wrappers

  /** The registered classes; every other class is registered as none of these. */
  datatype Kind = ParentModel | User | Submission | Generate

  /** `cls.__name__` */
  function ClassName(k: Kind): string {
    match k
    case ParentModel => "ParentModel"
    case User => "User"
    case Submission => "Submission"
    case Generate => "Generate"
  }

  /** `classes.get(name)`: the class registered under a name, if any. */
  function ClassNamed(name: string): (r: Option<Kind>)
    ensures r.Some? ==> ClassName(r.value) == name
  {
    if name == "ParentModel" then Some(ParentModel)
    else if name == "User" then Some(User)
    else if name == "Submission" then Some(Submission)
    else if name == "Generate" then Some(Generate)
    else None
  }

  /** Looking a class up by its own name finds it. */
  lemma ClassNamedOfName(k: Kind)
    ensures ClassNamed(ClassName(k)) == Some(k)
  {
    match k {
      case ParentModel =>
      case User => assert ClassName(k) != "ParentModel" by { assert |ClassName(k)| == 4; }
      case Submission =>
        assert |ClassName(k)| == 10;
      case Generate =>
        assert |ClassName(k)| == 8;
    }
  }

  /** An attribute value, compared with Python's `==`. */
  datatype Value = NoneValue | Text(s: string) | Number(n: int) | Items(elems: seq<Value>)

  /** A stored object: its class, its `id`, and its other instance attributes. */
  datatype Obj = Obj(kind: Kind, id: string, attrs: map<string, Value>)

  /** `isinstance(obj, cls)`: every class is a subclass of `ParentModel`. */
  predicate IsInstance(o: Obj, cls: Kind) {
    cls == ParentModel || o.kind == cls
  }

  /** The storage key `"<ClassName>.<id>"`. */
  function Key(k: Kind, id: string): string {
    ClassName(k) + "." + id
  }

  /** The class names are dot-free and pairwise different (they differ in length). */
  lemma ClassNameFacts(k: Kind)
    ensures '.' !in ClassName(k)
    ensures |ClassName(k)| == match k case ParentModel => 11 case User => 4 case Submission => 10 case Generate => 8
  {
  }

  /** Two dot-free names joined with a dot to a suffix split back the same way. */
  lemma DotSplit(a: string, x: string, b: string, y: string)
    requires '.' !in a && '.' !in b && a + "." + x == b + "." + y
    ensures a == b && x == y
  {
    var s := a + "." + x;
    var t := b + "." + y;
    assert s[|a|] == '.' && t[|b|] == '.';
    assert a == s[..|a|] && b == t[..|b|];
    assert x == s[|a| + 1..] && y == t[|b| + 1..];
  }

  /** Different classes or ids never share a storage key. */
  lemma KeyInjective(k1: Kind, id1: string, k2: Kind, id2: string)
    ensures Key(k1, id1) == Key(k2, id2) <==> k1 == k2 && id1 == id2
  {
    if Key(k1, id1) == Key(k2, id2) {
      ClassNameFacts(k1);
      ClassNameFacts(k2);
      DotSplit(ClassName(k1), id1, ClassName(k2), id2);
    }
  }

  /**
   * The class-level defaults that `getattr` finds when the instance has no
   * attribute of that name (models/submission.py, models/generate.py).
   */
  function ClassDefault(k: Kind, attr: string): Option<Value> {
    match k
    case Submission =>
      if attr in {"calculation_method", "organization", "country", "generate_id", "notes", "download_url"}
      then Some(Text(""))
      else if attr in {"test_obj_ids", "calculated_milk_yields"} then Some(Items([]))
      else None
    case Generate =>
      if attr in {"user_id", "download_url"} then Some(Text(""))
      else if attr in {"parity", "test_obj_ids", "calculated_milk_yields"} then Some(Items([]))
      else None
    case _ => None
  }

  /** `getattr(obj, attr)`: `None` stands for `AttributeError`. */
  function GetAttr(o: Obj, attr: string): Option<Value> {
    if attr == "id" then Some(Text(o.id))
    else if attr in o.attrs then Some(o.attrs[attr])
    else ClassDefault(o.kind, attr)
  }

  /**
   * A decoded JSON entry of a saved store: its `"__class__"` field, if
   * present, and the fields `cls(**val)` rebuilds the object from.
   */
  datatype Entry = Entry(className: Option<string>, id: string, attrs: map<string, Value>)

  /**
   * The instance attributes `__init__` sets before it applies the keyword
   * arguments (models/user.py): a `User` starts with an empty organization,
   * name and email.
   */
  function InitialAttrs(k: Kind): map<string, Value> {
    if k == User then map["organization" := Text(""), "name" := Text(""), "email" := Text("")] else map[]
  }

  /**
   * `cls(**val)`: the object of class `k` rebuilt from a decoded entry.  It
   * has the entry's id and fields, and the initial attributes the entry does
   * not override.
   */
  function Build(k: Kind, e: Entry): (o: Obj)
    ensures o.kind == k && o.id == e.id
    ensures o.attrs.Keys == InitialAttrs(k).Keys + e.attrs.Keys
    ensures forall a :: a in e.attrs ==> o.attrs[a] == e.attrs[a]
    ensures forall a :: a in InitialAttrs(k) && a !in e.attrs ==> o.attrs[a] == InitialAttrs(k)[a]
  {
    Obj(k, e.id, InitialAttrs(k) + e.attrs)
  }

  /** The entry's `"__class__"` names a registered class, so `classes[...]` finds it. */
  predicate Loads(e: Entry) {
    e.className.Some? && ClassNamed(e.className.value).Some?
  }

  /** The object a loadable entry is rebuilt into. */
  function Loaded(e: Entry): (o: Obj)
    requires Loads(e)
    ensures ClassName(o.kind) == e.className.value
  {
    Build(ClassNamed(e.className.value).value, e)
  }

  /**
   * A reloaded `User` whose entry lacks `organization`, `name` or `email`
   * has that attribute, empty, as `User()` would give it.
   */
  lemma ReloadedUserDefaults(e: Entry, a: string)
    requires e.className == Some("User")
    requires a == "organization" || a == "name" || a == "email"
    requires a !in e.attrs
    ensures GetAttr(Loaded(e), a) == Some(Text(""))
  {
    assert ClassNamed("User") == Some(User);
  }

  // ----- the insertion-ordered dictionary -----

  /** A Python `dict` from key to object: its keys in insertion order, and its entries. */
  datatype Dict = Dict(keys: seq<string>, entries: map<string, Obj>)

  /** `{}` */
  const Empty: Dict := Dict([], map[])

  /** The keys are distinct and are exactly the keys of the entries. */
  ghost predicate Wf(d: Dict) {
    && NoRepeats(d.keys)
    && (forall k :: k in d.entries <==> k in d.keys)
  }

  /** `d[k] = v`: a new key goes last, an existing key keeps its place. */
  function Put(d: Dict, k: string, v: Obj): (r: Dict)
    ensures Wf(d) ==> Wf(r)
    ensures r.entries == d.entries[k := v]
    ensures k in d.entries ==> r.keys == d.keys
    ensures k !in d.entries ==> r.keys == d.keys + [k]
  {
    if k in d.entries then Dict(d.keys, d.entries[k := v])
    else Dict(d.keys + [k], d.entries[k := v])
  }

  /** The keys without `k`, in order. */
  function RemoveKey(keys: seq<string>, k: string): (r: seq<string>)
    ensures forall x :: x in r <==> x in keys && x != k
    ensures |r| <= |keys|
  {
    if keys == [] then []
    else (if keys[0] == k then [] else [keys[0]]) + RemoveKey(keys[1..], k)
  }

  /** No key occurs twice. */
  predicate NoRepeats(keys: seq<string>) {
    forall i, j :: 0 <= i < j < |keys| ==> keys[i] != keys[j]
  }

  lemma {:induction false} RemoveKeyNoRepeats(keys: seq<string>, k: string)
    requires NoRepeats(keys)
    ensures NoRepeats(RemoveKey(keys, k))
  {
    if keys != [] {
      var tail := keys[1..];
      forall i, j | 0 <= i < j < |tail| ensures tail[i] != tail[j] {
        assert tail[i] == keys[i + 1] && tail[j] == keys[j + 1];
      }
      RemoveKeyNoRepeats(tail, k);
      var rest := RemoveKey(tail, k);
      assert keys[0] !in tail;
      if keys[0] != k {
        var r := [keys[0]] + rest;
        forall i, j | 0 <= i < j < |r| ensures r[i] != r[j] {
          assert r[j] == rest[j - 1] && rest[j - 1] in rest;
          if i > 0 {
            assert r[i] == rest[i - 1];
          }
        }
      }
    }
  }

  /** `del d[k]` / `d.pop(k, None)`: drops the key, keeps the order of the rest. */
  function Remove(d: Dict, k: string): (r: Dict)
    ensures r.entries == d.entries - {k}
    ensures forall x :: x in r.keys <==> x in d.keys && x != k
  {
    Dict(RemoveKey(d.keys, k), d.entries - {k})
  }

  /** Removing a key keeps a dictionary well formed. */
  lemma RemoveWf(d: Dict, k: string)
    requires Wf(d)
    ensures Wf(Remove(d, k))
  {
    RemoveKeyNoRepeats(d.keys, k);
  }

  /** `len(d)` */
  function Len(d: Dict): nat {
    |d.keys|
  }

  /** A sequence without repeats has as many elements as its set. */
  lemma {:induction false} DistinctCard(keys: seq<string>)
    requires NoRepeats(keys)
    ensures |(set x | x in keys)| == |keys|
  {
    if keys != [] {
      var n := |keys| - 1;
      var prefix := keys[..n];
      forall i, j | 0 <= i < j < |prefix| ensures prefix[i] != prefix[j] {
        assert prefix[i] == keys[i] && prefix[j] == keys[j];
      }
      DistinctCard(prefix);
      assert keys == prefix + [keys[n]];
      assert keys[n] !in prefix;
      assert (set x | x in keys) == (set x | x in prefix) + {keys[n]};
    }
  }

  /** The length of a dictionary is the number of its entries. */
  lemma LenIsEntryCount(d: Dict)
    requires Wf(d)
    ensures Len(d) == |d.entries.Keys|
  {
    DistinctCard(d.keys);
    assert d.entries.Keys == set x | x in d.keys;
  }

  /** A subset is no larger than its superset. */
  lemma SubsetCard(a: set<string>, b: set<string>)
    requires a <= b
    ensures |a| <= |b|
  {
    assert b == a + (b - a);
    assert a * (b - a) == {};
  }

  /** `d.values()`, in key order. */
  function Values(d: Dict): (vs: seq<Obj>)
    requires Wf(d)
    ensures |vs| == |d.keys|
    ensures forall i :: 0 <= i < |d.keys| ==> vs[i] == d.entries[d.keys[i]]
  {
    seq(|d.keys|, i requires 0 <= i < |d.keys| => d.entries[d.keys[i]])
  }

  // ----- filtering by class -----

  /** The entries under keys `ks` that are instances of `cls`, inserted in the order of `ks`. */
  function FilterOver(d: Dict, cls: Kind, ks: seq<string>): Dict
    requires forall k :: k in ks ==> k in d.entries
  {
    if ks == [] then Empty
    else
      var n := |ks| - 1;
      var prev := FilterOver(d, cls, ks[..n]);
      if IsInstance(d.entries[ks[n]], cls) then Put(prev, ks[n], d.entries[ks[n]]) else prev
  }

  /** `all(cls)` for a registered class: the entries that are instances of `cls`, in dictionary order. */
  function Filtered(d: Dict, cls: Kind): (r: Dict)
    requires Wf(d)
    ensures Wf(r)
  {
    FilterOverFacts(d, cls, d.keys);
    FilterOver(d, cls, d.keys)
  }

  /** Filtering over `ks` keeps exactly the keys of `ks` whose objects are instances of `cls`, with their objects. */
  lemma {:induction false} FilterOverEntries(d: Dict, cls: Kind, ks: seq<string>)
    requires forall k :: k in ks ==> k in d.entries
    ensures var r := FilterOver(d, cls, ks);
            && (forall k :: k in r.entries <==> k in ks && IsInstance(d.entries[k], cls))
            && (forall k :: k in r.entries ==> r.entries[k] == d.entries[k])
  {
    if ks != [] {
      var n := |ks| - 1;
      var prefix := ks[..n];
      assert ks == prefix + [ks[n]];
      FilterOverEntries(d, cls, prefix);
    }
  }

  /** Over distinct keys the filtered dictionary is well formed, and filtering by `ParentModel` keeps the key order. */
  lemma {:induction false} FilterOverFacts(d: Dict, cls: Kind, ks: seq<string>)
    requires NoRepeats(ks) && forall k :: k in ks ==> k in d.entries
    ensures var r := FilterOver(d, cls, ks);
            && Wf(r)
            && (cls == ParentModel ==> r.keys == ks)
  {
    if ks != [] {
      var n := |ks| - 1;
      var prefix := ks[..n];
      assert ks == prefix + [ks[n]];
      NoRepeatsPrefix(ks);
      FilterOverFacts(d, cls, prefix);
      FilterOverEntries(d, cls, prefix);
      var prev := FilterOver(d, cls, prefix);
      var v := d.entries[ks[n]];
      assert ks[n] !in prev.entries;
      if IsInstance(v, cls) {
        assert FilterOver(d, cls, ks) == Put(prev, ks[n], v);
      } else {
        assert FilterOver(d, cls, ks) == prev;
      }
    }
  }

  /** Dropping the last key keeps the keys distinct, and the last key is not among the others. */
  lemma NoRepeatsPrefix(ks: seq<string>)
    requires ks != [] && NoRepeats(ks)
    ensures NoRepeats(ks[..|ks| - 1]) && ks[|ks| - 1] !in ks[..|ks| - 1]
  {
    var prefix := ks[..|ks| - 1];
    forall i, j | 0 <= i < j < |prefix| ensures prefix[i] != prefix[j] {
      assert prefix[i] == ks[i] && prefix[j] == ks[j];
    }
    forall i | 0 <= i < |prefix| ensures prefix[i] != ks[|ks| - 1] {
      assert prefix[i] == ks[i];
    }
  }

  /**
   * Filtering keeps exactly the entries that are instances of `cls`, with
   * their objects, and filtering by `ParentModel` keeps everything.
   */
  lemma FilteredExact(d: Dict, cls: Kind)
    requires Wf(d)
    ensures Wf(Filtered(d, cls))
    ensures forall k :: k in Filtered(d, cls).entries <==> k in d.entries && IsInstance(d.entries[k], cls)
    ensures forall k :: k in Filtered(d, cls).entries ==> Filtered(d, cls).entries[k] == d.entries[k]
    ensures cls == ParentModel ==> Filtered(d, cls) == d
  {
    FilterOverFacts(d, cls, d.keys);
    FilterOverEntries(d, cls, d.keys);
  }
}
