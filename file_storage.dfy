/**
 * The file-backed storage engine (models/engine/file_storage.py): the
 * class-level dictionary of objects keyed `"<ClassName>.<id>"` and its
 * queries.  Writing and reading `file.json` is outside the model; `reload`
 * is given the decoded entries, or `None` when the file cannot be opened
 * or parsed.
 */
module FileEngine {
  import opened Wrappers
  import opened StoreModels

  /** The exception `check_attr_val` lets escape. */
  datatype AttrError = AttributeError(attr: string)

  /** `get(cls, id)`: the instance of `cls` stored under its key, if any. */
  function Found(d: Dict, cls: Option<Kind>, id: string): (r: Option<Obj>)
    ensures r.Some? ==> cls.Some? && IsInstance(r.value, cls.value)
  {
    if cls.None? then None
    else
      var key := Key(cls.value, id);
      if key in d.entries && IsInstance(d.entries[key], cls.value) then Some(d.entries[key]) else None
  }

  /**
   * The scan of `check_attr_val`: the first object whose attribute equals
   * `val` answers true, but an object without the attribute before it
   * raises `AttributeError`.
   */
  function AttrScan(objs: seq<Obj>, attr: string, val: Value): (r: Result<bool, AttrError>)
    ensures r == Ok(true) ==> exists o :: o in objs && GetAttr(o, attr) == Some(val)
    ensures r == Ok(false) ==> forall o :: o in objs ==> GetAttr(o, attr).Some? && GetAttr(o, attr) != Some(val)
    ensures r.Err? ==> r.error == AttributeError(attr) && exists o :: o in objs && GetAttr(o, attr).None?
  {
    if objs == [] then Ok(false)
    else
      match GetAttr(objs[0], attr)
      case None => Err(AttributeError(attr))
      case Some(v) =>
        if v == val then Ok(true)
        else
          var rest := AttrScan(objs[1..], attr, val);
          assert forall o :: o in objs[1..] ==> o in objs;
          rest
  }

  /** When every object has the attribute, the scan answers whether one of them equals `val`. */
  lemma {:induction false} AttrScanComplete(objs: seq<Obj>, attr: string, val: Value)
    requires forall o :: o in objs ==> GetAttr(o, attr).Some?
    ensures AttrScan(objs, attr, val) == Ok(exists o :: o in objs && GetAttr(o, attr) == Some(val))
  {
    if objs != [] {
      assert objs[0] in objs;
      assert forall o :: o in objs[1..] ==> o in objs;
      AttrScanComplete(objs[1..], attr, val);
      assert forall o :: o in objs <==> o == objs[0] || o in objs[1..];
    }
  }

  /** The answer depends on the order: a matching object before one without the attribute wins, after it loses. */
  lemma AttrScanOrder(a: Obj, b: Obj, attr: string, val: Value)
    requires GetAttr(a, attr) == None && GetAttr(b, attr) == Some(val)
    ensures AttrScan([b, a], attr, val) == Ok(true)
    ensures AttrScan([a, b], attr, val) == Err(AttributeError(attr))
  {
  }

  /**
   * The merge step of `reload`: the entries, in order, each stored under
   * its key, until the first whose `__class__` is absent or unknown (the
   * `KeyError` ends the loop and is swallowed).
   */
  function Merged(d: Dict, entries: seq<(string, Entry)>): Dict
    decreases |entries|
  {
    if entries == [] || !Loads(entries[0].1) then d
    else Merged(Put(d, entries[0].0, Loaded(entries[0].1)), entries[1..])
  }

  /**
   * How many entries the merge stores: all those before the first whose
   * `__class__` is absent or unknown.
   */
  function MergeLength(entries: seq<(string, Entry)>): (n: nat)
    ensures n <= |entries|
  {
    if entries == [] || !Loads(entries[0].1) then 0 else 1 + MergeLength(entries[1..])
  }

  /** The merged entries are the loadable prefix; when every entry loads, that is all of them. */
  lemma {:induction false} MergeLengthFacts(entries: seq<(string, Entry)>)
    ensures forall i :: 0 <= i < MergeLength(entries) ==> Loads(entries[i].1)
    ensures MergeLength(entries) < |entries| ==> !Loads(entries[MergeLength(entries)].1)
  {
    if entries != [] && Loads(entries[0].1) {
      MergeLengthFacts(entries[1..]);
      forall i | 0 < i < MergeLength(entries) ensures Loads(entries[i].1) {
        assert entries[i] == entries[1..][i - 1];
      }
    }
  }

  /** `reload` never drops an entry: the existing keys stay, and the result stays well formed. */
  lemma {:induction false} MergedKeeps(d: Dict, entries: seq<(string, Entry)>)
    requires Wf(d)
    ensures Wf(Merged(d, entries))
    ensures d.entries.Keys <= Merged(d, entries).entries.Keys
    decreases |entries|
  {
    if entries != [] && Loads(entries[0].1) {
      MergedKeeps(Put(d, entries[0].0, Loaded(entries[0].1)), entries[1..]);
    }
  }

  /** Every entry the merge reaches has its key present after `reload`. */
  lemma {:induction false} MergedAdds(d: Dict, entries: seq<(string, Entry)>)
    requires Wf(d)
    ensures forall i :: 0 <= i < MergeLength(entries) ==> entries[i].0 in Merged(d, entries).entries
    decreases |entries|
  {
    if entries != [] && Loads(entries[0].1) {
      var d' := Put(d, entries[0].0, Loaded(entries[0].1));
      MergedAdds(d', entries[1..]);
      MergedKeeps(d', entries[1..]);
      forall i | 0 <= i < MergeLength(entries) ensures entries[i].0 in Merged(d, entries).entries {
        if i > 0 { assert entries[1..][i - 1] == entries[i]; }
      }
    }
  }

  /** A key no reached entry carries keeps whatever object it had, or stays absent. */
  lemma {:induction false} MergedUntouched(d: Dict, entries: seq<(string, Entry)>, k: string)
    requires forall i :: 0 <= i < MergeLength(entries) ==> entries[i].0 != k
    ensures k in Merged(d, entries).entries <==> k in d.entries
    ensures k in d.entries ==> Merged(d, entries).entries[k] == d.entries[k]
    decreases |entries|
  {
    if entries != [] && Loads(entries[0].1) {
      assert entries[0].0 != k;
      forall i | 0 <= i < MergeLength(entries[1..]) ensures entries[1..][i].0 != k {
        assert entries[1..][i] == entries[i + 1];
      }
      MergedUntouched(Put(d, entries[0].0, Loaded(entries[0].1)), entries[1..], k);
    }
  }

  /** A reached entry's key holds the object rebuilt from it, unless a later reached entry has the same key. */
  lemma {:induction false} MergedLastWins(d: Dict, entries: seq<(string, Entry)>, i: nat)
    requires i < MergeLength(entries)
    requires forall j :: i < j < MergeLength(entries) ==> entries[j].0 != entries[i].0
    ensures Loads(entries[i].1)
    ensures entries[i].0 in Merged(d, entries).entries
    ensures Merged(d, entries).entries[entries[i].0] == Loaded(entries[i].1)
    decreases |entries|
  {
    var d' := Put(d, entries[0].0, Loaded(entries[0].1));
    var tail := entries[1..];
    if i == 0 {
      forall j | 0 <= j < MergeLength(tail) ensures tail[j].0 != entries[0].0 {
        assert tail[j] == entries[j + 1];
      }
      MergedUntouched(d', tail, entries[0].0);
    } else {
      assert tail[i - 1] == entries[i];
      forall j | i - 1 < j < MergeLength(tail) ensures tail[j].0 != tail[i - 1].0 {
        assert tail[j] == entries[j + 1];
      }
      MergedLastWins(d', tail, i - 1);
    }
  }

  /** A `User` entry without an email is reloaded with the empty email, so `check_attr_val` finds it. */
  lemma ReloadedUserHasEmail(id: string)
    ensures var e := Entry(Some("User"), id, map[]);
            Loads(e) && AttrScan([Loaded(e)], "email", Text("")) == Ok(true)
  {
    var e := Entry(Some("User"), id, map[]);
    assert ClassNamed("User") == Some(User);
    ReloadedUserDefaults(e, "email");
  }

  /** The storage engine; `objects` is the class-level `__objects` dictionary. */
  class FileStorage {
    var objects: Dict

    ghost predicate Valid()
      reads this
    {
      Wf(objects)
    }

    constructor ()
      ensures Valid() && objects == Empty
    {
      objects := Empty;
    }

    /** `all(cls)`: for a registered class, a new dictionary of its instances; otherwise the whole dictionary. */
    method All(cls: Option<Kind>) returns (d: Dict)
      requires Valid()
      ensures Wf(d)
      ensures d == if cls.Some? then Filtered(objects, cls.value) else objects
    {
      if cls.None? {
        return objects;
      }
      d := Empty;
      for i := 0 to |objects.keys|
        invariant d == FilterOver(objects, cls.value, objects.keys[..i])
      {
        var key := objects.keys[i];
        var value := objects.entries[key];
        assert objects.keys[..i + 1][..i] == objects.keys[..i];
        if IsInstance(value, cls.value) {
          d := Put(d, key, value);
        }
      }
      assert objects.keys[..|objects.keys|] == objects.keys;
      FilteredExact(objects, cls.value);
    }

    /** `new(obj)`: stores `obj` under its key, replacing any object stored there. */
    method New(o: Obj)
      requires Valid()
      modifies this
      ensures Valid()
      ensures objects == Put(old(objects), Key(o.kind, o.id), o)
    {
      objects := Put(objects, Key(o.kind, o.id), o);
    }

    /** `reload()`: merges the decoded entries into the dictionary; `None` leaves it as it is. */
    method Reload(decoded: Option<seq<(string, Entry)>>)
      requires Valid()
      modifies this
      ensures Valid()
      ensures objects == if decoded.Some? then Merged(old(objects), decoded.value) else old(objects)
    {
      if decoded.None? {
        return;
      }
      var entries := decoded.value;
      MergedKeeps(objects, entries);
      var i := 0;
      while i < |entries|
        invariant 0 <= i <= |entries| && Valid()
        invariant Merged(objects, entries[i..]) == Merged(old(objects), entries)
      {
        var key, val := entries[i].0, entries[i].1;
        if val.className.None? {
          return;
        }
        var cls := ClassNamed(val.className.value);
        if cls.None? {
          return;
        }
        objects := Put(objects, key, Build(cls.value, val));
        assert entries[i..][1..] == entries[i + 1..];
        i := i + 1;
      }
    }

    /** `delete(obj)`: removes `obj`'s key if present; no object, or an absent key, changes nothing. */
    method Delete(o: Option<Obj>)
      requires Valid()
      modifies this
      ensures Valid()
      ensures objects == if o.Some? && Key(o.value.kind, o.value.id) in old(objects).entries
                         then Remove(old(objects), Key(o.value.kind, o.value.id)) else old(objects)
    {
      if o.Some? {
        var key := Key(o.value.kind, o.value.id);
        if key in objects.entries {
          RemoveWf(objects, key);
          objects := Remove(objects, key);
        }
      }
    }

    /** `get(cls, id)`: the instance of a registered `cls` stored under `"<cls name>.<id>"`, else nothing. */
    method Get(cls: Option<Kind>, id: string) returns (r: Option<Obj>)
      requires Valid()
      ensures r == Found(objects, cls, id)
    {
      if cls.None? {
        return None;
      }
      var allCls := All(cls);
      FilteredExact(objects, cls.value);
      var key := Key(cls.value, id);
      if key in allCls.entries {
        r := Some(allCls.entries[key]);
      } else {
        r := None;
      }
    }

    /** `count(cls)`: the number of entries `all(cls)` returns, counted one key at a time. */
    method Count(cls: Option<Kind>) returns (n: nat)
      requires Valid()
      ensures cls.Some? ==> n == |Filtered(objects, cls.value).entries.Keys|
      ensures cls.None? ==> n == |objects.entries.Keys|
    {
      var allCls := All(cls);
      n := 0;
      for i := 0 to |allCls.keys|
        invariant n == i
      {
        n := n + 1;
      }
      LenIsEntryCount(allCls);
    }

    /**
     * `check_attr_val(cls, attr, val)`: scans the instances of a registered
     * `cls` in dictionary order; an unregistered class gives false.
     */
    method CheckAttrVal(cls: Option<Kind>, attr: string, val: Value) returns (r: Result<bool, AttrError>)
      requires Valid()
      ensures cls.None? ==> r == Ok(false)
      ensures cls.Some? ==> r == AttrScan(Values(Filtered(objects, cls.value)), attr, val)
    {
      if cls.None? {
        return Ok(false);
      }
      var allCls := All(cls);
      var objs := Values(allCls);
      var i := 0;
      while i < |objs|
        invariant 0 <= i <= |objs|
        invariant AttrScan(objs[i..], attr, val) == AttrScan(objs, attr, val)
      {
        var v := GetAttr(objs[i], attr);
        if v.None? {
          return Err(AttributeError(attr));
        }
        if v.value == val {
          return Ok(true);
        }
        assert objs[i..][1..] == objs[i + 1..];
        i := i + 1;
      }
      r := Ok(false);
    }
  }

  /** After `new(o)`, `get` with `o`'s class and id finds `o`. */
  lemma GetAfterNew(d: Dict, o: Obj)
    ensures Found(Put(d, Key(o.kind, o.id), o), Some(o.kind), o.id) == Some(o)
  {
  }

  /** `new(o)` changes no other key. */
  lemma NewKeepsOthers(d: Dict, o: Obj, k: Kind, id: string)
    requires k != o.kind || id != o.id
    ensures Found(Put(d, Key(o.kind, o.id), o), Some(k), id) == Found(d, Some(k), id)
  {
    KeyInjective(k, id, o.kind, o.id);
  }

  /** After `delete(o)`, `get` finds nothing under `o`'s class and id. */
  lemma GetAfterDelete(d: Dict, o: Obj)
    ensures Found(Remove(d, Key(o.kind, o.id)), Some(o.kind), o.id) == None
  {
  }

  /** `get` finds exactly what `all(cls)` holds under the key. */
  lemma FoundInAll(d: Dict, cls: Kind, id: string)
    requires Wf(d)
    ensures Found(d, Some(cls), id).Some? <==> Key(cls, id) in Filtered(d, cls).entries
    ensures Found(d, Some(cls), id).Some? ==> Found(d, Some(cls), id).value == Filtered(d, cls).entries[Key(cls, id)]
  {
    FilteredExact(d, cls);
  }

  /** `count(ParentModel)` counts every object, as `count()` does. */
  lemma CountParentModel(d: Dict)
    requires Wf(d)
    ensures |Filtered(d, ParentModel).entries.Keys| == |d.entries.Keys|
  {
    FilteredExact(d, ParentModel);
  }
}
