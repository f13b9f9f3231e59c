/**
 * The blob-backed storage engine (models/engine/blob_storage.py): the same
 * class-level dictionary and queries as the file engine, with `reload`
 * rebuilding the cache from the downloaded JSON.  The Azure client, the
 * download and the JSON decoding are outside the model: `reload` is given
 * what they produced.
 */
module BlobEngine {
  import opened Wrappers
  import opened StoreModels

  /** What the download produced: no blob, a failure before decoding, or the decoded entries. */
  datatype Blob = NoBlob | Unreadable | Decoded(entries: seq<(string, Entry)>)

  /**
   * The rebuild loop of `reload` from dictionary `d`: entries of an unknown
   * class are skipped, and an entry without `"__class__"` ends the loop
   * (its `KeyError` is caught), keeping what was rebuilt so far.
   */
  function Rebuild(d: Dict, entries: seq<(string, Entry)>): Dict
    decreases |entries|
  {
    if entries == [] || entries[0].1.className.None? then d
    else if !Loads(entries[0].1) then Rebuild(d, entries[1..])
    else Rebuild(Put(d, entries[0].0, Loaded(entries[0].1)), entries[1..])
  }

  /** How many entries the rebuild loop reaches: all those before the first without `"__class__"`. */
  function RebuildLength(entries: seq<(string, Entry)>): (n: nat)
    ensures n <= |entries|
  {
    if entries == [] || entries[0].1.className.None? then 0 else 1 + RebuildLength(entries[1..])
  }

  /** When every entry has a `"__class__"`, the loop reaches all of them. */
  lemma {:induction false} RebuildLengthFull(entries: seq<(string, Entry)>)
    requires forall i :: 0 <= i < |entries| ==> entries[i].1.className.Some?
    ensures RebuildLength(entries) == |entries|
  {
    if entries != [] {
      assert forall i :: 0 <= i < |entries[1..]| ==> entries[1..][i] == entries[i + 1];
      RebuildLengthFull(entries[1..]);
    }
  }

  /** Entry `i` names a registered class. */
  predicate Known(entries: seq<(string, Entry)>, i: int)
    requires 0 <= i < |entries|
  {
    Loads(entries[i].1)
  }

  /**
   * The rebuilt cache holds what it started from and, beyond that, exactly
   * the keys of the reached entries of a registered class.
   */
  lemma {:induction false} RebuildKeys(d: Dict, entries: seq<(string, Entry)>)
    requires Wf(d)
    ensures Wf(Rebuild(d, entries))
    ensures forall k :: k in Rebuild(d, entries).entries ==>
              k in d.entries || exists i :: 0 <= i < RebuildLength(entries) && entries[i].0 == k && Known(entries, i)
    ensures forall i :: 0 <= i < RebuildLength(entries) && Known(entries, i) ==> entries[i].0 in Rebuild(d, entries).entries
    decreases |entries|
  {
    if entries != [] && entries[0].1.className.Some? {
      var tail := entries[1..];
      assert forall i :: 0 <= i < |tail| ==> tail[i] == entries[i + 1];
      var d' := if !Loads(entries[0].1) then d else Put(d, entries[0].0, Loaded(entries[0].1));
      RebuildKeys(d', tail);
      assert Rebuild(d, entries) == Rebuild(d', tail);
      forall k | k in Rebuild(d, entries).entries
        ensures k in d.entries || exists i :: 0 <= i < RebuildLength(entries) && entries[i].0 == k && Known(entries, i)
      {
        if k !in d.entries && k !in d'.entries {
          var i :| 0 <= i < RebuildLength(tail) && tail[i].0 == k && Known(tail, i);
          assert Known(entries, i + 1);
        } else if k !in d.entries {
          assert Known(entries, 0);
        }
      }
      RebuildMonotone(d', tail);
      forall i | 0 <= i < RebuildLength(entries) && Known(entries, i)
        ensures entries[i].0 in Rebuild(d, entries).entries
      {
        if i > 0 {
          assert Known(tail, i - 1);
        }
      }
    }
  }

  /** The rebuild never drops a key it already has. */
  lemma {:induction false} RebuildMonotone(d: Dict, entries: seq<(string, Entry)>)
    ensures d.entries.Keys <= Rebuild(d, entries).entries.Keys
    decreases |entries|
  {
    if entries != [] && entries[0].1.className.Some? {
      if !Loads(entries[0].1) {
        RebuildMonotone(d, entries[1..]);
      } else {
        RebuildMonotone(Put(d, entries[0].0, Loaded(entries[0].1)), entries[1..]);
      }
    }
  }

  /** A key no reached entry of a registered class carries keeps whatever object it had, or stays absent. */
  lemma {:induction false} RebuildUntouched(d: Dict, entries: seq<(string, Entry)>, k: string)
    requires forall i :: 0 <= i < RebuildLength(entries) && Known(entries, i) ==> entries[i].0 != k
    ensures k in Rebuild(d, entries).entries <==> k in d.entries
    ensures k in d.entries ==> Rebuild(d, entries).entries[k] == d.entries[k]
    decreases |entries|
  {
    if entries != [] && entries[0].1.className.Some? {
      var tail := entries[1..];
      forall i | 0 <= i < RebuildLength(tail) && Known(tail, i) ensures tail[i].0 != k {
        assert tail[i] == entries[i + 1];
      }
      if !Loads(entries[0].1) {
        RebuildUntouched(d, tail, k);
      } else {
        assert Known(entries, 0);
        RebuildUntouched(Put(d, entries[0].0, Loaded(entries[0].1)), tail, k);
      }
    }
  }

  /**
   * A reached entry of a registered class has its key hold the object
   * rebuilt from it, unless a later reached entry of a registered class has
   * the same key.
   */
  lemma {:induction false} RebuildLastWins(d: Dict, entries: seq<(string, Entry)>, i: nat)
    requires i < RebuildLength(entries) && Known(entries, i)
    requires forall j :: i < j < RebuildLength(entries) && Known(entries, j) ==> entries[j].0 != entries[i].0
    ensures entries[i].0 in Rebuild(d, entries).entries
    ensures Rebuild(d, entries).entries[entries[i].0] == Loaded(entries[i].1)
    decreases |entries|
  {
    var tail := entries[1..];
    var d' := if !Loads(entries[0].1) then d else Put(d, entries[0].0, Loaded(entries[0].1));
    assert Rebuild(d, entries) == Rebuild(d', tail);
    if i == 0 {
      forall j | 0 <= j < RebuildLength(tail) && Known(tail, j) ensures tail[j].0 != entries[0].0 {
        assert tail[j] == entries[j + 1];
        assert Known(entries, j + 1);
      }
      RebuildUntouched(d', tail, entries[0].0);
    } else {
      assert tail[i - 1] == entries[i];
      forall j | i - 1 < j < RebuildLength(tail) && Known(tail, j) ensures tail[j].0 != tail[i - 1].0 {
        assert tail[j] == entries[j + 1];
        assert Known(entries, j + 1);
      }
      RebuildLastWins(d', tail, i - 1);
    }
  }

  /** `getattr(obj, attr, None)` */
  function GetAttrOrNone(o: Obj, attr: string): Value {
    match GetAttr(o, attr)
    case Some(v) => v
    case None => NoneValue
  }

  /** An object without the attribute matches only `None`. */
  lemma MissingAttrMatchesNone(o: Obj, attr: string, val: Value)
    requires GetAttr(o, attr).None?
    ensures GetAttrOrNone(o, attr) == val <==> val == NoneValue
  {
  }

  /**
   * A blob holding one `User` entry with no stored attributes reloads to a
   * user whose `email` is the empty string its constructor sets.
   */
  lemma ReloadedUserHasEmail(key: string, id: string)
    ensures var entries := [(key, Entry(Some("User"), id, map[]))];
            key in Rebuild(Empty, entries).entries
            && GetAttrOrNone(Rebuild(Empty, entries).entries[key], "email") == Text("")
  {
    var e := Entry(Some("User"), id, map[]);
    var entries := [(key, e)];
    assert ClassNamed("User") == Some(User);
    assert Known(entries, 0);
    RebuildLastWins(Empty, entries, 0);
    ReloadedUserDefaults(e, "email");
  }

  /** The storage engine; `objects` is the class-level `__objects` cache. */
  class FileStorage {
    var objects: Dict

    ghost predicate Valid()
      reads this
    {
      Wf(objects)
    }

    constructor ()
      ensures Valid() && objects == Empty
    {
      objects := Empty;
    }

    /** `all(cls)`: the instances of a registered class, else the whole cache. */
    function All(cls: Option<Kind>): (d: Dict)
      requires Valid()
      reads this
      ensures Wf(d)
      ensures cls.Some? ==> forall k :: k in d.entries <==> k in objects.entries && IsInstance(objects.entries[k], cls.value)
      ensures forall k :: k in d.entries ==> k in objects.entries && d.entries[k] == objects.entries[k]
      ensures cls.None? || cls == Some(ParentModel) ==> d == objects
    {
      if cls.Some? then
        FilteredExact(objects, cls.value);
        Filtered(objects, cls.value)
      else objects
    }

    /** `get(cls, id)`: whatever is cached under `"<cls name>.<id>"`, for a registered class. */
    function Get(cls: Option<Kind>, id: string): (r: Option<Obj>)
      reads this
      ensures r.Some? <==> cls.Some? && Key(cls.value, id) in objects.entries
      ensures r.Some? ==> r.value == objects.entries[Key(cls.value, id)]
    {
      if cls.Some? && Key(cls.value, id) in objects.entries then Some(objects.entries[Key(cls.value, id)]) else None
    }

    /** `count(cls)`: `len(all(cls))`. */
    function Count(cls: Option<Kind>): (n: nat)
      requires Valid()
      reads this
      ensures n == |All(cls).entries.Keys|
      ensures n <= |objects.entries.Keys|
    {
      LenIsEntryCount(All(cls));
      LenIsEntryCount(objects);
      SubsetCard(All(cls).entries.Keys, objects.entries.Keys);
      Len(All(cls))
    }

    /** `new(obj)`: caches `obj` under its key, replacing any object cached there. */
    method New(o: Obj)
      requires Valid()
      modifies this
      ensures Valid()
      ensures objects == Put(old(objects), Key(o.kind, o.id), o)
      ensures Get(Some(o.kind), o.id) == Some(o)
    {
      objects := Put(objects, Key(o.kind, o.id), o);
    }

    /** `delete(obj)`: drops `obj`'s key, if cached; no object changes nothing. */
    method Delete(o: Option<Obj>)
      requires Valid()
      modifies this
      ensures Valid()
      ensures objects == if o.Some? then Remove(old(objects), Key(o.value.kind, o.value.id)) else old(objects)
      ensures o.Some? ==> Get(Some(o.value.kind), o.value.id) == None
    {
      if o.Some? {
        var key := Key(o.value.kind, o.value.id);
        RemoveWf(objects, key);
        objects := Remove(objects, key);
      }
    }

    /**
     * `reload()`: without a blob, or when the download or decoding fails,
     * the cache is kept; otherwise it is replaced by the rebuilt entries.
     */
    method Reload(blob: Blob)
      requires Valid()
      modifies this
      ensures Valid()
      ensures objects == if blob.Decoded? then Rebuild(Empty, blob.entries) else old(objects)
    {
      if !blob.Decoded? {
        return;
      }
      var entries := blob.entries;
      objects := Empty;
      RebuildKeys(Empty, entries);
      var i := 0;
      while i < |entries|
        invariant 0 <= i <= |entries| && Valid()
        invariant Rebuild(objects, entries[i..]) == Rebuild(Empty, entries)
      {
        var key, val := entries[i].0, entries[i].1;
        if val.className.None? {
          return;
        }
        var cls := ClassNamed(val.className.value);
        if cls.Some? {
          objects := Put(objects, key, Build(cls.value, val));
        }
        assert entries[i..][1..] == entries[i + 1..];
        i := i + 1;
      }
    }

    /**
     * `check_attr_val(cls, attr, val)`: whether some instance of a
     * registered `cls` has `getattr(obj, attr, None) == val`.
     */
    method CheckAttrVal(cls: Option<Kind>, attr: string, val: Value) returns (found: bool)
      requires Valid()
      ensures found <==> cls.Some? && exists o :: o in Values(All(cls)) && GetAttrOrNone(o, attr) == val
    {
      if cls.None? {
        return false;
      }
      var objs := Values(All(cls));
      found := false;
      var i := 0;
      while i < |objs|
        invariant 0 <= i <= |objs|
        invariant forall j :: 0 <= j < i ==> GetAttrOrNone(objs[j], attr) != val
      {
        if GetAttrOrNone(objs[i], attr) == val {
          return true;
        }
        i := i + 1;
      }
    }
  }

  /**
   * `reload` replaces the cache wholesale: afterwards a key is cached exactly
   * when a reached entry of a registered class carries it, and it holds the
   * object rebuilt from the last such entry.  Entries of unknown classes are
   * dropped.
   */
  lemma ReloadReplaces(entries: seq<(string, Entry)>, k: string)
    ensures k in Rebuild(Empty, entries).entries
            <==> exists i :: 0 <= i < RebuildLength(entries) && entries[i].0 == k && Known(entries, i)
    ensures forall i :: 0 <= i < RebuildLength(entries) && Known(entries, i) && entries[i].0 == k
                        && (forall j :: i < j < RebuildLength(entries) && Known(entries, j) ==> entries[j].0 != k)
                        ==> Rebuild(Empty, entries).entries[k] == Loaded(entries[i].1)
  {
    RebuildKeys(Empty, entries);
    forall i | 0 <= i < RebuildLength(entries) && Known(entries, i) && entries[i].0 == k
               && (forall j :: i < j < RebuildLength(entries) && Known(entries, j) ==> entries[j].0 != k)
      ensures Rebuild(Empty, entries).entries[k] == Loaded(entries[i].1)
    {
      RebuildLastWins(Empty, entries, i);
    }
  }
}
