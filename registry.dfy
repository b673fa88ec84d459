/**
 * The storage plugin registry: a process-wide map from backend name to the
 * constructor registered under it. Constructors are opaque handles here;
 * running one is modelled by the factories.
 */
module StorageRegistry {
  import opened Wrappers

  /** No two positions of `names` hold the same name. */
  predicate Distinct(names: seq<string>) {
    forall i, j :: 0 <= i < j < |names| ==> names[i] != names[j]
  }

  /** A list of distinct names has as many elements as the set of its names. */
  lemma {:induction false} DistinctCardinality(names: seq<string>)
    requires Distinct(names)
    ensures |set n | n in names| == |names|
  {
    if names != [] {
      var last := names[|names| - 1];
      var front := names[..|names| - 1];
      DistinctCardinality(front);
      assert (set n | n in names) == (set n | n in front) + {last};
      assert last !in front;
    }
  }

  class Registry<Ctor> {
    /** `STORAGE_REGISTRY`: name -> constructor. */
    var entries: map<string, Ctor>

    /** The registry starts empty. */
    constructor ()
      ensures entries == map[]
    {
      entries := map[];
    }

    /**
     * `register_storage_plugin`: inserts or silently overwrites the entry
     * for `name`; every other entry stays as it was.
     */
    method Register(name: string, ctor: Ctor)
      modifies this
      ensures entries == old(entries)[name := ctor]
      ensures entries.Keys == old(entries).Keys + {name}
      ensures forall n :: n in old(entries) && n != name ==> entries[n] == old(entries)[n]
    {
      entries := entries[name := ctor];
    }

    /** `get_storage_plugin`: lookup by exact name; reads only. */
    function Get(name: string): (r: Option<Ctor>)
      reads this
      ensures r.Some? <==> name in entries
      ensures r.Some? ==> r.value == entries[name]
    {
      if name in entries then Some(entries[name]) else None
    }

    /**
     * `get_storage_plugin_names`: every registered name exactly once, in an
     * order the map's iteration decides (left unspecified).
     */
    method Names() returns (names: seq<string>)
      ensures forall n :: n in names <==> n in entries
      ensures Distinct(names)
      ensures |names| == |entries|
    {
      names := [];
      var remaining := entries.Keys;
      while remaining != {}
        invariant remaining <= entries.Keys
        invariant forall n :: n in names <==> n in entries && n !in remaining
        invariant Distinct(names)
        decreases remaining
      {
        var n :| n in remaining;
        names := names + [n];
        remaining := remaining - {n};
      }
      DistinctCardinality(names);
      assert (set n | n in names) == entries.Keys;
    }

    /**
     * `debug_storage_registry`: the lines it logs. An empty registry logs one
     * fixed line; otherwise a header and one ` - name` line per entry.
     */
    method DebugLines() returns (lines: seq<string>)
      ensures entries == map[] ==> lines == ["No storage backends registered."]
      ensures entries != map[] ==>
        && |lines| == |entries| + 1
        && lines[0] == "Registered storage backends:"
        && forall n :: " - " + n in lines[1..] <==> n in entries
    {
      if entries == map[] {
        lines := ["No storage backends registered."];
      } else {
        var names := Names();
        var items := seq(|names|, i requires 0 <= i < |names| => " - " + names[i]);
        forall n
          ensures " - " + n in items <==> n in names
        {
          if " - " + n in items {
            var i :| 0 <= i < |items| && items[i] == " - " + n;
            assert names[i] == (" - " + n)[3..] == n;
          }
          if n in names {
            var i :| 0 <= i < |names| && names[i] == n;
            assert items[i] == " - " + n;
          }
        }
        lines := ["Registered storage backends:"] + items;
        assert lines[1..] == items;
      }
    }
  }

  /** Registering then looking up gives back the constructor just registered. */
  method RegisterThenGet<Ctor>(r: Registry<Ctor>, name: string, ctor: Ctor, other: string)
    requires other != name
    modifies r
    ensures r.Get(name) == Some(ctor)
    ensures r.Get(other) == old(r.Get(other))
  {
    r.Register(name, ctor);
  }

  /** There is no removal: registering never forgets a name. */
  method RegisterOnlyGrows<Ctor>(r: Registry<Ctor>, name: string, ctor: Ctor)
    modifies r
    ensures old(r.entries).Keys <= r.entries.Keys
    ensures |old(r.entries)| <= |r.entries|
  {
    r.Register(name, ctor);
    assert old(r.entries).Keys <= r.entries.Keys;
    SubsetCardinality(old(r.entries).Keys, r.entries.Keys);
  }

  lemma SubsetCardinality(a: set<string>, b: set<string>)
    requires a <= b
    ensures |a| <= |b|
  {
    assert b == a + (b - a);
  }
}
