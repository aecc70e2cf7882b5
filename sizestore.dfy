/**
 * The shared store the scanner fills and every later phase reads and
 * repairs: a map from full path to record, used through `Get`, `Set`,
 * `Remove` and `Keys`. Thread safety is not modelled; every use here is
 * sequential.
 */
module SizeStore {
  import opened FileDir

  class Store {
    var contents: Records

    /** `cmap.New()`: an empty store. */
    constructor New()
      ensures contents == map[]
    {
      contents := map[];
    }

    /** `Get(key)`: the record under `key`, if any. */
    method Get(key: string) returns (r: Option)
      ensures r.Some? <==> key in contents
      ensures r.Some? ==> r.value == contents[key]
    {
      if key in contents {
        r := Some(contents[key]);
      } else {
        r := None;
      }
    }

    /** `Set(key, e)`: insert or overwrite. */
    method Set(key: string, e: Entry)
      modifies this
      ensures contents == old(contents)[key := e]
    {
      contents := contents[key := e];
    }

    /** `Remove(key)`: drop `key`; nothing happens when it is absent. */
    method Remove(key: string)
      modifies this
      ensures contents == old(contents) - {key}
    {
      contents := contents - {key};
    }

    /**
     * `Keys()`: every key exactly once, in an order the caller cannot
     * rely on (the concurrent map walks its shards in no fixed order).
     */
    method Keys() returns (ks: seq<string>)
      ensures forall k :: k in ks <==> k in contents
      ensures forall i, j | 0 <= i < j < |ks| :: ks[i] != ks[j]
    {
      ks := [];
      var rest := contents.Keys;
      while rest != {}
        invariant rest <= contents.Keys
        invariant forall k :: k in ks <==> k in contents && k !in rest
        invariant forall i, j | 0 <= i < j < |ks| :: ks[i] != ks[j]
        decreases rest
      {
        var k :| k in rest;
        ks := ks + [k];
        rest := rest - {k};
      }
    }
  }

  /** Result of `Get`: the value and the `ok` flag of Go's two-valued lookup. */
  datatype Option = None | Some(value: Entry)
}
