/** The nested key/value store a preprocessor rewrites (`NestedKeyValue`), seen through
    the three operations the preprocessor uses: the list of full key paths, lookup by
    path, and update by path. The store is represented by its leaves: a finite map from
    full key paths (never empty) to leaf strings. */
module NestedKeyValues {

  /** A full key path, e.g. ["greeting", "zh-CN"]; the source indexes its last segment,
      so it is never empty. */
  type Path = p: seq<string> | |p| > 0 witness [""]

  function Last(p: Path): string { p[|p| - 1] }

  /** The path with its last segment replaced by `segment`. */
  function Sibling(p: Path, segment: string): (q: Path)
    ensures |q| == |p| && Last(q) == segment
    ensures forall i :: 0 <= i < |p| - 1 ==> q[i] == p[i]
  {
    p[..|p| - 1] + [segment]
  }

  predicate NoDuplicates<T(==)>(s: seq<T>)
  {
    forall i, j :: 0 <= i < j < |s| ==> s[i] != s[j]
  }

  class NestedKeyValue {
    var entries: map<Path, string>

    constructor (entries: map<Path, string>)
      ensures this.entries == entries
    {
      this.entries := entries;
    }

    /** `GetKeys`: every full path exactly once, in no particular order. */
    method GetKeys() returns (keys: seq<Path>)
      ensures forall k :: k in keys <==> k in entries
      ensures NoDuplicates(keys)
    {
      keys := [];
      var rest := entries.Keys;
      while rest != {}
        invariant rest <= entries.Keys
        invariant forall k :: k in keys <==> k in entries && k !in rest
        invariant NoDuplicates(keys)
        decreases |rest|
      {
        var k :| k in rest;
        keys := keys + [k];
        rest := rest - {k};
      }
    }

    /** `GetKey`: the leaf at `path` and whether there is one. */
    method GetKey(path: Path) returns (value: string, exist: bool)
      ensures exist <==> path in entries
      ensures exist ==> value == entries[path]
    {
      exist := path in entries;
      value := if exist then entries[path] else "";
    }

    /** `Set`: writes the leaf at `path`, leaving every other path as it was. */
    method Set(path: Path, value: string)
      modifies this
      ensures entries == old(entries)[path := value]
    {
      entries := entries[path := value];
    }
  }
}
