/**
 * The name filter shared by both services: `filteredNames` split at '|' into
 * a Go map from each piece to itself, built only when `len(filteredNames) > 1`.
 */
module NameFilter {
  import Text

  /** The map `fileNames` with every piece of `names` mapped to itself. */
  function MapOf(names: seq<string>): (m: map<string, string>)
    ensures m.Keys == set n | n in names
    ensures forall k :: k in m ==> m[k] == k
  {
    map n | n in names :: n
  }

  /**
   * The filter map built from `filteredNames`: its `|`-separated pieces, but
   * only when `len(filteredNames) > 1`.
   */
  function FilterMap(filteredNames: string): map<string, string> {
    if Text.Utf8Len(filteredNames) > 1 then MapOf(Text.Split(filteredNames, '|')) else map[]
  }

  /** Name-filter mode is on exactly when `len(filteredNames) > 1`, since a split has at least one piece. */
  lemma NameModeIff(filteredNames: string)
    ensures |FilterMap(filteredNames)| > 0 <==> Text.Utf8Len(filteredNames) > 1
  {
    if Text.Utf8Len(filteredNames) > 1 {
      var parts := Text.Split(filteredNames, '|');
      assert parts[0] in FilterMap(filteredNames);
    }
  }

  /** Go's map index: the value under `k`, or "" when `k` is absent. */
  function Lookup(m: map<string, string>, k: string): string {
    if k in m then m[k] else ""
  }

  /**
   * A name passes the filter (its lookup is a non-empty string) exactly when
   * the filter is on, the name is not empty and it is one of the pieces.
   */
  lemma LookupIff(filteredNames: string, k: string)
    ensures Text.Utf8Len(Lookup(FilterMap(filteredNames), k)) > 0 <==>
      Text.Utf8Len(filteredNames) > 1 && k != [] && k in Text.Split(filteredNames, '|')
  {
  }
}
