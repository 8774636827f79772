/**
 * Version dispatch shared by the generator and reader halves: a version
 * string selects a class through a `switch` whose cases form a table.
 */
module Dispatch {
  import opened Wrappers
  import opened PortRecords

  /**
   * JavaScript truthiness of an optional version string: both an absent
   * version and the empty string are falsy.
   */
  predicate Specified(version: Option<string>) {
    version.Some? && version.value != ""
  }

  /** The cases of a `switch` over version strings, in source order. */
  type VersionTable<C> = seq<(string, C)>

  /** True when some case of the table matches `version` exactly. */
  predicate Registered<C>(table: VersionTable<C>, version: string) {
    exists i :: 0 <= i < |table| && table[i].0 == version
  }

  /** True when the `i`-th case is the first one labelled `version`. */
  predicate FirstCase<C>(table: VersionTable<C>, version: string, i: int) {
    && 0 <= i < |table|
    && table[i].0 == version
    && forall j :: 0 <= j < i ==> table[j].0 != version
  }

  /**
   * The class of the first case whose label equals `version`, as a `switch`
   * with strict equality picks it; none when no case matches.
   */
  function Lookup<C(==)>(table: VersionTable<C>, version: string): (r: Option<C>)
    ensures r.Some? <==> Registered(table, version)
    ensures r.Some? ==> exists i :: FirstCase(table, version, i) && table[i].1 == r.value
  {
    if |table| == 0 then None
    else if table[0].0 == version then Some(table[0].1)
    else
      var r := Lookup(table[1..], version);
      assert Registered(table, version) ==> Registered(table[1..], version) by {
        if Registered(table, version) {
          var i :| 0 <= i < |table| && table[i].0 == version;
          assert table[1..][i - 1].0 == version;
        }
      }
      assert r.Some? ==> exists i :: FirstCase(table, version, i) && table[i].1 == r.value by {
        if r.Some? {
          var i :| FirstCase(table[1..], version, i) && table[1..][i].1 == r.value;
          assert table[i + 1] == table[1..][i];
          forall j | 0 <= j < i + 1
            ensures table[j].0 != version
          {
            if j > 0 { assert table[j] == table[1..][j - 1]; }
          }
          assert FirstCase(table, version, i + 1);
        }
      }
      r
  }

  /**
   * The selector: a falsy version is "not specified", a version without a
   * case is "unsupported", otherwise the class of its case.
   */
  function Select<C(==)>(side: Side, table: VersionTable<C>, version: Option<string>): Result<C, PortError> {
    if !Specified(version) then Err(VersionNotSpecified(side))
    else match Lookup(table, version.value)
      case Some(c) => Ok(c)
      case None => Err(UnsupportedVersion(side, version.value))
  }
}
