/** The package under validation: its category and name, and the manifest's
    `dependencies` table, an insertion-ordered dictionary from "repo::pkg" to a
    version requirement, modelled as a list of (key, version) pairs. */
module Packages {

  type Deps = seq<(string, string)>

  function KeysOf(deps: Deps): (keys: seq<string>)
    ensures |keys| == |deps|
    ensures forall i :: 0 <= i < |deps| ==> keys[i] == deps[i].0
  {
    seq(|deps|, i requires 0 <= i < |deps| => deps[i].0)
  }

  /** The table with every entry whose key is in `dropped` deleted
      (`del d[k]` is `Without(d, [k])`): the remaining entries keep their values and order. */
  function Without(deps: Deps, dropped: seq<string>): (r: Deps)
    ensures forall e :: e in r <==> e in deps && e.0 !in dropped
    ensures |r| <= |deps|
  {
    if deps == [] then []
    else (if deps[0].0 in dropped then [] else [deps[0]]) + Without(deps[1..], dropped)
  }

  /** Deleting one key and then others is deleting them all at once. */
  lemma {:induction false} WithoutTwice(deps: Deps, k: string, rest: seq<string>)
    ensures Without(Without(deps, [k]), rest) == Without(deps, [k] + rest)
  {
    if deps != [] {
      WithoutTwice(deps[1..], k, rest);
      if deps[0].0 == k {
        assert Without(deps, [k]) == Without(deps[1..], [k]);
      } else {
        assert Without(deps, [k]) == [deps[0]] + Without(deps[1..], [k]);
        assert Without(deps, [k])[1..] == Without(deps[1..], [k]);
      }
    }
  }

  /** Deleting nothing changes nothing. */
  lemma {:induction false} WithoutNothing(deps: Deps)
    ensures Without(deps, []) == deps
  {
    if deps != [] {
      WithoutNothing(deps[1..]);
    }
  }

  /** Deletion keeps the order of the surviving entries: deleting from two tables joined
      is deleting from each, one after the other. */
  lemma {:induction false} WithoutAppend(a: Deps, b: Deps, dropped: seq<string>)
    ensures Without(a + b, dropped) == Without(a, dropped) + Without(b, dropped)
  {
    if a != [] {
      AppendTail(a, b);
      WithoutAppend(a[1..], b, dropped);
      var head := if a[0].0 in dropped then [] else [a[0]];
      assert Without(a + b, dropped) == head + Without(a[1..] + b, dropped);
    } else {
      assert a + b == b;
    }
  }

  /** The first entry and the tail of two tables joined. */
  lemma AppendTail(a: Deps, b: Deps)
    requires a != []
    ensures (a + b)[0] == a[0] && (a + b)[1..] == a[1..] + b
  {
  }

  /** A key is present after a deletion exactly when it was present and not deleted. */
  lemma KeysOfWithout(deps: Deps, dropped: seq<string>, key: string)
    ensures key in KeysOf(Without(deps, dropped)) <==> key in KeysOf(deps) && key !in dropped
  {
    var r := Without(deps, dropped);
    if key in KeysOf(r) {
      var i :| 0 <= i < |r| && KeysOf(r)[i] == key;
      assert r[i] in deps;
      var j :| 0 <= j < |deps| && deps[j] == r[i];
      assert KeysOf(deps)[j] == key;
    }
    if key in KeysOf(deps) && key !in dropped {
      var j :| 0 <= j < |deps| && KeysOf(deps)[j] == key;
      assert deps[j] in r;
      var i :| 0 <= i < |r| && r[i] == deps[j];
      assert KeysOf(r)[i] == key;
    }
  }

  class Package {
    const category: string
    const name: string
    var dependencies: Deps

    constructor (category: string, name: string, dependencies: Deps)
      ensures this.category == category && this.name == name && this.dependencies == dependencies
    {
      this.category := category;
      this.name := name;
      this.dependencies := dependencies;
    }
  }
}
