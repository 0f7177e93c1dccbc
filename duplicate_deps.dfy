/** The duplicate-dependency check: groups the manifest's "repo::pkg" keys by
    package, fails every package declared under more than one repository, picks
    the repository to keep and deletes the other declarations. */
module DuplicateDeps {
  import opened Wrappers
  import opened Sequences
  import opened Strings
  import opened Repositories
  import opened Packages

  /** The pair `(pkg, repo)` returned by `_split_full_name`. */
  datatype DepRef = DepRef(pkg: string, repo: string)

  /** The dependency key `f'{repo}::{pkg}'`. */
  function JoinFullName(repo: string, pkg: string): string {
    repo + Sep + pkg
  }

  /** `_split_full_name`: the text after and before the first "::". Without a separator
      `find` gives -1, so the package is all but the first character and the repository
      all but the last. */
  function SplitFullName(fullName: string): (r: DepRef)
    ensures ContainsSep(fullName) ==> JoinFullName(r.repo, r.pkg) == fullName && !ContainsSep(r.repo)
    ensures !ContainsSep(fullName) && fullName != [] ==> r == DepRef(fullName[1..], fullName[..|fullName| - 1])
    ensures fullName == [] ==> r == DepRef([], [])
  {
    var sep := Find(fullName);
    assert 0 <= sep ==> fullName == fullName[..sep] + Sep + fullName[sep + 2..];
    assert 0 <= sep ==> forall j :: SepAt(fullName[..sep], j) ==> SepAt(fullName, j) && j < sep;
    DepRef(SliceFrom(fullName, sep + 2), SliceTo(fullName, sep))
  }

  /** Splitting a joined key gives back its parts exactly when the repository name
      neither contains "::" nor ends with ':' (otherwise the first "::" comes earlier). */
  lemma SplitJoinRoundTrip(repo: string, pkg: string)
    ensures SplitFullName(JoinFullName(repo, pkg)) == DepRef(pkg, repo) <==> !ContainsSep(repo + ":")
  {
    var s := JoinFullName(repo, pkg);
    var n := |repo|;
    var t := repo + ":";
    assert SepAt(s, n);
    assert s[..n + 1] == t;
    assert forall i :: 0 <= i < n ==> (SepAt(s, i) <==> SepAt(t, i));
    var f := Find(s);
    assert f <= n;
    if !ContainsSep(t) {
      assert f == n;
      assert s[..n] == repo && s[n + 2..] == pkg;
    } else {
      var i :| 0 <= i < |t| && SepAt(t, i);
      assert SepAt(s, i);
      assert |SplitFullName(s).repo| == f < n;
    }
  }

  /** One entry of `pkgs_without_repo`: a package and the repositories it is declared under. */
  datatype Group = Group(pkg: string, repos: seq<string>)

  function Pkgs(groups: seq<Group>): (pkgs: seq<string>)
    ensures |pkgs| == |groups|
    ensures forall k :: 0 <= k < |groups| ==> pkgs[k] == groups[k].pkg
  {
    seq(|groups|, k requires 0 <= k < |groups| => groups[k].pkg)
  }

  /** The package of each (package, repository) pair, in manifest order. */
  function PkgsOf(refs: seq<DepRef>): (pkgs: seq<string>)
    ensures |pkgs| == |refs|
    ensures forall i :: 0 <= i < |refs| ==> pkgs[i] == refs[i].pkg
  {
    if refs == [] then [] else
      var init := refs[..|refs| - 1];
      assert forall i :: 0 <= i < |init| ==> init[i] == refs[i];
      PkgsOf(init) + [refs[|refs| - 1].pkg]
  }

  /** The repositories under which package `p` is declared, in manifest order. */
  function ReposOf(refs: seq<DepRef>, p: string): seq<string>
  {
    if refs == [] then []
    else
      var d := refs[|refs| - 1];
      ReposOf(refs[..|refs| - 1], p) + if d.pkg == p then [d.repo] else []
  }

  /** One step of `_gen_map_of_pkgs_to_repo`: append `repo` to the group of `pkg`,
      or open a new group at the end for a package not seen before. */
  function AddTo(groups: seq<Group>, pkg: string, repo: string): seq<Group>
  {
    var k := IndexOf(Pkgs(groups), pkg);
    if k < 0 then groups + [Group(pkg, [repo])]
    else groups[k := Group(pkg, groups[k].repos + [repo])]
  }

  /** The groups built from the (package, repository) pairs, in manifest order. */
  function GroupsOf(refs: seq<DepRef>): seq<Group>
  {
    if refs == [] then []
    else
      var d := refs[|refs| - 1];
      AddTo(GroupsOf(refs[..|refs| - 1]), d.pkg, d.repo)
  }

  /** Grouping one more pair is one more `AddTo`. */
  lemma GroupsOfPrefix(refs: seq<DepRef>, i: nat)
    requires i < |refs|
    ensures GroupsOf(refs[..i + 1]) == AddTo(GroupsOf(refs[..i]), refs[i].pkg, refs[i].repo)
  {
    assert refs[..i + 1][..i] == refs[..i];
  }

  /** Total number of repositories listed over all groups. */
  function TotalRepos(groups: seq<Group>): nat
  {
    if groups == [] then 0 else TotalRepos(groups[..|groups| - 1]) + |groups[|groups| - 1].repos|
  }

  lemma {:induction false} ReposOfNonEmpty(refs: seq<DepRef>, p: string)
    ensures ReposOf(refs, p) != [] <==> p in PkgsOf(refs)
  {
    if refs != [] {
      var init := refs[..|refs| - 1];
      ReposOfNonEmpty(init, p);
    }
  }

  /** Every repository of a package's list comes from a pair naming that package and repository. */
  lemma {:induction false} ReposOfFrom(refs: seq<DepRef>, p: string)
    ensures forall r :: r in ReposOf(refs, p) ==>
      exists i :: 0 <= i < |refs| && refs[i] == DepRef(p, r)
  {
    if refs != [] {
      var init := refs[..|refs| - 1];
      ReposOfFrom(init, p);
      forall r | r in ReposOf(refs, p)
        ensures exists i :: 0 <= i < |refs| && refs[i] == DepRef(p, r)
      {
        if r in ReposOf(init, p) {
          var i :| 0 <= i < |init| && init[i] == DepRef(p, r);
          assert refs[i] == init[i];
        } else {
          assert refs[|refs| - 1] == DepRef(p, r);
        }
      }
    }
  }

  /** `AddTo` opens a group at the end exactly for a package not seen before. */
  lemma AddToPkgs(groups: seq<Group>, pkg: string, repo: string)
    ensures Pkgs(AddTo(groups, pkg, repo)) == if pkg in Pkgs(groups) then Pkgs(groups) else Pkgs(groups) + [pkg]
  {
    var k := IndexOf(Pkgs(groups), pkg);
    if k >= 0 {
      assert Pkgs(AddTo(groups, pkg, repo)) == Pkgs(groups);
    } else {
      assert Pkgs(AddTo(groups, pkg, repo)) == Pkgs(groups) + [pkg];
    }
  }

  /** One group per package, in order of first appearance in the manifest. */
  lemma {:induction false} GroupsOfPkgs(refs: seq<DepRef>)
    ensures Pkgs(GroupsOf(refs)) == Dedup(PkgsOf(refs))
  {
    if refs != [] {
      var init, d := refs[..|refs| - 1], refs[|refs| - 1];
      var P := PkgsOf(init);
      GroupsOfPkgs(init);
      DedupMembers(P);
      assert PkgsOf(refs) == P + [d.pkg];
      assert (P + [d.pkg])[..|P|] == P;
      AddToPkgs(GroupsOf(init), d.pkg, d.repo);
    }
  }

  /** Each group lists, in manifest order, the repositories of every pair naming its
      package, and so is never empty. */
  lemma {:induction false} GroupsOfRepos(refs: seq<DepRef>)
    ensures forall k :: 0 <= k < |GroupsOf(refs)| ==>
      GroupsOf(refs)[k].repos == ReposOf(refs, GroupsOf(refs)[k].pkg) && GroupsOf(refs)[k].repos != []
  {
    if refs != [] {
      var init := refs[..|refs| - 1];
      var d := refs[|refs| - 1];
      var G := GroupsOf(init);
      GroupsOfRepos(init);
      GroupsOfPkgs(init);
      DedupMembers(PkgsOf(init));
      DedupNoDup(PkgsOf(init));
      var k := IndexOf(Pkgs(G), d.pkg);
      var G' := GroupsOf(refs);
      if k >= 0 {
        assert G' == G[k := Group(d.pkg, G[k].repos + [d.repo])];
        forall j | 0 <= j < |G'|
          ensures G'[j].repos == ReposOf(refs, G'[j].pkg) && G'[j].repos != []
        {
          if j != k {
            assert Pkgs(G)[j] != Pkgs(G)[k];
          }
        }
      } else {
        assert d.pkg !in PkgsOf(init);
        ReposOfNonEmpty(init, d.pkg);
        assert G' == G + [Group(d.pkg, [d.repo])];
        forall j | 0 <= j < |G'|
          ensures G'[j].repos == ReposOf(refs, G'[j].pkg) && G'[j].repos != []
        {
          if j < |G| {
            assert G[j].pkg in Pkgs(G);
          }
        }
      }
    }
  }

  /** `_gen_map_of_pkgs_to_repo`: one group per package, packages in order of first
      appearance in the manifest, each group listing (in manifest order) the repositories
      of every pair that names its package, and so never empty. */
  lemma GroupsOfSpec(refs: seq<DepRef>)
    ensures Pkgs(GroupsOf(refs)) == Dedup(PkgsOf(refs))
    ensures forall k :: 0 <= k < |GroupsOf(refs)| ==>
      GroupsOf(refs)[k].repos == ReposOf(refs, GroupsOf(refs)[k].pkg) && GroupsOf(refs)[k].repos != []
  {
    GroupsOfPkgs(refs);
    GroupsOfRepos(refs);
  }

  lemma {:induction false} TotalReposUpdate(groups: seq<Group>, k: nat, g: Group)
    requires k < |groups|
    ensures TotalRepos(groups[k := g]) + |groups[k].repos| == TotalRepos(groups) + |g.repos|
  {
    var n := |groups| - 1;
    if k < n {
      TotalReposUpdate(groups[..n], k, g);
      assert groups[k := g][..n] == groups[..n][k := g];
    } else {
      assert groups[k := g][..n] == groups[..n];
    }
  }

  /** Every pair is counted in exactly one group: the group sizes sum to the number of pairs. */
  lemma {:induction false} TotalReposOfGroups(refs: seq<DepRef>)
    ensures TotalRepos(GroupsOf(refs)) == |refs|
  {
    if refs != [] {
      var init := refs[..|refs| - 1];
      var d := refs[|refs| - 1];
      var G := GroupsOf(init);
      TotalReposOfGroups(init);
      var k := IndexOf(Pkgs(G), d.pkg);
      if k >= 0 {
        TotalReposUpdate(G, k, Group(d.pkg, G[k].repos + [d.repo]));
      } else {
        assert (G + [Group(d.pkg, [d.repo])])[..|G|] == G;
      }
    }
  }

  lemma {:induction false} CountsAreOne(refs: seq<DepRef>)
    ensures NoDup(PkgsOf(refs)) <==> forall p :: p in PkgsOf(refs) ==> |ReposOf(refs, p)| == 1
  {
    if refs != [] {
      var init, d := refs[..|refs| - 1], refs[|refs| - 1];
      var P := PkgsOf(init);
      CountsAreOne(init);
      ReposOfNonEmpty(init, d.pkg);
      NoDupAppend(P, d.pkg);
      assert PkgsOf(refs) == P + [d.pkg];
      assert ReposOf(refs, d.pkg) == ReposOf(init, d.pkg) + [d.repo];
      if NoDup(P + [d.pkg]) {
        forall p | p in P + [d.pkg]
          ensures |ReposOf(refs, p)| == 1
        {
          if p != d.pkg {
            assert ReposOf(refs, p) == ReposOf(init, p);
          }
        }
      }
      if forall p :: p in P + [d.pkg] ==> |ReposOf(refs, p)| == 1 {
        assert |ReposOf(refs, d.pkg)| == 1;
        assert d.pkg !in P;
        forall p | p in P
          ensures |ReposOf(init, p)| == 1
        {
          assert p in P + [d.pkg];
          assert ReposOf(refs, p) == ReposOf(init, p);
        }
      }
    }
  }

  /** `validate`: a group passes when its package is declared under exactly one repository. */
  function Validate(item: Group): bool {
    |item.repos| == 1
  }

  /** Every group passes exactly when no package is declared twice in the manifest. */
  lemma AllGroupsPassIff(refs: seq<DepRef>)
    ensures (forall k :: 0 <= k < |GroupsOf(refs)| ==> Validate(GroupsOf(refs)[k])) <==> NoDup(PkgsOf(refs))
  {
    var G := GroupsOf(refs);
    var P := PkgsOf(refs);
    GroupsOfSpec(refs);
    DedupMembers(P);
    CountsAreOne(refs);
    if forall k :: 0 <= k < |G| ==> Validate(G[k]) {
      forall p | p in P
        ensures |ReposOf(refs, p)| == 1
      {
        assert p in Pkgs(G);
        var k := IndexOf(Pkgs(G), p);
        assert Validate(G[k]);
      }
    }
    if NoDup(P) {
      forall k | 0 <= k < |G|
        ensures Validate(G[k])
      {
        assert Pkgs(G)[k] in P;
      }
    }
  }

  /** The keys `fix` deletes: `f'{repo}::{pkg}'` for every losing repository, in order. */
  function LoserKeys(pkg: string, losers: seq<string>): (keys: seq<string>)
    ensures |keys| == |losers|
    ensures forall i :: 0 <= i < |losers| ==> keys[i] == JoinFullName(losers[i], pkg)
  {
    seq(|losers|, i requires 0 <= i < |losers| => JoinFullName(losers[i], pkg))
  }

  /** The table after deleting `keys` one by one, and the first key found missing
      (where `del` raises KeyError and the remaining deletions are not done). */
  datatype Deletion = Deletion(deps: Deps, missing: Option<string>)

  function DeleteKeys(deps: Deps, keys: seq<string>): Deletion
    decreases |keys|
  {
    if keys == [] then Deletion(deps, None)
    else if keys[0] !in KeysOf(deps) then Deletion(deps, Some(keys[0]))
    else DeleteKeys(Without(deps, [keys[0]]), keys[1..])
  }

  /** One `del` of the loop in `fix`: it raises on a missing key and otherwise removes it. */
  lemma DeleteKeysStep(deps: Deps, keys: seq<string>, j: nat)
    requires j < |keys|
    ensures keys[j] !in KeysOf(deps) ==> DeleteKeys(deps, keys[j..]) == Deletion(deps, Some(keys[j]))
    ensures keys[j] in KeysOf(deps) ==> DeleteKeys(deps, keys[j..]) == DeleteKeys(Without(deps, [keys[j]]), keys[j + 1..])
  {
    assert keys[j..][0] == keys[j];
    assert keys[j..][1..] == keys[j + 1..];
  }

  /** Deleting `k0` first: the remaining keys are distinct and all still present exactly
      when `k0` and they are distinct and all present before. */
  lemma DeleteFirstPresent(deps: Deps, k0: string, rest: seq<string>)
    requires k0 in KeysOf(deps)
    ensures (NoDup(rest) && forall k :: k in rest ==> k in KeysOf(Without(deps, [k0])))
        <==> (NoDup([k0] + rest) && forall k :: k in [k0] + rest ==> k in KeysOf(deps))
  {
    NoDupCons(k0, rest);
    forall k | k in rest
      ensures k in KeysOf(Without(deps, [k0])) <==> k in KeysOf(deps) && k != k0
    {
      KeysOfWithout(deps, [k0], k);
    }
  }

  /** The deletions all succeed exactly when the keys are distinct and all present; then
      the table loses exactly those keys and every other entry is kept, in order. */
  lemma {:induction false} DeleteKeysSpec(deps: Deps, keys: seq<string>)
    ensures DeleteKeys(deps, keys).missing.None? <==> NoDup(keys) && forall k :: k in keys ==> k in KeysOf(deps)
    ensures DeleteKeys(deps, keys).missing.None? ==> DeleteKeys(deps, keys).deps == Without(deps, keys)
    ensures DeleteKeys(deps, keys).missing.Some? ==> DeleteKeys(deps, keys).missing.value in keys
    decreases |keys|
  {
    if keys == [] {
      WithoutNothing(deps);
    } else if keys[0] in KeysOf(deps) {
      var k0, rest := keys[0], keys[1..];
      DeleteKeysSpec(Without(deps, [k0]), rest);
      assert keys == [k0] + rest;
      DeleteFirstPresent(deps, k0, rest);
      WithoutTwice(deps, k0, rest);
    }
  }

  /** A manifest as the source expects it: distinct keys, each of the form "repo::pkg". */
  predicate WellFormedKeys(keys: seq<string>) {
    NoDup(keys) && forall i :: 0 <= i < |keys| ==> ContainsSep(keys[i])
  }

  /** `tuple_list`: `_split_full_name` of every dependency key, in manifest order. */
  function SplitAll(keys: seq<string>): (refs: seq<DepRef>)
    ensures |refs| == |keys|
    ensures forall i :: 0 <= i < |keys| ==> refs[i] == SplitFullName(keys[i])
  {
    seq(|keys|, i requires 0 <= i < |keys| => SplitFullName(keys[i]))
  }

  lemma JoinInjective(r1: string, r2: string, pkg: string)
    ensures JoinFullName(r1, pkg) == JoinFullName(r2, pkg) ==> r1 == r2
  {
    if JoinFullName(r1, pkg) == JoinFullName(r2, pkg) {
      assert |r1| == |r2|;
      assert JoinFullName(r1, pkg)[..|r1|] == r1;
      assert JoinFullName(r2, pkg)[..|r2|] == r2;
    }
  }

  /** Splitting a well-formed manifest loses nothing: every pair joins back to its key,
      so distinct keys give distinct pairs. */
  lemma SplitAllWellFormed(keys: seq<string>)
    requires WellFormedKeys(keys)
    ensures forall i :: 0 <= i < |keys| ==> JoinFullName(SplitAll(keys)[i].repo, SplitAll(keys)[i].pkg) == keys[i]
    ensures NoDup(SplitAll(keys))
  {
    var refs := SplitAll(keys);
    forall i | 0 <= i < |keys|
      ensures JoinFullName(refs[i].repo, refs[i].pkg) == keys[i]
    {
      assert ContainsSep(keys[i]);
    }
    forall i, j | 0 <= i < j < |refs|
      ensures refs[i] != refs[j]
    {
      assert keys[i] != keys[j];
    }
  }

  /** In a well-formed manifest each repository of a group names a key that is in the manifest. */
  lemma ReposOfDeclared(keys: seq<string>, p: string)
    requires WellFormedKeys(keys)
    ensures forall r :: r in ReposOf(SplitAll(keys), p) ==> JoinFullName(r, p) in keys
  {
    var refs := SplitAll(keys);
    ReposOfFrom(refs, p);
    SplitAllWellFormed(keys);
    forall r | r in ReposOf(refs, p)
      ensures JoinFullName(r, p) in keys
    {
      var i :| 0 <= i < |refs| && refs[i] == DepRef(p, r);
      assert JoinFullName(r, p) == keys[i];
    }
  }

  /** Distinct pairs never put a repository twice in one group. */
  lemma {:induction false} ReposOfDistinct(refs: seq<DepRef>, p: string)
    requires NoDup(refs)
    ensures NoDup(ReposOf(refs, p))
  {
    if refs != [] {
      var init, d := refs[..|refs| - 1], refs[|refs| - 1];
      assert refs == init + [d];
      NoDupAppend(init, d);
      ReposOfDistinct(init, p);
      if d.pkg == p {
        ReposOfFrom(init, p);
        forall r | r in ReposOf(init, p)
          ensures r != d.repo
        {
          var i :| 0 <= i < |init| && init[i] == DepRef(p, r);
          assert init[i] in init;
        }
        NoDupAppend(ReposOf(init, p), d.repo);
      }
    }
  }

  /** `fix` on a well-formed manifest, with a winner that is in the group: every
      deletion succeeds, the losers' keys disappear, every other entry stays with its
      value and position, and the winner's key survives. */
  lemma FixOnWellFormed(deps: Deps, k: nat, winner: string)
    requires WellFormedKeys(KeysOf(deps))
    requires k < |GroupsOf(SplitAll(KeysOf(deps)))|
    requires winner in GroupsOf(SplitAll(KeysOf(deps)))[k].repos
    ensures var g := GroupsOf(SplitAll(KeysOf(deps)))[k];
            var dropped := LoserKeys(g.pkg, RemoveFirst(g.repos, winner));
            && DeleteKeys(deps, dropped) == Deletion(Without(deps, dropped), None)
            && JoinFullName(winner, g.pkg) in KeysOf(Without(deps, dropped))
  {
    var keys := KeysOf(deps);
    var refs := SplitAll(keys);
    var g := GroupsOf(refs)[k];
    GroupsOfSpec(refs);
    SplitAllWellFormed(keys);
    ReposOfDistinct(refs, g.pkg);
    ReposOfDeclared(keys, g.pkg);
    FixOnGroup(deps, g.pkg, g.repos, winner);
  }

  /** Dropping every repository of a group but the winner, when each repository of the
      group is declared once: every deletion succeeds and the winner's key survives. */
  lemma FixOnGroup(deps: Deps, pkg: string, repos: seq<string>, winner: string)
    requires NoDup(repos) && winner in repos
    requires forall r :: r in repos ==> JoinFullName(r, pkg) in KeysOf(deps)
    ensures var dropped := LoserKeys(pkg, RemoveFirst(repos, winner));
            && DeleteKeys(deps, dropped) == Deletion(Without(deps, dropped), None)
            && JoinFullName(winner, pkg) in KeysOf(Without(deps, dropped))
  {
    var losers := RemoveFirst(repos, winner);
    RemoveFirstDistinct(repos, winner);
    LoserKeysDistinct(pkg, losers, winner);
    var dropped := LoserKeys(pkg, losers);
    forall key | key in dropped
      ensures key in KeysOf(deps)
    {
      var a :| 0 <= a < |dropped| && dropped[a] == key;
      assert losers[a] in losers;
    }
    DeleteKeysSpec(deps, dropped);
    KeysOfWithout(deps, dropped, JoinFullName(winner, pkg));
  }

  /** Distinct repositories give distinct keys for one package. */
  lemma LoserKeysDistinct(pkg: string, losers: seq<string>, winner: string)
    requires NoDup(losers) && winner !in losers
    ensures NoDup(LoserKeys(pkg, losers))
    ensures JoinFullName(winner, pkg) !in LoserKeys(pkg, losers)
  {
    var keys := LoserKeys(pkg, losers);
    forall a, b | 0 <= a < b < |keys|
      ensures keys[a] != keys[b]
    {
      JoinInjective(losers[a], losers[b], pkg);
    }
    forall a | 0 <= a < |keys|
      ensures keys[a] != JoinFullName(winner, pkg)
    {
      JoinInjective(losers[a], winner, pkg);
    }
  }

  /** The repositories of a group that the registry does not define, in group order
      (each is skipped by `diff` with a warning). */
  function Unregistered(repos: seq<string>, names: seq<string>): (r: seq<string>)
    ensures forall x :: x in r <==> x in repos && x !in names
  {
    if repos == [] then []
    else
      var init, x := repos[..|repos| - 1], repos[|repos| - 1];
      assert repos == init + [x];
      Unregistered(init, names) + if x in names then [] else [x]
  }

  /** `lowest` is the first position of `names` listed in `seen`, or |names| when none is. */
  predicate LowestListed(names: seq<string>, seen: seq<string>, lowest: int) {
    && 0 <= lowest <= |names|
    && (lowest < |names| ==> names[lowest] in seen)
    && forall j :: 0 <= j < lowest ==> names[j] !in seen
  }

  /** One iteration of the corrected `diff` loop keeps `LowestListed`. */
  lemma LowestListedStep(names: seq<string>, repos: seq<string>, i: nat, lowest: int)
    requires i < |repos|
    requires LowestListed(names, repos[..i], lowest)
    ensures var idx := IndexOf(names, repos[i]);
      LowestListed(names, repos[..i + 1], if 0 <= idx < lowest then idx else lowest)
  {
    var idx := IndexOf(names, repos[i]);
    var next := if 0 <= idx < lowest then idx else lowest;
    assert repos[..i + 1] == repos[..i] + [repos[i]];
    forall j | 0 <= j < next ensures names[j] !in repos[..i + 1] {
      assert names[j] != repos[i];
    }
  }

  /** The lowest registry position whose name a group lists is what `get_first_of` finds. */
  lemma FirstListedIsLowest(registry: Registry, repos: seq<string>, lowest: int)
    requires LowestListed(Names(registry), repos, lowest)
    ensures GetFirstOf(registry, repos) == if lowest < |registry| then Some(registry[lowest]) else None
  {
    var first := GetFirstOf(registry, repos);
    if first.Some? {
      var k := IndexOf(Names(registry), first.value.name);
      assert registry[k].name in repos;
      assert k == lowest;
    }
  }

  lemma UnregisteredPrefix(repos: seq<string>, names: seq<string>, i: nat)
    requires i < |repos|
    ensures Unregistered(repos[..i + 1], names)
         == Unregistered(repos[..i], names) + if repos[i] in names then [] else [repos[i]]
  {
    assert repos[..i + 1][..i] == repos[..i];
  }

  /** How `fix` ends: done, ValueError from `list.remove`, or KeyError from `del`. */
  datatype FixOutcome = Fixed | NotInGroup | MissingKey(key: string)

  class DuplicateDepsCheck {
    const pkg: Package
    /** `pkgs_without_repo`: the groups, in manifest order; the engine's items are its entries. */
    var pkgsWithoutRepo: seq<Group>
    var winningRepo: string

    constructor (pkg: Package)
      ensures this.pkg == pkg
      ensures pkgsWithoutRepo == GroupsOf(SplitAll(KeysOf(pkg.dependencies)))
      ensures winningRepo == ""
    {
      var groups := GenMapOfPkgsToRepo(pkg.dependencies);
      this.pkg := pkg;
      pkgsWithoutRepo := groups;
      winningRepo := "";
    }

    /** `_gen_map_of_pkgs_to_repo`: builds the groups key by key, in manifest order. */
    static method GenMapOfPkgsToRepo(deps: Deps) returns (d: seq<Group>)
      ensures d == GroupsOf(SplitAll(KeysOf(deps)))
    {
      var tupleList := SplitAll(KeysOf(deps));
      d := [];
      for i := 0 to |tupleList|
        invariant d == GroupsOf(tupleList[..i])
      {
        var t := tupleList[i];
        GroupsOfPrefix(tupleList, i);
        var k := IndexOf(Pkgs(d), t.pkg);
        if k >= 0 {
          d := d[k := Group(t.pkg, d[k].repos + [t.repo])];
        } else {
          d := d + [Group(t.pkg, [t.repo])];
        }
      }
      assert tupleList[..|tupleList|] == tupleList;
    }

    /** `diff` as written: `lowest_idx` starts at 0 and only a smaller index could replace
        it, so the first configured repository wins whatever the group holds; with no
        configured repository the final indexing raises IndexError (`ok` is false) and
        `winning_repo` keeps the "" it was reset to. */
    method Diff(item: Group, conf: Config) returns (ok: bool, skipped: seq<string>)
      modifies this`winningRepo
      ensures skipped == Unregistered(item.repos, Names(conf.repositories))
      ensures ok <==> conf.repositories != []
      ensures winningRepo == if ok then conf.repositories[0].name else ""
    {
      winningRepo := "";
      var configRepos := Names(conf.repositories);
      var lowestIdx := 0;
      skipped := [];
      for i := 0 to |item.repos|
        invariant lowestIdx == 0
        invariant winningRepo == ""
        invariant skipped == Unregistered(item.repos[..i], configRepos)
      {
        var repo := item.repos[i];
        var idx := IndexOf(configRepos, repo);
        UnregisteredPrefix(item.repos, configRepos, i);
        if idx >= 0 {
          if idx < lowestIdx {
            lowestIdx := idx;
          }
        } else {
          skipped := skipped + [repo];
        }
      }
      assert item.repos[..|item.repos|] == item.repos;
      ok := lowestIdx < |configRepos|;
      if ok {
        winningRepo := configRepos[lowestIdx];
      }
    }

    /** `diff` with the search started from "no winner yet": the winner is the first
        configured repository that the group lists (`get_first_of`), and there is none
        when the group lists no configured repository. */
    method CorrectedDiff(item: Group, conf: Config) returns (ok: bool, skipped: seq<string>)
      modifies this`winningRepo
      ensures skipped == Unregistered(item.repos, Names(conf.repositories))
      ensures ok == GetFirstOf(conf.repositories, item.repos).Some?
      ensures ok ==> winningRepo == GetFirstOf(conf.repositories, item.repos).value.name
      ensures !ok ==> winningRepo == ""
      ensures ok ==> winningRepo in item.repos
    {
      winningRepo := "";
      var configRepos := Names(conf.repositories);
      var lowestIdx := |configRepos|;
      skipped := [];
      for i := 0 to |item.repos|
        invariant skipped == Unregistered(item.repos[..i], configRepos)
        invariant LowestListed(configRepos, item.repos[..i], lowestIdx)
        invariant winningRepo == ""
      {
        var repo := item.repos[i];
        var idx := IndexOf(configRepos, repo);
        UnregisteredPrefix(item.repos, configRepos, i);
        LowestListedStep(configRepos, item.repos, i, lowestIdx);
        if idx >= 0 {
          if idx < lowestIdx {
            lowestIdx := idx;
          }
        } else {
          skipped := skipped + [repo];
        }
      }
      assert item.repos[..|item.repos|] == item.repos;
      assert LowestListed(configRepos, item.repos, lowestIdx);
      FirstListedIsLowest(conf.repositories, item.repos, lowestIdx);
      ok := lowestIdx < |configRepos|;
      if ok {
        winningRepo := configRepos[lowestIdx];
        assert winningRepo == conf.repositories[lowestIdx].name;
        assert winningRepo in item.repos;
      }
    }

    /** `fix` on the item at position `idx` of `pkgs_without_repo`: `repos.remove(winning_repo)`
        (ValueError when absent, nothing changed), then `del` of every remaining
        "repo::pkg" key in order, stopping at the first missing key (KeyError). */
    method Fix(idx: nat) returns (outcome: FixOutcome)
      requires idx < |pkgsWithoutRepo|
      modifies this`pkgsWithoutRepo, pkg`dependencies
      ensures var g := old(pkgsWithoutRepo)[idx];
        if winningRepo !in g.repos then
          && outcome == NotInGroup
          && pkgsWithoutRepo == old(pkgsWithoutRepo)
          && pkg.dependencies == old(pkg.dependencies)
        else
          var losers := RemoveFirst(g.repos, winningRepo);
          var d := DeleteKeys(old(pkg.dependencies), LoserKeys(g.pkg, losers));
          && pkgsWithoutRepo == old(pkgsWithoutRepo)[idx := Group(g.pkg, losers)]
          && pkg.dependencies == d.deps
          && outcome == if d.missing.Some? then MissingKey(d.missing.value) else Fixed
    {
      var g := pkgsWithoutRepo[idx];
      var w := IndexOf(g.repos, winningRepo);
      if w < 0 {
        return NotInGroup;
      }
      var losers := g.repos[..w] + g.repos[w + 1..];
      assert losers == RemoveFirst(g.repos, winningRepo);
      pkgsWithoutRepo := pkgsWithoutRepo[idx := Group(g.pkg, losers)];
      ghost var keys := LoserKeys(g.pkg, losers);
      var j := 0;
      while j < |losers|
        invariant 0 <= j <= |losers|
        invariant pkgsWithoutRepo == old(pkgsWithoutRepo)[idx := Group(g.pkg, losers)]
        invariant DeleteKeys(pkg.dependencies, keys[j..]) == DeleteKeys(old(pkg.dependencies), keys)
      {
        var key := JoinFullName(losers[j], g.pkg);
        DeleteKeysStep(pkg.dependencies, keys, j);
        if key !in KeysOf(pkg.dependencies) {
          return MissingKey(key);
        }
        pkg.dependencies := Without(pkg.dependencies, [key]);
        j := j + 1;
      }
      assert keys[j..] == [];
      return Fixed;
    }
  }

  /** A repository name without ':' always splits back out of its key. */
  lemma SplitJoinColonFree(repo: string, pkg: string)
    requires ':' !in repo
    ensures SplitFullName(JoinFullName(repo, pkg)) == DepRef(pkg, repo)
  {
    var t := repo + ":";
    forall i | 0 <= i < |t| ensures !SepAt(t, i) {
      if i < |repo| {
        assert t[i] == repo[i];
      }
    }
    SplitJoinRoundTrip(repo, pkg);
  }
  /** Two declarations of one package under two repositories form one group. */
  lemma GroupsOfTwo(r1: string, r2: string, p: string)
    ensures GroupsOf([DepRef(p, r1), DepRef(p, r2)]) == [Group(p, [r1, r2])]
  {
    var refs := [DepRef(p, r1), DepRef(p, r2)];
    var g1 := [Group(p, [r1])];
    assert GroupsOf([DepRef(p, r1)]) == g1 by {
      assert [DepRef(p, r1)][..0] == [];
      assert IndexOf(Pkgs([]), p) == -1;
    }
    assert refs[..1] == [DepRef(p, r1)];
    assert IndexOf(Pkgs(g1), p) == 0 by {
      assert Pkgs(g1) == [p];
    }
    assert GroupsOf(refs) == AddTo(g1, p, r2);
    assert g1[0].repos + [r2] == [r1, r2];
  }

  /** Deleting the second of two declarations of a package leaves the first. */
  lemma DeleteSecondOfTwo(r1: string, r2: string, p: string)
    requires r1 != r2
    ensures DeleteKeys([(JoinFullName(r1, p), "*"), (JoinFullName(r2, p), "*")], [JoinFullName(r2, p)])
         == Deletion([(JoinFullName(r1, p), "*")], None)
  {
    var k1, k2 := JoinFullName(r1, p), JoinFullName(r2, p);
    var deps := [(k1, "*"), (k2, "*")];
    JoinInjective(r1, r2, p);
    assert k2 == KeysOf(deps)[1];
    assert deps[1..][1..] == [];
    assert Without(deps[1..], [k2]) == [];
    assert Without(deps, [k2]) == [(k1, "*")];
    assert [k2][1..] == [];
  }
  /** A registry of three repositories, in that order. */
  function RegistryOf(first: string, second: string, third: string): Config {
    Config([
      Repository(first, RepoData("https://" + first + ".raven-os.org")),
      Repository(second, RepoData("https://" + second + ".raven-os.org")),
      Repository(third, RepoData("https://" + third + ".raven-os.org"))])
  }

  /** A manifest declaring package `p` under two repositories. */
  function DeclaredTwice(r1: string, r2: string, p: string): Deps {
    [(JoinFullName(r1, p), "*"), (JoinFullName(r2, p), "*")]
  }

  /** Two colon-free repositories give one group holding both. */
  lemma DeclaredTwiceGroups(r1: string, r2: string, p: string)
    requires ':' !in r1 && ':' !in r2
    ensures GroupsOf(SplitAll(KeysOf(DeclaredTwice(r1, r2, p)))) == [Group(p, [r1, r2])]
  {
    var keys := KeysOf(DeclaredTwice(r1, r2, p));
    assert keys == [JoinFullName(r1, p), JoinFullName(r2, p)];
    SplitJoinColonFree(r1, p);
    SplitJoinColonFree(r2, p);
    assert SplitAll(keys) == [DepRef(p, r1), DepRef(p, r2)];
    GroupsOfTwo(r1, r2, p);
  }

  /** `diff` then `fix` as written, with `p` declared under the registry's second and
      third repositories only: `diff` keeps the first repository, which the group does
      not list, so `repos.remove` raises and the manifest is left as it was (with
      `stable`, `beta`, `unstable` and `zlib`, say). */
  method DiffThenFixOnSecondAndThird(first: string, second: string, third: string, p: string)
    returns (outcome: FixOutcome, deps: Deps)
    requires ':' !in second && ':' !in third
    requires first != second && first != third
    ensures outcome == NotInGroup
    ensures deps == DeclaredTwice(second, third, p)
  {
    var pkg := new Package("sys-lib", "app", DeclaredTwice(second, third, p));
    var check := new DuplicateDepsCheck(pkg);
    DeclaredTwiceGroups(second, third, p);
    var ok, skipped := check.Diff(check.pkgsWithoutRepo[0], RegistryOf(first, second, third));
    assert check.winningRepo == first;
    assert first !in check.pkgsWithoutRepo[0].repos;
    ghost var before := pkg.dependencies;
    outcome := check.Fix(0);
    assert pkg.dependencies == before;
    deps := pkg.dependencies;
  }

  /** On that registry, the first repository listing the second and the third is the second. */
  lemma SecondIsFirstListed(first: string, second: string, third: string)
    requires first != second && first != third
    ensures GetFirstOf(RegistryOf(first, second, third).repositories, [second, third])
         == Some(RegistryOf(first, second, third).repositories[1])
  {
    var registry := RegistryOf(first, second, third).repositories;
    assert registry[0].name !in [second, third];
    assert registry[1..][0] == registry[1];
    assert registry[1..][0].name in [second, third];
  }

  /** Keeping the first of two distinct repositories leaves the other one's key to delete. */
  lemma LosersAfterKeepingFirst(r1: string, r2: string, p: string)
    ensures LoserKeys(p, RemoveFirst([r1, r2], r1)) == [JoinFullName(r2, p)]
  {
    assert IndexOf([r1, r2], r1) == 0;
    assert RemoveFirst([r1, r2], r1) == [r2];
  }

  /** The same scenario with the corrected `diff`: the second repository is kept and
      the declaration under the third is deleted. */
  method CorrectedDiffThenFixOnSecondAndThird(first: string, second: string, third: string, p: string)
    returns (outcome: FixOutcome, deps: Deps)
    requires ':' !in second && ':' !in third
    requires first != second && first != third && second != third
    ensures outcome == Fixed
    ensures deps == [(JoinFullName(second, p), "*")]
  {
    var pkg := new Package("sys-lib", "app", DeclaredTwice(second, third, p));
    var check := new DuplicateDepsCheck(pkg);
    DeclaredTwiceGroups(second, third, p);
    SecondIsFirstListed(first, second, third);
    var ok, skipped := check.CorrectedDiff(check.pkgsWithoutRepo[0], RegistryOf(first, second, third));
    assert check.winningRepo == second;
    LosersAfterKeepingFirst(second, third, p);
    DeleteSecondOfTwo(second, third, p);
    ghost var before := pkg.dependencies;
    ghost var g := check.pkgsWithoutRepo[0];
    assert g == Group(p, [second, third]);
    assert before == DeclaredTwice(second, third, p);
    ghost var d := DeleteKeys(before, LoserKeys(g.pkg, RemoveFirst(g.repos, check.winningRepo)));
    assert d == Deletion([(JoinFullName(second, p), "*")], None);
    assert check.winningRepo in g.repos;
    outcome := check.Fix(0);
    assert pkg.dependencies == d.deps;
    deps := pkg.dependencies;
  }
}
