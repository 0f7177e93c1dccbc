/** The ELF dependency check: collects the shared libraries a binary declares as
    needed and looks each one up on three fixed repositories. */
module DepsSolver {
  import opened Wrappers
  import opened Sequences
  import opened Search

  /** One entry of the `.dynamic` section: its `d_tag` and, for DT_NEEDED, the library name. */
  datatype Tag = Tag(dTag: string, needed: string)

  /** A file that parses as ELF; `dynamic` is None when it has no `.dynamic` section. */
  datatype ElfFile = ElfFile(dynamic: Option<seq<Tag>>)

  /** A file found by the globs: its path and what parsing it as ELF gives (None when parsing raises). */
  datatype Candidate = Candidate(path: string, parsed: Option<ElfFile>)

  const NeededTag: string := "DT_NEEDED"

  /** `_is_elf`: false exactly when parsing raises. */
  predicate IsElf(c: Candidate) {
    c.parsed.Some?
  }

  /** The check's items, `filter(self._is_elf, ...)`: the candidates that parse, in order. */
  function ElfItems(candidates: seq<Candidate>): (items: seq<Candidate>)
    ensures forall c :: c in items <==> c in candidates && IsElf(c)
    ensures |items| <= |candidates|
  {
    if candidates == [] then []
    else (if IsElf(candidates[0]) then [candidates[0]] else []) + ElfItems(candidates[1..])
  }

  /** `filter` keeps the globbed order and repetitions: the items of a concatenation
      are the items of each part, one after the other. */
  lemma {:induction false} ElfItemsAppend(a: seq<Candidate>, b: seq<Candidate>)
    ensures ElfItems(a + b) == ElfItems(a) + ElfItems(b)
  {
    if a != [] {
      ElfItemsAppend(a[1..], b);
      var head := if IsElf(a[0]) then [a[0]] else [];
      assert (a + b)[0] == a[0];
      assert (a + b)[1..] == a[1..] + b;
      assert ElfItems(a + b) == head + ElfItems(a[1..] + b);
      assert ElfItems(a) == head + ElfItems(a[1..]);
    } else {
      assert a + b == b;
    }
  }

  /** The DT_NEEDED values of a tag list, in order, repetitions included. */
  function NeededNames(tags: seq<Tag>): seq<string>
  {
    if tags == [] then []
    else
      var t := tags[|tags| - 1];
      NeededNames(tags[..|tags| - 1]) + if t.dTag == NeededTag then [t.needed] else []
  }

  lemma {:induction false} NeededNamesMembers(tags: seq<Tag>)
    ensures forall x :: x in NeededNames(tags) <==> exists t :: t in tags && t.dTag == NeededTag && t.needed == x
  {
    if tags != [] {
      var init := tags[..|tags| - 1];
      NeededNamesMembers(init);
      assert tags == init + [tags[|tags| - 1]];
    }
  }

  /** The libraries an ELF file declares as needed, in declaration order. */
  function Declared(elf: ElfFile): seq<string> {
    match elf.dynamic
    case None => []
    case Some(tags) => NeededNames(tags)
  }

  /** `_fetch_elf_deps`: the DT_NEEDED values without repetitions, in order of first
      appearance; nothing when there is no `.dynamic` section. */
  method FetchElfDeps(elf: ElfFile) returns (deps: seq<string>)
    ensures deps == Dedup(Declared(elf))
    ensures elf.dynamic.None? ==> deps == []
    ensures NoDup(deps)
    ensures forall x :: x in deps <==>
      elf.dynamic.Some? && exists t :: t in elf.dynamic.value && t.dTag == NeededTag && t.needed == x
    ensures forall i, j :: 0 <= i < j < |deps| ==> IndexOf(Declared(elf), deps[i]) < IndexOf(Declared(elf), deps[j])
  {
    deps := [];
    match elf.dynamic {
      case None =>
      case Some(tags) =>
        for i := 0 to |tags|
          invariant deps == Dedup(NeededNames(tags[..i]))
        {
          assert tags[..i + 1][..i] == tags[..i];
          ghost var before := NeededNames(tags[..i]);
          if tags[i].dTag == NeededTag {
            assert NeededNames(tags[..i + 1]) == before + [tags[i].needed];
            assert (before + [tags[i].needed])[..|before|] == before;
          } else {
            assert NeededNames(tags[..i + 1]) == before;
          }
          if tags[i].dTag == NeededTag && tags[i].needed !in deps {
            deps := deps + [tags[i].needed];
          }
        }
        assert tags[..|tags|] == tags;
        NeededNamesMembers(tags);
    }
    DedupMembers(Declared(elf));
    DedupNoDup(Declared(elf));
    DedupFirstAppearance(Declared(elf));
  }

  /** The repositories `_solve_remotely` asks, in order. */
  const SearchedRepositories: seq<string> := ["stable", "beta", "unstable"]

  const Endpoint: string := "raven-os.org"

  /** The base URL of a searched repository: `https://{repository}.raven-os.org`. */
  function RepositoryUrl(repository: string): string {
    "https://" + repository + "." + Endpoint
  }

  /** What one repository contributes: its result names for an ok reply whose body
      reads, [] for 404, and nothing (None) for any other status or any exception. */
  function Lookup(resp: Response): (r: Option<seq<string>>)
    ensures r.Some? ==> resp.Reply? && (IsOk(resp.status) || resp.status == 404)
  {
    match resp
    case Unreachable => None
    case Reply(status, body) =>
      if IsOk(status) then (if body.None? then None else AllNames(body.value))
      else if status == 404 then Some([])
      else None
  }

  /** The results dictionary after asking `repos` in order, as (repository, names)
      pairs, where `found` gives each repository's contribution. */
  function Collected(repos: seq<string>, found: string -> Option<seq<string>>): seq<(string, seq<string>)>
  {
    if repos == [] then []
    else
      var r := repos[|repos| - 1];
      Collected(repos[..|repos| - 1], found) + if found(r).Some? then [(r, found(r).value)] else []
  }

  /** Every entry of the results is a repository that was asked, with its contribution. */
  lemma {:induction false} CollectedFrom(repos: seq<string>, found: string -> Option<seq<string>>)
    ensures forall i :: 0 <= i < |Collected(repos, found)| ==>
      Collected(repos, found)[i].0 in repos && found(Collected(repos, found)[i].0) == Some(Collected(repos, found)[i].1)
  {
    if repos != [] {
      var init := repos[..|repos| - 1];
      CollectedFrom(init, found);
      var prev := Collected(init, found);
      forall i | 0 <= i < |prev|
        ensures prev[i].0 in repos
      {
        assert prev[i].0 in init;
      }
    }
  }

  /** Every repository that was asked and contributes has an entry. */
  lemma {:induction false} CollectedComplete(repos: seq<string>, found: string -> Option<seq<string>>)
    ensures forall r :: r in repos && found(r).Some? ==>
      exists i :: 0 <= i < |Collected(repos, found)| && Collected(repos, found)[i].0 == r
  {
    if repos != [] {
      var init, last := repos[..|repos| - 1], repos[|repos| - 1];
      CollectedComplete(init, found);
      var prev := Collected(init, found);
      var res := Collected(repos, found);
      assert repos == init + [last];
      assert res == prev + if found(last).Some? then [(last, found(last).value)] else [];
      forall q | q in repos && found(q).Some?
        ensures exists i :: 0 <= i < |res| && res[i].0 == q
      {
        if q != last {
          assert q in init;
          var i :| 0 <= i < |prev| && prev[i].0 == q;
          assert res[i] == prev[i];
        } else {
          assert res[|prev|].0 == q;
        }
      }
      assert res == Collected(repos, found);
      assert forall q :: q in repos && found(q).Some? ==> exists i :: 0 <= i < |Collected(repos, found)| && Collected(repos, found)[i].0 == q;
    }
  }


  /** The entries follow the order in which distinct repositories were asked. */
  lemma {:induction false} CollectedOrder(repos: seq<string>, found: string -> Option<seq<string>>)
    requires NoDup(repos)
    ensures forall i, j :: 0 <= i < j < |Collected(repos, found)| ==>
      IndexOf(repos, Collected(repos, found)[i].0) < IndexOf(repos, Collected(repos, found)[j].0)
  {
    if repos != [] {
      var init, r := repos[..|repos| - 1], repos[|repos| - 1];
      assert repos == init + [r];
      NoDupAppend(init, r);
      CollectedOrder(init, found);
      CollectedFrom(init, found);
      var prev := Collected(init, found);
      forall i | 0 <= i < |prev|
        ensures IndexOf(repos, prev[i].0) == IndexOf(init, prev[i].0) < |init|
      {
        IndexOfAppend(init, r, prev[i].0);
      }
      IndexOfAppend(init, r, r);
    }
  }

  /** A repository is in the results exactly when it contributes, with its contribution;
      the results follow the order in which the repositories were asked. */
  lemma CollectedSpec(repos: seq<string>, found: string -> Option<seq<string>>)
    requires NoDup(repos)
    ensures forall i :: 0 <= i < |Collected(repos, found)| ==>
      Collected(repos, found)[i].0 in repos && found(Collected(repos, found)[i].0) == Some(Collected(repos, found)[i].1)
    ensures forall r :: r in repos && found(r).Some? ==>
      exists i :: 0 <= i < |Collected(repos, found)| && Collected(repos, found)[i].0 == r
    ensures forall i, j :: 0 <= i < j < |Collected(repos, found)| ==>
      IndexOf(repos, Collected(repos, found)[i].0) < IndexOf(repos, Collected(repos, found)[j].0)
  {
    CollectedFrom(repos, found);
    CollectedComplete(repos, found);
    CollectedOrder(repos, found);
  }

  /** `_solve_remotely`: asks `stable`, `beta` and `unstable` once each, in that order,
      never raises, and keeps a repository exactly when its reply is usable: the result
      names of an ok reply, in reply order, or [] for 404. */
  method SolveRemotely(dependency: string, search: (string, string) -> Response) returns (results: seq<(string, seq<string>)>)
    ensures results == Collected(SearchedRepositories, r => Lookup(search(RepositoryUrl(r), dependency)))
    ensures forall i :: 0 <= i < |results| ==>
      results[i].0 in SearchedRepositories && Lookup(search(RepositoryUrl(results[i].0), dependency)) == Some(results[i].1)
    ensures forall r :: r in SearchedRepositories && Lookup(search(RepositoryUrl(r), dependency)).Some? ==>
      exists i :: 0 <= i < |results| && results[i].0 == r
    ensures forall i, j :: 0 <= i < j < |results| ==>
      IndexOf(SearchedRepositories, results[i].0) < IndexOf(SearchedRepositories, results[j].0)
  {
    ghost var found := r => Lookup(search(RepositoryUrl(r), dependency));
    results := [];
    var repositories := SearchedRepositories;
    for i := 0 to |repositories|
      invariant results == Collected(repositories[..i], found)
    {
      var repository := repositories[i];
      assert repositories[..i + 1][..i] == repositories[..i];
      var resp := search(RepositoryUrl(repository), dependency);
      match resp {
        case Unreachable =>
        case Reply(status, body) =>
          if IsOk(status) {
            if body.Some? {
              var names := AllNames(body.value);
              if names.Some? {
                results := results + [(repository, names.value)];
              }
            }
          } else if status == 404 {
            results := results + [(repository, [])];
          }
      }
    }
    assert repositories[..|repositories|] == repositories;
    assert NoDup(repositories) by {
      assert repositories[0][0] == 's' && repositories[1][0] == 'b' && repositories[2][0] == 'u';
    }
    CollectedSpec(repositories, found);
  }

  /** `validate`: looks up every needed library once, in order of first appearance,
      throws the answers away and passes. */
  method Validate(elf: ElfFile, search: (string, string) -> Response) returns (ok: bool, searched: seq<string>)
    ensures ok
    ensures searched == Dedup(Declared(elf))
  {
    var deps := FetchElfDeps(elf);
    searched := [];
    for i := 0 to |deps|
      invariant searched == deps[..i]
    {
      var results := SolveRemotely(deps[i], search);
      searched := searched + [deps[i]];
    }
    assert deps[..|deps|] == deps;
    ok := true;
  }
}
