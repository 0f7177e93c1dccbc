/** The ordered registry of configured package repositories (name -> data).
    Its order is the repositories' priority: earlier means preferred. */
module Repositories {
  import opened Wrappers
  import opened Sequences

  datatype RepoData = RepoData(url: string)

  /** One entry of the registry: the pair `(r_name, r)` of the configuration's dictionary. */
  datatype Repository = Repository(name: string, data: RepoData)

  type Registry = seq<Repository>

  /** The part of the process-wide configuration this core reads. */
  datatype Config = Config(repositories: Registry)

  /** The repository names, in registry order (`list(conf['repositories'].keys())`). */
  function Names(registry: Registry): (names: seq<string>)
    ensures |names| == |registry|
    ensures forall k :: 0 <= k < |registry| ==> names[k] == registry[k].name
  {
    seq(|registry|, k requires 0 <= k < |registry| => registry[k].name)
  }

  /** `get_all`: the configured registry itself, in its configured order. */
  function GetAll(conf: Config): (registry: Registry)
    ensures registry == conf.repositories
  {
    conf.repositories
  }

  /** `get_first_of`: the first configured repository whose name is in `repos`,
      or None when no configured repository is named there. */
  function GetFirstOf(registry: Registry, repos: seq<string>): (r: Option<Repository>)
    ensures r.None? <==> forall k :: 0 <= k < |registry| ==> registry[k].name !in repos
    ensures r.Some? ==>
      var k := IndexOf(Names(registry), r.value.name);
      && 0 <= k
      && registry[k] == r.value
      && r.value.name in repos
      && forall j :: 0 <= j < k ==> registry[j].name !in repos
  {
    if registry == [] then None
    else if registry[0].name in repos then
      assert Names(registry)[0] == registry[0].name;
      Some(registry[0])
    else
      var r := GetFirstOf(registry[1..], repos);
      assert Names(registry) == [registry[0].name] + Names(registry[1..]);
      r
  }
}
