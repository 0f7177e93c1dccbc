# npf-checker checks, modelled in Dafny

npf-checker validates a package directory before it is published to the Raven-OS
repositories. This project models three of its checks and the repository registry they
share.

- **Duplicate dependencies** (`core/checks/duplicate_deps.py`). The manifest's
  `dependencies` table maps `"repo::pkg"` keys to versions. The check groups the keys by
  package and fails every package declared under more than one repository. It then picks
  the repository to keep (`diff`) and deletes the other declarations (`fix`).
- **ELF dependencies** (`core/checks/deps_solver.py`). For each executable or shared
  library, the check collects the DT_NEEDED libraries of its `.dynamic` section. It looks
  each one up on the `stable`, `beta` and `unstable` repositories and collects the
  answers.
- **Duplicate files** (`core/checks/duplicate_files.py`). For each file of the package,
  the check asks every configured repository which packages ship a file at the same path.
  It records, per repository, the first owner that is not the package itself.
- **Repositories** (`core/repositories.py`). This is the ordered registry of configured
  repositories. Its order is the priority: an earlier repository is preferred.

Modules:
- `Wrappers`: `Option`.
- `Sequences`: Python list operations and the facts about them.
  - `list.index` is `IndexOf`.
  - `list.remove` is `RemoveFirst`.
  - Order-preserving de-duplication is `Dedup`.
- `Strings`: the `str` operations on the `"::"` separator.
  - `find` is `Find`.
  - `split` is `SplitOn`.
  - `join` is `JoinOn`.
  - Python slicing with clamped and negative bounds is `SliceBound`.
- `Repositories`: the registry.
- `Search`: the answers of a repository's `/api/search` endpoint.
- `Packages`: the package and its ordered dependency table.
- One module per check.

Representation choices:
- Python dictionaries keep insertion order, and these checks depend on that order. So
  every dictionary is a sequence of pairs.
- Objects the checks update in place are classes:
  - `Package`, whose `dependencies` field `fix` rewrites;
  - `DuplicateDepsCheck`, with `pkgsWithoutRepo` and `winningRepo`;
  - `DuplicateFilesCheck`, with `matched`.
- Most loops in the source are methods with loop invariants:
  - `_gen_map_of_pkgs_to_repo`, the corrected `diff` and the `del` loop of `fix` are
    proved against specification functions whose properties are proved as lemmas;
  - so are `_fetch_elf_deps`, `_solve_remotely` and the duplicate-file `validate`.
- The exceptions:
  - The loop of `get_first_of` is the recursive function `GetFirstOf`, whose contract
    states its result directly.
  - `diff` as written states its result directly, with no specification function:
    its loop cannot change `lowest_idx`.
  - The scan of `check_in_repo` is specified by the recursive function `ScanResults`.

Network access, the configuration file, globbing and ELF parsing are parameters:
- A search is a function from (base URL, search term) to a `Response`. The response is
  `Unreachable` when `requests.get` raises. Otherwise it is a status and a body, and the
  body is None when `resp.json()` fails.
- The configuration is a `Config` value.
- The globbed paths are a sequence of `FsEntry`, each with a directory flag.
- An ELF candidate carries its parsed form, or None when parsing raises.

Two points about what the code does:
- **Successful reply.** The code tests `resp.ok` from the requests library, which is false
  only for statuses 400 to 599. So a 1xx or 3xx reply is read as a result, not as a failed
  lookup (`Search.IsOk`).
- **Winning repository.** `diff`'s own log message (core/checks/duplicate_deps.py:59-60)
  says the repository is kept "as it appears first" in the configuration. The code does not
  pick that repository: see "Findings". The model follows the code and adds a corrected
  `diff`.

## Model

| member | source | states |
|---|---|---|
| Repositories.GetAll | core/repositories.py:4-5 | The registry is the configured repositories, unchanged and in configured order. |
| Repositories.GetFirstOf | core/repositories.py:8-12 | Gives None exactly when no configured repository is named in `repos`. Otherwise gives the repository at the first registry position whose name `repos` lists, and no earlier repository is listed. |
| Repositories.Names | core/checks/duplicate_deps.py:50 | `list(conf['repositories'].keys())`: the registry's names, position by position. |
| Sequences.IndexOf | core/checks/duplicate_deps.py:53 | `list.index`: gives -1 (ValueError) exactly when the element is absent. Otherwise gives a position holding the element with no earlier occurrence. |
| Sequences.RemoveFirst | core/checks/duplicate_deps.py:64 | `list.remove`: one element shorter, the multiset loses exactly one copy of `x`, and elements before the first `x` stay put while later ones shift down by one. |
| Sequences.RemoveFirstDistinct | core/checks/duplicate_deps.py:64 | Removing the winner from a repository list without repetitions leaves no repetitions and no copy of the winner. |
| Sequences.DedupMembers | core/checks/deps_solver.py:66-69 | De-duplication keeps exactly the elements of its input. |
| Sequences.DedupNoDup | core/checks/deps_solver.py:66-69 | De-duplication leaves no repetitions. |
| Sequences.DedupFirstAppearance | core/checks/deps_solver.py:66-69 | De-duplicated elements appear in the order of their first occurrence in the input. |
| Sequences.DedupLength | core/checks/deps_solver.py:66-69 | De-duplication never lengthens a list. It keeps the length exactly when the input has no repetitions, and then changes nothing. |
| Strings.Find | core/checks/duplicate_deps.py:30 | `str.find("::")`: gives -1 exactly when there is no separator. Otherwise gives a position where the separator starts, with no earlier one. |
| Strings.SplitOn | core/checks/duplicate_files.py:48 | `split("::")`: cut at the first separator, then split the rest. The result always has at least one piece; the three lemmas below characterise it. |
| Strings.SplitOnJoin | core/checks/duplicate_files.py:48 | Joining the pieces of `split("::")` with "::" gives back the original string. |
| Strings.SplitOnPieces | core/checks/duplicate_files.py:48 | No piece of `split("::")` contains the separator. |
| Strings.SplitOnLeftmost | core/checks/duplicate_files.py:48 | Each cut is at the leftmost separator: no piece but the last contains "::" once followed by ':'. So ":::" splits into "" and ":", never ":" and "". |
| Search.IsOk | core/checks/deps_solver.py:44 | Definition of `resp.ok`: false exactly for statuses 400 to 599. |
| Search.AllNames | core/checks/deps_solver.py:46 | Gives None exactly when some result lacks a name (the KeyError). Otherwise gives the names one per result, in order. |
| Packages.Without | core/checks/duplicate_deps.py:66 | `del`: an entry survives exactly when its key is not deleted, and the table never grows. Order is kept (`WithoutAppend`). |
| Packages.WithoutAppend | core/checks/duplicate_deps.py:66 | `del` keeps the order of the other entries: deleting from two tables joined is deleting from each, one after the other. |
| Packages.WithoutTwice | core/checks/duplicate_deps.py:65-66 | Deleting one key and then the rest equals deleting them all at once. |
| Packages.KeysOfWithout | core/checks/duplicate_deps.py:65-66 | After the deletions a key is present exactly when it was present and was not deleted. |
| DuplicateDeps.SplitFullName | core/checks/duplicate_deps.py:28-31 | For a key with "::", the parts rejoin to the key and the repository has no "::". For a key without one, the package is all but the first character and the repository all but the last (`find` gives -1). For the empty key, both parts are empty. |
| DuplicateDeps.SplitJoinRoundTrip | core/checks/duplicate_deps.py:28-31 | Splitting `f'{repo}::{pkg}'` gives back (pkg, repo) exactly when `repo + ":"` has no "::". |
| DuplicateDeps.SplitAll | core/checks/duplicate_deps.py:16-19 | `tuple_list`: one split pair per dependency key, in manifest order. |
| DuplicateDeps.SplitAllWellFormed | core/checks/duplicate_deps.py:16-19 | On distinct keys that each contain "::", every pair joins back to its key and the pairs are distinct. |
| DuplicateDeps.PkgsOf | core/checks/duplicate_deps.py:16-22 | The package of each split pair, position by position, in manifest order. |
| DuplicateDeps.GroupsOfPrefix | core/checks/duplicate_deps.py:21-22 | Grouping one more pair is one step of the comprehension: append to the package's group, or open a new group for it. |
| DuplicateDeps.AddToPkgs | core/checks/duplicate_deps.py:21-22 | A step opens a group, at the end, exactly for a package not seen before. |
| DuplicateDeps.ReposOfNonEmpty | core/checks/duplicate_deps.py:21-22 | A package's repository list is non-empty exactly when some pair names the package. |
| DuplicateDeps.ReposOfFrom | core/checks/duplicate_deps.py:21-22 | Every repository in a package's list comes from a pair naming that package and repository. |
| DuplicateDeps.GroupsOfPkgs | core/checks/duplicate_deps.py:14-23 | One group per package, in order of first appearance in the manifest. |
| DuplicateDeps.GroupsOfRepos | core/checks/duplicate_deps.py:14-23 | Each group lists, in manifest order, the repository of every pair naming its package. So no group is empty. |
| DuplicateDeps.GroupsOfSpec | core/checks/duplicate_deps.py:14-23 | `_gen_map_of_pkgs_to_repo` in full: both facts above together. |
| DuplicateDeps.TotalReposOfGroups | core/checks/duplicate_deps.py:14-23 | Every pair is counted in exactly one group: the group sizes add up to the number of keys. |
| DuplicateDeps.ReposOfDeclared | core/checks/duplicate_deps.py:14-23 | In a well-formed manifest, every repository in a group names a key that is in the manifest. |
| DuplicateDeps.ReposOfDistinct | core/checks/duplicate_deps.py:14-23 | Distinct pairs never put a repository twice in one group. |
| DuplicateDeps.CountsAreOne | core/checks/duplicate_deps.py:37-39 | No package is declared twice exactly when every declared package has exactly one repository. |
| DuplicateDeps.Validate | core/checks/duplicate_deps.py:37-39 | Definition: a group passes when it lists exactly one repository. `AllGroupsPassIff` states what that means for the manifest. |
| DuplicateDeps.AllGroupsPassIff | core/checks/duplicate_deps.py:37-39 | Every group passes `validate` (exactly one repository) exactly when no package is declared twice in the manifest. |
| DuplicateDeps.Unregistered | core/checks/duplicate_deps.py:51-57 | The repositories `diff` skips with a warning are exactly the group's repositories that the registry does not define. |
| DuplicateDeps.LowestListedStep | core/checks/duplicate_deps.py:51-55 | With a start of "no winner yet", one loop iteration keeps `lowest` at the first registry position the group has listed so far. |
| DuplicateDeps.FirstListedIsLowest | core/checks/duplicate_deps.py:49-58 | That lowest listed position is the repository `get_first_of` finds, and there is none when the group lists no configured repository. |
| DuplicateDeps.LoserKeys | core/checks/duplicate_deps.py:65-66 | The keys `fix` deletes are `f'{repo}::{pkg}'` for each losing repository, in order. |
| DuplicateDeps.LoserKeysDistinct | core/checks/duplicate_deps.py:64-66 | Distinct losers give distinct keys, none of which is the winner's key. |
| DuplicateDeps.DeleteKeysStep | core/checks/duplicate_deps.py:65-66 | One `del` raises KeyError on a missing key and otherwise removes the key and goes on. |
| DuplicateDeps.DeleteKeysSpec | core/checks/duplicate_deps.py:65-66 | Every deletion succeeds exactly when the keys are distinct and all present, and then exactly those keys are removed. Otherwise the reported missing key is one of the keys. |
| DuplicateDeps.FixOnGroup | core/checks/duplicate_deps.py:62-66 | For a group of distinct, declared repositories with the winner among them, all deletions succeed and the winner's key survives. |
| DuplicateDeps.FixOnWellFormed | core/checks/duplicate_deps.py:62-66 | On a well-formed manifest, fixing any group with the winner in it succeeds. Every loser's key is gone, every other entry keeps its value and order (the result is `Without`, whose order `WithoutAppend` fixes), and the winner's key survives. |
| DuplicateDeps.DuplicateDepsCheck.constructor | core/checks/duplicate_deps.py:8-12 | The groups are those of the manifest's keys and `winning_repo` is "". |
| DuplicateDeps.DuplicateDepsCheck.GenMapOfPkgsToRepo | core/checks/duplicate_deps.py:14-23 | The loop builds exactly the groups `GroupsOf` specifies for the split keys. |
| DuplicateDeps.DuplicateDepsCheck.Diff | core/checks/duplicate_deps.py:45-58 | As written: the skipped repositories are the unregistered ones. With a non-empty registry the winner is the first configured repository, whatever the group holds. With an empty registry the final indexing raises (`ok` false) and the winner stays "". |
| DuplicateDeps.DuplicateDepsCheck.CorrectedDiff | core/checks/duplicate_deps.py:45-58 | Corrected: the same skipped list. The winner is the repository `get_first_of` finds for the group, and so is in the group. When the group lists no configured repository, there is no winner. |
| DuplicateDeps.DuplicateDepsCheck.Fix | core/checks/duplicate_deps.py:62-66 | If the winner is not in the group, ValueError and nothing changes. Otherwise the group loses its first copy of the winner, and the loser keys are deleted in order, stopping at the first missing key (KeyError). |
| DuplicateDeps.SplitJoinColonFree | core/checks/duplicate_deps.py:28-31 | A repository name without ':' always splits back out of its key. |
| DuplicateDeps.GroupsOfTwo | core/checks/duplicate_deps.py:14-23 | Two declarations of one package form a single group of both repositories, in order. |
| DuplicateDeps.DeclaredTwiceGroups | core/checks/duplicate_deps.py:14-23 | A manifest declaring one package under two colon-free repositories has that single group. |
| DuplicateDeps.DeleteSecondOfTwo | core/checks/duplicate_deps.py:65-66 | Deleting the second of two declarations leaves the first, and nothing is missing. |
| DuplicateDeps.SecondIsFirstListed | core/repositories.py:8-12 | With registry (first, second, third), the first listed repository of the group {second, third} is second. |
| DuplicateDeps.LosersAfterKeepingFirst | core/checks/duplicate_deps.py:64-65 | Keeping the first of two repositories leaves the second as the only loser key. |
| DuplicateDeps.DiffThenFixOnSecondAndThird | core/checks/duplicate_deps.py:45-66 | As written: for a package declared under the registry's second and third repositories, `diff` then `fix` ends in ValueError and the manifest is unchanged. |
| DuplicateDeps.CorrectedDiffThenFixOnSecondAndThird | core/checks/duplicate_deps.py:45-66 | Corrected: the same input is fixed, and only the declaration under the second repository remains. |
| DepsSolver.ElfItems | core/checks/deps_solver.py:10-14 | The items are exactly the globbed candidates that parse as ELF (`_is_elf`), never more than were found. Their order is fixed by `ElfItemsAppend`. |
| DepsSolver.IsElf | core/checks/deps_solver.py:74-80 | Definition of `_is_elf`: true exactly when parsing the file as ELF does not raise. |
| DepsSolver.ElfItemsAppend | core/checks/deps_solver.py:13 | `filter` keeps the globbed order and repetitions: the items of two lists joined are the items of the first, then those of the second. |
| DepsSolver.NeededNamesMembers | core/checks/deps_solver.py:66-69 | A name is among the collected values exactly when some DT_NEEDED tag carries it. |
| DepsSolver.FetchElfDeps | core/checks/deps_solver.py:59-71 | The DT_NEEDED names without repetitions, in order of first appearance. There are none without a `.dynamic` section, and exactly the names of DT_NEEDED tags otherwise. |
| DepsSolver.Lookup | core/checks/deps_solver.py:42-53 | One repository's contribution in the `try` block. Only a reply that is ok or 404 contributes: a readable ok reply gives its names, a 404 gives []. An exception, an unreadable body, a missing name or any other status gives nothing. |
| DepsSolver.CollectedFrom | core/checks/deps_solver.py:39-53 | Every entry of the results is an asked repository, with the names it answered. |
| DepsSolver.CollectedComplete | core/checks/deps_solver.py:39-53 | Every asked repository whose answer is usable has an entry. |
| DepsSolver.CollectedOrder | core/checks/deps_solver.py:39-53 | Entries follow the order in which distinct repositories were asked. |
| DepsSolver.CollectedSpec | core/checks/deps_solver.py:33-56 | The three facts together: a repository has an entry exactly when its answer is usable, with that answer, in asking order. |
| DepsSolver.SolveRemotely | core/checks/deps_solver.py:33-56 | Asks `stable`, `beta` and `unstable` once each, in that order, and never raises. A repository has an entry exactly when its reply is ok with a readable list of names, or is 404 (empty list), and entries keep that order. |
| DepsSolver.Validate | core/checks/deps_solver.py:16-21 | Looks up each needed library once, in order of first appearance, and always passes. |
| DuplicateFiles.CheckedFiles | core/checks/duplicate_files.py:10-16 | A path is an item exactly when it was globbed, is not `manifest.toml` and is not a directory. Their order is fixed by `CheckedFilesAppend`. |
| DuplicateFiles.CheckedFilesAppend | core/checks/duplicate_files.py:12-15 | `filter` keeps glob order and repetitions: the items of two lists joined are the items of the first, then those of the second. |
| DuplicateFiles.Basename | core/checks/duplicate_files.py:40 | `os.path.basename`: a suffix of the path without '/', preceded by '/' whenever it is shorter than the path. |
| DuplicateFiles.ScanResults | core/checks/duplicate_files.py:46-53 | The result loop of `check_in_repo`. Results at other paths are skipped. The first result that lacks a field it reads, or whose name at the file's path does not split in two, ends it with an exception. The first foreign copy ends it with that owner. `OwnerIsForeignCopy` and `NoOwnerMeansNoForeignCopy` state what it finds. |
| DuplicateFiles.OwnerIsForeignCopy | core/checks/duplicate_files.py:45-53 | A recorded owner is the name of the first foreign copy among the results: a result at the file's path whose "::" split has two parts, the second not the package's own "category/name". No earlier result is a foreign copy. |
| DuplicateFiles.NoOwnerMeansNoForeignCopy | core/checks/duplicate_files.py:45-53 | When the scan finds no owner, no result at the file's path belongs to another package. |
| DuplicateFiles.ScanRaises | core/checks/duplicate_files.py:46-48 | The scan raises (KeyError or ValueError) exactly when some result raises and every earlier result is passed over. A result raises when it has no `path`, or is at the file's path with no `name` or with a name that does not split in two. |
| DuplicateFiles.ScanFindsNothing | core/checks/duplicate_files.py:46-53 | The scan finds no owner exactly when every result is passed over: none is a foreign copy and none raises. |
| DuplicateFiles.OwnersFromRepositories | core/checks/duplicate_files.py:25-30 | No more names than repositories, and each collected name is one that some repository gave. |
| DuplicateFiles.Reporting | core/checks/duplicate_files.py:29-30 | The positions of the repositories that add a name: strictly increasing, each such repository's position present, and only those. |
| DuplicateFiles.OwnersInOrder | core/checks/duplicate_files.py:29-30 | The i-th collected name is the name added by the i-th reporting repository in registry order. So there is exactly one name per reporting repository and none from the others. |
| DuplicateFiles.OwnersComplete | core/checks/duplicate_files.py:29-30 | No early stop: the name added by every reporting repository is collected. |
| DuplicateFiles.MatchesFromRepositories | core/checks/duplicate_files.py:25-30 | `match` holds one name per repository that reports a foreign owner for the file, namely that owner, in registry order. A repository reporting none adds nothing, and no reporting repository is skipped. |
| DuplicateFiles.DuplicateFilesCheck.constructor | core/checks/duplicate_files.py:10-19 | The items are the checked files, the registry is `get_all()` and `match` is empty. |
| DuplicateFiles.DuplicateFilesCheck.Validate | core/checks/duplicate_files.py:25-30 | Empties `match`, then asks every configured repository in registry order. `match` ends as `Matches`, whose completeness and order `MatchesFromRepositories` proves. |
| DuplicateFiles.DuplicateFilesCheck.CheckInRepo | core/checks/duplicate_files.py:32-63 | Returns false and appends one name exactly when an ok, readable reply names a foreign owner of the file before any result that raises (`OwnerIn`). A result raises when it has no `path`, or when it is at the file's path with no `name` or with a name that does not split in two. Otherwise (not ok, the scan raises first, or no foreign owner) returns true and leaves `match` unchanged. |

## Left out

- HTTP itself: URL building beyond the base URL, `urllib.parse.quote` of the search term and the query parameters are not modelled. The search is a function of (base URL, term).
- The log calls (`log.i`, `log.w`, `log.e`, `log.push`) are not modelled, except that `diff`'s "skipping" warnings appear as its `skipped` result.
- ELF parsing with elftools is given as each candidate's parsed form; its failure modes are not modelled.
- Globbing (`utils.find_files`, `find_files_generator`) and `os.path.isdir` are given as the list of entries.
- `core.config.get()` is a `Config` parameter; `core.args.get_args().config` is only used in log messages.
- `write_pkg_manifest` is not modelled; the fixed table is left in `Package.dependencies`.
- `show`, `run` and `edit` of the three checks only log or open a shell, so they are not modelled. Nor is `DuplicateFilesCheck.fix`, which calls `os.remove`.
- `DuplicateFilesCheck.diff` only logs (core/checks/duplicate_files.py:68-69), and `ElfDepsChecker.show` and `ElfDepsChecker.diff` do nothing (core/checks/deps_solver.py:23-27), so they are not modelled.
- The base check engine in `core/checks/base.py`, which iterates items and calls validate, diff and fix, is not part of this model. Each operation is modelled on one item.
- DuplicateDeps.DuplicateDepsCheck.Fix: takes its item by position in `pkgsWithoutRepo`. In the source it receives the dictionary's own (pkg, list) pair and mutates that list through the alias.
- DuplicateFiles.DuplicateFilesCheck.Validate: the source's `validate` returns None for every item. How the engine reads that is part of the base engine.
- DepsSolver.Validate: the per-library results are computed and discarded, as in the source; the model returns the looked-up libraries instead of the discarded results.
- DuplicateFiles.DuplicateFilesCheck.CheckInRepo: assumes the manifest has `category` and `name` (`Packages.Package` always holds them). In the source, a missing one raises KeyError at core/checks/duplicate_files.py:50, inside the `try`: `check_in_repo` then returns True and records nothing, where the model records the owner.
- DuplicateDeps.DuplicateDepsCheck.constructor: assumes the manifest has a `dependencies` table (`Packages.Package` always holds one). In the source, a missing table raises KeyError out of the constructor (core/checks/duplicate_deps.py:18).
- Registry entries without a `url`: `repo_data['url']` is read outside the `try`, so such an entry makes `validate` raise. Every `RepoData` has a url, so the model does not capture that exception.
- Search results whose elements are not objects, or whose fields are not strings, are not modelled: each result is a pair of optional strings.
- Search: `requests.get` following redirects is not modelled; a reply is its final status and body.

## Findings

| source | as written | input that shows it | evidently intended | confidence | as-written member | corrected member |
|---|---|---|---|---|---|---|
| core/checks/duplicate_deps.py:49-58 | `lowest_idx` starts at 0 and only a smaller index replaces it, so the winner is always the registry's first repository, whether or not the group lists it. | Registry `stable`, `beta`, `unstable`; manifest declares `beta::zlib` and `unstable::zlib`. `diff` picks `stable`, and `fix` then raises ValueError at `repos.remove`. | The winner is the first configured repository that the group lists (`beta` here), and `fix` keeps only `beta::zlib`. | high, not executed | DuplicateDeps.DiffThenFixOnSecondAndThird | DuplicateDeps.CorrectedDiffThenFixOnSecondAndThird |
