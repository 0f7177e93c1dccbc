/** The duplicate-file check: for every file of the package, asks each configured
    repository which packages already ship a file at the same path, and records the
    first foreign owner each repository reports. */
module DuplicateFiles {
  import opened Wrappers
  import opened Strings
  import opened Search
  import opened Repositories
  import opened Packages

  const ManifestFile: string := "manifest.toml"

  // A path produced by the recursive glob, and whether it is a directory.
  datatype FsEntry = FsEntry(path: string, isDir: bool)

  /** The check's items: every globbed path except the manifest and directories, in glob order. */
  function CheckedFiles(entries: seq<FsEntry>): (items: seq<string>)
    ensures forall p :: p in items <==>
      exists e :: e in entries && e.path == p && p != ManifestFile && !e.isDir
    ensures |items| <= |entries|
  {
    if entries == [] then []
    else
      var e := entries[0];
      assert forall x :: x in entries <==> x == e || x in entries[1..];
      (if e.path != ManifestFile && !e.isDir then [e.path] else []) + CheckedFiles(entries[1..])
  }

  /** `filter` keeps glob order and repetitions: the items of a concatenation are the
      items of each part, one after the other. */
  lemma {:induction false} CheckedFilesAppend(a: seq<FsEntry>, b: seq<FsEntry>)
    ensures CheckedFiles(a + b) == CheckedFiles(a) + CheckedFiles(b)
  {
    if a != [] {
      CheckedFilesAppend(a[1..], b);
      var head := if a[0].path != ManifestFile && !a[0].isDir then [a[0].path] else [];
      assert (a + b)[0] == a[0];
      assert (a + b)[1..] == a[1..] + b;
      assert CheckedFiles(a + b) == head + CheckedFiles(a[1..] + b);
      assert CheckedFiles(a) == head + CheckedFiles(a[1..]);
    } else {
      assert a + b == b;
    }
  }

  /** `os.path.basename`: the part of the path after its last '/'. */
  function Basename(path: string): (b: string)
    ensures '/' !in b
    ensures |b| <= |path| && b == path[|path| - |b|..]
    ensures |b| < |path| ==> path[|path| - |b| - 1] == '/'
  {
    if path == [] then []
    else if path[|path| - 1] == '/' then []
    else Basename(path[..|path| - 1]) + [path[|path| - 1]]
  }

  /** The package's own "category/name", as the search results spell it after "::". */
  function OwnName(pkg: Package): string {
    pkg.category + "/" + pkg.name
  }

  /** How the scan of one reply's results ends: a result owned by another package,
      no such result, or an exception (a missing field, or a name that does not split
      into exactly two parts on "::"). */
  datatype Scan = Owner(name: string) | NoOwner | Raised

  /** The `for res in resp.json()` loop of `check_in_repo`, for file `item` of package `own`. */
  function ScanResults(item: string, own: string, entries: seq<SearchEntry>): Scan
  {
    if entries == [] then NoOwner
    else
      var e := entries[0];
      if e.path.None? then Raised
      else if e.path.value != "/" + item then ScanResults(item, own, entries[1..])
      else if e.name.None? then Raised
      else
        var parts := SplitOn(e.name.value);
        if |parts| != 2 then Raised
        else if parts[1] != own then Owner(e.name.value)
        else ScanResults(item, own, entries[1..])
  }

  /** A result with the file's path whose name splits on "::" into a repository and a
      "category/name" other than `own`. */
  predicate ForeignCopy(item: string, own: string, e: SearchEntry) {
    && e.path == Some("/" + item)
    && e.name.Some?
    && |SplitOn(e.name.value)| == 2
    && SplitOn(e.name.value)[1] != own
  }

  /** A recorded owner is the name of the first result at the file's path that
      belongs to another package: no earlier result is a foreign copy. */
  lemma {:induction false} OwnerIsForeignCopy(item: string, own: string, entries: seq<SearchEntry>)
    ensures ScanResults(item, own, entries).Owner? ==>
      exists i :: 0 <= i < |entries| && ForeignCopy(item, own, entries[i]) &&
        entries[i].name == Some(ScanResults(item, own, entries).name) &&
        forall j :: 0 <= j < i ==> !ForeignCopy(item, own, entries[j])
  {
    if entries != [] && ScanResults(item, own, entries).Owner? {
      var e := entries[0];
      if ForeignCopy(item, own, e) {
        assert entries[0].name == Some(ScanResults(item, own, entries).name);
      } else {
        var tail := entries[1..];
        OwnerIsForeignCopy(item, own, tail);
        var i :| 0 <= i < |tail| && ForeignCopy(item, own, tail[i]) &&
          tail[i].name == Some(ScanResults(item, own, tail).name) &&
          forall j :: 0 <= j < i ==> !ForeignCopy(item, own, tail[j]);
        assert entries[i + 1] == tail[i];
        forall j | 0 <= j < i + 1
          ensures !ForeignCopy(item, own, entries[j])
        {
          if j > 0 {
            assert entries[j] == tail[j - 1];
          }
        }
      }
    }
  }

  /** When the scan finds no owner, no result at the file's path belongs to another package. */
  lemma {:induction false} NoOwnerMeansNoForeignCopy(item: string, own: string, entries: seq<SearchEntry>)
    ensures ScanResults(item, own, entries).NoOwner? ==>
      forall i :: 0 <= i < |entries| ==> !ForeignCopy(item, own, entries[i])
  {
    if entries != [] && ScanResults(item, own, entries).NoOwner? {
      NoOwnerMeansNoForeignCopy(item, own, entries[1..]);
      assert forall i :: 1 <= i < |entries| ==> entries[i] == entries[1..][i - 1];
    }
  }

  /** A result on which the scan raises: it has no path (KeyError), or it is at the file's
      path and has no name (KeyError) or a name that does not split into two parts on
      "::" (ValueError from the unpacking). */
  predicate RaisesOn(item: string, e: SearchEntry) {
    || e.path.None?
    || (e.path.value == "/" + item && (e.name.None? || |SplitOn(e.name.value)| != 2))
  }

  /** A result the scan reads and passes over: neither a foreign copy nor one that raises. */
  predicate PassedOver(item: string, own: string, e: SearchEntry) {
    !ForeignCopy(item, own, e) && !RaisesOn(item, e)
  }

  /** The scan raises exactly when some result raises and every result before it is
      passed over. */
  lemma {:induction false} ScanRaises(item: string, own: string, entries: seq<SearchEntry>)
    ensures ScanResults(item, own, entries).Raised? <==>
      exists i :: 0 <= i < |entries| && RaisesOn(item, entries[i]) &&
        forall j :: 0 <= j < i ==> PassedOver(item, own, entries[j])
  {
    if entries != [] {
      var e, tail := entries[0], entries[1..];
      ScanRaises(item, own, tail);
      assert forall i :: 1 <= i < |entries| ==> entries[i] == tail[i - 1];
      if PassedOver(item, own, e) {
        assert ScanResults(item, own, entries) == ScanResults(item, own, tail);
        if ScanResults(item, own, tail).Raised? {
          var i :| 0 <= i < |tail| && RaisesOn(item, tail[i]) &&
            forall j :: 0 <= j < i ==> PassedOver(item, own, tail[j]);
          assert RaisesOn(item, entries[i + 1]);
          forall j | 0 <= j < i + 1
            ensures PassedOver(item, own, entries[j])
          {
            if j > 0 {
              assert entries[j] == tail[j - 1];
            }
          }
        } else {
          forall i | 0 <= i < |entries| && RaisesOn(item, entries[i])
            ensures exists j :: 0 <= j < i && !PassedOver(item, own, entries[j])
          {
            assert i > 0 && tail[i - 1] == entries[i];
            var j :| 0 <= j < i - 1 && !PassedOver(item, own, tail[j]);
            assert entries[j + 1] == tail[j];
          }
        }
      } else if RaisesOn(item, e) {
        assert ScanResults(item, own, entries).Raised?;
      } else {
        assert ForeignCopy(item, own, e);
        assert ScanResults(item, own, entries).Owner?;
        forall i | 0 <= i < |entries| && RaisesOn(item, entries[i])
          ensures exists j :: 0 <= j < i && !PassedOver(item, own, entries[j])
        {
          assert i > 0;
          assert !PassedOver(item, own, entries[0]);
        }
      }
    }
  }

  /** The scan finds nothing exactly when every result is passed over. */
  lemma {:induction false} ScanFindsNothing(item: string, own: string, entries: seq<SearchEntry>)
    ensures ScanResults(item, own, entries).NoOwner? <==>
      forall i :: 0 <= i < |entries| ==> PassedOver(item, own, entries[i])
  {
    if entries != [] {
      var e, tail := entries[0], entries[1..];
      ScanFindsNothing(item, own, tail);
      assert forall i :: 1 <= i < |entries| ==> entries[i] == tail[i - 1];
      if PassedOver(item, own, e) {
        assert ScanResults(item, own, entries) == ScanResults(item, own, tail);
        if !ScanResults(item, own, tail).NoOwner? {
          var i :| 0 <= i < |tail| && !PassedOver(item, own, tail[i]);
          assert !PassedOver(item, own, entries[i + 1]);
        }
      } else {
        assert !ScanResults(item, own, entries).NoOwner?;
      }
    }
  }

  /** What one repository's reply adds to `match`: the owner's name, or nothing when the
      reply is not ok, cannot be read, or reports no foreign owner. */
  function OwnerIn(item: string, own: string, resp: Response): Option<string>
  {
    match resp
    case Unreachable => None
    case Reply(status, body) =>
      if !IsOk(status) || body.None? then None
      else
        match ScanResults(item, own, body.value)
        case Owner(n) => Some(n)
        case _ => None
  }

  /** The response a repository gives for a file: the search for its base name on the repository's URL. */
  function ResponseFor(item: string, repo: Repository, search: (string, string) -> Response): Response {
    search(repo.data.url, Basename(item))
  }

  /** The names collected over `repos` in registry order, where `found` gives what each
      repository adds. */
  function Owners(repos: Registry, found: Repository -> Option<string>): seq<string>
  {
    if repos == [] then []
    else
      var r := repos[|repos| - 1];
      Owners(repos[..|repos| - 1], found) + if found(r).Some? then [found(r).value] else []
  }

  /** The `match` list `validate` leaves: each repository's owner, in registry order. */
  function Matches(item: string, own: string, repos: Registry, search: (string, string) -> Response): seq<string>
  {
    Owners(repos, r => OwnerIn(item, own, ResponseFor(item, r, search)))
  }

  /** Every repository contributes at most one name, and each collected name is the one
      some repository gave. */
  lemma {:induction false} OwnersFromRepositories(repos: Registry, found: Repository -> Option<string>)
    ensures |Owners(repos, found)| <= |repos|
    ensures forall n :: n in Owners(repos, found) ==>
      exists k :: 0 <= k < |repos| && found(repos[k]) == Some(n)
  {
    if repos != [] {
      var init := repos[..|repos| - 1];
      OwnersFromRepositories(init, found);
      forall n | n in Owners(repos, found)
        ensures exists k :: 0 <= k < |repos| && found(repos[k]) == Some(n)
      {
        if n in Owners(init, found) {
          var k :| 0 <= k < |init| && found(init[k]) == Some(n);
          assert repos[k] == init[k];
        } else {
          assert found(repos[|repos| - 1]) == Some(n);
        }
      }
    }
  }

  /** The registry positions of the repositories that add a name, in registry order. */
  function Reporting(repos: Registry, found: Repository -> Option<string>): (ks: seq<nat>)
    ensures forall i :: 0 <= i < |ks| ==> ks[i] < |repos| && found(repos[ks[i]]).Some?
    ensures forall i, j :: 0 <= i < j < |ks| ==> ks[i] < ks[j]
    ensures forall k :: 0 <= k < |repos| && found(repos[k]).Some? ==> k in ks
  {
    if repos == [] then []
    else
      var n := |repos| - 1;
      var init := repos[..n];
      assert forall k :: 0 <= k < n ==> init[k] == repos[k];
      Reporting(init, found) + if found(repos[n]).Some? then [n] else []
  }

  /** The collected names are, one for one and in registry order, the names that the
      reporting repositories add. */
  lemma {:induction false} OwnersInOrder(repos: Registry, found: Repository -> Option<string>)
    ensures |Owners(repos, found)| == |Reporting(repos, found)|
    ensures forall i :: 0 <= i < |Owners(repos, found)| ==>
      found(repos[Reporting(repos, found)[i]]) == Some(Owners(repos, found)[i])
  {
    if repos != [] {
      var n := |repos| - 1;
      var init := repos[..n];
      OwnersInOrder(init, found);
      var o, ks := Owners(repos, found), Reporting(repos, found);
      var o', ks' := Owners(init, found), Reporting(init, found);
      assert o == o' + if found(repos[n]).Some? then [found(repos[n]).value] else [];
      assert ks == ks' + if found(repos[n]).Some? then [n] else [];
      forall i | 0 <= i < |o|
        ensures found(repos[ks[i]]) == Some(o[i])
      {
        if i < |o'| {
          assert o[i] == o'[i] && ks[i] == ks'[i];
          assert repos[ks'[i]] == init[ks'[i]];
        }
      }
    }
  }

  /** No early stop: every repository that adds a name has it collected. */
  lemma OwnersComplete(repos: Registry, found: Repository -> Option<string>)
    ensures forall k :: 0 <= k < |repos| && found(repos[k]).Some? ==>
      found(repos[k]).value in Owners(repos, found)
  {
    OwnersInOrder(repos, found);
    var o, ks := Owners(repos, found), Reporting(repos, found);
    forall k | 0 <= k < |repos| && found(repos[k]).Some?
      ensures found(repos[k]).value in o
    {
      var i :| 0 <= i < |ks| && ks[i] == k;
      assert found(repos[ks[i]]) == Some(o[i]);
    }
  }

  /** `match` holds, for the file, the foreign owner reported by each repository that
      reports one, one name per such repository and in registry order; a repository
      that reports none adds nothing, and none is skipped. */
  lemma MatchesFromRepositories(item: string, own: string, repos: Registry, search: (string, string) -> Response)
    ensures var found := r => OwnerIn(item, own, ResponseFor(item, r, search));
      && |Matches(item, own, repos, search)| == |Reporting(repos, found)|
      && (forall i :: 0 <= i < |Matches(item, own, repos, search)| ==>
            OwnerIn(item, own, ResponseFor(item, repos[Reporting(repos, found)[i]], search))
              == Some(Matches(item, own, repos, search)[i]))
      && (forall k :: 0 <= k < |repos| && OwnerIn(item, own, ResponseFor(item, repos[k], search)).Some? ==>
            OwnerIn(item, own, ResponseFor(item, repos[k], search)).value in Matches(item, own, repos, search))
    ensures |Matches(item, own, repos, search)| <= |repos|
    ensures forall n :: n in Matches(item, own, repos, search) ==>
      exists k :: 0 <= k < |repos| && OwnerIn(item, own, ResponseFor(item, repos[k], search)) == Some(n)
  {
    var found := r => OwnerIn(item, own, ResponseFor(item, r, search));
    OwnersFromRepositories(repos, found);
    OwnersInOrder(repos, found);
    OwnersComplete(repos, found);
  }

  class DuplicateFilesCheck {
    /** The files to check, in glob order. */
    const items: seq<string>
    const pkg: Package
    const repositories: Registry
    /** `self.match`: the names of the packages that already own the current file. */
    var matched: seq<string>

    constructor (pkg: Package, conf: Config, entries: seq<FsEntry>)
      ensures items == CheckedFiles(entries)
      ensures this.pkg == pkg && repositories == GetAll(conf)
      ensures matched == []
    {
      items := CheckedFiles(entries);
      matched := [];
      this.pkg := pkg;
      repositories := GetAll(conf);
    }

    /** `validate`: empties `match`, then asks every configured repository in registry
        order, with no early stop. It returns nothing: its outcome is `match`. */
    method Validate(item: string, search: (string, string) -> Response)
      modifies this`matched
      ensures matched == Matches(item, OwnName(pkg), repositories, search)
    {
      ghost var found := r => OwnerIn(item, OwnName(pkg), ResponseFor(item, r, search));
      matched := [];
      for i := 0 to |repositories|
        invariant matched == Owners(repositories[..i], found)
      {
        assert repositories[..i + 1][..i] == repositories[..i];
        var _ := CheckInRepo(item, repositories[i], search);
      }
      assert repositories[..|repositories|] == repositories;
    }

    /** `check_in_repo`: scans the results of an ok, readable reply in order. It appends
        the name of a result that is a foreign copy of `item` and returns false, when that
        result comes before any result that raises (a missing field, or a name at the
        file's path that does not split into two parts). It returns true, leaving `match`
        alone, when the reply is not ok, the scan raises first, or no result belongs to
        another package. */
    method CheckInRepo(item: string, repo: Repository, search: (string, string) -> Response) returns (ok: bool)
      modifies this`matched
      ensures var owner := OwnerIn(item, OwnName(pkg), ResponseFor(item, repo, search));
        && ok == owner.None?
        && matched == old(matched) + if owner.Some? then [owner.value] else []
    {
      var own := OwnName(pkg);
      var resp := search(repo.data.url, Basename(item));
      match resp {
        case Unreachable =>
          return true;
        case Reply(status, body) =>
          if !IsOk(status) || body.None? {
            return true;
          }
          var entries := body.value;
          var i := 0;
          while i < |entries|
            invariant 0 <= i <= |entries|
            invariant ScanResults(item, own, entries[i..]) == ScanResults(item, own, entries)
            invariant matched == old(matched)
          {
            var e := entries[i];
            assert entries[i..][1..] == entries[i + 1..];
            if e.path.None? {
              return true;
            }
            if e.path.value == "/" + item {
              if e.name.None? {
                return true;
              }
              var parts := SplitOn(e.name.value);
              if |parts| != 2 {
                return true;
              }
              if parts[1] != own {
                matched := matched + [e.name.value];
                return false;
              }
            }
            i := i + 1;
          }
          return true;
      }
    }
  }
}
