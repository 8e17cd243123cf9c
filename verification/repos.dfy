/** The repository list of main.go: adding a repository given as
    "url,name" (`addRepository`) and the normalisation applied after the list
    is loaded (`loadReposConfig`). Reading and writing the JSON file and
    exiting the process are not modelled; `filepath.Join` is a parameter. */
module Repos {
  import opened Wrappers
  import opened Strings

  /** One configured repository. */
  datatype RepoConfig = RepoConfig(url: string, name: string, cloneDir: string, enabled: bool)

  const DataDir: string := "./data"

  const RepoSuffix: string := "-repo"

  /** The reason a malformed request fails; addRepository prints it after
      "Error: " and exits. */
  const AddUsage: string := "Repository must be specified as 'url,name'"

  /** The clone directory a repository gets when none is configured. */
  function DefaultCloneDir(name: string, join: (string, string) -> string): string {
    join(DataDir, name + RepoSuffix)
  }

  /** Some repository of the list has this URL. */
  predicate HasUrl(repos: seq<RepoConfig>, url: string) {
    exists j :: 0 <= j < |repos| && repos[j].url == url
  }

  /** No two repositories share a URL. */
  predicate UniqueUrls(repos: seq<RepoConfig>) {
    forall i, j :: 0 <= i < j < |repos| ==> repos[i].url != repos[j].url
  }

  // ---------------------------------------------------------------------------
  // addRepository
  // ---------------------------------------------------------------------------

  /** addRepository: the text before the first comma is the URL, the text
      after it up to the next comma the name; without a comma the request is
      an error. A URL that is already listed leaves the list unchanged;
      otherwise one enabled repository with the default clone directory is
      appended. */
  function AddRepository(repos: seq<RepoConfig>, spec: string, join: (string, string) -> string)
    : (r: Result<seq<RepoConfig>, string>)
    ensures r.Failure? <==> ',' !in spec
    ensures r.Failure? ==> r.error == AddUsage
    ensures r.Success? ==> |repos| <= |r.value| <= |repos| + 1 && r.value[..|repos|] == repos
    ensures r.Success? ==>
      && |Split(spec, ',')| >= 2
      && (r.value == repos <==> HasUrl(repos, Split(spec, ',')[0]))
    ensures r.Success? && r.value != repos ==>
      && r.value[|repos|].url == Split(spec, ',')[0]
      && r.value[|repos|].name == Split(spec, ',')[1]
    ensures r.Success? && |r.value| > |repos| ==>
      var added := r.value[|repos|];
      && added.enabled
      && added.cloneDir == DefaultCloneDir(added.name, join)
      && !HasUrl(repos, added.url)
  {
    SplitParts(spec, ',');
    var parts := Split(spec, ',');
    if |parts| < 2 then Failure(AddUsage)
    else
      var url := parts[0];
      var name := parts[1];
      if HasUrl(repos, url) then Success(repos)
      else
        var added := repos + [RepoConfig(url, name, DefaultCloneDir(name, join), true)];
        assert added[..|repos|] == repos;
        Success(added)
  }

  /** The fields of "url,name", possibly followed by ",more": the first two
      comma-free fields are the URL and the name, the rest is ignored. */
  lemma AddRepositoryFields(repos: seq<RepoConfig>, url: string, name: string, rest: string,
                            join: (string, string) -> string)
    requires ',' !in url && ',' !in name
    requires rest == "" || rest[0] == ','
    ensures var r := AddRepository(repos, url + [','] + name + rest, join);
      && r.Success?
      && (HasUrl(repos, url) ==> r.value == repos)
      && (!HasUrl(repos, url) ==> r.value == repos + [RepoConfig(url, name, DefaultCloneDir(name, join), true)])
  {
    var spec := url + [','] + name + rest;
    assert spec == url + [','] + (name + rest);
    SplitAfterPart(url, ',', name + rest);
    if rest == "" {
      assert name + rest == name;
      SplitParts(name, ',');
    } else {
      assert name + rest == name + [','] + rest[1..];
      SplitAfterPart(name, ',', rest[1..]);
    }
    assert Split(spec, ',')[0] == url && Split(spec, ',')[1] == name;
  }

  /** Adding the same repository twice is adding it once. */
  lemma AddRepositoryIdempotent(repos: seq<RepoConfig>, spec: string, join: (string, string) -> string)
    requires AddRepository(repos, spec, join).Success?
    ensures AddRepository(AddRepository(repos, spec, join).value, spec, join) == AddRepository(repos, spec, join)
  {
    var once := AddRepository(repos, spec, join).value;
    var url := Split(spec, ',')[0];
    if !HasUrl(repos, url) {
      assert once[|repos|].url == url;
      assert HasUrl(once, url);
    }
  }

  /** Adding a repository keeps the URLs unique. */
  lemma AddRepositoryKeepsUrlsUnique(repos: seq<RepoConfig>, spec: string, join: (string, string) -> string)
    requires UniqueUrls(repos)
    requires AddRepository(repos, spec, join).Success?
    ensures UniqueUrls(AddRepository(repos, spec, join).value)
  {
    var r := AddRepository(repos, spec, join).value;
    forall i, j | 0 <= i < j < |r|
      ensures r[i].url != r[j].url
    {
      if j == |repos| {
        assert r[i] == repos[i];
      } else {
        assert r[i] == repos[i] && r[j] == repos[j];
      }
    }
  }

  // ---------------------------------------------------------------------------
  // loadReposConfig: normalisation after loading
  // ---------------------------------------------------------------------------

  /** The normalised list and whether it was written back to the file. */
  datatype Normalized = Normalized(repos: seq<RepoConfig>, rewritten: bool)

  predicate AnyEnabled(repos: seq<RepoConfig>) {
    exists j :: 0 <= j < |repos| && repos[j].enabled
  }

  /** The first loop: an empty clone directory gets the default one. */
  function FillCloneDirs(repos: seq<RepoConfig>, join: (string, string) -> string): (filled: seq<RepoConfig>)
    ensures |filled| == |repos|
  {
    seq(|repos|, i requires 0 <= i < |repos| =>
      if repos[i].cloneDir == "" then repos[i].(cloneDir := DefaultCloneDir(repos[i].name, join)) else repos[i])
  }

  /** The normalisation of loadReposConfig: empty clone directories get the
      default; when the list is non-empty and no repository is enabled, the
      first one is enabled and the list is written back. URLs, names and the
      other flags never change. */
  function NormalizeRepos(repos: seq<RepoConfig>, join: (string, string) -> string): (n: Normalized)
    ensures |n.repos| == |repos|
    ensures forall i :: 0 <= i < |repos| ==>
      && n.repos[i].url == repos[i].url
      && n.repos[i].name == repos[i].name
      && n.repos[i].cloneDir == (if repos[i].cloneDir == "" then DefaultCloneDir(repos[i].name, join) else repos[i].cloneDir)
    ensures forall i :: 0 < i < |repos| ==> n.repos[i].enabled == repos[i].enabled
    ensures |repos| > 0 ==> n.repos[0].enabled == (repos[0].enabled || !AnyEnabled(repos))
    ensures |repos| > 0 ==> AnyEnabled(n.repos)
    ensures n.rewritten <==> |repos| > 0 && !AnyEnabled(repos)
  {
    var filled := FillCloneDirs(repos, join);
    assert AnyEnabled(filled) <==> AnyEnabled(repos) by {
      assert forall j :: 0 <= j < |repos| ==> filled[j].enabled == repos[j].enabled;
    }
    if |filled| > 0 && !AnyEnabled(filled) then
      var n := Normalized(filled[0 := filled[0].(enabled := true)], true);
      assert n.repos[0].enabled;
      n
    else
      assert |repos| > 0 && repos[0].enabled ==> filled[0].enabled;
      Normalized(filled, false)
  }

  /** Normalising a normalised list changes nothing and does not write the
      file again, provided the default clone directories are not empty. */
  lemma NormalizeIdempotent(repos: seq<RepoConfig>, join: (string, string) -> string)
    requires forall i :: 0 <= i < |repos| ==> DefaultCloneDir(repos[i].name, join) != ""
    ensures var once := NormalizeRepos(repos, join).repos;
      NormalizeRepos(once, join) == Normalized(once, false)
  {
    var once := NormalizeRepos(repos, join).repos;
    var twice := NormalizeRepos(once, join);
    assert |once| > 0 ==> AnyEnabled(once);
    assert forall i :: 0 <= i < |once| ==> once[i].cloneDir != "";
    assert twice.repos == once;
  }
}
