/** Types and steps shared by the two clients of package `github`
    (github/github.go and github/github_bak.go): the platform's repository
    record, the summary the client keeps of it, the update-time filter, and
    the final pass over the candidate map that keeps only repositories whose
    commit check says yes. */
module GitHubPackage {
  import opened Wrappers

  /** A repository as the platform's listing returns it (the fields the client
      reads). `updatedAt` is a nullable timestamp. */
  datatype PlatformRepo = PlatformRepo(
    name: string,
    fullName: string,
    description: string,
    htmlUrl: string,
    pushedAt: int,
    language: string,
    updatedAt: Option<int>)

  /** `RepositoryInfo`: what the client keeps of a listed repository. */
  datatype RepositoryInfo = RepositoryInfo(
    name: string,
    fullName: string,
    description: string,
    url: string,
    lastPush: int,
    language: string)

  /** The `RepositoryInfo` literal the listers build from a listed repository. */
  function ToInfo(p: PlatformRepo): (r: RepositoryInfo)
    ensures r.name == p.name && r.fullName == p.fullName && r.url == p.htmlUrl
  {
    RepositoryInfo(p.name, p.fullName, p.description, p.htmlUrl, p.pushedAt, p.language)
  }

  /** `repo.UpdatedAt != nil && repo.UpdatedAt.After(since)`. */
  predicate UpdatedSince(p: PlatformRepo, since: int) {
    p.updatedAt.Some? && p.updatedAt.value > since
  }

  /** The summaries of the listed repositories updated after `since`, in listing order. */
  function RecentInfos(ps: seq<PlatformRepo>, since: int): seq<RepositoryInfo> {
    if ps == [] then []
    else
      var last := ps[|ps| - 1];
      RecentInfos(ps[..|ps| - 1], since) + (if UpdatedSince(last, since) then [ToInfo(last)] else [])
  }

  /** Filtering distributes over concatenation: the pages of a listing are
      filtered independently and their results kept in page order. */
  lemma {:induction false} RecentInfosAppend(a: seq<PlatformRepo>, b: seq<PlatformRepo>, since: int)
    ensures RecentInfos(a + b, since) == RecentInfos(a, since) + RecentInfos(b, since)
  {
    if b == [] {
      assert a + b == a;
    } else {
      var n := |b| - 1;
      assert (a + b)[..|a + b| - 1] == a + b[..n];
      RecentInfosAppend(a, b[..n], since);
    }
  }

  /** A summary is kept exactly when it comes from a listed repository updated after `since`. */
  lemma {:induction false} RecentInfosMember(ps: seq<PlatformRepo>, since: int, x: RepositoryInfo)
    ensures x in RecentInfos(ps, since) <==> exists i :: 0 <= i < |ps| && UpdatedSince(ps[i], since) && ToInfo(ps[i]) == x
  {
    if ps != [] {
      var n := |ps| - 1;
      var tail := if UpdatedSince(ps[n], since) then [ToInfo(ps[n])] else [];
      assert RecentInfos(ps, since) == RecentInfos(ps[..n], since) + tail;
      assert x in RecentInfos(ps, since) <==> x in RecentInfos(ps[..n], since) || x in tail;
      RecentInfosMember(ps[..n], since, x);
      if x in RecentInfos(ps[..n], since) {
        var i :| 0 <= i < n && UpdatedSince(ps[..n][i], since) && ToInfo(ps[..n][i]) == x;
        assert ps[i] == ps[..n][i];
      }
      if exists i :: 0 <= i < |ps| && UpdatedSince(ps[i], since) && ToInfo(ps[i]) == x {
        var i :| 0 <= i < |ps| && UpdatedSince(ps[i], since) && ToInfo(ps[i]) == x;
        if i < n {
          assert ps[..n][i] == ps[i];
        }
      }
    }
  }

  /** The candidate map is keyed by each entry's own `FullName`. */
  predicate KeyedByFullName(m: map<string, RepositoryInfo>) {
    forall k :: k in m ==> m[k].fullName == k
  }

  /** `repos` is what the final pass over `candidates` keeps: only entries whose
      commit check returned `(true, nil)`, every such entry, each at most once. */
  predicate KeptWithCommits(repos: seq<RepositoryInfo>, candidates: map<string, RepositoryInfo>,
                            check: RepositoryInfo -> Result<bool, string>) {
    && (forall i :: 0 <= i < |repos| ==>
          repos[i].fullName in candidates && candidates[repos[i].fullName] == repos[i]
          && check(repos[i]) == Success(true))
    && (forall k :: k in candidates && check(candidates[k]) == Success(true) ==> candidates[k] in repos)
    && (forall i, j :: 0 <= i < j < |repos| ==> repos[i].fullName != repos[j].fullName)
  }

  /** The `for _, repoInfo := range reposMap` pass: visits the candidates in an
      unspecified order, skips (and logs) a repository whose check fails, and
      appends those whose check says yes. */
  method KeepWithCommits(candidates: map<string, RepositoryInfo>, check: RepositoryInfo -> Result<bool, string>)
    returns (repos: seq<RepositoryInfo>)
    requires KeyedByFullName(candidates)
    ensures KeptWithCommits(repos, candidates, check)
  {
    repos := [];
    var pending := candidates.Keys;
    while pending != {}
      invariant pending <= candidates.Keys
      invariant forall i :: 0 <= i < |repos| ==>
        repos[i].fullName in candidates.Keys - pending && candidates[repos[i].fullName] == repos[i]
        && check(repos[i]) == Success(true)
      invariant forall k :: k in candidates.Keys - pending && check(candidates[k]) == Success(true) ==> candidates[k] in repos
      invariant forall i, j :: 0 <= i < j < |repos| ==> repos[i].fullName != repos[j].fullName
      decreases pending
    {
      var k :| k in pending;
      pending := pending - {k};
      var info := candidates[k];
      var hasRecentCommits := check(info);
      if hasRecentCommits.Failure? {
        // logged as a warning; the repository is skipped
      } else if hasRecentCommits.value {
        repos := repos + [info];
      }
    }
  }

  /** `hasCommitsSince` after the listing call: true iff the commit listing
      (one page, `since` applied by the platform) returned any commit; a failed
      listing is passed on as the error. */
  function HasCommitsSince(listing: Result<seq<string>, string>): (r: Result<bool, string>)
    ensures r.Success? <==> listing.Success?
    ensures r.Success? ==> (r.value <==> listing.value != [])
    ensures r.Failure? ==> r.error == listing.error
  {
    if listing.Failure? then Failure(listing.error) else Success(|listing.value| > 0)
  }
}
