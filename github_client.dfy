/** github/github.go: the client that lists the user's repositories page by
    page, keeps those updated after `since` (the first listing of each
    `FullName` wins), and then keeps those with at least one commit since
    `since`. Platform answers are inputs: `listing` holds the replies to the
    successive repository-page requests and `listCommits(owner, repo)` the reply
    to the one-commit listing `hasCommitsSince` makes for that repository. */
module GitHubClient {
  import opened Wrappers
  import opened Paging
  import opened GitHubPackage

  /** The candidate map built during pagination: every listed repository
      updated after `since`, inserted only if its `FullName` is not already there. */
  function FirstSeen(ps: seq<PlatformRepo>, since: int): (m: map<string, RepositoryInfo>)
    ensures KeyedByFullName(m)
  {
    if ps == [] then map[]
    else
      var m := FirstSeen(ps[..|ps| - 1], since);
      var p := ps[|ps| - 1];
      if UpdatedSince(p, since) && p.fullName !in m then m[p.fullName := ToInfo(p)] else m
  }

  /** One more listed repository: inserted iff updated after `since` and its name is new. */
  lemma FirstSeenSnoc(ps: seq<PlatformRepo>, p: PlatformRepo, since: int)
    ensures FirstSeen(ps + [p], since) ==
      var m := FirstSeen(ps, since);
      if UpdatedSince(p, since) && p.fullName !in m then m[p.fullName := ToInfo(p)] else m
  {
    assert (ps + [p])[..|ps|] == ps;
  }

  /** The candidate keys are exactly the full names of listed repositories updated after `since`. */
  lemma {:induction false} FirstSeenKeys(ps: seq<PlatformRepo>, since: int, k: string)
    ensures k in FirstSeen(ps, since) <==> exists i :: 0 <= i < |ps| && UpdatedSince(ps[i], since) && ps[i].fullName == k
  {
    if ps != [] {
      var n := |ps| - 1;
      FirstSeenKeys(ps[..n], since, k);
      if exists i :: 0 <= i < n && UpdatedSince(ps[..n][i], since) && ps[..n][i].fullName == k {
        var i :| 0 <= i < n && UpdatedSince(ps[..n][i], since) && ps[..n][i].fullName == k;
        assert ps[i] == ps[..n][i];
      }
      if exists i :: 0 <= i < |ps| && UpdatedSince(ps[i], since) && ps[i].fullName == k {
        var i :| 0 <= i < |ps| && UpdatedSince(ps[i], since) && ps[i].fullName == k;
        if i < n {
          assert ps[..n][i] == ps[i];
        }
      }
    }
  }

  /** The first listing of a `FullName` (among those updated after `since`) is the one kept. */
  lemma {:induction false} FirstSeenKeepsFirst(ps: seq<PlatformRepo>, since: int, i: nat)
    requires i < |ps| && UpdatedSince(ps[i], since)
    requires forall j :: 0 <= j < i && UpdatedSince(ps[j], since) ==> ps[j].fullName != ps[i].fullName
    ensures ps[i].fullName in FirstSeen(ps, since) && FirstSeen(ps, since)[ps[i].fullName] == ToInfo(ps[i])
  {
    var n := |ps| - 1;
    var k := ps[i].fullName;
    if i == n {
      assert k !in FirstSeen(ps[..n], since) by {
        FirstSeenKeys(ps[..n], since, k);
        forall j | 0 <= j < n
          ensures !(UpdatedSince(ps[..n][j], since) && ps[..n][j].fullName == k)
        {
          assert ps[..n][j] == ps[j];
        }
      }
    } else {
      assert ps[..n][i] == ps[i];
      forall j | 0 <= j < i && UpdatedSince(ps[..n][j], since)
        ensures ps[..n][j].fullName != ps[..n][i].fullName
      {
        assert ps[..n][j] == ps[j];
      }
      FirstSeenKeepsFirst(ps[..n], since, i);
    }
  }

  /** `hasCommitsSince(ctx, username, repoInfo.Name, since)` for one candidate:
      the owner is always the user, whatever the repository's real owner is. */
  function CommitCheck(listCommits: (string, string) -> Result<seq<string>, string>, username: string)
    : (check: RepositoryInfo -> Result<bool, string>)
    ensures forall info :: check(info) == HasCommitsSince(listCommits(username, info.name))
  {
    (info: RepositoryInfo) => HasCommitsSince(listCommits(username, info.name))
  }

  /** `GetRepositoriesWithRecentCommits`. Any failed page fails the whole call;
      otherwise the result is the first-seen candidate map narrowed to the
      repositories whose commit check said yes (map order is unspecified, so the
      result is described as a set). `requested` is the sequence of `opt.Page`
      values sent. */
  method GetRepositoriesWithRecentCommits(
    username: string, since: int,
    listing: seq<Response<PlatformRepo>>,
    listCommits: (string, string) -> Result<seq<string>, string>)
    returns (result: Result<seq<RepositoryInfo>, string>, requested: seq<nat>)
    requires Terminates(listing)
    ensures FollowsNextPage(listing, requested)
    ensures result.Failure? <==> ListingFailed(listing)
    ensures result.Success? ==>
      KeptWithCommits(result.value, FirstSeen(ListedItems(listing), since), CommitCheck(listCommits, username))
  {
    var reposMap;
    reposMap, requested := CollectCandidates(since, listing);
    if reposMap.Failure? {
      return Failure(reposMap.error), requested;
    }
    var repos := KeepWithCommits(reposMap.value, CommitCheck(listCommits, username));
    result := Success(repos);
  }

  /** The pagination loop of `GetRepositoriesWithRecentCommits`: follows
      `NextPage` from page 0 until it is 0, inserting each repository updated
      after `since` under its `FullName` unless that name is already present.
      An error on any page fails the whole listing. */
  method CollectCandidates(since: int, listing: seq<Response<PlatformRepo>>)
    returns (reposMap: Result<map<string, RepositoryInfo>, string>, requested: seq<nat>)
    requires Terminates(listing)
    ensures FollowsNextPage(listing, requested)
    ensures reposMap.Failure? <==> ListingFailed(listing)
    ensures reposMap.Success? ==> reposMap.value == FirstSeen(ListedItems(listing), since)
  {
    var m: map<string, RepositoryInfo> := map[];
    var page: nat := 0;
    var k := 0;
    ghost var seen: seq<PlatformRepo> := [];
    requested := [];
    while true
      invariant k <= FirstStop(listing)
      invariant RequestedSoFar(listing, requested, k)
      invariant k == 0 ==> page == 0
      invariant k > 0 ==> listing[k - 1].Success? && page == listing[k - 1].value.nextPage
      invariant seen == PageItems(listing[..k])
      invariant m == FirstSeen(seen, since)
      decreases FirstStop(listing) - k
    {
      PageStep(listing, k, seen);
      RequestNext(listing, requested, k, page);
      requested := requested + [page];
      var reply := listing[k];
      if reply.Failure? {
        return Failure("error listing repositories: " + reply.error), requested;
      }
      m := InsertFirstSeen(m, seen, reply.value.items, since);
      seen := seen + reply.value.items;
      if reply.value.nextPage == 0 {
        break;
      }
      page := reply.value.nextPage;
      k := k + 1;
    }
    reposMap := Success(m);
  }

  /** The loop over one page's repositories: each one updated after `since`
      whose `FullName` is not yet a key is inserted. */
  method InsertFirstSeen(reposMap: map<string, RepositoryInfo>, ghost before: seq<PlatformRepo>,
                         userRepos: seq<PlatformRepo>, since: int)
    returns (m: map<string, RepositoryInfo>)
    requires reposMap == FirstSeen(before, since)
    ensures m == FirstSeen(before + userRepos, since)
  {
    m := reposMap;
    var j := 0;
    assert before + userRepos[..0] == before;
    while j < |userRepos|
      invariant j <= |userRepos|
      invariant m == FirstSeen(before + userRepos[..j], since)
    {
      var repo := userRepos[j];
      assert before + userRepos[..j + 1] == (before + userRepos[..j]) + [repo];
      FirstSeenSnoc(before + userRepos[..j], repo, since);
      if UpdatedSince(repo, since) {
        var repoInfo := ToInfo(repo);
        if repo.fullName !in m {
          m := m[repo.fullName := repoInfo];
        }
      }
      j := j + 1;
    }
    assert userRepos[..j] == userRepos;
  }
}
