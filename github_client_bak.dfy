/** github/github_bak.go: the client that also lists organization
    repositories, merges them with the user's, keeps those with commits, and
    gathers a repository's commits across all of its branches without
    duplicates. Platform answers are inputs: page replies as `Response`
    sequences, the organization and branch listings (one request each) as
    `Result`s, and each listed commit carries the reply its detail fetch gets. */
module GitHubClientBak {
  import opened Wrappers
  import opened Paging
  import opened GitHubPackage

  // ---------------------------------------------------------------------------
  // parseRepoName

  /** Index of the first '/' in `s`. */
  function FirstSlash(s: string): (i: nat)
    requires '/' in s
    ensures i < |s| && s[i] == '/' && '/' !in s[..i]
  {
    if s[0] == '/' then 0
    else
      assert '/' in s[1..];
      var i := 1 + FirstSlash(s[1..]);
      assert s[..i] == [s[0]] + s[1..][..i - 1];
      i
  }

  /** `parseRepoName`: splits `owner/repo` at the first '/'; without a '/', the
      owner is empty and the whole string is the repository. */
  function ParseRepoName(fullName: string): (r: (string, string))
    ensures '/' !in fullName ==> r == ("", fullName)
    ensures '/' in fullName ==> fullName == r.0 + "/" + r.1 && '/' !in r.0
  {
    if '/' in fullName then
      var i := FirstSlash(fullName);
      assert fullName == fullName[..i] + "/" + fullName[i + 1..];
      (fullName[..i], fullName[i + 1..])
    else
      ("", fullName)
  }

  /** Joining an owner without '/' to any rest and parsing gives both back;
      the rest may itself contain '/'. */
  lemma ParseRepoNameJoin(owner: string, rest: string)
    requires '/' !in owner
    ensures ParseRepoName(owner + "/" + rest) == (owner, rest)
  {
    var s := owner + "/" + rest;
    assert s[|owner|] == '/';
    var r := ParseRepoName(s);
    if |r.0| < |owner| {
      assert false;
    } else if |r.0| > |owner| {
      assert false;
    }
    assert r.0 == s[..|owner|] == owner;
    assert r.1 == s[|owner| + 1..] == rest;
  }

  // ---------------------------------------------------------------------------
  // Commits across branches

  /** A commit as the per-branch commit listing returns it. */
  datatype CommitSummary = CommitSummary(sha: string, message: string, authorName: string, authorDate: int)

  /** What the single-commit detail fetch adds: changed file names and line stats. */
  datatype CommitDetail = CommitDetail(files: seq<string>, additions: int, deletions: int)

  /** A listed commit together with the reply its detail fetch would get at that point. */
  datatype ListedCommit = ListedCommit(summary: CommitSummary, detail: Result<CommitDetail, string>)

  /** A branch and the replies to the paginated commit listing restricted to it. */
  datatype BranchListing = BranchListing(name: string, commits: seq<Response<ListedCommit>>)

  /** `CommitInfo`: one aggregated commit. */
  datatype CommitInfo = CommitInfo(
    sha: string, message: string, author: string, date: int,
    files: seq<string>, additions: int, deletions: int)

  /** `commitExists`: scans for an entry with the given SHA. */
  function CommitExists(commits: seq<CommitInfo>, sha: string): (b: bool)
    ensures b <==> exists i :: 0 <= i < |commits| && commits[i].sha == sha
  {
    if commits == [] then false
    else if commits[0].sha == sha then true
    else
      var b := CommitExists(commits[1..], sha);
      assert b ==> exists i :: 0 <= i < |commits| && commits[i].sha == sha by {
        if b {
          var i :| 0 <= i < |commits[1..]| && commits[1..][i].sha == sha;
          assert commits[i + 1].sha == sha;
        }
      }
      assert (exists i :: 0 <= i < |commits| && commits[i].sha == sha) ==> b by {
        if exists i :: 0 <= i < |commits| && commits[i].sha == sha {
          var i :| 0 <= i < |commits| && commits[i].sha == sha;
          assert i > 0 && commits[1..][i - 1].sha == sha;
        }
      }
      b
  }

  /** No two entries share a SHA. */
  predicate DistinctShas(commits: seq<CommitInfo>) {
    forall i, j :: 0 <= i < j < |commits| ==> commits[i].sha != commits[j].sha
  }

  /** The `CommitInfo` literal built from a listed commit and its fetched detail. */
  function MakeInfo(c: ListedCommit): (r: CommitInfo)
    requires c.detail.Success?
    ensures r.sha == c.summary.sha && r.message == c.summary.message
    ensures r.author == c.summary.authorName && r.date == c.summary.authorDate
    ensures r.files == c.detail.value.files
    ensures r.additions == c.detail.value.additions && r.deletions == c.detail.value.deletions
  {
    CommitInfo(c.summary.sha, c.summary.message, c.summary.authorName, c.summary.authorDate,
               c.detail.value.files, c.detail.value.additions, c.detail.value.deletions)
  }

  /** The aggregation step applied to the listed commits in order: a commit is
      appended when its SHA is not yet present and its detail fetch succeeds.
      It never reorders or removes what is already there and never duplicates a SHA. */
  function Merge(acc: seq<CommitInfo>, items: seq<ListedCommit>): (r: seq<CommitInfo>)
    ensures acc <= r
  {
    if items == [] then acc
    else
      var prev := Merge(acc, items[..|items| - 1]);
      var c := items[|items| - 1];
      if CommitExists(prev, c.summary.sha) || c.detail.Failure? then prev else prev + [MakeInfo(c)]
  }

  /** One more listed commit. */
  lemma MergeSnoc(acc: seq<CommitInfo>, items: seq<ListedCommit>, c: ListedCommit)
    ensures Merge(acc, items + [c]) ==
      var prev := Merge(acc, items);
      if CommitExists(prev, c.summary.sha) || c.detail.Failure? then prev else prev + [MakeInfo(c)]
  {
    assert (items + [c])[..|items|] == items;
  }

  /** The aggregation never creates a duplicate SHA. */
  lemma {:induction false} MergeDistinct(acc: seq<CommitInfo>, items: seq<ListedCommit>)
    requires DistinctShas(acc)
    ensures DistinctShas(Merge(acc, items))
  {
    if items != [] {
      var n := |items| - 1;
      var prev := Merge(acc, items[..n]);
      var c := items[n];
      MergeDistinct(acc, items[..n]);
      if !(CommitExists(prev, c.summary.sha) || c.detail.Failure?) {
        var next := prev + [MakeInfo(c)];
        forall i, j | 0 <= i < j < |next|
          ensures next[i].sha != next[j].sha
        {
          if j == |prev| {
            assert next[i] == prev[i];
          } else {
            assert next[i] == prev[i] && next[j] == prev[j];
          }
        }
      }
    }
  }

  /** Merging is a left fold: the commits of later pages and branches come after
      those of earlier ones. */
  lemma {:induction false} MergeAppend(acc: seq<CommitInfo>, a: seq<ListedCommit>, b: seq<ListedCommit>)
    ensures Merge(acc, a + b) == Merge(Merge(acc, a), b)
  {
    if b == [] {
      assert a + b == a;
    } else {
      var n := |b| - 1;
      assert a + b == (a + b[..n]) + [b[n]];
      assert b == b[..n] + [b[n]];
      MergeAppend(acc, a, b[..n]);
      MergeSnoc(acc, a + b[..n], b[n]);
      MergeSnoc(Merge(acc, a), b[..n], b[n]);
    }
  }

  /** A listing of `sha` whose detail fetch succeeded. */
  predicate FetchedListing(items: seq<ListedCommit>, sha: string) {
    exists i :: 0 <= i < |items| && items[i].summary.sha == sha && items[i].detail.Success?
  }

  lemma FetchedListingSnoc(items: seq<ListedCommit>, sha: string)
    requires items != []
    ensures FetchedListing(items, sha) <==>
      FetchedListing(items[..|items| - 1], sha) ||
      (items[|items| - 1].summary.sha == sha && items[|items| - 1].detail.Success?)
  {
    var n := |items| - 1;
    if FetchedListing(items, sha) {
      var i :| 0 <= i < |items| && items[i].summary.sha == sha && items[i].detail.Success?;
      if i < n {
        assert items[..n][i] == items[i];
      }
    }
    if FetchedListing(items[..n], sha) {
      var i :| 0 <= i < n && items[..n][i].summary.sha == sha && items[..n][i].detail.Success?;
      assert items[i] == items[..n][i];
    }
  }

  /** A SHA is in the result iff it was already there or some listing of it had
      a successful detail fetch (a failed fetch does not block a later listing). */
  lemma {:induction false} MergeShas(acc: seq<CommitInfo>, items: seq<ListedCommit>, sha: string)
    ensures CommitExists(Merge(acc, items), sha) <==> CommitExists(acc, sha) || FetchedListing(items, sha)
  {
    if items != [] {
      var n := |items| - 1;
      var prev := Merge(acc, items[..n]);
      var c := items[n];
      MergeShas(acc, items[..n], sha);
      MergeSnoc(acc, items[..n], c);
      assert items == items[..n] + [c];
      FetchedListingSnoc(items, sha);
      if !(CommitExists(prev, c.summary.sha) || c.detail.Failure?) {
        var next := prev + [MakeInfo(c)];
        assert next[|prev|].sha == c.summary.sha;
        if CommitExists(next, sha) && !CommitExists(prev, sha) {
          var j :| 0 <= j < |next| && next[j].sha == sha;
          assert j == |prev|;
        }
        if CommitExists(prev, sha) {
          var j :| 0 <= j < |prev| && prev[j].sha == sha;
          assert next[j] == prev[j];
        }
      }
    }
  }

  /** Every entry of the result was already there or was built from a listed
      commit whose detail fetch succeeded. */
  lemma {:induction false} MergeFrom(acc: seq<CommitInfo>, items: seq<ListedCommit>, c: CommitInfo)
    requires c in Merge(acc, items)
    ensures c in acc || exists i :: 0 <= i < |items| && items[i].detail.Success? && MakeInfo(items[i]) == c
  {
    if items != [] {
      var n := |items| - 1;
      var prev := Merge(acc, items[..n]);
      MergeSnoc(acc, items[..n], items[n]);
      assert items == items[..n] + [items[n]];
      if c in prev {
        MergeFrom(acc, items[..n], c);
        if exists i :: 0 <= i < n && items[..n][i].detail.Success? && MakeInfo(items[..n][i]) == c {
          var i :| 0 <= i < n && items[..n][i].detail.Success? && MakeInfo(items[..n][i]) == c;
          assert items[i] == items[..n][i];
        }
      }
    }
  }

  /** Every branch's commit listing eventually stops. */
  predicate BranchesTerminate(bs: seq<BranchListing>) {
    forall i :: 0 <= i < |bs| ==> Terminates(bs[i].commits)
  }

  /** The listed commits of all branches, in branch order and then page order;
      a branch whose listing fails contributes the pages before the failure. */
  function BranchCommits(bs: seq<BranchListing>): seq<ListedCommit>
    requires BranchesTerminate(bs)
  {
    if bs == [] then [] else BranchCommits(bs[..|bs| - 1]) + ListedItems(bs[|bs| - 1].commits)
  }

  /** `GetRepositoryCommits`: a failed branch listing fails the call; otherwise
      every branch's commits are walked page by page (a failed page ends only
      that branch) and merged without duplicate SHAs. */
  method GetRepositoryCommits(branches: Result<seq<BranchListing>, string>)
    returns (result: Result<seq<CommitInfo>, string>)
    requires branches.Success? ==> BranchesTerminate(branches.value)
    ensures result.Failure? <==> branches.Failure?
    ensures result.Success? ==> result.value == Merge([], BranchCommits(branches.value))
    ensures result.Success? ==> DistinctShas(result.value)
    ensures branches == Success([]) ==> result == Success([])
  {
    if branches.Failure? {
      return Failure("error listing branches: " + branches.error);
    }
    var bs := branches.value;
    var commits: seq<CommitInfo> := [];
    var b := 0;
    while b < |bs|
      invariant b <= |bs|
      invariant commits == Merge([], BranchCommits(bs[..b]))
    {
      assert BranchCommits(bs[..b + 1]) == BranchCommits(bs[..b]) + ListedItems(bs[b].commits) by {
        assert bs[..b + 1][..b] == bs[..b];
      }
      commits := CollectBranch(commits, BranchCommits(bs[..b]), bs[b]);
      b := b + 1;
    }
    assert bs[..b] == bs;
    MergeDistinct([], BranchCommits(bs));
    result := Success(commits);
  }

  /** The page loop for one branch: follows `NextPage` until 0, merging each
      page's commits; a failed page is logged and ends this branch only. */
  method CollectBranch(commits: seq<CommitInfo>, ghost before: seq<ListedCommit>, branch: BranchListing)
    returns (merged: seq<CommitInfo>)
    requires Terminates(branch.commits)
    requires commits == Merge([], before)
    ensures merged == Merge([], before + ListedItems(branch.commits))
  {
    var listing := branch.commits;
    merged := commits;
    var k := 0;
    ghost var seen: seq<ListedCommit> := [];
    assert before + seen == before;
    while true
      invariant k <= FirstStop(listing)
      invariant seen == PageItems(listing[..k])
      invariant merged == Merge([], before + seen)
      decreases FirstStop(listing) - k
    {
      PageStep(listing, k, seen);
      var reply := listing[k];
      if reply.Failure? {
        // logged as a warning; the other branches are still walked
        break;
      }
      merged := MergePage(merged, before + seen, reply.value.items);
      ConcatAssoc(before, seen, reply.value.items);
      seen := seen + reply.value.items;
      if reply.value.nextPage == 0 {
        break;
      }
      k := k + 1;
    }
  }

  /** The loop over one page of a branch's commits: skips a SHA already
      collected, skips (and logs) a commit whose detail fetch fails, and
      appends the rest. */
  method MergePage(commits: seq<CommitInfo>, ghost before: seq<ListedCommit>, ghCommits: seq<ListedCommit>)
    returns (merged: seq<CommitInfo>)
    requires commits == Merge([], before)
    ensures merged == Merge([], before + ghCommits)
  {
    merged := commits;
    var j := 0;
    assert before + ghCommits[..0] == before;
    while j < |ghCommits|
      invariant j <= |ghCommits|
      invariant merged == Merge([], before + ghCommits[..j])
    {
      var commit := ghCommits[j];
      assert before + ghCommits[..j + 1] == (before + ghCommits[..j]) + [commit];
      MergeSnoc([], before + ghCommits[..j], commit);
      if CommitExists(merged, commit.summary.sha) {
        // already collected from an earlier page or branch
      } else if commit.detail.Failure? {
        // detail fetch failed: logged, not recorded here
      } else {
        merged := merged + [MakeInfo(commit)];
      }
      j := j + 1;
    }
    assert ghCommits[..j] == ghCommits;
  }

  // ---------------------------------------------------------------------------
  // Repository listing

  /** An organization and the replies to the paginated listing of its repositories. */
  datatype OrgListing = OrgListing(login: string, repos: seq<Response<PlatformRepo>>)

  /** Every organization's repository listing eventually stops. */
  predicate OrgsTerminate(orgs: seq<OrgListing>) {
    forall i :: 0 <= i < |orgs| ==> Terminates(orgs[i].repos)
  }

  /** The organization repositories updated after `since`, organization by
      organization; an organization whose listing fails keeps its earlier pages. */
  function OrgRepos(orgs: seq<OrgListing>, since: int): seq<RepositoryInfo>
    requires OrgsTerminate(orgs)
  {
    if orgs == [] then []
    else OrgRepos(orgs[..|orgs| - 1], since) + RecentInfos(ListedItems(orgs[|orgs| - 1].repos), since)
  }

  /** The organizations are listed independently: what one contributes does not
      depend on another (in particular, one failing listing leaves the others intact). */
  lemma {:induction false} OrgReposAppend(a: seq<OrgListing>, b: seq<OrgListing>, since: int)
    requires OrgsTerminate(a) && OrgsTerminate(b)
    ensures OrgsTerminate(a + b)
    ensures OrgRepos(a + b, since) == OrgRepos(a, since) + OrgRepos(b, since)
  {
    assert OrgsTerminate(a + b) by {
      forall i | 0 <= i < |a + b| ensures Terminates((a + b)[i].repos) {
        if i < |a| { assert (a + b)[i] == a[i]; } else { assert (a + b)[i] == b[i - |a|]; }
      }
    }
    if b == [] {
      assert a + b == a;
    } else {
      var n := |b| - 1;
      assert OrgsTerminate(b[..n]) by {
        forall i | 0 <= i < n ensures Terminates(b[..n][i].repos) { assert b[..n][i] == b[i]; }
      }
      assert (a + b)[..|a + b| - 1] == a + b[..n];
      assert (a + b)[|a + b| - 1] == b[n];
      OrgReposAppend(a, b[..n], since);
      var last := RecentInfos(ListedItems(b[n].repos), since);
      assert OrgRepos(a + b, since) == OrgRepos(a + b[..n], since) + last;
      ConcatAssoc(OrgRepos(a, since), OrgRepos(b[..n], since), last);
    }
  }

  /** `getUserRepositories`: follows the user's repository listing from page 0;
      an error on any page fails the call; keeps the repositories updated after
      `since` in listing order. */
  method GetUserRepositories(since: int, listing: seq<Response<PlatformRepo>>)
    returns (result: Result<seq<RepositoryInfo>, string>, requested: seq<nat>)
    requires Terminates(listing)
    ensures FollowsNextPage(listing, requested)
    ensures result.Failure? <==> ListingFailed(listing)
    ensures result.Success? ==> result.value == RecentInfos(ListedItems(listing), since)
  {
    var repos: seq<RepositoryInfo> := [];
    var page: nat := 0;
    var k := 0;
    ghost var seen: seq<PlatformRepo> := [];
    requested := [];
    while true
      invariant k <= FirstStop(listing)
      invariant RequestedSoFar(listing, requested, k)
      invariant k == 0 ==> page == 0
      invariant k > 0 ==> listing[k - 1].Success? && page == listing[k - 1].value.nextPage
      invariant seen == PageItems(listing[..k])
      invariant repos == RecentInfos(seen, since)
      decreases FirstStop(listing) - k
    {
      PageStep(listing, k, seen);
      RequestNext(listing, requested, k, page);
      requested := requested + [page];
      var reply := listing[k];
      if reply.Failure? {
        return Failure("error listing user repositories: " + reply.error), requested;
      }
      RecentInfosAppend(seen, reply.value.items, since);
      repos := AppendRecent(repos, reply.value.items, since);
      seen := seen + reply.value.items;
      if reply.value.nextPage == 0 {
        break;
      }
      page := reply.value.nextPage;
      k := k + 1;
    }
    result := Success(repos);
  }

  /** The loop over one page of a repository listing: appends the summary of each
      repository updated after `since`. */
  method AppendRecent(repos: seq<RepositoryInfo>, page: seq<PlatformRepo>, since: int)
    returns (r: seq<RepositoryInfo>)
    ensures r == repos + RecentInfos(page, since)
  {
    r := repos;
    var j := 0;
    while j < |page|
      invariant j <= |page|
      invariant r == repos + RecentInfos(page[..j], since)
    {
      var repo := page[j];
      assert page[..j + 1][..j] == page[..j];
      if UpdatedSince(repo, since) {
        r := r + [ToInfo(repo)];
      }
      j := j + 1;
    }
    assert page[..j] == page;
  }

  /** `getOrganizationRepositories`: a failed organization listing fails the
      call; otherwise each organization's repositories are listed page by page,
      an error ending only that organization's loop. */
  method GetOrganizationRepositories(since: int, orgs: Result<seq<OrgListing>, string>)
    returns (result: Result<seq<RepositoryInfo>, string>)
    requires orgs.Success? ==> OrgsTerminate(orgs.value)
    ensures result.Failure? <==> orgs.Failure?
    ensures result.Success? ==> result.value == OrgRepos(orgs.value, since)
  {
    if orgs.Failure? {
      return Failure("error listing organizations: " + orgs.error);
    }
    var os := orgs.value;
    var repos: seq<RepositoryInfo> := [];
    var o := 0;
    while o < |os|
      invariant o <= |os|
      invariant repos == OrgRepos(os[..o], since)
    {
      assert os[..o + 1][..o] == os[..o];
      repos := ListOrgRepositories(repos, os[o], since);
      o := o + 1;
    }
    assert os[..o] == os;
    result := Success(repos);
  }

  /** The page loop for one organization: follows `NextPage` until 0, appending
      the repositories updated after `since`; an error is logged and ends this
      organization's loop, keeping the pages already seen. */
  method ListOrgRepositories(repos: seq<RepositoryInfo>, org: OrgListing, since: int)
    returns (r: seq<RepositoryInfo>)
    requires Terminates(org.repos)
    ensures r == repos + RecentInfos(ListedItems(org.repos), since)
  {
    var listing := org.repos;
    r := repos;
    var k := 0;
    ghost var seen: seq<PlatformRepo> := [];
    while true
      invariant k <= FirstStop(listing)
      invariant seen == PageItems(listing[..k])
      invariant r == repos + RecentInfos(seen, since)
      decreases FirstStop(listing) - k
    {
      PageStep(listing, k, seen);
      var reply := listing[k];
      if reply.Failure? {
        // logged as a warning; the next organization is still listed
        break;
      }
      RecentInfosAppend(seen, reply.value.items, since);
      ConcatAssoc(repos, RecentInfos(seen, since), RecentInfos(reply.value.items, since));
      r := AppendRecent(r, reply.value.items, since);
      seen := seen + reply.value.items;
      if reply.value.nextPage == 0 {
        break;
      }
      k := k + 1;
    }
  }

  // ---------------------------------------------------------------------------
  // Merging user and organization repositories

  /** `reposMap[repo.FullName] = repo` over a sequence: a later entry with the
      same `FullName` replaces an earlier one. */
  function Keyed(rs: seq<RepositoryInfo>): (m: map<string, RepositoryInfo>)
    ensures KeyedByFullName(m)
  {
    if rs == [] then map[] else Keyed(rs[..|rs| - 1])[rs[|rs| - 1].fullName := rs[|rs| - 1]]
  }

  /** The keys are exactly the full names that occur. */
  lemma {:induction false} KeyedKeys(rs: seq<RepositoryInfo>, k: string)
    ensures k in Keyed(rs) <==> exists i :: 0 <= i < |rs| && rs[i].fullName == k
  {
    if rs != [] {
      var n := |rs| - 1;
      KeyedKeys(rs[..n], k);
      if exists i :: 0 <= i < n && rs[..n][i].fullName == k {
        var i :| 0 <= i < n && rs[..n][i].fullName == k;
        assert rs[i] == rs[..n][i];
      }
      if exists i :: 0 <= i < |rs| && rs[i].fullName == k {
        var i :| 0 <= i < |rs| && rs[i].fullName == k;
        if i < n {
          assert rs[..n][i] == rs[i];
        }
      }
    }
  }

  /** Entries written later win: for a key the second part mentions, the merged
      map holds the second part's entry (organization entries overwrite user ones). */
  lemma {:induction false} KeyedLaterWins(a: seq<RepositoryInfo>, b: seq<RepositoryInfo>, k: string)
    requires k in Keyed(b)
    ensures k in Keyed(a + b) && Keyed(a + b)[k] == Keyed(b)[k]
  {
    var n := |b| - 1;
    assert (a + b)[..|a + b| - 1] == a + b[..n];
    assert (a + b)[|a + b| - 1] == b[n];
    if b[n].fullName != k {
      KeyedLaterWins(a, b[..n], k);
    }
  }

  /** Each kept entry is one of the listed entries. */
  lemma {:induction false} KeyedFrom(rs: seq<RepositoryInfo>, k: string)
    requires k in Keyed(rs)
    ensures Keyed(rs)[k] in rs
  {
    var n := |rs| - 1;
    if rs[n].fullName != k {
      KeyedFrom(rs[..n], k);
    }
  }

  /** The loop `for _, repo := range repos { reposMap[repo.FullName] = repo }`. */
  method PutAll(reposMap: map<string, RepositoryInfo>, ghost before: seq<RepositoryInfo>, repos: seq<RepositoryInfo>)
    returns (m: map<string, RepositoryInfo>)
    requires reposMap == Keyed(before)
    ensures m == Keyed(before + repos)
  {
    m := reposMap;
    var j := 0;
    assert before + repos[..0] == before;
    while j < |repos|
      invariant j <= |repos|
      invariant m == Keyed(before + repos[..j])
    {
      var repo := repos[j];
      assert (before + repos[..j + 1])[..|before| + j] == before + repos[..j];
      m := m[repo.fullName := repo];
      j := j + 1;
    }
    assert repos[..j] == repos;
  }

  /** The candidates of `GetRepositoriesWithRecentCommits`: the user's recent
      repositories, then (when the organization listing succeeded) the
      organizations' ones, keyed by `FullName` with the later entry winning. */
  function Candidates(userListing: seq<Response<PlatformRepo>>, orgs: Result<seq<OrgListing>, string>, since: int)
    : map<string, RepositoryInfo>
    requires Terminates(userListing)
    requires orgs.Success? ==> OrgsTerminate(orgs.value)
  {
    Keyed(RecentInfos(ListedItems(userListing), since) + (if orgs.Success? then OrgRepos(orgs.value, since) else []))
  }

  /** `hasCommitsSince(ctx, repoInfo.FullName, since)`: the owner and repository
      for the commit listing come from splitting the full name. */
  function CommitCheck(listCommits: (string, string) -> Result<seq<string>, string>)
    : (check: RepositoryInfo -> Result<bool, string>)
    ensures forall info :: check(info) == HasCommitsSince(listCommits(ParseRepoName(info.fullName).0, ParseRepoName(info.fullName).1))
  {
    (info: RepositoryInfo) => var (owner, repo) := ParseRepoName(info.fullName); HasCommitsSince(listCommits(owner, repo))
  }

  /** `GetRepositoriesWithRecentCommits` (its user listing call is
      `getUserRepositories`): a failed user listing fails the call; a failed
      organization listing is only logged; the merged candidates are narrowed
      to those whose commit check says yes. */
  method GetRepositoriesWithRecentCommits(
    since: int,
    userListing: seq<Response<PlatformRepo>>,
    orgs: Result<seq<OrgListing>, string>,
    listCommits: (string, string) -> Result<seq<string>, string>)
    returns (result: Result<seq<RepositoryInfo>, string>)
    requires Terminates(userListing)
    requires orgs.Success? ==> OrgsTerminate(orgs.value)
    ensures result.Failure? <==> ListingFailed(userListing)
    ensures result.Success? ==> KeptWithCommits(result.value, Candidates(userListing, orgs, since), CommitCheck(listCommits))
  {
    var userRepos, _ := GetUserRepositories(since, userListing);
    if userRepos.Failure? {
      return Failure(userRepos.error);
    }
    var reposMap := PutAll(map[], [], userRepos.value);
    assert [] + userRepos.value == userRepos.value;
    var orgRepos := GetOrganizationRepositories(since, orgs);
    if orgRepos.Failure? {
      // logged as a warning; the user's repositories are still used
      assert userRepos.value + [] == userRepos.value;
    } else {
      reposMap := PutAll(reposMap, userRepos.value, orgRepos.value);
    }
    var repos := KeepWithCommits(reposMap, CommitCheck(listCommits));
    result := Success(repos);
  }

  // ---------------------------------------------------------------------------
  // InteractiveRepositorySelector

  /** The selection check: a number outside 1..len(repos) (0 included) means
      "exit"; otherwise the repository numbered `selection` (1-based) is picked. */
  function SelectRepository(repos: seq<RepositoryInfo>, selection: int): (r: Option<RepositoryInfo>)
    ensures r.Some? <==> 1 <= selection <= |repos|
    ensures r.Some? ==> r.value == repos[selection - 1]
  {
    if selection <= 0 || selection > |repos| then None else Some(repos[selection - 1])
  }
}
