/** github.go: the `GitHub` object that loads the user's repositories once,
    then filters them by update time, renders them as selection labels, and
    fetches the latest commits of the repositories named by chosen labels.
    Clock readings are parameters (`now`), date rendering and parsing are
    function parameters, and each HTTP exchange is given as its decoded
    outcome. */
module GitHubRest {
  import opened Wrappers
  import opened Types

  const SecondsPerDay: int := 86400

  /** `Repo`: a repository as the REST listing decodes it (times in seconds). */
  datatype Repo = Repo(
    id: int, name: string, private: bool, htmlUrl: string, url: string,
    language: string, createdAt: int, updatedAt: int)

  /** `Repo.String`: `"<name> (<language>) - Updated: <day>"`, the label shown in
      the selection list. */
  function Label(r: Repo, formatDay: int -> string): string {
    r.name + " (" + r.language + ") - Updated: " + formatDay(r.updatedAt)
  }

  /** The separator `" ("` starts at index `i` of `s`. */
  predicate SeparatorAt(s: string, i: int) {
    0 <= i && i + 1 < |s| && s[i] == ' ' && s[i + 1] == '('
  }

  predicate HasSeparator(s: string) {
    exists i :: 0 <= i < |s| && SeparatorAt(s, i)
  }

  /** `strings.Split(choice, " (")[0]`: the text before the first `" ("`, or the
      whole choice when it has none. */
  function NameOf(choice: string): (name: string)
    ensures name <= choice
    ensures forall i :: 0 <= i < |name| ==> !SeparatorAt(choice, i)
    ensures name == choice || SeparatorAt(choice, |name|)
  {
    if |choice| < 2 then choice
    else if choice[0] == ' ' && choice[1] == '(' then ""
    else
      var rest := NameOf(choice[1..]);
      assert forall i :: 1 <= i < 1 + |rest| ==> SeparatorAt(choice, i) == SeparatorAt(choice[1..], i - 1);
      [choice[0]] + rest
  }

  /** The label round trip: the name a label is turned back into is the
      repository's own name, as long as that name has no `" ("` of its own. */
  lemma LabelRoundTrip(r: Repo, formatDay: int -> string)
    requires !HasSeparator(r.name)
    ensures NameOf(Label(r, formatDay)) == r.name
  {
    var s := Label(r, formatDay);
    var p := NameOf(s);
    assert s == r.name + (" (" + r.language + ") - Updated: " + formatDay(r.updatedAt));
    assert SeparatorAt(s, |r.name|);
    assert |p| <= |r.name|;
    assert !SeparatorAt(r.name, |p|);
    assert |p| == |r.name|;
    assert p == s[..|r.name|] == r.name;
  }

  /** `time.Now().AddDate(0, 0, -daysBack)` as seconds, at a fixed day length. */
  function Cutoff(now: int, daysBack: int): int {
    now - daysBack * SecondsPerDay
  }

  /** The repositories updated strictly after `cutoff`, in their original order. */
  function UpdatedAfter(rs: seq<Repo>, cutoff: int): seq<Repo> {
    if rs == [] then []
    else
      var last := rs[|rs| - 1];
      UpdatedAfter(rs[..|rs| - 1], cutoff) + (if last.updatedAt > cutoff then [last] else [])
  }

  /** A repository is kept iff it is listed and updated strictly after the cutoff. */
  lemma {:induction false} UpdatedAfterMember(rs: seq<Repo>, cutoff: int, x: Repo)
    ensures x in UpdatedAfter(rs, cutoff) <==> x in rs && x.updatedAt > cutoff
  {
    if rs != [] {
      var n := |rs| - 1;
      UpdatedAfterMember(rs[..n], cutoff, x);
      assert rs == rs[..n] + [rs[n]];
    }
  }

  /** The filter keeps relative order: it distributes over concatenation. */
  lemma {:induction false} UpdatedAfterAppend(a: seq<Repo>, b: seq<Repo>, cutoff: int)
    ensures UpdatedAfter(a + b, cutoff) == UpdatedAfter(a, cutoff) + UpdatedAfter(b, cutoff)
  {
    if b == [] {
      assert a + b == a;
    } else {
      var n := |b| - 1;
      assert (a + b)[..|a + b| - 1] == a + b[..n];
      UpdatedAfterAppend(a, b[..n], cutoff);
    }
  }

  /** Filtering again with the same cutoff changes nothing. */
  lemma {:induction false} UpdatedAfterIdempotent(rs: seq<Repo>, cutoff: int)
    ensures UpdatedAfter(UpdatedAfter(rs, cutoff), cutoff) == UpdatedAfter(rs, cutoff)
  {
    if rs != [] {
      var n := |rs| - 1;
      var kept := if rs[n].updatedAt > cutoff then [rs[n]] else [];
      UpdatedAfterIdempotent(rs[..n], cutoff);
      UpdatedAfterAppend(UpdatedAfter(rs[..n], cutoff), kept, cutoff);
      if kept != [] {
        assert UpdatedAfter(kept, cutoff) == UpdatedAfter(kept[..0], cutoff) + kept;
      }
    }
  }

  /** What `GetRecentlyUpdatedRepos(daysBack)` returns at clock reading `now`. */
  function RecentlyUpdated(repos: seq<Repo>, daysBack: int, now: int): seq<Repo> {
    if daysBack <= 0 then repos else UpdatedAfter(repos, Cutoff(now, daysBack))
  }

  datatype GitHubOptions = GitHubOptions(apiKey: string, username: string)

  /** One chosen label and the decoded outcome of the commit listing request
      made for the name taken from it (a failed request, read or decode is a
      `Failure`). */
  datatype CommitFetch = CommitFetch(choice: string, reply: Result<seq<CommitResponse>, string>)

  /** Every commit SHA the platform returned has at least 8 characters (the
      conversion slices `SHA[:8]`, which would panic otherwise). */
  predicate ShasLongEnough(fetches: seq<CommitFetch>) {
    forall i, j :: 0 <= i < |fetches| && fetches[i].reply.Success? && 0 <= j < |fetches[i].reply.value| ==>
      |fetches[i].reply.value[j].sha| >= 8
  }

  /** The `CommitResponse` to `Commit` conversion. */
  function ToCommit(c: CommitResponse, repoName: string, parseTime: string -> int): (r: Commit)
    requires |c.sha| >= 8
    ensures |r.sha| == 8 && r.sha <= c.sha
    ensures r.author == (if c.author.Some? then c.author.value.login else c.commit.author.name)
    ensures r.repoName == repoName && r.message == c.commit.message.message
  {
    var author := if c.author.Some? then c.author.value.login else c.commit.author.name;
    Commit(c.sha[..8], c.commit.message.message, author, parseTime(c.commit.author.date), repoName, c.htmlUrl)
  }

  /** The commits of one decoded reply, converted in order. */
  function ConvertAll(cs: seq<CommitResponse>, repoName: string, parseTime: string -> int): (r: seq<Commit>)
    requires forall j :: 0 <= j < |cs| ==> |cs[j].sha| >= 8
    ensures |r| == |cs|
    ensures forall j :: 0 <= j < |cs| ==> r[j] == ToCommit(cs[j], repoName, parseTime)
  {
    if cs == [] then []
    else ConvertAll(cs[..|cs| - 1], repoName, parseTime) + [ToCommit(cs[|cs| - 1], repoName, parseTime)]
  }

  /** What `GetLatestCommits` collects: choice by choice, the converted commits
      of each successful reply; a failed fetch contributes nothing. */
  function LatestCommits(fetches: seq<CommitFetch>, parseTime: string -> int): seq<Commit>
    requires ShasLongEnough(fetches)
  {
    if fetches == [] then []
    else
      var n := |fetches| - 1;
      assert ShasLongEnough(fetches[..n]) by {
        forall i, j | 0 <= i < n && fetches[..n][i].reply.Success? && 0 <= j < |fetches[..n][i].reply.value|
          ensures |fetches[..n][i].reply.value[j].sha| >= 8
        {
          assert fetches[..n][i] == fetches[i];
        }
      }
      var f := fetches[n];
      LatestCommits(fetches[..n], parseTime) +
        (if f.reply.Success? then ConvertAll(f.reply.value, NameOf(f.choice), parseTime) else [])
  }

  /** One more chosen label: its reply's converted commits, if any, come last. */
  lemma LatestCommitsSnoc(fetches: seq<CommitFetch>, k: nat, parseTime: string -> int)
    requires k < |fetches| && ShasLongEnough(fetches)
    ensures ShasLongEnough(fetches[..k]) && ShasLongEnough(fetches[..k + 1])
    ensures fetches[k].reply.Success? ==> forall j :: 0 <= j < |fetches[k].reply.value| ==> |fetches[k].reply.value[j].sha| >= 8
    ensures LatestCommits(fetches[..k + 1], parseTime) == LatestCommits(fetches[..k], parseTime) +
      (if fetches[k].reply.Success? then ConvertAll(fetches[k].reply.value, NameOf(fetches[k].choice), parseTime) else [])
  {
    forall i | 0 <= i < k + 1
      ensures fetches[..k + 1][i] == fetches[i]
    {
    }
    assert fetches[..k + 1][..k] == fetches[..k];
  }

  /** Every emitted commit is the conversion of a commit from a successful reply,
      tagged with the name extracted from that reply's label. */
  lemma {:induction false} LatestCommitsFrom(fetches: seq<CommitFetch>, parseTime: string -> int, k: nat)
    requires ShasLongEnough(fetches)
    requires k < |LatestCommits(fetches, parseTime)|
    ensures exists i, j ::
      0 <= i < |fetches| && fetches[i].reply.Success? && 0 <= j < |fetches[i].reply.value| &&
      LatestCommits(fetches, parseTime)[k] == ToCommit(fetches[i].reply.value[j], NameOf(fetches[i].choice), parseTime)
  {
    var n := |fetches| - 1;
    var prev := LatestCommits(fetches[..n], parseTime);
    var f := fetches[n];
    if k < |prev| {
      LatestCommitsFrom(fetches[..n], parseTime, k);
      var i, j :| 0 <= i < n && fetches[..n][i].reply.Success? && 0 <= j < |fetches[..n][i].reply.value|
        && prev[k] == ToCommit(fetches[..n][i].reply.value[j], NameOf(fetches[..n][i].choice), parseTime);
      assert fetches[..n][i] == fetches[i];
    } else {
      var j := k - |prev|;
      assert LatestCommits(fetches, parseTime)[k] == ToCommit(f.reply.value[j], NameOf(f.choice), parseTime);
    }
  }

  /** `GitHub`: the user's credentials and the repositories loaded for them. */
  class GitHub {
    const username: string
    const apiKey: string
    var repos: seq<Repo>

    constructor (username: string, apiKey: string)
      ensures this.username == username && this.apiKey == apiKey && repos == []
    {
      this.username := username;
      this.apiKey := apiKey;
      repos := [];
    }

    /** `LoadReposFromUser`: appends the decoded repositories after those already
        held; a failed request, read or decode is fatal (`log.Fatal`) and
        reported as `Some`. */
    method LoadReposFromUser(fetched: Result<seq<Repo>, string>) returns (fatal: Option<string>)
      modifies this
      ensures fatal.None? <==> fetched.Success?
      ensures fetched.Success? ==> repos == old(repos) + fetched.value
      ensures fetched.Failure? ==> repos == old(repos)
    {
      if fetched.Failure? {
        return Some(fetched.error);
      }
      repos := repos + fetched.value;
      fatal := None;
    }

    /** `GetRecentlyUpdatedRepos`: a non-positive `daysBack` returns the stored
        repositories as they are; otherwise those updated after the cutoff. */
    method GetRecentlyUpdatedRepos(daysBack: int, now: int) returns (recent: seq<Repo>)
      ensures daysBack <= 0 ==> recent == repos
      ensures recent == RecentlyUpdated(repos, daysBack, now)
    {
      if daysBack <= 0 {
        return repos;
      }
      var cutoffDate := Cutoff(now, daysBack);
      recent := [];
      var i := 0;
      while i < |repos|
        invariant i <= |repos|
        invariant recent == UpdatedAfter(repos[..i], cutoffDate)
      {
        assert repos[..i + 1][..i] == repos[..i];
        if repos[i].updatedAt > cutoffDate {
          recent := recent + [repos[i]];
        }
        i := i + 1;
      }
      assert repos[..i] == repos;
    }

    /** `GetReposChoices`: one label per stored repository, in order. */
    method GetReposChoices(formatDay: int -> string) returns (choices: seq<string>)
      ensures |choices| == |repos|
      ensures forall i :: 0 <= i < |repos| ==> choices[i] == Label(repos[i], formatDay)
    {
      choices := Choices(repos, formatDay);
    }

    /** `GetRecentlyUpdatedReposChoices`: the labels of `GetRecentlyUpdatedRepos`. */
    method GetRecentlyUpdatedReposChoices(daysBack: int, now: int, formatDay: int -> string)
      returns (choices: seq<string>)
      ensures var recent := RecentlyUpdated(repos, daysBack, now);
        |choices| == |recent| && forall i :: 0 <= i < |recent| ==> choices[i] == Label(recent[i], formatDay)
    {
      var recent := GetRecentlyUpdatedRepos(daysBack, now);
      choices := Choices(recent, formatDay);
    }

    /** `GetLatestCommits`: for each chosen label, the name before `" ("` names
        the repository; a failed request, read or decode skips it; the commits of
        each reply are converted in order. It never reports an error. */
    method GetLatestCommits(fetches: seq<CommitFetch>, parseTime: string -> int)
      returns (allCommits: seq<Commit>, err: Option<string>)
      requires ShasLongEnough(fetches)
      ensures err == None
      ensures allCommits == LatestCommits(fetches, parseTime)
    {
      allCommits := [];
      var k := 0;
      while k < |fetches|
        invariant k <= |fetches|
        invariant ShasLongEnough(fetches[..k])
        invariant allCommits == LatestCommits(fetches[..k], parseTime)
      {
        LatestCommitsSnoc(fetches, k, parseTime);
        var name := NameOf(fetches[k].choice);
        var reply := fetches[k].reply;
        if reply.Success? {
          var converted := ConvertReply(reply.value, name, parseTime);
          allCommits := allCommits + converted;
        }
        k := k + 1;
      }
      assert fetches[..k] == fetches;
      err := None;
    }
  }

  /** The conversion loop over one reply's commits. */
  method ConvertReply(commits: seq<CommitResponse>, name: string, parseTime: string -> int)
    returns (converted: seq<Commit>)
    requires forall j :: 0 <= j < |commits| ==> |commits[j].sha| >= 8
    ensures converted == ConvertAll(commits, name, parseTime)
  {
    converted := [];
    var j := 0;
    while j < |commits|
      invariant j <= |commits|
      invariant converted == ConvertAll(commits[..j], name, parseTime)
    {
      assert commits[..j + 1][..j] == commits[..j];
      converted := converted + [ToCommit(commits[j], name, parseTime)];
      j := j + 1;
    }
    assert commits[..j] == commits;
  }

  /** The loop `for _, r := range …: choices = append(choices, fmt.Sprint(r))`. */
  method Choices(rs: seq<Repo>, formatDay: int -> string) returns (choices: seq<string>)
    ensures |choices| == |rs|
    ensures forall i :: 0 <= i < |rs| ==> choices[i] == Label(rs[i], formatDay)
  {
    choices := [];
    var i := 0;
    while i < |rs|
      invariant i <= |rs|
      invariant |choices| == i
      invariant forall j :: 0 <= j < i ==> choices[j] == Label(rs[j], formatDay)
    {
      choices := choices + [Label(rs[i], formatDay)];
      i := i + 1;
    }
  }

  /** `NewGithub`: an empty API key, then an empty username, is fatal before any
      request; otherwise the repositories are loaded, and a failed load is fatal. */
  method NewGithub(opts: GitHubOptions, fetched: Result<seq<Repo>, string>) returns (gh: Result<GitHub, string>)
    ensures opts.apiKey == "" ==> gh == Failure("authorization token should not be empty")
    ensures opts.apiKey != "" && opts.username == "" ==> gh == Failure("user should not be empty")
    ensures gh.Success? <==> opts.apiKey != "" && opts.username != "" && fetched.Success?
    ensures gh.Success? ==> fresh(gh.value) && gh.value.repos == fetched.value
    ensures gh.Success? ==> gh.value.username == opts.username && gh.value.apiKey == opts.apiKey
  {
    if opts.apiKey == "" {
      return Failure("authorization token should not be empty");
    }
    if opts.username == "" {
      return Failure("user should not be empty");
    }
    var g := new GitHub(opts.username, opts.apiKey);
    var fatal := g.LoadReposFromUser(fetched);
    if fatal.Some? {
      return Failure(fatal.value);
    }
    gh := Success(g);
  }
}
