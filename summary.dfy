/** llm.go: `LLMService.GenerateSummary` groups the commits by repository,
    renders them as a text digest, wraps the digest in a fixed prompt, sends it
    to the generative endpoint and returns the first candidate's text. Go's map
    iteration order is unspecified, so the order in which repositories are
    rendered is chosen by the model with `:|` and returned as `order`. */
module Summary {
  import opened Wrappers
  import opened Types

  const NoCommits: string := "No commits found in the specified time period."
  const Fallback: string := "Unable to generate summary at this time."
  const DigestHeader: string := "Recent commits summary:\n\n"
  const GeminiApiUrl: string := "https://generativelanguage.googleapis.com/v1beta/models/gemini-2.0-flash:generateContent?key="
  const PromptPrefix: string :=
    "Please provide a concise summary of the following recent commits for a daily standup or meeting. \n" +
    "Focus on the most important changes, new features, bug fixes, and any breaking changes. \n" +
    "Group by repository and highlight key achievements:\n\n"
  const PromptSuffix: string := "\n\nPlease format the response as a professional summary suitable for a team meeting."

  /** `LLMService`: holds only the API key. */
  datatype LLMService = LLMService(apiKey: string)

  /** The repositories the commits belong to. */
  function RepoNames(cs: seq<Commit>): set<string> {
    if cs == [] then {}
    else RepoNames(cs[..|cs| - 1]) + {cs[|cs| - 1].repoName}
  }

  /** The commits of repository `name`, in the order they were given. */
  function Group(cs: seq<Commit>, name: string): (r: seq<Commit>)
    ensures |r| <= |cs|
  {
    if cs == [] then []
    else
      var c := cs[|cs| - 1];
      Group(cs[..|cs| - 1], name) + (if c.repoName == name then [c] else [])
  }

  lemma RepoNamesSnoc(cs: seq<Commit>, k: nat)
    requires k < |cs|
    ensures RepoNames(cs[..k + 1]) == RepoNames(cs[..k]) + {cs[k].repoName}
  {
    assert cs[..k + 1][..k] == cs[..k];
  }

  lemma GroupSnoc(cs: seq<Commit>, k: nat, name: string)
    requires k < |cs|
    ensures Group(cs[..k + 1], name) == Group(cs[..k], name) + (if cs[k].repoName == name then [cs[k]] else [])
  {
    assert cs[..k + 1][..k] == cs[..k];
  }

  /** A repository name is collected iff some commit carries it. */
  lemma {:induction false} RepoNamesMember(cs: seq<Commit>, name: string)
    ensures name in RepoNames(cs) <==> exists i :: 0 <= i < |cs| && cs[i].repoName == name
  {
    if cs != [] {
      var n := |cs| - 1;
      RepoNamesMember(cs[..n], name);
      if name in RepoNames(cs[..n]) {
        var i :| 0 <= i < n && cs[..n][i].repoName == name;
        assert cs[i] == cs[..n][i];
      }
      if exists i :: 0 <= i < |cs| && cs[i].repoName == name {
        var i :| 0 <= i < |cs| && cs[i].repoName == name;
        if i < n {
          assert cs[..n][i] == cs[i];
        }
      }
    }
  }

  /** A group holds exactly the commits of that repository. */
  lemma {:induction false} GroupMember(cs: seq<Commit>, name: string, c: Commit)
    ensures c in Group(cs, name) <==> c in cs && c.repoName == name
  {
    if cs != [] {
      var n := |cs| - 1;
      GroupMember(cs[..n], name, c);
      assert cs == cs[..n] + [cs[n]];
    }
  }

  /** Grouping works piece by piece: a repository's commits from `a` come
      before its commits from `b`, each part in its own order. */
  lemma {:induction false} GroupAppend(a: seq<Commit>, b: seq<Commit>, name: string)
    ensures Group(a + b, name) == Group(a, name) + Group(b, name)
  {
    if b == [] {
      assert a + b == a;
    } else {
      var n := |b| - 1;
      assert (a + b)[..|a + b| - 1] == a + b[..n];
      GroupAppend(a, b[..n], name);
    }
  }

  /** A repository with no commit has an empty group. */
  lemma {:induction false} GroupAbsent(cs: seq<Commit>, name: string)
    requires name !in RepoNames(cs)
    ensures Group(cs, name) == []
  {
    if cs != [] {
      GroupAbsent(cs[..|cs| - 1], name);
    }
  }

  /** `- <sha>: <message> (by <author> on <date>)` and a newline. */
  function CommitLine(c: Commit, formatMinute: int -> string): string {
    "- " + c.sha + ": " + c.message + " (by " + c.author + " on " + formatMinute(c.date) + ")\n"
  }

  function Lines(cs: seq<Commit>, formatMinute: int -> string): string {
    if cs == [] then ""
    else Lines(cs[..|cs| - 1], formatMinute) + CommitLine(cs[|cs| - 1], formatMinute)
  }

  /** One repository's block: its heading, its commit lines, a blank line. */
  function Section(name: string, cs: seq<Commit>, formatMinute: int -> string): string {
    "Repository: " + name + "\n" + Lines(Group(cs, name), formatMinute) + "\n"
  }

  /** The blocks of the repositories in `order`. */
  function Sections(order: seq<string>, cs: seq<Commit>, formatMinute: int -> string): string {
    if order == [] then ""
    else Sections(order[..|order| - 1], cs, formatMinute) + Section(order[|order| - 1], cs, formatMinute)
  }

  /** The whole digest, for one rendering order. */
  function Digest(order: seq<string>, cs: seq<Commit>, formatMinute: int -> string): string {
    DigestHeader + Sections(order, cs, formatMinute)
  }

  function Prompt(digest: string): string {
    PromptPrefix + digest + PromptSuffix
  }

  predicate Distinct(order: seq<string>) {
    forall i, j :: 0 <= i < j < |order| ==> order[i] != order[j]
  }

  /** `order` lists every repository of `cs` exactly once (some map order). */
  ghost predicate IsRenderOrder(order: seq<string>, cs: seq<Commit>) {
    Distinct(order) && forall n :: n in order <==> n in RepoNames(cs)
  }

  lemma DistinctSnoc(order: seq<string>, x: string)
    requires Distinct(order) && x !in order
    ensures Distinct(order + [x])
  {
  }

  lemma DigestSnoc(order: seq<string>, name: string, cs: seq<Commit>, formatMinute: int -> string)
    ensures Digest(order + [name], cs, formatMinute) == Digest(order, cs, formatMinute) + Section(name, cs, formatMinute)
  {
    assert (order + [name])[..|order|] == order;
  }

  /** The groups in `order`, concatenated. */
  function Grouped(order: seq<string>, cs: seq<Commit>): seq<Commit> {
    if order == [] then []
    else Grouped(order[..|order| - 1], cs) + Group(cs, order[|order| - 1])
  }

  lemma {:induction false} GroupedEmpty(order: seq<string>)
    ensures Grouped(order, []) == []
  {
    if order != [] {
      GroupedEmpty(order[..|order| - 1]);
    }
  }

  /** A commit of a repository not in `order` leaves the grouping unchanged. */
  lemma {:induction false} GroupedUnaffected(order: seq<string>, cs: seq<Commit>, c: Commit)
    requires c.repoName !in order
    ensures Grouped(order, cs + [c]) == Grouped(order, cs)
  {
    if order != [] {
      var n := |order| - 1;
      assert order == order[..n] + [order[n]];
      GroupedUnaffected(order[..n], cs, c);
      assert (cs + [c])[..|cs|] == cs;
    }
  }

  /** Appending a commit of a rendered repository adds it exactly once to the
      grouping, in its repository's group. */
  lemma {:induction false} GroupedSnoc(order: seq<string>, cs: seq<Commit>, c: Commit)
    requires Distinct(order) && c.repoName in order
    ensures multiset(Grouped(order, cs + [c])) == multiset(Grouped(order, cs)) + multiset{c}
  {
    var n := |order| - 1;
    var pre := order[..n];
    var name := order[n];
    assert order == pre + [name];
    assert (cs + [c])[..|cs|] == cs;
    if c.repoName == name {
      GroupedUnaffected(pre, cs, c);
      assert Group(cs + [c], name) == Group(cs, name) + [c];
    } else {
      assert Distinct(pre);
      GroupedSnoc(pre, cs, c);
      assert Group(cs + [c], name) == Group(cs, name);
    }
  }

  /** Grouping by repository loses no commit and repeats none: rendered in any
      order that lists each repository once, the groups hold exactly the commits. */
  lemma {:induction false} GroupedIsPermutation(order: seq<string>, cs: seq<Commit>)
    requires Distinct(order)
    requires forall n :: n in RepoNames(cs) ==> n in order
    ensures multiset(Grouped(order, cs)) == multiset(cs)
  {
    if cs == [] {
      GroupedEmpty(order);
    } else {
      var n := |cs| - 1;
      assert cs == cs[..n] + [cs[n]];
      assert RepoNames(cs[..n]) <= RepoNames(cs);
      GroupedIsPermutation(order, cs[..n]);
      assert cs[n].repoName in order;
      GroupedSnoc(order, cs[..n], cs[n]);
    }
  }

  /** The text `ExtractSummary` keeps: the first candidate's first part, or the
      fixed fallback when there is none. */
  function ExtractSummary(resp: GeminiResponse): (s: string)
    ensures FirstCandidateText(resp).Some? ==> s == FirstCandidateText(resp).value
    ensures FirstCandidateText(resp).None? ==> s == Fallback
  {
    match FirstCandidateText(resp)
    case Some(t) => t
    case None => Fallback
  }

  /** `groups` holds, for each repository named in `cs`, that repository's commits in order. */
  ghost predicate GroupsOf(groups: map<string, seq<Commit>>, cs: seq<Commit>)
  {
    groups.Keys == RepoNames(cs) && forall n :: n in groups ==> groups[n] == Group(cs, n)
  }

  /** The entry for `c`'s repository, with `c` appended. */
  function Extended(groups: map<string, seq<Commit>>, c: Commit): (r: map<string, seq<Commit>>)
    ensures r.Keys == groups.Keys + {c.repoName}
  {
    groups[c.repoName := (if c.repoName in groups then groups[c.repoName] else []) + [c]]
  }

  /** Appending the next commit to its repository's entry keeps the map grouped. */
  lemma GroupStep(groups: map<string, seq<Commit>>, cs: seq<Commit>, k: nat)
    requires k < |cs| && GroupsOf(groups, cs[..k])
    ensures GroupsOf(Extended(groups, cs[k]), cs[..k + 1])
  {
    var c, next := cs[k], Extended(groups, cs[k]);
    RepoNamesSnoc(cs, k);
    if c.repoName !in groups {
      GroupAbsent(cs[..k], c.repoName);
    }
    forall n | n in next
      ensures next[n] == Group(cs[..k + 1], n)
    {
      GroupSnoc(cs, k, n);
      if n != c.repoName {
        assert next[n] == groups[n];
      }
    }
  }

  /** The map-building loop: each repository's commits, in order. */
  method GroupByRepo(commits: seq<Commit>) returns (groups: map<string, seq<Commit>>)
    ensures groups.Keys == RepoNames(commits)
    ensures forall n :: n in groups ==> groups[n] == Group(commits, n)
  {
    groups := map[];
    var i := 0;
    while i < |commits|
      invariant i <= |commits|
      invariant GroupsOf(groups, commits[..i])
    {
      GroupStep(groups, commits, i);
      groups := Extended(groups, commits[i]);
      i := i + 1;
    }
    assert commits[..i] == commits;
  }

  /** One repository's block, written line by line. */
  method RenderSection(repoName: string, cs: seq<Commit>, formatMinute: int -> string) returns (text: string)
    ensures text == "Repository: " + repoName + "\n" + Lines(cs, formatMinute) + "\n"
  {
    text := "Repository: " + repoName + "\n";
    var j := 0;
    while j < |cs|
      invariant j <= |cs|
      invariant text == "Repository: " + repoName + "\n" + Lines(cs[..j], formatMinute)
    {
      assert cs[..j + 1][..j] == cs[..j];
      text := text + CommitLine(cs[j], formatMinute);
      j := j + 1;
    }
    assert cs[..j] == cs;
    text := text + "\n";
  }

  /** The rendering loop over the map, in whatever order it yields its keys. */
  method RenderDigest(commits: seq<Commit>, formatMinute: int -> string) returns (digest: string, order: seq<string>)
    ensures IsRenderOrder(order, commits)
    ensures digest == Digest(order, commits, formatMinute)
  {
    var groups := GroupByRepo(commits);
    digest := DigestHeader;
    order := [];
    var pending := groups.Keys;
    while pending != {}
      invariant pending <= groups.Keys
      invariant Distinct(order)
      invariant forall n :: n in order ==> n in groups && n !in pending
      invariant forall n :: n in groups ==> n in order || n in pending
      invariant digest == Digest(order, commits, formatMinute)
      decreases pending
    {
      var repoName :| repoName in pending;
      var text := RenderSection(repoName, groups[repoName], formatMinute);
      assert text == Section(repoName, commits, formatMinute);
      DigestSnoc(order, repoName, commits, formatMinute);
      DistinctSnoc(order, repoName);
      digest := digest + text;
      order := order + [repoName];
      pending := pending - {repoName};
    }
  }

  /** `GenerateSummary`: no commits short-circuits with a fixed message and no
      request; otherwise the prompt built from the digest is sent (to the
      endpoint whose URL ends with the API key) and the reply's status is not
      looked at: a transport, read or decode error is returned as an error, and
      a decoded reply yields its first candidate's text or the fallback. */
  method GenerateSummary(llm: LLMService, commits: seq<Commit>, formatMinute: int -> string, outcome: HttpOutcome)
    returns (summary: Result<string, string>, request: Option<Outbound>, order: seq<string>)
    ensures commits == [] ==> summary == Success(NoCommits) && request == None
    ensures commits != [] ==> IsRenderOrder(order, commits)
    ensures commits != [] ==> request == Some(Outbound(GeminiApiUrl + llm.apiKey, SingleTurn(Prompt(Digest(order, commits, formatMinute)))))
    ensures commits != [] ==> match outcome
      case TransportFailed(e) => summary == Failure(e)
      case ReadFailed(e) => summary == Failure(e)
      case Answered(_, _, decoded) =>
        (decoded.Failure? ==> summary == Failure(decoded.error)) &&
        (decoded.Success? ==> summary == Success(ExtractSummary(decoded.value)))
  {
    if commits == [] {
      return Success(NoCommits), None, [];
    }
    var digest;
    digest, order := RenderDigest(commits, formatMinute);
    request := Some(Outbound(GeminiApiUrl + llm.apiKey, SingleTurn(Prompt(digest))));
    match outcome {
      case TransportFailed(e) =>
        summary := Failure(e);
      case ReadFailed(e) =>
        summary := Failure(e);
      case Answered(_, _, decoded) =>
        if decoded.Failure? {
          summary := Failure(decoded.error);
        } else {
          summary := Success(ExtractSummary(decoded.value));
        }
    }
  }
}
