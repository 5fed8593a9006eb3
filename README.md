# daily-go, modelled in Dafny

daily-go is a command-line helper for daily stand-ups. It finds the GitHub
repositories a user recently worked on and collects their recent commits.
It then asks Google's Gemini generative endpoint for a meeting-ready summary.
The configuration comes from environment variables.

This project models the sequential core of the tool and proves properties of it:

- **Repository discovery** (`github/github.go`, `github/github_bak.go`). Repository listings are followed
  page by page. Repositories are kept only if updated after `since`. They are deduplicated by full name:
  the first one seen wins in `github/github.go`, and an organisation entry overwrites a user entry in
  `github/github_bak.go`. Finally they are filtered by a "has commits since" check.
- **Commit aggregation across branches** (`github/github_bak.go`). Commits are collected branch by branch
  and page by page. An SHA already collected is skipped, and a commit whose detail fetch fails is left out.
- **The `GitHub` object of `github.go`**. This covers its `repos` field, the update-time filter, the
  selection labels, and the conversion of commit replies into `Commit` values.
- **The summary** (`llm.go`). Commits are grouped by repository and rendered as a digest. The digest is
  wrapped in a fixed prompt and sent as a single-part request. The reply is read, with a fallback text.
- **The Gemini client** (`llm/gemini.go`). This covers the model default, the request, the ordered error
  checks, and the key guard.
- **Configuration** (`config.go`). Defaults are overridden only by positive integers. The validation
  reports the first missing setting.

Every HTTP exchange is an input value, because the model cannot perform one:

- A paginated listing is a sequence of replies: the k-th reply answers the k-th request. Each reply is
  either an error or a page carrying its items and `NextPage`.
- A single request is its decoded `Result`.
- A Gemini exchange is an `HttpOutcome`.
- The clock reading is an integer parameter (`now`, `since`), and date formatting and parsing are
  function parameters.
- The environment is a `map<string, string>`.

Go's map iteration order is unspecified, so the model picks the next key with `:|`. Results built by
ranging over a map are stated as sets, and the summary returns the rendering order it used.

The modules are:

- `Wrappers`: `Option` and `Result`.
- `Environment`: `os.Getenv`.
- `Strconv`: `strconv.Atoi` and `%d`.
- `Paging`: the meaning of a paginated listing.
- `Types`: types.go.
- `GitHubPackage`: the types and the commit filter shared by both files of the `github` package.
- `GitHubClient`: github/github.go.
- `GitHubClientBak`: github/github_bak.go.
- `GitHubRest`: github.go.
- `Summary`: llm.go.
- `Gemini`: llm/gemini.go.
- `Config`: config.go.
- `Agreement`: how llm.go and llm/gemini.go relate.

## Model

| member | source | states |
|---|---|---|
| Paging.FirstStop | github/github.go:43-72 | The listing loop stops at the first reply that is an error or has `NextPage == 0`, and at no earlier reply |
| Paging.StopsAt | github/github.go:68-71 | A reply that ends the loop and comes no later than the first stop is the first stop; the listing is every page before it plus its items |
| Paging.PageStep | github/github.go:43-72 | Before the first stop each reply exists; an error reply fails the listing with the items so far, and a last page ends it with this page's items appended |
| Paging.RequestNext | github/github.go:68-71 | Asking for page 0 first and then each reply's `NextPage` keeps the request trace; the trace is complete at the first stop |
| Paging.PageItemsFrom | github/github_bak.go:91-116 | Every listed item comes from the item list of some successful page |
| GitHubPackage.ToInfo | github/github.go:52-59 | `RepositoryInfo` keeps the listed repository's name, full name and HTML URL |
| GitHubPackage.RecentInfosMember | github/github_bak.go:97-109 | A listed repository enters the result iff its `UpdatedAt` is set and strictly after `since` |
| GitHubPackage.RecentInfosAppend | github/github_bak.go:97-110 | The update-time filter works page by page and keeps the listing order |
| GitHubPackage.KeepWithCommits | github/github.go:74-88 | The result holds exactly the candidates whose commit check returned `(true, nil)`, each once; a check error only skips that repository |
| GitHubPackage.HasCommitsSince | github/github.go:91-103 | True iff the commit listing is non-empty; a listing error is passed on |
| GitHubClient.FirstSeen | github/github.go:49-66 | The candidate map is keyed by each repository's own full name |
| GitHubClient.FirstSeenKeys | github/github.go:49-66 | A full name is a key iff some listed repository with that name was updated after `since` |
| GitHubClient.FirstSeenKeepsFirst | github/github.go:61-64 | For each full name, the first recent occurrence in listing order is the one kept |
| GitHubClient.CommitCheck | github/github.go:77 | The commit check asks about `username/<Name>` for every candidate |
| GitHubClient.CollectCandidates | github/github.go:43-72 | Page 0 is requested first and then each reply's `NextPage`; any listing error fails the call; otherwise the map is the first-seen map of all listed repositories |
| GitHubClient.InsertFirstSeen | github/github.go:49-66 | One page inserts only full names not yet present |
| GitHubClient.GetRepositoriesWithRecentCommits | github/github.go:31-89 | Fails iff some listing page fails; otherwise returns exactly the first-seen recent repositories that pass the commit check |
| GitHubClientBak.FirstSlash | github/github_bak.go:191-192 | The index found is the first `/` |
| GitHubClientBak.ParseRepoName | github/github_bak.go:188-197 | Without `/` the result is `("", fullName)`; otherwise the input is `owner + "/" + rest` with no `/` in `owner` |
| GitHubClientBak.ParseRepoNameJoin | github/github_bak.go:188-195 | For an owner without `/`, `owner/rest` splits back into `(owner, rest)`, even when `rest` has more slashes |
| GitHubClientBak.CommitExists | github/github_bak.go:319-326 | True iff some collected commit has that SHA |
| GitHubClientBak.MakeInfo | github/github_bak.go:290-303 | `CommitInfo` takes its SHA, message, author name and author date from the listing, and its file names, additions and deletions from the detail reply |
| GitHubClientBak.Merge | github/github_bak.go:276-306 | Collection only appends: the commits collected before are a prefix of the result |
| GitHubClientBak.MergeDistinct | github/github_bak.go:276-306 | Collection never creates a duplicate SHA |
| GitHubClientBak.MergeAppend | github/github_bak.go:262-313 | Collecting page after page, branch after branch, is one collection over the concatenated commits |
| GitHubClientBak.MergeShas | github/github_bak.go:276-306 | An SHA is collected iff it was already present or some listing of it had a successful detail fetch |
| GitHubClientBak.MergeFrom | github/github_bak.go:276-306 | Every collected entry was already present or is built from a listed commit whose detail fetch succeeded |
| GitHubClientBak.MergePage | github/github_bak.go:276-306 | The per-page loop is collection over that page |
| GitHubClientBak.CollectBranch | github/github_bak.go:263-312 | One branch's pages are collected up to the first error or last page; an error ends only that branch |
| GitHubClientBak.GetRepositoryCommits | github/github_bak.go:251-316 | A failed branch listing fails the call; otherwise the result is the collection of all branches in order, has no duplicate SHA, and is empty for zero branches |
| GitHubClientBak.AppendRecent | github/github_bak.go:97-110 | One page appends its recent repositories in order |
| GitHubClientBak.GetUserRepositories | github/github_bak.go:81-119 | Page 0 is requested first and then each `NextPage`; any page error fails the call; otherwise the result is the recent repositories of all pages in order |
| GitHubClientBak.ListOrgRepositories | github/github_bak.go:139-165 | One organisation's pages are appended up to its first error or last page |
| GitHubClientBak.OrgReposAppend | github/github_bak.go:131-166 | The organisations are processed one after another |
| GitHubClientBak.GetOrganizationRepositories | github/github_bak.go:121-169 | A failed organisation listing fails the call; one organisation's error ends only that organisation |
| GitHubClientBak.Keyed | github/github_bak.go:50-61 | The merged map is keyed by each repository's own full name |
| GitHubClientBak.KeyedKeys | github/github_bak.go:50-61 | A full name is a key iff some user or organisation repository has it |
| GitHubClientBak.KeyedLaterWins | github/github_bak.go:59-61 | An organisation entry overwrites a user entry with the same full name |
| GitHubClientBak.KeyedFrom | github/github_bak.go:50-61 | Every value in the merged map is one of the inserted repositories |
| GitHubClientBak.PutAll | github/github_bak.go:50-52 | The insertion loop yields the keyed map of everything inserted so far |
| GitHubClientBak.CommitCheck | github/github_bak.go:171-186 | The commit check asks about the owner and repository parsed from the full name |
| GitHubClientBak.GetRepositoriesWithRecentCommits | github/github_bak.go:41-79 | A failed user listing fails the call and a failed organisation listing is ignored; the result is exactly the merged candidates that pass the commit check |
| GitHubClientBak.SelectRepository | github/github_bak.go:230-235 | A selection is accepted iff `1 <= selection <= len(repos)`, and then it picks `repos[selection-1]` |
| GitHubRest.NameOf | github.go:148 | The extracted name is the part of the choice before the first `" ("`, or the whole choice |
| GitHubRest.LabelRoundTrip | github.go:26-28 | Extracting the name from `Repo.String` gives back the repository name when that name has no `" ("` |
| GitHubRest.UpdatedAfterMember | github.go:113-123 | A repository is kept iff it is stored and updated strictly after the cutoff |
| GitHubRest.UpdatedAfterAppend | github.go:116-121 | The cutoff filter keeps relative order |
| GitHubRest.UpdatedAfterIdempotent | github.go:113-123 | Filtering twice with the same cutoff equals filtering once |
| GitHubRest.ToCommit | github.go:180-195 | The SHA is the first 8 characters; the author is the login when present and otherwise the commit author name; the repository name is the extracted name |
| GitHubRest.ConvertAll | github.go:180-196 | One reply converts commit by commit, in order |
| GitHubRest.ConvertReply | github.go:180-196 | The per-reply loop yields exactly the conversion of that reply's commits |
| GitHubRest.LatestCommitsSnoc | github.go:146-197 | Each further fetch adds its converted commits when it succeeded and nothing when it failed |
| GitHubRest.LatestCommitsFrom | github.go:146-197 | Every emitted commit is the conversion of a commit from a successful reply, tagged with that reply's extracted name |
| GitHubRest.GitHub.constructor | github.go:54-60 | A new object holds the credentials and no repositories |
| GitHubRest.GitHub.LoadReposFromUser | github.go:67-102 | A successful load appends after the existing repositories; a failed one is fatal and changes nothing |
| GitHubRest.GitHub.GetRecentlyUpdatedRepos | github.go:108-124 | A non-positive `daysBack` returns the stored repositories; otherwise returns those updated after `now - daysBack` days |
| GitHubRest.Choices | github.go:127-131 | One label per repository, in order |
| GitHubRest.GitHub.GetReposChoices | github.go:126-132 | One label per stored repository, in order, so the lengths are equal |
| GitHubRest.GitHub.GetRecentlyUpdatedReposChoices | github.go:134-140 | One label per recently updated repository, in order |
| GitHubRest.GitHub.GetLatestCommits | github.go:142-200 | Never reports an error; a failed fetch contributes nothing; the result is the converted commits of every successful reply, in choice order |
| GitHubRest.NewGithub | github.go:45-65 | An empty API key, then an empty username, is fatal before any request; otherwise the new object holds the loaded repositories |
| Types.SingleTurn | llm.go:56-64 | The request has exactly one content with exactly one part, whose text is the prompt |
| Types.FirstCandidateText | llm.go:96-98 | The text exists iff there is a candidate and its content has a part; it is the first part of the first candidate |
| Summary.RepoNamesMember | llm.go:32-35 | A repository gets a group iff some commit names it |
| Summary.GroupMember | llm.go:32-35 | A commit is in a repository's group iff it is one of the input commits and names that repository |
| Summary.GroupAppend | llm.go:32-35 | Grouping a concatenation gives the first part's group followed by the second's, so each group keeps input order |
| Summary.GroupAbsent | llm.go:32-35 | A repository with no commit has an empty group |
| Summary.GroupedIsPermutation | llm.go:32-44 | Rendered in any order that lists each repository once, the groups hold every commit exactly once |
| Summary.ExtractSummary | llm.go:96-100 | The summary is the first candidate's first part, or exactly "Unable to generate summary at this time." |
| Summary.GroupStep | llm.go:32-35 | Appending the next commit to its repository's entry keeps every entry equal to that repository's commits so far |
| Summary.GroupByRepo | llm.go:32-35 | The grouping loop maps each repository to its commits in input order |
| Summary.RenderSection | llm.go:38-43 | The `Repository: <name>` header, then one `- sha: message (by author on date)` line per commit, then a blank line |
| Summary.RenderDigest | llm.go:28-44 | The digest is the header followed by one section per repository, each repository exactly once in some order |
| Summary.GenerateSummary | llm.go:22-101 | No commits gives the fixed message and no request; otherwise one single-part request carries prefix + digest + suffix; a transport, read or decode error is returned; a decoded reply yields its text or the fallback, whatever the status |
| Gemini.NewGemini | llm/gemini.go:43-54 | An empty model becomes "gemini-2.0-flash"; a given model and the key are kept |
| Gemini.ErrorText | llm/gemini.go:82-117 | Every error has a non-empty text, and a wrapped transport, read or decode error keeps its cause at the end of the text |
| Gemini.BadStatusText | llm/gemini.go:93-95 | A status error's text is the fixed prefix, then the status in decimal, which reads back as the status, then `": "` and the reply body |
| Gemini.GenerateContent | llm/gemini.go:57-111 | A transport failure gives a request error and a body-read failure a read error; succeeds iff the reply is 200, decodes, and has a first candidate with a part, and then returns that text; a non-200 status, a decode error, no candidates and no parts each give their own error |
| Gemini.GenerateContentWithEnvKey | llm/gemini.go:114-125 | An empty `GEMINI_API_KEY` fails before any request; otherwise a default-model client with that key makes the call |
| Agreement.SameText | llm/gemini.go:102-110 | On a decoded 200 reply, the summary path returns the client's text, and returns its fallback exactly when the client reports a missing candidate or part |
| Environment.Getenv | config.go:19 | A variable's value when set, else the empty string |
| Strconv.Atoi | config.go:28 | Parsing succeeds iff the text is an optional sign followed by at least one digit and its value fits the 64-bit range, and then yields that value |
| Strconv.AtoiPaddedDigits | config.go:28 | A leading zero or a leading `+` does not change what a run of digits parses to |
| Strconv.AtoiDecimal | config.go:28 | `Atoi` reads back every in-range integer written in decimal |
| Config.PositiveSetting | config.go:27-37 | The setting is positive; it is the parsed value when that is a positive integer, and the default otherwise |
| Config.LoadConfig | config.go:17-40 | The credentials and username are read as set; `DaysBack` (default 7) and `PerPage` (default 10) follow the override rule and are positive |
| Config.SettingReadsDecimal | config.go:27-31 | A positive decimal override is taken as written |
| Config.SettingIgnoresNonPositive | config.go:27-31 | A zero or negative override leaves the default |
| Config.Validate | config.go:42-56 | Passes iff token, Gemini key and username are all non-empty; otherwise reports the first missing one, in that order |

## Left out

- HTTP requests, headers, timeouts, URL building and JSON encoding and decoding are not modelled. Each reply is given already decoded. A failed request creation, transport, read or decode is one `Failure` value.
- The go-github library calls (`ListByUser`, `ListByOrg`, `Organizations.List`, `ListBranches`, `ListCommits`, `GetCommit`) are replaced by their replies as inputs. A paginated listing must contain a reply that ends it, because the Go loop would otherwise never end.
- The requested-page trace (`FollowsNextPage`) is stated for the user listings only. The per-branch and per-organisation loops follow the same rule without the trace.
- The organisation list and the branch list are single, unpaginated requests in the source, and they are modelled as one `Result` each.
- `time.Now` is the parameter `now` or `since`. `AddDate(0, 0, -d)` is `now - d * 86400` seconds, which ignores calendar and daylight-saving effects. Date formatting and `time.Parse` are function parameters. A parse error becomes whatever value the parameter gives, as the zero time does in Go.
- `log.Printf` warnings are not modelled. `log.Fatal` in `NewGithub` and `LoadReposFromUser` is a `Failure` or `Some` result rather than process exit.
- The display in `InteractiveRepositorySelector` (printing and `Scanf`) and `DisplayCommits` are console I/O. Only the selection bounds check is modelled.
- main.go, `.env` loading, `NewClient`, `NewLLMService` and `GitHub.GetRepos` are wiring or accessors with nothing to state.
- github/github_bak.go:46 calls `c.repo`, which does not exist. It is modelled as `getUserRepositories`: the comment at line 45 asks for the user's own repositories, and the organisation listing, which has the same signature, is fetched separately at line 55.
- The request parameters that only shape a query are not modelled, because the replies are inputs. This covers `since`, `PerPage`, the branch SHA, and the owner and repository of `GetRepositoryCommits` and `GetLatestCommits`.
- The deferred `Body.Close` inside the loop at github.go:169 only leaks resources until return.
- GitHubRest.GitHub.GetLatestCommits: requires every returned SHA to have at least 8 characters. `SHA[:8]` panics otherwise, and a panic is not modelled.
- The llm package declares its own copies of the request and response types. They have the same shape as those in types.go and use the same datatypes here.
- The equality between llm.go's fixed endpoint URL and the URL the Gemini client builds with its default model is not stated as a lemma.
- Summary.GenerateSummary: does not model the request-creation error at llm.go:72-74. `http.NewRequest` rejects a URL holding a control character, so an API key containing one fails before any request is sent, yet the model always reports the `Outbound` request. This is dropped together with URL building and JSON encoding.
- Gemini.GenerateContentWithEnvKey: does not model the request-creation error at llm/gemini.go:75-78. A key holding a control character, or a model name with a malformed `%` escape in the URL path, fails before any request is sent, yet the model always reports the request. The marshal errors at llm.go:66-69 and in `GenerateContent` are dropped likewise.
- There is no code for a weekday-dependent cutoff or for a pre-filter of inactive repositories, so neither is modelled.
