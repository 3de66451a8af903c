# graphai-repo-monitor: a verified model of the three agents

graphai-repo-monitor is a small pipeline of three agents:

1. `FetchAgent` reads a comma-separated list of GitHub repositories. It looks each one up and keeps a record (`name`, `url`, `lastCommitDate`) for every lookup that succeeds.
2. `LintAgent` lists each repository's root directory through the GitHub contents API. It walks the listing recursively, adds up `split('\n').length` over every file, and stores the total in the record in place, together with a mock lint count.
3. `ImprovementAgent` asks a chat-completion service once per record for a suggestion. It collects the answers into a dictionary keyed by repository name.

This project models those three agents and the record type they share. Each Dafny module follows one source file:

| module | file | source |
|---|---|---|
| `Outcome` | `outcome.dfy` | `Option` and `Result`; an `Err` stands for a thrown exception |
| `Text` | `text.dfy` | JavaScript's `split`, `join`, `slice` and integer-to-string, with their round-trip lemmas |
| `GitHub` | `github.dfy` | the request shape and the token header computed in every agent |
| `Models` | `models.dfy` | `src/models/RepositoryNode.ts`: a value (`RepositoryRecord`) and a mutable object (`RepositoryNode`) |
| `Fetch` | `fetch.dfy` | `src/agents/FetchAgent.ts` |
| `Lint` | `lint.dfy` | `src/agents/LintAgent.ts` |
| `Improvement` | `improvement.dfy` | `src/agents/ImprovementAgent.ts` |

How the outside world is represented:

- **GitHub.** Each agent receives it as a function from a request (URL plus headers) to the response. This is a fixed remote state for the run. The lookup for a repository is `lookup(LookupRequest(repo, token))`.
- **Directory tree.** A fetched tree is a finite value. An `Entry` holds the response to the follow-up request the code makes for it: the file body, or the sub-listing. A `Listing` is a successful listing or a failure.
- **File bodies.** axios JSON-decodes every body that is valid JSON before `split` sees it. `File(Ok(text))` stands for a body that reaches `split` as a string: the raw text, or the decoded string when the body is a JSON string literal. A body that decodes to anything else (an object, array, number, boolean or null, as for `package.json` or a file holding `42`) makes `.split` throw a TypeError at LintAgent.ts:43. Such a file is `File(Err(..))`, and `analyze` zeroes its repository.
- **Chat service.** `replies[i]` is the outcome of the i-th completion call, which either returns content or throws.
- **Environment and URLs.** Environment variables are parameters. `GITHUB_REPOS` is an `Option<string>`, and `GITHUB_API_TOKEN || ''` is a plain string. `new URL(url).pathname` is a parameter function that returns `None` when the constructor throws.
- **Random lint count.** `Math.floor(Math.random() * 10)` is a parameter sequence of values in `0..9`, one per record.

The agents whose source updates state are classes:
- `FetchAgent` holds `repoList`.
- `LintAgent.Analyze` assigns `linesOfCode` and `lintErrors` on the shared `RepositoryNode` objects.
- `CalculateLinesOfCode`, `CollectData` and `GenerateProposals` are loops with invariants.

Each of these methods is proved against a specification function: `ListingLines`, `Collected` and `Proposals` respectively. The properties the source promises are proved about those functions.

Behaviour of the code worth noting:

- **Failure isolation is per repository, not per tree node.** A failed file or sub-directory fetch makes the whole `calculateLinesOfCode` call throw. `analyze` then sets that repository's `linesOfCode` to 0, and its `lintErrors` keeps its old value. Totals already gathered for that repository are lost.
- **An empty file counts one line.** `"".split('\n').length` is 1, so every file adds newlines + 1.
- **A completion error is not caught.** The first call that throws aborts `generateProposals`, and no dictionary is returned. The result is therefore not total over the records.
- **Duplicate names collapse.** With duplicate repository names, the later record's suggestion overwrites the earlier one.
- **A record named `__proto__` leaves no entry.** `proposals[name] = suggestion` on the object literal `{}` calls the inherited `__proto__` setter for that name. The setter ignores a string, so the returned object gets no own property for it (`Store`).
- **No depth or cycle guard.** The code has none. The model's trees are finite values, so the recursion always terminates.

## Model

| member | source | states |
|---|---|---|
| Models.RepositoryNode.constructor | src/models/RepositoryNode.ts:1-7 | a new record holds the given name, url and nullable lastCommitDate, and neither numeric field is set |
| GitHub.AuthHeaders | src/agents/LintAgent.ts:28-29 | the Authorization header is present exactly when the token is non-empty, it is the only header, and its value is `token <token>` (the same code is at FetchAgent.ts:19-20 and LintAgent.ts:36-37) |
| Text.SplitLength | src/agents/FetchAgent.ts:15 | a one-character split has exactly one more piece than there are separators |
| Text.SplitPiecesFree | src/agents/FetchAgent.ts:15 | no piece of a split contains the separator |
| Text.JoinSplit | src/agents/FetchAgent.ts:15 | joining the pieces of a split with the same separator restores the string |
| Text.SplitJoin | src/agents/FetchAgent.ts:15 | splitting the join of separator-free pieces gives those pieces back, so the split is the only list with that join |
| Text.ParseIntToString | src/agents/ImprovementAgent.ts:32-33 | the decimal text of an integer reads back as that integer, so distinct numbers are shown as distinct texts |
| Fetch.RepoList | src/agents/FetchAgent.ts:11-15 | an absent or empty variable is the configuration error with its exact message; otherwise the list has commas + 1 entries, no entry contains a comma, and joining with ',' restores the variable (no trimming, empty entries kept) |
| Fetch.FetchAgent.Create | src/agents/FetchAgent.ts:10-16 | the constructor fails exactly on an absent or empty variable, with the same message, and otherwise stores the comma split |
| Fetch.LookupRequestInjective | src/agents/FetchAgent.ts:19-25 | each identifier is looked up at its own address `https://api.github.com/repos/<repo>`: two identifiers share a lookup request (URL and token headers) only when they are equal |
| Fetch.SurvivorsAreSuccesses | src/agents/FetchAgent.ts:23-39 | the surviving positions are strictly increasing, in range, and are exactly the positions whose lookup succeeded |
| Fetch.CollectedIsOrderedSelection | src/agents/FetchAgent.ts:22-41 | the output has one record per successful lookup, in input order; the k-th record copies name, html_url and pushed_at of the k-th successful response verbatim and has neither numeric field set; it is never longer than the input |
| Fetch.CollectedAppend | src/agents/FetchAgent.ts:23-39 | collection distributes over concatenation of the input, so a failure leaves no trace and never disturbs later records |
| Fetch.FetchAgent.CollectData | src/agents/FetchAgent.ts:18-41 | the loop returns fresh and distinct record objects whose values are exactly the ordered selection of successful lookups; it never fails |
| Lint.FileLines | src/agents/LintAgent.ts:40-44 | a file adds exactly its number of newlines + 1 |
| Lint.EntryLinesCharacterised | src/agents/LintAgent.ts:39-48 | one entry's count succeeds exactly when every fetch below it succeeds, and then equals the newlines + 1 of each file below it, summed; entries that are neither file nor dir add 0 |
| Lint.ListingLinesCharacterised | src/agents/LintAgent.ts:34-52 | a listing's count succeeds exactly when every fetch in the tree succeeds, and then equals the newlines + 1 of every file in the tree, summed (an empty listing gives 0) |
| Lint.FilesCountAtLeastOne | src/agents/LintAgent.ts:43 | in a fully fetched tree the total is at least the number of files, the empty ones included |
| Lint.ListingLinesAppend | src/agents/LintAgent.ts:39-49 | counting a concatenation of listings adds the two counts, and the first failure wins |
| Lint.ListingLinesPermutation | src/agents/LintAgent.ts:39-49 | reordering sibling entries changes neither whether the count succeeds nor the total |
| Lint.RepoPathOwnerRepo | src/agents/LintAgent.ts:27 | the path `/owner/repo`, followed by nothing or by `/...`, yields `owner/repo` |
| Lint.ContentsRequestForRepository | src/agents/LintAgent.ts:27-30 | for a URL path `/owner/repo...` the root listing is requested from `https://api.github.com/repos/owner/repo/contents` with the token headers |
| Lint.RepositoryLinesCharacterised | src/agents/LintAgent.ts:13-15 | a repository is counted exactly when its URL parses, its root listing is returned and every fetch below it succeeds, and the count is then the tree's summed newlines + 1 |
| Lint.Analyzed | src/agents/LintAgent.ts:13-21 | after success linesOfCode is the total and lintErrors is the draw, set together; after any failure linesOfCode is 0 and lintErrors is unchanged; name, url and lastCommitDate never change and linesOfCode is always set |
| Lint.LintAgent.CalculateLinesOfCode | src/agents/LintAgent.ts:34-52 | the running-total loop with its recursive call computes exactly the listing's count, including the first failure met |
| Lint.LintAgent.Analyze | src/agents/LintAgent.ts:11-24 | every record in the array, in order, ends up as its old value analysed with its own repository's outcome and its own draw; one record's failure does not affect the others, and the same array is returned |
| Improvement.Shown | src/agents/ImprovementAgent.ts:32-33 | a numeric field is shown as 0 exactly when it is unset or 0, and otherwise as its value |
| Improvement.PromptShowsUnsetAsZero | src/agents/ImprovementAgent.ts:30-34 | the prompt is the same for an unset and a zero field, and does not depend on lastCommitDate |
| Improvement.SuggestionCases | src/agents/ImprovementAgent.ts:39 | non-empty content is kept verbatim; missing or empty content becomes exactly `No suggestions available.`; no suggestion is empty |
| Improvement.FirstFailure | src/agents/ImprovementAgent.ts:20-37 | the position of the first call that throws: every earlier call returned, and that one threw |
| Improvement.ProposalsOutcome | src/agents/ImprovementAgent.ts:20-42 | the call succeeds exactly when no completion throws, and otherwise fails with the first thrown error |
| Improvement.ProposalsAbort | src/agents/ImprovementAgent.ts:21-37 | when every earlier call returned, the first one that throws decides the whole result |
| Improvement.ProposalsResume | src/agents/ImprovementAgent.ts:18-43 | the front-to-back loop, resumed after any successful prefix with the dictionary that prefix built, reaches the same outcome as the whole call |
| Improvement.ProposalsKeys | src/agents/ImprovementAgent.ts:18-40 | on success the dictionary's keys are exactly the record names, without `__proto__`, which the object literal's inherited setter swallows |
| Improvement.ProposalsLastWins | src/agents/ImprovementAgent.ts:18-40 | on success a name other than `__proto__` maps to the suggestion for the last record carrying it; `__proto__` has no entry |
| Improvement.ProposalsSizeDistinct | src/agents/ImprovementAgent.ts:18-40 | with distinct names there is exactly one entry per record, one fewer when a record is named `__proto__` |
| Improvement.ImprovementAgent.GenerateProposals | src/agents/ImprovementAgent.ts:17-44 | the loop returns exactly the specified outcome (a record named `__proto__` stores nothing) and modifies nothing; the requests sent are one per record in order, each about that record; they stop right after the first call that throws, and every earlier call returned |

## Left out

- HTTP through axios, and the OpenAI client with its configuration and API key (ImprovementAgent.ts:8-15). These are foreign calls. They are replaced by the request-to-response functions and the reply sequence described above.
- `dotenv` and `process.env`. The variables are parameters of the members that read them.
- `new URL(...)` parsing. It is the `pathnameOf` parameter, and `RepoPath` starts from the path string.
- `Math.random()`. The lint value is an arbitrary parameter in `0..9`.
- Console logging in every file. It has no effect on results.
- Concurrency and `async`. Every loop awaits one call at a time, so the model is sequential.
- src/workflows/MainWorkflow.ts, src/utils/GitHubAPI.ts and setup.js are not part of this model. They only sequence the agents, wrap axios, or write scaffolding files.
- Lint.LintAgent.Analyze: requires the record objects to be distinct. This is what `CollectData` produces. With aliased objects the source would update the same object twice, and that case is not modelled.
- Improvement.ImprovementAgent.GenerateProposals: a request is represented by the record it is about. The model, system message and user message are the `Model`, `SystemMessage` and `UserMessage` functions of it, so the contract does not spell out the prompt text.
- Improvement.Shown: it shows an unset field as 0, which is what `|| 0` does for `undefined`. A stored `NaN` also shows as 0 in the source; the model's integers have no `NaN`.
- Response bodies are taken as already decoded. A file body is either a string reaching `split` or a failure, as described above. Missing `choices[0]`, and entries without a `download_url` or `url`, are not modelled.
- Text.ParseIntToString: the decimal rendering covers integers only. Number formatting of large or fractional values (exponent notation) is left out, because line counts are integers.
