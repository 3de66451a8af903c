/** The metadata stage (src/agents/FetchAgent.ts): read the configured list
    of repositories and turn every lookup that succeeds into a record. */
module Fetch {
  import opened Outcome
  import opened Text
  import opened GitHub
  import opened Models

  /** The fields of a repository lookup response that the stage reads. */
  datatype Metadata = Metadata(name: string, html_url: string, pushed_at: Option<string>)

  const MissingRepos := "GITHUB_REPOS environment variable is not defined."

  /** The constructor's reading of `GITHUB_REPOS` (absent is `None`): an
      absent or empty variable is a configuration error, anything else is
      split on commas with no trimming and empty pieces kept. */
  function RepoList(env: Option<string>): (r: Result<seq<string>>)
    ensures r.Err? <==> env == None || env == Some("")
    ensures r.Err? ==> r.error == MissingRepos
    ensures r.Ok? ==> |r.value| == Count(env.value, ',') + 1
    ensures r.Ok? ==> Join(r.value, ',') == env.value
    ensures r.Ok? ==> forall repo :: repo in r.value ==> ',' !in repo
  {
    if env.None? || env.value == "" then Err(MissingRepos)
    else
      SplitLength(env.value, ',');
      JoinSplit(env.value, ',');
      SplitPiecesFree(env.value, ',');
      Ok(Split(env.value, ','))
  }

  /** The lookup request for one configured repository. */
  function LookupRequest(repo: string, token: string): Request
  {
    Get(ApiRepos + repo, AuthHeaders(token))
  }

  /** Each identifier is looked up at its own address: two identifiers
      share a lookup request only when they are the same. */
  lemma LookupRequestInjective(repo: string, other: string, token: string)
    ensures LookupRequest(other, token) == LookupRequest(repo, token) ==> other == repo
  {
    var n := |ApiRepos|;
    assert (ApiRepos + repo)[n..] == repo;
    assert (ApiRepos + other)[n..] == other;
  }

  /** The record pushed for a successful lookup. */
  function RecordOf(m: Metadata): RepositoryRecord
  {
    RepositoryRecord(m.name, m.html_url, m.pushed_at, None, None)
  }

  /** What `collectData` returns for the lookup results it meets, in order:
      a record per success, nothing for a failure. */
  function Collected(responses: seq<Result<Metadata>>): seq<RepositoryRecord>
  {
    if responses == [] then []
    else
      var init := Collected(responses[..|responses| - 1]);
      match responses[|responses| - 1]
      case Ok(m) => init + [RecordOf(m)]
      case Err(_) => init
  }

  /** The positions of the successful lookups, in increasing order. */
  function Survivors(responses: seq<Result<Metadata>>): seq<nat>
  {
    if responses == [] then []
    else
      var init := Survivors(responses[..|responses| - 1]);
      if responses[|responses| - 1].Ok? then init + [|responses| - 1] else init
  }

  /** The lookup results for a repository list against a fixed remote
      state, in list order. */
  function Responses(repos: seq<string>, lookup: Request -> Result<Metadata>, token: string): (rs: seq<Result<Metadata>>)
    ensures |rs| == |repos|
    ensures forall i :: 0 <= i < |repos| ==> rs[i] == lookup(LookupRequest(repos[i], token))
  {
    seq(|repos|, i requires 0 <= i < |repos| => lookup(LookupRequest(repos[i], token)))
  }

  lemma {:induction false} SurvivorsAreSuccesses(responses: seq<Result<Metadata>>)
    ensures |Survivors(responses)| <= |responses|
    ensures forall k :: 0 <= k < |Survivors(responses)| ==> Survivors(responses)[k] < |responses|
    ensures forall k, l :: 0 <= k < l < |Survivors(responses)| ==> Survivors(responses)[k] < Survivors(responses)[l]
    ensures forall i :: 0 <= i < |responses| ==> (i in Survivors(responses) <==> responses[i].Ok?)
  {
    if responses != [] {
      var init := responses[..|responses| - 1];
      SurvivorsAreSuccesses(init);
      assert forall i :: 0 <= i < |init| ==> init[i] == responses[i];
    }
  }

  /** `collectData` keeps exactly the successful lookups, in input order:
      its k-th record copies name, `html_url` and `pushed_at` of the k-th
      surviving response verbatim and has neither numeric field set, and a
      failed lookup leaves no trace. */
  lemma {:induction false} CollectedIsOrderedSelection(responses: seq<Result<Metadata>>)
    ensures |Collected(responses)| == |Survivors(responses)| <= |responses|
    ensures forall k :: 0 <= k < |Collected(responses)| ==>
      Survivors(responses)[k] < |responses| &&
      responses[Survivors(responses)[k]].Ok? &&
      var m := responses[Survivors(responses)[k]].value;
      Collected(responses)[k].name == m.name &&
      Collected(responses)[k].url == m.html_url &&
      Collected(responses)[k].lastCommitDate == m.pushed_at &&
      Collected(responses)[k].lintErrors.None? && Collected(responses)[k].linesOfCode.None?
  {
    SurvivorsAreSuccesses(responses);
    if responses != [] {
      var init := responses[..|responses| - 1];
      CollectedIsOrderedSelection(init);
      assert forall i :: 0 <= i < |init| ==> init[i] == responses[i];
    }
  }

  /** Collection distributes over concatenation of the input, so the
      records of an earlier identifier always come before those of a later
      one. */
  lemma {:induction false} CollectedAppend(a: seq<Result<Metadata>>, b: seq<Result<Metadata>>)
    ensures Collected(a + b) == Collected(a) + Collected(b)
  {
    if b != [] {
      var b' := b[..|b| - 1];
      CollectedAppend(a, b');
      assert (a + b)[..|a + b| - 1] == a + b';
      assert (a + b)[|a + b| - 1] == b[|b| - 1];
    } else {
      assert a + b == a;
    }
  }

  /** One more lookup result on the prefix adds its record, if any. */
  lemma CollectedStep(responses: seq<Result<Metadata>>, i: nat)
    requires i < |responses|
    ensures responses[i].Ok? ==> Collected(responses[..i + 1]) == Collected(responses[..i]) + [RecordOf(responses[i].value)]
    ensures responses[i].Err? ==> Collected(responses[..i + 1]) == Collected(responses[..i])
  {
    assert responses[..i + 1][..i] == responses[..i];
  }

  class FetchAgent {
    const repoList: seq<string>

    constructor (repoList: seq<string>)
      ensures this.repoList == repoList
    {
      this.repoList := repoList;
    }

    /** `new FetchAgent()`: throws on a missing or empty `GITHUB_REPOS`. */
    static method Create(env: Option<string>) returns (r: Result<FetchAgent>)
      ensures r.Err? <==> env == None || env == Some("")
      ensures r.Err? ==> r.error == MissingRepos
      ensures r.Ok? ==> fresh(r.value) && r.value.repoList == RepoList(env).value
    {
      var list := RepoList(env);
      if list.Err? {
        return Err(list.error);
      }
      var agent := new FetchAgent(list.value);
      return Ok(agent);
    }

    /** `collectData`: one lookup per configured repository, in order; a
        failed lookup is logged and skipped, so the method never throws. */
    method CollectData(lookup: Request -> Result<Metadata>, token: string) returns (nodes: seq<RepositoryNode>)
      ensures Values(nodes) == Collected(Responses(repoList, lookup, token))
      ensures forall n :: n in nodes ==> fresh(n)
      ensures Distinct(nodes)
    {
      ghost var responses := Responses(repoList, lookup, token);
      nodes := [];
      for i := 0 to |repoList|
        invariant Values(nodes) == Collected(responses[..i])
        invariant forall n :: n in nodes ==> fresh(n)
        invariant Distinct(nodes)
      {
        var response := lookup(LookupRequest(repoList[i], token));
        CollectedStep(responses, i);
        match response {
          case Ok(data) =>
            var node := new RepositoryNode(data.name, data.html_url, data.pushed_at);
            ValuesAppend(nodes, node);
            nodes := nodes + [node];
          case Err(_) =>
        }
      }
      assert responses[..|repoList|] == responses;
    }
  }
}
