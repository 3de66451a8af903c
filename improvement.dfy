/** The suggestion stage (src/agents/ImprovementAgent.ts): one chat
    completion per record, collected into a dictionary keyed by record
    name. */
module Improvement {
  import opened Outcome
  import opened Text
  import opened Models

  const ModelName := "gpt-4"
  const SystemInstruction := "You are a helpful AI assistant that reviews code repositories and suggests improvements."
  const Fallback := "No suggestions available."

  /** The chat request sent for one record. Only the record varies from
      one request to the next: the model, the system message and the user
      message are the three functions of it below. */
  datatype ChatRequest = ChatRequest(subject: RepositoryRecord)
  {
    function Model(): string
    {
      ModelName
    }

    function SystemMessage(): string
    {
      SystemInstruction
    }

    function UserMessage(): string
    {
      Prompt(subject)
    }
  }

  /** What one `createChatCompletion` call does: it returns, holding the
      first choice's message content (`None` when the message or its
      content is missing), or it throws. */
  datatype Completion = Completed(content: Option<string>) | Failed(error: string)

  /** A numeric field as `${field || 0}` shows it. */
  function Shown(field: Option<int>): (v: int)
    ensures v == 0 <==> field == None || field == Some(0)
    ensures field.Some? ==> v == field.value
  {
    if field.None? then 0 else field.value
  }

  const Indent := "              "

  /** The user message of the template literal, with its newlines and the
      indentation of its source lines. */
  function Prompt(r: RepositoryRecord): string
  {
    "Analyze the following repository information and suggest improvements:\n\n\n"
    + Indent + "Repository: " + r.name + "\n\n"
    + Indent + "Lint Errors: " + IntToString(Shown(r.lintErrors)) + "\n\n"
    + Indent + "Lines of Code: " + IntToString(Shown(r.linesOfCode)) + "\n\n"
    + Indent + "URL: " + r.url + "\n"
  }

  /** An unset numeric field is shown exactly as a zero one, and the prompt
      depends on nothing but the name, the URL and the two numbers shown. */
  lemma PromptShowsUnsetAsZero(r: RepositoryRecord)
    ensures Prompt(r.(lintErrors := None)) == Prompt(r.(lintErrors := Some(0)))
    ensures Prompt(r.(linesOfCode := None)) == Prompt(r.(linesOfCode := Some(0)))
    ensures Prompt(r) == Prompt(r.(lastCommitDate := None))
  {
  }

  /** `message?.content || 'No suggestions available.'`. */
  function Suggestion(content: Option<string>): string
  {
    if content.Some? && content.value != "" then content.value else Fallback
  }

  /** A non-empty content is kept verbatim; a missing or empty one becomes
      the fallback text, so no suggestion is ever empty. */
  lemma SuggestionCases(content: Option<string>)
    ensures content.Some? && content.value != "" ==> Suggestion(content) == content.value
    ensures content.None? || content.value == "" ==> Suggestion(content) == Fallback
    ensures Suggestion(content) != ""
  {
  }

  /** The one name an assignment `proposals[name] = ...` on a plain object
      literal does not store: it calls the inherited `__proto__` setter,
      which ignores a string, so the object gets no own property. */
  const ProtoKey := "__proto__"

  /** `proposals[name] = suggestion` on a plain object. */
  function Store(m: map<string, string>, name: string, suggestion: string): map<string, string>
  {
    if name == ProtoKey then m else m[name := suggestion]
  }

  /** The position of the first completion that throws, or the length when
      none does. */
  function FirstFailure(cs: seq<Completion>): (k: nat)
    ensures k <= |cs|
    ensures forall j :: 0 <= j < k ==> cs[j].Completed?
    ensures k < |cs| ==> cs[k].Failed?
  {
    if cs == [] then 0
    else if cs[0].Failed? then 0
    else 1 + FirstFailure(cs[1..])
  }

  /** What `generateProposals` returns when the i-th call has outcome
      `cs[i]`: the dictionary filled in record order, or the first thrown
      error, which nothing catches. */
  function Proposals(rs: seq<RepositoryRecord>, cs: seq<Completion>): Result<map<string, string>>
    requires |cs| == |rs|
  {
    if rs == [] then Ok(map[])
    else
      var n := |rs| - 1;
      match Proposals(rs[..n], cs[..n])
      case Err(e) => Err(e)
      case Ok(m) =>
        match cs[n]
        case Failed(e) => Err(e)
        case Completed(c) => Ok(Store(m, rs[n].name, Suggestion(c)))
  }

  /** The whole call fails exactly when some completion throws, and then
      with the first such error. */
  lemma {:induction false} ProposalsOutcome(rs: seq<RepositoryRecord>, cs: seq<Completion>)
    requires |cs| == |rs|
    ensures Proposals(rs, cs).Ok? <==> FirstFailure(cs) == |cs|
    ensures Proposals(rs, cs).Err? ==> Proposals(rs, cs).error == cs[FirstFailure(cs)].error
  {
    if rs != [] {
      var n := |rs| - 1;
      ProposalsOutcome(rs[..n], cs[..n]);
      var k, k' := FirstFailure(cs), FirstFailure(cs[..n]);
      assert forall j :: 0 <= j < n ==> cs[..n][j] == cs[j];
      if k < n {
        assert k' == k;
      } else {
        assert k' == n;
      }
    }
  }

  /** Extending the record list by one completed call adds (or
      overwrites) that record's entry. */
  lemma ProposalsStep(rs: seq<RepositoryRecord>, cs: seq<Completion>, i: nat, m: map<string, string>)
    requires |cs| == |rs| && i < |rs|
    requires Proposals(rs[..i], cs[..i]) == Ok(m)
    requires cs[i].Completed?
    ensures Proposals(rs[..i + 1], cs[..i + 1]) == Ok(Store(m, rs[i].name, Suggestion(cs[i].content)))
  {
    assert rs[..i + 1][..i] == rs[..i] && cs[..i + 1][..i] == cs[..i];
  }

  /** The same outcome read front to back, as the loop computes it: the
      calls from position `i` on, starting from the dictionary `m`. */
  function ProposalsFrom(rs: seq<RepositoryRecord>, cs: seq<Completion>, i: nat, m: map<string, string>): Result<map<string, string>>
    requires |cs| == |rs| && i <= |rs|
    decreases |rs| - i
  {
    if i == |rs| then Ok(m)
    else
      match cs[i]
      case Failed(e) => Err(e)
      case Completed(c) => ProposalsFrom(rs, cs, i + 1, Store(m, rs[i].name, Suggestion(c)))
  }

  /** Resuming after the first `i` calls with the dictionary they built
      gives the outcome of the whole call. */
  lemma {:induction false} ProposalsResume(rs: seq<RepositoryRecord>, cs: seq<Completion>, i: nat, m: map<string, string>)
    requires |cs| == |rs| && i <= |rs|
    requires Proposals(rs[..i], cs[..i]) == Ok(m)
    ensures ProposalsFrom(rs, cs, i, m) == Proposals(rs, cs)
    decreases |rs| - i
  {
    if i == |rs| {
      assert rs[..i] == rs && cs[..i] == cs;
    } else {
      match cs[i]
      case Failed(e) =>
        ProposalsOutcome(rs[..i], cs[..i]);
        assert forall k :: 0 <= k < i ==> cs[..i][k] == cs[k];
        ProposalsAbort(rs, cs, i);
      case Completed(c) =>
        ProposalsStep(rs, cs, i, m);
        ProposalsResume(rs, cs, i + 1, Store(m, rs[i].name, Suggestion(c)));
    }
  }

  /** The first call that throws aborts the whole call with its error. */
  lemma ProposalsAbort(rs: seq<RepositoryRecord>, cs: seq<Completion>, i: nat)
    requires |cs| == |rs| && i < |cs|
    requires forall k :: 0 <= k < i ==> cs[k].Completed?
    requires cs[i].Failed?
    ensures Proposals(rs, cs) == Err(cs[i].error)
  {
    ProposalsOutcome(rs, cs);
    assert FirstFailure(cs) == i;
  }

  /** The keys after one more assignment. */
  lemma StoreKeys(m: map<string, string>, name: string, suggestion: string, names: set<string>)
    requires m.Keys == names - {ProtoKey}
    ensures Store(m, name, suggestion).Keys == (names + {name}) - {ProtoKey}
  {
  }

  /** One more assignment of a name not yet stored adds one entry, except
      for `__proto__`. */
  lemma StoreSize(m: map<string, string>, name: string, suggestion: string)
    requires name != ProtoKey ==> name !in m
    ensures |Store(m, name, suggestion)| == if name == ProtoKey then |m| else |m| + 1
  {
  }

  /** On success the keys are exactly the record names, except that a
      record named `__proto__` leaves no entry. */
  lemma {:induction false} ProposalsKeys(rs: seq<RepositoryRecord>, cs: seq<Completion>)
    requires |cs| == |rs|
    requires Proposals(rs, cs).Ok?
    ensures Proposals(rs, cs).value.Keys == (set r | r in rs :: r.name) - {ProtoKey}
  {
    if rs != [] {
      var n := |rs| - 1;
      var init, last := rs[..n], rs[n];
      var m := Proposals(init, cs[..n]).value;
      var names := set r | r in init :: r.name;
      assert m.Keys == names - {ProtoKey} by {
        ProposalsKeys(init, cs[..n]);
      }
      assert Proposals(rs, cs).value == Store(m, last.name, Suggestion(cs[n].content));
      StoreKeys(m, last.name, Suggestion(cs[n].content), names);
      assert rs == init + [last];
      assert (set r | r in rs :: r.name) == names + {last.name};
    }
  }

  /** On success each name other than `__proto__` maps to the suggestion
      made for the LAST record carrying it; with duplicate names a later
      record overwrites an earlier one. `__proto__` never gets an entry. */
  lemma {:induction false} ProposalsLastWins(rs: seq<RepositoryRecord>, cs: seq<Completion>, i: nat)
    requires |cs| == |rs|
    requires Proposals(rs, cs).Ok?
    requires i < |rs|
    requires forall j :: i < j < |rs| ==> rs[j].name != rs[i].name
    ensures cs[i].Completed?
    ensures rs[i].name == ProtoKey ==> rs[i].name !in Proposals(rs, cs).value
    ensures rs[i].name != ProtoKey ==>
      rs[i].name in Proposals(rs, cs).value && Proposals(rs, cs).value[rs[i].name] == Suggestion(cs[i].content)
  {
    var n := |rs| - 1;
    if i < n {
      assert rs[..n][i] == rs[i] && cs[..n][i] == cs[i];
      assert forall j :: i < j < n ==> rs[..n][j] == rs[j];
      ProposalsLastWins(rs[..n], cs[..n], i);
    }
    if rs[i].name == ProtoKey {
      ProposalsKeys(rs, cs);
    }
  }

  /** Some record is named `__proto__`. */
  predicate HasProtoName(rs: seq<RepositoryRecord>)
  {
    exists r :: r in rs && r.name == ProtoKey
  }

  lemma HasProtoNameSnoc(init: seq<RepositoryRecord>, last: RepositoryRecord)
    ensures HasProtoName(init + [last]) <==> HasProtoName(init) || last.name == ProtoKey
  {
    var rs := init + [last];
    assert last in rs;
    if HasProtoName(init) {
      var r :| r in init && r.name == ProtoKey;
      assert r in rs;
    }
    if HasProtoName(rs) {
      var r :| r in rs && r.name == ProtoKey;
      assert r in init || r == last;
    }
  }

  /** With distinct names there is one entry per record, but none for a
      record named `__proto__`. */
  lemma {:induction false} ProposalsSizeDistinct(rs: seq<RepositoryRecord>, cs: seq<Completion>)
    requires |cs| == |rs|
    requires Proposals(rs, cs).Ok?
    requires forall i, j :: 0 <= i < j < |rs| ==> rs[i].name != rs[j].name
    ensures |Proposals(rs, cs).value| == if HasProtoName(rs) then |rs| - 1 else |rs|
  {
    if rs != [] {
      var n := |rs| - 1;
      var init, last := rs[..n], rs[n];
      var m := Proposals(init, cs[..n]).value;
      assert forall r :: r in init ==> r.name != last.name;
      assert |m| == if HasProtoName(init) then n - 1 else n by {
        ProposalsSizeDistinct(init, cs[..n]);
      }
      assert last.name != ProtoKey ==> last.name !in m by {
        ProposalsKeys(init, cs[..n]);
      }
      assert last.name == ProtoKey ==> !HasProtoName(init);
      assert Proposals(rs, cs).value == Store(m, last.name, Suggestion(cs[n].content));
      StoreSize(m, last.name, Suggestion(cs[n].content));
      assert rs == init + [last];
      HasProtoNameSnoc(init, last);
    }
  }

  class ImprovementAgent {
    const nodes: seq<RepositoryNode>

    constructor (nodes: seq<RepositoryNode>)
      ensures this.nodes == nodes
    {
      this.nodes := nodes;
    }

    /** `generateProposals()`: the records are only read, in array order;
        `replies[i]` is the outcome of the i-th completion call. Besides
        the result it returns the requests sent, which stop right after
        the first call that throws. */
    method GenerateProposals(replies: seq<Completion>)
      returns (proposals: Result<map<string, string>>, requests: seq<ChatRequest>)
      requires |replies| == |nodes|
      ensures proposals == Proposals(Values(nodes), replies)
      ensures proposals.Ok? ==> |requests| == |nodes|
      ensures proposals.Err? ==> 1 <= |requests| <= |nodes| && replies[|requests| - 1].Failed?
      ensures forall k :: 0 <= k < |requests| - 1 ==> replies[k].Completed?
      ensures forall k :: 0 <= k < |requests| ==> requests[k] == ChatRequest(nodes[k].Value())
    {
      ghost var rs := Values(nodes);
      var dictionary: map<string, string> := map[];
      requests := [];
      ProposalsResume(rs, replies, 0, dictionary);
      for i := 0 to |nodes|
        invariant ProposalsFrom(rs, replies, i, dictionary) == Proposals(rs, replies)
        invariant forall k :: 0 <= k < i ==> replies[k].Completed?
        invariant |requests| == i
        invariant forall k :: 0 <= k < i ==> requests[k] == ChatRequest(nodes[k].Value())
      {
        var node := nodes[i];
        requests := requests + [ChatRequest(node.Value())];
        match replies[i] {
          case Failed(e) =>
            return Err(e), requests;
          case Completed(content) =>
            dictionary := Store(dictionary, node.name, Suggestion(content));
        }
      }
      proposals := Ok(dictionary);
    }
  }
}
