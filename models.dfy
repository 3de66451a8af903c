/** The record every agent shares (src/models/RepositoryNode.ts). */
module Models {
  import opened Outcome

  /** The value of a record at one moment. `lastCommitDate` is nullable
      and the two numeric fields are optional (absent until the lint stage
      sets them). */
  datatype RepositoryRecord = RepositoryRecord(
    name: string,
    url: string,
    lastCommitDate: Option<string>,
    lintErrors: Option<int>,
    linesOfCode: Option<int>)

  /** A record as the agents hold it: a JavaScript object that is shared
      between the stages and whose fields the lint stage assigns in place. */
  class RepositoryNode {
    var name: string
    var url: string
    var lastCommitDate: Option<string>
    var lintErrors: Option<int>
    var linesOfCode: Option<int>

    /** The object literal `{ name, url, lastCommitDate }`. */
    constructor (name: string, url: string, lastCommitDate: Option<string>)
      ensures Value() == RepositoryRecord(name, url, lastCommitDate, None, None)
    {
      this.name := name;
      this.url := url;
      this.lastCommitDate := lastCommitDate;
      this.lintErrors := None;
      this.linesOfCode := None;
    }

    function Value(): RepositoryRecord
      reads this
    {
      RepositoryRecord(name, url, lastCommitDate, lintErrors, linesOfCode)
    }
  }

  /** The current values of a sequence of records, in order. */
  function Values(nodes: seq<RepositoryNode>): (rs: seq<RepositoryRecord>)
    reads set n | n in nodes
    ensures |rs| == |nodes|
    ensures forall i :: 0 <= i < |nodes| ==> rs[i] == nodes[i].Value()
  {
    seq(|nodes|, i reads set n | n in nodes requires 0 <= i < |nodes| => nodes[i].Value())
  }

  /** Appending a record object appends its current value. */
  lemma ValuesAppend(nodes: seq<RepositoryNode>, n: RepositoryNode)
    ensures Values(nodes + [n]) == Values(nodes) + [n.Value()]
  {
    assert forall i :: 0 <= i < |nodes| ==> (nodes + [n])[i] == nodes[i];
  }

  /** No object occurs twice in `nodes`. */
  ghost predicate Distinct(nodes: seq<RepositoryNode>)
  {
    forall i, j :: 0 <= i < j < |nodes| ==> nodes[i] != nodes[j]
  }
}
