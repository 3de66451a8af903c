/** The line-count stage (src/agents/LintAgent.ts): for every record, list
    the repository's root directory, walk the listing recursively, add up
    the lines of every file, and store the total in the record. */
module Lint {
  import opened Outcome
  import opened Text
  import opened GitHub
  import opened Models

  /** One entry of a directory listing, holding the response the API gave
      to the follow-up request for it (both requested with
      `AuthHeaders(token)`): for a file, what its `download_url` yields, or
      the sub-listing from its `url`. `File(Ok(text))` stands for a body
      that reaches `split` as a string. The HTTP client first decodes any
      body that is valid JSON: a decoded string is that `text`, while a
      body that decodes to an object, array, number, boolean or null
      (`package.json`, a file holding `42`) makes `split` throw, so such a
      file is `File(Err(..))` and zeroes its repository. `Other` is any
      entry whose `type` is neither "file" nor "dir"; the stage fetches
      nothing for it. */
  datatype Entry =
    | File(download: Result<string>)
    | Dir(listing: Listing)
    | Other(kind: string)

  /** The response to a directory-listing request. */
  datatype Listing = Listed(entries: seq<Entry>) | Unavailable(reason: string)

  const InvalidUrl := "Invalid URL"

  /** `content.split('\n').length`: one more than the newlines, so every
      file, the empty one included, counts at least one line. */
  function FileLines(text: string): (n: nat)
    ensures n == Count(text, '\n') + 1
  {
    SplitLength(text, '\n');
    |Split(text, '\n')|
  }

  /** Adding a later contribution to a running total; the first failure
      met wins. */
  function Combine(a: Result<nat>, b: Result<nat>): Result<nat>
  {
    match a
    case Err(m) => Err(m)
    case Ok(x) =>
      match b
      case Err(m) => Err(m)
      case Ok(y) => Ok(x + y)
  }

  /** What one entry adds to the total, or the failure that aborts the
      count. */
  function EntryLines(e: Entry): Result<nat>
    decreases e
  {
    match e
    case File(Ok(text)) => Ok(FileLines(text))
    case File(Err(m)) => Err(m)
    case Dir(Listed(sub)) => ListingLines(sub)
    case Dir(Unavailable(m)) => Err(m)
    case Other(_) => Ok(0)
  }

  /** What `calculateLinesOfCode` yields for a listing: the total from 0
      over the entries in order, or the first failure met. */
  function ListingLines(es: seq<Entry>): Result<nat>
    decreases es
  {
    if es == [] then Ok(0) else Combine(EntryLines(es[0]), ListingLines(es[1..]))
  }

  // An independent description of the same count: the flat list of file
  // texts in the tree, and whether every fetch in the tree succeeded.

  predicate EntryFetched(e: Entry)
    decreases e
  {
    match e
    case File(download) => download.Ok?
    case Dir(Listed(sub)) => ListingFetched(sub)
    case Dir(Unavailable(_)) => false
    case Other(_) => true
  }

  predicate ListingFetched(es: seq<Entry>)
    decreases es
  {
    es == [] || (EntryFetched(es[0]) && ListingFetched(es[1..]))
  }

  function EntryTexts(e: Entry): seq<string>
    decreases e
  {
    match e
    case File(Ok(text)) => [text]
    case Dir(Listed(sub)) => ListingTexts(sub)
    case _ => []
  }

  function ListingTexts(es: seq<Entry>): seq<string>
    decreases es
  {
    if es == [] then [] else EntryTexts(es[0]) + ListingTexts(es[1..])
  }

  /** Newlines plus one, summed over a list of texts. */
  function TextLines(texts: seq<string>): nat
  {
    if texts == [] then 0 else Count(texts[0], '\n') + 1 + TextLines(texts[1..])
  }

  lemma {:induction false} TextLinesAppend(a: seq<string>, b: seq<string>)
    ensures TextLines(a + b) == TextLines(a) + TextLines(b)
  {
    if a == [] {
      assert a + b == b;
    } else {
      TextLinesAppend(a[1..], b);
      assert (a + b)[1..] == a[1..] + b;
    }
  }

  lemma {:induction false} TextLinesAtLeastCount(texts: seq<string>)
    ensures TextLines(texts) >= |texts|
  {
    if texts != [] {
      TextLinesAtLeastCount(texts[1..]);
    }
  }

  /** The count succeeds exactly when every fetch in the tree succeeded, and
      then it is the newlines-plus-one of every file in the tree, summed. */
  lemma {:induction false} EntryLinesCharacterised(e: Entry)
    ensures EntryLines(e).Ok? <==> EntryFetched(e)
    ensures EntryLines(e).Ok? ==> EntryLines(e).value == TextLines(EntryTexts(e))
    decreases e
  {
    match e
    case File(Ok(text)) =>
      assert TextLines([text]) == Count(text, '\n') + 1 + TextLines([]);
    case File(Err(_)) =>
    case Dir(Listed(sub)) =>
      ListingLinesCharacterised(sub);
    case Dir(Unavailable(_)) =>
    case Other(_) =>
  }

  lemma {:induction false} ListingLinesCharacterised(es: seq<Entry>)
    ensures ListingLines(es).Ok? <==> ListingFetched(es)
    ensures ListingLines(es).Ok? ==> ListingLines(es).value == TextLines(ListingTexts(es))
    decreases es
  {
    if es != [] {
      EntryLinesCharacterised(es[0]);
      ListingLinesCharacterised(es[1..]);
      TextLinesAppend(EntryTexts(es[0]), ListingTexts(es[1..]));
    }
  }

  /** Every file in a fully fetched tree adds at least one line. */
  lemma FilesCountAtLeastOne(es: seq<Entry>)
    requires ListingFetched(es)
    ensures ListingLines(es).Ok? && ListingLines(es).value >= |ListingTexts(es)|
  {
    ListingLinesCharacterised(es);
    TextLinesAtLeastCount(ListingTexts(es));
  }

  /** A one-entry listing counts that entry. */
  lemma ListingLinesSingle(es: seq<Entry>)
    requires |es| == 1
    ensures ListingLines(es) == Combine(EntryLines(es[0]), Ok(0))
  {
    assert es[1..] == [];
  }

  lemma CombineAssociative(a: Result<nat>, b: Result<nat>, c: Result<nat>)
    ensures Combine(a, Combine(b, c)) == Combine(Combine(a, b), c)
  {
  }

  /** Counting a concatenation of listings is counting each and adding. */
  lemma {:induction false} ListingLinesAppend(a: seq<Entry>, b: seq<Entry>)
    ensures ListingLines(a + b) == Combine(ListingLines(a), ListingLines(b))
  {
    if a == [] {
      assert a + b == b;
      assert ListingLines(a) == Ok(0);
    } else {
      var ab := a + b;
      assert ab[0] == a[0];
      assert ab[1..] == a[1..] + b;
      ListingLinesAppend(a[1..], b);
      assert ListingLines(ab) == Combine(EntryLines(a[0]), Combine(ListingLines(a[1..]), ListingLines(b)));
      CombineAssociative(EntryLines(a[0]), ListingLines(a[1..]), ListingLines(b));
    }
  }

  /** Two counts agree on success and, when both succeed, on the total. */
  predicate SameCount(a: Result<nat>, b: Result<nat>)
  {
    a.Ok? == b.Ok? && (a.Ok? ==> a.value == b.value)
  }

  lemma MultisetWithout<T>(a: seq<T>, b1: seq<T>, x: T, b2: seq<T>)
    requires |a| >= 1 && a[0] == x
    requires multiset(a) == multiset(b1 + ([x] + b2))
    ensures multiset(a[1..]) == multiset(b1 + b2)
  {
    assert a == [x] + a[1..];
    var rest, others := multiset(a[1..]), multiset(b1) + multiset(b2);
    assert multiset(a) == multiset{x} + rest;
    assert multiset(b1 + ([x] + b2)) == multiset{x} + others;
    forall y ensures rest[y] == others[y] {
      assert (multiset{x} + rest)[y] == (multiset{x} + others)[y];
    }
    assert rest == others;
    assert multiset(b1 + b2) == others;
  }

  /** Moving the middle contribution to the front keeps the count. */
  lemma CombineSwap(whole: Result<nat>, front: Result<nat>, rest: Result<nat>,
                    p: Result<nat>, e: Result<nat>, q: Result<nat>)
    requires whole == Combine(p, front) && front == Combine(e, q) && rest == Combine(p, q)
    ensures SameCount(whole, Combine(e, rest))
  {
  }

  /** An entry in front of a listing adds its own contribution first. */
  lemma ListingLinesCons(x: Entry, b: seq<Entry>)
    ensures ListingLines([x] + b) == Combine(EntryLines(x), ListingLines(b))
  {
    assert ([x] + b)[0] == x && ([x] + b)[1..] == b;
  }

  /** Moving one entry to the front keeps the count. */
  lemma ListingLinesMoveToFront(b1: seq<Entry>, x: Entry, b2: seq<Entry>)
    ensures SameCount(ListingLines(b1 + ([x] + b2)), Combine(EntryLines(x), ListingLines(b1 + b2)))
  {
    ListingLinesCons(x, b2);
    ListingLinesAppend(b1, [x] + b2);
    ListingLinesAppend(b1, b2);
    CombineSwap(ListingLines(b1 + ([x] + b2)), ListingLines([x] + b2), ListingLines(b1 + b2),
                ListingLines(b1), EntryLines(x), ListingLines(b2));
  }

  /** The order of sibling entries does not change whether the count
      succeeds nor the total it reaches. */
  lemma {:induction false} ListingLinesPermutation(a: seq<Entry>, b: seq<Entry>)
    requires multiset(a) == multiset(b)
    ensures SameCount(ListingLines(a), ListingLines(b))
  {
    if a == [] {
      assert |b| == |multiset(b)| == 0;
    } else {
      var x := a[0];
      assert x in multiset(b);
      var j :| 0 <= j < |b| && b[j] == x;
      var b1, b2 := b[..j], b[j + 1..];
      assert b == b1 + ([x] + b2);
      MultisetWithout(a, b1, x, b2);
      ListingLinesPermutation(a[1..], b1 + b2);
      ListingLinesMoveToFront(b1, x, b2);
    }
  }

  /** `repoUrl`'s path with `.split('/').slice(1, 3).join('/')`. */
  function RepoPath(pathname: string): string
  {
    Join(Slice(Split(pathname, '/'), 1, 3), '/')
  }

  /** The segments of `/owner/repo` followed by nothing or by `/...`. */
  lemma OwnerRepoSegments(owner: string, repo: string, rest: string) returns (tail: seq<string>)
    requires '/' !in owner && '/' !in repo
    requires rest == "" || rest[0] == '/'
    ensures Split("/" + owner + "/" + repo + rest, '/') == ["", owner, repo] + tail
  {
    var after: string;
    if rest == "" {
      after := repo;
      tail := [];
      SplitNoSeparator(repo, '/');
    } else {
      var t := rest[1..];
      after := repo + ['/'] + t;
      tail := Split(t, '/');
      assert Split(after, '/') == [repo] + tail by {
        SplitFirstPiece(repo, t, '/');
      }
    }
    var pathname := "/" + owner + "/" + repo + rest;
    assert pathname == [] + ['/'] + (owner + ['/'] + after);
    assert Split(owner + ['/'] + after, '/') == [owner, repo] + tail by {
      SplitFirstPiece(owner, after, '/');
    }
    assert Split([] + ['/'] + (owner + ['/'] + after), '/') == ["", owner, repo] + tail by {
      SplitFirstPiece([], owner + ['/'] + after, '/');
    }
  }

  /** `/owner/repo` followed by nothing or by further segments gives
      `owner/repo`. */
  lemma RepoPathOwnerRepo(owner: string, repo: string, rest: string)
    requires '/' !in owner && '/' !in repo
    requires rest == "" || rest[0] == '/'
    ensures RepoPath("/" + owner + "/" + repo + rest) == owner + "/" + repo
  {
    var tail := OwnerRepoSegments(owner, repo, rest);
    assert Slice(["", owner, repo] + tail, 1, 3) == [owner, repo];
    assert [owner, repo][1..] == [repo];
    assert Join([owner, repo], '/') == owner + "/" + repo;
  }

  /** The root-listing request `fetchRepoContent` sends for a path. */
  function ContentsRequest(pathname: string, token: string): Request
  {
    Get(ApiRepos + RepoPath(pathname) + "/contents", AuthHeaders(token))
  }

  /** For a repository URL whose path is `/owner/repo...`, the root listing
      is asked of that repository's contents endpoint. */
  lemma ContentsRequestForRepository(owner: string, repo: string, rest: string, token: string)
    requires '/' !in owner && '/' !in repo
    requires rest == "" || rest[0] == '/'
    ensures ContentsRequest("/" + owner + "/" + repo + rest, token)
      == Get(ApiRepos + owner + "/" + repo + "/contents", AuthHeaders(token))
  {
    RepoPathOwnerRepo(owner, repo, rest);
  }

  /** `fetchRepoContent(url)`: `pathnameOf` stands for `new URL(url).pathname`
      (`None` when the constructor throws) and `contents` for the API's
      answer to a listing request. */
  function FetchRepoContent(url: string, pathnameOf: string -> Option<string>,
                            contents: Request -> Listing, token: string): Listing
  {
    match pathnameOf(url)
    case None => Unavailable(InvalidUrl)
    case Some(pathname) => contents(ContentsRequest(pathname, token))
  }

  /** The body of the `try` block of `analyze` for one URL: the total, or
      the failure that makes the `catch` run. */
  function RepositoryLines(url: string, pathnameOf: string -> Option<string>,
                           contents: Request -> Listing, token: string): Result<nat>
  {
    match FetchRepoContent(url, pathnameOf, contents, token)
    case Listed(es) => ListingLines(es)
    case Unavailable(m) => Err(m)
  }

  /** A repository is counted exactly when its URL parses, its root listing
      is returned and every fetch below it succeeds; its count is then the
      newlines-plus-one of all its files, summed. Any single failure makes
      the whole repository fail. */
  lemma RepositoryLinesCharacterised(url: string, pathnameOf: string -> Option<string>,
                                     contents: Request -> Listing, token: string)
    ensures var r := RepositoryLines(url, pathnameOf, contents, token);
      var root := FetchRepoContent(url, pathnameOf, contents, token);
      (r.Ok? <==> root.Listed? && ListingFetched(root.entries)) &&
      (r.Ok? ==> r.value == TextLines(ListingTexts(root.entries)))
  {
    var root := FetchRepoContent(url, pathnameOf, contents, token);
    if root.Listed? {
      ListingLinesCharacterised(root.entries);
    }
  }

  /** The mocked lint signal, `Math.floor(Math.random() * 10)`. */
  type LintSignal = x: int | 0 <= x < 10

  /** The record after `analyze` has handled it with the given outcome and
      lint draw. */
  function Analyzed(r: RepositoryRecord, outcome: Result<nat>, signal: LintSignal): (a: RepositoryRecord)
    ensures a.name == r.name && a.url == r.url && a.lastCommitDate == r.lastCommitDate
    ensures a.linesOfCode.Some? && a.linesOfCode.value >= 0
    ensures outcome.Ok? ==> a.linesOfCode == Some(outcome.value) && a.lintErrors == Some(signal)
    ensures outcome.Err? ==> a.linesOfCode == Some(0) && a.lintErrors == r.lintErrors
  {
    match outcome
    case Ok(n) => r.(linesOfCode := Some(n), lintErrors := Some(signal))
    case Err(_) => r.(linesOfCode := Some(0))
  }

  /** Counting one more entry of a listing: the running total over the
      prefix meets that entry's contribution. */
  lemma ListingLinesPrefixStep(es: seq<Entry>, i: nat)
    requires i < |es|
    ensures ListingLines(es[..i + 1]) == Combine(ListingLines(es[..i]), EntryLines(es[i]))
  {
    ListingLinesAppend(es[..i], [es[i]]);
    assert es[..i] + [es[i]] == es[..i + 1];
    ListingLinesSingle([es[i]]);
  }

  /** A listing counts as its first `j` entries followed by the rest. */
  lemma ListingLinesSplitAt(es: seq<Entry>, j: nat)
    requires j <= |es|
    ensures ListingLines(es) == Combine(ListingLines(es[..j]), ListingLines(es[j..]))
  {
    ListingLinesAppend(es[..j], es[j..]);
    assert es[..j] + es[j..] == es;
  }

  /** After a prefix that counts without failure, the first entry that
      fails decides the count of the whole listing. */
  lemma ListingLinesPrefixFails(es: seq<Entry>, i: nat, total: nat)
    requires i < |es| && ListingLines(es[..i]) == Ok(total) && EntryLines(es[i]).Err?
    ensures ListingLines(es) == EntryLines(es[i])
  {
    assert ListingLines(es[..i + 1]) == EntryLines(es[i]) by {
      ListingLinesPrefixStep(es, i);
    }
    ListingLinesSplitAt(es, i + 1);
  }

  class LintAgent {
    const nodes: seq<RepositoryNode>

    constructor (nodes: seq<RepositoryNode>)
      ensures this.nodes == nodes
    {
      this.nodes := nodes;
    }

    /** `calculateLinesOfCode(contents)`: a running total over the entries,
        recursing into every sub-listing; the first failed fetch aborts the
        whole call. */
    method CalculateLinesOfCode(contents: seq<Entry>) returns (r: Result<nat>)
      ensures r == ListingLines(contents)
      decreases Listed(contents)
    {
      var total := 0;
      for i := 0 to |contents|
        invariant ListingLines(contents[..i]) == Ok(total)
      {
        var entry := contents[i];
        ListingLinesPrefixStep(contents, i);
        match entry {
          case File(download) =>
            if download.Err? {
              ListingLinesPrefixFails(contents, i, total);
              return Err(download.error);
            }
            total := total + |Split(download.value, '\n')|;
          case Dir(listing) =>
            if listing.Unavailable? {
              ListingLinesPrefixFails(contents, i, total);
              return Err(listing.reason);
            }
            assert entry in contents;
            var sub := CalculateLinesOfCode(listing.entries);
            if sub.Err? {
              ListingLinesPrefixFails(contents, i, total);
              return sub;
            }
            total := total + sub.value;
          case Other(_) =>
        }
      }
      assert contents[..|contents|] == contents;
      return Ok(total);
    }

    /** `analyze()`: every record in order gets its line count, or 0 when
        anything in its `try` block fails; one record's failure does not
        stop the others. `lintSignals[i]` is the draw for the i-th record. */
    method Analyze(pathnameOf: string -> Option<string>, contents: Request -> Listing,
                   token: string, lintSignals: seq<LintSignal>) returns (result: seq<RepositoryNode>)
      requires |lintSignals| == |nodes|
      requires Distinct(nodes)
      modifies set n | n in nodes
      ensures result == nodes
      ensures forall i :: 0 <= i < |nodes| ==>
        nodes[i].Value() == Analyzed(old(nodes[i].Value()),
                                     RepositoryLines(old(nodes[i].url), pathnameOf, contents, token),
                                     lintSignals[i])
    {
      for i := 0 to |nodes|
        invariant forall k :: 0 <= k < i ==>
          nodes[k].Value() == Analyzed(old(nodes[k].Value()),
                                       RepositoryLines(old(nodes[k].url), pathnameOf, contents, token),
                                       lintSignals[k])
        invariant forall k :: i <= k < |nodes| ==> nodes[k].Value() == old(nodes[k].Value())
      {
        var node := nodes[i];
        var root := FetchRepoContent(node.url, pathnameOf, contents, token);
        match root {
          case Unavailable(_) =>
            node.linesOfCode := Some(0);
          case Listed(entries) =>
            var lines := CalculateLinesOfCode(entries);
            if lines.Ok? {
              node.linesOfCode := Some(lines.value);
              node.lintErrors := Some(lintSignals[i]);
            } else {
              node.linesOfCode := Some(0);
            }
        }
      }
      result := nodes;
    }
  }
}
