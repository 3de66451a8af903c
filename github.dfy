/** Requests to the GitHub REST API. The API itself is not modelled: each
    agent receives it as a function from a request to the response it
    would give, i.e. a fixed remote state for the run. */
module GitHub {

  const ApiRepos := "https://api.github.com/repos/"

  /** A GET request: the address and the headers that go with it. */
  datatype Request = Get(url: string, headers: map<string, string>)

  /** The headers every agent computes from `GITHUB_API_TOKEN || ''`:
      `{ Authorization: 'token <token>' }` for a non-empty token and no
      header at all for the empty one (an absent variable reads as ""). */
  function AuthHeaders(token: string): (h: map<string, string>)
    ensures "Authorization" in h <==> token != ""
    ensures h.Keys <= {"Authorization"}
    ensures "Authorization" in h ==> h["Authorization"] == "token " + token
  {
    if token != "" then map["Authorization" := "token " + token] else map[]
  }
}
