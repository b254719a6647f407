/** The GitHub REST API as the resolvers see it. Each endpoint is a function
    from the request sent to the reply received, so the network, the clock and
    the server's state are all inside the `Upstream` value a caller supplies. */
module Api {

  import opened Wrappers

  /** An outgoing GET: its URL, `Accept` header (absent on the contents
      endpoint), `Authorization` header and query parameters. */
  datatype Request = Request(
    url: string,
    accept: Option<string>,
    authorization: string,
    params: seq<(string, int)>)

  /** Why a request failed: the server answered with an error status (and a body
      that may carry a `message`), or nothing came back at all. */
  datatype HttpFailure =
    | ErrorResponse(status: int, message: Option<string>)
    | NoResponse

  /** A reply: the decoded body and the `Link` header, or a failure. */
  datatype Reply<T> = Ok(data: T, link: Option<string>) | Failed(failure: HttpFailure)

  /** The fields of `/user/repos` and `/repos/{owner}/{repo}` items the resolvers read. */
  datatype RawRepo = RawRepo(name: string, size: int, ownerLogin: string, isPrivate: bool)

  /** One entry of a recursive git tree: its path and its `type`. */
  datatype TreeEntry = TreeEntry(path: string, kind: string)

  /** One item of `/repos/{owner}/{repo}/hooks`. */
  datatype RawHook = RawHook(id: string, name: string, active: bool)

  /** The five endpoints. `getContent` yields the file's text, already decoded
      from the base64 the server sends. */
  datatype Upstream = Upstream(
    listUserRepos: Request -> Reply<seq<RawRepo>>,
    getRepo: Request -> Reply<RawRepo>,
    getTree: Request -> Reply<seq<TreeEntry>>,
    getContent: Request -> Reply<string>,
    getHooks: Request -> Reply<seq<RawHook>>)

  const Root := "https://api.github.com"
  const JsonMedia := "application/vnd.github+json"
  const V3JsonMedia := "application/vnd.github.v3+json"

  function Authorization(token: string): string {
    "token " + token
  }

  function RepoPath(owner: string, repo: string): string {
    Root + "/repos/" + owner + "/" + repo
  }

  function ListReposRequest(token: string, page: int, perPage: int): Request {
    Request(Root + "/user/repos", Some(JsonMedia), Authorization(token), [("page", page), ("per_page", perPage)])
  }

  function RepoRequest(token: string, owner: string, repo: string): Request {
    Request(RepoPath(owner, repo), Some(JsonMedia), Authorization(token), [])
  }

  function TreeRequest(token: string, owner: string, repo: string): Request {
    Request(RepoPath(owner, repo) + "/git/trees/HEAD?recursive=1", Some(V3JsonMedia), Authorization(token), [])
  }

  function ContentRequest(token: string, owner: string, repo: string, path: string): Request {
    Request(RepoPath(owner, repo) + "/contents/" + path, None, Authorization(token), [])
  }

  function HooksRequest(token: string, owner: string, repo: string): Request {
    Request(RepoPath(owner, repo) + "/hooks", Some(JsonMedia), Authorization(token), [])
  }
}
