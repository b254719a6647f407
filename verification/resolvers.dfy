/** The two GraphQL resolvers, `listRepositories` and `repositoryDetails`, as
    functions of their arguments and of the upstream API. Each returns its
    outcome together with the requests it sent, in the order it sent them. */
module Resolvers {

  import opened Wrappers
  import opened Numbers
  import opened Api
  import opened Model
  import opened Scan
  import opened Pagination

  /** What a resolver did: its outcome and the requests it made. */
  datatype Run<T, E> = Run(result: Result<T, E>, requests: seq<Request>)

  /** The errors `listRepositories` throws. */
  datatype ListError = TokenNotDefined | RateLimited | Unauthorized | FetchFailed

  function ListErrorMessage(e: ListError): string {
    match e
    case TokenNotDefined => "GitHub token is not defined in environment variables."
    case RateLimited => "GitHub API rate limit exceeded or access forbidden."
    case Unauthorized => "Unauthorized. Check your GitHub token."
    case FetchFailed => "Failed to fetch repositories"
  }

  /** The `catch` of `listRepositories`: the status picks the message; a
      failure without a response gets the generic one. */
  function ClassifyListFailure(f: HttpFailure): (e: ListError)
    ensures e == RateLimited <==> f.ErrorResponse? && f.status == 403
    ensures e == Unauthorized <==> f.ErrorResponse? && f.status == 401
    ensures e != TokenNotDefined
  {
    if f.ErrorResponse? && f.status == 403 then RateLimited
    else if f.ErrorResponse? && f.status == 401 then Unauthorized
    else FetchFailed
  }

  /** Each error has its own message, so a client can tell them apart. */
  lemma ListErrorMessagesDistinct(a: ListError, b: ListError)
    requires ListErrorMessage(a) == ListErrorMessage(b)
    ensures a == b
  {
  }

  /** The fields of a listing item the resolver keeps. */
  function ToRepository(raw: RawRepo): Repository {
    Repository(raw.name, raw.size, raw.ownerLogin)
  }

  /** `response.data.map(...)`. */
  function Repositories(items: seq<RawRepo>): (r: seq<Repository>)
    ensures |r| == |items|
    ensures forall i :: 0 <= i < |items| ==>
      r[i].name == items[i].name && r[i].size == items[i].size && r[i].owner == items[i].ownerLogin
  {
    seq(|items|, i requires 0 <= i < |items| => ToRepository(items[i]))
  }

  /** `listRepositories(token, page, perPage)`; an absent `page` or `perPage`
      takes its default, 1 or 30. */
  function ListRepositories(token: string, page: Option<int>, perPage: Option<int>, api: Upstream)
    : (r: Run<RepositoriesResponse, ListError>)
    ensures token == "" <==> r.requests == []
    ensures token == "" ==> r.result == Failure(TokenNotDefined)
    ensures token != "" ==> var req := ListReposRequest(token, page.GetOr(1), perPage.GetOr(30));
      && r.requests == [req]
      && (api.listUserRepos(req).Failed? ==>
            r.result == Failure(ClassifyListFailure(api.listUserRepos(req).failure)))
      && (api.listUserRepos(req).Ok? ==>
            var reply := api.listUserRepos(req);
            var info := DerivePageInfo(reply.link, page.GetOr(1), perPage.GetOr(30));
            && (info.Failure? ==> r.result == Failure(FetchFailed))
            && (info.Success? ==>
                  && r.result.Success?
                  && r.result.value.pageInfo == info.value
                  && |r.result.value.repos| == |reply.data|
                  && forall i :: 0 <= i < |reply.data| ==> r.result.value.repos[i] == ToRepository(reply.data[i])))
  {
    var p := page.GetOr(1);
    var pp := perPage.GetOr(30);
    if token == "" then Run(Failure(TokenNotDefined), [])
    else
      var req := ListReposRequest(token, p, pp);
      var reply := api.listUserRepos(req);
      if reply.Failed? then Run(Failure(ClassifyListFailure(reply.failure)), [req])
      else
        var info := DerivePageInfo(reply.link, p, pp);
        if info.Failure? then Run(Failure(FetchFailed), [req])
        else Run(Success(RepositoriesResponse(Repositories(reply.data), info.value)), [req])
  }

  /** The errors `getRepositoryDetails` throws: an upstream error status with
      the `message` of the error body (absent when the body has none), or the
      generic error for a failure that got no response. */
  datatype DetailsError = ApiError(status: int, message: Option<string>) | Unexpected

  const ApiErrorPrefix := "GitHub API error ("

  /** The message of the thrown `Error`. A missing body message renders as
      `undefined`, as a template literal does. */
  function DetailsErrorMessage(e: DetailsError): string {
    match e
    case ApiError(status, message) => ApiErrorPrefix + IntToString(status) + "): " + message.GetOr("undefined")
    case Unexpected => "An unexpected error occurred."
  }

  /** The `catch` of `getRepositoryDetails`. */
  function ClassifyDetailsFailure(f: HttpFailure): (e: DetailsError)
    ensures e.ApiError? <==> f.ErrorResponse?
    ensures e.ApiError? ==> e.status == f.status && e.message == f.message
  {
    match f
    case ErrorResponse(status, message) => ApiError(status, message)
    case NoResponse => Unexpected
  }

  /** The status code can be read back from an API error message: the text
      after the prefix starts with the status and then `)`. */
  lemma StatusInMessage(status: int, message: Option<string>)
    ensures var text := DetailsErrorMessage(ApiError(status, message));
      |ApiErrorPrefix| <= |text| && text[..|ApiErrorPrefix|] == ApiErrorPrefix
      && ParseInt(text[|ApiErrorPrefix|..]) == Some(status)
  {
    var rest := "): " + message.GetOr("undefined");
    var text := DetailsErrorMessage(ApiError(status, message));
    assert text == ApiErrorPrefix + (IntToString(status) + rest);
    assert text[|ApiErrorPrefix|..] == IntToString(status) + rest;
    ParseIntToString(status, rest);
  }

  /** Two API errors with the same message carry the same status. */
  lemma ApiErrorStatusDetermined(a: DetailsError, b: DetailsError)
    requires a.ApiError? && b.ApiError?
    requires DetailsErrorMessage(a) == DetailsErrorMessage(b)
    ensures a.status == b.status
  {
    StatusInMessage(a.status, a.message);
    StatusInMessage(b.status, b.message);
  }

  /** What `scanRepo` hands back. */
  datatype ScanResult = ScanResult(fileCount: nat, ymlFileContent: Option<string>, activeWebhooks: Option<seq<Webhook>>)

  /** The `activeWebhooks` field once GraphQL has awaited the hooks request:
      the active hooks, or `null` when the request failed. */
  function HooksOutcome(reply: Reply<seq<RawHook>>): Option<seq<Webhook>> {
    if reply.Ok? then Some(ActiveWebhooks(reply.data)) else None
  }

  /** `scanRepo(token, owner, repo)`: fetch the tree, count its blobs, fetch
      the first YAML blob if there is one, then send the hooks request. A
      failed tree or content request is the scan's failure; a failed hooks
      request only empties the webhook field. */
  function ScanRepo(token: string, owner: string, repo: string, api: Upstream): (r: Run<ScanResult, HttpFailure>)
    ensures var treeReq := TreeRequest(token, owner, repo);
      var treeReply := api.getTree(treeReq);
      && (treeReply.Failed? ==> r == Run(Failure(treeReply.failure), [treeReq]))
      && (treeReply.Ok? ==>
            var tree := treeReply.data;
            var hooksReq := HooksRequest(token, owner, repo);
            var webhooks := HooksOutcome(api.getHooks(hooksReq));
            match FirstYamlBlob(tree)
            case None =>
              r == Run(Success(ScanResult(|BlobIndices(tree)|, None, webhooks)), [treeReq, hooksReq])
            case Some(yml) =>
              var contentReq := ContentRequest(token, owner, repo, yml.path);
              var contentReply := api.getContent(contentReq);
              && (contentReply.Failed? ==> r == Run(Failure(contentReply.failure), [treeReq, contentReq]))
              && (contentReply.Ok? ==>
                    r == Run(Success(ScanResult(|BlobIndices(tree)|, Some(contentReply.data), webhooks)),
                             [treeReq, contentReq, hooksReq])))
  {
    var treeReq := TreeRequest(token, owner, repo);
    var treeReply := api.getTree(treeReq);
    if treeReply.Failed? then Run(Failure(treeReply.failure), [treeReq])
    else
      var blobs := Blobs(treeReply.data);
      BlobCount(treeReply.data);
      FirstYamlAmongBlobs(treeReply.data);
      var fileCount := |blobs|;
      var ymlFile := FirstYaml(blobs);
      var hooksReq := HooksRequest(token, owner, repo);
      if ymlFile.None? then
        Run(Success(ScanResult(fileCount, None, HooksOutcome(api.getHooks(hooksReq)))), [treeReq, hooksReq])
      else
        var contentReq := ContentRequest(token, owner, repo, ymlFile.value.path);
        var contentReply := api.getContent(contentReq);
        if contentReply.Failed? then Run(Failure(contentReply.failure), [treeReq, contentReq])
        else
          Run(Success(ScanResult(fileCount, Some(contentReply.data), HooksOutcome(api.getHooks(hooksReq)))),
              [treeReq, contentReq, hooksReq])
  }

  /** `getRepositoryDetails(token, owner, repo)`. There is no token check: the
      metadata request is always sent. The scan uses the owner and name the
      metadata reports, not the arguments. */
  function GetRepositoryDetails(token: string, owner: string, repo: string, api: Upstream)
    : (r: Run<RepositoryDetails, DetailsError>)
    ensures var repoReq := RepoRequest(token, owner, repo);
      var meta := api.getRepo(repoReq);
      && |r.requests| >= 1 && r.requests[0] == repoReq
      && (meta.Failed? ==> r == Run(Failure(ClassifyDetailsFailure(meta.failure)), [repoReq]))
      && (meta.Ok? ==>
            var scan := ScanRepo(token, meta.data.ownerLogin, meta.data.name, api);
            && r.requests == [repoReq] + scan.requests
            && (scan.result.Failure? ==> r.result == Failure(ClassifyDetailsFailure(scan.result.error)))
            && (scan.result.Success? ==>
                  var s := scan.result.value;
                  r.result == Success(RepositoryDetails(meta.data.name, meta.data.size, meta.data.ownerLogin,
                                                        meta.data.isPrivate, s.fileCount, s.ymlFileContent,
                                                        s.activeWebhooks))))
  {
    var repoReq := RepoRequest(token, owner, repo);
    var meta := api.getRepo(repoReq);
    if meta.Failed? then Run(Failure(ClassifyDetailsFailure(meta.failure)), [repoReq])
    else
      var data := meta.data;
      var scan := ScanRepo(token, data.ownerLogin, data.name, api);
      var result :=
        if scan.result.Failure? then Failure(ClassifyDetailsFailure(scan.result.error))
        else
          var s := scan.result.value;
          Success(RepositoryDetails(data.name, data.size, data.ownerLogin, data.isPrivate,
                                    s.fileCount, s.ymlFileContent, s.activeWebhooks));
      Run(result, [repoReq] + scan.requests)
  }
}
