/** The records the GraphQL API returns. Numbers are unbounded integers; the
    GraphQL `Int` scalar's 32-bit range is not modelled. */
module Model {

  import opened Wrappers

  /** Where a page of the repository listing sits. `lastPage` is `None` when the
      `last` link's `page` text holds no integer: `parseInt` then yields `NaN`. */
  datatype PageInfo = PageInfo(
    hasNextPage: bool,
    hasPreviousPage: bool,
    currentPage: int,
    lastPage: Option<int>,
    perPage: int)

  /** One entry of the repository listing. */
  datatype Repository = Repository(name: string, size: int, owner: string)

  /** A webhook reported by the details query. */
  datatype Webhook = Webhook(id: string, name: string, active: bool)

  /** The details query's answer. `ymlFileContent` is `None` (GraphQL `null`)
      when the tree has no YAML file; `activeWebhooks` is `None` when the hooks
      request fails, since that failure only nulls the field. */
  datatype RepositoryDetails = RepositoryDetails(
    name: string,
    size: int,
    owner: string,
    isPrivate: bool,
    numberOfFiles: nat,
    ymlFileContent: Option<string>,
    activeWebhooks: Option<seq<Webhook>>)

  /** The listing query's answer. */
  datatype RepositoriesResponse = RepositoriesResponse(repos: seq<Repository>, pageInfo: PageInfo)
}
