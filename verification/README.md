# GitHub repository scanner: resolver logic

The backend of the scanner is a GraphQL server with two queries. Both forward a
user's personal access token to the GitHub REST API:

- `listRepositories(token, page, perPage)` lists the user's repositories one
  page at a time. It reads the pagination `Link` header of the upstream reply
  into a `PageInfo`.
- `repositoryDetails(token, owner, repo)` fetches one repository's metadata and
  then scans its git tree. The scan counts the blobs, fetches the first
  `.yml`/`.yaml` blob and lists the active webhooks.

This project is a functional model of `backend/src/resolvers.ts` and of the
records of `backend/src/types.ts`. It has these modules:

- `Wrappers`: `Option` and `Result`.
- `Text`: trimming with JavaScript's whitespace set, `split` and join, and
  cutting at the first occurrence of a character.
- `Numbers`: `parseInt(s, 10)` and the decimal rendering of an integer inside
  a template literal.
- `Pattern`: the only regular-expression form the code uses,
  `s.replace(/O(.*)C/, '$1')`. It is modelled exactly: the first match only,
  leftmost start, greedy `.*`, and `.` does not match a line terminator.
- `Url`: the two things `new URL(u)` is used for. One is whether `new URL`
  accepts the text. This is approximated by the URL standard's input cleanup
  followed by "starts with a scheme". The other is `searchParams.get('page')`.
- `LinkHeader`: `parseLinkHeader`, with a renderer for well-formed headers and
  the round trip between the two.
- `Model`: `PageInfo`, `Repository`, `Webhook`, `RepositoryDetails`, and the
  response of `listRepositories`.
- `Api`: the upstream endpoints, as functions from request to reply, and the
  requests the resolvers build.
- `Scan`: the blob count, the first YAML blob, and the active-webhook filter.
- `Pagination`: the `PageInfo` block of `listRepositories`.
- `Resolvers`: the two resolvers and `scanRepo`. Each returns its outcome
  together with the exact requests it sent, in order.

The network is a parameter. An `Upstream` value gives, for each endpoint, the
reply a request receives. A failed reply either carries the error status and
the body's `message`, or stands for a request that got no response at all.

Some facts about the code that the model keeps:

- The regex replace of the URL part (`<…>`) and the relation part
  (`rel="…"`) happens after trimming.
- A part whose `;`-split does not give exactly two sections is skipped.
- A later link with the same relation name overwrites an earlier one.
- `trim` leaves blanks inside `<…>` in place. The URL parser strips C0
  controls and spaces at both ends itself, so `< https://a.b/>` is accepted.
- A URL that `new URL` rejects aborts the whole listing with the generic
  "Failed to fetch repositories" error.
- `parseInt` of a `page` value without digits gives `NaN`. The model writes
  `NaN` as `None` in `PageInfo.lastPage`.
- The requested page is echoed as `currentPage` whatever the header says. So
  the code does not keep `currentPage <= lastPage`: a request for page 2 when
  the last page is 1 reports exactly that (`Pagination.CurrentPageCanExceedLastPage`).
  The model follows the code.
- `repositoryDetails` does not check the token. It always sends the metadata
  request. It then scans the repository under the owner and name the metadata
  reports, not under its arguments.
- The webhook list is not awaited inside `scanRepo`. GraphQL awaits the field
  later. If the hooks request fails, the nullable field becomes `null` rather
  than failing the query with the details error message. In the model,
  `activeWebhooks` is `None` in that case. The hooks request is the last
  request a scan sends.

## Model

| member | source | states |
|---|---|---|
| LinkHeader.ParseLinkHeader | backend/src/resolvers.ts:10-27 | The parse succeeds exactly when every kept part's URL is accepted by `new URL`. On failure it reports the first rejected URL. On success the keys are exactly the relation names of the kept parts, and each key holds `{url, page}` of the last kept part with that name. |
| LinkHeader.ParseSegment | backend/src/resolvers.ts:15-20 | One comma-separated part: `None` unless its `;`-split has two sections, otherwise the trimmed and unwrapped URL and relation name. `LinkHeader.ParseSegmentSections` states when a part is kept. |
| LinkHeader.ParseSegmentSections | backend/src/resolvers.ts:15-20 | A part is kept exactly when it holds a single `;`. Its URL is then the text before the `;`, and its name the text after it, each trimmed and stripped of its `<…>` or `rel="…"` wrapper. |
| LinkHeader.LinkOf | backend/src/resolvers.ts:21-23 | The stored entry: the URL as written, and its `page` query parameter or `''`. |
| LinkHeader.Collect | backend/src/resolvers.ts:14-24 | The `forEach` over the parts, with the map built so far. A rejected URL stops it with the error. `LinkHeader.CollectIsApply` and the `Apply` lemmas state its result. |
| LinkHeader.CollectIsApply | backend/src/resolvers.ts:14-24 | The `forEach` loop over the comma-separated parts equals applying the kept segments in order: parts whose `;`-split does not have two sections contribute nothing. |
| LinkHeader.ApplyFailure | backend/src/resolvers.ts:21 | Applying segments fails exactly when some segment's URL is rejected, and it reports the first such URL. |
| LinkHeader.ApplyKeys | backend/src/resolvers.ts:23 | A successful loop's map has the starting keys plus exactly the relation names of the segments. |
| LinkHeader.ApplyUntouched | backend/src/resolvers.ts:23 | A key that no segment names keeps its starting value. |
| LinkHeader.ApplyValues | backend/src/resolvers.ts:23 | A key that a segment names holds the entry of the last segment with that name. A later duplicate overwrites an earlier one. |
| LinkHeader.RelsMember | backend/src/resolvers.ts:23 | A name is among the relation names exactly when some segment carries it. |
| LinkHeader.LastExists | backend/src/resolvers.ts:23 | Every relation name of a list of segments has a last segment carrying it. |
| LinkHeader.CollectConcat | backend/src/resolvers.ts:14-24 | Running the loop over two lists of parts in turn is running it over their concatenation, if the first run succeeds. |
| LinkHeader.MalformedPartDropped | backend/src/resolvers.ts:15-18 | Adding a part that does not split into two `;`-sections, before or after a header, does not change the parse. |
| LinkHeader.RenderParses | backend/src/resolvers.ts:15-20 | A link written as `<url>; rel="name"`, optionally after leading blanks, is read back as exactly that URL and name. This holds for any URL and name without `,`, `;` or a line terminator. The leading blanks must not contain `;`. |
| LinkHeader.FormatParses | backend/src/resolvers.ts:12-20 | Splitting a header written from well-formed links on `,` and keeping the parts that parse gives back the same links, in order. |
| LinkHeader.FormatRoundTrip | backend/src/resolvers.ts:10-27 | A header written from well-formed links with accepted URLs and consistent names parses to the map from each name to its `{url, page}`. |
| LinkHeader.OrderIrrelevant | backend/src/resolvers.ts:10-27 | Two headers listing the same links, in any order and with any repetition, parse to the same map, provided links that share a relation name are the same link. Otherwise order matters, because the later link with a name wins. |
| LinkHeader.EntryMapOf | backend/src/resolvers.ts:23 | A map with the segments' names as keys and each name's last segment's entry as value is the name-to-entry map of the segments. |
| LinkHeader.EntryMapKeys | backend/src/resolvers.ts:23 | The keys of the name-to-entry map are exactly the relation names. |
| LinkHeader.EntryMapSameMembers | backend/src/resolvers.ts:23 | The name-to-entry map depends only on which segments occur, not on their order. |
| Text.Trim | backend/src/resolvers.ts:19-20 | `trim()`: the result is no longer than the text and has whitespace at neither end. `Text.TrimStartSuffix` and `Text.TrimEndPrefix` state that only whitespace is removed. |
| Text.TrimStartSuffix | backend/src/resolvers.ts:19-20 | Removing leading whitespace removes a whitespace-only prefix and nothing else. |
| Text.TrimEndPrefix | backend/src/resolvers.ts:19-20 | Removing trailing whitespace removes a whitespace-only suffix and nothing else. |
| Text.TrimPadded | backend/src/resolvers.ts:19-20 | `trim()` removes exactly the leading and trailing whitespace around unpadded text. |
| Text.TrimStartPadded | backend/src/resolvers.ts:19-20 | Removing leading whitespace leaves the text that follows it. |
| Text.TrimEndPadded | backend/src/resolvers.ts:19-20 | Removing trailing whitespace leaves the text before it. |
| Text.Split | backend/src/resolvers.ts:12-15 | `split(d)` with a one-character separator, which always gives at least one piece. Its other properties are stated by `Text.JoinSplit`, `Text.SplitJoin`, `Text.SplitPiecesFree` and `Text.SplitCount`. |
| Text.SplitCount | backend/src/resolvers.ts:15-16 | `split(d)` gives one piece more than there are separators. So the check `section.length !== 2` keeps exactly the parts with one `;`. |
| Text.SplitInTwo | backend/src/resolvers.ts:15-20 | When the split gives two pieces, they are the text before and the text after the only separator. |
| Text.JoinSplit | backend/src/resolvers.ts:12 | Joining the pieces of `split(d)` with `d` gives back the original string. |
| Text.SplitJoin | backend/src/resolvers.ts:12 | Splitting pieces joined with `d` gives back the pieces, provided none contains `d`. |
| Text.SplitPiecesFree | backend/src/resolvers.ts:15 | No piece of `split(d)` contains `d`. |
| Text.SplitConcat | backend/src/resolvers.ts:12 | Splitting `a + d + b` on `d` gives the pieces of `a` followed by those of `b`. |
| Text.SplitWithoutSeparator | backend/src/resolvers.ts:15-16 | A string without the separator splits into itself alone, i.e. one section. |
| Text.SplitOnce | backend/src/resolvers.ts:15-16 | A string with exactly one separator splits into two sections. |
| Text.BeforeIsPrefix | backend/src/resolvers.ts:22 | The text before the first occurrence of a character is the longest prefix without it. |
| Text.AfterSplitsAtFirst | backend/src/resolvers.ts:22 | The text after the first occurrence is absent exactly when the character does not occur. Otherwise the string is the text before it, the character, and the text after it. |
| Text.CutAtFirst | backend/src/resolvers.ts:22 | The text before and after the first occurrence of a character are the two sides of that occurrence. |
| Pattern.ReplaceWrapped | backend/src/resolvers.ts:19-20 | `s.replace(/O(.*)C/, '$1')`: the first match, at its leftmost start with its longest end, is replaced by its inner text. `Pattern.ReplaceNoMatch` and `Pattern.ReplaceChosen` state this. |
| Pattern.ReplaceNoMatch | backend/src/resolvers.ts:19-20 | Text in which the pattern matches nowhere is returned unchanged. |
| Pattern.ChosenMatchExists | backend/src/resolvers.ts:19-20 | Wherever the pattern matches, there is a match the engine reports: the leftmost start, and the longest match from there. |
| Pattern.ReplaceChosen | backend/src/resolvers.ts:19-20 | The result is the text with the reported match replaced by its inner part. |
| Pattern.LastClose | backend/src/resolvers.ts:19-20 | The greedy `.*C` ends at the last `C` reachable without crossing a line terminator, and there is no match when none is reachable. |
| Pattern.FindMatch | backend/src/resolvers.ts:19-20 | Finds the leftmost start of a match and its longest end, or shows that no match starts at or after the given position. |
| Pattern.UnwrapWhole | backend/src/resolvers.ts:19-20 | `<url>` becomes `url` and `rel="name"` becomes `name` when the inner text is a single line. |
| Url.HasScheme | backend/src/resolvers.ts:21 | `new URL(url)` does not throw: after the URL standard's cleanup, the text begins with a scheme. |
| Url.VisibleCleaned | backend/src/resolvers.ts:21 | Text without C0 controls and spaces is what the URL parser reads, unchanged. |
| Url.AcceptsPadded | backend/src/resolvers.ts:21 | C0 controls and spaces around a URL do not change whether it is accepted. This holds for a non-empty URL with no C0 control or space inside it. |
| Url.PaddedUrlAccepted | backend/src/resolvers.ts:21 | `new URL` accepts ` https://a.b/`, because the URL parser strips the leading space. |
| LinkHeader.BlanksInsideBrackets | backend/src/resolvers.ts:19-21 | Spaces just inside `<…>` survive `trim`, so the stored URL starts with them. `new URL` still accepts that URL exactly when the text after the spaces begins with a scheme. This holds for any URL and name without `,`, `;` or a line terminator, and a URL without C0 controls or spaces of its own. |
| Url.SearchParam | backend/src/resolvers.ts:22 | `searchParams.get(name)` over the cleaned URL's query. `Url.FirstValueIsFirst` states which pair it returns. |
| Url.PageOf | backend/src/resolvers.ts:22 | `searchParams.get('page')`, or `''` when that is absent or empty. `Url.PageOfLeading` and `Url.PageOfNoQuery` state its value. |
| Url.PageOfLeading | backend/src/resolvers.ts:22 | A URL whose query starts with `page=v` has page `v`, whatever parameters follow. |
| Url.PageOfNoQuery | backend/src/resolvers.ts:22 | A URL without `?` has page `''`. |
| Url.FirstValueIsFirst | backend/src/resolvers.ts:22 | `searchParams.get` gives the value of the first non-empty pair with the name, and nothing exactly when no pair has it. |
| Numbers.ParseInt | backend/src/resolvers.ts:155 | `parseInt(s, 10)`, with `None` for `NaN`. The `Numbers` lemmas below state what it reads. |
| Numbers.LeadingDigitsPrefix | backend/src/resolvers.ts:155 | The digits `parseInt` reads are a prefix of the text, and they stop only at a non-digit or at the end. |
| Numbers.ParseIntToString | backend/src/resolvers.ts:155 | `parseInt` reads a rendered integer back, negative ones included, whatever non-digit text follows. |
| Numbers.ParseIntSkipsWhitespace | backend/src/resolvers.ts:155 | `parseInt` ignores leading whitespace. |
| Numbers.ParseIntNoDigits | backend/src/resolvers.ts:155 | Text whose first non-blank character is neither a sign nor a digit gives `NaN`. |
| Numbers.IntToString | backend/src/resolvers.ts:61 | The rendering of an integer inside a template literal. It starts with a digit exactly when the number is not negative, and with `-` exactly when it is negative. `Resolvers.StatusInMessage` states that `parseInt` reads it back. |
| Numbers.NatToString | backend/src/resolvers.ts:61 | The decimal rendering of a natural number is a run of digits with no leading zero whose value is the number. |
| Pagination.Present | backend/src/resolvers.ts:150 | `if (linkHeader)`: a missing header and an empty one are both skipped. `Pagination.DerivePageInfo` states what follows from each case. |
| Pagination.FromLinks | backend/src/resolvers.ts:150-157 | The fields read from a parsed header: `next` and `prev` present, and `lastPage` from `parseInt` of the `last` link's page, else the requested page. `Pagination.DerivePageInfo` states them against the header's links. |
| Pagination.DerivePageInfo | backend/src/resolvers.ts:145-165 | The current page and page size are echoed. A missing or empty header gives no next, no previous, and last page = current page. With a header, the result fails exactly when the parse fails. `hasNextPage`/`hasPreviousPage` hold exactly when a `next`/`prev` link is present. The last page is the requested page when there is no `last` link; otherwise it is `parseInt` of the `page` of the last `last` link. |
| Pagination.LastLinkPage | backend/src/resolvers.ts:22 | The `page` of `<base?page=v>` reads back as `v`. |
| Pagination.OnlyLastLink | backend/src/resolvers.ts:145-165 | A header with only a `last` link to page `v` gives no next, no previous, and last page `v`. |
| Pagination.CurrentPageCanExceedLastPage | backend/src/resolvers.ts:146-165 | Requesting page 2 when the header's last link points at page 1 gives current page 2 and last page 1. |
| Scan.Blobs | backend/src/resolvers.ts:78 | `tree.filter(item => item.type === 'blob')`: never longer than the tree. `Scan.BlobsMembers` and `Scan.BlobsConcat` state which entries it keeps, and in what order. |
| Scan.IsYaml | backend/src/resolvers.ts:81 | The path ends in `.yml` or `.yaml`. |
| Scan.BlobsMembers | backend/src/resolvers.ts:78 | An entry is among the blobs exactly when it is in the tree and has type `blob`. |
| Scan.BlobsConcat | backend/src/resolvers.ts:78 | The filter keeps the tree's order: the blobs of a concatenation are the blobs of each half in turn. |
| Scan.BlobCount | backend/src/resolvers.ts:78-79 | The file count equals the number of tree positions that hold a blob. |
| Scan.FirstYaml | backend/src/resolvers.ts:81 | `find` gives the first entry, in order, whose path ends in `.yml` or `.yaml`, and nothing exactly when there is none. |
| Scan.FirstYamlBlob | backend/src/resolvers.ts:78-81 | The first blob of the tree with a YAML path, and nothing exactly when the tree has none. |
| Scan.FirstYamlAmongBlobs | backend/src/resolvers.ts:78-81 | Searching the blobs for a YAML path finds the first YAML blob of the whole tree. A YAML path on a non-blob entry is never chosen. |
| Scan.Project | backend/src/resolvers.ts:112-116 | The fields a webhook keeps: `id`, `name` and `active`. |
| Scan.ActiveWebhooks | backend/src/resolvers.ts:110-116 | Only active hooks are kept, none is invented, and every active hook appears with its id, name and flag. |
| Scan.ActiveWebhooksConcat | backend/src/resolvers.ts:110-116 | The filter keeps order: the active hooks of a concatenation are those of each half in turn. |
| Scan.InactiveHookDropped | backend/src/resolvers.ts:111 | An inactive hook is dropped and nothing else moves. |
| Scan.ActiveWebhooksExample | backend/src/resolvers.ts:110-116 | Hooks "1" (active) and "2" (inactive) give the single webhook "1". |
| Resolvers.ListErrorMessage | backend/src/resolvers.ts:129-184 | The messages of the four errors `listRepositories` throws. `Resolvers.ListErrorMessagesDistinct` states that they tell the errors apart. |
| Resolvers.ClassifyListFailure | backend/src/resolvers.ts:176-184 | Status 403 gives the rate-limit error and 401 the unauthorized error, each exactly then. Any other status, or no response, gives the generic error. The token error never comes from here. |
| Resolvers.ListErrorMessagesDistinct | backend/src/resolvers.ts:130-184 | The four listing errors have four different messages. |
| Resolvers.ToRepository | backend/src/resolvers.ts:168-172 | The fields of a listing item the result keeps: name, size and owner login. |
| Resolvers.Repositories | backend/src/resolvers.ts:168-172 | One repository per listing item, in order, with its name, size and owner login. |
| Resolvers.ListRepositories | backend/src/resolvers.ts:127-185 | An empty token fails with the token error and sends no request; any other token sends exactly one request. An upstream failure is classified by status. A header that does not parse gives the generic error. Otherwise the result holds the derived `PageInfo` and one projected repository per item. Absent `page`/`perPage` default to 1 and 30. |
| Resolvers.DetailsErrorMessage | backend/src/resolvers.ts:57-64 | The two messages `getRepositoryDetails` throws. A missing body message renders as `undefined`. `Resolvers.StatusInMessage` states that the status can be read back. |
| Resolvers.ClassifyDetailsFailure | backend/src/resolvers.ts:57-64 | A failure with a response becomes an API error carrying its status and body message. Any other failure becomes the unexpected error. |
| Resolvers.StatusInMessage | backend/src/resolvers.ts:61 | An API error message starts with "GitHub API error (". `parseInt` of the text after that prefix is the status. |
| Resolvers.ApiErrorStatusDetermined | backend/src/resolvers.ts:61 | Two API errors with the same message have the same status. |
| Resolvers.HooksOutcome | backend/src/resolvers.ts:86 | The un-awaited webhook promise as GraphQL later resolves it: the active hooks, or `None` when the request failed. |
| Resolvers.ScanRepo | backend/src/resolvers.ts:67-88 | The scan first requests the tree; a failed tree request fails the scan and nothing else is sent. With a tree, the file count is the number of blob positions. Without a YAML blob, the scan next sends the hooks request. With a YAML blob, the scan requests the first one's contents: a failure there fails the scan before the hooks request; success stores the contents and sends the hooks request last. The webhook field is the active hooks, or `None` if that request failed. |
| Resolvers.GetRepositoryDetails | backend/src/resolvers.ts:29-65 | The metadata request is always sent first. A failure there is classified and stops. Otherwise the scan runs on the reported owner and name. A scan failure is classified the same way. Success combines the metadata fields with the scan's count, contents and webhooks. |
| Api.ListReposRequest | backend/src/resolvers.ts:134-143 | The listing request: `/user/repos` with the JSON media type, the token header, and `page` and `per_page` parameters. |
| Api.RepoRequest | backend/src/resolvers.ts:35-42 | The metadata request for `/repos/owner/repo`. |
| Api.TreeRequest | backend/src/resolvers.ts:68-75 | The recursive tree request for `HEAD`, with the v3 media type. |
| Api.ContentRequest | backend/src/resolvers.ts:91-95 | The contents request for one path, with the token header only. |
| Api.HooksRequest | backend/src/resolvers.ts:100-108 | The hooks request for `/repos/owner/repo/hooks`. |

## Left out

- The HTTP client, `p-limit` (the concurrency cap on scans), `dotenv`, and the `console` logging are not modelled. The network is the `Upstream` parameter; the cap only affects timing, and logging has no effect on results.
- Base64 decoding of file contents is left out. The contents endpoint's reply is taken to be the decoded text.
- Url.HasScheme: `new URL` is reduced to the URL standard's input cleanup followed by its scheme test. The cleanup strips leading and trailing C0 controls and spaces and removes every tab and newline. A URL with a valid scheme that the URL standard rejects for another reason, such as a malformed host, counts as accepted.
- Url.SearchParam: `searchParams.get` does no percent-decoding and no `+`-to-space conversion here. The value is the raw text after `name=`.
- Url.PageOf: the `page` value is the raw, undecoded text after `page=`, for the reason given for `Url.SearchParam`.
- Numbers.ParseInt: it reads only an optional sign and decimal digits after leading whitespace. Values beyond double precision are not rounded to the nearest double, as JavaScript numbers would be.
- GraphQL's 32-bit `Int` range and the `ID` scalar are not modelled. Numbers are unbounded integers, and webhook ids are strings, as `types.ts` declares them.
- An explicit `null` for `page` or `perPage` is not modelled. The model treats an absent argument as its default, 1 or 30. The schema's own defaults make a `null` argument rare in practice.
- Upstream payloads of the wrong shape are not modelled. Examples: a missing `tree`, an item without `owner`, or a body `message` that is not a string. Only an absent `message` is modelled, and it renders as `undefined`.
- A relation name of `__proto__` is not modelled. In the source, storing such a link would set the map object's prototype instead of adding a key.
- What GraphQL does with a `lastPage` of `NaN` is not modelled. The schema declares the field `Int!`, so serialising `NaN` would fail the query. The model stops at the resolver's value, written `None`.
- Strings are sequences of Unicode code points, not JavaScript's UTF-16 code units, so a lone surrogate cannot be represented. Every separator and test in the code is an ASCII character or a single code point of the Basic Multilingual Plane, so nothing here depends on the difference.
- The GraphQL schema and server wiring (`schema.ts`, `index.ts`) and the frontend are not part of this model.
- `currentPage <= lastPage` need not hold, because the code echoes the requested page whatever the header says. `Pagination.CurrentPageCanExceedLastPage` shows a case.
