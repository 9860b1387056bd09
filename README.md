# Article service handlers, response codes and bearer authentication

This is a Dafny model of the decision logic in a small gRPC article service. The service stores articles and adds author data to each one. It gets that data from a separately deployed user service. Three parts are modelled:

- **The request handlers** (`internal/server/article_server.go`): `CreateArticle`, `GetArticle`, `GetArticleWithUser`, `UpdateArticle`, `DeleteArticle` and `ListArticles`. Module `Server`, class `ArticleServer`.
  - The handlers run against `ArticleStore` (module `Repository`), a map-backed store behind the `ArticleRepository` interface.
  - The user service is an oracle `int32 -> Lookup`. A lookup either finds the user or fails with a gRPC status code.
  - Handlers that only read the store (`GetArticleWithUser`, `GetArticle`) are functions with `reads repo`.
  - Handlers that write to it (`CreateArticle`, `UpdateArticle`, `DeleteArticle`) are methods with `modifies repo`.
  - `ListArticles` is a method. Its enrichment loop is the method `EnrichRows`, with the loop's invariant.
- **The response envelopes** (`internal/response/grpc_response.go`). Module `Response` covers:
  - the `{code, message, data}` constructors;
  - the total mapping from the seventeen canonical gRPC codes to the string codes `000`…`016`;
  - the per-code hint that `GRPCError` appends to a message.
- **Bearer-credential extraction** (`internal/auth/auth.go`). Module `Auth` covers:
  - the `Authorization: Bearer <token>` scheme of section 2.1 of RFC 6750, matched as a case-sensitive prefix;
  - the order of the checks: extract, then validate, then ask the blacklist.

  Token validation (JWT with HMAC) and the blacklist checker are oracles.

Supporting modules:

- `Wrappers` (Option, Result).
- `GoInts`: int32, int64 and uint64 as subset types, Go's truncating conversion `Wrap32`, Go's truncating division, and `%d` formatting.
- `GoStrings`: `HasPrefix`, `TrimPrefix`, `Contains`.
- `GrpcStatus`: the canonical codes and a status value.
- `Proto`: the protocol messages.
- `UserService`: the user record and the lookup result.

Modelling choices:

- **Driver failures.** The store has a map `faults` from operation kind to a driver error text. While an operation kind is in `faults`, that repository call fails with that text. This makes every error branch of the handlers reachable in one sequential call.
  - The handlers tell "not found" from other failures only by whether the error text contains `no rows`, and the model does the same. So a driver error whose text happens to contain `no rows` is treated as not-found, exactly as in the source.
- **Row order.** `order` is one fixed row order standing for `ORDER BY created_at DESC`: a new article goes first. Rows with equal `created_at` have no defined order in the source, and ties are not modelled. Nothing else depends on the order.
- **Oracles.** The user service, token validation (with the service's secret already applied) and the blacklist are functions fixed for the length of one call. The clock is a parameter `now` on the handlers that write a timestamp.
- **Integers.** The model uses unbounded integers restricted to Go's widths. The source's int32 wrap-around is written out where it matters (see Findings).

Behaviour of the code that its comments or neighbouring code suggest otherwise (the model follows the code):

- **`DeadlineExceeded` on create.** `CreateArticle` passes `DeadlineExceeded` on to its envelope (`article_server.go` line 93), and `MapGRPCCodeToString` has no case for that code. A user-service timeout during creation therefore reaches the caller as `002` (unknown), while an unavailable user service gives `015` (`Server.CreateTimeoutReadsAsUnknown`).
- **No retry on create.** `CreateArticle` looks the author up exactly once. Only the deprecated `CreateArticleOld` calls `GetUserWithRetry` (line 201).
- **`DeleteArticle` payload.** The comment on line 270 says DeleteArticle "returns the deleted article data", but line 292 returns only `Success: true`.
- **Blacklist failures fail closed.** A failing blacklist check rejects the request (`auth.go` line 101), although the comment on line 99 says "don't fail - fail open".
- **Repeated hints.** Several `GetArticleWithUser` messages already end in advice, and `GRPCError` appends the code's hint on top. For example, the Internal messages carry "Contact support if the issue persists." twice.

## Model

| member | source | states |
|---|---|---|
| `Response.MapGRPCCodeToString` | internal/response/grpc_response.go:139-160 | total on all seventeen codes; always a declared string code; `000` exactly for OK; `002` exactly for the codes without a case of their own (DeadlineExceeded among them); `016` never produced |
| `Response.NamedCodes` | internal/response/grpc_response.go:11-22 | the eight named cases give OK→000, InvalidArgument→003, NotFound→005, AlreadyExists→006, PermissionDenied→007, Unauthenticated→014, Unavailable→015, Internal→013, and DeadlineExceeded→002 |
| `Response.NamedCodesDistinct` | internal/response/grpc_response.go:140-156 | two different named codes never share a string code |
| `Response.CreateArticleSuccess` | internal/response/grpc_response.go:26-34 | code `000`, message `success`, payload holds the given article unchanged |
| `Response.GetArticleSuccess` | internal/response/grpc_response.go:36-44 | code `000`, message `success`, payload holds the given article-with-user unchanged |
| `Response.GetArticleSuccessWithMessage` | internal/response/grpc_response.go:48-56 | code `000`, the given message, payload holds the given article-with-user |
| `Response.UpdateArticleSuccess` | internal/response/grpc_response.go:58-66 | code `000`, message `success`, payload holds the given article |
| `Response.DeleteArticleSuccess` | internal/response/grpc_response.go:68-76 | code `000`, message `success`, payload is `Success: true` and carries no article |
| `Response.ListArticlesSuccess` | internal/response/grpc_response.go:78-89 | code `000`, message `success`, articles, total, page and total pages copied verbatim |
| `Response.CreateArticleError` | internal/response/grpc_response.go:94-100 | code is `MapGRPCCodeToString(code)`, message unchanged, no data |
| `Response.GetArticleError` | internal/response/grpc_response.go:103-109 | code is `MapGRPCCodeToString(code)`, message unchanged, no data |
| `Response.UpdateArticleError` | internal/response/grpc_response.go:112-118 | code is `MapGRPCCodeToString(code)`, message unchanged, no data |
| `Response.DeleteArticleError` | internal/response/grpc_response.go:121-127 | code is `MapGRPCCodeToString(code)`, message unchanged, no data |
| `Response.ListArticlesError` | internal/response/grpc_response.go:130-136 | code is `MapGRPCCodeToString(code)`, message unchanged, no data |
| `Response.ErrorNeverReadsAsSuccess` | internal/response/grpc_response.go:94-142 | for every code other than OK, no error envelope carries the success code, and none carries data |
| `Response.Hint` | internal/response/grpc_response.go:165-179 | hint non-empty exactly for InvalidArgument, NotFound, Unauthenticated, PermissionDenied and Internal; a non-empty hint starts with a space |
| `Response.GRPCError` | internal/response/grpc_response.go:163-182 | for an error code (every code the handlers pass; OK is under "## Left out"), the status has the given code and the message `message + Hint(code)` |
| `Response.GRPCErrorKeepsMessage` | internal/response/grpc_response.go:163-182 | GRPCError only appends: the given message is a prefix of the status message, which is unchanged exactly when the code has no hint |
| `Response.GRPCErrorWithCode` | internal/response/grpc_response.go:184-187 | identical to `GRPCError` on every input |
| `GoStrings.TrimPrefix` | internal/auth/auth.go:60-63 | with the prefix present, prefix + result is the input; otherwise the input unchanged; for a non-empty prefix the result equals the input exactly when the prefix is absent |
| `Auth.ExtractTokenFromContext` | internal/auth/auth.go:49-66 | only error is the missing token; succeeds exactly when there is metadata, at least one `authorization` value, and the first starts with the case-sensitive `"Bearer "`; the token is that value minus its first 7 characters |
| `Auth.GetUserIDFromContext` | internal/auth/auth.go:68-80 | succeeds exactly when a token is extracted and validates, returning the claims' user id; a validation error is returned as is; no token gives the missing-token error |
| `Auth.GetUserIDFromContextWithBlacklist` | internal/auth/auth.go:82-109 | no token gives the missing-token error; succeeds exactly when validation succeeds and the blacklist says "not listed", and then returns the same id as `GetUserIDFromContext`; `ErrTokenBlacklisted` exactly when validated and listed; a checker error exactly when validated and the checker failed (fails closed) |
| `Auth.BlacklistNotConsultedWithoutValidToken` | internal/auth/auth.go:85-95 | when extraction or validation fails, that error is the result whatever any blacklist would answer |
| `Auth.OnlyFirstValueConsulted` | internal/auth/auth.go:55-60 | two requests with the same first `authorization` value give the same extraction result |
| `Auth.BareBearerYieldsEmptyToken` | internal/auth/auth.go:60-65 | the header `"Bearer "` yields the empty token and no error |
| `Auth.LowerCaseSchemeIsMissingToken` | internal/auth/auth.go:60-63 | a header starting with lower-case `"bearer "` is a missing token |
| `Repository.Select` | internal/repository/article_postgres.go:128-165 | the selected rows are stored articles that match the filter, no more of them than the ids |
| `Repository.SelectAll` | internal/repository/article_postgres.go:178-214 | without a filter, one row per id, in id order |
| `Repository.SelectComplete` | internal/repository/article_postgres.go:128-165 | every article that matches the filter is selected |
| `Repository.Window` | internal/repository/article_postgres.go:135 | one page holds `min(limit, max(0, rows - offset))` rows, row k being row offset + k |
| `Repository.RemoveId` | internal/repository/article_postgres.go:113-114 | removes exactly the given id and keeps the ids distinct; an id that is absent leaves the ids unchanged |
| `Repository.RemoveIdKeepsOrder` | internal/repository/article_postgres.go:113-114 | removing an id that occurs once, at position k, gives the ids before k followed by the ids after k |
| `Repository.SelectDistinct` | internal/repository/article_postgres.go:128-165 | over distinct ids naming their own rows, every selected row's id is one of the ids and no article is selected twice |
| `Repository.SelectCount` | internal/repository/article_postgres.go:167-170 | over distinct ids naming their own rows, the selection has exactly as many rows as there are ids of stored matching articles (the `COUNT(*)` with the same filter) |
| `Repository.DistinctCovering` | internal/repository/article_postgres.go:216-219 | a table whose keys are listed once each has as many rows as the list (the count of all rows) |
| `Repository.ArticleStore.constructor` | internal/repository/article_repository.go:9-27 | an empty, valid store without faults |
| `Repository.ArticleStore.GetByID` | internal/repository/article_postgres.go:24-51 | the stored article if present; a "query article failed: no rows in result set" error if absent; the driver's error under a fault |
| `Repository.ArticleStore.Create` | internal/repository/article_postgres.go:54-80 | on success inserts a fresh id with the given title, content and author at the front of the listing order; on failure nothing changes |
| `Repository.ArticleStore.Update` | internal/repository/article_postgres.go:83-110 | on success sets title, content and update time of the existing row only; a missing row or a fault changes nothing |
| `Repository.ArticleStore.Delete` | internal/repository/article_postgres.go:113-125 | on success removes exactly that row; zero rows affected is the "article with ID n not found" error; on failure nothing changes |
| `Repository.ArticleStore.Listing` | internal/repository/article_postgres.go:128-175 | every row is a stored article matching the filter, every stored article matching the filter is a row, no article appears twice, and there are exactly as many rows as stored articles matching the filter (at most `MaxInt32`) |
| `Repository.ArticleStore.List` | internal/repository/article_postgres.go:128-225 | succeeds exactly without a fault, and a fault gives "query articles failed: " and the driver's text; the total is the listing's size; with non-negative limit and offset the page is the window of the listing, and with a negative one it is empty, because the database's refusal is raised while the rows stream and the repository never calls `rows.Err()` |
| `Repository.ArticleStore.ListByUser` | internal/repository/article_postgres.go:128-175 | succeeds exactly without a fault; total is the size of the author's listing; a negative limit or offset gives an empty page; otherwise a page of length `min(limit, max(0, total - offset))` whose row k is the author's listing row offset + k, each by that author |
| `Repository.ArticleStore.ListByUserCountsAuthor` | internal/repository/article_postgres.go:167-174 | the total ListByUser reports is the number of stored articles whose author is userId, each counted once, as `COUNT(*) … WHERE user_id` counts them |
| `Repository.ArticleStore.ListAll` | internal/repository/article_postgres.go:178-225 | succeeds exactly without a fault; total is the number of stored articles; a negative limit or offset gives an empty page; otherwise a page of length `min(limit, max(0, total - offset))` whose row k is the stored article at listing position offset + k |
| `Server.ConvertUser` | internal/server/article_server.go:27-37 | nil for nil; otherwise Id, Name, Email, CreatedAt and UpdatedAt copied verbatim |
| `Server.NormalizePageSize` | internal/server/article_server.go:299-305 | result in 1..100; a size ≤ 0 becomes 10, a size > 100 becomes 100, any other is unchanged |
| `Server.NormalizePageNumber` | internal/server/article_server.go:307-310 | result ≥ 1; unchanged when already ≥ 1, otherwise 1 |
| `Server.Offset` | internal/server/article_server.go:313 | offset is `(page-1)*size` exactly and non-negative, and fits in 64 bits for every normalised page and size |
| `GoInts.Wrap32` | internal/server/article_server.go:81 | Go's `int32(x)` conversion and int32 overflow: the result is an int32 congruent to x modulo 2^32, and is x itself whenever x fits in int32 |
| `GoInts.DecimalString` | internal/server/article_server.go:87 | the `%d` text of an integer: a non-negative number gives decimal digits without a leading zero whose value is the number; a negative one gives `-` followed by the digits of its magnitude |
| `Server.OffsetAsWritten` | internal/server/article_server.go:313 | the offset as the source computes it in int32: congruent to `(page-1)*size` modulo 2^32, and equal to it whenever it fits in int32 |
| `Server.OffsetAsWrittenExactWhenSmall` | internal/server/article_server.go:313 | while the product fits in int32, the int32 computation gives the exact offset |
| `Server.OffsetOverflowWrapsToWrongRows` | internal/server/article_server.go:313 | page 42949674 of size 100: the exact offset is 4294967300, but int32 gives 4 |
| `Server.OffsetOverflowGoesNegative` | internal/server/article_server.go:313 | page 21474838 of size 100: the int32 offset is negative |
| `Server.OffsetOverflowListsNothing` | internal/server/article_server.go:313-326 | with that negative offset, a fault-free ListAll returns an empty page and the count of all stored articles, so the handler's reply is an empty `000` page |
| `Server.TotalPages` | internal/server/article_server.go:351 | `pages*size >= total` and `(pages-1)*size < total`, i.e. the ceiling of total/size, and 0 ≤ pages ≤ total |
| `Server.TotalPagesIsLeast` | internal/server/article_server.go:351 | every n with `n*size >= total` is at least TotalPages: it is the smallest such n |
| `Server.TotalPagesAsWritten` | internal/server/article_server.go:351 | the page count as the source computes it (int32 sum, Go's truncating division): the ceiling of total/size while `total + size - 1` fits in int32, and negative once the sum exceeds it (page sizes up to 100) |
| `GoInts.GoQuo` | internal/server/article_server.go:351 | Go's integer division by a positive divisor truncates toward zero: the quotient has the dividend's sign, is no larger in magnitude, and the remainder `a - q*b` has the dividend's sign and is smaller than b in magnitude |
| `Server.TotalPagesAsWrittenExactWhenSmall` | internal/server/article_server.go:351 | while `total + size - 1` fits in int32, the source's formula gives TotalPages |
| `Server.TotalPagesOverflowGoesNegative` | internal/server/article_server.go:351 | with 2147483647 rows and size 10, 214748365 pages are right but the int32 formula gives -214748364 |
| `Server.MissingArticleIsNoRows` | internal/server/article_server.go:141-145 | the store's error for an absent article is classified as "no rows" |
| `Server.VerifyCreate` | internal/server/article_server.go:59-98 | checks authentication, then title, then content, then the author lookup; any auth failure is Unauthenticated, with "token has been revoked" exactly for a blacklisted token and "authentication required" for every other auth failure; an empty title, then an empty content, is InvalidArgument; lookup NotFound→InvalidArgument, Unavailable→Unavailable, DeadlineExceeded→DeadlineExceeded, otherwise Internal; success exactly when all pass, giving `int32(userID)`, the id that was looked up |
| `Server.CreateIgnoresRequestAuthor` | internal/server/article_server.go:81-101 | the author id in the request body never influences the outcome |
| `Server.CreateLooksUpOnlyValidRequests` | internal/server/article_server.go:59-81 | when authentication, title or content fails, the outcome does not depend on the user service |
| `Server.CreateTimeoutReadsAsUnknown` | internal/server/article_server.go:91-93 | a user-service timeout during creation reaches the caller as code `002` |
| `Server.MergeField` | internal/server/article_server.go:252-259 | an empty request field keeps the stored value; a non-empty one replaces it |
| `Server.ApplyUpdate` | internal/server/article_server.go:251-262 | title and content merged field by field; id, owner and creation time unchanged; update time is now |
| `Server.UpdateIdempotent` | internal/server/article_server.go:251-262 | applying a request twice gives the same title and content as applying it once |
| `Server.ArticleServer.constructor` | internal/server/article_server.go:48-55 | the server holds exactly the given store and collaborators |
| `Server.ArticleServer.EnrichRow` | internal/server/article_server.go:336-345 | the article is unchanged; the user is nil exactly when that row's lookup failed, otherwise the converted found user |
| `Server.ArticleServer.GetArticleWithUser` | internal/server/article_server.go:133-181 | id ≤ 0 is InvalidArgument with no store result used; a "no rows" error is NotFound, any other store error Internal; on success the article is the stored one and the user is present exactly when the lookup succeeded; a stored article succeeds exactly when the lookup succeeds or fails with NotFound, Unavailable or DeadlineExceeded, otherwise Internal |
| `Server.ArticleServer.GetArticle` | internal/server/article_server.go:113-129 | id ≤ 0 is `003` with "article ID must be positive"; an error of GetArticleWithUser keeps its mapped code and message in the envelope; the envelope is `000` exactly when GetArticleWithUser succeeds, and then carries its article and author |
| `Server.ArticleServer.GetMissingArticle` | internal/server/article_server.go:113-145 | for a positive id the store does not hold (no fault), the envelope is `005` with no data |
| `Server.ArticleServer.GetArticleStorageFailure` | internal/server/article_server.go:113-148 | for a positive id while the store fails with a text not mentioning "no rows", the envelope is `013` with no data |
| `Server.ArticleServer.GetStoredArticle` | internal/server/article_server.go:113-181 | for a stored article: `000` with the stored article and its converted author when the lookup succeeds; `000` without an author when it fails with NotFound, Unavailable or DeadlineExceeded; `013` with no data for any other lookup failure |
| `Server.ArticleServer.GetArticleSurvivesUserTimeout` | internal/server/article_server.go:152-166 | for a stored article, a DeadlineExceeded or Unavailable lookup gives `000` with the article and no author, and an Internal lookup failure gives `013` |
| `Server.ArticleServer.CreateArticle` | internal/server/article_server.go:57-109 | a VerifyCreate rejection becomes the error envelope, with the store unchanged; a failed insert is Internal, with the store unchanged; otherwise exactly one fresh article with the request's title and content and the verified author is added; keeps every stored article's title and content non-empty; the new id goes first in the listing order |
| `Server.ArticleServer.UpdateArticle` | internal/server/article_server.go:233-268 | id ≤ 0, or empty title and content, is InvalidArgument before the store is read; a missing article is NotFound with nothing changed; storage failures are Internal with nothing changed; otherwise only that article changes, to ApplyUpdate of it |
| `Server.ArticleServer.DeleteArticle` | internal/server/article_server.go:271-293 | id ≤ 0 is InvalidArgument; a "no rows" lookup is NotFound and nothing is deleted; on success the article is absent, every other article is unchanged, the payload is `Success: true`, and a later GetArticle of that id is `005`; the id leaves the listing order, the others keep theirs |
| `Server.ArticleServer.EnrichRows` | internal/server/article_server.go:334-346 | one entry per row, in order, entry k being `EnrichRow` of row k: the row's article unchanged, with its author when that row's lookup succeeds and without when it fails |
| `Server.ArticleServer.ListArticles` | internal/server/article_server.go:297-354 | uses ListByUser exactly when the author filter is positive, otherwise ListAll; a store error is `013` with no data; otherwise one entry per returned row, in order, each row's article unchanged, its user from that row's lookup alone; `min(size, max(0, total - offset))` entries; total copied; page is the normalised page; total pages is the ceiling (the exact offset and page count: see "## Left out") |

## Findings

| source | as written | input that shows it | evidently intended | confidence | as-written member | corrected member |
|---|---|---|---|---|---|---|
| internal/server/article_server.go:313 | `offset := (pageNumber - 1) * pageSize` is computed in int32 and wraps | page_size 100, page_number 42949674: offset 4 instead of 4294967300, so the wrong rows come back labelled as that page; page_number 21474838 gives a negative offset, which the database refuses while the rows stream; the repository does not see that error and the reply is an empty `000` page, as in the model | the exact offset `(pageNumber-1)*pageSize` | not executed; high (Go's int32 multiplication wraps) | `Server.OffsetOverflowWrapsToWrongRows` | `Server.Offset` |
| internal/server/article_server.go:351 | `(total + pageSize - 1) / pageSize` is computed in int32 and wraps | total 2147483647, page size 10: -214748364 pages instead of 214748365 | the ceiling of total / pageSize | not executed; low (needs more than 2147483548 matching rows) | `Server.TotalPagesOverflowGoesNegative` | `Server.TotalPages` |

`Server.OffsetAsWritten` and `Server.TotalPagesAsWritten` are the formulas as written. `Server.ArticleServer.ListArticles` uses the corrected `Offset` (a 64-bit offset passed to the store) and `TotalPages`.

## Left out

- Response.GRPCError and Response.GRPCErrorWithCode: for code OK, grpc-go's `status.Error` (`grpc_response.go` line 181) returns nil, meaning no error, while the model returns a status with code OK. No handler passes OK, so the handlers are unaffected.
- `CreateArticleOld` and its retry call `GetUserWithRetry`: the handler is deprecated, and the retry and backoff implementation is not part of this model.
- `ValidateToken`: JWT parsing and HMAC verification belong to the JWT library. Token validation is an oracle that returns claims or a token error.
- The redis-backed blacklist checker is an oracle returning listed, not listed, or an error.
- The user-service client: the gRPC dial, the 5 s connect timeout, the 2 s per-call deadline, and how `status.Convert` unwraps a wrapped error. A lookup is an oracle returning the user or a status code, fixed for the length of one call. Two rows with the same author therefore see the same answer within one listing.
- The SQL text, row scanning, RFC 3339 timestamp formatting, connection pools, configuration, process start-up and logging.
  - Timestamps are opaque strings supplied as the parameter `now`.
  - Non-canonical gRPC code values (outside 0 to 16) are not modelled.
- Concurrency of the gRPC server: each handler is one sequential call.
  - A row that disappears between `GetByID` and `Update` or `Delete` is not modelled. Neither is a concurrent writer.
  - These handler branches can still be reached through the modelled driver faults.
- Repository.ArticleStore.List, ListByUser and ListAll: a driver fault stands for an error that `db.Query` returns when the page query is sent, and it fails the call. The repository never calls `rows.Err()`, so an error raised while the rows stream ends the page early without failing the call. The model covers that only for the negative limit or offset the database refuses, as an empty page; a page cut short at some later row is not modelled.
- Repository.ArticleStore.ListAll and Repository.ArticleStore.ListByUser: the page query and the `COUNT(*)` query are one step. A single fault covers both, so a failure of the count after a successful page query is not told apart.
- Server.ArticleServer.ListArticles: it asks the store with the exact offset `Server.Offset` and reports the exact ceiling `Server.TotalPages`. The source uses the int32 values of lines 313 and 351, which `Server.OffsetAsWritten` and `Server.TotalPagesAsWritten` model. On inputs where those wrap, the model's reply differs from the source's:
  - page 42949674 at size 100: the source returns rows 5 to 104 under that page number, and the model returns an empty page;
  - more than `MaxInt32 - size + 1` matching rows: the source reports a negative page count.

  Page 21474838 at size 100 also wraps, to a negative offset, but there the two replies agree. The repository does not see the database's refusal of that offset, so the source's reply is an empty `000` page too (`Server.OffsetOverflowListsNothing`).

  The store's `offset` parameter is widened from int32 to int64 to carry the exact value. Where the int32 values do not wrap, the two agree (`Server.OffsetAsWrittenExactWhenSmall`, `Server.TotalPagesAsWrittenExactWhenSmall`).
- The `int32(userID)` conversion in `CreateArticle` is modelled as Go's truncating conversion `Wrap32`. The `%d` in the "user with ID %d not found" message prints the untruncated uint64 id, as the source does.
