/** The article service's request handlers: validation cascades that end in a response code,
    author enrichment with graceful degradation, the partial-update merge and pagination. */
module Server {
  import opened Wrappers
  import opened GoInts
  import opened GoStrings
  import opened GrpcStatus
  import opened Proto
  import opened Response
  import opened Auth
  import opened Repository
  import UserService

  const DefaultPageSize: int32 := 10
  const MaxPageSize: int32 := 100
  /** The text by which a storage error is recognised as "not found". */
  const ErrNoRows: string := "no rows"

  /** The author as the article service returns it: the five fields copied, nil for nil. */
  function ConvertUser(u: Option<UserService.User>): (r: Option<User>)
    ensures r.Some? <==> u.Some?
    ensures u.Some? ==> && r.value.id == u.value.id && r.value.name == u.value.name
                        && r.value.email == u.value.email && r.value.createdAt == u.value.createdAt
                        && r.value.updatedAt == u.value.updatedAt
  {
    match u
    case None => None
    case Some(v) => Some(User(v.id, v.name, v.email, v.createdAt, v.updatedAt))
  }

  // ----- Pagination -----

  /** The page size actually used: 10 for a missing or non-positive size, at most 100. */
  function NormalizePageSize(requested: int32): (size: int32)
    ensures 1 <= size <= MaxPageSize
    ensures requested <= 0 ==> size == DefaultPageSize
    ensures requested > MaxPageSize ==> size == MaxPageSize
    ensures 0 < requested <= MaxPageSize ==> size == requested
  {
    var size := if requested <= 0 then DefaultPageSize else requested;
    if size > MaxPageSize then MaxPageSize else size
  }

  /** The page number actually used: pages are counted from 1. */
  function NormalizePageNumber(requested: int32): (page: int32)
    ensures page >= 1
    ensures requested >= 1 ==> page == requested
    ensures requested < 1 ==> page == 1
  {
    if requested < 1 then 1 else requested
  }

  lemma MulMonotone(a: int, b: int, c: int)
    requires a <= b && c >= 0
    ensures a * c <= b * c
  {
  }

  /** The product of a page index and a page size is non-negative and fits in 64 bits. */
  lemma OffsetFits(p: int, size: int)
    requires 0 <= p <= MaxInt32 && 1 <= size <= MaxPageSize
    ensures 0 <= p * size <= MaxInt32 * MaxPageSize
  {
    MulMonotone(0, p, size);
    MulMonotone(p, MaxInt32, size);
    assert MaxInt32 * size <= MaxInt32 * MaxPageSize;
  }

  /** The offset of a page's first row, computed without overflow (the corrected form of the
      int32 product; see OffsetAsWritten). */
  function Offset(page: int32, size: int32): (offset: int64)
    requires page >= 1 && 1 <= size <= MaxPageSize
    ensures offset >= 0
    ensures offset == (page - 1) * size
  {
    OffsetFits(page - 1, size);
    (page - 1) * size
  }

  /** The offset as the handler computes it: an int32 product, which wraps. */
  function OffsetAsWritten(page: int32, size: int32): (offset: int32)
    requires page >= 1
    ensures (offset - (page - 1) * size) % TwoTo32 == 0
    ensures MinInt32 <= (page - 1) * size <= MaxInt32 ==> offset == (page - 1) * size
  {
    Wrap32((page - 1) * size)
  }

  /** While the product fits in int32 the handler's offset is the right one. */
  lemma OffsetAsWrittenExactWhenSmall(page: int32, size: int32)
    requires page >= 1 && 1 <= size <= MaxPageSize && (page - 1) * size <= MaxInt32
    ensures OffsetAsWritten(page, size) == Offset(page, size)
  {
  }

  /** Page 42949674 of size 100 starts at row 4294967300, but the int32 product wraps to 4:
      the handler returns rows 5 to 104 and labels them page 42949674. */
  lemma OffsetOverflowWrapsToWrongRows()
    ensures Offset(42949674, 100) == 4294967300
    ensures OffsetAsWritten(42949674, 100) == 4
  {
  }

  /** Page 21474838 of size 100 wraps to a negative offset. */
  lemma OffsetOverflowGoesNegative()
    ensures OffsetAsWritten(21474838, 100) < 0
  {
  }

  /** With that negative offset the store's page query fails while running, the repository does
      not see the failure, and the listing comes back as an empty page with the full count. */
  lemma OffsetOverflowListsNothing(store: ArticleStore)
    requires store.Valid() && ListAllOp !in store.faults
    ensures store.ListAll(100, OffsetAsWritten(21474838, 100)) == Ok(([], |store.articles|))
  {
    OffsetOverflowGoesNegative();
  }

  lemma {:induction false} CeilingDivision(t: int, p: int)
    requires t >= 0 && p >= 1
    ensures (t + p - 1) / p * p >= t
    ensures ((t + p - 1) / p - 1) * p < t
    ensures 0 <= (t + p - 1) / p <= t
  {
    var q, r := (t + p - 1) / p, (t + p - 1) % p;
    assert t + p - 1 == q * p + r && 0 <= r < p;
    assert q * p >= t;
    assert (q - 1) * p == q * p - p;
    assert (q - 1) * p < t;
    if q > t {
      MulMonotone(t, q - 1, p);
      assert t * p <= (q - 1) * p;
      MulMonotone(1, p, t);
      assert false;
    }
  }

  /** The number of pages: the least n whose n pages of size hold all total rows. */
  function TotalPages(total: int32, size: int32): (pages: int32)
    requires total >= 0 && 1 <= size <= MaxPageSize
    ensures pages * size >= total
    ensures (pages - 1) * size < total
    ensures 0 <= pages <= total
  {
    CeilingDivision(total, size);
    (total + size - 1) / size
  }

  /** No smaller number of pages can hold the rows: TotalPages is ceil(total / size). */
  lemma TotalPagesIsLeast(total: int32, size: int32, n: int)
    requires total >= 0 && 1 <= size <= MaxPageSize
    requires n * size >= total
    ensures n >= TotalPages(total, size)
  {
    var pages := TotalPages(total, size);
    if n < pages {
      MulMonotone(n, pages - 1, size);
      assert false;
    }
  }

  /** A sum just above the int32 range wraps to the bottom of it. */
  lemma WrapJustAbove(x: int)
    requires MaxInt32 < x <= MaxInt32 + MaxPageSize
    ensures Wrap32(x) == x - TwoTo32
  {
  }

  /** Go's division of a negative number by a smaller positive one is negative. */
  lemma QuoOfNegative(a: int, b: int)
    requires b > 0 && a <= -b
    ensures GoQuo(a, b) < 0
  {
    NatDivision(-a, b);
  }

  /** The page count as the handler computes it: the sum total + size - 1 is an int32 and wraps,
      and Go's division truncates toward zero. */
  function TotalPagesAsWritten(total: int32, size: int32): (pages: int32)
    requires 1 <= size
    ensures total >= 0 && total + size - 1 <= MaxInt32 ==> pages * size >= total && (pages - 1) * size < total
    ensures total >= 0 && size <= MaxPageSize && total + size - 1 > MaxInt32 ==> pages < 0
  {
    var sum := Wrap32(total + size - 1);
    if total >= 0 && total + size - 1 <= MaxInt32 then
      CeilingDivision(total, size);
      GoQuo(sum, size)
    else if total >= 0 && size <= MaxPageSize && total + size - 1 > MaxInt32 then
      WrapJustAbove(total + size - 1);
      QuoOfNegative(sum, size);
      GoQuo(sum, size)
    else
      GoQuo(sum, size)
  }

  lemma TotalPagesAsWrittenExactWhenSmall(total: int32, size: int32)
    requires total >= 0 && 1 <= size <= MaxPageSize && total + size - 1 <= MaxInt32
    ensures TotalPagesAsWritten(total, size) == TotalPages(total, size)
  {
  }

  /** With 2147483647 rows and pages of 10 the sum wraps and the handler reports a negative
      number of pages instead of 214748365. */
  lemma TotalPagesOverflowGoesNegative()
    ensures TotalPages(MaxInt32, 10) == 214748365
    ensures TotalPagesAsWritten(MaxInt32, 10) == -214748364
  {
  }

  // ----- Error classification -----

  /** A storage error that the handlers treat as "not found": its text mentions "no rows". */
  predicate IsNoRows(e: RepoError) {
    Contains(e.message, ErrNoRows)
  }

  /** The store's answer for a missing article is recognised as "not found". */
  lemma MissingArticleIsNoRows(store: ArticleStore, id: int32)
    ensures GetByIDOp !in store.faults && id !in store.articles ==>
              store.GetByID(id).Err? && IsNoRows(store.GetByID(id).error)
  {
    ContainsAfter(QueryArticleFailed, NoRowsText, ErrNoRows);
  }

  /** The author-lookup failures GetArticleWithUser absorbs, returning the article without author. */
  predicate Degradable(code: Code) {
    code == NotFound || code == Unavailable || code == DeadlineExceeded
  }

  // ----- CreateArticle before the store -----

  /** Everything CreateArticle decides before it writes: authentication, then the title, then the
      content, then the author's existence. The result is the author id to store, or the code and
      message of the rejection. */
  function VerifyCreate(auth: Result<uint64, AuthError>, req: CreateArticleRequest,
                        lookup: int32 -> UserService.Lookup): (r: Result<int32, Status>)
    ensures auth.Err? ==> r.Err? && r.error.code == Unauthenticated
    ensures auth.Err? ==> (r.error.message == "token has been revoked" <==> auth.error == TokenBlacklisted)
    ensures auth.Err? && auth.error != TokenBlacklisted ==> r == Err(Status(Unauthenticated, "authentication required"))
    ensures auth.Ok? && req.title == "" ==> r == Err(Status(InvalidArgument, "title is required"))
    ensures auth.Ok? && req.title != "" && req.content == "" ==>
              r == Err(Status(InvalidArgument, "content is required"))
    ensures r.Ok? <==> auth.Ok? && req.title != "" && req.content != "" && lookup(Wrap32(auth.value)).Found?
    ensures r.Ok? ==> r.value == Wrap32(auth.value)
    ensures auth.Ok? && req.title != "" && req.content != "" ==>
              var looked := lookup(Wrap32(auth.value));
              && (looked == UserService.Failed(NotFound) ==>
                    r == Err(Status(InvalidArgument, "user with ID " + DecimalString(auth.value) + " not found")))
              && (looked == UserService.Failed(Unavailable) ==> r.Err? && r.error.code == Unavailable)
              && (looked == UserService.Failed(DeadlineExceeded) ==> r.Err? && r.error.code == DeadlineExceeded)
              && ((looked.Failed? && looked.code != NotFound && looked.code != Unavailable
                   && looked.code != DeadlineExceeded) ==> r == Err(Status(Internal, "failed to verify user")))
  {
    match auth
    case Err(e) =>
      if e == TokenBlacklisted then Err(Status(Unauthenticated, "token has been revoked"))
      else Err(Status(Unauthenticated, "authentication required"))
    case Ok(userID) =>
      if req.title == "" then Err(Status(InvalidArgument, "title is required"))
      else if req.content == "" then Err(Status(InvalidArgument, "content is required"))
      else
        match lookup(Wrap32(userID))
        case Found(_) => Ok(Wrap32(userID))
        case Failed(code) =>
          if code == NotFound then
            Err(Status(InvalidArgument, "user with ID " + DecimalString(userID) + " not found"))
          else if code == Unavailable then
            Err(Status(Unavailable, "user service is currently unavailable, please try again later"))
          else if code == DeadlineExceeded then
            Err(Status(DeadlineExceeded, "request timeout while verifying user"))
          else Err(Status(Internal, "failed to verify user"))
  }

  /** The author id in the request body is never read: the token decides the author. */
  lemma CreateIgnoresRequestAuthor(auth: Result<uint64, AuthError>, req: CreateArticleRequest,
                                   lookup: int32 -> UserService.Lookup, other: int32)
    ensures VerifyCreate(auth, req, lookup) == VerifyCreate(auth, req.(userId := other), lookup)
  {
  }

  /** The user service is asked only once authentication, title and content have passed. */
  lemma CreateLooksUpOnlyValidRequests(auth: Result<uint64, AuthError>, req: CreateArticleRequest,
                                       l1: int32 -> UserService.Lookup, l2: int32 -> UserService.Lookup)
    requires auth.Err? || req.title == "" || req.content == ""
    ensures VerifyCreate(auth, req, l1) == VerifyCreate(auth, req, l2)
  {
  }

  /** A timeout of the user service while creating reaches the caller as "002" (unknown), not as
      the "015" an unavailable user service gives. */
  lemma CreateTimeoutReadsAsUnknown(auth: Result<uint64, AuthError>, req: CreateArticleRequest,
                                    lookup: int32 -> UserService.Lookup)
    requires auth.Ok? && req.title != "" && req.content != ""
    requires lookup(Wrap32(auth.value)) == UserService.Failed(DeadlineExceeded)
    ensures VerifyCreate(auth, req, lookup).Err?
    ensures var st := VerifyCreate(auth, req, lookup).error;
            CreateArticleError(st.code, st.message).code == CodeUnknownError
  {
  }

  // ----- UpdateArticle's merge -----

  /** An empty request field keeps the stored value; a non-empty one replaces it. */
  function MergeField(requested: string, existing: string): (v: string)
    ensures requested != "" ==> v == requested
    ensures requested == "" ==> v == existing
  {
    if requested == "" then existing else requested
  }

  /** The article after a partial update at time now: its id, author and creation time stay. */
  function ApplyUpdate(existing: Article, req: UpdateArticleRequest, now: string): (a: Article)
    ensures a.title == MergeField(req.title, existing.title)
    ensures a.content == MergeField(req.content, existing.content)
    ensures a.id == existing.id && a.userId == existing.userId && a.createdAt == existing.createdAt
    ensures a.updatedAt == now
  {
    existing.(title := MergeField(req.title, existing.title),
              content := MergeField(req.content, existing.content), updatedAt := now)
  }

  /** Applying the same request twice leaves the same title and content as applying it once. */
  lemma UpdateIdempotent(existing: Article, req: UpdateArticleRequest, t1: string, t2: string)
    ensures ApplyUpdate(ApplyUpdate(existing, req, t1), req, t2).title == ApplyUpdate(existing, req, t1).title
    ensures ApplyUpdate(ApplyUpdate(existing, req, t1), req, t2).content == ApplyUpdate(existing, req, t1).content
    ensures ApplyUpdate(ApplyUpdate(existing, req, t1), req, t2) == ApplyUpdate(existing, req, t1).(updatedAt := t2)
  {
  }

  /** The gRPC server object: the store and the three collaborators. validateToken is token
      validation with the service's JWT secret; blacklist asks the revocation store. */
  class ArticleServer {
    const repo: ArticleStore
    const userClient: int32 -> UserService.Lookup
    const blacklist: string -> Result<bool, string>
    const validateToken: string -> Result<Claims, TokenError>

    constructor (repo: ArticleStore, userClient: int32 -> UserService.Lookup,
                 blacklist: string -> Result<bool, string>, validateToken: string -> Result<Claims, TokenError>)
      ensures this.repo == repo && this.userClient == userClient
      ensures this.blacklist == blacklist && this.validateToken == validateToken
    {
      this.repo := repo;
      this.userClient := userClient;
      this.blacklist := blacklist;
      this.validateToken := validateToken;
    }

    /** Every stored article has a title and a content. */
    ghost predicate ArticlesHaveText()
      reads repo
    {
      forall id :: id in repo.articles ==> repo.articles[id].title != "" && repo.articles[id].content != ""
    }

    /** The caller's user id, by the blacklist-aware extraction with this server's collaborators. */
    function Authenticate(ctx: IncomingContext): (r: Result<uint64, AuthError>) {
      GetUserIDFromContextWithBlacklist(ctx, validateToken, blacklist)
    }

    /** One listing row: the article unchanged, with its author when the lookup succeeded and
        without one whatever the lookup failed with. */
    function EnrichRow(a: Article): (r: ArticleWithUser)
      ensures r.article == a
      ensures r.user.None? <==> userClient(a.userId).Failed?
      ensures userClient(a.userId).Found? ==> r.user == ConvertUser(Some(userClient(a.userId).user))
    {
      match userClient(a.userId)
      case Found(u) => ArticleWithUser(a, ConvertUser(Some(u)))
      case Failed(_) => ArticleWithUser(a, ConvertUser(None))
    }

    /** The article and its author. A missing article or a storage error fails the request; an
        author lookup failing with NotFound, Unavailable or DeadlineExceeded still succeeds,
        without the author; every other lookup failure is Internal. */
    function GetArticleWithUser(req: GetArticleRequest): (r: Result<ArticleWithUser, Status>)
      reads repo
      ensures req.id <= 0 ==>
                r == Err(GRPCError(InvalidArgument, "Article ID must be positive. Provide a valid ID greater than 0."))
      ensures req.id > 0 && repo.GetByID(req.id).Err? ==>
                r.Err? && r.error.code == (if IsNoRows(repo.GetByID(req.id).error) then NotFound else Internal)
      ensures r.Ok? ==> req.id > 0 && repo.GetByID(req.id) == Ok(r.value.article)
      ensures r.Ok? ==> (r.value.user.Some? <==> userClient(r.value.article.userId).Found?)
      ensures r.Ok? && r.value.user.Some? ==> r.value.user == ConvertUser(Some(userClient(r.value.article.userId).user))
      ensures req.id > 0 && repo.GetByID(req.id).Ok? ==>
                var looked := userClient(repo.GetByID(req.id).value.userId);
                && (r.Ok? <==> looked.Found? || Degradable(looked.code))
                && (r.Err? ==> r.error.code == Internal)
    {
      if req.id <= 0 then
        Err(GRPCError(InvalidArgument, "Article ID must be positive. Provide a valid ID greater than 0."))
      else
        match repo.GetByID(req.id)
        case Err(e) =>
          if IsNoRows(e) then Err(GRPCError(NotFound, "Article not found. Verify the article ID exists."))
          else Err(GRPCError(Internal, "Failed to get article. Contact support if the issue persists."))
        case Ok(article) =>
          match userClient(article.userId)
          case Failed(code) =>
            if Degradable(code) then Ok(ArticleWithUser(article, None))
            else Err(GRPCError(Internal, "Failed to get user from user service. Contact support if the issue persists."))
          case Found(u) => Ok(ArticleWithUser(article, ConvertUser(Some(u))))
    }

    /** The GetArticle envelope, by wire code: a missing article is "005", a storage failure
        "013" (unless its text contains "no rows", which reads as missing), a stored article is "000" with its author exactly when the lookup succeeded, and an
        unexpected lookup failure is "013". Errors of GetArticleWithUser keep code and message. */
    function GetArticle(req: GetArticleRequest): (r: Envelope<GetArticleData>)
      reads repo
      ensures req.id <= 0 ==> r == GetArticleError(InvalidArgument, "article ID must be positive")
      ensures req.id > 0 && GetArticleWithUser(req).Err? ==>
                r == GetArticleError(GetArticleWithUser(req).error.code, GetArticleWithUser(req).error.message)
      ensures r.code == CodeSuccess <==> req.id > 0 && GetArticleWithUser(req).Ok?
      ensures r.code == CodeSuccess ==> r.data == Some(GetArticleData(GetArticleWithUser(req).value))
    {
      if req.id <= 0 then GetArticleError(InvalidArgument, "article ID must be positive")
      else
        match GetArticleWithUser(req)
        case Err(st) => GetArticleError(st.code, st.message)
        case Ok(article) => GetArticleSuccess(article)
    }

    /** GetArticle of a positive id the store does not hold is "005". */
    lemma GetMissingArticle(req: GetArticleRequest)
      requires req.id > 0 && GetByIDOp !in repo.faults && req.id !in repo.articles
      ensures GetArticle(req).code == CodeNotFound && GetArticle(req).data.None?
    {
      MissingArticleIsNoRows(repo, req.id);
    }

    /** GetArticle while the store fails with a text not mentioning "no rows" is "013". */
    lemma GetArticleStorageFailure(req: GetArticleRequest)
      requires req.id > 0 && GetByIDOp in repo.faults
      requires !Contains(QueryArticleFailed + repo.faults[GetByIDOp], ErrNoRows)
      ensures GetArticle(req).code == CodeInternalError && GetArticle(req).data.None?
    {
    }

    /** GetArticle of a stored article is "000" with the stored article and its author when the
        lookup succeeds, "000" without an author when the lookup degrades, and "013" for any other
        lookup failure. */
    lemma GetStoredArticle(req: GetArticleRequest)
      requires req.id > 0 && GetByIDOp !in repo.faults && req.id in repo.articles
      ensures var stored := repo.articles[req.id];
              var looked := userClient(stored.userId);
              && (looked.Found? ==>
                    GetArticle(req) == GetArticleSuccess(ArticleWithUser(stored, ConvertUser(Some(looked.user)))))
              && (looked.Failed? && Degradable(looked.code) ==>
                    GetArticle(req) == GetArticleSuccess(ArticleWithUser(stored, None)))
              && (looked.Failed? && !Degradable(looked.code) ==>
                    GetArticle(req).code == CodeInternalError && GetArticle(req).data.None?)
    {
      assert repo.GetByID(req.id) == Ok(repo.articles[req.id]);
    }

    /** A user-service timeout while enriching a stored article still answers "000", with the
        article and no author, and so does an unreachable user service; an internal failure of
        the user service does not. */
    lemma GetArticleSurvivesUserTimeout(req: GetArticleRequest)
      requires req.id > 0 && GetByIDOp !in repo.faults && req.id in repo.articles
      ensures var stored := repo.articles[req.id];
              && (userClient(stored.userId) == UserService.Failed(DeadlineExceeded) ==>
                    GetArticle(req) == GetArticleSuccess(ArticleWithUser(stored, None)))
              && (userClient(stored.userId) == UserService.Failed(Unavailable) ==>
                    GetArticle(req) == GetArticleSuccess(ArticleWithUser(stored, None)))
              && (userClient(stored.userId) == UserService.Failed(Internal) ==>
                    GetArticle(req).code == CodeInternalError)
    {
      GetStoredArticle(req);
    }

    /** Creates an article owned by the authenticated user after VerifyCreate has passed. */
    method CreateArticle(ctx: IncomingContext, req: CreateArticleRequest, now: string)
      returns (resp: Envelope<CreateArticleData>)
      requires repo.Valid()
      modifies repo
      ensures repo.Valid() && repo.faults == old(repo.faults)
      ensures old(ArticlesHaveText()) ==> ArticlesHaveText()
      ensures match VerifyCreate(Authenticate(ctx), req, userClient)
              case Err(st) => resp == CreateArticleError(st.code, st.message) && unchanged(repo)
              case Ok(author) =>
                if !old(repo.CanCreate()) then
                  resp == CreateArticleError(Internal, "failed to create article") && unchanged(repo)
                else
                  var created := Article(old(repo.nextId), req.title, req.content, author, now, now);
                  && resp == CreateArticleSuccess(created)
                  && created.id !in old(repo.articles)
                  && repo.articles == old(repo.articles)[created.id := created]
                  && repo.order == [created.id] + old(repo.order)
    {
      var verified := VerifyCreate(Authenticate(ctx), req, userClient);
      if verified.Err? {
        return CreateArticleError(verified.error.code, verified.error.message);
      }
      var article := repo.Create(req.title, req.content, verified.value, now);
      if article.Err? {
        return CreateArticleError(Internal, "failed to create article");
      }
      resp := CreateArticleSuccess(article.value);
    }

    /** Partial update: invalid requests are refused before the store is read, a missing article
        is NotFound and changes nothing, otherwise the stored article becomes ApplyUpdate of it. */
    method UpdateArticle(req: UpdateArticleRequest, now: string) returns (resp: Envelope<UpdateArticleData>)
      requires repo.Valid()
      modifies repo
      ensures repo.Valid()
      ensures repo.order == old(repo.order) && repo.nextId == old(repo.nextId) && repo.faults == old(repo.faults)
      ensures old(ArticlesHaveText()) ==> ArticlesHaveText()
      ensures req.id <= 0 ==> resp == UpdateArticleError(InvalidArgument, "article ID must be positive") && unchanged(repo)
      ensures req.id > 0 && req.title == "" && req.content == "" ==>
                resp == UpdateArticleError(InvalidArgument, "at least title or content must be provided") && unchanged(repo)
      ensures req.id > 0 && (req.title != "" || req.content != "") ==>
                match old(repo.GetByID(req.id))
                case Err(e) =>
                  && unchanged(repo)
                  && (IsNoRows(e) ==> resp == UpdateArticleError(NotFound, "article with ID " + DecimalString(req.id) + " not found"))
                  && (!IsNoRows(e) ==> resp == UpdateArticleError(Internal, "failed to check article"))
                case Ok(existing) =>
                  if UpdateOp in old(repo.faults) then
                    resp == UpdateArticleError(Internal, "failed to update article") && repo.articles == old(repo.articles)
                  else
                    && resp == UpdateArticleSuccess(ApplyUpdate(existing, req, now))
                    && repo.articles == old(repo.articles)[req.id := ApplyUpdate(existing, req, now)]
      ensures req.id > 0 && GetByIDOp !in old(repo.faults) && req.id !in old(repo.articles) ==>
                resp.code == (if req.title == "" && req.content == "" then CodeInvalidRequest else CodeNotFound)
                && unchanged(repo)
    {
      if req.id <= 0 {
        return UpdateArticleError(InvalidArgument, "article ID must be positive");
      }
      if req.title == "" && req.content == "" {
        return UpdateArticleError(InvalidArgument, "at least title or content must be provided");
      }
      var existing := repo.GetByID(req.id);
      if existing.Err? {
        MissingArticleIsNoRows(repo, req.id);
        if IsNoRows(existing.error) {
          return UpdateArticleError(NotFound, "article with ID " + DecimalString(req.id) + " not found");
        }
        return UpdateArticleError(Internal, "failed to check article");
      }
      var title := req.title;
      if title == "" {
        title := existing.value.title;
      }
      var content := req.content;
      if content == "" {
        content := existing.value.content;
      }
      var updated := repo.Update(req.id, title, content, now);
      if updated.Err? {
        return UpdateArticleError(Internal, "failed to update article");
      }
      resp := UpdateArticleSuccess(updated.value);
    }

    /** Load, then delete. A missing article is NotFound and Delete is not called; on success the
        article is gone, every other article is as before, and a later GetArticle is "005". */
    method DeleteArticle(req: DeleteArticleRequest) returns (resp: Envelope<DeleteArticleData>)
      requires repo.Valid()
      modifies repo
      ensures repo.Valid() && repo.nextId == old(repo.nextId) && repo.faults == old(repo.faults)
      ensures req.id <= 0 ==> resp == DeleteArticleError(InvalidArgument, "article ID must be positive") && unchanged(repo)
      ensures req.id > 0 ==>
                match old(repo.GetByID(req.id))
                case Err(e) =>
                  && unchanged(repo)
                  && (IsNoRows(e) ==> resp == DeleteArticleError(NotFound, "article not found"))
                  && (!IsNoRows(e) ==> resp == DeleteArticleError(Internal, "failed to check article"))
                case Ok(_) =>
                  if DeleteOp in old(repo.faults) then
                    resp == DeleteArticleError(Internal, "failed to delete article") && unchanged(repo)
                  else
                    && resp == DeleteArticleSuccess() && repo.articles == old(repo.articles) - {req.id}
                    && repo.order == RemoveId(old(repo.order), req.id)
      ensures req.id > 0 && GetByIDOp !in old(repo.faults) && req.id !in old(repo.articles) ==>
                resp.code == CodeNotFound && unchanged(repo)
      ensures resp.code == CodeSuccess ==>
                && req.id !in repo.articles
                && (forall id :: id in old(repo.articles) && id != req.id ==> id in repo.articles && repo.articles[id] == old(repo.articles[id]))
                && (GetByIDOp !in repo.faults ==> GetArticle(GetArticleRequest(req.id)).code == CodeNotFound)
      ensures old(ArticlesHaveText()) ==> ArticlesHaveText()
    {
      if req.id <= 0 {
        return DeleteArticleError(InvalidArgument, "article ID must be positive");
      }
      var existing := repo.GetByID(req.id);
      if existing.Err? {
        MissingArticleIsNoRows(repo, req.id);
        if IsNoRows(existing.error) {
          return DeleteArticleError(NotFound, "article not found");
        }
        return DeleteArticleError(Internal, "failed to check article");
      }
      var deleted := repo.Delete(req.id);
      if deleted.Err? {
        return DeleteArticleError(Internal, "failed to delete article");
      }
      GetMissingArticle(GetArticleRequest(req.id));
      resp := DeleteArticleSuccess();
    }

    /** The enrichment loop of ListArticles: each row in turn, with its author when that row's
        lookup succeeds and without one when it fails; a failure affects only its own row. */
    method EnrichRows(rows: seq<Article>) returns (enriched: seq<ArticleWithUser>)
      ensures |enriched| == |rows|
      ensures forall k :: 0 <= k < |rows| ==> enriched[k] == EnrichRow(rows[k])
    {
      enriched := [];
      for i := 0 to |rows|
        invariant |enriched| == i
        invariant forall k :: 0 <= k < i ==> enriched[k] == EnrichRow(rows[k])
      {
        var user: Option<UserService.User> := None;
        var looked := userClient(rows[i].userId);
        if looked.Found? {
          user := Some(looked.user);
        }
        enriched := enriched + [ArticleWithUser(rows[i], ConvertUser(user))];
      }
    }

    /** One page of articles, each with its author where the lookup succeeded. The author filter
        is used exactly when the request names a positive author; every row the store returns
        appears once, in order, unchanged, and a failed lookup affects only its own row. */
    method ListArticles(req: ListArticlesRequest) returns (resp: Envelope<ListArticlesData>)
      requires repo.Valid()
      ensures var size, page := NormalizePageSize(req.pageSize), NormalizePageNumber(req.pageNumber);
              var listed := if req.userId > 0 then repo.ListByUser(req.userId, size, Offset(page, size))
                            else repo.ListAll(size, Offset(page, size));
              if listed.Err? then resp == ListArticlesError(Internal, "failed to list articles")
              else
                var rows, total := listed.value.0, listed.value.1;
                && resp.code == CodeSuccess && resp.message == SuccessMessage && resp.data.Some?
                && resp.data.value.total == total
                && resp.data.value.page == page
                && resp.data.value.totalPages == TotalPages(total, size)
                && |resp.data.value.articles| == |rows| == Min(size, Max(0, total - Offset(page, size)))
                && (forall k :: 0 <= k < |rows| ==> resp.data.value.articles[k] == EnrichRow(rows[k]))
    {
      var size := NormalizePageSize(req.pageSize);
      var page := NormalizePageNumber(req.pageNumber);
      var offset := Offset(page, size);
      var listed := if req.userId > 0 then repo.ListByUser(req.userId, size, offset) else repo.ListAll(size, offset);
      if listed.Err? {
        return ListArticlesError(Internal, "failed to list articles");
      }
      var (rows, total) := listed.value;
      var enriched := EnrichRows(rows);
      resp := ListArticlesSuccess(enriched, total, page, TotalPages(total, size));
    }
  }
}
