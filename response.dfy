/** The response envelopes and the mapping from gRPC codes to the service's string codes. */
module Response {
  import opened Wrappers
  import opened GoInts
  import opened GoStrings
  import opened GrpcStatus
  import opened Proto

  const CodeSuccess: string := "000"
  const CodeUnknownError: string := "002"
  const CodeInvalidRequest: string := "003"
  const CodeNotFound: string := "005"
  const CodeAlreadyExists: string := "006"
  const CodePermissionDenied: string := "007"
  const CodeInternalError: string := "013"
  const CodeUnauthenticated: string := "014"
  const CodeServiceUnavailable: string := "015"
  const CodeUnauthorized: string := "016"

  const SuccessMessage: string := "success"

  /** The closed set of string codes the service declares. */
  const DeclaredCodes: set<string> :=
    {CodeSuccess, CodeUnknownError, CodeInvalidRequest, CodeNotFound, CodeAlreadyExists,
     CodePermissionDenied, CodeInternalError, CodeUnauthenticated, CodeServiceUnavailable,
     CodeUnauthorized}

  /** The eight gRPC codes that have a string code of their own. */
  predicate HasNamedCode(code: Code) {
    code == OK || code == InvalidArgument || code == NotFound || code == AlreadyExists
    || code == PermissionDenied || code == Unauthenticated || code == Unavailable || code == Internal
  }

  /** Every gRPC code gets a declared string code; only OK gets "000", every code without a
      string code of its own falls back to "002", and "016" is never produced. */
  function MapGRPCCodeToString(code: Code): (s: string)
    ensures s in DeclaredCodes
    ensures s != CodeUnauthorized
    ensures s == CodeSuccess <==> code == OK
    ensures s == CodeUnknownError <==> !HasNamedCode(code)
  {
    match code
    case OK => CodeSuccess
    case InvalidArgument => CodeInvalidRequest
    case NotFound => CodeNotFound
    case AlreadyExists => CodeAlreadyExists
    case PermissionDenied => CodePermissionDenied
    case Unauthenticated => CodeUnauthenticated
    case Unavailable => CodeServiceUnavailable
    case Internal => CodeInternalError
    case _ => CodeUnknownError
  }

  lemma NamedCodes()
    ensures MapGRPCCodeToString(OK) == "000"
    ensures MapGRPCCodeToString(InvalidArgument) == "003"
    ensures MapGRPCCodeToString(NotFound) == "005"
    ensures MapGRPCCodeToString(AlreadyExists) == "006"
    ensures MapGRPCCodeToString(PermissionDenied) == "007"
    ensures MapGRPCCodeToString(Unauthenticated) == "014"
    ensures MapGRPCCodeToString(Unavailable) == "015"
    ensures MapGRPCCodeToString(Internal) == "013"
    ensures MapGRPCCodeToString(DeadlineExceeded) == "002"
  {
  }

  /** No two codes with a string code of their own share one: the mapping is injective on them. */
  lemma NamedCodesDistinct(c1: Code, c2: Code)
    requires HasNamedCode(c1) && HasNamedCode(c2) && c1 != c2
    ensures MapGRPCCodeToString(c1) != MapGRPCCodeToString(c2)
  {
  }

  /** What every *Error constructor promises. */
  predicate IsErrorEnvelope<D>(e: Envelope<D>, code: Code, message: string) {
    e.code == MapGRPCCodeToString(code) && e.message == message && e.data.None?
  }

  function CreateArticleSuccess(article: Article): (r: Envelope<CreateArticleData>)
    ensures r.code == CodeSuccess && r.message == SuccessMessage
    ensures r.data == Some(CreateArticleData(article))
  {
    Envelope(CodeSuccess, SuccessMessage, Some(CreateArticleData(article)))
  }

  function GetArticleSuccess(article: ArticleWithUser): (r: Envelope<GetArticleData>)
    ensures r.code == CodeSuccess && r.message == SuccessMessage
    ensures r.data == Some(GetArticleData(article))
  {
    Envelope(CodeSuccess, SuccessMessage, Some(GetArticleData(article)))
  }

  /** The success envelope with a caller-chosen message, meant for degraded answers. */
  function GetArticleSuccessWithMessage(article: ArticleWithUser, message: string): (r: Envelope<GetArticleData>)
    ensures r.code == CodeSuccess && r.message == message
    ensures r.data == Some(GetArticleData(article))
  {
    Envelope(CodeSuccess, message, Some(GetArticleData(article)))
  }

  function UpdateArticleSuccess(article: Article): (r: Envelope<UpdateArticleData>)
    ensures r.code == CodeSuccess && r.message == SuccessMessage
    ensures r.data == Some(UpdateArticleData(article))
  {
    Envelope(CodeSuccess, SuccessMessage, Some(UpdateArticleData(article)))
  }

  /** A deletion reports only that it succeeded, not the deleted article. */
  function DeleteArticleSuccess(): (r: Envelope<DeleteArticleData>)
    ensures r.code == CodeSuccess && r.message == SuccessMessage
    ensures r.data == Some(DeleteArticleData(true))
  {
    Envelope(CodeSuccess, SuccessMessage, Some(DeleteArticleData(true)))
  }

  function ListArticlesSuccess(articles: seq<ArticleWithUser>, total: int32, page: int32, totalPages: int32)
    : (r: Envelope<ListArticlesData>)
    ensures r.code == CodeSuccess && r.message == SuccessMessage
    ensures r.data == Some(ListArticlesData(articles, total, page, totalPages))
  {
    Envelope(CodeSuccess, SuccessMessage, Some(ListArticlesData(articles, total, page, totalPages)))
  }

  function CreateArticleError(code: Code, message: string): (r: Envelope<CreateArticleData>)
    ensures IsErrorEnvelope(r, code, message)
  {
    Envelope(MapGRPCCodeToString(code), message, None)
  }

  function GetArticleError(code: Code, message: string): (r: Envelope<GetArticleData>)
    ensures IsErrorEnvelope(r, code, message)
  {
    Envelope(MapGRPCCodeToString(code), message, None)
  }

  function UpdateArticleError(code: Code, message: string): (r: Envelope<UpdateArticleData>)
    ensures IsErrorEnvelope(r, code, message)
  {
    Envelope(MapGRPCCodeToString(code), message, None)
  }

  function DeleteArticleError(code: Code, message: string): (r: Envelope<DeleteArticleData>)
    ensures IsErrorEnvelope(r, code, message)
  {
    Envelope(MapGRPCCodeToString(code), message, None)
  }

  function ListArticlesError(code: Code, message: string): (r: Envelope<ListArticlesData>)
    ensures IsErrorEnvelope(r, code, message)
  {
    Envelope(MapGRPCCodeToString(code), message, None)
  }

  /** A caller can tell every error envelope from a success envelope by its code alone, and an
      error envelope never carries data. */
  lemma ErrorNeverReadsAsSuccess(code: Code, message: string, article: ArticleWithUser)
    requires code != OK
    ensures GetArticleError(code, message).code != GetArticleSuccess(article).code
    ensures CreateArticleError(code, message).code != CodeSuccess
    ensures UpdateArticleError(code, message).code != CodeSuccess
    ensures DeleteArticleError(code, message).code != CodeSuccess
    ensures ListArticlesError(code, message).code != CodeSuccess
    ensures GetArticleError(code, message).data.None? && CreateArticleError(code, message).data.None?
    ensures UpdateArticleError(code, message).data.None? && ListArticlesError(code, message).data.None?
    ensures DeleteArticleError(code, message).data.None?
  {
  }

  /** The codes whose errors carry an advisory hint. */
  predicate HasHint(code: Code) {
    code == InvalidArgument || code == NotFound || code == Unauthenticated
    || code == PermissionDenied || code == Internal
  }

  /** The advisory text GRPCError appends; it starts with a space. */
  function Hint(code: Code): (h: string)
    ensures h != "" <==> HasHint(code)
    ensures h != "" ==> h[0] == ' '
  {
    match code
    case InvalidArgument => " Check input parameters for validity."
    case NotFound => " Verify the resource ID exists."
    case Unauthenticated => " Provide valid authentication credentials."
    case PermissionDenied => " Ensure you have the required permissions."
    case Internal => " Contact support if the issue persists."
    case _ => ""
  }

  /** A status error with the given code whose message is the given message followed by the
      code's hint; without a hint the message is unchanged. */
  function GRPCError(code: Code, message: string): (st: Status)
    ensures st.code == code
    ensures st.message == message + Hint(code)
  {
    Status(code, message + Hint(code))
  }

  /** GRPCError only appends: the caller's message is a prefix of the status message, and the
      message comes back unchanged exactly for the codes without a hint. */
  lemma GRPCErrorKeepsMessage(code: Code, message: string)
    ensures HasPrefix(GRPCError(code, message).message, message)
    ensures GRPCError(code, message).message == message <==> !HasHint(code)
  {
    assert (message + Hint(code))[..|message|] == message;
  }

  /** The alias kept for older callers. */
  function GRPCErrorWithCode(code: Code, message: string): (st: Status)
    ensures st == GRPCError(code, message)
  {
    GRPCError(code, message)
  }
}
