/** The messages of the article service's protocol that the handlers build and return. */
module Proto {
  import opened Wrappers
  import opened GoInts

  /** One stored article; the timestamps are the RFC 3339 text the repository formats. */
  datatype Article = Article(id: int32, title: string, content: string, userId: int32,
                             createdAt: string, updatedAt: string)

  /** The article service's own copy of an author. */
  datatype User = User(id: int32, name: string, email: string, createdAt: string, updatedAt: string)

  /** An article with its author, or with no author when the lookup did not succeed. */
  datatype ArticleWithUser = ArticleWithUser(article: Article, user: Option<User>)

  /** userId is the client-supplied author id; CreateArticle does not read it. */
  datatype CreateArticleRequest = CreateArticleRequest(title: string, content: string, userId: int32)
  datatype GetArticleRequest = GetArticleRequest(id: int32)
  datatype UpdateArticleRequest = UpdateArticleRequest(id: int32, title: string, content: string)
  datatype DeleteArticleRequest = DeleteArticleRequest(id: int32)
  datatype ListArticlesRequest = ListArticlesRequest(pageNumber: int32, pageSize: int32, userId: int32)

  datatype CreateArticleData = CreateArticleData(article: Article)
  datatype GetArticleData = GetArticleData(article: ArticleWithUser)
  datatype UpdateArticleData = UpdateArticleData(article: Article)
  datatype DeleteArticleData = DeleteArticleData(success: bool)
  datatype ListArticlesData = ListArticlesData(articles: seq<ArticleWithUser>, total: int32,
                                               page: int32, totalPages: int32)

  /** The {code, message, data} wrapper of every response; data is None for Go's nil. */
  datatype Envelope<D> = Envelope(code: string, message: string, data: Option<D>)
}
