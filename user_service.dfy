/** What the article service sees of the separately deployed user service. */
module UserService {
  import opened GoInts
  import opened GrpcStatus

  /** The user record the user service returns. */
  datatype User = User(id: int32, name: string, email: string, createdAt: string, updatedAt: string)

  /** The outcome of one GetUser call: the user, or the status code of the error. */
  datatype Lookup = Found(user: User) | Failed(code: Code)
}
