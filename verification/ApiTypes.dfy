/** What the handlers answer. */
module ApiTypes {
  import opened IndexOps
  import opened Ownership

  datatype ApiError = BadRequest | Unauthorized | Auth(auth: AuthError) | Index(index: IndexError)
}
