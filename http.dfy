/** The HTTP status codes the controllers answer with, and the address the
    short links they hand out point to. */
module Http {
  /** The prefix of the redirect URL a shorten reply carries. */
  const RedirectBase: string := "http://localhost:8080/api/"

  const Ok: nat := 200
  const Created: nat := 201
  const NoContent: nat := 204
  const Found: nat := 302
  const BadRequest: nat := 400
  const NotFound: nat := 404
}
