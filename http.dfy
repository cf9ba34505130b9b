/** The HTTP status codes the handlers answer with. */
module Http {
  const StatusOK: nat := 200
  const StatusNoContent: nat := 204
  const StatusBadRequest: nat := 400
  const StatusUnauthorized: nat := 401
  const StatusForbidden: nat := 403
  const StatusNotFound: nat := 404
  const StatusInternalServerError: nat := 500
}
