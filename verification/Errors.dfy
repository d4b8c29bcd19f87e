/** The status codes of include/core/nmo_error.h the models return. */
module Errors {
  const NMO_OK: int := 0
  const NMO_ERR_NOMEM: int := 1
  const NMO_ERR_EOF: int := 15
  const NMO_ERR_INVALID_ARGUMENT: int := 16
  const NMO_ERR_INVALID_STATE: int := 17
}
