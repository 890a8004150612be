/** Error codes of inc/error.h; calls return them negated. */
module Errors {
  const E_BAD_ENV := 2
  const E_INVAL := 3
  const E_NO_MEM := 4
  const E_NO_FREE_ENV := 5
  const E_IPC_NOT_RECV := 7
  const E_NO_DISK := 9
  const E_MAX_OPEN := 10
  const E_NOT_FOUND := 11
}
