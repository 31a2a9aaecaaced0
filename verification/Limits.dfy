/** Limits shared by the components. */
module Limits {
  const MAX_BUFFER_NAME_LENGTH := 64
  const MAX_MESSAGE_LENGTH := 2000
}
