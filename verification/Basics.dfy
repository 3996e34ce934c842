/** Types shared by all components. */
module Basics {
  datatype Option<T> = None | Some(value: T)

  /** A C pointer: the address of a node or structure, or the `void *` a caller hands in. */
  datatype Ptr = NULL | At(address: nat)

  /** The failure status of the lookups in chat-server.c. */
  const ERR_GENERIC := -10
}
