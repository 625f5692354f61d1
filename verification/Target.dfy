/** Addresses of the target process, and keys of the tables that describe it. */
module Target {
  type Addr = nat
  type Key = nat

  const NULL: Addr := 0
}
