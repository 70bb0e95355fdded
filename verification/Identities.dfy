/** Who takes part: names, and the public keys that go with them. */
module Identities {
  import opened Octets

  type Name = Bytes

  /** What a client publishes: its key-agreement key, its identity key, and the signature of the one under the other. */
  datatype Keys = Keys(dh: Bytes, identity: Bytes, signature: Bytes)
}
