/** Password hashing (`hash_password`, `verify_password`). The digest
    function is a parameter: any deterministic map from the password text
    to a digest, with nothing assumed about collisions. */
module Passwords {

  type Digest = string

  /** Stands for the hex SHA-256 digest of the UTF-8 encoded text. */
  type Hasher = string -> Digest

  function HashPassword(hash: Hasher, password: string): Digest {
    hash(password)
  }

  /** The stored digest equals the digest of the offered password. */
  predicate VerifyPassword(hash: Hasher, stored: Digest, provided: string) {
    HashPassword(hash, provided) == stored
  }

  /** A password always verifies against its own digest. */
  lemma VerifyOwnDigest(hash: Hasher, password: string)
    ensures VerifyPassword(hash, HashPassword(hash, password), password)
  {
  }
}
