/** bcrypt as the backend uses it, idealised: `hash` wraps its input with a
    salt, and `compare` accepts a candidate exactly when the stored value is a
    hash of that very candidate. The stored value of a password field is a
    `Secret`: the plain text a caller supplied, or a hash of some secret. */
module Credentials {
  import opened Text

  datatype Secret = Plain(text: string) | Hashed(source: Secret, salt: nat)

  /** Length of every bcrypt hash string (`$2a$10$` + salt + digest). */
  const BcryptHashLength: nat := 60

  /** `bcrypt.hash(value, salt)`. */
  function Hash(value: Secret, salt: nat): (r: Secret)
    ensures forall candidate: string :: Compare(candidate, r) <==> value == Plain(candidate)
  {
    Hashed(value, salt)
  }

  /** `bcrypt.compare(candidate, stored)`: true only for a hash of exactly
      the candidate; a stored value that is not a hash never matches. */
  predicate Compare(candidate: string, stored: Secret) {
    stored.Hashed? && stored.source == Plain(candidate)
  }

  /** The `length` JavaScript reports for the stored string. */
  function StoredLength(s: Secret): (n: nat)
    ensures s.Hashed? ==> n == BcryptHashLength
  {
    match s
    case Plain(t) => Utf16Length(t)
    case Hashed(_, _) => BcryptHashLength
  }

  /** Two hashes of one password under different salts differ, and both
      accept the password. */
  lemma SaltedHashesDiffer(p: string, salt1: nat, salt2: nat)
    requires salt1 != salt2
    ensures Hash(Plain(p), salt1) != Hash(Plain(p), salt2)
    ensures Compare(p, Hash(Plain(p), salt1)) && Compare(p, Hash(Plain(p), salt2))
  {
  }

  /** Hashing a hash does not give a hash of the password: no candidate
      matches a doubly hashed value. */
  lemma DoubleHashMatchesNothing(p: Secret, salt1: nat, salt2: nat, candidate: string)
    ensures !Compare(candidate, Hash(Hash(p, salt1), salt2))
  {
  }
}
