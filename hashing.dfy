/** The password hasher that the repository receives by dependency injection
    (`IPasswordHasher<User>`). Its algorithm is a library's, so the model takes the
    two operations as given functions and states, as predicates, what callers rely on. */
module Hashing {

  /** The random salt a new hash is made with; randomness becomes an input. */
  type Salt = nat

  /** The library's verdict on a password against a stored hash. */
  datatype PasswordVerificationResult = Failed | Success | SuccessRehashNeeded

  /** What a call of `VerifyHashedPassword` does: return a verdict or throw
      (for instance on a stored hash it cannot parse). */
  datatype VerifyOutcome = Returned(result: PasswordVerificationResult) | Threw

  /** `HashPassword` and `VerifyHashedPassword`. */
  datatype PasswordHasher = PasswordHasher(
    hash: (Salt, string) -> string,
    verify: (string, string) -> VerifyOutcome)

  /** The outcome counts as a match: a verdict other than `Failed`. */
  predicate Accepted(o: VerifyOutcome) {
    o.Returned? && o.result != Failed
  }

  /** A hasher accepts every password against a hash made from it, whatever the salt. */
  ghost predicate Sound(h: PasswordHasher) {
    forall salt, p :: Accepted(h.verify(h.hash(salt, p), p))
  }

  /** A hasher rejects every other password against a hash made from a password. */
  ghost predicate Exact(h: PasswordHasher) {
    forall salt, p, q :: p != q ==> !Accepted(h.verify(h.hash(salt, p), q))
  }
}
