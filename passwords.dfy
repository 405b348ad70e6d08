/**
 * The credential hasher. The service calls bcrypt's GenerateFromPassword and
 * CompareHashAndPassword; here the digest is a deterministic, injective stand-in
 * that keeps bcrypt's "$2a$10$" header (algorithm 2a, DefaultCost 10). The rest
 * of the model relies on Verify(Hash(p), q) <==> p == q, on Hash(p) != p and on
 * Hash(p) != "".
 */
module Passwords {

  const BcryptHeader: string := "$2a$10$"

  /** The stored digest of a password. */
  function Hash(password: string): (digest: string)
    ensures |digest| == |BcryptHeader| + |password|
    ensures digest[..|BcryptHeader|] == BcryptHeader
  {
    BcryptHeader + password
  }

  /** CompareHashAndPassword succeeds. */
  predicate Verify(digest: string, password: string) {
    digest == Hash(password)
  }

  /** A digest verifies exactly the password it was made from. */
  lemma VerifyHashIff(p: string, q: string)
    ensures Verify(Hash(p), q) <==> p == q
  {
    if Hash(p) == Hash(q) {
      assert p == Hash(p)[|BcryptHeader|..];
    }
  }

  /** The stored digest is never the plaintext itself. */
  lemma HashIsNotPlaintext(p: string)
    ensures Hash(p) != p
  {
  }

  /** An empty stored hash (bcrypt's failed output) verifies no password. */
  lemma EmptyDigestVerifiesNothing(p: string)
    ensures !Verify("", p)
  {
  }
}
