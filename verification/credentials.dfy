/** Password hashing and verification of auth.py (`AuthManager._hash_password`,
    `_verify_password`). SHA-256 is modelled symbolically: a digest is a free
    constructor over its input, so two digests are equal exactly when their inputs are,
    which is the injectivity the rest of the model relies on. */
module Credentials {
  import opened Wrappers

  /** The hex digest of SHA-256 (FIPS 180-4) over the UTF-8 bytes of `input`. */
  datatype Digest = Sha256Hex(input: string)

  /** The `password_hash` column: a computed digest, or a literal text such as the
      `'temp'` written into registration placeholder rows. A hex digest has 64
      characters, so it never equals a short literal. */
  datatype PasswordHash = Computed(digest: Digest) | Literal(text: string)

  datatype Hashed = Hashed(hash: PasswordHash, salt: string)

  /** `_hash_password(password, salt)`: hashes `password ++ salt`. When no salt is
      supplied, `freshSalt` stands for the output of `secrets.token_hex(32)`. */
  function HashPassword(password: string, salt: Option<string>, freshSalt: string): (r: Hashed)
    ensures salt.Some? ==> r.salt == salt.value
    ensures salt.None? ==> r.salt == freshSalt
    ensures r.hash.Computed?
  {
    var s := salt.GetOr(freshSalt);
    Hashed(Computed(Sha256Hex(password + s)), s)
  }

  /** `_verify_password`: recomputes the hash with the stored salt and compares. */
  function VerifyPassword(password: string, stored: PasswordHash, salt: string): (ok: bool)
    ensures ok ==> stored.Computed?
  {
    HashPassword(password, Some(salt), salt).hash == stored
  }

  /** A freshly hashed password verifies against its own hash and salt. */
  lemma HashVerifyRoundTrip(password: string, salt: Option<string>, freshSalt: string)
    ensures var h := HashPassword(password, salt, freshSalt);
            VerifyPassword(password, h.hash, h.salt)
  {
  }

  /** Only the password that was hashed verifies: with one salt, hashing is injective. */
  lemma {:induction false} VerifyOnlyOriginal(password: string, other: string, salt: Option<string>, freshSalt: string)
    requires var h := HashPassword(password, salt, freshSalt);
             VerifyPassword(other, h.hash, h.salt)
    ensures other == password
  {
    var s := salt.GetOr(freshSalt);
    assert other + s == password + s;
    assert |other| == |password|;
    assert other == (other + s)[..|other|];
    assert password == (password + s)[..|password|];
  }

  /** A literal (placeholder) hash never verifies, whatever the password. */
  lemma LiteralNeverVerifies(password: string, text: string, salt: string)
    ensures !VerifyPassword(password, Literal(text), salt)
  {
  }
}
