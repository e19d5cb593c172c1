/**
 The two tables the user service works on, and the values it hands out.

 Identifiers are UUIDs; only their identity and their order (the primary key
 breaks ties in listings) matter, so they are natural numbers. Instants are
 nanoseconds since the Unix epoch.
 */
module Entities {
  import opened Wrappers

  type Uuid = nat
  type Instant = int
  type Byte = b: int | 0 <= b < 256
  type Password = seq<Byte>

  const SECOND: int := 1_000_000_000

  /** What bcrypt keeps of a password; see Credentials.HashPassword. */
  datatype PasswordHash = PasswordHash(key: seq<Byte>)

  /**
   The text of a signed refresh token: its claims, and which of the texts that
   decode to them it is. Signing writes spelling zero; the decoder ignores the
   unused bits of the last signature character, so other spellings verify too.
   */
  datatype RefreshToken = RefreshToken(userId: Uuid, jti: Uuid, exp: Instant, spelling: nat)

  datatype AccessToken = AccessToken(userId: Uuid, email: string, name: string)

  /** The digest of a token's text. The wrapper makes the digest injective on texts. */
  datatype Digest = Digest(token: RefreshToken)

  /** A user row. A soft-deleted row keeps its place in the unique email index. */
  datatype UserRow = UserRow(email: string, password: PasswordHash, name: string, deleted: bool)

  datatype TokenRow = TokenRow(id: Uuid, userId: Uuid, digest: Digest, expiresAt: Instant, createdAt: Instant)

  datatype Profile = Profile(id: Uuid, email: string, name: string)

  datatype TokenPair = TokenPair(access: AccessToken, refresh: RefreshToken)

  /** Both tables. Rows of the token table are keyed by their unique digest. */
  datatype Store = Store(users: map<Uuid, UserRow>, tokens: map<Digest, TokenRow>)

  /** The non-zero fields of a row passed to an update; absent means zero value. */
  datatype UserPatch = UserPatch(email: string, password: Option<PasswordHash>, name: string)
}
