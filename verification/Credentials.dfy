/** Refresh tokens and password hashes, with the cryptography abstracted away. */
module Credentials {
  import opened Arithmetic
  import opened Wrappers
  import opened Entities

  /** bcrypt reads at most this many bytes of a password. */
  const BCRYPT_MAX: nat := 72

  /** Text presented as a refresh token: either signed with the refresh secret or anything else. */
  datatype Presented = Garbage(text: string) | Signed(token: RefreshToken)

  /** A JWT NumericDate: the instant truncated to whole seconds (section 4.1.4 of RFC 7519). */
  function NumericDate(t: Instant): (r: Instant)
    ensures r <= t < r + SECOND && r % SECOND == 0
  {
    t - t % SECOND
  }

  function GenerateRefreshToken(userId: Uuid, jti: Uuid, now: Instant, ttl: int): RefreshToken {
    RefreshToken(userId, jti, NumericDate(now + ttl), 0)
  }

  /** Accepts exactly the signed tokens whose expiry lies strictly in the future. */
  function ValidateRefreshToken(p: Presented, now: Instant): (r: Option<RefreshToken>)
    ensures r.Some? <==> p.Signed? && now < p.token.exp
    ensures r.Some? ==> p == Signed(r.value)
  {
    match p
    case Garbage(_) => None
    case Signed(token) => if now < token.exp then Some(token) else None
  }

  function Hash(token: RefreshToken): Digest {
    Digest(token)
  }

  /**
   The bytes bcrypt keys its cipher with: the password and a NUL byte, over and
   over, for 72 bytes. Nothing past those bytes counts.
   */
  function Stream(p: Password): (k: Password)
    ensures |k| == BCRYPT_MAX
  {
    seq(BCRYPT_MAX, i requires 0 <= i < BCRYPT_MAX => (p + [0])[i % (|p| + 1)])
  }

  /** Hashing refuses a password that would be cut off. */
  function HashPassword(p: Password): Option<PasswordHash> {
    if |p| > BCRYPT_MAX then None else Some(PasswordHash(Stream(p)))
  }

  /** Comparison refuses nothing: it compares the streams. */
  predicate Matches(h: PasswordHash, p: Password) {
    h.key == Stream(p)
  }

  // ----- Which passwords are told apart ----------------------------------

  predicate NulFree(p: Password) {
    forall i :: 0 <= i < |p| ==> p[i] != 0
  }

  /** The stream begins with the password and the NUL byte, as far as it goes. */
  lemma StreamAt(p: Password, i: nat)
    requires i <= |p| && i < BCRYPT_MAX
    ensures Stream(p)[i] == if i < |p| then p[i] else 0
  {
    Remainder(i, |p| + 1, 0, i);
  }

  lemma ShorterDiffers(p: Password, q: Password)
    requires |p| < |q| <= BCRYPT_MAX && NulFree(q)
    ensures Stream(p) != Stream(q)
  {
    StreamAt(p, |p|);
    StreamAt(q, |p|);
  }

  /** Passwords without a NUL byte that fit are told apart exactly. */
  lemma StreamIsExact(p: Password, q: Password)
    requires NulFree(p) && NulFree(q) && |p| <= BCRYPT_MAX && |q| <= BCRYPT_MAX
    ensures Stream(p) == Stream(q) <==> p == q
  {
    if |p| < |q| {
      ShorterDiffers(p, q);
    } else if |q| < |p| {
      ShorterDiffers(q, p);
    } else {
      forall i | 0 <= i < |p| ensures Stream(p)[i] == p[i] && Stream(q)[i] == q[i] {
        StreamAt(p, i);
        StreamAt(q, i);
      }
    }
  }

  /** A password that is too long is not told apart from any other with the same first 72 bytes. */
  lemma OverlongIsCut(p: Password)
    requires |p| >= BCRYPT_MAX
    ensures Stream(p) == p[..BCRYPT_MAX]
  {
    forall i | 0 <= i < BCRYPT_MAX ensures Stream(p)[i] == p[i] {
      StreamAt(p, i);
    }
  }

  /** A password is not told apart from itself written twice around a NUL byte. */
  lemma RepeatedIsTheSame(p: Password)
    ensures Stream(p + [0] + p) == Stream(p)
  {
    var n, twice := |p| + 1, p + [0] + p + [0];
    forall i | 0 <= i < BCRYPT_MAX ensures Stream(p + [0] + p)[i] == Stream(p)[i] {
      RemainderOfDouble(i, n);
      var r := i % (2 * n);
      assert twice[r] == (p + [0])[if r < n then r else r - n];
    }
  }
}
