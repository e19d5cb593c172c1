/**
 Stateless CSRF tokens: a printer and the parser that accepts exactly its image.

 The keyed hash (section 2 of RFC 2104) is an arbitrary function of the signed
 bytes: nothing below depends on more.
 */
module Csrf {
  import opened Wrappers
  import opened Entities
  import opened Encoding
  import opened Arithmetic

  type Mac = seq<Byte> -> seq<Byte>

  const NONCE_LENGTH: nat := 32
  const CLOCK_SKEW: int := 60 * SECOND
  const MAX_DURATION: int := TWO_63 - 1

  // ----- Issue times -----------------------------------------------------

  /** Seconds between year 1, where the clock's own count starts, and the Unix epoch. */
  const EPOCH_OFFSET: int := 62_135_596_800

  /** The eight bytes read as a signed number of seconds. */
  function Seconds(issuedAt: seq<Byte>): int {
    Wrap64(FromBigEndian(issuedAt))
  }

  /** The instant those seconds denote; the clock counts from year 1 in 64 bits and may wrap. */
  function UnixTime(seconds: int): Instant {
    (Wrap64(seconds + EPOCH_OFFSET) - EPOCH_OFFSET) * SECOND
  }

  /** Subtraction of instants saturates at the largest duration. */
  function Sub(a: Instant, b: Instant): int {
    if a - b > MAX_DURATION then MAX_DURATION else if a - b < -TWO_63 then -TWO_63 else a - b
  }

  predicate FreshSeconds(now: Instant, seconds: int, ttl: int) {
    var age := Sub(now, UnixTime(seconds));
    -CLOCK_SKEW <= age <= ttl
  }

  predicate Fresh(now: Instant, issuedAt: seq<Byte>, ttl: int) {
    FreshSeconds(now, Seconds(issuedAt), ttl)
  }

  /** The window in exact arithmetic. */
  predicate InWindow(now: Instant, seconds: int, ttl: int) {
    -CLOCK_SKEW <= now - seconds * SECOND <= ttl
  }

  /** The instants the clock can show. */
  predicate Representable(t: Instant) {
    -TWO_63 <= t / SECOND + EPOCH_OFFSET < TWO_63
  }

  /**
   The lifetime is not the largest duration there is, and the clock keeps away
   from the two ends of time by the lifetime and the allowed skew.
   */
  predicate ClockFits(now: Instant, ttl: int) {
    ttl < MAX_DURATION && ttl - (TWO_63 + 1) * SECOND < now < (TWO_63 - EPOCH_OFFSET) * SECOND - CLOCK_SKEW
  }

  lemma WindowArithmetic(now: Instant, seconds: int, ttl: int)
    requires ClockFits(now, ttl) && -TWO_63 <= seconds < TWO_63
    ensures FreshSeconds(now, seconds, ttl) <==> InWindow(now, seconds, ttl)
  {
    if seconds + EPOCH_OFFSET >= TWO_63 {
      assert UnixTime(seconds) == (seconds - TWO_64) * SECOND;
    }
  }

  /** Outside those bounds some issue time is misjudged: wrapping or saturation shows. */
  lemma Misjudged(now: Instant, ttl: int) returns (seconds: int)
    requires Representable(now) && 0 <= ttl <= MAX_DURATION && !ClockFits(now, ttl)
    ensures -TWO_63 <= seconds < TWO_63 && FreshSeconds(now, seconds, ttl) != InWindow(now, seconds, ttl)
  {
    if now <= -(TWO_63 + 1) * SECOND {
      seconds := TWO_64 - (-now) / SECOND;
      assert UnixTime(seconds) == (seconds - TWO_64) * SECOND;
    } else if now <= ttl - (TWO_63 + 1) * SECOND || ttl == MAX_DURATION {
      seconds := TWO_63 - 1;
      assert UnixTime(seconds) == (seconds - TWO_64) * SECOND;
    } else {
      seconds := TWO_63 - EPOCH_OFFSET;
      assert UnixTime(seconds) == (seconds - TWO_64) * SECOND;
    }
  }

  /** Every number of seconds has its eight bytes. */
  lemma SecondsRoundTrip(seconds: int)
    requires -TWO_63 <= seconds < TWO_63
    ensures Seconds(BigEndian(seconds % TWO_64, 8)) == seconds
  {
    Pow256Of8();
    BigEndianRoundTrip(seconds % TWO_64, 8);
  }

  /** The window is the exact one for every issue time if and only if the clock fits. */
  lemma FreshExactly(now: Instant, ttl: int)
    requires Representable(now) && 0 <= ttl <= MAX_DURATION
    ensures (forall issuedAt: seq<Byte> :: |issuedAt| == 8 ==>
             (Fresh(now, issuedAt, ttl) <==> InWindow(now, Seconds(issuedAt), ttl)))
            <==> ClockFits(now, ttl)
    ensures ClockFits(now, ttl) <==>
              && ttl < 9_223_372_036_854_775_807
              && ttl - 9_223_372_036_854_775_809_000_000_000 < now
              && now < (9_223_372_036_854_775_808 - 62_135_596_800) * 1_000_000_000 - 60_000_000_000
  {
    if ClockFits(now, ttl) {
      forall issuedAt: seq<Byte> | |issuedAt| == 8
        ensures Fresh(now, issuedAt, ttl) <==> InWindow(now, Seconds(issuedAt), ttl)
      {
        WindowArithmetic(now, Seconds(issuedAt), ttl);
      }
    } else {
      var seconds := Misjudged(now, ttl);
      SecondsRoundTrip(seconds);
      var issuedAt := BigEndian(seconds % TWO_64, 8);
      assert |issuedAt| == 8 && Fresh(now, issuedAt, ttl) != InWindow(now, Seconds(issuedAt), ttl);
    }
  }

  // ----- Printer and parser ----------------------------------------------

  function Print(nonce: seq<Byte>, issuedAt: seq<Byte>, signature: seq<Byte>): string {
    HexEncode(nonce) + "." + HexEncode(issuedAt) + "." + HexEncode(signature)
  }

  predicate ValidateToken(mac: Mac, ttl: int, now: Instant, token: string) {
    var parts := Split(token);
    |parts| == 3 &&
    var nonce := HexDecode(parts[0]);
    nonce.Some? && |nonce.value| == NONCE_LENGTH &&
    var issuedAt := HexDecode(parts[1]);
    issuedAt.Some? && |issuedAt.value| == 8 &&
    var signature := HexDecode(parts[2]);
    signature.Some? && signature.value == mac(nonce.value + issuedAt.value) &&
    Fresh(now, issuedAt.value, ttl)
  }

  /** A token as printed, up to the case of its hexadecimal letters, for the given nonce and issue time. */
  ghost predicate PrintedAs(mac: Mac, token: string, nonce: seq<Byte>, issuedAt: seq<Byte>) {
    && |nonce| == NONCE_LENGTH && |issuedAt| == 8
    && SameText(token, Print(nonce, issuedAt, mac(nonce + issuedAt)))
  }

  lemma NoDots(bs: seq<Byte>)
    ensures '.' !in HexEncode(bs)
  {
    EncodedLength(bs);
  }

  lemma DotlessText(a: string, x: string)
    requires '.' !in x && SameText(a, x)
    ensures '.' !in a
  {
  }

  lemma SamePieces(token: string, x: string, y: string, z: string) returns (a: string, b: string, c: string)
    requires '.' !in x && '.' !in y && '.' !in z && SameText(token, x + "." + y + "." + z)
    ensures token == a + "." + b + "." + c
    ensures SameText(a, x) && SameText(b, y) && SameText(c, z)
    ensures '.' !in a && '.' !in b && '.' !in c
  {
    var t := x + "." + y + "." + z;
    var i, j := |x|, |x| + 1 + |y|;
    assert t[i] == '.' && t[j] == '.';
    assert t[..i] == x && t[i + 1..j] == y && t[j + 1..] == z;
    a, b, c := token[..i], token[i + 1..j], token[j + 1..];
    DotlessText(a, x);
    DotlessText(b, y);
    DotlessText(c, z);
  }

  /** Text that agrees up to case has its dots in the same places. */
  lemma SameTextSplits(token: string, x: string, y: string, z: string)
    requires '.' !in x && '.' !in y && '.' !in z && SameText(token, x + "." + y + "." + z)
    ensures |Split(token)| == 3 && SameText(Split(token)[0], x) && SameText(Split(token)[1], y)
            && SameText(Split(token)[2], z)
  {
    var a, b, c := SamePieces(token, x, y, z);
    SplitOfThree(a, b, c);
  }

  lemma SameTextConcat(a: string, x: string, b: string, y: string)
    requires SameText(a, x) && SameText(b, y)
    ensures SameText(a + b, x + y)
  {
  }

  lemma SplitsSameText(token: string, x: string, y: string, z: string)
    requires |Split(token)| == 3 && SameText(Split(token)[0], x) && SameText(Split(token)[1], y)
             && SameText(Split(token)[2], z)
    ensures SameText(token, x + "." + y + "." + z)
  {
    JoinOfThree(token);
    var p := Split(token);
    SameTextConcat(p[0], x, ".", ".");
    SameTextConcat(p[0] + ".", x + ".", p[1], y);
    SameTextConcat(p[0] + "." + p[1], x + "." + y, ".", ".");
    SameTextConcat(p[0] + "." + p[1] + ".", x + "." + y + ".", p[2], z);
  }

  lemma ParsesAsPrinted(mac: Mac, token: string, nonce: seq<Byte>, issuedAt: seq<Byte>)
    ensures PrintedAs(mac, token, nonce, issuedAt) <==>
              && |nonce| == NONCE_LENGTH && |issuedAt| == 8 && |Split(token)| == 3
              && HexDecode(Split(token)[0]) == Some(nonce)
              && HexDecode(Split(token)[1]) == Some(issuedAt)
              && HexDecode(Split(token)[2]) == Some(mac(nonce + issuedAt))
  {
    var signature := mac(nonce + issuedAt);
    NoDots(nonce);
    NoDots(issuedAt);
    NoDots(signature);
    var x, y, z := HexEncode(nonce), HexEncode(issuedAt), HexEncode(signature);
    if SameText(token, Print(nonce, issuedAt, signature)) {
      SameTextSplits(token, x, y, z);
    }
    if |Split(token)| == 3 {
      DecodeExact(Split(token)[0], nonce);
      DecodeExact(Split(token)[1], issuedAt);
      DecodeExact(Split(token)[2], signature);
      if SameText(Split(token)[0], x) && SameText(Split(token)[1], y) && SameText(Split(token)[2], z) {
        SplitsSameText(token, x, y, z);
      }
    }
  }

  /**
   A string validates exactly when it is, up to the case of its letters, what
   the printer makes of some 32-byte nonce and 8-byte issue time that is fresh,
   signed over both; where the clock fits, fresh means inside the window.
   */
  lemma ParserAcceptsPrinterImage(mac: Mac, ttl: int, now: Instant, token: string)
    ensures ValidateToken(mac, ttl, now, token) <==>
              exists nonce, issuedAt :: PrintedAs(mac, token, nonce, issuedAt) && Fresh(now, issuedAt, ttl)
    ensures ClockFits(now, ttl) ==>
              (ValidateToken(mac, ttl, now, token) <==>
                 exists nonce, issuedAt ::
                   && PrintedAs(mac, token, nonce, issuedAt)
                   && -60_000_000_000 <= now - Seconds(issuedAt) * 1_000_000_000 <= ttl)
  {
    if ValidateToken(mac, ttl, now, token) {
      var nonce, issuedAt := HexDecode(Split(token)[0]).value, HexDecode(Split(token)[1]).value;
      ParsesAsPrinted(mac, token, nonce, issuedAt);
      assert PrintedAs(mac, token, nonce, issuedAt) && Fresh(now, issuedAt, ttl);
    }
    forall nonce, issuedAt | PrintedAs(mac, token, nonce, issuedAt)
      ensures Fresh(now, issuedAt, ttl) ==> ValidateToken(mac, ttl, now, token)
      ensures ClockFits(now, ttl) ==> (Fresh(now, issuedAt, ttl) <==> InWindow(now, Seconds(issuedAt), ttl))
    {
      ParsesAsPrinted(mac, token, nonce, issuedAt);
      if ClockFits(now, ttl) {
        WindowArithmetic(now, Seconds(issuedAt), ttl);
      }
    }
  }

  /** A string that validates is 64 hexadecimal digits of nonce, 16 of issue time, and those of the signature. */
  lemma ValidShape(mac: Mac, ttl: int, now: Instant, token: string)
    requires ValidateToken(mac, ttl, now, token)
    ensures var p := Split(token);
            && |p| == 3 && |p[0]| == 64 && |p[1]| == 16
            && token == p[0] + "." + p[1] + "." + p[2]
            && forall i, j :: 0 <= i < 3 && 0 <= j < |p[i]| ==>
                 '0' <= p[i][j] <= '9' || 'a' <= p[i][j] <= 'f' || 'A' <= p[i][j] <= 'F'
  {
    var p := Split(token);
    JoinOfThree(token);
    DecodedDigits(p[0]);
    DecodedDigits(p[1]);
    DecodedDigits(p[2]);
  }

  /** A token names one nonce and one issue time, so the signed bytes are determined. */
  lemma OneReading(mac: Mac, token: string, n: seq<Byte>, t: seq<Byte>, n': seq<Byte>, t': seq<Byte>)
    requires PrintedAs(mac, token, n, t) && PrintedAs(mac, token, n', t')
    ensures n == n' && t == t'
  {
    ParsesAsPrinted(mac, token, n, t);
    ParsesAsPrinted(mac, token, n', t');
  }

  // ----- Issuing ---------------------------------------------------------

  /** The Unix time of an instant, in whole seconds. */
  function Unix(t: Instant): int {
    t / SECOND
  }

  method PutUint64(buf: array<Byte>, v: nat)
    requires buf.Length == 8
    modifies buf
    ensures buf[..] == BigEndian(v, 8)
  {
    var rest := v;
    var i := 8;
    while i > 0
      invariant 0 <= i <= 8
      invariant BigEndian(v, 8) == BigEndian(rest, i) + buf[i..]
    {
      i := i - 1;
      buf[i] := rest % 256;
      assert buf[i..] == [buf[i]] + buf[i + 1..];
      rest := rest / 256;
    }
  }

  /** Fails when the random source does; otherwise prints the nonce, the issue time and the signature over both. */
  method GenerateToken(mac: Mac, now: Instant, random: Option<seq<Byte>>) returns (token: Option<string>)
    requires random.Some? ==> |random.value| == NONCE_LENGTH
    ensures token.Some? <==> random.Some?
    ensures token.Some? ==>
              PrintedAs(mac, token.value, random.value, BigEndian(now / 1_000_000_000 % 0x1_0000_0000_0000_0000, 8))
  {
    if random.None? {
      return None;
    }
    var nonce := random.value;
    var issuedAt := new Byte[8];
    PutUint64(issuedAt, Unix(now) % TWO_64);
    var signature := mac(nonce + issuedAt[..]);
    token := Some(HexEncode(nonce) + "." + HexEncode(issuedAt[..]) + "." + HexEncode(signature));
  }

  lemma OneTurnMore(unix: int)
    ensures (unix + TWO_64) % TWO_64 == unix % TWO_64
  {
  }

  lemma WrapRestores(unix: int, seconds: int)
    requires -TWO_63 <= unix + EPOCH_OFFSET < TWO_63
    requires seconds == if unix < -TWO_63 then unix + TWO_64 else unix
    ensures Wrap64(seconds + EPOCH_OFFSET) == unix + EPOCH_OFFSET
  {
  }

  /** The bytes an instant is printed as denote its whole second, however far it lies from the epoch. */
  lemma IssueTimeRoundTrip(issued: Instant)
    requires Representable(issued)
    ensures UnixTime(Seconds(BigEndian(Unix(issued) % TWO_64, 8))) == Unix(issued) * SECOND
  {
    var unix := Unix(issued);
    var seconds := if unix < -TWO_63 then unix + TWO_64 else unix;
    OneTurnMore(unix);
    WrapRestores(unix, seconds);
    SecondsRoundTrip(seconds);
  }

  /**
   A token issued at one instant validates at another exactly from a minute
   before to a lifetime after its whole second; the largest lifetime is endless.
   */
  lemma IssuedTokenWindow(mac: Mac, ttl: int, issued: Instant, now: Instant, nonce: seq<Byte>, token: string)
    requires Representable(issued) && ttl <= MAX_DURATION
    requires PrintedAs(mac, token, nonce, BigEndian(issued / 1_000_000_000 % 0x1_0000_0000_0000_0000, 8))
    ensures var age := now - (issued - issued % 1_000_000_000);
            ValidateToken(mac, ttl, now, token)
            <==> -60_000_000_000 <= age && (age <= ttl || ttl == 9_223_372_036_854_775_807)
  {
    var issuedAt := BigEndian(Unix(issued) % TWO_64, 8);
    IssueTimeRoundTrip(issued);
    ParsesAsPrinted(mac, token, nonce, issuedAt);
  }
}
