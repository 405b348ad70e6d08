/**
 * The token service: the signing configuration read once at start-up, JSON Web
 * Token (RFC 7519) claims issued for a user, the acceptance rule applied when a
 * token is parsed, and the random hex tokens used as opaque reset codes.
 * HMAC signing and the compact serialisation are abstract: a signature is the
 * value Sign(alg, key, claims), so only the holder of the key can produce it.
 */
module Token {
  import opened Wrappers

  const MinInt64: int := -0x8000_0000_0000_0000
  const MaxInt64: int := 0x7FFF_FFFF_FFFF_FFFF

  const DefaultSecret: string := "Change_This_SecretKey"
  const DefaultExpirationHours: int := 24

  /** The largest |hours| for which hours * time.Hour fits a 64-bit nanosecond Duration. */
  const MaxHours: int := 2562047

  // ------------------------------------------------------------ strconv.Atoi

  predicate IsDigit(c: char) {
    '0' <= c <= '9'
  }

  predicate AllDigits(s: string) {
    forall i :: 0 <= i < |s| ==> IsDigit(s[i])
  }

  /** The value of a string of decimal digits. */
  function DigitsValue(s: string): nat
    requires AllDigits(s)
  {
    if s == [] then 0 else DigitsValue(s[..|s| - 1]) * 10 + (s[|s| - 1] as int - '0' as int)
  }

  /**
   * The strings strconv.Atoi reads in base 10: an optional '+' or '-', then one
   * or more decimal digits and nothing else.
   */
  predicate IsDecimal(s: string) {
    s != [] && (IsDigit(s[0]) || s[0] == '+' || s[0] == '-') && IsDigit(s[|s| - 1])
    && forall i :: 1 <= i < |s| ==> IsDigit(s[i])
  }

  /** The signed value such a string denotes. */
  function DecimalValue(s: string): int
    requires IsDecimal(s)
  {
    var magnitude := if IsDigit(s[0]) then DigitsValue(s) else DigitsValue(s[1..]);
    if s[0] == '-' then -magnitude else magnitude
  }

  /**
   * strconv.Atoi: an optional sign followed by one or more decimal digits whose
   * value fits in 64 bits; anything else (empty, a lone sign, other characters,
   * out of range) is an error.
   */
  function Atoi(s: string): (r: Option<int>)
    ensures r.Some? <==> IsDecimal(s) && MinInt64 <= DecimalValue(s) <= MaxInt64
    ensures r.Some? ==> r.value == DecimalValue(s)
  {
    if s == [] then None
    else
      var digits := if s[0] == '-' || s[0] == '+' then s[1..] else s;
      if digits == [] || !AllDigits(digits) then None
      else
        var magnitude: int := DigitsValue(digits);
        var v := if s[0] == '-' then -magnitude else magnitude;
        if MinInt64 <= v <= MaxInt64 then Some(v) else None
  }

  function DigitChar(d: nat): (c: char)
    requires d < 10
    ensures IsDigit(c) && c as int - '0' as int == d
  {
    ('0' as int + d) as char
  }

  /** strconv.Itoa on a natural number. */
  function NatDecimal(n: nat): (s: string)
    ensures s != [] && AllDigits(s)
  {
    if n < 10 then [DigitChar(n)] else NatDecimal(n / 10) + [DigitChar(n % 10)]
  }

  /** strconv.Itoa. */
  function Itoa(n: int): string {
    if n < 0 then "-" + NatDecimal(-n) else NatDecimal(n)
  }

  lemma {:induction false} NatDecimalValue(n: nat)
    ensures DigitsValue(NatDecimal(n)) == n
  {
    if n >= 10 {
      NatDecimalValue(n / 10);
      var s := NatDecimal(n);
      assert s[..|s| - 1] == NatDecimal(n / 10);
    }
  }

  /** Atoi reads back every 64-bit integer that Itoa writes. */
  lemma AtoiItoa(n: int)
    requires MinInt64 <= n <= MaxInt64
    ensures Atoi(Itoa(n)) == Some(n)
  {
    var s := Itoa(n);
    if n < 0 {
      var digits := NatDecimal(-n);
      NatDecimalValue(-n);
      assert s == "-" + digits && s[0] == '-' && s[1..] == digits;
    } else {
      NatDecimalValue(n);
      assert IsDigit(s[0]);
    }
  }

  // ----------------------------------------------------------- configuration

  /** JWT_SECRET, or the well-known development default when it is empty. */
  function SigningKey(secretEnv: string): (key: string)
    ensures key != ""
    ensures secretEnv != "" ==> key == secretEnv
    ensures secretEnv == "" ==> key == DefaultSecret
  {
    if secretEnv == "" then DefaultSecret else secretEnv
  }

  /** JWT_EXPIRATION_HOURS when it is set and parses as an integer (of any sign), else 24. */
  function ExpirationHours(hoursEnv: string): (hours: int)
    ensures MinInt64 <= hours <= MaxInt64
    ensures Atoi(hoursEnv).Some? ==> hours == Atoi(hoursEnv).value
    ensures Atoi(hoursEnv).None? ==> hours == DefaultExpirationHours
  {
    var hours := DefaultExpirationHours;
    if hoursEnv != "" then
      match Atoi(hoursEnv)
      case Some(h) => h
      case None => hours
    else hours
  }

  /**
   * A setting that is not a plain decimal integer (unset, "12h", " 12", "1e3")
   * falls back to the 24-hour default.
   */
  lemma ExpirationHoursFallsBack(hoursEnv: string)
    requires !IsDecimal(hoursEnv)
    ensures ExpirationHours(hoursEnv) == DefaultExpirationHours
  {
  }

  /** A number of hours written with a unit suffix is not read as that number. */
  lemma HoursWithUnitFallBack(digits: string)
    ensures ExpirationHours(digits + "h") == DefaultExpirationHours
  {
    var s := digits + "h";
    assert s[|s| - 1] == 'h';
  }

  /** Every integer setting, zero and negative ones included, is taken as written. */
  lemma ExpirationHoursOfDecimal(n: int)
    requires MinInt64 <= n <= MaxInt64
    ensures ExpirationHours(Itoa(n)) == n
  {
    AtoiItoa(n);
  }

  /** The signing key and the expiration window the handlers use. */
  datatype TokenConfig = TokenConfig(key: string, expirationHours: int)

  /** The package-level jwtKey and jwtExpirationHours. */
  class TokenSettings {
    var jwtKey: string
    var jwtExpirationHours: int

    /** Go's zero values, before Init runs. */
    constructor ()
      ensures jwtKey == "" && jwtExpirationHours == 0
    {
      jwtKey := "";
      jwtExpirationHours := 0;
    }

    /** Init, given the values of JWT_SECRET and JWT_EXPIRATION_HOURS. */
    method Init(secretEnv: string, hoursEnv: string)
      modifies this
      ensures jwtKey == SigningKey(secretEnv)
      ensures jwtExpirationHours == ExpirationHours(hoursEnv)
    {
      var s := secretEnv;
      if s == "" {
        s := DefaultSecret;
      }
      jwtKey := s;
      var hours := DefaultExpirationHours;
      if hoursEnv != "" {
        var h := Atoi(hoursEnv);
        if h.Some? {
          hours := h.value;
        }
      }
      jwtExpirationHours := hours;
    }

    function Config(): (cfg: TokenConfig)
      reads this
    {
      TokenConfig(jwtKey, jwtExpirationHours)
    }
  }

  // ------------------------------------------------------------------ claims

  /** A 64-bit two's-complement wrap-around. */
  function WrapInt64(x: int): (r: int)
    ensures MinInt64 <= r <= MaxInt64
    ensures MinInt64 <= x <= MaxInt64 ==> r == x
  {
    var m := x % 0x1_0000_0000_0000_0000;
    if m > MaxInt64 then m - 0x1_0000_0000_0000_0000 else m
  }

  /**
   * The exp claim: now plus time.Duration(hours) * time.Hour, a product taken in
   * 64-bit nanoseconds, truncated to whole seconds.
   */
  function ExpiresAfter(now: int, hours: int): int {
    now + WrapInt64(hours * 3_600_000_000_000) / 1_000_000_000
  }

  /** Within the Duration range the expiry is exactly hours * 3600 seconds after now. */
  lemma ExpiresAfterInRange(now: int, hours: int)
    ensures -MaxHours <= hours <= MaxHours ==> ExpiresAfter(now, hours) == now + hours * 3600
  {
    if -MaxHours <= hours <= MaxHours {
      var ns := hours * 3_600_000_000_000;
      assert MinInt64 <= ns <= MaxInt64;
      assert ns == (hours * 3600) * 1_000_000_000;
    }
  }

  /** One hour beyond that range the product wraps and the token is issued already expired. */
  lemma ExpiresAfterWraps(now: int)
    ensures ExpiresAfter(now, MaxHours + 1) < now
  {
    var ns := (MaxHours + 1) * 3_600_000_000_000;
    assert ns == 9223372800000000000;
    assert WrapInt64(ns) == -9223371273709551616;
  }

  /** The wrap-around is periodic: twice that many hours gives a window of 1526 seconds. */
  lemma ExpiresAfterWrapsAround(now: int)
    ensures ExpiresAfter(now, 2 * (MaxHours + 1)) == now + 1526
  {
    var ns := 2 * (MaxHours + 1) * 3_600_000_000_000;
    assert ns == 18446745600000000000;
    assert WrapInt64(ns) == 1526290448384;
  }

  /**
   * One hour below the range the product wraps the other way: the token stays
   * valid for about 292 years.
   */
  lemma ExpiresAfterWrapsNegative(now: int)
    ensures ExpiresAfter(now, -(MaxHours + 1)) == now + 9223371273
  {
    var ns := -(MaxHours + 1) * 3_600_000_000_000;
    assert ns == -9223372800000000000;
    assert WrapInt64(ns) == 9223371273709551616;
  }

  /** The HMAC family of section 3.2 of RFC 7518 and the other JWS algorithms. */
  datatype Alg = HS256 | HS384 | HS512 | RS256 | RS384 | RS512 | ES256 | ES384 | ES512
               | PS256 | PS384 | PS512 | EdDSA | NoneAlg
  {
    predicate IsHmac() {
      HS256? || HS384? || HS512?
    }
  }

  /** user_id and the registered claims iat and exp, in Unix seconds. */
  datatype Claims = Claims(userId: nat, issuedAt: int, expiresAt: int)

  /** The signature over a token's header and claims. */
  datatype Signature = Signature(alg: Alg, key: string, claims: Claims)

  datatype Jwt = Jwt(alg: Alg, claims: Claims, signature: Signature)

  function Sign(alg: Alg, key: string, claims: Claims): Signature {
    Signature(alg, key, claims)
  }

  predicate SignatureValid(t: Jwt, key: string) {
    t.signature == Sign(t.alg, key, t.claims)
  }

  /** GenerateToken: an HS256 token for userId, issued now, expiring after the configured window. */
  function GenerateToken(cfg: TokenConfig, userId: nat, now: int): (t: Jwt)
    ensures t.alg == HS256 && SignatureValid(t, cfg.key)
    ensures t.claims.userId == userId && t.claims.issuedAt == now
    ensures -MaxHours <= cfg.expirationHours <= MaxHours ==>
              t.claims.expiresAt == now + cfg.expirationHours * 3600
  {
    ExpiresAfterInRange(now, cfg.expirationHours);
    var claims := Claims(userId, now, ExpiresAfter(now, cfg.expirationHours));
    Jwt(HS256, claims, Sign(HS256, cfg.key, claims))
  }

  /** The string presented as a bearer token: either not a JWS at all, or a decoded one. */
  datatype TokenString = Malformed | Encoded(jwt: Jwt)

  datatype JwtError = TokenMalformed | KeyfuncRejected | SignatureInvalid | TokenExpired

  /**
   * ParseToken: reject an undecodable token; reject any algorithm outside the
   * HMAC family before the signature is looked at; then check the signature
   * under the key; then the expiry (a token is valid strictly before exp).
   */
  function ParseToken(ts: TokenString, key: string, now: int): (r: Result<Claims, JwtError>)
    ensures r.Success? <==>
              ts.Encoded? && ts.jwt.alg.IsHmac() && SignatureValid(ts.jwt, key)
              && now < ts.jwt.claims.expiresAt
    ensures r.Success? ==> r.value == ts.jwt.claims
    ensures ts.Encoded? && !ts.jwt.alg.IsHmac() ==> r == Failure(KeyfuncRejected)
  {
    match ts
    case Malformed => Failure(TokenMalformed)
    case Encoded(t) =>
      if !t.alg.IsHmac() then Failure(KeyfuncRejected)
      else if !SignatureValid(t, key) then Failure(SignatureInvalid)
      else if !(now < t.claims.expiresAt) then Failure(TokenExpired)
      else Success(t.claims)
  }

  /**
   * A token issued under a positive window is accepted from its issue time until
   * the window has elapsed, and rejected as expired from then on.
   */
  lemma IssuedTokenLifetime(cfg: TokenConfig, userId: nat, now: int, later: int)
    requires 1 <= cfg.expirationHours <= MaxHours
    requires now <= later
    ensures var t := GenerateToken(cfg, userId, now);
            ParseToken(Encoded(t), cfg.key, later) ==
              if later < now + cfg.expirationHours * 3600 then Success(t.claims)
              else Failure(TokenExpired)
  {
  }

  /**
   * A window of zero or fewer hours (zero is the value before Init runs) issues
   * tokens that are already expired when they are issued.
   */
  lemma NonPositiveWindowExpiredAtIssue(cfg: TokenConfig, userId: nat, now: int, later: int)
    requires -MaxHours <= cfg.expirationHours <= 0
    requires now <= later
    ensures ParseToken(Encoded(GenerateToken(cfg, userId, now)), cfg.key, later) == Failure(TokenExpired)
  {
  }

  /**
   * A token is never accepted under a key other than the one that signed it.
   * This holds of the abstract signature; in HMAC some distinct keys are
   * equivalent (a key is zero-padded to the block size, and a longer key is
   * hashed first).
   */
  lemma OtherKeyRejected(cfg: TokenConfig, userId: nat, now: int, key: string, at: int)
    requires key != cfg.key
    ensures ParseToken(Encoded(GenerateToken(cfg, userId, now)), key, at) == Failure(SignatureInvalid)
  {
  }

  /** Every HMAC algorithm is accepted, not only the HS256 that GenerateToken uses. */
  lemma AnyHmacAccepted(alg: Alg, key: string, claims: Claims, now: int)
    requires alg.IsHmac() && now < claims.expiresAt
    ensures ParseToken(Encoded(Jwt(alg, claims, Sign(alg, key, claims))), key, now) == Success(claims)
  {
  }

  // ------------------------------------------------------------- hex tokens

  newtype byte = x: int | 0 <= x < 256

  const HexAlphabet: string := "0123456789abcdef"

  predicate IsLowerHexDigit(c: char) {
    '0' <= c <= '9' || 'a' <= c <= 'f'
  }

  predicate AllLowerHex(s: string) {
    forall i :: 0 <= i < |s| ==> IsLowerHexDigit(s[i])
  }

  /** The two lower-case hex digits of a byte, high nibble first. */
  function HexPair(b: byte): (s: string)
    ensures |s| == 2 && IsLowerHexDigit(s[0]) && IsLowerHexDigit(s[1])
  {
    [HexAlphabet[b as int / 16], HexAlphabet[b as int % 16]]
  }

  /** hex.EncodeToString (section 8 of RFC 4648, lower case). */
  function HexEncode(bs: seq<byte>): (s: string)
    ensures |s| == 2 * |bs|
    ensures AllLowerHex(s)
  {
    if bs == [] then [] else HexEncode(bs[..|bs| - 1]) + HexPair(bs[|bs| - 1])
  }

  /** hex.Decode's reading of one digit, either case. */
  function HexValue(c: char): (v: Option<int>)
    ensures v.Some? ==> 0 <= v.value < 16
  {
    if '0' <= c <= '9' then Some(c as int - '0' as int)
    else if 'a' <= c <= 'f' then Some(c as int - 'a' as int + 10)
    else if 'A' <= c <= 'F' then Some(c as int - 'A' as int + 10)
    else None
  }

  /** The byte two digits stand for, high nibble first. */
  function HexByte(hi: char, lo: char): Option<byte> {
    match (HexValue(hi), HexValue(lo))
    case (Some(h), Some(l)) => Some((h * 16 + l) as byte)
    case _ => None
  }

  /** hex.DecodeString: None for odd length or a non-hex character. */
  function HexDecode(s: string): Option<seq<byte>> {
    if s == [] then Some([])
    else if |s| == 1 then None
    else
      match (HexDecode(s[..|s| - 2]), HexByte(s[|s| - 2], s[|s| - 1]))
      case (Some(prefix), Some(b)) => Some(prefix + [b])
      case _ => None
  }

  /** Every digit of the alphabet reads back as its own value. */
  lemma HexAlphabetDecodes(d: int)
    requires 0 <= d < 16
    ensures HexValue(HexAlphabet[d]) == Some(d)
  {
  }

  /** The two digits of a byte read back as that byte. */
  lemma HexPairDecodes(b: byte)
    ensures HexByte(HexPair(b)[0], HexPair(b)[1]) == Some(b)
  {
    var hi, lo := b as int / 16, b as int % 16;
    HexAlphabetDecodes(hi);
    HexAlphabetDecodes(lo);
    assert hi * 16 + lo == b as int;
  }

  /** The encoding of a non-empty sequence ends in the last byte's digits. */
  lemma HexEncodeLast(bs: seq<byte>)
    requires bs != []
    ensures var s := HexEncode(bs);
            s[..|s| - 2] == HexEncode(bs[..|bs| - 1])
            && s[|s| - 2] == HexPair(bs[|bs| - 1])[0] && s[|s| - 1] == HexPair(bs[|bs| - 1])[1]
  {
    var s := HexEncode(bs);
    assert s == HexEncode(bs[..|bs| - 1]) + HexPair(bs[|bs| - 1]);
  }

  lemma SplitLast(bs: seq<byte>)
    requires bs != []
    ensures bs[..|bs| - 1] + [bs[|bs| - 1]] == bs
  {
  }

  /** One decoding step: the last two digits give the last byte. */
  lemma HexDecodeLastPair(s: string, prefix: seq<byte>, b: byte)
    requires |s| >= 2
    requires HexDecode(s[..|s| - 2]) == Some(prefix)
    requires HexByte(s[|s| - 2], s[|s| - 1]) == Some(b)
    ensures HexDecode(s) == Some(prefix + [b])
  {
  }

  /** Decoding an encoding gives the bytes back. */
  lemma {:induction false} HexDecodeEncode(bs: seq<byte>)
    ensures HexDecode(HexEncode(bs)) == Some(bs)
  {
    if bs == [] {
      assert HexEncode(bs) == [];
    } else {
      var init, b := bs[..|bs| - 1], bs[|bs| - 1];
      var s := HexEncode(bs);
      assert HexDecode(s[..|s| - 2]) == Some(init) by {
        HexEncodeLast(bs);
        HexDecodeEncode(init);
      }
      assert HexByte(s[|s| - 2], s[|s| - 1]) == Some(b) by {
        HexEncodeLast(bs);
        HexPairDecodes(b);
      }
      HexDecodeLastPair(s, init, b);
      SplitLast(bs);
    }
  }

  /**
   * GenerateRandomToken(n): fill an n-byte buffer from the random source (the
   * first n bytes of `source`) and hex-encode it.
   */
  method GenerateRandomToken(n: int, source: seq<byte>) returns (token: string)
    requires 0 <= n <= |source|
    ensures |token| == 2 * n
    ensures AllLowerHex(token)
    ensures HexDecode(token) == Some(source[..n])
  {
    var bytes := new byte[n];
    for i := 0 to n
      invariant bytes[..i] == source[..i]
    {
      bytes[i] := source[i];
    }
    token := [];
    for i := 0 to n
      invariant token == HexEncode(bytes[..i])
    {
      assert bytes[..i + 1][..i] == bytes[..i];
      token := token + HexPair(bytes[i]);
    }
    assert bytes[..n] == source[..n];
    HexDecodeEncode(source[..n]);
  }
}
