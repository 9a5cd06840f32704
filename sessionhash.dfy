/**
  The value stored in a lock row (rule.php, `get_session_hash` and
  `validate_session_hash`): `bin2hex(secret) . '|' . hash_hmac('sha256',
  fingerprint, secret)`, and the fail-closed parser that checks a stored value
  against the current fingerprint.

  HMAC-SHA256 (RFC 2104 over FIPS 180-4) is not computed here: `Hmac` is any
  deterministic function from a key and a message to a 32-byte digest, and
  `hash_hmac` returns that digest in lower-case hexadecimal. The random secret
  is an input; `None` stands for `random_bytes` failing.
 */
module SessionHash {

  import opened Wrappers
  import Php
  import Hex

  type byte = Hex.byte

  const ZeroDigest: seq<byte> := seq(32, _ => 0)

  /** A keyed digest with the output length of HMAC-SHA256: `Hmac(key, message)`. */
  type Hmac = f: (seq<byte>, string) -> seq<byte> | forall key, message :: |f(key, message)| == 32
    witness (key: seq<byte>, message: string) => ZeroDigest

  /** What `random_bytes(16)` returns when it succeeds. */
  type Secret = s: seq<byte> | |s| == 16 witness seq(16, _ => 0)

  /** A stored value that parsed: the decoded secret and the MAC text. */
  datatype SessionLock = SessionLock(secret: seq<byte>, mac: string)

  /** `hash_hmac('sha256', $message, $key)`: the digest as 64 lower-case hex digits. */
  function HashHmac(h: Hmac, message: string, key: seq<byte>): (mac: string)
    ensures |mac| == 64 && '|' !in mac
  {
    Hex.Encode(h(key, message))
  }

  /** The stored value for a given secret and fingerprint. */
  function SessionHashOf(secret: seq<byte>, fingerprint: string, h: Hmac): string
  {
    Hex.Encode(secret) + "|" + HashHmac(h, fingerprint, secret)
  }

  /** `explode($sep, $s, 2)` when `$sep` occurs: the text before its first occurrence and the rest. */
  function SplitAtFirst(s: string, sep: char): (r: Option<(string, string)>)
    ensures r.None? <==> sep !in s
    ensures r.Some? ==> s == r.value.0 + [sep] + r.value.1 && sep !in r.value.0
  {
    if s == "" then None
    else if s[0] == sep then Some(("", s[1..]))
    else
      match SplitAtFirst(s[1..], sep)
      case None => None
      case Some(parts) =>
        assert s == [s[0]] + s[1..];
        Some(([s[0]] + parts.0, parts.1))
  }

  /** The split is determined by the first separator: any way of writing `a + sep + b` with no separator in `a` is it. */
  lemma {:induction false} SplitAtFirstOf(a: string, b: string, sep: char)
    requires sep !in a
    ensures SplitAtFirst(a + [sep] + b, sep) == Some((a, b))
  {
    var s := a + [sep] + b;
    if a == "" {
      assert s == [sep] + b;
    } else {
      assert s[0] == a[0] && s[1..] == a[1..] + [sep] + b;
      SplitAtFirstOf(a[1..], b, sep);
      assert [a[0]] + a[1..] == a;
    }
  }

  /**
    The parsing half of `validate_session_hash`: reject an empty value, a value
    without `|`, an empty secret or MAC segment, or a secret that is not hex.
   */
  function ParseSessionHash(stored: string): (r: Option<SessionLock>)
    ensures r.Some? ==> r.value.secret != [] && r.value.mac != ""
    ensures r.Some? ==>
              var n := |stored| - |r.value.mac| - 1;
              0 < n && stored[n] == '|' && '|' !in stored[..n]
              && stored[n + 1..] == r.value.mac && Hex.Decode(stored[..n]) == Some(r.value.secret)
  {
    if Php.IsEmptyString(stored) || '|' !in stored then None
    else
      var parts := SplitAtFirst(stored, '|').value;
      var secretHex, storedHash := parts.0, parts.1;
      if secretHex == "" || storedHash == "" then None
      else
        match Hex.Decode(secretHex)
        case None => None
        case Some(secret) =>
          assert stored[..|secretHex|] == secretHex;
          assert stored[|secretHex| + 1..] == storedHash;
          Some(SessionLock(secret, storedHash))
  }

  /**
    `validate_session_hash`: true only when the value parses and the MAC of the
    current fingerprint under the stored secret equals the stored MAC.
   */
  function ValidateSessionHash(stored: string, fingerprint: string, h: Hmac): (ok: bool)
    ensures ok ==> ParseSessionHash(stored).Some?
  {
    match ParseSessionHash(stored)
    case None => false
    case Some(lock) => HashHmac(h, fingerprint, lock.secret) == lock.mac
  }

  /**
    `get_session_hash`: a coding exception when the random source fails,
    otherwise a value that parses back to the secret and validates against the
    fingerprint it was made from.
   */
  function GetSessionHash(fingerprint: string, rng: Option<Secret>, h: Hmac): (r: Result<string, Php.Exception>)
    ensures r.Failure? <==> rng.None?
    ensures r.Failure? ==> r.error.CodingException?
    ensures r.Success? ==> ParseSessionHash(r.value) == Some(SessionLock(rng.value, HashHmac(h, fingerprint, rng.value)))
    ensures r.Success? ==> ValidateSessionHash(r.value, fingerprint, h)
  {
    match rng
    case None => Failure(Php.CodingException("Could not generate random bytes for session hash."))
    case Some(secret) =>
      ParseRoundTrip(secret, HashHmac(h, fingerprint, secret));
      Success(SessionHashOf(secret, fingerprint, h))
  }

  /**
    The whole parser on a value that contains `|`, written as `a + "|" + b`
    with no `|` in `a`: it succeeds exactly when both segments are non-empty
    and `a` is valid hex.
   */
  lemma ParseSplit(a: string, b: string)
    requires '|' !in a
    ensures ParseSessionHash(a + "|" + b)
         == if a != "" && b != "" && Hex.Decode(a).Some? then Some(SessionLock(Hex.Decode(a).value, b)) else None
  {
    var s := a + "|" + b;
    assert s[|a|] == '|';
    SplitAtFirstOf(a, b, '|');
  }

  /** Round trip of the parser on a non-empty secret and a non-empty MAC. */
  lemma ParseRoundTrip(secret: seq<byte>, mac: string)
    requires secret != [] && mac != ""
    ensures ParseSessionHash(Hex.Encode(secret) + "|" + mac) == Some(SessionLock(secret, mac))
  {
    Hex.DecodeEncode(secret);
    ParseSplit(Hex.Encode(secret), mac);
  }

  /**
    On a well-formed stored value, validation succeeds exactly when the stored
    MAC equals the MAC of the current fingerprint under the stored secret.
   */
  lemma ValidateExact(secret: seq<byte>, mac: string, fingerprint: string, h: Hmac)
    requires secret != [] && mac != ""
    ensures ValidateSessionHash(Hex.Encode(secret) + "|" + mac, fingerprint, h) <==> mac == HashHmac(h, fingerprint, secret)
  {
    ParseRoundTrip(secret, mac);
  }

  /**
    Validation on every value that contains a separator, in either hex case:
    it succeeds exactly when both segments are non-empty, the secret segment
    decodes, and the MAC segment equals the MAC of the current fingerprint
    under the decoded secret.
   */
  lemma ValidateSplit(a: string, b: string, fingerprint: string, h: Hmac)
    requires '|' !in a
    ensures ValidateSessionHash(a + "|" + b, fingerprint, h)
        <==> a != "" && b != "" && Hex.Decode(a).Some? && b == HashHmac(h, fingerprint, Hex.Decode(a).value)
  {
    ParseSplit(a, b);
  }

  /** Fail-closed: every malformed value is rejected, whatever the fingerprint. */
  lemma RejectsMalformed(stored: string, fingerprint: string, h: Hmac)
    ensures Php.IsEmptyString(stored) ==> !ValidateSessionHash(stored, fingerprint, h)
    ensures '|' !in stored ==> !ValidateSessionHash(stored, fingerprint, h)
    ensures forall b :: !ValidateSessionHash("|" + b, fingerprint, h)
  {
    forall b ensures !ValidateSessionHash("|" + b, fingerprint, h) {
      ParseSplit("", b);
      assert "" + "|" + b == "|" + b;
    }
  }

  /** Fail-closed on the segments: an empty MAC, an odd-length secret or a non-hex character. */
  lemma RejectsMalformedSegments(a: string, b: string, fingerprint: string, h: Hmac)
    requires '|' !in a
    requires b == "" || |a| % 2 == 1 || exists i :: 0 <= i < |a| && !Hex.IsHexDigit(a[i])
    ensures !ValidateSessionHash(a + "|" + b, fingerprint, h)
  {
    ParseSplit(a, b);
  }

  /** The value made for a fingerprint validates against that same fingerprint. */
  lemma ValidateRoundTrip(secret: seq<byte>, fingerprint: string, h: Hmac)
    requires secret != []
    ensures ValidateSessionHash(SessionHashOf(secret, fingerprint, h), fingerprint, h)
  {
    ParseRoundTrip(secret, HashHmac(h, fingerprint, secret));
  }

  /**
    Against another fingerprint, the value validates exactly when the two
    fingerprints have the same digest under the secret: a changed fingerprint
    is accepted only through an HMAC collision.
   */
  lemma ValidateOtherFingerprint(secret: seq<byte>, fingerprint: string, other: string, h: Hmac)
    requires secret != []
    ensures ValidateSessionHash(SessionHashOf(secret, fingerprint, h), other, h)
        <==> h(secret, other) == h(secret, fingerprint)
  {
    ParseRoundTrip(secret, HashHmac(h, fingerprint, secret));
    Hex.EncodeInjective(h(secret, other), h(secret, fingerprint));
  }
}
