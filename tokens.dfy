/** Session tokens: `generateToken` and the `jwt.verify` check the middleware
    relies on. The signature scheme is abstracted: a signed token is the
    payload followed by a tag that only the holder of the secret produces. */
module Tokens {
  import opened Common
  import opened Text
  import opened Numbers

  /** `expiresIn: "15d"`, in seconds. */
  const ExpiresInSeconds: nat := 15 * 24 * 60 * 60

  /** The decoded payload: `{ id }` plus the `iat` and `exp` claims (seconds). */
  datatype Token = Token(subject: nat, issuedAt: nat, expiresAt: nat)

  /** The signed, compact form of `t` under `secret`. */
  function Sign(t: Token, secret: string): string {
    NatToString(t.subject) + "." + NatToString(t.issuedAt) + "." + NatToString(t.expiresAt) + "." + secret
  }

  /** Cuts `s` at its first dot: the part before and the part after it. */
  function SplitDot(s: string): (r: Option<(string, string)>)
    ensures r.Some? ==> '.' !in r.value.0 && s == r.value.0 + "." + r.value.1
    ensures r.None? ==> '.' !in s
  {
    var a := BeforeFirst(s, '.');
    if |a| == |s| then None
    else
      assert s == a + "." + s[|a| + 1..] by {
        assert s == s[..|a|] + [s[|a|]] + s[|a| + 1..];
      }
      Some((a, s[|a| + 1..]))
  }

  /** Reading a signed token back: three numeric fields and the tag, which must
      match `secret`. Anything else, or an empty secret, fails. */
  function Decode(s: string, secret: string): (r: Option<Token>)
    ensures r.Some? ==> secret != ""
  {
    if secret == "" then None
    else match SplitDot(s)
      case None => None
      case Some((a, s1)) => match SplitDot(s1)
        case None => None
        case Some((b, s2)) => match SplitDot(s2)
          case None => None
          case Some((c, tag)) =>
            if tag != secret then None
            else match (ParseNat(a), ParseNat(b), ParseNat(c))
              case (Some(x), Some(y), Some(z)) => Some(Token(x, y, z))
              case _ => None
  }

  lemma DigitsHaveNoDot(n: nat)
    ensures '.' !in NatToString(n)
  {
    var s := NatToString(n);
    forall i | 0 <= i < |s| ensures s[i] != '.' {
      assert IsDigit(s[i]);
    }
  }

  /** Cutting a numeral joined to a tail by a dot gives back both parts. */
  lemma SplitNumeral(n: nat, tail: string)
    ensures SplitDot(NatToString(n) + "." + tail) == Some((NatToString(n), tail))
  {
    var s := NatToString(n) + "." + tail;
    DigitsHaveNoDot(n);
    BeforeFirstOfJoin(NatToString(n), '.', tail);
    assert s == NatToString(n) + ['.'] + tail;
    assert s[|NatToString(n)| + 1..] == tail;
  }

  /** A token signed with a secret decodes, under the same secret, to itself. */
  lemma DecodeSign(t: Token, secret: string)
    requires secret != ""
    ensures Decode(Sign(t, secret), secret) == Some(t)
  {
    var c := NatToString(t.expiresAt) + "." + secret;
    var b := NatToString(t.issuedAt) + "." + c;
    var s := NatToString(t.subject) + "." + b;
    assert Sign(t, secret) == s;
    SplitNumeral(t.subject, b);
    SplitNumeral(t.issuedAt, c);
    SplitNumeral(t.expiresAt, secret);
    ParseNatToString(t.subject);
    ParseNatToString(t.issuedAt);
    ParseNatToString(t.expiresAt);
  }

  /** A token signed with one secret does not decode under another. */
  lemma DecodeOtherSecret(t: Token, secret: string, other: string)
    requires other != secret
    ensures Decode(Sign(t, secret), other) == None
  {
    var c := NatToString(t.expiresAt) + "." + secret;
    var b := NatToString(t.issuedAt) + "." + c;
    var s := NatToString(t.subject) + "." + b;
    assert Sign(t, secret) == s;
    SplitNumeral(t.subject, b);
    SplitNumeral(t.issuedAt, c);
    SplitNumeral(t.expiresAt, secret);
  }

  /** `generateToken(id)` at time `now` (seconds): sign `{ id }` with a 15-day
      expiry. jsonwebtoken refuses to sign without a secret, which makes the
      call throw; that is `None` here. */
  function GenerateToken(id: nat, now: nat, secret: string): (r: Option<string>)
    ensures r.Some? <==> secret != ""
    ensures r.Some? ==> Decode(r.value, secret) == Some(Token(id, now, now + ExpiresInSeconds))
  {
    if secret == "" then None
    else
      DecodeSign(Token(id, now, now + ExpiresInSeconds), secret);
      Some(Sign(Token(id, now, now + ExpiresInSeconds), secret))
  }

  /** `jwt.verify(token, secret)` at time `now`: the token must decode under the
      secret and must not have expired (jsonwebtoken rejects once
      `now >= exp`). `None` stands for the error it throws. */
  function Verify(s: string, secret: string, now: nat): (r: Option<Token>)
    ensures r.Some? <==> Decode(s, secret).Some? && now < Decode(s, secret).value.expiresAt
    ensures r.Some? ==> r == Decode(s, secret)
  {
    match Decode(s, secret)
    case None => None
    case Some(t) => if now < t.expiresAt then Some(t) else None
  }

  /** A token issued at `iat` verifies, to the subject it was issued for,
      exactly until 15 days after issue (no lower bound on the clock). */
  lemma VerifyIssued(id: nat, iat: nat, now: nat, secret: string)
    requires secret != ""
    ensures var s := GenerateToken(id, iat, secret).value;
      (Verify(s, secret, now).Some? <==> now < iat + ExpiresInSeconds)
      && (Verify(s, secret, now).Some? ==> Verify(s, secret, now).value.subject == id)
  {
  }
}
