/** Signed admission tokens: base64url(claims) "." base64url(MAC of the encoded claims). */
module QrToken {
  import opened Wrappers
  import opened Base64Url

  datatype Claims = Claims(
    v: int, credentialId: Bytes, ticketId: Bytes, eventId: Bytes, tokenVersion: int, issuedAt: int, expiresAt: int)

  datatype Error = TokenMalformed | TokenInvalid | TokenExpired

  /** HMAC-SHA256 under the signing key, and the JSON codec of the claims. */
  datatype Generator = Generator(
    mac: Bytes -> Bytes, marshal: Claims -> Option<Bytes>, unmarshal: Bytes -> Option<Claims>)
  {
    function Generate(claims: Claims): Option<Bytes> {
      match marshal(claims)
      case None => None
      case Some(payload) =>
        var encodedPayload := Encode(payload);
        Some(encodedPayload + [DOT] + Encode(mac(encodedPayload)))
    }

    function Verify(token: Bytes, now: int): Result<Claims, Error> {
      if DOT !in token then Err(TokenMalformed)
      else
        var n := FirstDot(token);
        var encodedPayload, encodedSig := token[..n], token[n + 1..];
        match Decode(encodedSig)
        case None => Err(TokenMalformed)
        case Some(gotSig) =>
          if mac(encodedPayload) != gotSig then Err(TokenInvalid)
          else
            match Decode(encodedPayload)
            case None => Err(TokenMalformed)
            case Some(payload) =>
              match unmarshal(payload)
              case None => Err(TokenMalformed)
              case Some(claims) => if now > claims.expiresAt then Err(TokenExpired) else Ok(claims)
    }

    /** What the JSON codec makes of the claims: nothing if they cannot be written or read back. */
    function Decoded(claims: Claims): Option<Claims> {
      match marshal(claims)
      case None => None
      case Some(payload) => unmarshal(payload)
    }

    /** The JSON codec gives these claims back. */
    predicate Survives(claims: Claims) {
      Decoded(claims) == Some(claims)
    }
  }

  function FirstDot(s: Bytes): (n: nat)
    requires DOT in s
    ensures n < |s| && s[n] == DOT && DOT !in s[..n]
  {
    if s[0] == DOT then 0
    else
      assert s == [s[0]] + s[1..];
      var n := 1 + FirstDot(s[1..]);
      assert s[..n] == [s[0]] + s[1..][..n - 1];
      n
  }

  /** A text without dots in front of a dot is what the token is split at. */
  lemma {:induction false} SplitsAt(p: Bytes, sig: Bytes)
    requires DOT !in p
    ensures DOT in p + [DOT] + sig && FirstDot(p + [DOT] + sig) == |p|
  {
    var token := p + [DOT] + sig;
    assert token[|p|] == DOT;
    if p == [] {
    } else {
      assert token[0] == p[0] && token[1..] == p[1..] + [DOT] + sig;
      SplitsAt(p[1..], sig);
    }
  }

  /** What the encoded payload in front of the dot says, if it can be read. */
  function ClaimsOf(g: Generator, p: Bytes): Option<Claims> {
    match Decode(p)
    case None => None
    case Some(payload) => g.unmarshal(payload)
  }

  /**
   * Every token with a dot, split at its first one, and what it is refused for: a signature that is
   * the encoding of other bytes, claims that have expired, or anything in it that cannot be read.
   */
  lemma VerifyCases(g: Generator, p: Bytes, s: Bytes, now: int)
    requires DOT !in p
    ensures var v, claims, signed := g.Verify(p + [DOT] + s, now), ClaimsOf(g, p), Decode(s) == Some(g.mac(p));
            && (v == Err(TokenInvalid) <==> Decode(s).Some? && !signed)
            && (v == Err(TokenMalformed) <==> Decode(s).None? || (signed && claims.None?))
            && (v == Err(TokenExpired) <==> signed && claims.Some? && claims.value.expiresAt < now)
            && (v.Ok? <==> signed && claims.Some? && now <= claims.value.expiresAt)
            && (v.Ok? ==> v.value == claims.value)
  {
    SplitsAt(p, s);
    var token := p + [DOT] + s;
    assert token[..|p|] == p && token[|p| + 1..] == s;
  }

  lemma WithoutDot(g: Generator, token: Bytes, now: int)
    requires DOT !in token
    ensures g.Verify(token, now) == Err(TokenMalformed)
  {
  }

  /** A generated token whose signature is exchanged for that of other bytes is invalid at every time. */
  lemma OtherSignature(g: Generator, claims: Claims, sig: Bytes, now: int)
    requires g.marshal(claims).Some? && sig != g.mac(Encode(g.marshal(claims).value))
    ensures g.Verify(Encode(g.marshal(claims).value) + [DOT] + Encode(sig), now) == Err(TokenInvalid)
  {
    RoundTrip(g.marshal(claims).value);
    RoundTrip(sig);
    VerifyCases(g, Encode(g.marshal(claims).value), Encode(sig), now);
  }

  /** A generated token carries what the JSON codec makes of its claims, up to and including that expiry. */
  lemma VerifyOwn(g: Generator, claims: Claims, now: int)
    requires g.marshal(claims).Some?
    ensures g.Generate(claims).Some?
    ensures g.Verify(g.Generate(claims).value, now) ==
            match g.Decoded(claims)
            case None => Err(TokenMalformed)
            case Some(c) => if now <= c.expiresAt then Ok(c) else Err(TokenExpired)
  {
    var payload := g.marshal(claims).value;
    var p := Encode(payload);
    var sig := g.mac(p);
    var token := p + [DOT] + Encode(sig);
    RoundTrip(payload);
    RoundTrip(sig);
    SplitsAt(p, Encode(sig));
    assert token[..|p|] == p && token[|p| + 1..] == Encode(sig);
  }

  /** For claims that survive the codec: accepted as they are up to and including their expiry, and expired from then on. */
  lemma VerifyGenerated(g: Generator, claims: Claims, now: int)
    requires g.Survives(claims)
    ensures g.Generate(claims).Some?
    ensures g.Verify(g.Generate(claims).value, now) == if now <= claims.expiresAt then Ok(claims) else Err(TokenExpired)
  {
    VerifyOwn(g, claims, now);
  }

  /** The text before the first dot is what `Generate` signs for some claims of `issued`. */
  ghost predicate Signed(g: Generator, issued: set<Claims>, p: Bytes) {
    exists c :: c in issued && g.marshal(c).Some? && p == Encode(g.marshal(c).value)
  }

  /**
   * An idealised MAC: whoever made `token` can show the MAC of the text before its first dot only if
   * that text was signed by `Generate` for some claims of `issued`.
   */
  ghost predicate Unforged(g: Generator, issued: set<Claims>, token: Bytes) {
    DOT in token && Decode(token[FirstDot(token) + 1..]) == Some(g.mac(token[..FirstDot(token)])) ==>
      Signed(g, issued, token[..FirstDot(token)])
  }

  /** Every token `Generate` makes for issued claims is unforged. */
  lemma GeneratedIsUnforged(g: Generator, issued: set<Claims>, claims: Claims)
    requires claims in issued && g.marshal(claims).Some?
    ensures Unforged(g, issued, g.Generate(claims).value)
  {
    var p := Encode(g.marshal(claims).value);
    RoundTrip(g.marshal(claims).value);
    SplitsAt(p, Encode(g.mac(p)));
    assert g.Generate(claims).value[..|p|] == p;
  }

  /** Under an idealised MAC every accepted token carries what the codec makes of some issued claims, not yet expired. */
  lemma AcceptedWasSigned(g: Generator, issued: set<Claims>, token: Bytes, now: int)
    requires Unforged(g, issued, token) && g.Verify(token, now).Ok?
    ensures exists c :: c in issued && g.Decoded(c) == Some(g.Verify(token, now).value)
    ensures now <= g.Verify(token, now).value.expiresAt
  {
    var p := token[..FirstDot(token)];
    var c :| c in issued && g.marshal(c).Some? && p == Encode(g.marshal(c).value);
    RoundTrip(g.marshal(c).value);
    assert g.Decoded(c) == Some(g.Verify(token, now).value);
  }

  ghost predicate OnlyIssued(g: Generator, issued: set<Claims>) {
    forall token, now :: Unforged(g, issued, token) && g.Verify(token, now).Ok? ==> g.Verify(token, now).value in issued
  }

  /**
   * Under an idealised MAC accepted claims are always ones passed to `Generate` iff whatever the
   * codec makes of issued claims is issued too; so in particular if every issued claims value survives.
   */
  lemma AcceptedWasIssuedIff(g: Generator, issued: set<Claims>)
    ensures OnlyIssued(g, issued) <==>
            forall c :: c in issued && g.Decoded(c).Some? ==> g.Decoded(c).value in issued
    ensures (forall c :: c in issued ==> g.Survives(c)) ==> OnlyIssued(g, issued)
  {
    forall token, now | Unforged(g, issued, token) && g.Verify(token, now).Ok?
      ensures exists c :: c in issued && g.Decoded(c) == Some(g.Verify(token, now).value)
    {
      AcceptedWasSigned(g, issued, token, now);
    }
    if OnlyIssued(g, issued) {
      forall c | c in issued && g.Decoded(c).Some? ensures g.Decoded(c).value in issued {
        ChangedClaims(g, issued, c);
      }
    }
  }

  /** A token of issued claims the codec changes is genuine, and is accepted with the changed claims. */
  lemma ChangedClaims(g: Generator, issued: set<Claims>, c: Claims)
    requires c in issued && g.Decoded(c).Some?
    ensures g.Generate(c).Some? && Unforged(g, issued, g.Generate(c).value)
    ensures g.Verify(g.Generate(c).value, g.Decoded(c).value.expiresAt) == Ok(g.Decoded(c).value)
  {
    GeneratedIsUnforged(g, issued, c);
    VerifyOwn(g, c, g.Decoded(c).value.expiresAt);
  }

  /** Two generated tokens are the same only if they carry the same claims. */
  lemma GenerateInjective(g: Generator, a: Claims, b: Claims)
    requires g.Survives(a) && g.Survives(b) && g.Generate(a) == g.Generate(b)
    ensures a == b
  {
    VerifyGenerated(g, a, a.expiresAt);
    VerifyGenerated(g, b, a.expiresAt);
    VerifyGenerated(g, b, b.expiresAt);
    VerifyGenerated(g, a, b.expiresAt);
  }
}
