/** The X-User-Id-Sig header: a MAC over the user id and the minute. */
module UserIdSignature {
  import opened Text

  const BAR: Unit := 124

  /** Go's integer division, which truncates towards zero. */
  function Quotient(a: int, b: int): int
    requires b > 0
  {
    if a >= 0 then a / b else -(-a / b)
  }

  function Minute(second: int): int { Quotient(second, 60) }

  function Message(userId: Text, minute: int): Text { userId + [BAR] + Decimal(minute) }

  /** `tag` is the base64 text of the HMAC under the configured key; an empty key turns the check off. */
  datatype Validator = Validator(keyIsEmpty: bool, tag: Text -> Text) {
    function ComputeSignature(userId: Text, minute: int): Text { tag(Message(userId, minute)) }

    predicate IsValidSignature(userId: Text, signature: Text, now: int) {
      if keyIsEmpty then true
      else if signature == [] then false
      else if userId == [] then false
      else
        var currentMinute := Minute(now);
        || ComputeSignature(userId, currentMinute) == signature
        || ComputeSignature(userId, currentMinute - 1) == signature
    }
  }

  /** The signed message determines user and minute, whatever the user id contains. */
  lemma MessageDetermines(u: Text, m: int, u': Text, m': int)
    ensures Message(u, m) == Message(u', m') <==> u == u' && m == m'
  {
    if Message(u, m) == Message(u', m') {
      LastSplit(BAR, u, Decimal(m), u', Decimal(m'));
      DecimalInjective(m, m');
    }
  }

  /**
   * Every signature: it is accepted iff there is no key, or it is the tag of this user and the minute
   * of `now` or the one before, neither user nor signature being empty.
   */
  lemma ValidIff(v: Validator, userId: Text, signature: Text, now: int)
    ensures v.IsValidSignature(userId, signature, now) <==>
            || v.keyIsEmpty
            || (userId != [] && signature != [] &&
                exists m :: Minute(now) - 1 <= m <= Minute(now) && signature == v.tag(userId + ['|' as int] + Decimal(m)))
  {
    var m := Minute(now);
    assert v.ComputeSignature(userId, m) == v.tag(userId + [BAR] + Decimal(m));
    assert v.ComputeSignature(userId, m - 1) == v.tag(userId + [BAR] + Decimal(m - 1));
  }

  /** With a key a request without a user or without a signature is never accepted. */
  lemma NothingMissing(v: Validator, userId: Text, signature: Text, now: int)
    requires !v.keyIsEmpty && (userId == [] || signature == [])
    ensures !v.IsValidSignature(userId, signature, now)
  {
    ValidIff(v, userId, signature, now);
  }

  /** If the message checked has the signed message's tag, it is the signed message. */
  predicate NoCollision(v: Validator, checked: Text, signed: Text) {
    v.tag(checked) == v.tag(signed) ==> checked == signed
  }

  /**
   * With a key, a signature is accepted for the user it was made for, in its own minute and the next,
   * and for no other; never for an empty user. Without one everything is accepted.
   */
  lemma AcceptedIff(v: Validator, signer: Text, signedAt: int, userId: Text, now: int)
    requires NoCollision(v, Message(userId, Minute(now)), Message(signer, Minute(signedAt)))
    requires NoCollision(v, Message(userId, Minute(now) - 1), Message(signer, Minute(signedAt)))
    ensures v.IsValidSignature(userId, v.ComputeSignature(signer, Minute(signedAt)), now)
            <==> || v.keyIsEmpty
                 || (userId != [] && v.ComputeSignature(signer, Minute(signedAt)) != [] &&
                     userId == signer && 0 <= Minute(now) - Minute(signedAt) <= 1)
  {
    var m := Minute(signedAt);
    MessageDetermines(userId, Minute(now), signer, m);
    MessageDetermines(userId, Minute(now) - 1, signer, m);
  }

  /** On a clock past 1970 that is: always for 60 s, and never from 120 s on. */
  lemma ReplayWindow(v: Validator, userId: Text, signedAt: nat, now: nat)
    requires !v.keyIsEmpty && userId != [] && v.ComputeSignature(userId, Minute(signedAt)) != []
    requires NoCollision(v, Message(userId, Minute(now)), Message(userId, Minute(signedAt)))
    requires NoCollision(v, Message(userId, Minute(now) - 1), Message(userId, Minute(signedAt)))
    requires signedAt <= now
    ensures now - signedAt <= 60 ==> v.IsValidSignature(userId, v.ComputeSignature(userId, Minute(signedAt)), now)
    ensures now - signedAt >= 120 ==> !v.IsValidSignature(userId, v.ComputeSignature(userId, Minute(signedAt)), now)
  {
    AcceptedIff(v, userId, signedAt, userId, now);
  }

  /** So a signature can outlive a minute: made at the start of one, it still passes 119 s later. */
  lemma AcceptedAfter119Seconds(v: Validator, userId: Text)
    requires userId != [] && v.ComputeSignature(userId, 0) != []
    ensures v.IsValidSignature(userId, v.ComputeSignature(userId, Minute(0)), 119)
  {
    assert Minute(119) == 1 && Minute(0) == 0;
  }
}
