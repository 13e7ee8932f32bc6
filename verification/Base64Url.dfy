/** Unpadded base64url (section 5 of RFC 4648) as Go's `RawURLEncoding` does it. */
module Base64Url {
  import opened Wrappers

  type Byte = n: int | 0 <= n < 256
  type Bytes = seq<Byte>

  const DOT: Byte := 46

  /** The alphabet, from six bits to a character. */
  function Letter(v: int): (c: Byte)
    requires 0 <= v < 64
    ensures InAlphabet(c) && Sextet(c) == v
  {
    if v < 26 then 65 + v
    else if v < 52 then 71 + v
    else if v < 62 then v - 4
    else if v == 62 then 45
    else 95
  }

  predicate InAlphabet(c: Byte) {
    65 <= c <= 90 || 97 <= c <= 122 || 48 <= c <= 57 || c == 45 || c == 95
  }

  function Sextet(c: Byte): (v: int)
    requires InAlphabet(c)
    ensures 0 <= v < 64
  {
    if 65 <= c <= 90 then c as int - 65
    else if 97 <= c <= 122 then c as int - 71
    else if 48 <= c <= 57 then c as int + 4
    else if c == 45 then 62
    else 63
  }

  /** The four six-bit groups of three bytes. */
  function S0(b0: Byte): (v: int)
    ensures 0 <= v < 64
  {
    b0 / 4
  }

  function S1(b0: Byte, b1: Byte): (v: int)
    ensures 0 <= v < 64
  {
    b0 % 4 * 16 + b1 / 16
  }

  function S2(b1: Byte, b2: Byte): (v: int)
    ensures 0 <= v < 64
  {
    b1 % 16 * 4 + b2 / 64
  }

  function S3(b2: Byte): (v: int)
    ensures 0 <= v < 64
  {
    b2 % 64
  }

  type Six = v: int | 0 <= v < 64

  /** The three bytes of four six-bit groups. */
  function B0(v0: Six, v1: Six): Byte { v0 * 4 + v1 / 16 }

  function B1(v1: Six, v2: Six): Byte { v1 % 16 * 16 + v2 / 4 }

  function B2(v2: Six, v3: Six): Byte { v2 % 4 * 64 + v3 }

  /** A short last group is filled with zero bits. */
  function Encode(b: Bytes): (s: Bytes)
    ensures forall c :: c in s ==> InAlphabet(c)
  {
    if |b| == 0 then []
    else if |b| == 1 then [Letter(S0(b[0])), Letter(S1(b[0], 0))]
    else if |b| == 2 then [Letter(S0(b[0])), Letter(S1(b[0], b[1])), Letter(S2(b[1], 0))]
    else
      [Letter(S0(b[0])), Letter(S1(b[0], b[1])), Letter(S2(b[1], b[2])), Letter(S3(b[2]))] + Encode(b[3..])
  }

  /** The decoder passes over line breaks. */
  function SkipBreaks(s: Bytes): Bytes {
    if s == [] then []
    else (if s[0] == 10 || s[0] == 13 then [] else [s[0]]) + SkipBreaks(s[1..])
  }

  /** Left-over low bits of a short last group are ignored, not required to be zero. */
  function DecodeGroups(s: Bytes): Option<Bytes>
    requires forall c :: c in s ==> InAlphabet(c)
  {
    if |s| == 0 then Some([])
    else if |s| == 1 then None
    else if |s| == 2 then Some([B0(Sextet(s[0]), Sextet(s[1]))])
    else if |s| == 3 then Some([B0(Sextet(s[0]), Sextet(s[1])), B1(Sextet(s[1]), Sextet(s[2]))])
    else
      match DecodeGroups(s[4..])
      case None => None
      case Some(rest) =>
        Some([B0(Sextet(s[0]), Sextet(s[1])), B1(Sextet(s[1]), Sextet(s[2])), B2(Sextet(s[2]), Sextet(s[3]))] + rest)
  }

  function Decode(s: Bytes): Option<Bytes> {
    var t := SkipBreaks(s);
    if forall c :: c in t ==> InAlphabet(c) then DecodeGroups(t) else None
  }

  lemma {:induction false} SkipsNothing(s: Bytes)
    requires forall c :: c in s ==> InAlphabet(c)
    ensures SkipBreaks(s) == s
  {
    if s == [] {
    } else {
      assert s[0] in s && s == [s[0]] + s[1..];
      SkipsNothing(s[1..]);
    }
  }

  /** Three bytes and their four groups are the same 24 bits, most significant first; short ends are filled with zeros. */
  lemma GroupsAreBits(b0: Byte, b1: Byte, b2: Byte)
    ensures ((S0(b0) * 64 + S1(b0, b1)) * 64 + S2(b1, b2)) * 64 + S3(b2) == (b0 * 256 + b1) * 256 + b2
    ensures S0(b0) * 64 + S1(b0, 0) == b0 * 16
    ensures (S0(b0) * 64 + S1(b0, b1)) * 64 + S2(b1, 0) == (b0 * 256 + b1) * 4
  {
  }

  /** The alphabet of table 2 in section 5 of RFC 4648. */
  lemma Alphabet(v: Six)
    ensures v <= 25 ==> Letter(v) == 'A' as int + v
    ensures 26 <= v <= 51 ==> Letter(v) == 'a' as int + v - 26
    ensures 52 <= v <= 61 ==> Letter(v) == '0' as int + v - 52
    ensures Letter(62) == '-' as int && Letter(63) == '_' as int
  {
  }

  /** Six-bit groups put together again give the bytes back. */
  lemma Regroup(b0: Byte, b1: Byte, b2: Byte)
    ensures B0(S0(b0), S1(b0, b1)) == b0
    ensures B1(S1(b0, b1), S2(b1, b2)) == b1
    ensures B2(S2(b1, b2), S3(b2)) == b2
  {
  }

  lemma RegroupShort(b0: Byte, b1: Byte)
    ensures B0(S0(b0), S1(b0, 0)) == b0 && B0(S0(b0), S1(b0, b1)) == b0
    ensures B1(S1(b0, b1), S2(b1, 0)) == b1
  {
  }

  lemma LettersDecode(e: Bytes, v0: Six, v1: Six)
    requires e == [Letter(v0), Letter(v1)]
    ensures (forall c :: c in e ==> InAlphabet(c)) && DecodeGroups(e) == Some([B0(v0, v1)])
  {
  }

  lemma ThreeLettersDecode(e: Bytes, v0: Six, v1: Six, v2: Six)
    requires e == [Letter(v0), Letter(v1), Letter(v2)]
    ensures (forall c :: c in e ==> InAlphabet(c)) && DecodeGroups(e) == Some([B0(v0, v1), B1(v1, v2)])
  {
  }

  lemma OneByte(b0: Byte)
    ensures DecodeGroups(Encode([b0])) == Some([b0])
  {
    RegroupShort(b0, b0);
    LettersDecode(Encode([b0]), S0(b0), S1(b0, 0));
  }

  lemma TwoBytes(b0: Byte, b1: Byte)
    ensures DecodeGroups(Encode([b0, b1])) == Some([b0, b1])
  {
    RegroupShort(b0, b1);
    ThreeLettersDecode(Encode([b0, b1]), S0(b0), S1(b0, b1), S2(b1, 0));
  }

  lemma {:induction false} GroupsRoundTrip(b: Bytes)
    ensures DecodeGroups(Encode(b)) == Some(b)
  {
    if |b| == 1 {
      assert b == [b[0]];
      OneByte(b[0]);
    } else if |b| == 2 {
      assert b == [b[0], b[1]];
      TwoBytes(b[0], b[1]);
    } else if |b| > 2 {
      Regroup(b[0], b[1], b[2]);
      assert Encode(b)[4..] == Encode(b[3..]);
      GroupsRoundTrip(b[3..]);
      assert b == [b[0], b[1], b[2]] + b[3..];
    }
  }

  predicate IsBreak(c: Byte) { c == 10 || c == 13 }

  /** What the decoder takes: alphabet and line breaks only, and no single letter left over. */
  lemma DecodesIff(s: Bytes)
    ensures Decode(s).Some? <==>
            (forall c :: c in s ==> InAlphabet(c) || IsBreak(c)) && |SkipBreaks(s)| % 4 != 1
    ensures forall c :: c in SkipBreaks(s) <==> c in s && !IsBreak(c)
  {
    SkipsBreaks(s);
    var t := SkipBreaks(s);
    if forall c :: c in t ==> InAlphabet(c) {
      GroupsDecodeIff(t);
    }
  }

  lemma {:induction false} SkipsBreaks(s: Bytes)
    ensures forall c :: c in SkipBreaks(s) <==> c in s && !IsBreak(c)
  {
    if s == [] {
    } else {
      SkipsBreaks(s[1..]);
      assert s == [s[0]] + s[1..];
    }
  }

  lemma {:induction false} GroupsDecodeIff(s: Bytes)
    requires forall c :: c in s ==> InAlphabet(c)
    ensures DecodeGroups(s).Some? <==> |s| % 4 != 1
  {
    if |s| < 4 {
      ShortGroup(s);
    } else {
      var rest := s[4..];
      GroupsDecodeIff(rest);
      FourMore(s, rest);
    }
  }

  lemma ShortGroup(s: Bytes)
    requires |s| < 4 && forall c :: c in s ==> InAlphabet(c)
    ensures DecodeGroups(s).Some? <==> |s| != 1
  {
  }

  lemma FourMore(s: Bytes, rest: Bytes)
    requires |s| >= 4 && rest == s[4..] && forall c :: c in s ==> InAlphabet(c)
    ensures DecodeGroups(s).Some? <==> DecodeGroups(rest).Some?
    ensures |s| % 4 == |rest| % 4
  {
    SameModFour(|s|, |rest|);
  }

  lemma SameModFour(m: nat, n: nat)
    requires m == n + 4
    ensures m % 4 == n % 4
  {
  }

  /** So decoding is not one to one: a line break anywhere makes another text of the same bytes. */
  lemma BreakIgnored(s: Bytes, n: Byte, t: Bytes)
    requires IsBreak(n)
    ensures Decode(s + [n] + t) == Decode(s + t)
  {
    SkipConcat(s + [n], t);
    SkipConcat(s, [n]);
    SkipConcat(s, t);
    assert SkipBreaks([n]) == [] by { assert [n][1..] == []; }
    assert SkipBreaks(s) + [] == SkipBreaks(s);
  }

  lemma {:induction false} SkipConcat(s: Bytes, t: Bytes)
    ensures SkipBreaks(s + t) == SkipBreaks(s) + SkipBreaks(t)
  {
    if s == [] {
      assert s + t == t;
    } else {
      assert (s + t)[1..] == s[1..] + t;
      SkipConcat(s[1..], t);
    }
  }

  /** Decoding inverts encoding, and no encoding contains a dot. */
  lemma RoundTrip(b: Bytes)
    ensures Decode(Encode(b)) == Some(b)
    ensures DOT !in Encode(b)
  {
    SkipsNothing(Encode(b));
    GroupsRoundTrip(b);
  }
}
