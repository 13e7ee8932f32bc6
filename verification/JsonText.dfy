/** `JSON.stringify` on strings: section 7 of RFC 8259, with lone surrogates escaped. */
module JsonText {
  import opened Text
  import opened Unicode

  const QUOTE: Unit := 34
  const BACKSLASH: Unit := 92

  function HexDigit(d: int): Unit
    requires 0 <= d < 16
  {
    if d < 10 then 48 + d else 87 + d
  }

  function Hex2(b: int): (t: Text)
    requires 0 <= b < 256
    ensures |t| == 2
  {
    [HexDigit(b / 16), HexDigit(b % 16)]
  }

  /** Four lower-case hexadecimal digits, most significant first. */
  function Hex4(c: Unit): (t: Text)
    ensures |t| == 4
  {
    Hex2(c / 256) + Hex2(c % 256)
  }

  /** The letter of a two-character escape, if `c` has one. */
  function ShortEscape(c: Unit): Unit {
    match c
    case 8 => 98
    case 9 => 116
    case 10 => 110
    case 12 => 102
    case 13 => 114
    case 34 => 34
    case 92 => 92
    case _ => 0
  }

  function EscapeUnit(c: Unit): Text {
    if ShortEscape(c) != 0 then [BACKSLASH, ShortEscape(c)]
    else if c < 32 || Surrogate(c) then [BACKSLASH, 117] + Hex4(c)
    else [c]
  }

  /** The output for the next code point: a surrogate pair is copied as it is. */
  function Chunk(s: Text): (t: Text)
    requires s != []
    ensures t != [] && t[0] != QUOTE
  {
    if StartsWithPair(s) then s[..2] else EscapeUnit(s[0])
  }

  function Escape(s: Text): Text {
    if s == [] then [] else Chunk(s) + Escape(s[Taken(s)..])
  }

  function Quote(s: Text): Text {
    [QUOTE] + Escape(s) + [QUOTE]
  }

  lemma HexInjective(c: Unit, d: Unit)
    requires Hex4(c) == Hex4(d)
    ensures c == d
  {
    assert Hex4(c)[..2] == Hex2(c / 256) && Hex4(d)[..2] == Hex2(d / 256);
    assert Hex4(c)[2..] == Hex2(c % 256) && Hex4(d)[2..] == Hex2(d % 256);
    Hex2Injective(c / 256, d / 256);
    Hex2Injective(c % 256, d % 256);
  }

  lemma Hex2Injective(a: int, b: int)
    requires 0 <= a < 256 && 0 <= b < 256 && Hex2(a) == Hex2(b)
    ensures a == b
  {
    assert Hex2(a)[0] == Hex2(b)[0] && Hex2(a)[1] == Hex2(b)[1];
  }

  /** Which units are escaped, and how: the short escapes of section 7 of RFC 8259, else four hexadecimal digits. */
  lemma EscapeMeaning(c: Unit)
    ensures c in [8, 9, 10, 12, 13, 34, 92] ==> EscapeUnit(c) == [BACKSLASH, ShortEscape(c)]
    ensures ShortEscape(8) == 'b' as int && ShortEscape(9) == 't' as int && ShortEscape(10) == 'n' as int
    ensures ShortEscape(12) == 'f' as int && ShortEscape(13) == 'r' as int && ShortEscape(34) == 34 && ShortEscape(92) == 92
    ensures c !in [8, 9, 10, 12, 13, 34, 92] && c >= 32 && !Surrogate(c) ==> EscapeUnit(c) == [c]
    ensures c !in [8, 9, 10, 12, 13, 34, 92] && (c < 32 || Surrogate(c)) ==>
              EscapeUnit(c) == [BACKSLASH, 'u' as int] + Hex4(c) && HexValue(Hex4(c)) == c
  {
  }

  function DigitValue(c: int): int { if c >= 'a' as int then c - 'a' as int + 10 else c - '0' as int }

  /** The number four lower-case hexadecimal digits denote. */
  function HexValue(t: Text): int
    requires |t| == 4
  {
    ((DigitValue(t[0]) * 16 + DigitValue(t[1])) * 16 + DigitValue(t[2])) * 16 + DigitValue(t[3])
  }

  /** Escaped units form a prefix code. */
  lemma EscapeUnitPrefixFree(c: Unit, d: Unit, r: Text, q: Text)
    requires EscapeUnit(c) + r == EscapeUnit(d) + q
    ensures c == d && r == q
  {
    var u, w := EscapeUnit(c), EscapeUnit(d);
    var t := u + r;
    assert t[0] == u[0] == w[0];
    if u[0] == BACKSLASH {
      assert t[1] == u[1] == w[1];
    }
    assert |u| == |w|;
    assert t[..|u|] == u == w;
    assert t[|u|..] == r && (w + q)[|w|..] == q;
    if |u| == 6 {
      assert u[2..] == Hex4(c) && w[2..] == Hex4(d);
      HexInjective(c, d);
    }
  }

  /** Every chunk is told apart from every other, and from the closing quote, by its first units. */
  lemma ChunkPrefixFree(s: Text, t: Text, r: Text, q: Text)
    requires s != [] && t != [] && Chunk(s) + r == Chunk(t) + q
    ensures Taken(s) == Taken(t) && s[..Taken(s)] == t[..Taken(t)] && r == q
  {
    var x := Chunk(s) + r;
    assert x[0] == Chunk(s)[0] == Chunk(t)[0];
    if StartsWithPair(s) {
      assert x[1] == s[1] == t[1];
      assert x[2..] == r && (Chunk(t) + q)[2..] == q;
    } else {
      EscapeUnitPrefixFree(s[0], t[0], r, q);
    }
  }

  /** What is left of a quoted string once its opening quote is read, and what follows it. */
  function Closing(s: Text, r: Text): Text { Escape(s) + ([QUOTE] + r) }

  lemma ClosingUnfold(s: Text, r: Text)
    ensures s == [] ==> Closing(s, r) == [QUOTE] + r
    ensures s != [] ==> Closing(s, r) == Chunk(s) + Closing(s[Taken(s)..], r)
  {
  }

  /** An escaped string is ended by the first bare quote. */
  lemma {:induction false} EscapeDelimited(s: Text, t: Text, r: Text, q: Text)
    requires Closing(s, r) == Closing(t, q)
    ensures s == t && r == q
  {
    ClosingUnfold(s, r);
    ClosingUnfold(t, q);
    assert Closing(s, r)[0] == Closing(t, q)[0];
    if s == [] || t == [] {
      assert ([QUOTE] + r)[1..] == r && ([QUOTE] + q)[1..] == q;
    } else {
      var s', t' := s[Taken(s)..], t[Taken(t)..];
      ChunkPrefixFree(s, t, Closing(s', r), Closing(t', q));
      EscapeDelimited(s', t', r, q);
      assert s == s[..Taken(s)] + s' && t == t[..Taken(t)] + t';
    }
  }

  lemma QuoteDelimited(s: Text, t: Text, r: Text, q: Text)
    requires Quote(s) + r == Quote(t) + q
    ensures s == t && r == q
  {
    Unquote(s, r);
    Unquote(t, q);
    EscapeDelimited(s, t, r, q);
  }

  lemma Unquote(s: Text, r: Text)
    ensures (Quote(s) + r)[1..] == Closing(s, r)
  {
    assert Quote(s) + r == [QUOTE] + Closing(s, r);
  }

  /** No control character, so no newline, and no lone surrogate. */
  predicate Plain(t: Text) { (forall c :: c in t ==> c >= 32) && Paired(t) }

  lemma PlainConcat(s: Text, t: Text)
    requires Plain(s) && Plain(t)
    ensures Plain(s + t)
  {
    PairedConcat(s, t);
  }

  lemma PlainUnits(t: Text)
    requires forall c :: c in t ==> c >= 32 && !Surrogate(c)
    ensures Plain(t)
  {
    NoSurrogatesPaired(t);
  }

  lemma EscapeUnitPlain(c: Unit)
    ensures Plain(EscapeUnit(c))
  {
    PlainUnits(EscapeUnit(c));
  }

  /** Whatever the string, its quoted form is plain. */
  lemma QuotePlain(s: Text)
    ensures Plain(Quote(s))
  {
    EscapePlain(s);
    PlainUnits([QUOTE]);
    PlainConcat([QUOTE], Escape(s));
    PlainConcat([QUOTE] + Escape(s), [QUOTE]);
  }

  lemma {:induction false} EscapePlain(s: Text)
    ensures Plain(Escape(s))
  {
    if s == [] {
    } else {
      EscapePlain(s[Taken(s)..]);
      if StartsWithPair(s) {
        assert s[..2][2..] == [];
      } else {
        EscapeUnitPlain(s[0]);
      }
      PlainConcat(Chunk(s), Escape(s[Taken(s)..]));
    }
  }
}
