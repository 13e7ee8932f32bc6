/** The code points of a string of UTF-16 code units, and their UTF-8 (section 3 of RFC 3629). */
module Unicode {
  import opened Text

  const REPLACEMENT: Unit := 0xFFFD

  predicate HighSurrogate(c: Unit) { 0xD800 <= c <= 0xDBFF }

  predicate LowSurrogate(c: Unit) { 0xDC00 <= c <= 0xDFFF }

  predicate Surrogate(c: Unit) { HighSurrogate(c) || LowSurrogate(c) }

  predicate StartsWithPair(s: Text) {
    |s| >= 2 && HighSurrogate(s[0]) && LowSurrogate(s[1])
  }

  /** How many units the first code point takes. */
  function Taken(s: Text): (n: nat)
    requires s != []
    ensures 1 <= n <= |s|
  {
    if StartsWithPair(s) then 2 else 1
  }

  /** Every surrogate is half of a pair. */
  predicate Paired(s: Text) {
    s == [] || ((StartsWithPair(s) || !Surrogate(s[0])) && Paired(s[Taken(s)..]))
  }

  type Point = p: int | 0 <= p < 0x110000

  function FirstPoint(s: Text): Point
    requires s != []
  {
    if StartsWithPair(s) then
      var high: int, low: int := s[0], s[1];
      0x10000 + (high - 0xD800) * 0x400 + (low - 0xDC00)
    else if Surrogate(s[0]) then REPLACEMENT
    else s[0]
  }

  /** The code points of a string, a lone surrogate read as the replacement character. */
  function Points(s: Text): seq<Point> {
    if s == [] then [] else [FirstPoint(s)] + Points(s[Taken(s)..])
  }

  /** A continuation byte. */
  function Tail(n: nat): Unit { 0x80 + n % 64 }

  function Encode(p: Point): (t: Text)
    ensures t != [] && forall b :: b in t ==> b < 256
  {
    if p < 0x80 then [p]
    else if p < 0x800 then [0xC0 + p / 64, Tail(p)]
    else if p < 0x10000 then [0xE0 + p / 64 / 64, Tail(p / 64), Tail(p)]
    else [0xF0 + p / 64 / 64 / 64, Tail(p / 64 / 64), Tail(p / 64), Tail(p)]
  }

  function EncodeAll(ps: seq<Point>): Text {
    if ps == [] then [] else Encode(ps[0]) + EncodeAll(ps[1..])
  }

  /** The bytes of a string. */
  function Utf8(s: Text): Text { EncodeAll(Points(s)) }

  /** The low bits of a continuation byte, and of the first byte of a sequence of `n`. */
  function Bits(b: int): int { b - 0x80 }

  function FirstBits(b: int, n: nat): int { if n == 1 then b else if n == 2 then b - 0xC0 else if n == 3 then b - 0xE0 else b - 0xF0 }

  /** The bytes of a code point: as many as it needs, of the ranges given, and together its bits. */
  lemma EncodeMeaning(p: Point)
    ensures var t := Encode(p);
            && |t| == (if p <= 0x7F then 1 else if p <= 0x7FF then 2 else if p <= 0xFFFF then 3 else 4)
            && (forall i :: 1 <= i < |t| ==> 0x80 <= t[i] <= 0xBF)
            && (|t| == 2 ==> 0xC2 <= t[0] <= 0xDF && p == FirstBits(t[0], 2) * 64 + Bits(t[1]))
            && (|t| == 3 ==> 0xE0 <= t[0] <= 0xEF && p == (FirstBits(t[0], 3) * 64 + Bits(t[1])) * 64 + Bits(t[2]))
            && (|t| == 4 ==> 0xF0 <= t[0] <= 0xF4 &&
                             p == ((FirstBits(t[0], 4) * 64 + Bits(t[1])) * 64 + Bits(t[2])) * 64 + Bits(t[3]))
            && (|t| == 1 ==> p == t[0])
  {
  }

  /** A pair is one code point: U+1F600 from its two halves, and its four bytes. */
  lemma PairExample()
    ensures Points([0xD83D, 0xDE00]) == [0x1F600] && Encode(0x1F600) == [0xF0, 0x9F, 0x98, 0x80]
  {
    var s: Text := [0xD83D, 0xDE00];
    assert s[2..] == [] && FirstPoint(s) == 0x1F600 && Points([]) == [];
  }

  // ---- Equal bytes -------------------------------------------------------------------------

  lemma TailInjective(m: nat, n: nat)
    requires m / 64 == n / 64 && Tail(m) == Tail(n)
    ensures m == n
  {
  }

  lemma EncodeInjective(p: Point, q: Point)
    requires Encode(p) == Encode(q)
    ensures p == q
  {
    var t, u := Encode(p), Encode(q);
    assert t[0] == u[0];
    if |t| > 3 {
      assert t[1] == u[1];
      TailInjective(p / 64 / 64, q / 64 / 64);
    }
    if |t| > 2 {
      assert t[|t| - 2] == u[|u| - 2];
      TailInjective(p / 64, q / 64);
    }
    if |t| > 1 {
      assert t[|t| - 1] == u[|u| - 1];
      TailInjective(p, q);
    }
  }

  /** The first byte tells the length, so encoded code points form a prefix code. */
  lemma EncodePrefixFree(p: Point, q: Point, r: Text, r': Text)
    requires Encode(p) + r == Encode(q) + r'
    ensures p == q && r == r'
  {
    var t, u := Encode(p), Encode(q);
    assert t[0] == (t + r)[0] == (u + r')[0] == u[0];
    assert |t| == |u|;
    assert (t + r)[..|t|] == t && (u + r')[..|u|] == u;
    assert (t + r)[|t|..] == r && (u + r')[|u|..] == r';
    EncodeInjective(p, q);
  }

  lemma {:induction false} EncodeAllInjective(ps: seq<Point>, qs: seq<Point>)
    requires EncodeAll(ps) == EncodeAll(qs)
    ensures ps == qs
  {
    if ps == [] || qs == [] {
    } else {
      EncodePrefixFree(ps[0], qs[0], EncodeAll(ps[1..]), EncodeAll(qs[1..]));
      EncodeAllInjective(ps[1..], qs[1..]);
      assert ps == [ps[0]] + ps[1..] && qs == [qs[0]] + qs[1..];
    }
  }

  /** Without lone surrogates the code points determine the string. */
  lemma {:induction false} PointsOfPaired(s: Text, t: Text)
    requires Paired(s) && Paired(t) && Points(s) == Points(t)
    ensures s == t
  {
    if s == [] || t == [] {
    } else {
      var s', t' := s[Taken(s)..], t[Taken(t)..];
      assert Points(s)[0] == FirstPoint(s) && Points(t)[0] == FirstPoint(t);
      assert Points(s)[1..] == Points(s') && Points(t)[1..] == Points(t');
      PointsOfPaired(s', t');
      assert s == s[..Taken(s)] + s' && t == t[..Taken(t)] + t';
    }
  }

  // ---- Lone surrogates ---------------------------------------------------------------------

  function MendFirst(s: Text): Text
    requires s != []
  {
    if StartsWithPair(s) then s[..2] else if Surrogate(s[0]) then [REPLACEMENT] else [s[0]]
  }

  /** The string with each lone surrogate replaced. */
  function Mend(s: Text): Text {
    if s == [] then [] else MendFirst(s) + Mend(s[Taken(s)..])
  }

  lemma {:induction false} MendMeaning(s: Text)
    ensures Paired(Mend(s)) && Points(Mend(s)) == Points(s)
    ensures Paired(s) ==> Mend(s) == s
    ensures forall c :: c < 0x80 ==> (c in Mend(s) <==> c in s)
  {
    if s == [] {
    } else {
      var rest := s[Taken(s)..];
      MendMeaning(rest);
      assert s == s[..Taken(s)] + rest;
      assert Mend(s)[Taken(s)..] == Mend(rest);
      assert Taken(Mend(s)) == Taken(s) && FirstPoint(Mend(s)) == FirstPoint(s);
    }
  }

  /** Strings have the same bytes iff they agree once lone surrogates are replaced. */
  lemma Utf8Iff(s: Text, t: Text)
    ensures Utf8(s) == Utf8(t) <==> Mend(s) == Mend(t)
  {
    MendMeaning(s);
    MendMeaning(t);
    if Utf8(s) == Utf8(t) {
      EncodeAllInjective(Points(s), Points(t));
      PointsOfPaired(Mend(s), Mend(t));
    }
  }

  // ---- Concatenation -----------------------------------------------------------------------

  lemma FirstOfConcat(s: Text, t: Text)
    requires s != [] && t != [] && !Surrogate(t[0])
    ensures Taken(s + t) == Taken(s) && MendFirst(s + t) == MendFirst(s)
  {
    assert (s + t)[0] == s[0] && (|s| == 1 ==> (s + t)[1] == t[0]);
    if |s| >= 2 {
      assert (s + t)[1] == s[1] && (s + t)[..2] == s[..2];
    }
  }

  lemma MendStep(s: Text, t: Text)
    requires s != [] && t != [] && !Surrogate(t[0])
    ensures Mend(s + t) == MendFirst(s) + Mend(s[Taken(s)..] + t)
  {
    FirstOfConcat(s, t);
    assert (s + t)[Taken(s)..] == s[Taken(s)..] + t;
  }

  lemma {:induction false} MendConcat(s: Text, t: Text)
    requires t != [] && !Surrogate(t[0])
    ensures Mend(s + t) == Mend(s) + Mend(t)
  {
    if s == [] {
      assert s + t == t;
    } else {
      var first, rest := MendFirst(s), s[Taken(s)..];
      MendStep(s, t);
      MendConcat(rest, t);
      assert first + (Mend(rest) + Mend(t)) == first + Mend(rest) + Mend(t);
    }
  }

  /** A unit that is no surrogate separates what is before it from what is after it. */
  lemma MendAround(s: Text, c: Unit, t: Text)
    requires !Surrogate(c)
    ensures Mend(s + [c] + t) == Mend(s) + [c] + Mend(t)
  {
    assert s + [c] + t == s + ([c] + t);
    MendConcat(s, [c] + t);
    assert ([c] + t)[1..] == t;
  }

  lemma {:induction false} PairedConcat(s: Text, t: Text)
    requires Paired(s) && Paired(t)
    ensures Paired(s + t)
  {
    if s == [] {
      assert s + t == t;
    } else {
      PairedConcat(s[Taken(s)..], t);
      assert (s + t)[Taken(s)..] == s[Taken(s)..] + t;
    }
  }

  lemma {:induction false} NoSurrogatesPaired(s: Text)
    requires forall c :: c in s ==> !Surrogate(c)
    ensures Paired(s)
  {
    if s == [] {
    } else {
      NoSurrogatesPaired(s[1..]);
    }
  }
}
