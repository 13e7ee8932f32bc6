/** Strings as code units, decimal numerals, and splitting at the last separator. */
module Text {

  /** A UTF-16 code unit; a byte is one below 256. */
  type Unit = n: int | 0 <= n < 0x10000

  type Text = seq<Unit>

  predicate IsDigit(c: int) { 48 <= c <= 57 }

  function Digits(n: nat): (t: Text)
    ensures t != [] && forall i :: 0 <= i < |t| ==> IsDigit(t[i])
  {
    if n < 10 then [48 + n] else Digits(n / 10) + [48 + n % 10]
  }

  /** The number a string of digits denotes. */
  function Value(t: Text): nat
    requires forall i :: 0 <= i < |t| ==> IsDigit(t[i])
  {
    if t == [] then 0
    else
      var last: int := t[|t| - 1];
      assert IsDigit(t[|t| - 1]);
      10 * Value(t[..|t| - 1]) + (last - 48)
  }

  function Decimal(n: int): (t: Text)
    ensures t != [] && forall i :: 0 <= i < |t| ==> IsDigit(t[i]) || t[i] == 45
  {
    if n < 0 then [45] + Digits(-n) else Digits(n)
  }

  lemma {:induction false} ValueOfDigits(n: nat)
    ensures Value(Digits(n)) == n
  {
    if n >= 10 {
      ValueOfDigits(n / 10);
      assert Digits(n)[..|Digits(n)| - 1] == Digits(n / 10);
    } else {
      assert Digits(n)[..0] == [];
    }
  }

  lemma DecimalInjective(m: int, n: int)
    requires Decimal(m) == Decimal(n)
    ensures m == n
  {
    var a, b := if m < 0 then -m else m, if n < 0 then -n else n;
    ValueOfDigits(a);
    ValueOfDigits(b);
    assert IsDigit(Digits(a)[0]) && IsDigit(Digits(b)[0]);
    if m < 0 && n < 0 {
      assert Decimal(m)[1..] == Digits(a) && Decimal(n)[1..] == Digits(b);
    }
  }

  /** A sequence is split in one way only at a separator the second part does not contain. */
  lemma LastSplit<T>(sep: T, a: seq<T>, b: seq<T>, a': seq<T>, b': seq<T>)
    requires a + [sep] + b == a' + [sep] + b' && sep !in b && sep !in b'
    ensures a == a' && b == b'
  {
    var t := a + [sep] + b;
    assert t[|a|] == sep && t[|a'|] == sep;
    assert forall i :: |a| < i < |t| ==> t[i] == b[i - |a| - 1];
    assert forall i :: |a'| < i < |t| ==> t[i] == b'[i - |a'| - 1];
    assert |a| == |a'|;
    assert t[..|a|] == a && t[..|a'|] == a';
    assert t[|a| + 1..] == b && t[|a'| + 1..] == b';
  }
}
