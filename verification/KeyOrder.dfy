/** The order `<` gives JavaScript strings: by code unit, a prefix before its extensions. */
module KeyOrder {
  import opened Text

  predicate Less(a: Text, b: Text) {
    b != [] && (a == [] || a[0] < b[0] || (a[0] == b[0] && Less(a[1..], b[1..])))
  }

  lemma {:induction false} LessTransitive(a: Text, b: Text, c: Text)
    requires Less(a, b) && Less(b, c)
    ensures Less(a, c)
  {
    if a == [] || a[0] < c[0] {
    } else {
      LessTransitive(a[1..], b[1..], c[1..]);
    }
  }

  lemma {:induction false} LessTotal(a: Text, b: Text)
    ensures a == b <==> !Less(a, b) && !Less(b, a)
    ensures !(Less(a, b) && Less(b, a))
  {
    if a == [] || b == [] {
    } else {
      LessTotal(a[1..], b[1..]);
      assert a == [a[0]] + a[1..] && b == [b[0]] + b[1..];
    }
  }

  /** `a` is before `b` iff at the first place where they differ it has the lower unit, or it ends there. */
  lemma {:induction false} LessMeaning(a: Text, b: Text)
    ensures Less(a, b) <==> exists n: nat :: DiffersAt(a, b, n)
  {
    if a == [] || b == [] || a[0] != b[0] {
      assert b != [] && (a == [] || a[0] < b[0]) ==> DiffersAt(a, b, 0);
      assert forall n: nat :: n > 0 && DiffersAt(a, b, n) ==> a[..n][0] == b[..n][0];
    } else {
      LessMeaning(a[1..], b[1..]);
      if n: nat :| DiffersAt(a[1..], b[1..], n) {
        DiffersLater(a, b, n + 1);
      }
      if n: nat :| DiffersAt(a, b, n) {
        DiffersLater(a, b, n);
      }
    }
  }

  /** They agree before place `n`, where `b` goes on and `a` ends or has the lower unit. */
  predicate DiffersAt(a: Text, b: Text, n: nat) {
    n <= |a| && n < |b| && a[..n] == b[..n] && (n == |a| || a[n] < b[n])
  }

  lemma DiffersLater(a: Text, b: Text, n: nat)
    requires a != [] && b != [] && a[0] == b[0]
    ensures n > 0 ==> (DiffersAt(a, b, n) <==> DiffersAt(a[1..], b[1..], n - 1))
    ensures !DiffersAt(a, b, 0)
  {
    if 0 < n <= |a| && n <= |b| {
      assert a[..n] == [a[0]] + a[1..][..n - 1] && b[..n] == [b[0]] + b[1..][..n - 1];
    }
  }

  predicate Increasing(s: seq<Text>) {
    |s| <= 1 || (Less(s[0], s[1]) && Increasing(s[1..]))
  }

  lemma {:induction false} HeadIsLeast(s: seq<Text>, x: Text)
    requires s != [] && Increasing(s) && x in s[1..]
    ensures Less(s[0], x)
  {
    if x == s[1] {
    } else {
      HeadIsLeast(s[1..], x);
      LessTransitive(s[0], s[1], x);
    }
  }

  lemma EmptyMeaning(s: seq<Text>)
    ensures s == [] <==> forall x :: x !in s
  {
    if s != [] {
      assert s[0] in s;
    }
  }

  /** One set of keys has one increasing listing, however it was sorted. */
  lemma {:induction false} IncreasingUnique(s: seq<Text>, t: seq<Text>)
    requires Increasing(s) && Increasing(t)
    requires forall x :: x in s <==> x in t
    ensures s == t
  {
    EmptyMeaning(s);
    EmptyMeaning(t);
    if s == [] || t == [] {
    } else {
      assert s == [s[0]] + s[1..] && t == [t[0]] + t[1..];
      assert s[0] in t && t[0] in s;
      if s[0] != t[0] {
        HeadIsLeast(s, t[0]);
        HeadIsLeast(t, s[0]);
        LessTotal(s[0], t[0]);
      }
      forall x ensures x in s[1..] <==> x in t[1..] {
        if x in s[1..] {
          HeadIsLeast(s, x);
          LessTotal(x, x);
          assert x in s && x in t;
        }
        if x in t[1..] {
          HeadIsLeast(t, x);
          LessTotal(x, x);
          assert x in t && x in s;
        }
      }
      IncreasingUnique(s[1..], t[1..]);
    }
  }
}
