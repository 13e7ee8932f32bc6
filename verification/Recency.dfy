/** Sequences without repetition, ordered by recency of use. */
module Recency {
  import opened Sequences

  /** `s` without any occurrence of `x`, order kept. */
  function Remove<T(==,!new)>(s: seq<T>, x: T): (r: seq<T>)
    ensures |r| <= |s| && x !in r
    ensures forall y :: y in r <==> y in s && y != x
  {
    if s == [] then []
    else if s[0] == x then Remove(s[1..], x)
    else [s[0]] + Remove(s[1..], x)
  }

  /** The last `n` elements of `s`, or all of it. */
  function LastN<T>(s: seq<T>, n: int): seq<T> {
    if n <= 0 then [] else if |s| <= n then s else s[|s| - n..]
  }

  /** The distinct elements of `uses`, each at the place of its latest use, oldest first. */
  function ByLatestUse<T(==,!new)>(uses: seq<T>): seq<T> {
    if uses == [] then []
    else
      var x := uses[|uses| - 1];
      Remove(ByLatestUse(uses[..|uses| - 1]), x) + [x]
  }

  /** `n` is the index of the latest use of `x`. */
  predicate LatestUse<T(==,!new)>(uses: seq<T>, x: T, n: nat) {
    n < |uses| && uses[n] == x && forall i :: n < i < |uses| ==> uses[i] != x
  }

  ghost predicate Distinct<T>(s: seq<T>) {
    forall i, j :: 0 <= i < j < |s| ==> s[i] != s[j]
  }

  /** `s` is strictly increasing under the rank `f`. */
  ghost predicate Ascending<T>(s: seq<T>, f: T -> int) {
    forall i, j :: 0 <= i < j < |s| ==> f(s[i]) < f(s[j])
  }

  lemma SnocDistinct<T>(s: seq<T>, x: T)
    requires Distinct(s) && x !in s
    ensures Distinct(s + [x])
  {
  }

  lemma {:induction false} RemoveAbsent<T(!new)>(s: seq<T>, x: T)
    requires x !in s
    ensures Remove(s, x) == s
  {
    if s == [] {
    } else {
      RemoveAbsent(s[1..], x);
    }
  }

  lemma {:induction false} RemoveConcat<T(!new)>(s: seq<T>, t: seq<T>, x: T)
    ensures Remove(s + t, x) == Remove(s, x) + Remove(t, x)
  {
    if s == [] {
      assert s + t == t;
    } else {
      assert (s + t)[1..] == s[1..] + t;
      RemoveConcat(s[1..], t, x);
    }
  }

  lemma {:induction false} RemoveAscending<T(!new)>(s: seq<T>, x: T, f: T -> int)
    requires Ascending(s, f)
    ensures Ascending(Remove(s, x), f)
  {
    if s == [] {
    } else {
      RemoveAscending(s[1..], x, f);
      var r := Remove(s[1..], x);
      forall j | 0 <= j < |r| ensures f(s[0]) < f(r[j]) {
        assert r[j] in s[1..];
      }
    }
  }

  lemma AscendingIsDistinct<T(!new)>(s: seq<T>, f: T -> int)
    requires Ascending(s, f)
    ensures Distinct(s)
  {
    forall i, j | 0 <= i < j < |s| ensures s[i] != s[j] {
      assert f(s[i]) < f(s[j]);
    }
  }

  lemma {:induction false} RemoveDistinct<T(!new)>(s: seq<T>, x: T)
    requires Distinct(s)
    ensures Distinct(Remove(s, x))
    ensures |Remove(s, x)| == if x in s then |s| - 1 else |s|
  {
    if s == [] {
    } else {
      assert s == [s[0]] + s[1..];
      RemoveDistinct(s[1..], x);
      if s[0] == x {
        RemoveAbsent(s[1..], x);
      } else {
        assert s[0] !in Remove(s[1..], x);
      }
    }
  }

  /** `ByLatestUse` lists exactly the used elements, once each, by the index of their latest use. */
  lemma {:induction false} ByLatestUseMeaning<T(!new)>(uses: seq<T>)
    ensures forall x :: x in ByLatestUse(uses) <==> x in uses
    ensures Distinct(ByLatestUse(uses))
    ensures forall i, j, m, n ::
              (0 <= i < j < |ByLatestUse(uses)| &&
               LatestUse(uses, ByLatestUse(uses)[i], m) && LatestUse(uses, ByLatestUse(uses)[j], n)) ==> m < n
  {
    if uses == [] {
    } else {
      var last := |uses| - 1;
      var x, before := uses[last], uses[..last];
      ByLatestUseMeaning(before);
      var r := ByLatestUse(before);
      RemoveDistinct(r, x);
      var kept := Remove(r, x);
      assert uses == before + [x];
      forall i, j, m, n | 0 <= i < j < |kept| + 1 && LatestUse(uses, (kept + [x])[i], m)
                          && LatestUse(uses, (kept + [x])[j], n) ensures m < n {
        if j < |kept| {
          assert kept[i] != x && kept[j] != x by { assert kept[i] in kept && kept[j] in kept; }
          assert LatestUse(before, kept[i], m) && LatestUse(before, kept[j], n);
          RemoveKeepsOrder(r, x, i, j);
        } else {
          assert kept[i] in kept;
          assert n == last by { assert uses[last] == x; }
        }
      }
    }
  }

  lemma {:induction false} RemoveKeepsOrder<T(!new)>(s: seq<T>, x: T, i: nat, j: nat)
    requires i < j < |Remove(s, x)|
    ensures exists a, b :: 0 <= a < b < |s| && s[a] == Remove(s, x)[i] && s[b] == Remove(s, x)[j]
  {
    if s[0] == x {
      RemoveKeepsOrder(s[1..], x, i, j);
      var a, b :| 0 <= a < b < |s| - 1 && s[1..][a] == Remove(s, x)[i] && s[1..][b] == Remove(s, x)[j];
      assert s[a + 1] == Remove(s, x)[i] && s[b + 1] == Remove(s, x)[j];
    } else if i == 0 {
      var y := Remove(s, x)[j];
      assert y == Remove(s[1..], x)[j - 1] && y in s[1..];
      var b :| 0 <= b < |s| - 1 && s[1..][b] == y;
      assert s[0] == Remove(s, x)[0] && s[b + 1] == y;
    } else {
      RemoveKeepsOrder(s[1..], x, i - 1, j - 1);
      var a, b :| 0 <= a < b < |s| - 1 && s[1..][a] == Remove(s, x)[i] && s[1..][b] == Remove(s, x)[j];
      assert s[a + 1] == Remove(s, x)[i] && s[b + 1] == Remove(s, x)[j];
    }
  }

  /** Truncation commutes with one more use: a truncated list needs nothing that truncation dropped. */
  lemma LastNOfUse<T(!new)>(r: seq<T>, x: T, n: int)
    requires Distinct(r)
    ensures var kept := LastN(r, n);
            LastN(Remove(r, x) + [x], n) == LastN(Remove(kept, x) + [x], n)
  {
    if 0 < n < |r| {
      var cut := |r| - n;
      var dropped, kept := r[..cut], r[cut..];
      assert r == dropped + kept;
      RemoveConcat(dropped, kept, x);
      KeptDistinct(r, cut);
      RemoveDistinct(kept, x);
      LastNOfSnocs(Remove(dropped, x), Remove(kept, x), x, n);
    }
  }

  lemma LastNOfSnocs<T(!new)>(a: seq<T>, b: seq<T>, x: T, n: int)
    requires n <= |b| + 1
    ensures LastN(a + b + [x], n) == LastN(b + [x], n)
  {
    assert a + b + [x] == a + (b + [x]);
    LastNOfConcat(a, b + [x], n);
  }

  lemma KeptDistinct<T(!new)>(r: seq<T>, cut: nat)
    requires Distinct(r) && cut <= |r|
    ensures Distinct(r[cut..])
  {
  }

  lemma LastNOfConcat<T(!new)>(a: seq<T>, b: seq<T>, n: int)
    requires n <= |b|
    ensures LastN(a + b, n) == LastN(b, n)
  {
  }

  /** A longer suffix ends with the shorter one. */
  lemma LastNNested<T(!new)>(s: seq<T>, m: int, n: int)
    requires m <= n
    ensures LastN(LastN(s, n), m) == LastN(s, m)
    ensures forall x :: x in LastN(s, m) ==> x in LastN(s, n)
  {
    var big, small := LastN(s, n), LastN(s, m);
    assert small == big[|big| - |small|..];
  }

  // ---- Naming the elements differently -----------------------------------------------------

  /** `f` gives different elements of `s` different names. */
  ghost predicate TellsApart<T(!new), U>(f: T -> U, s: seq<T>) {
    forall x, y :: x in s && y in s && f(x) == f(y) ==> x == y
  }

  lemma {:induction false} RemoveOfMap<T(!new), U(!new)>(f: T -> U, s: seq<T>, x: T)
    requires forall y :: y in s && f(y) == f(x) ==> y == x
    ensures Remove(Map(f, s), f(x)) == Map(f, Remove(s, x))
  {
    if s == [] {
    } else {
      RemoveOfMap(f, s[1..], x);
      assert Map(f, s)[1..] == Map(f, s[1..]);
      assert s[0] in s;
    }
  }

  /** Use order commutes with a naming that tells the used elements apart. */
  lemma {:induction false} ByLatestUseOfMap<T(!new), U(!new)>(f: T -> U, uses: seq<T>)
    requires TellsApart(f, uses)
    ensures ByLatestUse(Map(f, uses)) == Map(f, ByLatestUse(uses))
  {
    if uses == [] {
    } else {
      var last := |uses| - 1;
      var x, before := uses[last], uses[..last];
      ByLatestUseOfMap(f, before);
      ByLatestUseMeaning(before);
      assert Map(f, uses)[..last] == Map(f, before);
      assert x in uses;
      RemoveOfMap(f, ByLatestUse(before), x);
    }
  }

  lemma LastNOfMap<T, U>(f: T -> U, s: seq<T>, n: int)
    ensures LastN(Map(f, s), n) == Map(f, LastN(s, n))
  {
  }
}
