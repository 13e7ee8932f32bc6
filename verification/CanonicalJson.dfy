/** `canonicalJson`: JSON with object keys sorted at every depth. */
module CanonicalJson {
  import opened Wrappers
  import opened Text
  import opened Unicode
  import opened JsonText
  import opened KeyOrder
  import opened Sequences

  /**
   * A JavaScript value made of JSON parts, `undefined` and the non-finite numbers.
   * `N` is the type of finite numbers, with -0 and 0 taken as one.
   */
  datatype Json<N> =
    | Undefined
    | Null
    | NonFinite
    | Bool(b: bool)
    | Num(n: N)
    | Str(s: Text)
    | Arr(items: seq<Json<N>>)
    | Obj(members: seq<Member<N>>)

  datatype Member<N> = Member(key: Text, value: Json<N>)

  const COMMA: Unit := 44
  const COLON: Unit := 58
  const NULL: Text := [110, 117, 108, 108]
  const TRUE: Text := [116, 114, 117, 101]
  const FALSE: Text := [102, 97, 108, 115, 101]

  predicate NumberUnit(c: int) { IsDigit(c) || c == 43 || c == 45 || c == 46 || c == 101 }

  /** What is asked of number printing: a non-empty numeral that determines the number. */
  ghost predicate NumberPrinter<N(!new)>(show: N -> Text) {
    && (forall n :: show(n) != [] && forall c :: c in show(n) ==> NumberUnit(c))
    && (forall m, n :: show(m) == show(n) ==> m == n)
  }

  /** Decimal integers meet the laws of a number printer. */
  lemma DecimalIsNumberPrinter()
    ensures NumberPrinter(Decimal)
  {
    forall m, n | Decimal(m) == Decimal(n) ensures m == n {
      DecimalInjective(m, n);
    }
  }

  function KeysOf<N>(ms: seq<Member<N>>): (ks: seq<Text>)
    ensures |ks| == |ms| && forall i :: 0 <= i < |ms| ==> ks[i] == ms[i].key
  {
    Map((m: Member<N>) => m.key, ms)
  }

  /** Objects have one member per key, at every depth. */
  ghost predicate WellFormed<N(!new)>(v: Json<N>) {
    match v
    case Arr(items) => forall x | x in items :: WellFormed(x)
    case Obj(members) =>
      && (forall i, j :: 0 <= i < j < |members| ==> members[i].key != members[j].key)
      && (forall m | m in members :: WellFormed(m.value))
    case _ => true
  }

  function Insert<N>(m: Member<N>, ms: seq<Member<N>>): seq<Member<N>> {
    if ms == [] || Less(m.key, ms[0].key) then [m] + ms else [ms[0]] + Insert(m, ms[1..])
  }

  /** The members that are not `undefined`, sorted by key. */
  function Entries<N>(ms: seq<Member<N>>): seq<Member<N>> {
    if ms == [] then []
    else if ms[0].value.Undefined? then Entries(ms[1..])
    else Insert(ms[0], Entries(ms[1..]))
  }

  lemma {:induction false} InsertMembers<N(!new)>(m: Member<N>, ms: seq<Member<N>>)
    ensures forall x :: x in Insert(m, ms) <==> x == m || x in ms
  {
    if ms == [] || Less(m.key, ms[0].key) {
    } else {
      InsertMembers(m, ms[1..]);
    }
  }

  lemma {:induction false} EntriesMembers<N(!new)>(ms: seq<Member<N>>)
    ensures forall x :: x in Entries(ms) <==> x in ms && !x.value.Undefined?
  {
    if ms == [] {
    } else {
      EntriesMembers(ms[1..]);
      InsertMembers(ms[0], Entries(ms[1..]));
    }
  }

  lemma {:induction false} InsertIncreasing<N(!new)>(m: Member<N>, ms: seq<Member<N>>)
    requires Increasing(KeysOf(ms)) && forall x :: x in ms ==> x.key != m.key
    ensures Increasing(KeysOf(Insert(m, ms)))
    ensures Insert(m, ms) != [] && (Insert(m, ms)[0] == m || (ms != [] && Insert(m, ms)[0] == ms[0]))
  {
    if ms == [] {
    } else {
      assert KeysOf(ms)[1..] == KeysOf(ms[1..]);
      if Less(m.key, ms[0].key) {
        assert KeysOf([m] + ms)[1..] == KeysOf(ms);
      } else {
        InsertIncreasing(m, ms[1..]);
        LessTotal(m.key, ms[0].key);
        assert KeysOf(Insert(m, ms))[1..] == KeysOf(Insert(m, ms[1..]));
        assert ms[0] in ms;
      }
    }
  }

  lemma {:induction false} EntriesIncreasing<N(!new)>(ms: seq<Member<N>>)
    requires forall i, j :: 0 <= i < j < |ms| ==> ms[i].key != ms[j].key
    ensures Increasing(KeysOf(Entries(ms)))
  {
    if ms == [] {
    } else {
      EntriesIncreasing(ms[1..]);
      EntriesMembers(ms[1..]);
      if !ms[0].value.Undefined? {
        InsertIncreasing(ms[0], Entries(ms[1..]));
      }
    }
  }

  /** What a value contributes to a text; `undefined` joins as the empty string. */
  function Print<N(!new)>(show: N -> Text, v: Json<N>): Text
    decreases v, 1, 0
  {
    match v
    case Undefined => []
    case Null => NULL
    case NonFinite => NULL
    case Bool(b) => if b then TRUE else FALSE
    case Num(n) => show(n)
    case Str(s) => Quote(s)
    case Arr(items) => [91] + PrintItems(show, v, items) + [93]
    case Obj(members) =>
      EntriesMembers(members);
      [123] + PrintMembers(show, v, Entries(members)) + [125]
  }

  function PrintItems<N(!new)>(show: N -> Text, ghost v: Json<N>, items: seq<Json<N>>): Text
    requires v.Arr? && forall x :: x in items ==> x in v.items
    decreases v, 0, |items|
  {
    if items == [] then []
    else
      assert items[0] in v.items;
      Print(show, items[0]) + (if |items| == 1 then [] else [COMMA] + PrintItems(show, v, items[1..]))
  }

  function PrintMembers<N(!new)>(show: N -> Text, ghost v: Json<N>, ms: seq<Member<N>>): Text
    requires v.Obj? && forall x :: x in ms ==> x in v.members
    decreases v, 0, |ms|
  {
    if ms == [] then []
    else
      assert ms[0] in v.members;
      Quote(ms[0].key) + [COLON] + Print(show, ms[0].value) +
      (if |ms| == 1 then [] else [COMMA] + PrintMembers(show, v, ms[1..]))
  }

  /** `None` is the `undefined` that `JSON.stringify` gives for a top-level `undefined`. */
  function Canonical<N(!new)>(show: N -> Text, v: Json<N>): Option<Text> {
    if v.Undefined? then None else Some(Print(show, v))
  }

  // ---- When two values mean the same -------------------------------------------------------

  predicate Blank<N(!new,==)>(items: seq<Json<N>>) { items == [] || items == [Undefined] }

  predicate NullLike<N>(v: Json<N>) { v.Null? || v.NonFinite? }

  /** The object has a member `key` that is not `undefined`. */
  predicate Has<N>(ms: seq<Member<N>>, key: Text) {
    ms != [] && ((ms[0].key == key && !ms[0].value.Undefined?) || Has(ms[1..], key))
  }

  function At<N>(ms: seq<Member<N>>, key: Text): Json<N>
    requires Has(ms, key)
  {
    if ms[0].key == key && !ms[0].value.Undefined? then ms[0].value else At(ms[1..], key)
  }

  lemma {:induction false} HasMeaning<N(!new)>(ms: seq<Member<N>>, key: Text)
    ensures Has(ms, key) <==> exists m :: m in ms && m.key == key && !m.value.Undefined?
    ensures Has(ms, key) ==> Member(key, At(ms, key)) in ms && !At(ms, key).Undefined?
  {
    if ms == [] {
    } else {
      HasMeaning(ms[1..], key);
    }
  }

  /**
   * Equality up to the order of object members and up to `undefined` members. When `loose`, also
   * up to what printing cannot show: non-finite numbers are null, `[undefined]` is empty.
   */
  ghost predicate Same<N(!new)>(loose: bool, a: Json<N>, b: Json<N>)
    decreases a
  {
    if a.Arr? && b.Arr? then
      || (loose && Blank(a.items) && Blank(b.items))
      || (|a.items| == |b.items| && forall i | 0 <= i < |a.items| :: Same(loose, a.items[i], b.items[i]))
    else if a.Obj? && b.Obj? then
      && (forall m | m in a.members && !m.value.Undefined? ::
            Has(b.members, m.key) && Same(loose, m.value, At(b.members, m.key)))
      && (forall n | n in b.members && !n.value.Undefined? :: Has(a.members, n.key))
    else a == b || (loose && NullLike(a) && NullLike(b))
  }

  /** No `undefined` array element and no non-finite number anywhere. */
  ghost predicate Clean<N(!new)>(v: Json<N>) {
    match v
    case NonFinite => false
    case Arr(items) => forall x | x in items :: !x.Undefined? && Clean(x)
    case Obj(members) => forall m | m in members :: Clean(m.value)
    case _ => true
  }

  lemma BlankIsEmpty<N(!new)>(items: seq<Json<N>>)
    requires forall x :: x in items ==> !x.Undefined?
    ensures Blank(items) <==> items == []
  {
    if items != [] {
      assert items[0] in items;
    }
  }

  lemma {:induction false} CleanIsStrict<N(!new)>(a: Json<N>, b: Json<N>)
    requires Clean(a) && Clean(b)
    ensures Same(true, a, b) <==> Same(false, a, b)
    decreases a
  {
    if a.Arr? && b.Arr? {
      if |a.items| == |b.items| {
        forall i | 0 <= i < |a.items| ensures Same(true, a.items[i], b.items[i]) <==> Same(false, a.items[i], b.items[i]) {
          assert a.items[i] in a.items && b.items[i] in b.items;
          CleanIsStrict(a.items[i], b.items[i]);
        }
      }
      BlankIsEmpty(a.items);
      BlankIsEmpty(b.items);
    } else if a.Obj? && b.Obj? {
      forall m | m in a.members && Has(b.members, m.key)
        ensures Same(true, m.value, At(b.members, m.key)) <==> Same(false, m.value, At(b.members, m.key))
      {
        HasMeaning(b.members, m.key);
        CleanIsStrict(m.value, At(b.members, m.key));
      }
    }
  }

  // ---- Equal prints come from the same value -----------------------------------------------

  /** What may follow a value: nothing, a delimiter, or a newline. */
  predicate Ends(r: Text) { r == [] || r[0] == COMMA || r[0] == 93 || r[0] == 125 || r[0] == 10 }

  /** The first unit of a print tells the constructor. */
  lemma Lead<N(!new)>(show: N -> Text, v: Json<N>)
    requires NumberPrinter(show) && !v.Undefined?
    ensures var t := Print(show, v);
            && t != [] && !Ends(t)
            && (NullLike(v) <==> t[0] == 110)
            && (v == Bool(true) <==> t[0] == 116)
            && (v == Bool(false) <==> t[0] == 102)
            && (v.Num? <==> NumberUnit(t[0]))
            && (v.Str? <==> t[0] == QUOTE)
            && (v.Arr? <==> t[0] == 91)
            && (v.Obj? <==> t[0] == 123)
  {
    if v.Num? {
      assert show(v.n)[0] in show(v.n);
    }
  }

  lemma {:induction false} NumeralDelimited(s: Text, t: Text, r: Text, q: Text)
    requires forall c :: c in s || c in t ==> NumberUnit(c)
    requires Ends(r) && Ends(q) && s + r == t + q
    ensures s == t && r == q
  {
    var x := s + r;
    assert forall i :: 0 <= i < |s| ==> x[i] == s[i] && s[i] in s;
    assert forall i :: 0 <= i < |t| ==> x[i] == t[i] && t[i] in t;
    assert |s| < |x| ==> x[|s|] == r[0];
    assert |t| < |x| ==> x[|t|] == q[0];
    assert |s| == |t|;
    assert x[..|s|] == s && x[..|t|] == t && x[|s|..] == r && x[|t|..] == q;
  }

  lemma SameSuffix(s: Text, r: Text, q: Text)
    requires s + r == s + q
    ensures r == q
  {
    assert (s + r)[|s|..] == r && (s + q)[|s|..] == q;
  }

  /** A print followed by a delimiter is read back in one way only. */
  lemma {:induction false} PrintDelimited<N(!new)>(show: N -> Text, a: Json<N>, b: Json<N>, r: Text, q: Text)
    requires NumberPrinter(show) && Ends(r) && Ends(q) && WellFormed(a) && WellFormed(b)
    requires Print(show, a) + r == Print(show, b) + q
    ensures Same(true, a, b) && r == q
    decreases a, 1, 0
  {
    SameKind(show, a, b, r, q);
    if a.Num? {
      NumeralDelimited(show(a.n), show(b.n), r, q);
    } else if a.Str? {
      QuoteDelimited(a.s, b.s, r, q);
    } else if a.Arr? {
      Unbracket(91, 93, PrintItems(show, a, a.items), PrintItems(show, b, b.items), r, q);
      ItemsDelimited(show, a, a.items, b, b.items, r, q);
    } else if a.Obj? {
      ObjectDelimited(show, a, b, r, q);
    } else {
      SameSuffix(Print(show, a), r, q);
    }
  }

  lemma Unbracket(c: Unit, d: Unit, x: Text, y: Text, r: Text, q: Text)
    requires [c] + x + [d] + r == [c] + y + [d] + q
    ensures x + ([d] + r) == y + ([d] + q)
  {
    assert ([c] + x + [d] + r)[1..] == x + ([d] + r);
    assert ([c] + y + [d] + q)[1..] == y + ([d] + q);
  }

  lemma {:induction false} ObjectDelimited<N(!new)>(show: N -> Text, a: Json<N>, b: Json<N>, r: Text, q: Text)
    requires NumberPrinter(show) && a.Obj? && b.Obj? && WellFormed(a) && WellFormed(b)
    requires Print(show, a) + r == Print(show, b) + q
    ensures Same(true, a, b) && r == q
    decreases a, 0, |Entries(a.members)| + 1
  {
    EntriesMembers(a.members);
    EntriesMembers(b.members);
    var ms, ns := Entries(a.members), Entries(b.members);
    Unbracket(123, 125, PrintMembers(show, a, ms), PrintMembers(show, b, ns), r, q);
    MembersDelimited(show, a, ms, b, ns, r, q);
    SameFromEntries(a, b);
  }

  lemma SameFromEntries<N(!new)>(a: Json<N>, b: Json<N>)
    requires a.Obj? && b.Obj? && WellFormed(b) && |Entries(a.members)| == |Entries(b.members)|
    requires var ms, ns := Entries(a.members), Entries(b.members);
             forall i :: 0 <= i < |ms| ==> ms[i].key == ns[i].key && Same(true, ms[i].value, ns[i].value)
    ensures Same(true, a, b)
  {
    forall m | m in a.members && !m.value.Undefined?
      ensures Has(b.members, m.key) && Same(true, m.value, At(b.members, m.key))
    {
      EntriesMembers(a.members);
      assert m in Entries(a.members);
      var i :| 0 <= i < |Entries(a.members)| && Entries(a.members)[i] == m;
      EntryAt(b, i);
    }
    forall n | n in b.members && !n.value.Undefined? ensures Has(a.members, n.key) {
      EntriesMembers(b.members);
      assert n in Entries(b.members);
      var i :| 0 <= i < |Entries(b.members)| && Entries(b.members)[i] == n;
      EntryKey(a.members, n.key);
      assert KeysOf(Entries(a.members))[i] == n.key;
    }
  }

  lemma EntryAt<N(!new)>(v: Json<N>, i: nat)
    requires v.Obj? && WellFormed(v) && i < |Entries(v.members)|
    ensures var n := Entries(v.members)[i]; Has(v.members, n.key) && At(v.members, n.key) == n.value
  {
    var n := Entries(v.members)[i];
    EntriesMembers(v.members);
    HasMeaning(v.members, n.key);
    assert n in Entries(v.members);
    OneMemberPerKey(v, n, Member(n.key, At(v.members, n.key)));
  }

  lemma SameKind<N(!new)>(show: N -> Text, a: Json<N>, b: Json<N>, r: Text, q: Text)
    requires NumberPrinter(show) && Ends(r) && Ends(q)
    requires Print(show, a) + r == Print(show, b) + q
    ensures a.Undefined? == b.Undefined? && NullLike(a) == NullLike(b) && a.Num? == b.Num? && a.Str? == b.Str?
    ensures a.Arr? == b.Arr? && a.Obj? == b.Obj?
    ensures a.Bool? || b.Bool? ==> a == b
  {
    var x, y := Print(show, a) + r, Print(show, b) + q;
    if !a.Undefined? {
      Lead(show, a);
      assert x[0] == Print(show, a)[0];
    }
    if !b.Undefined? {
      Lead(show, b);
      assert y[0] == Print(show, b)[0];
    }
  }

  lemma {:induction false} ItemsDelimited<N(!new)>(
    show: N -> Text, a: Json<N>, xs: seq<Json<N>>, b: Json<N>, ys: seq<Json<N>>, r: Text, q: Text)
    requires NumberPrinter(show) && WellFormed(a) && WellFormed(b)
    requires a.Arr? && b.Arr? && (forall x :: x in xs ==> x in a.items) && (forall y :: y in ys ==> y in b.items)
    requires PrintItems(show, a, xs) + ([93] + r) == PrintItems(show, b, ys) + ([93] + q)
    ensures r == q
    ensures (Blank(xs) && Blank(ys)) || (|xs| == |ys| && forall i :: 0 <= i < |xs| ==> Same(true, xs[i], ys[i]))
    decreases a, 0, |xs|
  {
    if xs == [] || ys == [] {
      NoItems(show, a, xs, b, ys, r, q);
    } else {
      var r', q' := AfterItem(show, a, xs, r), AfterItem(show, b, ys, q);
      ItemsUnfold(show, a, xs, r);
      ItemsUnfold(show, b, ys, q);
      AfterItemUnfold(show, a, xs, r);
      AfterItemUnfold(show, b, ys, q);
      assert xs[0] in a.items && ys[0] in b.items;
      PrintDelimited(show, xs[0], ys[0], r', q');
      assert r'[0] == q'[0];
      if |xs| > 1 {
        ItemsDelimited(show, a, xs[1..], b, ys[1..], r, q);
        BothBlank(xs[1..], ys[1..]);
        SameFromTails(xs, ys);
      }
    }
  }

  /** The print of an empty array is that of no other but `[undefined]`. */
  lemma NoItems<N(!new)>(
    show: N -> Text, a: Json<N>, xs: seq<Json<N>>, b: Json<N>, ys: seq<Json<N>>, r: Text, q: Text)
    requires NumberPrinter(show) && (xs == [] || ys == [])
    requires a.Arr? && b.Arr? && (forall x :: x in xs ==> x in a.items) && (forall y :: y in ys ==> y in b.items)
    requires PrintItems(show, a, xs) + ([93] + r) == PrintItems(show, b, ys) + ([93] + q)
    ensures r == q && Blank(xs) && Blank(ys)
  {
    if xs == [] {
      assert PrintItems(show, a, xs) + ([93] + r) == [93] + r;
    }
    if ys == [] {
      assert PrintItems(show, b, ys) + ([93] + q) == [93] + q;
    }
    if xs == ys {
      SameSuffix([93], r, q);
    } else if xs == [] {
      NothingBefore(show, b, ys, r, q);
    } else {
      NothingBefore(show, a, xs, q, r);
    }
  }

  lemma ItemsUnfold<N(!new)>(show: N -> Text, v: Json<N>, xs: seq<Json<N>>, r: Text)
    requires v.Arr? && xs != [] && forall x :: x in xs ==> x in v.items
    ensures PrintItems(show, v, xs) + ([93] + r) == Print(show, xs[0]) + AfterItem(show, v, xs, r)
  {
    assert xs[0] in xs && xs[0] in v.items;
    var t := Print(show, xs[0]);
    if |xs| == 1 {
      assert PrintItems(show, v, xs) == t + [];
      assert t + [] == t;
    } else {
      var more := PrintItems(show, v, xs[1..]);
      assert PrintItems(show, v, xs) == t + ([COMMA] + more);
      Associate(t, [COMMA] + more, [93] + r);
      Associate([COMMA], more, [93] + r);
    }
  }

  lemma Associate(a: Text, b: Text, c: Text)
    ensures a + b + c == a + (b + c)
  {
  }

  lemma AfterItemUnfold<N(!new)>(show: N -> Text, v: Json<N>, xs: seq<Json<N>>, r: Text)
    requires v.Arr? && xs != [] && forall x :: x in xs ==> x in v.items
    ensures AfterItem(show, v, xs, r)[0] == if |xs| == 1 then 93 else COMMA
    ensures AfterItem(show, v, xs, r)[1..] == if |xs| == 1 then r else PrintItems(show, v, xs[1..]) + ([93] + r)
  {
  }

  lemma BothBlank<N(!new)>(xs: seq<Json<N>>, ys: seq<Json<N>>)
    requires xs != [] && ys != []
    requires (Blank(xs) && Blank(ys)) || (|xs| == |ys| && forall i :: 0 <= i < |xs| ==> Same(true, xs[i], ys[i]))
    ensures |xs| == |ys| && forall i :: 0 <= i < |xs| ==> Same(true, xs[i], ys[i])
  {
  }

  lemma SameFromTails<N(!new)>(xs: seq<Json<N>>, ys: seq<Json<N>>)
    requires xs != [] && ys != [] && Same(true, xs[0], ys[0]) && |xs| == |ys|
    requires forall i :: 0 <= i < |xs[1..]| ==> Same(true, xs[1..][i], ys[1..][i])
    ensures forall i :: 0 <= i < |xs| ==> Same(true, xs[i], ys[i])
  {
    forall i | 0 <= i < |xs| ensures Same(true, xs[i], ys[i]) {
      assert i > 0 ==> xs[i] == xs[1..][i - 1] && ys[i] == ys[1..][i - 1];
    }
  }

  /** The text from the end of the first item on. */
  function AfterItem<N(!new)>(show: N -> Text, ghost v: Json<N>, xs: seq<Json<N>>, r: Text): (t: Text)
    requires v.Arr? && xs != [] && forall x :: x in xs ==> x in v.items
    ensures Ends(t) && t != []
  {
    if |xs| == 1 then [93] + r else [COMMA] + (PrintItems(show, v, xs[1..]) + ([93] + r))
  }

  /** A list that prints as nothing at all is the one holding a single `undefined`. */
  lemma NothingBefore<N(!new)>(show: N -> Text, v: Json<N>, xs: seq<Json<N>>, r: Text, q: Text)
    requires NumberPrinter(show)
    requires v.Arr? && xs != [] && forall x :: x in xs ==> x in v.items
    requires [93] + r == PrintItems(show, v, xs) + ([93] + q)
    ensures xs == [Undefined] && r == q
  {
    var t := AfterItem(show, v, xs, q);
    var u: Json<N> := Undefined;
    ItemsUnfold(show, v, xs, q);
    AfterItemUnfold(show, v, xs, q);
    EmptyFront([93] + r);
    assert Print(show, u) + ([93] + r) == Print(show, xs[0]) + t;
    SameKind(show, u, xs[0], [93] + r, t);
    EmptyFront(t);
    assert [93] + r == t;
    assert ([93] + r)[0] == 93;
    assert |xs| == 1 && xs == [xs[0]];
    SameSuffix([93], r, q);
  }

  lemma EmptyFront(t: Text)
    ensures [] + t == t
  {
  }

  function AfterMember<N(!new)>(show: N -> Text, ghost v: Json<N>, ms: seq<Member<N>>, r: Text): (t: Text)
    requires v.Obj? && ms != [] && forall x :: x in ms ==> x in v.members
    ensures Ends(t) && t != []
  {
    if |ms| == 1 then [125] + r else [COMMA] + (PrintMembers(show, v, ms[1..]) + ([125] + r))
  }

  lemma MembersUnfold<N(!new)>(show: N -> Text, v: Json<N>, ms: seq<Member<N>>, r: Text)
    requires v.Obj? && ms != [] && forall x :: x in ms ==> x in v.members
    ensures PrintMembers(show, v, ms) + ([125] + r) ==
            Quote(ms[0].key) + ([COLON] + (Print(show, ms[0].value) + AfterMember(show, v, ms, r)))
  {
    var k, t := Quote(ms[0].key), Print(show, ms[0].value);
    var more := if |ms| == 1 then [] else [COMMA] + PrintMembers(show, v, ms[1..]);
    assert PrintMembers(show, v, ms) == k + [COLON] + t + more;
    assert more + ([125] + r) == AfterMember(show, v, ms, r);
    Reassociate(k, [COLON], t, more, [125] + r);
  }

  lemma Reassociate(a: Text, b: Text, c: Text, d: Text, e: Text)
    ensures a + b + c + d + e == a + (b + (c + (d + e)))
  {
  }

  lemma {:induction false} MembersDelimited<N(!new)>(
    show: N -> Text, a: Json<N>, ms: seq<Member<N>>, b: Json<N>, ns: seq<Member<N>>, r: Text, q: Text)
    requires NumberPrinter(show) && WellFormed(a) && WellFormed(b)
    requires a.Obj? && b.Obj? && (forall x :: x in ms ==> x in a.members) && (forall y :: y in ns ==> y in b.members)
    requires PrintMembers(show, a, ms) + ([125] + r) == PrintMembers(show, b, ns) + ([125] + q)
    ensures r == q && |ms| == |ns|
    ensures forall i :: 0 <= i < |ms| ==> ms[i].key == ns[i].key && Same(true, ms[i].value, ns[i].value)
    decreases a, 0, |ms|
  {
    if ms == [] || ns == [] {
      NoMembers(show, a, ms, b, ns, r, q);
    } else {
      MembersUnfold(show, a, ms, r);
      MembersUnfold(show, b, ns, q);
      var r', q' := AfterMember(show, a, ms, r), AfterMember(show, b, ns, q);
      var x, y := Print(show, ms[0].value) + r', Print(show, ns[0].value) + q';
      QuoteDelimited(ms[0].key, ns[0].key, [COLON] + x, [COLON] + y);
      SameSuffix([COLON], x, y);
      assert ms[0] in a.members && ns[0] in b.members;
      PrintDelimited(show, ms[0].value, ns[0].value, r', q');
      AfterMemberUnfold(show, a, ms, r);
      AfterMemberUnfold(show, b, ns, q);
      assert r'[0] == q'[0];
      if |ms| > 1 {
        MembersDelimited(show, a, ms[1..], b, ns[1..], r, q);
        SameMemberTails(ms, ns);
      }
    }
  }

  lemma SameMemberTails<N(!new)>(ms: seq<Member<N>>, ns: seq<Member<N>>)
    requires |ms| == |ns| > 0 && ms[0].key == ns[0].key && Same(true, ms[0].value, ns[0].value)
    requires forall i :: 0 <= i < |ms[1..]| ==> ms[1..][i].key == ns[1..][i].key && Same(true, ms[1..][i].value, ns[1..][i].value)
    ensures forall i :: 0 <= i < |ms| ==> ms[i].key == ns[i].key && Same(true, ms[i].value, ns[i].value)
  {
    forall i | 0 <= i < |ms| ensures ms[i].key == ns[i].key && Same(true, ms[i].value, ns[i].value) {
      assert i > 0 ==> ms[i] == ms[1..][i - 1] && ns[i] == ns[1..][i - 1];
    }
  }

  /** A closing brace is not the start of a member. */
  lemma NoMembers<N(!new)>(
    show: N -> Text, a: Json<N>, ms: seq<Member<N>>, b: Json<N>, ns: seq<Member<N>>, r: Text, q: Text)
    requires a.Obj? && b.Obj? && (forall x :: x in ms ==> x in a.members) && (forall y :: y in ns ==> y in b.members)
    requires ms == [] || ns == []
    requires PrintMembers(show, a, ms) + ([125] + r) == PrintMembers(show, b, ns) + ([125] + q)
    ensures ms == ns == [] && r == q
  {
    MembersStart(show, a, ms, r);
    MembersStart(show, b, ns, q);
    SameSuffix([125], r, q);
  }

  lemma MembersStart<N(!new)>(show: N -> Text, v: Json<N>, ms: seq<Member<N>>, r: Text)
    requires v.Obj? && forall x :: x in ms ==> x in v.members
    ensures ms == [] ==> PrintMembers(show, v, ms) + ([125] + r) == [125] + r
    ensures ms != [] ==> (PrintMembers(show, v, ms) + ([125] + r))[0] == QUOTE
  {
    if ms == [] {
      assert PrintMembers(show, v, ms) == [];
    } else {
      MembersUnfold(show, v, ms, r);
    }
  }

  lemma AfterMemberUnfold<N(!new)>(show: N -> Text, v: Json<N>, ms: seq<Member<N>>, r: Text)
    requires v.Obj? && ms != [] && forall x :: x in ms ==> x in v.members
    ensures AfterMember(show, v, ms, r)[0] == if |ms| == 1 then 125 else COMMA
    ensures AfterMember(show, v, ms, r)[1..] == if |ms| == 1 then r else PrintMembers(show, v, ms[1..]) + ([125] + r)
  {
  }

  // ---- The same value prints alike ---------------------------------------------------------

  lemma BlankPrints<N(!new)>(show: N -> Text, v: Json<N>, items: seq<Json<N>>)
    requires v.Arr? && Blank(items) && forall x :: x in items ==> x in v.items
    ensures PrintItems(show, v, items) == []
  {
    if items != [] {
      assert items[0] == Undefined && Print(show, items[0]) == [];
    }
  }

  lemma {:induction false} SamePrints<N(!new)>(show: N -> Text, a: Json<N>, b: Json<N>)
    requires WellFormed(a) && WellFormed(b) && Same(true, a, b)
    ensures Print(show, a) == Print(show, b)
    decreases a, 1, 0
  {
    if a.Arr? && b.Arr? {
      if Blank(a.items) && Blank(b.items) {
        BlankPrints(show, a, a.items);
        BlankPrints(show, b, b.items);
      } else {
        SameItemsPrint(show, a, a.items, b, b.items);
      }
    } else if a.Obj? && b.Obj? {
      EntriesMembers(a.members);
      EntriesMembers(b.members);
      SameEntries(a, b);
      SameMembersPrint(show, a, Entries(a.members), b, Entries(b.members));
    }
  }

  lemma {:induction false} SameItemsPrint<N(!new)>(
    show: N -> Text, a: Json<N>, xs: seq<Json<N>>, b: Json<N>, ys: seq<Json<N>>)
    requires a.Arr? && b.Arr? && WellFormed(a) && WellFormed(b)
    requires (forall x :: x in xs ==> x in a.items) && (forall y :: y in ys ==> y in b.items)
    requires |xs| == |ys| && forall i :: 0 <= i < |xs| ==> Same(true, xs[i], ys[i])
    ensures PrintItems(show, a, xs) == PrintItems(show, b, ys)
    decreases a, 0, |xs|
  {
    if xs == [] {
    } else {
      assert xs[0] in a.items && ys[0] in b.items;
      SamePrints(show, xs[0], ys[0]);
      SameItemsPrint(show, a, xs[1..], b, ys[1..]);
    }
  }

  /** Objects that are the same up to order sort into the same keys, with the same values. */
  lemma SameEntries<N(!new)>(a: Json<N>, b: Json<N>)
    requires a.Obj? && b.Obj? && WellFormed(a) && WellFormed(b) && Same(true, a, b)
    ensures var ms, ns := Entries(a.members), Entries(b.members);
            && |ms| == |ns|
            && forall i :: 0 <= i < |ms| ==> ms[i].key == ns[i].key && Same(true, ms[i].value, ns[i].value)
  {
    var ms, ns := Entries(a.members), Entries(b.members);
    EntriesMembers(a.members);
    EntriesMembers(b.members);
    EntriesIncreasing(a.members);
    EntriesIncreasing(b.members);
    var js, ks := KeysOf(ms), KeysOf(ns);
    forall k ensures k in js <==> k in ks {
      SameKeys(a, b, k);
    }
    IncreasingUnique(js, ks);
    forall i | 0 <= i < |ms| ensures ms[i].key == ns[i].key && Same(true, ms[i].value, ns[i].value) {
      assert js[i] == ks[i] && ms[i] in ms && ns[i] in ns;
      EntryAt(b, i);
    }
  }

  lemma SameKeys<N(!new)>(a: Json<N>, b: Json<N>, k: Text)
    requires a.Obj? && b.Obj? && Same(true, a, b)
    ensures k in KeysOf(Entries(a.members)) <==> k in KeysOf(Entries(b.members))
  {
    EntryKey(a.members, k);
    EntryKey(b.members, k);
    HasMeaning(a.members, k);
    HasMeaning(b.members, k);
  }

  lemma EntryKey<N(!new)>(ms: seq<Member<N>>, k: Text)
    ensures k in KeysOf(Entries(ms)) <==> Has(ms, k)
  {
    var es := Entries(ms);
    EntriesMembers(ms);
    HasMeaning(ms, k);
    if k in KeysOf(es) {
      var i :| 0 <= i < |es| && es[i].key == k;
      assert es[i] in es;
    }
    if Has(ms, k) {
      assert Member(k, At(ms, k)) in es;
      var i :| 0 <= i < |es| && es[i] == Member(k, At(ms, k));
      assert KeysOf(es)[i] == k;
    }
  }

  lemma OneMemberPerKey<N(!new)>(v: Json<N>, m: Member<N>, n: Member<N>)
    requires v.Obj? && WellFormed(v) && m in v.members && n in v.members && m.key == n.key
    ensures m == n
  {
  }

  lemma {:induction false} SameMembersPrint<N(!new)>(
    show: N -> Text, a: Json<N>, ms: seq<Member<N>>, b: Json<N>, ns: seq<Member<N>>)
    requires a.Obj? && b.Obj? && WellFormed(a) && WellFormed(b)
    requires (forall x :: x in ms ==> x in a.members) && (forall y :: y in ns ==> y in b.members)
    requires |ms| == |ns|
    requires forall i :: 0 <= i < |ms| ==> ms[i].key == ns[i].key && Same(true, ms[i].value, ns[i].value)
    ensures PrintMembers(show, a, ms) == PrintMembers(show, b, ns)
    decreases a, 0, |ms|
  {
    if ms == [] {
    } else {
      assert ms[0] in a.members && ns[0] in b.members;
      SamePrints(show, ms[0].value, ns[0].value);
      SameMembersPrint(show, a, ms[1..], b, ns[1..]);
    }
  }

  // ---- The theorem -------------------------------------------------------------------------

  /** For all values: equal canonical texts iff the same value, up to what printing cannot show. */
  lemma CanonicalIff<N(!new)>(show: N -> Text, a: Json<N>, b: Json<N>)
    requires NumberPrinter(show) && WellFormed(a) && WellFormed(b)
    ensures Canonical(show, a) == Canonical(show, b) <==> Same(true, a, b)
  {
    if Canonical(show, a) == Canonical(show, b) {
      assert Print(show, a) == Print(show, b);
      PrintDelimited(show, a, b, [], []);
    }
    if Same(true, a, b) {
      SamePrints(show, a, b);
    }
  }

  /** Without `undefined` elements and non-finite numbers: iff equal up to member order and `undefined` members. */
  lemma CanonicalIffClean<N(!new)>(show: N -> Text, a: Json<N>, b: Json<N>)
    requires NumberPrinter(show) && WellFormed(a) && WellFormed(b) && Clean(a) && Clean(b)
    ensures Canonical(show, a) == Canonical(show, b) <==> Same(false, a, b)
  {
    CanonicalIff(show, a, b);
    CleanIsStrict(a, b);
  }

  /** Outside clean values texts do collide: `[undefined]` with `[]`, and a non-finite number with null. */
  lemma UncleanCollisions<N(!new)>(show: N -> Text)
    ensures var a: Json<N>, b: Json<N> := Arr([Undefined]), Arr([]);
            Canonical(show, a) == Canonical(show, b) && !Same(false, a, b)
    ensures Canonical<N>(show, NonFinite) == Canonical<N>(show, Null) && !Same<N>(false, NonFinite, Null)
  {
    var a: Json<N>, b: Json<N> := Arr([Undefined]), Arr([]);
    BlankPrints(show, a, a.items);
    BlankPrints(show, b, b.items);
  }

  /** The literals of section 3 of RFC 8259, and null for a number that is not finite. */
  lemma PrintLiterals<N(!new)>(show: N -> Text)
    ensures Canonical<N>(show, Bool(true)) == Some(['t' as int, 'r' as int, 'u' as int, 'e' as int])
    ensures Canonical<N>(show, Bool(false)) == Some(['f' as int, 'a' as int, 'l' as int, 's' as int, 'e' as int])
    ensures Canonical<N>(show, Null) == Canonical<N>(show, NonFinite) == Some(['n' as int, 'u' as int, 'l' as int, 'l' as int])
  {
  }

  /** The object with b: 1 and a: [null] prints as {"a":[null],"b":1}. */
  lemma PrintExample(a: Member<int>, b: Member<int>)
    requires a == Member([97], Arr([Null])) && b == Member([98], Num(1))
    ensures Canonical(Decimal, Obj([b, a])) ==
            Some([123, 34, 97, 34, 58, 91, 110, 117, 108, 108, 93, 44, 34, 98, 34, 58, 49, 125])
  {
    var v := Obj([b, a]);
    ExampleEntries(a, b);
    ExampleMembers(v, a, b);
    PrintOfObject(Decimal, v, [a, b]);
    ExampleText();
  }

  lemma ExampleText()
    ensures [123] + [34, 97, 34, 58, 91, 110, 117, 108, 108, 93, 44, 34, 98, 34, 58, 49] + [125] ==
            [123, 34, 97, 34, 58, 91, 110, 117, 108, 108, 93, 44, 34, 98, 34, 58, 49, 125]
  {
  }

  lemma PrintOfObject<N(!new)>(show: N -> Text, v: Json<N>, ms: seq<Member<N>>)
    requires v.Obj? && Entries(v.members) == ms
    ensures forall x :: x in ms ==> x in v.members
    ensures Print(show, v) == [123] + PrintMembers(show, v, ms) + [125]
  {
    EntriesMembers(v.members);
  }

  lemma ExampleEntries(a: Member<int>, b: Member<int>)
    requires a.key == [97] && b.key == [98] && !a.value.Undefined? && !b.value.Undefined?
    ensures Entries([b, a]) == [a, b]
  {
    assert [b, a][1..] == [a] && [a][1..] == [] && [b][1..] == [];
    assert Entries<int>([]) == [] && Insert(a, []) == [a] && Entries([a]) == [a];
    assert !Less(b.key, a.key);
    assert Insert(b, [a]) == [a] + Insert(b, []) == [a, b];
  }

  lemma ExampleMembers(v: Json<int>, a: Member<int>, b: Member<int>)
    requires v == Obj([b, a]) && a == Member([97], Arr([Null])) && b == Member([98], Num(1))
    ensures a in v.members && b in v.members
    ensures PrintMembers(Decimal, v, [a, b]) ==
            [34, 97, 34, 58, 91, 110, 117, 108, 108, 93, 44, 34, 98, 34, 58, 49]
  {
    assert v.members[0] == b && v.members[1] == a;
    assert [a, b][1..] == [b];
    QuoteOfLetter(97);
    QuoteOfLetter(98);
    ExampleMember(v, a, b);
  }

  lemma ExampleMember(v: Json<int>, a: Member<int>, b: Member<int>)
    requires v == Obj([b, a]) && a == Member([97], Arr([Null])) && b == Member([98], Num(1)) && b in v.members
    ensures Print(Decimal, a.value) == [91, 110, 117, 108, 108, 93]
    ensures PrintMembers(Decimal, v, [b]) == [34, 98, 34, 58, 49]
  {
    QuoteOfLetter(98);
    assert Print(Decimal, a.value) == [91] + PrintItems(Decimal, a.value, [Null]) + [93];
    assert PrintMembers(Decimal, v, [b]) == Quote([98]) + [COLON] + [49];
  }

  lemma QuoteOfLetter(c: Unit)
    requires 97 <= c <= 122
    ensures Quote([c]) == [34, c, 34]
  {
    assert [c][1..] == [] && Escape([]) == [] && Chunk([c]) == [c];
    assert Escape([c]) == [c];
  }

  // ---- Canonical texts are plain -----------------------------------------------------------

  lemma {:induction false} PrintPlain<N(!new)>(show: N -> Text, v: Json<N>)
    requires NumberPrinter(show)
    ensures Plain(Print(show, v))
    decreases v, 1, 0
  {
    match v
    case Str(s) => QuotePlain(s);
    case Arr(items) =>
      ItemsPlain(show, v, items);
      BracketsPlain(91, PrintItems(show, v, items), 93);
    case Obj(members) =>
      EntriesMembers(members);
      MembersPlain(show, v, Entries(members));
      BracketsPlain(123, PrintMembers(show, v, Entries(members)), 125);
    case _ => PlainUnits(Print(show, v));
  }

  lemma BracketsPlain(left: Unit, t: Text, right: Unit)
    requires Plain(t) && Plain([left]) && Plain([right])
    ensures Plain([left] + t + [right])
  {
    PlainConcat([left], t);
    PlainConcat([left] + t, [right]);
  }

  lemma {:induction false} ItemsPlain<N(!new)>(show: N -> Text, v: Json<N>, xs: seq<Json<N>>)
    requires NumberPrinter(show) && v.Arr? && forall x :: x in xs ==> x in v.items
    ensures Plain(PrintItems(show, v, xs))
    decreases v, 0, |xs|
  {
    if xs == [] {
    } else {
      assert xs[0] in v.items;
      PrintPlain(show, xs[0]);
      ItemsPlain(show, v, xs[1..]);
      MorePlain(Print(show, xs[0]), PrintItems(show, v, xs[1..]), |xs| == 1);
    }
  }

  /** A plain text, and the next one after a comma unless this is the last. */
  lemma MorePlain(t: Text, more: Text, last: bool)
    requires Plain(t) && Plain(more)
    ensures Plain(t + if last then [] else [COMMA] + more)
  {
    PlainUnits([COMMA]);
    PlainConcat([COMMA], more);
    PlainConcat(t, if last then [] else [COMMA] + more);
  }

  lemma {:induction false} MembersPlain<N(!new)>(show: N -> Text, v: Json<N>, ms: seq<Member<N>>)
    requires NumberPrinter(show) && v.Obj? && forall x :: x in ms ==> x in v.members
    ensures Plain(PrintMembers(show, v, ms))
    decreases v, 0, |ms|
  {
    if ms == [] {
    } else {
      assert ms[0] in v.members;
      QuotePlain(ms[0].key);
      PrintPlain(show, ms[0].value);
      PlainUnits([COLON]);
      PlainConcat(Quote(ms[0].key), [COLON]);
      PlainConcat(Quote(ms[0].key) + [COLON], Print(show, ms[0].value));
      MembersPlain(show, v, ms[1..]);
      MorePlain(Quote(ms[0].key) + [COLON] + Print(show, ms[0].value), PrintMembers(show, v, ms[1..]), |ms| == 1);
    }
  }
}
