/** Every run of the token-exchange cache: overlapping calls, replies in any order, failures. */
module TokenExchangeRuns {
  import opened Wrappers
  import opened Recency
  import opened Sequences
  import opened InsertionMap
  import opened TokenExchange

  /** One atomic section. `Replied` reads the clock twice; `Failed` is any throw after the lookup. */
  datatype Event =
    | Started(id: nat, call: Call, at: real)
    | Replied(id: nat, call: Call, reply: Reply, at: real, at2: real)
    | Failed(id: nat)

  datatype State = State(cache: Cache, inFlight: map<nat, Call>, clock: real)

  function Initial(): State { State([], map[], 0.0) }

  predicate Enabled(s: State, e: Event) {
    match e
    case Started(id, _, at) => id !in s.inFlight && s.clock <= at
    case Replied(id, call, _, at, at2) => id in s.inFlight && s.inFlight[id] == call && s.clock <= at <= at2
    case Failed(id) => id in s.inFlight
  }

  /** The token a starting call finds in the cache, if any. */
  function Hit(cfg: Config, s: State, call: Call, at: real): Option<string> {
    Lookup(s.cache, KeyOf(cfg, call), at).0
  }

  function Step(cfg: Config, s: State, e: Event): State {
    match e
    case Started(id, call, at) =>
      var (hit, cache) := Lookup(s.cache, KeyOf(cfg, call), at);
      State(cache, if hit.Some? then s.inFlight else s.inFlight[id := call], at)
    case Replied(id, call, reply, at, at2) =>
      State(Insert(cfg.maxEntries, s.cache, KeyOf(cfg, call), NewEntry(call, reply, at, at2)),
            s.inFlight - {id}, at2)
    case Failed(id) => s.(inFlight := s.inFlight - {id})
  }

  function After(cfg: Config, es: seq<Event>): State {
    if es == [] then Initial() else Step(cfg, After(cfg, es[..|es| - 1]), es[|es| - 1])
  }

  predicate ValidRun(cfg: Config, es: seq<Event>) {
    es == [] ||
    (ValidRun(cfg, es[..|es| - 1]) && Enabled(After(cfg, es[..|es| - 1]), es[|es| - 1]))
  }

  lemma AfterSnoc(cfg: Config, es: seq<Event>, e: Event)
    ensures After(cfg, es + [e]) == Step(cfg, After(cfg, es), e)
    ensures ValidRun(cfg, es + [e]) <==> ValidRun(cfg, es) && Enabled(After(cfg, es), e)
  {
    assert (es + [e])[..|es|] == es;
  }

  lemma {:induction false} PrefixValid(cfg: Config, es: seq<Event>, i: nat)
    requires ValidRun(cfg, es) && i < |es|
    ensures ValidRun(cfg, es[..i]) && Enabled(After(cfg, es[..i]), es[i])
  {
    var last := |es| - 1;
    if i == last {
    } else {
      PrefixValid(cfg, es[..last], i);
      assert es[..last][..i] == es[..i];
    }
  }

  // ---- Where a cached token comes from -----------------------------------------------------

  /** Event `i` is the reply that put the slot into the cache, the latest one for its key. */
  predicate Source(cfg: Config, es: seq<Event>, i: nat, slot: Slot<Entry>) {
    && i < |es| && es[i].Replied?
    && slot == Slot(KeyOf(cfg, es[i].call), NewEntry(es[i].call, es[i].reply, es[i].at, es[i].at2))
    && NoReplyAfter(cfg, es, i, slot.key)
  }

  predicate NoReplyAfter(cfg: Config, es: seq<Event>, i: nat, key: string) {
    forall j :: i < j < |es| && es[j].Replied? ==> KeyOf(cfg, es[j].call) != key
  }

  lemma {:induction false} ClockBounds(cfg: Config, es: seq<Event>)
    requires ValidRun(cfg, es)
    ensures forall i :: 0 <= i < |es| && es[i].Replied? ==> es[i].at2 <= After(cfg, es).clock
  {
    if es == [] {
    } else {
      ClockBounds(cfg, es[..|es| - 1]);
    }
  }

  lemma {:induction false} CacheHoldsReplies(cfg: Config, es: seq<Event>, slot: Slot<Entry>) returns (i: nat)
    requires slot in After(cfg, es).cache
    ensures Source(cfg, es, i, slot)
  {
    var before, last := es[..|es| - 1], es[|es| - 1];
    assert es == before + [last];
    OrderedByLastTouch(cfg, before);
    SlotOrigin(cfg, After(cfg, before), last, slot);
    if last.Replied? && KeyOf(cfg, last.call) == slot.key {
      i := |es| - 1;
    } else {
      i := CacheHoldsReplies(cfg, before, slot);
      SourceStays(cfg, before, last, i, slot);
    }
  }

  /** A slot found after a step is the one a reply for its key just made, or was there before. */
  lemma SlotOrigin(cfg: Config, s: State, e: Event, slot: Slot<Entry>)
    requires Distinct(Keys(s.cache)) && slot in Step(cfg, s, e).cache
    ensures if e.Replied? && KeyOf(cfg, e.call) == slot.key
            then slot.value == NewEntry(e.call, e.reply, e.at, e.at2)
            else slot in s.cache
  {
    match e
    case Started(_, call, at) => LookupKeys(s.cache, KeyOf(cfg, call), at);
    case Replied(_, call, reply, at, at2) =>
      InsertMembers(cfg.maxEntries, s.cache, KeyOf(cfg, call), NewEntry(call, reply, at, at2));
    case Failed(_) =>
  }

  lemma SourceStays(cfg: Config, es: seq<Event>, e: Event, i: nat, slot: Slot<Entry>)
    requires Source(cfg, es, i, slot) && !(e.Replied? && KeyOf(cfg, e.call) == slot.key)
    ensures Source(cfg, es + [e], i, slot)
  {
    assert forall j :: 0 <= j < |es| ==> (es + [e])[j] == es[j];
  }

  lemma InsertMembers(maxEntries: int, cache: Cache, key: string, entry: Entry)
    requires Distinct(Keys(cache))
    ensures forall x :: x in Insert(maxEntries, cache, key, entry) ==>
              if x.key == key then x.value == entry else x in cache
  {
    PutReplaces(cache, key, entry);
    var grown := Put(cache, key, entry);
    PutMeaning(cache, key, entry);
    DeleteMeaning(grown, grown[0].key);
  }

  lemma HitSlot(cfg: Config, s: State, call: Call, at: real) returns (e: Entry)
    requires KeyOf(cfg, call) in Keys(s.cache)
    ensures Slot(KeyOf(cfg, call), e) in s.cache
    ensures Hit(cfg, s, call, at) == if e.validUntil > at then Some(e.token) else None
  {
    GetMeaning(s.cache, KeyOf(cfg, call));
    e := Get(s.cache, KeyOf(cfg, call)).value;
  }

  /** No two different subject tokens among the run's replies and `subject` share a digest. */
  ghost predicate NoCollision(cfg: Config, es: seq<Event>, subject: string) {
    forall i :: 0 <= i < |es| && es[i].Replied? ==>
      && |cfg.digest(es[i].call.subject)| == |cfg.digest(subject)|
      && (cfg.digest(es[i].call.subject) == cfg.digest(subject) ==> es[i].call.subject == subject)
  }

  /** A reply may still be reused: less than 60 s old, both expiries more than 30 s away. */
  predicate Reusable(e: Event, at: real)
    requires e.Replied?
  {
    && at < e.at2 + 60000.0
    && e.at + e.reply.expiresIn * 1000.0 > at + 30000.0
    && (e.call.subjectExpiresAt.Some? ==> e.call.subjectExpiresAt.value * 1000.0 > at + 30000.0)
  }

  /**
   * A key in the cache stands for the latest reply for the same subject and scope, in any
   * interleaving; a call starting at `at` gets that reply's token iff it may still be reused.
   */
  lemma HitIff(cfg: Config, es: seq<Event>, call: Call, at: real) returns (i: nat)
    requires ValidRun(cfg, es) && NoCollision(cfg, es, call.subject)
    requires KeyOf(cfg, call) in Keys(After(cfg, es).cache)
    ensures i < |es| && es[i].Replied? && NoReplyAfter(cfg, es, i, KeyOf(cfg, call))
    ensures es[i].call.subject == call.subject && es[i].call.scope == call.scope
    ensures es[i].at2 <= After(cfg, es).clock
    ensures Hit(cfg, After(cfg, es), call, at) ==
            if Reusable(es[i], at) then Some(es[i].reply.accessToken) else None
  {
    var e := HitSlot(cfg, After(cfg, es), call, at);
    i := CacheHoldsReplies(cfg, es, Slot(KeyOf(cfg, call), e));
    KeyDetermines(cfg, es[i].call, call);
    ClockBounds(cfg, es);
  }

  /** A key not in the cache is a miss. */
  lemma MissIfAbsent(cfg: Config, s: State, call: Call, at: real)
    ensures Hit(cfg, s, call, at).Some? ==> KeyOf(cfg, call) in Keys(s.cache)
  {
    GetMeaning(s.cache, KeyOf(cfg, call));
  }

  /** The token a call gets from event `i`: a hit at once, or the reply to its own exchange. */
  function Returned(cfg: Config, es: seq<Event>, i: nat): Option<string>
    requires i < |es|
  {
    match es[i]
    case Started(_, call, at) => Hit(cfg, After(cfg, es[..i]), call, at)
    case Replied(_, _, reply, _, _) => Some(reply.accessToken)
    case Failed(_) => None
  }

  /** Once no exchange for a subject succeeds after `r`, no call for it gets a token at or after `r` + 60 s. */
  lemma RevokedWithinAMinute(cfg: Config, es: seq<Event>, subject: string, r: real, i: nat)
    requires ValidRun(cfg, es) && NoCollision(cfg, es, subject)
    requires forall j :: 0 <= j < |es| && es[j].Replied? && es[j].call.subject == subject ==> es[j].at2 <= r
    requires i < |es| && !es[i].Failed? && es[i].call.subject == subject && es[i].at >= r + 60000.0
    ensures Returned(cfg, es, i).None?
  {
    var before := es[..i];
    PrefixValid(cfg, es, i);
    assert NoCollision(cfg, before, subject);
    if es[i].Started? && Returned(cfg, es, i).Some? {
      MissIfAbsent(cfg, After(cfg, before), es[i].call, es[i].at);
      var _ := HitIff(cfg, before, es[i].call, es[i].at);
    }
  }

  // ---- Exchanges that fail -----------------------------------------------------------------

  function WithoutFailures(es: seq<Event>): seq<Event> {
    if es == [] then []
    else WithoutFailures(es[..|es| - 1]) + if es[|es| - 1].Failed? then [] else [es[|es| - 1]]
  }

  /** Failed exchanges leave no trace in the cache: it is that of the same run without them. */
  lemma {:induction false} FailuresLeaveNoTrace(cfg: Config, es: seq<Event>)
    ensures After(cfg, es).cache == After(cfg, WithoutFailures(es)).cache
  {
    if es == [] {
    } else {
      var before, e := es[..|es| - 1], es[|es| - 1];
      FailuresLeaveNoTrace(cfg, before);
      if e.Failed? {
        assert WithoutFailures(before) + [] == WithoutFailures(before);
      } else {
        AfterSnoc(cfg, WithoutFailures(before), e);
      }
    }
  }

  // ---- Order of the entries and eviction ---------------------------------------------------

  /** A hit touches its key, and so does inserting an absent one; an overwrite does not. */
  predicate Touches(cfg: Config, s: State, e: Event, key: string) {
    match e
    case Started(_, call, at) => KeyOf(cfg, call) == key && Hit(cfg, s, call, at).Some?
    case Replied(_, call, _, _, _) => KeyOf(cfg, call) == key && key !in Keys(s.cache)
    case Failed(_) => false
  }

  /** Index of the latest event touching `key`, or -1. */
  function LastTouch(cfg: Config, es: seq<Event>, key: string): (n: int)
    ensures -1 <= n < |es|
  {
    if es == [] then -1
    else
      var last := |es| - 1;
      if Touches(cfg, After(cfg, es[..last]), es[last], key) then last else LastTouch(cfg, es[..last], key)
  }

  predicate TouchedAt(cfg: Config, es: seq<Event>, i: nat, key: string) {
    i < |es| && Touches(cfg, After(cfg, es[..i]), es[i], key)
  }

  lemma TouchedBefore(cfg: Config, es: seq<Event>, n: nat, i: nat, key: string)
    requires i < n <= |es|
    ensures TouchedAt(cfg, es, i, key) == TouchedAt(cfg, es[..n], i, key)
  {
    assert es[..n][..i] == es[..i] && es[..n][i] == es[i];
  }

  /** `LastTouch` is the index of an event that touches the key, and no later event does. */
  lemma {:induction false} LastTouchMeaning(cfg: Config, es: seq<Event>, key: string)
    ensures LastTouch(cfg, es, key) >= 0 ==> TouchedAt(cfg, es, LastTouch(cfg, es, key), key)
    ensures forall i: nat :: LastTouch(cfg, es, key) < i < |es| ==> !TouchedAt(cfg, es, i, key)
  {
    if es == [] {
    } else {
      var last := |es| - 1;
      if TouchedAt(cfg, es, last, key) {
        assert LastTouch(cfg, es, key) == last;
      } else {
        LastTouchMeaning(cfg, es[..last], key);
        SameTouches(cfg, es, key);
      }
    }
  }

  lemma SameTouches(cfg: Config, es: seq<Event>, key: string)
    requires es != []
    ensures forall i: nat :: i < |es| - 1 ==> TouchedAt(cfg, es, i, key) == TouchedAt(cfg, es[..|es| - 1], i, key)
  {
    forall i: nat | i < |es| - 1 ensures TouchedAt(cfg, es, i, key) == TouchedAt(cfg, es[..|es| - 1], i, key) {
      TouchedBefore(cfg, es, |es| - 1, i, key);
    }
  }

  function Rank(cfg: Config, es: seq<Event>): string -> int {
    (key: string) => LastTouch(cfg, es, key)
  }

  /** `keys` have all been touched and stand in the order of their latest touch. */
  ghost predicate Ordered(cfg: Config, es: seq<Event>, keys: seq<string>) {
    && Ascending(keys, Rank(cfg, es))
    && forall k :: k in keys ==> LastTouch(cfg, es, k) >= 0
  }

  /** Keys the last event does not touch keep their order. */
  lemma OrderedUntouched(cfg: Config, es: seq<Event>, e: Event, keys: seq<string>)
    requires Ordered(cfg, es, keys)
    requires forall k :: k in keys ==> !Touches(cfg, After(cfg, es), e, k)
    ensures Ordered(cfg, es + [e], keys)
    ensures forall k :: k in keys ==> LastTouch(cfg, es + [e], k) < |es|
  {
    var es' := es + [e];
    assert es'[..|es|] == es;
    assert forall k :: k in keys ==> LastTouch(cfg, es', k) == LastTouch(cfg, es, k);
    forall i, j | 0 <= i < j < |keys| ensures Rank(cfg, es')(keys[i]) < Rank(cfg, es')(keys[j]) {
      assert keys[i] in keys && keys[j] in keys;
      assert Rank(cfg, es)(keys[i]) < Rank(cfg, es)(keys[j]);
    }
  }

  /** A key the last event touches goes after the ones it does not touch. */
  lemma OrderedTouched(cfg: Config, es: seq<Event>, e: Event, keys: seq<string>, key: string)
    requires Ordered(cfg, es, keys)
    requires forall k :: k in keys ==> !Touches(cfg, After(cfg, es), e, k)
    requires Touches(cfg, After(cfg, es), e, key)
    ensures Ordered(cfg, es + [e], keys + [key])
  {
    var es' := es + [e];
    OrderedUntouched(cfg, es, e, keys);
    assert es'[..|es|] == es && LastTouch(cfg, es', key) == |es|;
    forall i, j | 0 <= i < j < |keys + [key]|
      ensures Rank(cfg, es')((keys + [key])[i]) < Rank(cfg, es')((keys + [key])[j]) {
      assert keys[i] in keys;
      if j < |keys| {
        assert Rank(cfg, es')(keys[i]) < Rank(cfg, es')(keys[j]);
      }
    }
  }

  lemma OrderedRemove(cfg: Config, es: seq<Event>, keys: seq<string>, key: string)
    requires Ordered(cfg, es, keys)
    ensures Ordered(cfg, es, Remove(keys, key))
  {
    RemoveAscending(keys, key, Rank(cfg, es));
  }

  /** In every run the cache is within its bound and lists its keys by their latest touch, oldest first. */
  lemma {:induction false} OrderedByLastTouch(cfg: Config, es: seq<Event>)
    ensures var keys := Keys(After(cfg, es).cache);
            |keys| <= Max0(cfg.maxEntries) && Distinct(keys) && Ordered(cfg, es, keys)
  {
    if es == [] {
    } else {
      var before, e := es[..|es| - 1], es[|es| - 1];
      assert es == before + [e];
      OrderedByLastTouch(cfg, before);
      OrderedStep(cfg, before, e);
      AscendingIsDistinct(Keys(After(cfg, es).cache), Rank(cfg, es));
    }
  }

  lemma OrderedStep(cfg: Config, es: seq<Event>, e: Event)
    requires var keys := Keys(After(cfg, es).cache);
             |keys| <= Max0(cfg.maxEntries) && Distinct(keys) && Ordered(cfg, es, keys)
    ensures var keys := Keys(After(cfg, es + [e]).cache);
            |keys| <= Max0(cfg.maxEntries) && Ordered(cfg, es + [e], keys)
  {
    var s := After(cfg, es);
    var keys := Keys(s.cache);
    AfterSnoc(cfg, es, e);
    if e.Failed? {
      OrderedUntouched(cfg, es, e, keys);
    } else if e.Started? {
      var key := KeyOf(cfg, e.call);
      LookupKeys(s.cache, key, e.at);
      OrderedRemove(cfg, es, keys, key);
      RemoveDistinct(keys, key);
      if Hit(cfg, s, e.call, e.at).Some? {
        OrderedTouched(cfg, es, e, Remove(keys, key), key);
      } else {
        OrderedUntouched(cfg, es, e, Remove(keys, key));
      }
    } else {
      GrownOrdered(cfg, es, e);
      InsertKeys(cfg.maxEntries, s.cache, KeyOf(cfg, e.call), NewEntry(e.call, e.reply, e.at, e.at2));
      OrderedTail(cfg, es + [e], Grown(cfg, s, e));
    }
  }

  /** The keys right after a reply's `set`, before any eviction. */
  function Grown(cfg: Config, s: State, e: Event): (r: seq<string>)
    requires e.Replied?
    ensures r != []
  {
    var keys, key := Keys(s.cache), KeyOf(cfg, e.call);
    if key in keys then keys else keys + [key]
  }

  lemma GrownOrdered(cfg: Config, es: seq<Event>, e: Event)
    requires e.Replied? && Ordered(cfg, es, Keys(After(cfg, es).cache))
    ensures Ordered(cfg, es + [e], Grown(cfg, After(cfg, es), e))
  {
    var keys, key := Keys(After(cfg, es).cache), KeyOf(cfg, e.call);
    if key in keys {
      OrderedUntouched(cfg, es, e, keys);
    } else {
      OrderedTouched(cfg, es, e, keys, key);
    }
  }

  lemma OrderedTail(cfg: Config, es: seq<Event>, keys: seq<string>)
    requires keys != [] && Ordered(cfg, es, keys)
    ensures Ordered(cfg, es, keys[1..])
    ensures forall k :: k in keys[1..] ==> LastTouch(cfg, es, keys[0]) < LastTouch(cfg, es, k)
  {
    forall i, j | 0 <= i < j < |keys[1..]|
      ensures Rank(cfg, es)(keys[1..][i]) < Rank(cfg, es)(keys[1..][j]) {
      assert Rank(cfg, es)(keys[i + 1]) < Rank(cfg, es)(keys[j + 1]);
    }
    forall k | k in keys[1..] ensures LastTouch(cfg, es, keys[0]) < LastTouch(cfg, es, k) {
      var j :| 0 < j < |keys| && keys[j] == k;
      assert Rank(cfg, es)(keys[0]) < Rank(cfg, es)(keys[j]);
    }
  }

  /**
   * A reply evicts at most one entry, the least recently touched of all, and never the new one
   * unless the capacity is below one.
   */
  lemma EvictsLeastRecentlyTouched(cfg: Config, es: seq<Event>, e: Event)
    requires e.Replied?
    ensures var grown, now := Grown(cfg, After(cfg, es), e), Keys(After(cfg, es + [e]).cache);
            && now == (if |grown| <= Max0(cfg.maxEntries) then grown else grown[1..])
            && (forall k :: k in grown[1..] ==> LastTouch(cfg, es + [e], grown[0]) < LastTouch(cfg, es + [e], k))
            && (cfg.maxEntries >= 1 ==> KeyOf(cfg, e.call) in now)
  {
    var s, key := After(cfg, es), KeyOf(cfg, e.call);
    AfterSnoc(cfg, es, e);
    OrderedByLastTouch(cfg, es);
    GrownOrdered(cfg, es, e);
    OrderedTail(cfg, es + [e], Grown(cfg, s, e));
    InsertKeys(cfg.maxEntries, s.cache, key, NewEntry(e.call, e.reply, e.at, e.at2));
    if key !in Keys(s.cache) {
      assert Grown(cfg, s, e)[|s.cache|] == key;
    }
  }

  // ---- Calls that do not overlap -----------------------------------------------------------

  /** A whole call: looked up at `at` and, on a miss, answered by `reply` at `at1`, `at2`. */
  datatype Request = Request(call: Call, at: real, reply: Reply, at1: real, at2: real)

  function EventsOf(cfg: Config, rs: seq<Request>): seq<Event> {
    if rs == [] then []
    else Served(cfg, EventsOf(cfg, rs[..|rs| - 1]), rs[|rs| - 1])
  }

  predicate InTimeOrder(rs: seq<Request>) {
    forall i :: 0 <= i < |rs| ==>
      && 0.0 <= rs[i].at <= rs[i].at1 <= rs[i].at2
      && (i > 0 ==> rs[i - 1].at2 <= rs[i].at)
  }

  function Requested(cfg: Config, rs: seq<Request>): (keys: seq<string>)
    ensures |keys| == |rs|
  {
    seq(|rs|, i requires 0 <= i < |rs| => KeyOf(cfg, rs[i].call))
  }

  /** Back-to-back calls are one of the runs above. */
  lemma {:induction false} SequentialIsValid(cfg: Config, rs: seq<Request>)
    requires InTimeOrder(rs)
    ensures var s := After(cfg, EventsOf(cfg, rs));
            && ValidRun(cfg, EventsOf(cfg, rs))
            && 0 !in s.inFlight
            && s.clock <= if rs == [] then 0.0 else rs[|rs| - 1].at2
  {
    if rs == [] {
    } else {
      var prior, r := rs[..|rs| - 1], rs[|rs| - 1];
      SequentialIsValid(cfg, prior);
      var before := EventsOf(cfg, prior);
      ServedValid(cfg, before, r);
      AfterServed(cfg, before, r);
      ServeState(cfg, After(cfg, before), r);
    }
  }

  /** The events of one more back-to-back call. */
  function Served(cfg: Config, before: seq<Event>, r: Request): seq<Event> {
    var started := before + [Started(0, r.call, r.at)];
    if Hit(cfg, After(cfg, before), r.call, r.at).Some? then started
    else started + [Replied(0, r.call, r.reply, r.at1, r.at2)]
  }

  /** The same call, from state to state. */
  function Serve(cfg: Config, s: State, r: Request): State {
    var started := Step(cfg, s, Started(0, r.call, r.at));
    if Hit(cfg, s, r.call, r.at).Some? then started
    else Step(cfg, started, Replied(0, r.call, r.reply, r.at1, r.at2))
  }

  lemma AfterServed(cfg: Config, before: seq<Event>, r: Request)
    ensures After(cfg, Served(cfg, before, r)) == Serve(cfg, After(cfg, before), r)
  {
    var started := Started(0, r.call, r.at);
    AfterSnoc(cfg, before, started);
    AfterSnoc(cfg, before + [started], Replied(0, r.call, r.reply, r.at1, r.at2));
  }

  lemma ServeState(cfg: Config, s: State, r: Request)
    requires 0 !in s.inFlight && s.clock <= r.at <= r.at1 <= r.at2
    ensures var s' := Serve(cfg, s, r); 0 !in s'.inFlight && s'.clock <= r.at2
  {
  }

  lemma ServedValid(cfg: Config, before: seq<Event>, r: Request)
    requires ValidRun(cfg, before) && 0 !in After(cfg, before).inFlight
    requires After(cfg, before).clock <= r.at <= r.at1 <= r.at2
    ensures ValidRun(cfg, Served(cfg, before, r))
  {
    var started := Started(0, r.call, r.at);
    var replied := Replied(0, r.call, r.reply, r.at1, r.at2);
    var s := After(cfg, before);
    AfterSnoc(cfg, before, started);
    AfterSnoc(cfg, before + [started], replied);
    assert Hit(cfg, s, r.call, r.at).None? ==> Enabled(Step(cfg, s, started), replied);
  }

  /**
   * Back-to-back calls whose exchanges succeed leave in the cache, in iteration order, exactly the
   * last `maxEntries` distinct keys requested, whatever the clock and the replies were.
   */
  lemma {:induction false} KeysAreMostRecent(cfg: Config, rs: seq<Request>)
    ensures Keys(After(cfg, EventsOf(cfg, rs)).cache) == LastN(ByLatestUse(Requested(cfg, rs)), cfg.maxEntries)
  {
    if rs == [] {
    } else {
      var earlier, r := rs[..|rs| - 1], rs[|rs| - 1];
      var before := EventsOf(cfg, earlier);
      var key := KeyOf(cfg, r.call);
      var uses := ByLatestUse(Requested(cfg, earlier));
      KeysAreMostRecent(cfg, earlier);
      assert Requested(cfg, rs)[..|rs| - 1] == Requested(cfg, earlier);
      ByLatestUseMeaning(Requested(cfg, earlier));
      LastNOfUse(uses, key, cfg.maxEntries);
      AfterServed(cfg, before, r);
      OrderedByLastTouch(cfg, before);
      ServeKeys(cfg, After(cfg, before), r);
    }
  }

  /** What a call asks a token for. */
  datatype Ask = Ask(subject: string, scope: string)

  function AskOf(r: Request): Ask { Ask(r.call.subject, r.call.scope) }

  function AskKey(cfg: Config, a: Ask): string { KeyOf(cfg, Call(a.subject, None, a.scope)) }

  /** On the subjects asked about, the digest has one length and no collision. */
  ghost predicate DigestTellsApart(cfg: Config, rs: seq<Request>) {
    forall q, r :: q in rs && r in rs ==>
      && |cfg.digest(q.call.subject)| == |cfg.digest(r.call.subject)|
      && (cfg.digest(q.call.subject) == cfg.digest(r.call.subject) ==> q.call.subject == r.call.subject)
  }

  /**
   * The same on what was asked: the cached entries are those of the last `maxEntries` distinct
   * pairs of subject and scope, and a pair that was asked for is cached iff it is one of them.
   */
  lemma AsksAreMostRecent(cfg: Config, rs: seq<Request>)
    requires DigestTellsApart(cfg, rs)
    ensures var kept, keys := LastN(ByLatestUse(Map(AskOf, rs)), cfg.maxEntries), Keys(After(cfg, EventsOf(cfg, rs)).cache);
            && keys == Map(a => AskKey(cfg, a), kept)
            && forall r :: r in rs ==> (KeyOf(cfg, r.call) in keys <==> AskOf(r) in kept)
  {
    var asks, key := Map(AskOf, rs), (a: Ask) => AskKey(cfg, a);
    AsksToldApart(cfg, rs);
    KeysAreMostRecent(cfg, rs);
    assert Requested(cfg, rs) == Map(key, asks);
    ByLatestUseOfMap(key, asks);
    LastNOfMap(key, ByLatestUse(asks), cfg.maxEntries);
    ByLatestUseMeaning(asks);
    var kept := LastN(ByLatestUse(asks), cfg.maxEntries);
    forall r | r in rs ensures KeyOf(cfg, r.call) in Map(key, kept) <==> AskOf(r) in kept {
      AskIsUsed(rs, r);
      assert key(AskOf(r)) == KeyOf(cfg, r.call);
      InMap(key, asks, kept, AskOf(r));
    }
  }

  lemma AskIsUsed(rs: seq<Request>, r: Request)
    requires r in rs
    ensures AskOf(r) in Map(AskOf, rs)
  {
    var i :| 0 <= i < |rs| && rs[i] == r;
    assert Map(AskOf, rs)[i] == AskOf(r);
  }

  lemma InMap(key: Ask -> string, asks: seq<Ask>, kept: seq<Ask>, a: Ask)
    requires TellsApart(key, asks) && a in asks && forall k :: k in kept ==> k in asks
    ensures key(a) in Map(key, kept) <==> a in kept
  {
    if key(a) in Map(key, kept) {
      var i :| 0 <= i < |kept| && Map(key, kept)[i] == key(a);
      assert kept[i] in kept;
    }
    if a in kept {
      var i :| 0 <= i < |kept| && kept[i] == a;
      assert Map(key, kept)[i] == key(a);
    }
  }

  lemma AsksToldApart(cfg: Config, rs: seq<Request>)
    requires DigestTellsApart(cfg, rs)
    ensures TellsApart(a => AskKey(cfg, a), Map(AskOf, rs))
  {
    var asks := Map(AskOf, rs);
    forall a, b | a in asks && b in asks && AskKey(cfg, a) == AskKey(cfg, b) ensures a == b {
      var i :| 0 <= i < |rs| && asks[i] == a;
      var j :| 0 <= j < |rs| && asks[j] == b;
      assert rs[i] in rs && rs[j] in rs;
      KeyDetermines(cfg, Call(a.subject, None, a.scope), Call(b.subject, None, b.scope));
    }
  }

  /** One back-to-back call moves or adds its key last and drops the front beyond the bound. */
  lemma ServeKeys(cfg: Config, s: State, r: Request)
    requires Distinct(Keys(s.cache)) && |s.cache| <= Max0(cfg.maxEntries)
    ensures var key := KeyOf(cfg, r.call);
            Keys(Serve(cfg, s, r).cache) == LastN(Remove(Keys(s.cache), key) + [key], cfg.maxEntries)
  {
    var key := KeyOf(cfg, r.call);
    var looked := Lookup(s.cache, key, r.at).1;
    LookupKeys(s.cache, key, r.at);
    RemoveDistinct(Keys(s.cache), key);
    if Hit(cfg, s, r.call, r.at).None? {
      assert Keys(looked) == Remove(Keys(s.cache), key);
      InsertKeys(cfg.maxEntries, looked, key, NewEntry(r.call, r.reply, r.at1, r.at2));
      LastNOfSnoc(Keys(looked), key, cfg.maxEntries);
    } else {
      LastNOfSnoc(Remove(Keys(s.cache), key), key, cfg.maxEntries);
    }
  }

  lemma LastNOfSnoc(keys: seq<string>, key: string, n: int)
    requires |keys| <= Max0(n)
    ensures LastN(keys + [key], n) == if |keys| < n then keys + [key] else (keys + [key])[1..]
  {
  }

  /** A larger cache, serving the same calls at any times, ends with the smaller one's keys in the same order. */
  lemma LargerCacheHoldsMore(small: Config, large: Config, rs: seq<Request>, rs': seq<Request>)
    requires small.digest == large.digest && small.maxEntries <= large.maxEntries
    requires |rs| == |rs'| && forall i :: 0 <= i < |rs| ==> rs[i].call == rs'[i].call
    ensures var few, many := Keys(After(small, EventsOf(small, rs)).cache), Keys(After(large, EventsOf(large, rs')).cache);
            && few == LastN(many, small.maxEntries)
            && forall k :: k in few ==> k in many
  {
    KeysAreMostRecent(small, rs);
    KeysAreMostRecent(large, rs');
    assert Requested(small, rs) == Requested(large, rs');
    LastNNested(ByLatestUse(Requested(small, rs)), small.maxEntries, large.maxEntries);
  }
}
