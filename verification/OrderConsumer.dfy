/**
 * The order-completed consumer over one partition: a read position, a cumulative committed offset,
 * a dead-letter topic, and sessions that may stop at any point and start again.
 */
module OrderConsumer {
  import opened Retry

  /** Where the loop is. The offset is that of the message in hand. */
  datatype Phase = Down | Idle | Processing(offset: nat) | Failed(offset: nat) | Settled(offset: nat)

  datatype State = State(committed: nat, position: nat, phase: Phase, handled: set<nat>, dead: set<nat>)

  datatype Event =
    | Started                      // the group resumes at the committed offset
    | NothingRead                  // a timeout or a read error
    | Read
    | Processed(ok: bool)
    | Published(ok: bool)          // the dead-letter topic takes the message, or does not
    | Committed(stored: bool)      // whether or not an error is reported, the broker stored it or did not
    | Stopped                      // cancellation, or a crash at any point

  function Initial(): State { State(0, 0, Down, {}, {}) }

  predicate Enabled(s: State, e: Event) {
    match e
    case Started => s.phase.Down?
    case NothingRead => s.phase.Idle?
    case Read => s.phase.Idle?
    case Processed(_) => s.phase.Processing?
    case Published(_) => s.phase.Failed?
    case Committed(_) => s.phase.Settled?
    case Stopped => !s.phase.Down?
  }

  /** An event that cannot happen changes nothing; `ValidRun` rules it out. */
  function Step(s: State, e: Event): State {
    if !Enabled(s, e) then s else
    match e
    case Started => s.(phase := Idle, position := s.committed)
    case NothingRead => s
    case Read => s.(phase := Processing(s.position), position := s.position + 1)
    case Processed(ok) =>
      var o := s.phase.offset;
      if ok then s.(phase := Settled(o), handled := s.handled + {o}) else s.(phase := Failed(o))
    case Published(ok) =>
      var o := s.phase.offset;
      if ok then s.(phase := Settled(o), dead := s.dead + {o}) else s.(phase := Idle)
    case Committed(stored) =>
      s.(phase := Idle, committed := if stored then s.phase.offset + 1 else s.committed)
    case Stopped => s.(phase := Down)
  }

  function After(es: seq<Event>): State {
    if es == [] then Initial() else Step(After(es[..|es| - 1]), es[|es| - 1])
  }

  predicate ValidRun(es: seq<Event>) {
    es == [] || (ValidRun(es[..|es| - 1]) && Enabled(After(es[..|es| - 1]), es[|es| - 1]))
  }

  /** The message was handled or dead-lettered. */
  predicate Resolved(s: State, o: nat) { o in s.handled || o in s.dead }

  /** In every reachable state the message in hand is the last one read, and not yet committed. */
  ghost predicate Consistent(s: State) {
    && (!s.phase.Down? ==> s.committed <= s.position)
    && (s.phase.Processing? || s.phase.Failed? || s.phase.Settled? ==>
          s.committed <= s.phase.offset && s.position == s.phase.offset + 1)
    && (s.phase.Settled? ==> Resolved(s, s.phase.offset))
  }

  lemma {:induction false} AlwaysConsistent(es: seq<Event>)
    ensures Consistent(After(es))
  {
    if es == [] {
    } else {
      AlwaysConsistent(es[..|es| - 1]);
    }
  }

  /** Event `i` is the dead-letter topic's refusal of message `o`. */
  predicate Refused(es: seq<Event>, i: nat, o: nat) {
    i < |es| && es[i] == Published(false) && After(es[..i]).phase == Failed(o)
  }

  /** Event `j` stores the commit of message `o`. */
  predicate Stores(es: seq<Event>, j: nat, o: nat) {
    j < |es| && es[j] == Committed(true) && After(es[..j]).phase == Settled(o)
  }

  /** No session starts after event `i` and before event `j`. */
  predicate SameSession(es: seq<Event>, i: nat, j: nat) {
    i <= j <= |es| && forall k :: i < k < j ==> !es[k].Started?
  }

  /** Refused in the session that is still running. */
  ghost predicate RefusedNow(es: seq<Event>, o: nat) {
    exists i: nat :: Refused(es, i, o) && SameSession(es, i, |es|)
  }

  /** Refused, then passed over by the commit of a later message of the same session. */
  ghost predicate PassedOver(es: seq<Event>, o: nat) {
    exists i: nat, j: nat, o': nat :: Refused(es, i, o) && i < j && Stores(es, j, o') && o < o' && SameSession(es, i, j)
  }

  lemma EventsStay(es: seq<Event>, e: Event, i: nat, j: nat, o: nat)
    requires i <= |es| && j <= |es|
    ensures Refused(es, i, o) ==> Refused(es + [e], i, o)
    ensures Stores(es, i, o) ==> Stores(es + [e], i, o)
    ensures SameSession(es, i, j) ==> SameSession(es + [e], i, j)
  {
    assert (es + [e])[..i] == es[..i];
  }

  lemma PassedOverStays(es: seq<Event>, e: Event, o: nat)
    ensures PassedOver(es, o) ==> PassedOver(es + [e], o)
  {
    if i: nat, j: nat, o': nat :| Refused(es, i, o) && i < j && Stores(es, j, o') && o < o' && SameSession(es, i, j) {
      EventsStay(es, e, i, j, o);
      EventsStay(es, e, j, j, o');
    }
  }

  lemma RefusedNowStays(es: seq<Event>, e: Event, o: nat)
    ensures RefusedNow(es, o) && !e.Started? ==> RefusedNow(es + [e], o)
    ensures After(es).phase == Failed(o) && e == Published(false) ==> RefusedNow(es + [e], o)
  {
    var all := es + [e];
    assert all[..|es|] == es;
    if i: nat :| Refused(es, i, o) && SameSession(es, i, |es|) {
      EventsStay(es, e, i, |es|, o);
      assert !e.Started? ==> SameSession(all, i, |all|);
    }
    if After(es).phase == Failed(o) && e == Published(false) {
      assert Refused(all, |es|, o) && SameSession(all, |es|, |all|);
    }
  }

  lemma CommittedOver(es: seq<Event>, o: nat, o': nat)
    requires RefusedNow(es, o) && After(es).phase == Settled(o') && o < o'
    ensures PassedOver(es + [Committed(true)], o)
  {
    var all := es + [Committed(true)];
    assert all[..|es|] == es;
    var i: nat :| Refused(es, i, o) && SameSession(es, i, |es|);
    EventsStay(es, Committed(true), i, |es|, o);
    assert Stores(all, |es|, o');
  }

  /** What is known of an unresolved message, by where it stands. */
  ghost predicate Accounted(es: seq<Event>, o: nat) {
    var s := After(es);
    !Resolved(s, o) ==>
      && (o < s.committed ==> PassedOver(es, o))
      && (!s.phase.Down? && o < s.position ==>
            || PassedOver(es, o) || RefusedNow(es, o)
            || s.phase == Processing(o) || s.phase == Failed(o))
  }

  lemma {:induction false} AlwaysAccounted(es: seq<Event>, o: nat)
    requires ValidRun(es)
    ensures Accounted(es, o)
  {
    if es == [] {
    } else {
      var before, e := es[..|es| - 1], es[|es| - 1];
      assert es == before + [e];
      AlwaysAccounted(before, o);
      AlwaysConsistent(before);
      PassedOverStays(before, e, o);
      RefusedNowStays(before, e, o);
      var s := After(before);
      if s.phase.Settled? && e == Committed(true) && RefusedNow(before, o) && o < s.phase.offset {
        CommittedOver(before, o, s.phase.offset);
      }
      AccountedStep(before, e, o);
    }
  }

  lemma AccountedStep(es: seq<Event>, e: Event, o: nat)
    requires Consistent(After(es)) && Accounted(es, o) && Enabled(After(es), e)
    requires PassedOver(es, o) ==> PassedOver(es + [e], o)
    requires RefusedNow(es, o) && !e.Started? ==> RefusedNow(es + [e], o)
    requires After(es).phase == Failed(o) && e == Published(false) ==> RefusedNow(es + [e], o)
    requires After(es).phase.Settled? && e == Committed(true) && RefusedNow(es, o) && o < After(es).phase.offset ==>
               PassedOver(es + [e], o)
    ensures Accounted(es + [e], o)
  {
    assert (es + [e])[..|es|] == es;
  }

  lemma {:induction false} CommittedMonotone(es: seq<Event>, i: nat)
    requires i <= |es|
    ensures After(es[..i]).committed <= After(es).committed
  {
    if i == |es| {
      assert es[..i] == es;
    } else {
      var before := es[..|es| - 1];
      CommittedMonotone(before, i);
      AlwaysConsistent(before);
      assert before[..i] == es[..i];
    }
  }

  lemma PassedOverIsCommitted(es: seq<Event>, o: nat)
    ensures PassedOver(es, o) ==> o < After(es).committed
  {
    if i: nat, j: nat, o': nat :| Refused(es, i, o) && i < j && Stores(es, j, o') && o < o' && SameSession(es, i, j) {
      CommittedMonotone(es, j + 1);
      assert es[..j + 1][..j] == es[..j];
    }
  }

  /**
   * In every run, an unresolved message is below the committed offset iff the dead-letter topic
   * refused it and a later message was then committed in the same session.
   */
  lemma LostIff(es: seq<Event>, o: nat)
    requires ValidRun(es) && !Resolved(After(es), o)
    ensures o < After(es).committed <==> PassedOver(es, o)
  {
    AlwaysAccounted(es, o);
    PassedOverIsCommitted(es, o);
  }

  /** At least once: when no dead-letter publish fails, everything below the committed offset is resolved. */
  lemma AtLeastOnce(es: seq<Event>, o: nat)
    requires ValidRun(es) && forall i :: 0 <= i < |es| ==> es[i] != Published(false)
    requires o < After(es).committed
    ensures Resolved(After(es), o)
  {
    if !Resolved(After(es), o) {
      LostIff(es, o);
    }
  }

  /** It does happen: message 0 fails, its dead-letter publish fails, and message 1 is committed over it. */
  lemma LossExample()
    ensures var es := [Started, Read, Processed(false), Published(false), Read, Processed(true), Committed(true)];
            ValidRun(es) && After(es).committed == 2 && !Resolved(After(es), 0)
  {
    var s3 := State(0, 1, Idle, {}, {});
    var first := [Started, Read, Processed(false), Published(false)];
    var second := [Read, Processed(true), Committed(true)];
    OneMessageLeads(State(0, 0, Idle, {}, {}), false, false, false);
    OneMessageLeads(s3, true, true, true);
    LeadsCons(Initial(), Started, [Read, Processed(false), Published(false)], s3);
    assert [Read, Processed(false)] + [Published(false)] + [] == [Read, Processed(false), Published(false)];
    assert [Started] + [Read, Processed(false), Published(false)] == first;
    assert [Read, Processed(true)] + [] + [Committed(true)] == second;
    LeadsConcat(Initial(), first, s3, second, State(2, 2, Idle, {1}, {}));
    assert [] + (first + second) ==
           [Started, Read, Processed(false), Published(false), Read, Processed(true), Committed(true)];
    LeadsExtendsRun([], first + second, State(2, 2, Idle, {1}, {}));
  }

  /** A message lost this way is never read again, whatever follows. */
  lemma {:induction false} LostForGood(es: seq<Event>, more: seq<Event>, o: nat)
    requires !Resolved(After(es), o) && o < After(es).committed
    ensures !Resolved(After(es + more), o) && o < After(es + more).committed
  {
    if more == [] {
      assert es + more == es;
    } else {
      var n := |more| - 1;
      LostForGood(es, more[..n], o);
      AlwaysConsistent(es + more[..n]);
      assert (es + more)[..|es + more| - 1] == es + more[..n];
    }
  }

  /** A message not resolved and not passed over is read again: the next session starts at or below it. */
  lemma RedeliveredOtherwise(es: seq<Event>, o: nat)
    requires ValidRun(es) && !Resolved(After(es), o) && !PassedOver(es, o) && After(es).phase.Down?
    ensures After(es + [Started]).position <= o
  {
    LostIff(es, o);
    assert (es + [Started])[..|es|] == es;
  }

  // ---- The loop ----------------------------------------------------------------------------

  /** One turn of the loop, as the world decides it. */
  datatype Turn =
    | ContextDone
    | NoMessage
    | Message(delivery: Delivery, published: bool, stored: bool)

  /** The order is read and the handler takes it on one of its four attempts, before any wait is cancelled. */
  ghost predicate HandlerTakes(d: Delivery) {
    d.decodes && exists k: nat :: k <= 3 && d.handles(k) && forall j: nat :: 1 <= j <= k ==> !d.cancelled(j)
  }

  lemma SucceedsIff(d: Delivery)
    ensures Succeeds(d, MAX_RETRIES) <==> HandlerTakes(d)
  {
    if HandlerTakes(d) {
      var k: nat :| k <= 3 && d.handles(k) && forall j: nat :: 1 <= j <= k ==> !d.cancelled(j);
      FirstSuccess(d, k);
    }
  }

  lemma {:induction false} FirstSuccess(d: Delivery, k: nat)
    requires d.decodes && d.handles(k) && forall j: nat :: 1 <= j <= k ==> !d.cancelled(j)
    ensures exists n: nat :: n <= k && SucceedsAt(d, n)
  {
    if j: nat :| j < k && d.handles(j) {
      FirstSuccess(d, j);
    } else {
      assert SucceedsAt(d, k);
    }
  }

  /** The commit of the message is stored: it was handled or dead-lettered first. */
  ghost predicate Commits(m: Turn)
    requires m.Message?
  {
    (HandlerTakes(m.delivery) || m.published) && m.stored
  }

  /** The messages a session reads: those before the first cancellation. */
  function Deliveries(turns: seq<Turn>): (ds: seq<Turn>)
    ensures forall m :: m in ds ==> m.Message?
  {
    if turns == [] || turns[0].ContextDone? then []
    else ReadBy(turns[0]) + Deliveries(turns[1..])
  }

  function ReadBy(t: Turn): (ds: seq<Turn>)
    ensures forall m :: m in ds ==> m.Message?
  {
    if t.Message? then [t] else []
  }

  /**
   * What a session that reads `ds` makes of the state: message k is at offset committed + k; it is
   * handled iff the handler takes it, dead iff it does not and the dead-letter topic does; and the
   * committed offset is past the last message whose commit is stored.
   */
  ghost predicate Made(s: State, ds: seq<Turn>, t: State)
    requires forall m :: m in ds ==> m.Message?
  {
    var first, end := s.committed, s.committed + |ds|;
    && t.position == end
    && (forall o: nat :: o in t.handled <==>
          o in s.handled || (first <= o < end && HandlerTakes(ds[o - first].delivery)))
    && (forall o: nat :: o in t.dead <==>
          o in s.dead || (first <= o < end && !HandlerTakes(ds[o - first].delivery) && ds[o - first].published))
    && first <= t.committed <= end
    && (t.committed > first ==> Commits(ds[t.committed - 1 - first]))
    && (forall k :: 0 <= k < |ds| && t.committed <= first + k ==> !Commits(ds[k]))
  }

  /** What one more message makes of it. */
  ghost predicate MadeOne(s: State, m: Turn, t: State)
    requires m.Message?
  {
    var o, taken := s.position, HandlerTakes(m.delivery);
    && t.position == o + 1
    && t.handled == (if taken then s.handled + {o} else s.handled)
    && t.dead == (if !taken && m.published then s.dead + {o} else s.dead)
    && t.committed == (if Commits(m) then o + 1 else s.committed)
  }

  lemma MadeSnoc(s: State, ds: seq<Turn>, t: State, m: Turn, u: State)
    requires (forall m :: m in ds ==> m.Message?) && Made(s, ds, t)
    requires if m.Message? then MadeOne(t, m, u) else t == u
    ensures forall d :: d in ds + ReadBy(m) ==> d.Message?
    ensures Made(s, ds + ReadBy(m), u)
  {
    if m.Message? {
      assert (ds + [m])[|ds|] == m;
    } else {
      assert ds + [] == ds;
    }
  }

  lemma NextDelivery(ds: seq<Turn>, turns: seq<Turn>, n: nat)
    requires n < |turns|
    ensures ds + Deliveries(turns[n..]) ==
            ds + ReadBy(turns[n]) + if turns[n].ContextDone? then [] else Deliveries(turns[n + 1..])
  {
    assert turns[n..][0] == turns[n] && turns[n..][1..] == turns[n + 1..];
  }

  /** An offset that a session commits over without resolving it was refused by handler and dead-letter topic. */
  lemma CommittedOverMeans(s: State, ds: seq<Turn>, t: State, o: nat)
    requires (forall m :: m in ds ==> m.Message?) && Made(s, ds, t)
    requires s.committed <= o < t.committed && !Resolved(t, o)
    ensures var m := ds[o - s.committed]; !HandlerTakes(m.delivery) && !m.published
  {
  }

  /** The events of one turn. */
  ghost function TurnEvents(t: Turn): seq<Event> {
    match t
    case ContextDone => [Stopped]
    case NoMessage => [NothingRead]
    case Message(delivery, published, stored) =>
      var ok := Succeeds(delivery, MAX_RETRIES);
      [Read, Processed(ok)] + (if ok then [] else [Published(published)]) +
      if ok || published then [Committed(stored)] else []
  }

  /** The events of the turns up to and including the first cancellation. */
  ghost function LoopEvents(turns: seq<Turn>): seq<Event> {
    if turns == [] then []
    else TurnEvents(turns[0]) + if turns[0].ContextDone? then [] else LoopEvents(turns[1..])
  }

  /** `es` can happen from `s` and leads to `t`. */
  ghost predicate Leads(s: State, es: seq<Event>, t: State)
    decreases |es|
  {
    if es == [] then s == t else Enabled(s, es[0]) && Leads(Step(s, es[0]), es[1..], t)
  }

  lemma LeadsCons(s: State, e: Event, es: seq<Event>, t: State)
    ensures Leads(s, [e] + es, t) <==> Enabled(s, e) && Leads(Step(s, e), es, t)
  {
    assert ([e] + es)[1..] == es;
  }

  lemma {:induction false} LeadsConcat(s: State, es: seq<Event>, t: State, fs: seq<Event>, u: State)
    requires Leads(s, es, t) && Leads(t, fs, u)
    ensures Leads(s, es + fs, u)
    decreases |es|
  {
    if es == [] {
      assert es + fs == fs;
    } else {
      LeadsConcat(Step(s, es[0]), es[1..], t, fs, u);
      assert (es + fs)[1..] == es[1..] + fs;
    }
  }

  /** What a session does extends the run so far. */
  lemma {:induction false} LeadsExtendsRun(es: seq<Event>, fs: seq<Event>, t: State)
    requires ValidRun(es) && Leads(After(es), fs, t)
    ensures ValidRun(es + fs) && After(es + fs) == t
    decreases |fs|
  {
    if fs == [] {
      assert es + fs == es;
    } else {
      assert (es + [fs[0]])[..|es|] == es;
      LeadsExtendsRun(es + [fs[0]], fs[1..], t);
      assert es + [fs[0]] + fs[1..] == es + fs;
    }
  }

  lemma OneMessageLeads(s: State, ok: bool, published: bool, stored: bool)
    requires s.phase.Idle?
    ensures var o := s.position;
            var es := [Read, Processed(ok)] + (if ok then [] else [Published(published)]) +
                      if ok || published then [Committed(stored)] else [];
            Leads(s, es, State(if (ok || published) && stored then o + 1 else s.committed, o + 1, Idle,
                               if ok then s.handled + {o} else s.handled,
                               if !ok && published then s.dead + {o} else s.dead))
  {
    var o := s.position;
    var s1 := Step(s, Read);
    var s2 := Step(s1, Processed(ok));
    var s3 := if ok then s2 else Step(s2, Published(published));
    var s4 := if ok || published then Step(s3, Committed(stored)) else s3;
    LeadsCons(s3, Committed(stored), [], s4);
    var last := if ok || published then [Committed(stored)] else [];
    assert [Committed(stored)] + [] == [Committed(stored)];
    assert Leads(s3, last, s4);
    LeadsCons(s2, Published(published), last, s4);
    var rest := (if ok then [] else [Published(published)]) + last;
    assert ok ==> rest == last;
    assert Leads(s2, rest, s4);
    LeadsCons(s1, Processed(ok), rest, s4);
    LeadsCons(s, Read, [Processed(ok)] + rest, s4);
    assert [Read] + ([Processed(ok)] + rest) ==
           [Read, Processed(ok)] + (if ok then [] else [Published(published)]) + last;
  }

  lemma NextTurn(es: seq<Event>, turns: seq<Turn>, n: nat)
    requires n < |turns|
    ensures es + LoopEvents(turns[n..]) ==
            es + TurnEvents(turns[n]) + if turns[n].ContextDone? then [] else LoopEvents(turns[n + 1..])
  {
    var now, rest := TurnEvents(turns[n]), if turns[n].ContextDone? then [] else LoopEvents(turns[n + 1..]);
    LoopUnfold(turns, n);
    Associate(es, now, rest);
  }

  lemma LoopUnfold(turns: seq<Turn>, n: nat)
    requires n < |turns|
    ensures LoopEvents(turns[n..]) ==
            TurnEvents(turns[n]) + if turns[n].ContextDone? then [] else LoopEvents(turns[n + 1..])
  {
    assert turns[n..][0] == turns[n] && turns[n..][1..] == turns[n + 1..];
  }

  lemma Associate(a: seq<Event>, b: seq<Event>, c: seq<Event>)
    ensures a + (b + c) == a + b + c
  {
  }

  class Consumer {
    var committed: nat
    var position: nat
    var handled: set<nat>
    var dead: set<nat>

    function Snapshot(phase: Phase): State
      reads this
    {
      State(committed, position, phase, handled, dead)
    }

    constructor ()
      ensures Snapshot(Down) == Initial()
    {
      committed, position, handled, dead := 0, 0, {}, {};
    }

    /** A session: resume at the committed offset, then turn until cancelled. */
    method Session(turns: seq<Turn>) returns (cancelled: bool)
      modifies this
      ensures Leads(old(Snapshot(Down)), [Started] + LoopEvents(turns), Snapshot(if cancelled then Down else Idle))
      ensures Made(old(Snapshot(Down)), Deliveries(turns), Snapshot(Down))
      ensures cancelled <==> ContextDone in turns
    {
      ghost var s := Snapshot(Down);
      position := committed;
      cancelled := false;
      ghost var es := [Started];
      LeadsCons(s, Started, [], Snapshot(Idle));
      assert [Started] + [] == es;
      var n := 0;
      ghost var ds: seq<Turn> := [];
      while n < |turns| && !cancelled
        invariant n <= |turns|
        invariant forall m :: m in ds ==> m.Message?
        invariant Made(s, ds, Snapshot(Down))
        invariant ds + (if cancelled then [] else Deliveries(turns[n..])) == Deliveries(turns)
        invariant cancelled <==> ContextDone in turns[..n]
        invariant Leads(s, es, Snapshot(if cancelled then Down else Idle))
        invariant es + (if cancelled then [] else LoopEvents(turns[n..])) == [Started] + LoopEvents(turns)
        decreases |turns| - n
      {
        ghost var before, now := Snapshot(Idle), TurnEvents(turns[n]);
        NextTurn(es, turns, n);
        NextDelivery(ds, turns, n);
        cancelled := OneTurn(turns[n]);
        MadeSnoc(s, ds, before.(phase := Down), turns[n], Snapshot(Down));
        ds := ds + ReadBy(turns[n]);
        LeadsConcat(s, es, before, now, Snapshot(if cancelled then Down else Idle));
        es := es + now;
        assert turns[..n + 1] == turns[..n] + [turns[n]];
        n := n + 1;
      }
      assert es + [] == es && ds + [] == ds;
      assert !cancelled ==> turns[..n] == turns;
    }

    /** The body of the loop. */
    method OneTurn(t: Turn) returns (done: bool)
      modifies this
      ensures done == t.ContextDone?
      ensures Leads(old(Snapshot(Idle)), TurnEvents(t), Snapshot(if done then Down else Idle))
      ensures if t.Message? then MadeOne(old(Snapshot(Down)), t, Snapshot(Down)) else Snapshot(Down) == old(Snapshot(Down))
    {
      ghost var before := Snapshot(Idle);
      done := false;
      match t
      case ContextDone =>
        LeadsCons(before, Stopped, [], Snapshot(Down));
        assert [Stopped] + [] == TurnEvents(t);
        done := true;
      case NoMessage =>
        LeadsCons(before, NothingRead, [], before);
        assert [NothingRead] + [] == TurnEvents(t);
      case Message(delivery, published, stored) =>
        OneMessage(delivery, published, stored);
    }

    /** Read, process, dead-letter on failure, and commit unless the dead-letter publish failed too. */
    method OneMessage(delivery: Delivery, published: bool, stored: bool)
      modifies this
      ensures Leads(old(Snapshot(Idle)), TurnEvents(Message(delivery, published, stored)), Snapshot(Idle))
      ensures position == old(position) + 1
      ensures handled == if HandlerTakes(delivery) then old(handled) + {old(position)} else old(handled)
      ensures dead == if !HandlerTakes(delivery) && published then old(dead) + {old(position)} else old(dead)
      ensures committed == if (HandlerTakes(delivery) || published) && stored then old(position) + 1 else old(committed)
    {
      SucceedsIff(delivery);
      OneMessageLeads(Snapshot(Idle), Succeeds(delivery, MAX_RETRIES), published, stored);
      var msg := position;
      position := position + 1;
      var outcome, _, _ := ProcessMessage(delivery, MAX_RETRIES, BASE_RETRY_DELAY, MAX_RETRY_DELAY);
      if outcome.Handled? {
        handled := handled + {msg};
      } else if published {
        dead := dead + {msg};
      } else {
        return;
      }
      if stored {
        committed := msg + 1;
      }
    }
  }
}
