/** Seat selection in the client: the effects that turn selection changes into hold and release commands. */
module SeatSelection {
  import opened Wrappers

  type Seat = string

  datatype Command = Hold(seats: set<Seat>) | Release(seats: set<Seat>)

  /** The seats held when the commands are carried out in order from nothing. */
  function Replay(cs: seq<Command>): set<Seat> {
    if cs == [] then {}
    else
      var before := Replay(cs[..|cs| - 1]);
      match cs[|cs| - 1]
      case Hold(seats) => before + seats
      case Release(seats) => before - seats
  }

  /** The commands naming one seat: true for a hold, false for a release. */
  function Marks(cs: seq<Command>, seat: Seat): seq<bool> {
    if cs == [] then []
    else
      var c := cs[|cs| - 1];
      Marks(cs[..|cs| - 1], seat) + if seat in c.seats then [c.Hold?] else []
  }

  predicate Alternates(marks: seq<bool>) {
    forall i :: 0 <= i < |marks| ==> marks[i] == (i % 2 == 0)
  }

  /** The command holds only seats not held, or releases only seats held. */
  predicate Applies(c: Command, held: set<Seat>) {
    if c.Hold? then c.seats !! held else c.seats <= held
  }

  /** Every command names some seat and applies where it is issued. */
  predicate Proper(cs: seq<Command>) {
    cs == [] ||
    (var before, c := cs[..|cs| - 1], cs[|cs| - 1];
     Proper(before) && c.seats != {} && Applies(c, Replay(before)))
  }

  /** After proper commands a seat is held iff an odd number of them named it. */
  lemma {:induction false} MarksOfReplay(cs: seq<Command>, seat: Seat)
    requires Proper(cs)
    ensures Alternates(Marks(cs, seat))
    ensures seat in Replay(cs) <==> |Marks(cs, seat)| % 2 == 1
  {
    if cs == [] {
    } else {
      MarksOfReplay(cs[..|cs| - 1], seat);
    }
  }

  lemma MarksStep(before: seq<Command>, c: Command, seat: Seat)
    requires Proper(before)
    ensures Alternates(Marks(before + [c], seat)) <==>
            Alternates(Marks(before, seat)) && (seat in c.seats ==> c.Hold? == (seat !in Replay(before)))
  {
    var m, m' := Marks(before, seat), Marks(before + [c], seat);
    assert (before + [c])[..|before|] == before;
    assert m' == m + if seat in c.seats then [c.Hold?] else [];
    if Alternates(m') {
      assert forall i :: 0 <= i < |m| ==> m[i] == m'[i];
    }
    MarksOfReplay(before, seat);
    assert seat in c.seats ==> m'[|m|] == c.Hold?;
  }

  lemma AppliesSeatwise(c: Command, held: set<Seat>)
    ensures Applies(c, held) <==> forall seat :: seat in c.seats ==> c.Hold? == (seat !in held)
  {
  }

  ghost predicate AllAlternate(cs: seq<Command>) { forall seat :: Alternates(Marks(cs, seat)) }

  ghost predicate AllNameSeats(cs: seq<Command>) { forall c :: c in cs ==> c.seats != {} }

  /** Proper commands are those that all name seats and in which every seat's commands alternate, starting with a hold. */
  lemma {:induction false} ProperAlternates(cs: seq<Command>)
    ensures Proper(cs) <==> AllNameSeats(cs) && AllAlternate(cs)
  {
    if cs == [] {
    } else {
      var before, c := cs[..|cs| - 1], cs[|cs| - 1];
      assert cs == before + [c] && c in cs;
      assert AllNameSeats(cs) <==> AllNameSeats(before) && c.seats != {};
      ProperAlternates(before);
      PrefixAlternates(before, c);
      if Proper(before) {
        LastAlternates(before, c);
      }
    }
  }

  lemma LastAlternates(before: seq<Command>, c: Command)
    requires Proper(before) && AllAlternate(before)
    ensures AllAlternate(before + [c]) <==> Applies(c, Replay(before))
  {
    AppliesSeatwise(c, Replay(before));
    forall seat
      ensures Alternates(Marks(before + [c], seat)) <==> (seat in c.seats ==> c.Hold? == (seat !in Replay(before)))
    {
      MarksStep(before, c, seat);
    }
  }

  lemma PrefixAlternates(before: seq<Command>, c: Command)
    ensures AllAlternate(before + [c]) ==> AllAlternate(before)
  {
    assert (before + [c])[..|before|] == before;
    if AllAlternate(before + [c]) {
      forall seat ensures Alternates(Marks(before, seat)) {
        assert Alternates(Marks(before + [c], seat));
        assert forall i :: 0 <= i < |Marks(before, seat)| ==> Marks(before, seat)[i] == Marks(before + [c], seat)[i];
      }
    }
  }

  lemma ProperSnoc(cs: seq<Command>, c: Command)
    requires Proper(cs) && c.seats != {} && Applies(c, Replay(cs))
    ensures Proper(cs + [c])
    ensures Replay(cs + [c]) == if c.Hold? then Replay(cs) + c.seats else Replay(cs) - c.seats
  {
    assert (cs + [c])[..|cs|] == cs;
  }

  lemma {:induction false} ProperAt(cs: seq<Command>, i: nat)
    requires Proper(cs) && i < |cs|
    ensures Proper(cs[..i]) && Applies(cs[i], Replay(cs[..i]))
  {
    var last := |cs| - 1;
    if i == last {
    } else {
      ProperAt(cs[..last], i);
      assert cs[..last][..i] == cs[..i];
    }
  }

  /** Index of the latest command naming the seat, or -1. */
  function LastNaming(cs: seq<Command>, seat: Seat): (n: int)
    ensures -1 <= n < |cs|
    ensures n >= 0 ==> seat in cs[n].seats
    ensures forall i :: n < i < |cs| ==> seat !in cs[i].seats
  {
    if cs == [] then -1
    else if seat in cs[|cs| - 1].seats then |cs| - 1
    else LastNaming(cs[..|cs| - 1], seat)
  }

  lemma {:induction false} ReplayLast(cs: seq<Command>, seat: Seat)
    ensures seat in Replay(cs) <==> LastNaming(cs, seat) >= 0 && cs[LastNaming(cs, seat)].Hold?
  {
    if cs == [] {
    } else {
      ReplayLast(cs[..|cs| - 1], seat);
    }
  }

  // ---- Answers -----------------------------------------------------------------------------

  /** The answer to command `n`: seats granted or a refusal for a hold, the seats freed for a release. */
  datatype Answer = Granted(n: nat, held: set<Seat>) | Refused(n: nat) | Freed(n: nat, seats: set<Seat>)

  function Answered(held: set<Seat>, a: Answer): set<Seat> {
    match a
    case Granted(_, seats) => held + seats
    case Refused(_) => held
    case Freed(_, seats) => held - seats
  }

  /** `heldIds` after the answers, in the order they arrive. */
  function HeldBy(answers: seq<Answer>): set<Seat> {
    if answers == [] then {} else Answered(HeldBy(answers[..|answers| - 1]), answers[|answers| - 1])
  }

  /** Each answer is to a command of its kind; a release frees what it named. */
  predicate Fits(cs: seq<Command>, a: Answer) {
    && a.n < |cs|
    && (if a.Freed? then cs[a.n] == Release(a.seats) else cs[a.n].Hold?)
  }

  predicate AllFit(cs: seq<Command>, answers: seq<Answer>) {
    forall k :: 0 <= k < |answers| ==> Fits(cs, answers[k])
  }

  /** No hold is granted a seat it did not ask for. */
  predicate GrantsAsked(cs: seq<Command>, answers: seq<Answer>) {
    forall k :: 0 <= k < |answers| && answers[k].Granted? ==>
      answers[k].n < |cs| && answers[k].held <= cs[answers[k].n].seats
  }

  predicate IsAnswered(answers: seq<Answer>, n: nat) {
    exists k :: 0 <= k < |answers| && answers[k].n == n
  }

  predicate AllAnswered(cs: seq<Command>, answers: seq<Answer>) {
    forall n: nat :: n < |cs| ==> IsAnswered(answers, n)
  }

  predicate Names(cs: seq<Command>, a: Answer, seat: Seat) { a.n < |cs| && seat in cs[a.n].seats }

  /** The answers to the seat's commands arrive in the order the commands were issued. */
  predicate InOrder(cs: seq<Command>, answers: seq<Answer>, seat: Seat) {
    forall p, q :: 0 <= p < q < |answers| && Names(cs, answers[p], seat) && Names(cs, answers[q], seat) ==>
      answers[p].n < answers[q].n
  }

  predicate GrantedBy(answers: seq<Answer>, n: int, seat: Seat) {
    exists k :: 0 <= k < |answers| && answers[k].Granted? && answers[k].n == n && seat in answers[k].held
  }

  /** Answer `k` granted the seat and no later answer freed it. */
  predicate Keeps(answers: seq<Answer>, k: nat, seat: Seat) {
    && k < |answers| && answers[k].Granted? && seat in answers[k].held
    && forall j :: k < j < |answers| && answers[j].Freed? ==> seat !in answers[j].seats
  }

  lemma KeepsSnoc(before: seq<Answer>, a: Answer, k: nat, seat: Seat)
    ensures Keeps(before + [a], k, seat) <==>
            || (k == |before| && a.Granted? && seat in a.held)
            || (Keeps(before, k, seat) && (a.Freed? ==> seat !in a.seats))
  {
    var after := before + [a];
    assert after[|before|] == a && forall j :: 0 <= j < |before| ==> after[j] == before[j];
  }

  /** In any order: a seat counts as held iff some answer granted it and no later answer freed it. */
  lemma {:induction false} HeldMeaning(answers: seq<Answer>, seat: Seat)
    ensures seat in HeldBy(answers) <==> exists k: nat :: Keeps(answers, k, seat)
  {
    if answers == [] {
    } else {
      var last := |answers| - 1;
      var before, a := answers[..last], answers[last];
      HeldMeaning(before, seat);
      assert answers == before + [a];
      forall k: nat
        ensures Keeps(answers, k, seat) <==>
                (k == last && a.Granted? && seat in a.held) || (Keeps(before, k, seat) && (a.Freed? ==> seat !in a.seats))
      {
        KeepsSnoc(before, a, k, seat);
      }
      assert Keeps(answers, last, seat) <==> a.Granted? && seat in a.held;
      if k: nat :| Keeps(before, k, seat) {
        assert Keeps(answers, k, seat) <==> (a.Freed? ==> seat !in a.seats);
      }
    }
  }

  /** Answers to commands that do not name the seat leave it as it was. */
  lemma {:induction false} HeldUnnamed(cs: seq<Command>, answers: seq<Answer>, from: nat, to: nat, seat: Seat)
    requires AllFit(cs, answers) && GrantsAsked(cs, answers) && from <= to <= |answers|
    requires forall k :: from <= k < to ==> !Names(cs, answers[k], seat)
    ensures seat in HeldBy(answers[..to]) <==> seat in HeldBy(answers[..from])
  {
    if from == to {
    } else {
      HeldUnnamed(cs, answers, from, to - 1, seat);
      OneAnswer(answers, to - 1);
      assert !Names(cs, answers[to - 1], seat) && Fits(cs, answers[to - 1]);
    }
  }

  lemma OneAnswer(answers: seq<Answer>, k: nat)
    requires k < |answers|
    ensures HeldBy(answers[..k + 1]) == Answered(HeldBy(answers[..k]), answers[k])
  {
    assert answers[..k + 1][..k] == answers[..k];
  }

  lemma LastBefore(cs: seq<Command>, n: nat, seat: Seat)
    requires n <= |cs|
    ensures var p := LastNaming(cs[..n], seat);
            p < n && (p >= 0 ==> seat in cs[p].seats) && forall i :: p < i < n ==> seat !in cs[i].seats
  {
    assert forall i :: 0 <= i < n ==> cs[..n][i] == cs[i];
  }

  /** Before the answer to its latest hold, answered in order, the seat is not held. */
  lemma NotHeldBefore(cs: seq<Command>, answers: seq<Answer>, seat: Seat, q: nat)
    requires Proper(cs) && AllFit(cs, answers) && GrantsAsked(cs, answers) && AllAnswered(cs, answers)
    requires InOrder(cs, answers, seat) && q < |answers|
    requires Names(cs, answers[q], seat) && cs[answers[q].n].Hold?
    ensures seat !in HeldBy(answers[..q])
  {
    var n := answers[q].n;
    var p := LastNaming(cs[..n], seat);
    ProperAt(cs, n);
    ReplayLast(cs[..n], seat);
    LastBefore(cs, n, seat);
    if p < 0 {
      HeldUnnamed(cs, answers, 0, q, seat);
    } else {
      assert cs[..n][p] == cs[p] && IsAnswered(answers, p);
      var r :| 0 <= r < |answers| && answers[r].n == p;
      assert Names(cs, answers[r], seat) && r < q;
      HeldUnnamed(cs, answers, r + 1, q, seat);
      OneAnswer(answers, r);
      assert Fits(cs, answers[r]);
    }
  }

  /**
   * When every command is answered, and a seat's answers arrive in issue order, the seat counts as
   * held iff it is selected and its latest hold was granted it.
   */
  lemma HeldInOrder(cs: seq<Command>, answers: seq<Answer>, seat: Seat)
    requires Proper(cs) && AllFit(cs, answers) && GrantsAsked(cs, answers) && AllAnswered(cs, answers)
    requires InOrder(cs, answers, seat)
    ensures seat in HeldBy(answers) <==> seat in Replay(cs) && GrantedBy(answers, LastNaming(cs, seat), seat)
  {
    var n := LastNaming(cs, seat);
    ReplayLast(cs, seat);
    if n < 0 {
      HeldUnnamed(cs, answers, 0, |answers|, seat);
      assert answers[..|answers|] == answers;
    } else {
      assert IsAnswered(answers, n);
      var q :| 0 <= q < |answers| && answers[q].n == n;
      assert Names(cs, answers[q], seat) && Fits(cs, answers[q]);
      HeldUnnamed(cs, answers, q + 1, |answers|, seat);
      OneAnswer(answers, q);
      assert answers[..|answers|] == answers;
      if cs[n].Hold? {
        NotHeldBefore(cs, answers, seat, q);
        assert forall k :: 0 <= k < |answers| && answers[k].n == n ==> Names(cs, answers[k], seat) && k == q;
      }
    }
  }

  // ---- Clicks ------------------------------------------------------------------------------

  /** A click and what it met: the seat's status, and the held, rendered and selected seats at that time. */
  datatype Click = Click(seat: Seat, available: bool, held: set<Seat>, rendered: set<Seat>, selected: set<Seat>)

  function Flip(seats: set<Seat>, seat: Seat): set<Seat> { if seat in seats then seats - {seat} else seats + {seat} }

  /** The click puts a new seat into the selection: available, held by no earlier answer, with room left in the order. */
  predicate Adds(c: Click, max: int) {
    c.available && c.seat !in c.held && c.seat !in c.rendered && c.seat !in c.selected && |c.rendered| < max
  }

  /** The seats added by clicks. */
  function Added(clicks: seq<Click>, max: int): set<Seat> {
    if clicks == [] then {}
    else
      var c := clicks[|clicks| - 1];
      Added(clicks[..|clicks| - 1], max) + if Adds(c, max) then {c.seat} else {}
  }

  lemma {:induction false} AddedMeaning(clicks: seq<Click>, max: int, seat: Seat)
    ensures seat in Added(clicks, max) <==> exists c :: c in clicks && c.seat == seat && Adds(c, max)
  {
    if clicks == [] {
    } else {
      AddedMeaning(clicks[..|clicks| - 1], max, seat);
      assert clicks == clicks[..|clicks| - 1] + [clicks[|clicks| - 1]];
    }
  }

  lemma AddedSnoc(clicks: seq<Click>, c: Click, max: int)
    ensures Added(clicks + [c], max) == Added(clicks, max) + if Adds(c, max) then {c.seat} else {}
  {
    assert (clicks + [c])[..|clicks|] == clicks;
  }

  /** The seats named by commands. */
  function Named(cs: seq<Command>): set<Seat> {
    if cs == [] then {} else Named(cs[..|cs| - 1]) + cs[|cs| - 1].seats
  }

  lemma {:induction false} NamedMeaning(cs: seq<Command>, i: nat)
    requires i < |cs|
    ensures cs[i].seats <= Named(cs)
  {
    if i == |cs| - 1 {
    } else {
      NamedMeaning(cs[..|cs| - 1], i);
    }
  }

  lemma NamedSnoc(cs: seq<Command>, c: Command)
    ensures Named(cs + Issue(c)) == Named(cs) + c.seats
  {
    if c.seats == {} {
      assert cs + [] == cs;
    } else {
      assert (cs + [c])[..|cs|] == cs;
    }
  }

  lemma NamedCommands(cs: seq<Command>, toHold: set<Seat>, toRelease: set<Seat>)
    ensures Named(cs + Commands(toHold, toRelease)) == Named(cs) + toHold + toRelease
  {
    NamedSnoc(cs, Hold(toHold));
    NamedSnoc(cs + Issue(Hold(toHold)), Release(toRelease));
    assert cs + Issue(Hold(toHold)) + Issue(Release(toRelease)) == cs + Commands(toHold, toRelease);
  }

  // ---- What the component's history says of its state ----------------------------------------

  /** Exactly the commands that are open have no answer, and answers fit their commands. */
  ghost predicate Accounted(cs: seq<Command>, open: set<nat>, answers: seq<Answer>) {
    && AllFit(cs, answers)
    && (forall n :: n in open ==> n < |cs|)
    && (forall n: nat :: n < |cs| ==> (n in open <==> !IsAnswered(answers, n)))
  }

  /** The commands still open. */
  function Pending(cs: seq<Command>, open: set<nat>): multiset<Command> {
    if cs == [] then multiset{}
    else
      var last := |cs| - 1;
      Pending(cs[..last], open) + if last in open then multiset{cs[last]} else multiset{}
  }

  /** A command is issued if it names a seat. */
  function Issue(c: Command): seq<Command> { if c.seats == {} then [] else [c] }

  /** The commands of one effect run. */
  function Commands(toHold: set<Seat>, toRelease: set<Seat>): seq<Command> {
    Issue(Hold(toHold)) + Issue(Release(toRelease))
  }

  function Range(from: nat, to: nat): (r: set<nat>)
    ensures forall n :: n in r <==> from <= n < to
  {
    if to <= from then {} else Range(from, to - 1) + {to - 1}
  }

  /**
   * What happened so far: commands issued since the last expiry reset, which of them are open, and the
   * answers to the others as they arrived; open commands from before the reset, and whether an answer
   * to such a command came after it; and all clicks.
   */
  datatype Log = Log(
    issued: seq<Command>, open: set<nat>, answers: seq<Answer>, stale: multiset<Command>, mixed: bool, clicks: seq<Click>)
  {
    function Clicked(c: Click): Log { this.(clicks := clicks + [c]) }

    function Sent(cs: seq<Command>): Log {
      this.(issued := issued + cs, open := open + Range(|issued|, |issued + cs|))
    }

    /** The command waits for its answer. Command `n` is one of `issued`; one from before the reset has no number. */
    predicate Awaits(n: Option<nat>, c: Command) {
      match n
      case None => c in stale
      case Some(i) => i in open && i < |issued| && issued[i] == c
    }

    function Heard(n: Option<nat>, c: Command, a: Answer): Log {
      if n.Some? then this.(open := open - {n.value}, answers := answers + [a])
      else this.(stale := stale - multiset{c}, mixed := true)
    }

    function Reset(): Log { Log([], {}, [], stale + Pending(issued, open), false, clicks) }
  }

  /**
   * The commands are proper and replay to `prev`, the answers are accounted for and make up `held`, and
   * every seat named by a command, in `prev` or in `shown` was added by a click.
   */
  ghost predicate Sound(log: Log, prev: set<Seat>, held: set<Seat>, shown: set<Seat>, max: int) {
    && Proper(log.issued) && Replay(log.issued) == prev
    && Accounted(log.issued, log.open, log.answers)
    && (!log.mixed ==> held == HeldBy(log.answers))
    && shown + prev + Named(log.issued) <= Added(log.clicks, max)
  }

  lemma SoundClicked(log: Log, prev: set<Seat>, held: set<Seat>, shown: set<Seat>, max: int, c: Click, shown': set<Seat>)
    requires Sound(log, prev, held, shown, max) && shown' <= shown + if Adds(c, max) then {c.seat} else {}
    ensures Sound(log.Clicked(c), prev, held, shown', max)
  {
    AddedSnoc(log.clicks, c, max);
  }

  lemma SoundLess(log: Log, prev: set<Seat>, held: set<Seat>, shown: set<Seat>, max: int, shown': set<Seat>)
    requires Sound(log, prev, held, shown, max) && shown' <= shown
    ensures Sound(log, prev, held, shown', max)
  {
  }

  /** An effect run takes what the commands hold from the previous selection to the current one. */
  lemma SoundSent(log: Log, prev: set<Seat>, held: set<Seat>, shown: set<Seat>, max: int, current: set<Seat>)
    requires Sound(log, prev, held, shown, max) && current <= shown
    ensures Sound(log.Sent(Commands(current - prev, prev - current)), current, held, shown, max)
  {
    Sync(log.issued, prev, current, log.open, log.answers);
    NamedCommands(log.issued, current - prev, prev - current);
  }

  lemma SoundHeard(
    log: Log, prev: set<Seat>, held: set<Seat>, shown: set<Seat>, max: int, n: Option<nat>, c: Command, a: Answer)
    requires Sound(log, prev, held, shown, max) && log.Awaits(n, c)
    requires if a.Freed? then c == Release(a.seats) else c.Hold?
    requires n.Some? ==> a.n == n.value
    ensures Sound(log.Heard(n, c, a), prev, Answered(held, a), shown, max)
  {
    if n.Some? {
      Receive(log.issued, a, log.open, log.answers);
    }
  }

  lemma SoundReset(log: Log, prev: set<Seat>, held: set<Seat>, shown: set<Seat>, max: int, shown': set<Seat>)
    requires Sound(log, prev, held, shown, max) && shown' <= shown
    ensures Sound(log.Reset(), {}, {}, shown', max)
  {
  }

  lemma {:induction false} PendingMeaning(cs: seq<Command>, open: set<nat>, i: nat)
    requires i < |cs| && i in open
    ensures cs[i] in Pending(cs, open)
  {
    if i == |cs| - 1 {
    } else {
      PendingMeaning(cs[..|cs| - 1], open, i);
    }
  }

  /** A reset loses no answer: what waits for one goes on waiting, without its number. */
  lemma ResetKeepsWaiting(log: Log, n: Option<nat>, c: Command)
    requires log.Awaits(n, c)
    ensures log.Reset().Awaits(None, c)
  {
    if n.Some? {
      PendingMeaning(log.issued, log.open, n.value);
    }
  }

  lemma Sync(cs: seq<Command>, prev: set<Seat>, current: set<Seat>, open: set<nat>, answers: seq<Answer>)
    requires Proper(cs) && Replay(cs) == prev && Accounted(cs, open, answers)
    ensures var cs' := cs + Commands(current - prev, prev - current);
            Proper(cs') && Replay(cs') == current && Accounted(cs', open + Range(|cs|, |cs'|), answers)
  {
    var toHold, toRelease := current - prev, prev - current;
    var holds := Issue(Hold(toHold));
    IssueUnlessEmpty(cs, Hold(toHold));
    IssueUnlessEmpty(cs + holds, Release(toRelease));
    assert cs + holds + Issue(Release(toRelease)) == cs + Commands(toHold, toRelease);
    Difference(prev, current);
    StillAccounted(cs, Commands(toHold, toRelease), open, answers);
  }

  lemma Difference(prev: set<Seat>, current: set<Seat>)
    ensures (prev + (current - prev)) - (prev - current) == current
    ensures prev - current <= prev + (current - prev)
  {
  }

  lemma IssueUnlessEmpty(cs: seq<Command>, c: Command)
    requires Proper(cs) && Applies(c, Replay(cs))
    ensures Proper(cs + Issue(c))
    ensures Replay(cs + Issue(c)) == if c.Hold? then Replay(cs) + c.seats else Replay(cs) - c.seats
  {
    if c.seats == {} {
      assert cs + [] == cs;
    } else {
      ProperSnoc(cs, c);
    }
  }

  lemma StillAccounted(cs: seq<Command>, more: seq<Command>, open: set<nat>, answers: seq<Answer>)
    requires Accounted(cs, open, answers)
    ensures Accounted(cs + more, open + Range(|cs|, |cs + more|), answers)
  {
    forall k | 0 <= k < |answers| ensures Fits(cs + more, answers[k]) {
      assert Fits(cs, answers[k]);
    }
  }

  lemma Receive(cs: seq<Command>, a: Answer, open: set<nat>, answers: seq<Answer>)
    requires Accounted(cs, open, answers) && a.n in open && Fits(cs, a)
    ensures Accounted(cs, open - {a.n}, answers + [a])
    ensures HeldBy(answers + [a]) == Answered(HeldBy(answers), a)
  {
    var after := answers + [a];
    assert after[..|answers|] == answers && after[|answers|] == a;
    forall n: nat | n < |cs| ensures IsAnswered(after, n) <==> IsAnswered(answers, n) || n == a.n {
      if k :| 0 <= k < |answers| && answers[k].n == n {
        assert after[k].n == n;
      }
    }
  }

  /**
   * The component's state. React applies queued updates to `selectedIds` and `heldIds` and then
   * renders, so what handlers and effects see is `rendered` and `renderedHeld`, those of the latest render.
   */
  class SeatMap {
    const maxSeatsPerOrder: int
    var selectedIds: set<Seat>
    var rendered: set<Seat>
    var heldIds: set<Seat>
    var renderedHeld: set<Seat>
    var prevSelected: set<Seat>
    var holdActive: bool
    ghost var log: Log

    ghost predicate Valid()
      reads this
    {
      Sound(log, prevSelected, heldIds, selectedIds + rendered, maxSeatsPerOrder)
    }

    constructor (maxSeatsPerOrder: int)
      ensures Valid() && log == Log([], {}, [], multiset{}, false, [])
      ensures selectedIds == rendered == heldIds == renderedHeld == prevSelected == {} && !holdActive
      ensures this.maxSeatsPerOrder == maxSeatsPerOrder
    {
      this.maxSeatsPerOrder := maxSeatsPerOrder;
      selectedIds, rendered, heldIds, renderedHeld, prevSelected, holdActive := {}, {}, {}, {}, {}, false;
      log := Log([], {}, [], multiset{}, false, []);
    }

    /** At all times each seat's commands since the last expiry alternate, starting with a hold. */
    lemma CommandsAlternate()
      requires Valid()
      ensures AllAlternate(log.issued)
      ensures forall seat :: seat in prevSelected <==> |Marks(log.issued, seat)| % 2 == 1
    {
      ProperAlternates(log.issued);
      forall seat ensures seat in prevSelected <==> |Marks(log.issued, seat)| % 2 == 1 {
        MarksOfReplay(log.issued, seat);
      }
    }

    /**
     * Once every command is answered and the effects have caught up: no seat counts as held that is
     * not selected, and the two sets agree iff every selected seat was granted by its latest hold.
     * This needs each seat's answers in issue order and no answer from before an expiry.
     */
    lemma Settled()
      requires Valid() && log.open == {} && !log.mixed && prevSelected == selectedIds
      requires GrantsAsked(log.issued, log.answers) && forall seat :: InOrder(log.issued, log.answers, seat)
      ensures heldIds <= selectedIds
      ensures heldIds == selectedIds <==>
              forall seat :: seat in selectedIds ==> GrantedBy(log.answers, LastNaming(log.issued, seat), seat)
    {
      assert AllAnswered(log.issued, log.answers);
      forall seat
        ensures seat in heldIds <==>
                seat in selectedIds && GrantedBy(log.answers, LastNaming(log.issued, seat), seat)
      {
        assert InOrder(log.issued, log.answers, seat);
        HeldInOrder(log.issued, log.answers, seat);
      }
    }

    /**
     * Every seat a command names was added by a click at which it was available, not held and not yet
     * selected, with fewer seats rendered as selected than an order may have.
     */
    lemma CommandsFromClicks(i: nat, seat: Seat)
      requires Valid() && i < |log.issued| && seat in log.issued[i].seats
      ensures exists c :: c in log.clicks && c.seat == seat && c.available && seat !in c.held && seat !in c.rendered
                          && seat !in c.selected && |c.rendered| < maxSeatsPerOrder
    {
      NamedMeaning(log.issued, i);
      AddedMeaning(log.clicks, maxSeatsPerOrder, seat);
    }

    predicate IsSeatSelectable(seat: Seat, available: bool)
      reads this
    {
      (seat !in renderedHeld && available) || seat in rendered
    }

    /** A click. `available` says whether the latest availability reply has the seat as available or not at all. */
    method ToggleSeat(seat: Seat, available: bool)
      requires Valid()
      modifies this`selectedIds, this`log
      ensures Valid() && log == old(log).Clicked(Click(seat, available, renderedHeld, rendered, old(selectedIds)))
      ensures selectedIds ==
              if seat in rendered || (available && seat !in renderedHeld && |rendered| < maxSeatsPerOrder)
              then (if seat in old(selectedIds) then old(selectedIds) - {seat} else old(selectedIds) + {seat})
              else old(selectedIds)
      ensures old(selectedIds) == rendered && |rendered| <= maxSeatsPerOrder ==> |selectedIds| <= maxSeatsPerOrder
    {
      ghost var c := Click(seat, available, renderedHeld, rendered, selectedIds);
      ghost var allowed := seat in rendered || (available && seat !in renderedHeld && |rendered| < maxSeatsPerOrder);
      ghost var after := if allowed then Flip(selectedIds, seat) else selectedIds;
      SoundClicked(log, prevSelected, heldIds, selectedIds + rendered, maxSeatsPerOrder, c, after + rendered);
      log := log.Clicked(c);
      if !IsSeatSelectable(seat, available) {
        return;
      }
      if seat !in rendered && |rendered| >= maxSeatsPerOrder {
        return;
      }
      if seat in selectedIds {
        selectedIds := selectedIds - {seat};
      } else {
        selectedIds := selectedIds + {seat};
      }
    }

    method Render()
      requires Valid()
      modifies this`rendered, this`renderedHeld
      ensures Valid() && rendered == selectedIds && renderedHeld == heldIds
    {
      SoundLess(log, prevSelected, heldIds, selectedIds + rendered, maxSeatsPerOrder, selectedIds);
      rendered, renderedHeld := selectedIds, heldIds;
      assert selectedIds + rendered == selectedIds;
    }

    /** The expiry effect: everything starts over, and answers still to come are to commands of the past. */
    method ExpiryEffect(expired: bool)
      requires Valid()
      modifies this`selectedIds, this`heldIds, this`prevSelected, this`holdActive, this`log
      ensures Valid()
      ensures old(holdActive) && expired ==>
                selectedIds == heldIds == prevSelected == {} && !holdActive && log == old(log).Reset()
      ensures !(old(holdActive) && expired) ==>
                && selectedIds == old(selectedIds) && heldIds == old(heldIds)
                && prevSelected == old(prevSelected) && holdActive == old(holdActive) && log == old(log)
    {
      if holdActive && expired {
        SoundReset(log, prevSelected, heldIds, selectedIds + rendered, maxSeatsPerOrder, {} + rendered);
        log := log.Reset();
        selectedIds := {};
        heldIds := {};
        holdActive := false;
        prevSelected := {};
      }
    }

    /** The selection effect: hold what was added and release what was dropped since the last run. */
    method SelectionEffect() returns (toHold: set<Seat>, toRelease: set<Seat>)
      requires Valid()
      modifies this`prevSelected, this`log
      ensures Valid() && prevSelected == rendered
      ensures toHold == rendered - old(prevSelected) && toRelease == old(prevSelected) - rendered
      ensures log == old(log).Sent(Commands(toHold, toRelease))
    {
      SoundSent(log, prevSelected, heldIds, selectedIds + rendered, maxSeatsPerOrder, rendered);
      var prev, current := prevSelected, rendered;
      toHold := current - prev;
      toRelease := prev - current;
      prevSelected := current;
      log := log.Sent(Commands(toHold, toRelease));
    }

    /** The answer to a hold, which may come after any number of other steps. */
    method HoldAnswered(ghost n: Option<nat>, toHold: set<Seat>, failed: bool, held: set<Seat>, expires: bool)
      requires Valid() && log.Awaits(n, Hold(toHold))
      modifies this`selectedIds, this`heldIds, this`holdActive, this`log
      ensures Valid() && log == old(log).Heard(n, Hold(toHold), HoldAnswer(n, failed, held))
      ensures selectedIds == if failed then old(selectedIds) - toHold else old(selectedIds)
      ensures heldIds == if failed then old(heldIds) else old(heldIds) + held
      ensures holdActive == (old(holdActive) || (!failed && expires))
    {
      ghost var a := HoldAnswer(n, failed, held);
      SoundHeard(log, prevSelected, heldIds, selectedIds + rendered, maxSeatsPerOrder, n, Hold(toHold), a);
      log := log.Heard(n, Hold(toHold), a);
      if failed {
        SoundLess(log, prevSelected, heldIds, selectedIds + rendered, maxSeatsPerOrder, selectedIds - toHold + rendered);
        selectedIds := selectedIds - toHold;
      } else {
        heldIds := heldIds + held;
        if expires {
          holdActive := true;
        }
      }
    }

    method ReleaseAnswered(ghost n: Option<nat>, toRelease: set<Seat>)
      requires Valid() && log.Awaits(n, Release(toRelease))
      modifies this`heldIds, this`log
      ensures Valid() && log == old(log).Heard(n, Release(toRelease), ReleaseAnswer(n, toRelease))
      ensures heldIds == old(heldIds) - toRelease
    {
      ghost var a := ReleaseAnswer(n, toRelease);
      SoundHeard(log, prevSelected, heldIds, selectedIds + rendered, maxSeatsPerOrder, n, Release(toRelease), a);
      log := log.Heard(n, Release(toRelease), a);
      heldIds := heldIds - toRelease;
    }
  }

  function NumberOf(n: Option<nat>): nat { if n.Some? then n.value else 0 }

  function HoldAnswer(n: Option<nat>, failed: bool, held: set<Seat>): Answer {
    if failed then Refused(NumberOf(n)) else Granted(NumberOf(n), held)
  }

  function ReleaseAnswer(n: Option<nat>, toRelease: set<Seat>): Answer { Freed(NumberOf(n), toRelease) }

  // ---- An example --------------------------------------------------------------------------

  lemma OneSeat(log: Log, before: set<Seat>, seat: Seat)
    ensures Commands(Flip(before, seat) - before, before - Flip(before, seat)) ==
            [if seat in before then Release({seat}) else Hold({seat})]
    ensures Range(|log.issued|, |log.issued| + 1) == {|log.issued|}
  {
    if seat in before {
      assert Flip(before, seat) - before == {} && before - Flip(before, seat) == {seat};
    } else {
      assert Flip(before, seat) - before == {seat} && before - Flip(before, seat) == {};
    }
  }

  method ClickAndRender(m: SeatMap, seat: Seat)
    requires m.Valid() && m.selectedIds == m.rendered
    requires m.IsSeatSelectable(seat, true) && (seat in m.rendered || |m.rendered| < m.maxSeatsPerOrder)
    modifies m`selectedIds, m`rendered, m`renderedHeld, m`log
    ensures m.Valid() && m.selectedIds == m.rendered == Flip(old(m.rendered), seat) && m.renderedHeld == m.heldIds
    ensures m.log == old(m.log).(clicks := m.log.clicks)
  {
    m.ToggleSeat(seat, true);
    m.Render();
  }

  /** Click a seat, render, run the effect. */
  method ClickSeat(m: SeatMap, seat: Seat)
    requires m.Valid() && m.prevSelected == m.selectedIds == m.rendered
    requires m.IsSeatSelectable(seat, true) && (seat in m.rendered || |m.rendered| < m.maxSeatsPerOrder)
    modifies m
    ensures m.Valid() && m.prevSelected == m.selectedIds == m.rendered && m.renderedHeld == m.heldIds
    ensures m.heldIds == old(m.heldIds) && m.rendered == Flip(old(m.rendered), seat)
    ensures m.log == old(m.log).(clicks := m.log.clicks,
                                 issued := old(m.log.issued) + [if seat in old(m.rendered) then Release({seat}) else Hold({seat})],
                                 open := old(m.log.open) + {|old(m.log.issued)|})
  {
    ghost var was := m.rendered;
    ClickAndRender(m, seat);
    ghost var log := m.log;
    var toHold, toRelease := m.SelectionEffect();
    assert toHold == Flip(was, seat) - was && toRelease == was - Flip(was, seat);
    OneSeat(log, was, seat);
  }

  /** Select a seat and drop it again, the answers still to come. */
  method SelectAndDrop(maxSeatsPerOrder: int, seat: Seat) returns (m: SeatMap)
    requires maxSeatsPerOrder >= 1
    ensures fresh(m) && m.Valid() && m.prevSelected == m.selectedIds == m.rendered == m.heldIds == {}
    ensures m.log == Log([Hold({seat}), Release({seat})], {0, 1}, [], multiset{}, false, m.log.clicks)
  {
    m := new SeatMap(maxSeatsPerOrder);
    ClickSeat(m, seat);
    ClickSeat(m, seat);
  }

  /** The release is answered, the hold is not yet. */
  method DropAnsweredFirst(maxSeatsPerOrder: int, seat: Seat) returns (m: SeatMap)
    requires maxSeatsPerOrder >= 1
    ensures fresh(m) && m.Valid() && m.prevSelected == m.selectedIds == m.rendered == m.heldIds == {}
    ensures m.log == Log([Hold({seat}), Release({seat})], {0}, [Freed(1, {seat})], multiset{}, false, m.log.clicks)
  {
    m := SelectAndDrop(maxSeatsPerOrder, seat);
    m.ReleaseAnswered(Some(1), {seat});
  }

  /**
   * A seat that counts as held while it is not selected: held, dropped and released, with the
   * release answered before the hold. It cannot be clicked until the hold expires.
   */
  method LateGrant(maxSeatsPerOrder: int, seat: Seat) returns (m: SeatMap)
    requires maxSeatsPerOrder >= 1
    ensures fresh(m) && m.Valid() && m.log.open == {} && !m.log.mixed && GrantsAsked(m.log.issued, m.log.answers)
    ensures m.prevSelected == m.selectedIds == {} && m.heldIds == {seat} && !m.IsSeatSelectable(seat, true)
  {
    m := DropAnsweredFirst(maxSeatsPerOrder, seat);
    m.HoldAnswered(Some(0), {seat}, false, {seat}, true);
    m.Render();
  }
}
