/** Scope step-up: a tool call is challenged for what it lacks, on top of what is already held. */
module StepUp {
  import opened Wrappers
  import opened Recency
  import Words

  type Scope = string

  datatype Tool =
    | SearchEvents | GetEvent | ViewSeatAvailability | ListMyOrders | GetOrder | CreateOrder | CreateSeatedOrder
    | CancelOrder | GetPayment | ListPaymentMethods | PayForOrder | PayForOrderWithDefault

  function TableScope(tool: Tool): Scope {
    match tool
    case SearchEvents => "tickets:read"
    case GetEvent => "tickets:read"
    case ViewSeatAvailability => "seating:read"
    case ListMyOrders => "orders:read"
    case GetOrder => "orders:read"
    case CreateOrder => "orders:create"
    case CreateSeatedOrder => "orders:create"
    case CancelOrder => "orders:cancel"
    case GetPayment => "payments:read"
    case ListPaymentMethods => "payments:read"
    case PayForOrder => "payments:create"
    case PayForOrderWithDefault => "payments:create"
  }

  function ExtraScopes(tool: Tool): seq<Scope> {
    if tool.PayForOrderWithDefault? then ["payments:read"] else []
  }

  function ScopesForTool(tool: Tool): seq<Scope> { [TableScope(tool)] + ExtraScopes(tool) }

  const ALL_SCOPES: set<Scope> :=
    {"tickets:read", "seating:read", "orders:read", "orders:create", "orders:cancel", "payments:read", "payments:create"}

  /** The elements of a `Set` made from a list: first occurrences, in order. */
  function Dedup(s: seq<Scope>): (r: seq<Scope>)
    ensures Distinct(r)
    ensures forall x :: x in r <==> x in s
  {
    if s == [] then []
    else
      var last := s[|s| - 1];
      var r := Dedup(s[..|s| - 1]);
      assert s == s[..|s| - 1] + [last];
      if last in r then r else r + [last]
  }

  /** The challenge, if any. `held` is `None` for an unauthenticated request, left to the bearer gate. */
  function RequireScope(required: seq<Scope>, held: Option<seq<Scope>>): Option<seq<Scope>> {
    match held
    case None => None
    case Some(scopes) =>
      if forall x :: x in required ==> x in scopes then None else Some(Dedup(scopes + required))
  }

  /** `r` lists the elements of `s` once each, in the order of their first occurrences. */
  ghost predicate InFirstOrder(r: seq<Scope>, s: seq<Scope>) {
    && Distinct(r)
    && (forall x :: x in r <==> x in s)
    && forall i, j, n :: 0 <= i < j < |r| && 0 <= n < |s| && s[n] == r[j] ==> r[i] in s[..n]
  }

  lemma {:induction false} DedupOrder(s: seq<Scope>)
    ensures InFirstOrder(Dedup(s), s)
  {
    if s == [] {
    } else {
      var m := |s| - 1;
      DedupOrder(s[..m]);
      var before, r := Dedup(s[..m]), Dedup(s);
      forall i, j, n | 0 <= i < j < |r| && 0 <= n < |s| && s[n] == r[j] ensures r[i] in s[..n] {
        assert r[i] == before[i] && before[i] in before && before[i] in s[..m];
        if n < m {
          assert s[..m][n] == r[j] && r[j] in before;
          assert r[j] == before[j];
          assert s[..m][..n] == s[..n];
        }
      }
    }
  }

  /**
   * A request without a token is never challenged; any other is iff it lacks a required scope. The
   * challenge lists what is held and then what is required, each once and nothing else.
   */
  lemma ChallengeMeaning(required: seq<Scope>, held: Option<seq<Scope>>)
    ensures var c := RequireScope(required, held);
            && (c.Some? <==> held.Some? && exists x :: x in required && x !in held.value)
            && (c.Some? ==> InFirstOrder(c.value, held.value + required))
            && (c.Some? ==> forall x :: x in c.value <==> x in held.value || x in required)
  {
    if held.Some? {
      DedupOrder(held.value + required);
    }
  }

  /** Which tools a scope is for: the scope table read the other way, with the extra scope of the default payment. */
  lemma ScopeIsFor(tool: Tool)
    ensures "tickets:read" in ScopesForTool(tool) <==> tool in {SearchEvents, GetEvent}
    ensures "seating:read" in ScopesForTool(tool) <==> tool == ViewSeatAvailability
    ensures "orders:read" in ScopesForTool(tool) <==> tool in {ListMyOrders, GetOrder}
    ensures "orders:create" in ScopesForTool(tool) <==> tool in {CreateOrder, CreateSeatedOrder}
    ensures "orders:cancel" in ScopesForTool(tool) <==> tool == CancelOrder
    ensures "payments:read" in ScopesForTool(tool) <==> tool in {GetPayment, ListPaymentMethods, PayForOrderWithDefault}
    ensures "payments:create" in ScopesForTool(tool) <==> tool in {PayForOrder, PayForOrderWithDefault}
  {
    OneOf(tool, "tickets:read");
    OneOf(tool, "seating:read");
    OneOf(tool, "orders:read");
    OneOf(tool, "orders:create");
    OneOf(tool, "orders:cancel");
    OneOf(tool, "payments:read");
    OneOf(tool, "payments:create");
    Different();
  }

  lemma OneOf(tool: Tool, x: Scope)
    ensures x in ScopesForTool(tool) <==> x == TableScope(tool) || x in ExtraScopes(tool)
  {
  }

  /** The scopes differ from one another in length or at the letters compared. */
  lemma Different()
    ensures Distinct(["tickets:read", "seating:read", "orders:read", "orders:create", "orders:cancel", "payments:read", "payments:create"])
  {
    assert "tickets:read"[0] == 't' && "seating:read"[0] == 's';
    assert |"orders:create"| == |"orders:cancel"| == |"payments:read"| == 13;
    assert "orders:create"[8] == 'r' && "orders:cancel"[8] == 'a' && "payments:read"[0] == 'p';
  }

  /** The scope parameter of the token exchange made for a tool. */
  function ExchangeScope(tool: Tool): string { Words.Join(ScopesForTool(tool), ' ') }

  lemma NoSpaces(tool: Tool)
    ensures forall x :: x in ScopesForTool(tool) ==> ' ' !in x
  {
    assert ' ' !in "payments:read" && ' ' !in TableScope(tool);
    assert forall x :: x in ScopesForTool(tool) ==> x == TableScope(tool) || x == "payments:read";
  }

  /** The exchange is asked for the tool's scopes; when no challenge is raised, all of them are already held. */
  lemma ExchangedScopesAreHeld(tool: Tool, held: seq<Scope>)
    requires RequireScope(ScopesForTool(tool), Some(held)).None?
    ensures Words.Split(ExchangeScope(tool), ' ') == ScopesForTool(tool)
    ensures forall x :: x in Words.Split(ExchangeScope(tool), ' ') ==> x in held
  {
    var scopes := ScopesForTool(tool);
    NoSpaces(tool);
    Words.SplitOfJoin(scopes, ' ');
  }

  /** Scopes after the calls of `tools` in order, when every re-consent grants the challenge. */
  function HeldAfter(tools: seq<Tool>, held: seq<Scope>): seq<Scope> {
    if tools == [] then held
    else
      var before := HeldAfter(tools[..|tools| - 1], held);
      match RequireScope(ScopesForTool(tools[|tools| - 1]), Some(before))
      case None => before
      case Some(granted) => granted
  }

  function Challenged(tools: seq<Tool>, held: seq<Scope>, i: nat): bool
    requires i < |tools|
  {
    RequireScope(ScopesForTool(tools[i]), Some(HeldAfter(tools[..i], held))).Some?
  }

  function Challenges(tools: seq<Tool>, held: seq<Scope>): nat {
    if tools == [] then 0
    else
      var n := |tools| - 1;
      Challenges(tools[..n], held) + if Challenged(tools, held, n) then 1 else 0
  }

  /** Held scopes only grow, and after its call a tool has all its scopes. */
  lemma {:induction false} HeldGrows(tools: seq<Tool>, held: seq<Scope>, i: nat)
    requires i < |tools|
    ensures forall x :: x in HeldAfter(tools[..i], held) || x in ScopesForTool(tools[i]) ==> x in HeldAfter(tools, held)
  {
    var n := |tools| - 1;
    LastCallGrows(tools, held);
    if i == n {
    } else {
      HeldGrows(tools[..n], held, i);
      assert tools[..n][..i] == tools[..i] && tools[..n][i] == tools[i];
    }
  }

  lemma LastCallGrows(tools: seq<Tool>, held: seq<Scope>)
    requires tools != []
    ensures var n := |tools| - 1;
            forall x :: x in HeldAfter(tools[..n], held) || x in ScopesForTool(tools[n]) ==> x in HeldAfter(tools, held)
  {
    var n := |tools| - 1;
    ChallengeMeaning(ScopesForTool(tools[n]), Some(HeldAfter(tools[..n], held)));
  }

  /** No tool is challenged twice. */
  lemma NeverChallengedTwice(tools: seq<Tool>, held: seq<Scope>, i: nat, j: nat)
    requires i < j < |tools| && tools[i] == tools[j]
    ensures !Challenged(tools, held, j)
  {
    HeldGrows(tools[..j], held, i);
    assert tools[..j][i] == tools[j];
  }

  /** The tool scopes a session does not hold. */
  function Missing(held: seq<Scope>): set<Scope> { set x | x in ALL_SCOPES && x !in held }

  lemma ToolScopesAreKnown(tool: Tool)
    ensures forall x :: x in ScopesForTool(tool) ==> x in ALL_SCOPES
  {
    match tool
    case PayForOrderWithDefault => assert ScopesForTool(tool) == ["payments:create", "payments:read"];
    case _ => assert ScopesForTool(tool) == [TableScope(tool)];
  }

  /** Each challenge is paid for by a scope that was missing: there are never more than were missing at first. */
  lemma {:induction false} ChallengesBounded(tools: seq<Tool>, held: seq<Scope>)
    ensures Challenges(tools, held) + |Missing(HeldAfter(tools, held))| <= |Missing(held)|
  {
    if tools == [] {
    } else {
      var n := |tools| - 1;
      var before, after := HeldAfter(tools[..n], held), HeldAfter(tools, held);
      ChallengesBounded(tools[..n], held);
      if Challenged(tools, held, n) {
        ChallengeMeaning(ScopesForTool(tools[n]), Some(before));
        ToolScopesAreKnown(tools[n]);
        var x :| x in ScopesForTool(tools[n]) && x !in before;
        assert x in Missing(before) && x !in Missing(after);
        Fewer(Missing(after), Missing(before), x);
      }
    }
  }

  lemma Fewer(a: set<Scope>, b: set<Scope>, x: Scope)
    requires a <= b && x in b && x !in a
    ensures |a| < |b|
  {
    Subset(a, b - {x});
  }

  lemma {:induction false} Subset(a: set<Scope>, b: set<Scope>)
    requires a <= b
    ensures |a| <= |b|
  {
    if a == {} {
    } else {
      var y :| y in a;
      Subset(a - {y}, b - {y});
    }
  }
}
