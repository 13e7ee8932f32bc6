/** What `deriveIdempotencyKey` hashes, as a string and as bytes, and its 15-minute window. */
module IdempotencyKey {
  import opened Wrappers
  import opened Text
  import opened Unicode
  import opened JsonText
  import opened Sequences
  import opened CanonicalJson

  const IDEMPOTENCY_WINDOW_MS: real := 900000.0
  const NEWLINE: Unit := 10
  const UNDEFINED: Text := [117, 110, 100, 101, 102, 105, 110, 101, 100]

  function Window(now: real): int { (now / IDEMPOTENCY_WINDOW_MS).Floor }

  /** The arguments inside the template string, where a missing text reads "undefined". */
  function ArgsText<N(!new)>(show: N -> Text, args: Json<N>): Text {
    match Canonical(show, args)
    case None => UNDEFINED
    case Some(t) => t
  }

  lemma UndefinedText<N(!new)>(show: N -> Text)
    ensures ArgsText<N>(show, Undefined) == Map((c: char) => (c as int) % 0x10000, "undefined")
  {
  }

  function Preimage<N(!new)>(show: N -> Text, sub: Text, tool: Text, args: Json<N>, now: real): Text {
    Template(sub, tool, ArgsText(show, args), Window(now))
  }

  /** The template string: four lines, the last one a number. */
  function Template(sub: Text, tool: Text, args: Text, window: int): Text {
    sub + [NEWLINE] + tool + [NEWLINE] + args + [NEWLINE] + Decimal(window)
  }

  lemma ArgsTextIff<N(!new)>(show: N -> Text, a: Json<N>, b: Json<N>)
    requires NumberPrinter(show) && WellFormed(a) && WellFormed(b)
    ensures ArgsText(show, a) == ArgsText(show, b) <==> Same(true, a, b)
    ensures Plain(ArgsText(show, a))
  {
    CanonicalIff(show, a, b);
    PrintPlain(show, a);
    PlainUnits(UNDEFINED);
    if !a.Undefined? {
      Lead(show, a);
    }
    if !b.Undefined? {
      Lead(show, b);
    }
  }

  /** The bytes that are hashed. */
  function Hashed<N(!new)>(show: N -> Text, sub: Text, tool: Text, args: Json<N>, now: real): Text {
    Utf8(Preimage(show, sub, tool, args, now))
  }

  /** The parts of the template are determined if the middle ones hold no newline. */
  lemma TemplateIff(sub: Text, tool: Text, a: Text, w: int, sub': Text, tool': Text, a': Text, w': int)
    requires NEWLINE !in tool && NEWLINE !in a && NEWLINE !in tool' && NEWLINE !in a'
    ensures Template(sub, tool, a, w) == Template(sub', tool', a', w') <==> sub == sub' && tool == tool' && a == a' && w == w'
  {
    if Template(sub, tool, a, w) == Template(sub', tool', a', w') {
      var b, b' := sub + [NEWLINE] + tool, sub' + [NEWLINE] + tool';
      LastSplit(NEWLINE, b + [NEWLINE] + a, Decimal(w), b' + [NEWLINE] + a', Decimal(w'));
      DecimalInjective(w, w');
      LastSplit(NEWLINE, b, a, b', a');
      LastSplit(NEWLINE, sub, tool, sub', tool');
    }
  }

  /**
   * The preimage determines subject, tool, arguments (up to sameness) and window, and is
   * determined by them. The subject may contain anything, newlines included.
   */
  lemma PreimageDetermines<N(!new)>(
    show: N -> Text,
    sub: Text, tool: Text, args: Json<N>, now: real,
    sub': Text, tool': Text, args': Json<N>, now': real)
    requires NumberPrinter(show) && WellFormed(args) && WellFormed(args')
    requires NEWLINE !in tool && NEWLINE !in tool'
    ensures Preimage(show, sub, tool, args, now) == Preimage(show, sub', tool', args', now')
            <==> sub == sub' && tool == tool' && Same(true, args, args') && Window(now) == Window(now')
  {
    ArgsTextIff(show, args, args');
    ArgsTextIff(show, args', args);
    TemplateIff(sub, tool, ArgsText(show, args), Window(now), sub', tool', ArgsText(show, args'), Window(now'));
  }

  /** UTF-8 replaces lone surrogates in the subject and the tool; the other parts hold none. */
  lemma MendPreimage<N(!new)>(show: N -> Text, sub: Text, tool: Text, args: Json<N>, now: real)
    requires NumberPrinter(show) && WellFormed(args)
    ensures Mend(Preimage(show, sub, tool, args, now)) == Preimage(show, Mend(sub), Mend(tool), args, now)
  {
    var a := sub + [NEWLINE] + tool;
    var b := a + [NEWLINE] + ArgsText(show, args);
    MendAround(b, NEWLINE, Decimal(Window(now)));
    MendAround(a, NEWLINE, ArgsText(show, args));
    MendAround(sub, NEWLINE, tool);
    ArgsTextIff(show, args, args);
    MendMeaning(ArgsText(show, args));
    DecimalPlain(Window(now));
    MendMeaning(Decimal(Window(now)));
  }

  lemma DecimalPlain(n: int)
    ensures Plain(Decimal(n))
  {
    forall c | c in Decimal(n) ensures c >= 32 && !Surrogate(c) {
      var i :| 0 <= i < |Decimal(n)| && Decimal(n)[i] == c;
    }
    PlainUnits(Decimal(n));
  }

  /**
   * The hashed bytes determine the arguments (up to sameness) and the window whatever the strings
   * hold, and subject and tool up to what UTF-8 keeps of them.
   */
  lemma HashedDetermines<N(!new)>(
    show: N -> Text,
    sub: Text, tool: Text, args: Json<N>, now: real,
    sub': Text, tool': Text, args': Json<N>, now': real)
    requires NumberPrinter(show) && WellFormed(args) && WellFormed(args')
    requires NEWLINE !in tool && NEWLINE !in tool'
    ensures Hashed(show, sub, tool, args, now) == Hashed(show, sub', tool', args', now')
            <==> Mend(sub) == Mend(sub') && Mend(tool) == Mend(tool') && Same(true, args, args') && Window(now) == Window(now')
  {
    Utf8Iff(Preimage(show, sub, tool, args, now), Preimage(show, sub', tool', args', now'));
    MendPreimage(show, sub, tool, args, now);
    MendPreimage(show, sub', tool', args', now');
    MendMeaning(tool);
    MendMeaning(tool');
    PreimageDetermines(show, Mend(sub), Mend(tool), args, now, Mend(sub'), Mend(tool'), args', now');
  }

  /** A subject and a tool without lone surrogates are determined themselves. */
  lemma HashedDeterminesPaired<N(!new)>(
    show: N -> Text,
    sub: Text, tool: Text, args: Json<N>, now: real,
    sub': Text, tool': Text, args': Json<N>, now': real)
    requires NumberPrinter(show) && WellFormed(args) && WellFormed(args')
    requires NEWLINE !in tool && NEWLINE !in tool'
    requires Paired(sub) && Paired(sub') && Paired(tool) && Paired(tool')
    ensures Hashed(show, sub, tool, args, now) == Hashed(show, sub', tool', args', now')
            <==> sub == sub' && tool == tool' && Same(true, args, args') && Window(now) == Window(now')
  {
    HashedDetermines(show, sub, tool, args, now, sub', tool', args', now');
    MendMeaning(sub);
    MendMeaning(sub');
    MendMeaning(tool);
    MendMeaning(tool');
  }

  /** A lone surrogate and the replacement character are two subjects with one key. */
  lemma LoneSurrogateCollides<N(!new)>(show: N -> Text, tool: Text, args: Json<N>, now: real)
    requires NumberPrinter(show) && WellFormed(args)
    ensures Hashed(show, [0xD800], tool, args, now) == Hashed(show, [REPLACEMENT], tool, args, now)
    ensures Preimage(show, [0xD800], tool, args, now) != Preimage(show, [REPLACEMENT], tool, args, now)
  {
    var sub, sub' := [0xD800], [REPLACEMENT];
    Utf8Iff(Preimage(show, sub, tool, args, now), Preimage(show, sub', tool, args, now));
    MendPreimage(show, sub, tool, args, now);
    MendPreimage(show, sub', tool, args, now);
    assert Mend(sub) == [REPLACEMENT] + Mend([]) == Mend(sub');
    assert Preimage(show, sub, tool, args, now)[0] != Preimage(show, sub', tool, args, now)[0];
  }

  /** Window `w` is the `w`-th quarter of an hour since the epoch. */
  lemma WindowMeaning(now: real, w: int)
    ensures Window(now) == w <==> w as real * 900000.0 <= now < (w as real + 1.0) * 900000.0
  {
    var q := now / IDEMPOTENCY_WINDOW_MS;
    assert q * IDEMPOTENCY_WINDOW_MS == now;
    assert q.Floor as real <= q < q.Floor as real + 1.0;
  }

  /** A window is 15 minutes long: instants 15 minutes or more apart never share one. */
  lemma WindowWidth(now: real, later: real)
    requires now + 15.0 * 60.0 * 1000.0 <= later
    ensures Window(now) < Window(later)
  {
    var w := IDEMPOTENCY_WINDOW_MS;
    assert now / w + 1.0 <= later / w;
  }

  /** Repeating a call replays its key iff the window is the same; so never 15 minutes later. */
  lemma RepeatedCall<N(!new)>(show: N -> Text, sub: Text, tool: Text, args: Json<N>, now: real, later: real)
    requires NumberPrinter(show) && WellFormed(args) && NEWLINE !in tool && now <= later
    ensures Hashed(show, sub, tool, args, now) == Hashed(show, sub, tool, args, later)
            <==> Window(now) == Window(later)
    ensures later - now >= 15.0 * 60.0 * 1000.0 ==>
              Hashed(show, sub, tool, args, now) != Hashed(show, sub, tool, args, later)
  {
    HashedDetermines(show, sub, tool, args, now, sub, tool, args, later);
    CanonicalIff(show, args, args);
    if later - now >= IDEMPOTENCY_WINDOW_MS {
      WindowWidth(now, later);
    }
  }
}
