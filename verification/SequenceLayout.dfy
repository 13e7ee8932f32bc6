/** The layout part of `Sequence.build`: rows stacked downwards, and the coloured band of each phase. */
module SequenceLayout {
  import opened Numbers
  import opened Wrap
  import Words

  datatype Step =
    | Phase(title: string)
    | Message(a: string, b: string, text: string)
    | SelfCall(at: string, text: string)
    | Note(over: seq<string>, text: string)
    | Branch(keyword: string, caption: string)
    | Gap(px: int)

  /** `tw` is the pixel width of a line at a font size; `idx` numbers the participants. */
  datatype Diagram = Diagram(size: int, sp: real, margin: real, idx: map<string, nat>, tw: (string, int) -> real) {

    predicate Knows(st: Step) {
      match st
      case Message(a, b, _) => a in idx && b in idx
      case Note(over, _) => over != [] && forall o :: o in over ==> o in idx
      case _ => true
    }

    function X(id: string): real
      requires id in idx
    {
      margin + sp * idx[id] as real
    }

    function Measure(size: int): string -> real { (s: string) => tw(s, size) }

    function LinesAt(text: string, maxw: real, size: int): seq<string> {
      Paragraphs(Words.Split(text, '\n'), maxw, Measure(size))
    }
  }

  /** What is laid for a step: where, how tall, and the wrapped lines of its text. */
  datatype Row = Row(step: Step, top: int, height: int, lines: seq<string>) {
    function Bottom(): int { top + height }
  }

  const FIRST_TOP := 335

  function MinX(d: Diagram, over: seq<string>): (x: real)
    requires over != [] && forall o :: o in over ==> o in d.idx
    ensures (forall o :: o in over ==> x <= d.X(o)) && exists o :: o in over && x == d.X(o)
  {
    if |over| == 1 then d.X(over[0]) else MinReal(d.X(over[0]), MinX(d, over[1..]))
  }

  function MaxX(d: Diagram, over: seq<string>): (x: real)
    requires over != [] && forall o :: o in over ==> o in d.idx
    ensures (forall o :: o in over ==> x >= d.X(o)) && exists o :: o in over && x == d.X(o)
  {
    if |over| == 1 then d.X(over[0]) else MaxReal(d.X(over[0]), MaxX(d, over[1..]))
  }

  /** Pixel width the text of a step is wrapped to. */
  function TextWidth(d: Diagram, st: Step): real
    requires d.Knows(st)
  {
    match st
    case Message(a, b, _) => MaxReal((if a != b then AbsReal(d.X(a) - d.X(b)) else d.sp) - 26.0, 270.0)
    case SelfCall(_, _) => MinReal(MaxReal(d.sp * 1.6, 300.0), 480.0)
    case Note(over, _) => (if |over| == 1 then 260.0 else MaxX(d, over) - MinX(d, over) + 120.0) - 22.0
    case _ => 0.0
  }

  /** Space above the row, its height, and space below it. */
  function Lead(st: Step): nat {
    match st case Phase(_) => 16 case Note(_, _) => 6 case Branch(_, _) => 4 case _ => 0
  }

  function Block(lines: nat, lineHeight: int): int { lines * lineHeight }

  function TextLines(d: Diagram, st: Step): seq<string>
    requires d.Knows(st)
  {
    match st
    case Message(_, _, text) => d.LinesAt(text, TextWidth(d, st), d.size)
    case SelfCall(_, text) => d.LinesAt(text, TextWidth(d, st), d.size)
    case Note(_, text) => d.LinesAt(text, TextWidth(d, st), d.size - 1)
    case _ => []
  }

  function Height(d: Diagram, st: Step): int
    requires d.Knows(st)
  {
    match st
    case Phase(_) => 30
    case Message(_, _, _) => Block(|TextLines(d, st)|, d.size + 3) + 26
    case SelfCall(_, _) =>
      var h := Block(|TextLines(d, st)|, d.size + 3) + 10;
      (if h >= 30 then h else 30) + 18
    case Note(_, _) => Block(|TextLines(d, st)|, d.size + 2) + 16
    case Branch(_, _) => 26
    case Gap(_) => 0
  }

  function Slack(st: Step): int {
    match st case Phase(_) => 6 case Note(_, _) => 12 case Branch(_, _) => 4 case Gap(px) => px case _ => 0
  }

  ghost predicate Drawable(d: Diagram, steps: seq<Step>) {
    && d.size > 0
    && forall i :: 0 <= i < |steps| ==> d.Knows(steps[i]) && (steps[i].Gap? ==> steps[i].px >= 0)
  }

  function NextTop(d: Diagram, steps: seq<Step>): int
    requires forall i :: 0 <= i < |steps| ==> d.Knows(steps[i])
  {
    if steps == [] then FIRST_TOP
    else
      var st := steps[|steps| - 1];
      NextTop(d, steps[..|steps| - 1]) + Lead(st) + Height(d, st) + Slack(st)
  }

  function Rows(d: Diagram, steps: seq<Step>): seq<Row>
    requires forall i :: 0 <= i < |steps| ==> d.Knows(steps[i])
  {
    if steps == [] then []
    else
      var st, before := steps[|steps| - 1], steps[..|steps| - 1];
      Rows(d, before) +
      if st.Gap? then [] else [Row(st, NextTop(d, before) + Lead(st), Height(d, st), TextLines(d, st))]
  }

  function PhaseRows(rows: seq<Row>): (r: seq<nat>)
    ensures forall i :: 0 <= i < |r| ==> r[i] < |rows| && rows[r[i]].step.Phase?
    ensures forall i, j :: 0 <= i < j < |r| ==> r[i] < r[j]
    ensures forall k :: 0 <= k < |rows| && rows[k].step.Phase? ==> k in r
  {
    if rows == [] then []
    else
      PhaseRows(rows[..|rows| - 1]) + if rows[|rows| - 1].step.Phase? then [|rows| - 1] else []
  }

  datatype Band = Band(top: int, height: int) {
    function Bottom(): int { top + height }
  }

  function EndY(d: Diagram, steps: seq<Step>, footer: bool): int
    requires forall i :: 0 <= i < |steps| ==> d.Knows(steps[i])
  {
    NextTop(d, steps) + if footer then 24 else 0
  }

  lemma Snoc(d: Diagram, steps: seq<Step>, i: nat)
    requires i < |steps| && forall k :: 0 <= k < |steps| ==> d.Knows(steps[k])
    ensures var st, y := steps[i], NextTop(d, steps[..i]);
            && NextTop(d, steps[..i + 1]) == y + Lead(st) + Height(d, st) + Slack(st)
            && Rows(d, steps[..i + 1]) ==
               Rows(d, steps[..i]) + if st.Gap? then [] else [Row(st, y + Lead(st), Height(d, st), TextLines(d, st))]
  {
    assert steps[..i + 1][..i] == steps[..i];
  }

  method WrapAt(d: Diagram, text: string, maxw: real, size: int) returns (lines: seq<string>)
    ensures lines == d.LinesAt(text, maxw, size)
  {
    lines := WrapText(text, maxw, d.Measure(size));
  }

  /** The body of the loop over the steps: where `st` is laid when the next free line is `top`. */
  method Place(d: Diagram, st: Step, top: int) returns (rows: seq<Row>, y: int)
    requires d.Knows(st)
    ensures rows == if st.Gap? then [] else [Row(st, top + Lead(st), Height(d, st), TextLines(d, st))]
    ensures y == top + Lead(st) + Height(d, st) + Slack(st)
  {
    var lh := d.size + 3;
    y := top;
    match st
    case Phase(_) =>
      y := y + 16;
      rows := [Row(st, y, 30, [])];
      y := y + 36;
    case Message(a, b, text) =>
      var span := if a != b then AbsReal(d.X(a) - d.X(b)) else d.sp;
      var lines := WrapAt(d, text, MaxReal(span - 26.0, 270.0), d.size);
      var h := Block(|lines|, lh) + 26;
      rows := [Row(st, y, h, lines)];
      y := y + h;
    case SelfCall(_, text) =>
      var lines := WrapAt(d, text, MinReal(MaxReal(d.sp * 1.6, 300.0), 480.0), d.size);
      var h := Block(|lines|, lh) + 10;
      h := (if h >= 30 then h else 30) + 18;
      rows := [Row(st, y, h, lines)];
      y := y + h;
    case Note(over, text) =>
      var w := if |over| == 1 then 260.0 else MaxX(d, over) - MinX(d, over) + 120.0;
      var lines := WrapAt(d, text, w - 22.0, d.size - 1);
      var h := Block(|lines|, d.size + 2) + 16;
      rows := [Row(st, y + 6, h, lines)];
      y := y + h + 18;
    case Branch(_, _) =>
      rows := [Row(st, y + 4, 26, [])];
      y := y + 34;
    case Gap(px) =>
      rows := [];
      y := y + px;
  }

  /** `build` up to the phase bands. A footer only moves the end of the rows down. */
  method Build(d: Diagram, steps: seq<Step>, footer: bool)
    returns (laid: seq<Row>, endY: int, bands: seq<Band>)
    requires forall i :: 0 <= i < |steps| ==> d.Knows(steps[i])
    ensures laid == Rows(d, steps) && endY == EndY(d, steps, footer)
    ensures IsBands(bands, laid, endY)
    ensures MeasuresText(d) ==> forall row :: row in laid ==> d.Knows(row.step) && HoldsText(d, row)
  {
    var y;
    laid, y := LayRows(d, steps);
    if MeasuresText(d) {
      RowsHoldText(d, steps);
    }
    if footer {
      y := y + 24;
    }
    endY := y;
    bands := DrawBands(laid, PhaseRows(laid), endY);
  }

  /** The loop over the steps. */
  method LayRows(d: Diagram, steps: seq<Step>) returns (laid: seq<Row>, y: int)
    requires forall i :: 0 <= i < |steps| ==> d.Knows(steps[i])
    ensures laid == Rows(d, steps) && y == NextTop(d, steps)
  {
    y := 235 + 100;
    laid := [];
    for i := 0 to |steps|
      invariant laid == Rows(d, steps[..i]) && y == NextTop(d, steps[..i])
    {
      var rows, next := Place(d, steps[i], y);
      LayStep(d, steps[..i], steps[i], steps[..i + 1], laid, y, rows);
      TopStep(d, steps[..i], steps[i], steps[..i + 1]);
      laid := laid + rows;
      y := next;
    }
    assert steps[..|steps|] == steps;
  }

  lemma LayStep(d: Diagram, before: seq<Step>, st: Step, steps: seq<Step>, laid: seq<Row>, y: int, rows: seq<Row>)
    requires steps != [] && before == steps[..|steps| - 1] && st == steps[|steps| - 1]
    requires forall i :: 0 <= i < |steps| ==> d.Knows(steps[i])
    requires laid == Rows(d, before) && y == NextTop(d, before)
    requires rows == if st.Gap? then [] else [Row(st, y + Lead(st), Height(d, st), TextLines(d, st))]
    ensures laid + rows == Rows(d, steps)
  {
  }

  lemma TopStep(d: Diagram, before: seq<Step>, st: Step, steps: seq<Step>)
    requires steps != [] && before == steps[..|steps| - 1] && st == steps[|steps| - 1]
    requires forall i :: 0 <= i < |steps| ==> d.Knows(steps[i])
    ensures NextTop(d, steps) == NextTop(d, before) + Lead(st) + Height(d, st) + Slack(st)
  {
  }

  /** One band per phase, from just above its title to the next phase or the end. */
  ghost predicate IsBands(bands: seq<Band>, laid: seq<Row>, endY: int) {
    BandsOf(bands, laid, PhaseRows(laid), endY)
  }

  ghost predicate BandsOf(bands: seq<Band>, laid: seq<Row>, phases: seq<nat>, endY: int)
    requires forall i :: 0 <= i < |phases| ==> phases[i] < |laid|
  {
    && |bands| == |phases|
    && forall i :: 0 <= i < |phases| ==>
         && bands[i].top == laid[phases[i]].top - 4
         && bands[i].Bottom() == if i + 1 < |phases| then laid[phases[i + 1]].top - 6 else endY - 8
  }

  method DrawBands(laid: seq<Row>, phases: seq<nat>, endY: int) returns (bands: seq<Band>)
    requires forall i :: 0 <= i < |phases| ==> phases[i] < |laid|
    ensures BandsOf(bands, laid, phases, endY)
  {
    bands := [];
    for i := 0 to |phases|
      invariant |bands| == i
      invariant forall k :: 0 <= k < i ==>
        && bands[k].top == laid[phases[k]].top - 4
        && bands[k].Bottom() == if k + 1 < |phases| then laid[phases[k + 1]].top - 6 else endY - 8
    {
      var t := laid[phases[i]].top;
      var nxt := if i + 1 < |phases| then laid[phases[i + 1]].top - 6 else endY - 8;
      bands := bands + [Band(t - 4, nxt - t + 4)];
    }
  }

  // ---- Rows do not overlap -----------------------------------------------------------------

  lemma HeightPositive(d: Diagram, st: Step)
    requires d.size > 0 && d.Knows(st)
    ensures st.Gap? || Height(d, st) > 0
  {
    match st
    case Message(_, _, _) => TimesPositive(|TextLines(d, st)|, d.size + 3);
    case Note(_, _) => TimesPositive(|TextLines(d, st)|, d.size + 2);
    case _ =>
  }

  lemma TimesPositive(n: nat, k: nat)
    ensures Block(n, k) >= 0
  {
  }

  /** Rows stand below one another in step order, each phase title 16 px below what precedes it. */
  ghost predicate Stacked(rows: seq<Row>, end: int) {
    && 335 <= end
    && (forall i :: 0 <= i < |rows| ==> 335 <= rows[i].top < rows[i].Bottom() <= end)
    && (forall i, j :: 0 <= i < j < |rows| ==>
          rows[i].Bottom() + (if rows[j].step.Phase? then 16 else 0) <= rows[j].top)
  }

  lemma {:induction false} RowsStacked(d: Diagram, steps: seq<Step>)
    requires Drawable(d, steps)
    ensures Stacked(Rows(d, steps), NextTop(d, steps))
  {
    if steps == [] {
    } else {
      var n := |steps| - 1;
      RowsStacked(d, steps[..n]);
      Snoc(d, steps, n);
      HeightPositive(d, steps[n]);
      assert steps[..n + 1] == steps;
    }
  }

  /** Free space: 16 px above and 6 below a phase title, 6 above and 12 below a note, 4 above and below a branch. */
  predicate Clear(upper: Row, lower: Row) {
    upper.Bottom()
    + (match upper.step case Phase(_) => 6 case Note(_, _) => 12 case Branch(_, _) => 4 case _ => 0)
    + (match lower.step case Phase(_) => 16 case Note(_, _) => 6 case Branch(_, _) => 4 case _ => 0) <= lower.top
  }

  ghost predicate AllClear(rows: seq<Row>, end: int) {
    && (forall i, j :: 0 <= i < j < |rows| ==> Clear(rows[i], rows[j]))
    && (forall i :: 0 <= i < |rows| ==> rows[i].Bottom() + Slack(rows[i].step) <= end)
  }

  lemma {:induction false} RowsClear(d: Diagram, steps: seq<Step>)
    requires Drawable(d, steps)
    ensures AllClear(Rows(d, steps), NextTop(d, steps))
  {
    if steps == [] {
    } else {
      var n := |steps| - 1;
      RowsClear(d, steps[..n]);
      HeightPositive(d, steps[n]);
      var st, y := steps[n], NextTop(d, steps[..n]);
      NoRowIsGap(d, steps[..n]);
      ClearStep(Rows(d, steps[..n]), y, Row(st, y + Lead(st), Height(d, st), TextLines(d, st)), Rows(d, steps), NextTop(d, steps));
    }
  }

  lemma {:induction false} NoRowIsGap(d: Diagram, steps: seq<Step>)
    requires forall i :: 0 <= i < |steps| ==> d.Knows(steps[i])
    ensures forall row :: row in Rows(d, steps) ==> !row.step.Gap?
  {
    if steps == [] {
    } else {
      NoRowIsGap(d, steps[..|steps| - 1]);
    }
  }

  lemma ClearStep(rows: seq<Row>, y: int, row: Row, rows': seq<Row>, y': int)
    requires AllClear(rows, y) && row.top == y + Lead(row.step) && row.height >= 0
    requires (forall r :: r in rows ==> !r.step.Gap?) && (row.step.Gap? ==> row.step.px >= 0)
    requires rows' == rows + (if row.step.Gap? then [] else [row]) && y' == row.Bottom() + Slack(row.step)
    ensures AllClear(rows', y')
  {
    forall i | 0 <= i < |rows| ensures Clear(rows[i], row) || row.step.Gap? {
      assert rows[i] in rows;
    }
  }

  /** Every step but a gap has its row, in order. */
  lemma {:induction false} RowsOfSteps(d: Diagram, steps: seq<Step>)
    requires forall i :: 0 <= i < |steps| ==> d.Knows(steps[i])
    ensures StepsOf(Rows(d, steps)) == NoGaps(steps)
  {
    if steps == [] {
    } else {
      var n := |steps| - 1;
      RowsOfSteps(d, steps[..n]);
      Snoc(d, steps, n);
      assert steps[..n + 1] == steps;
      if steps[n].Gap? {
        assert Rows(d, steps[..n]) + [] == Rows(d, steps[..n]) && NoGaps(steps[..n]) + [] == NoGaps(steps[..n]);
      } else {
        var row := Row(steps[n], NextTop(d, steps[..n]) + Lead(steps[n]), Height(d, steps[n]), TextLines(d, steps[n]));
        StepsOfSnoc(Rows(d, steps[..n]), row);
      }
    }
  }

  lemma StepsOfSnoc(rows: seq<Row>, row: Row)
    ensures StepsOf(rows + [row]) == StepsOf(rows) + [row.step]
  {
    assert (rows + [row])[..|rows|] == rows;
  }

  function StepsOf(rows: seq<Row>): seq<Step> {
    if rows == [] then [] else StepsOf(rows[..|rows| - 1]) + [rows[|rows| - 1].step]
  }

  function NoGaps(steps: seq<Step>): seq<Step> {
    if steps == [] then []
    else NoGaps(steps[..|steps| - 1]) + if steps[|steps| - 1].Gap? then [] else [steps[|steps| - 1]]
  }

  // ---- Rows hold their text ----------------------------------------------------------------

  ghost predicate MeasuresText(d: Diagram) { Monotone(d.Measure(d.size)) && Monotone(d.Measure(d.size - 1)) }

  /** The pixels a step leaves for its text: what the two lifelines are apart less 26, at least 270, for a message. */
  ghost predicate Leaves(d: Diagram, st: Step, w: real)
    requires d.Knows(st)
  {
    match st
    case Message(a, b, _) =>
      var span := if a == b then d.sp else if d.X(a) <= d.X(b) then d.X(b) - d.X(a) else d.X(a) - d.X(b);
      w == if span < 296.0 then 270.0 else span - 26.0
    case SelfCall(_, _) => w == if d.sp < 187.5 then 300.0 else if d.sp > 300.0 then 480.0 else d.sp * 1.6
    case Note(over, _) =>
      if |over| == 1 then w == 238.0
      else
        && (forall o, o' :: o in over && o' in over ==> d.X(o) - d.X(o') + 98.0 <= w)
        && exists o, o' :: o in over && o' in over && w == d.X(o) - d.X(o') + 98.0
    case _ => false
  }

  /** The lines of the row are a wrap of the text to the pixels the step leaves. */
  ghost predicate Wrapped(d: Diagram, row: Row, text: string, size: int)
    requires d.Knows(row.step)
  {
    exists w :: Leaves(d, row.step, w) && IsWrap(row.lines, Words.Split(text, '\n'), w, d.Measure(size))
  }

  /**
   * A row is exactly as tall as its lines and their padding need, whatever the text wraps to. The
   * lines keep the words in order, are as few as they can be, and fit what the step leaves.
   */
  ghost predicate HoldsText(d: Diagram, row: Row)
    requires d.Knows(row.step)
  {
    TallEnough(d, row) && WrapsText(d, row)
  }

  predicate TallEnough(d: Diagram, row: Row) {
    var k := |row.lines|;
    match row.step
    case Phase(_) => row.height == 30
    case Message(_, _, _) => row.height == k * (d.size + 3) + 26
    case SelfCall(_, _) =>
      && row.height >= k * (d.size + 3) + 28 && row.height >= 48
      && (row.height == k * (d.size + 3) + 28 || row.height == 48)
    case Note(_, _) => row.height == k * (d.size + 2) + 16
    case Branch(_, _) => row.height == 26
    case Gap(_) => false
  }

  ghost predicate WrapsText(d: Diagram, row: Row)
    requires d.Knows(row.step)
  {
    match row.step
    case Message(_, _, text) => Spaced(text) ==> Wrapped(d, row, text, d.size)
    case SelfCall(_, text) => Spaced(text) ==> Wrapped(d, row, text, d.size)
    case Note(_, text) => Spaced(text) ==> Wrapped(d, row, text, d.size - 1)
    case _ => row.lines == []
  }

  lemma WidthLeft(d: Diagram, st: Step)
    requires d.Knows(st) && (st.Message? || st.SelfCall? || st.Note?)
    ensures Leaves(d, st, TextWidth(d, st))
  {
  }

  lemma LinesWrap(d: Diagram, row: Row, text: string, w: real, size: int)
    requires d.Knows(row.step) && Leaves(d, row.step, w) && row.lines == d.LinesAt(text, w, size)
    requires Monotone(d.Measure(size)) && Spaced(text)
    ensures Wrapped(d, row, text, size)
  {
    ParagraphsWrap(Words.Split(text, '\n'), w, d.Measure(size));
  }

  lemma RowWrapsText(d: Diagram, row: Row)
    requires MeasuresText(d) && d.Knows(row.step) && row.lines == TextLines(d, row.step)
    ensures WrapsText(d, row)
  {
    var st := row.step;
    if (st.Message? || st.SelfCall? || st.Note?) && Spaced(st.text) {
      WidthLeft(d, st);
      LinesWrap(d, row, st.text, TextWidth(d, st), if st.Note? then d.size - 1 else d.size);
    }
  }

  lemma RowTallEnough(d: Diagram, row: Row)
    requires d.Knows(row.step) && !row.step.Gap?
    requires row.height == Height(d, row.step) && row.lines == TextLines(d, row.step)
    ensures TallEnough(d, row)
  {
    assert row.step.Message? || row.step.SelfCall? ==> Block(|row.lines|, d.size + 3) == |row.lines| * (d.size + 3);
    assert row.step.Note? ==> Block(|row.lines|, d.size + 2) == |row.lines| * (d.size + 2);
  }

  /** In every diagram every row holds its text. */
  lemma {:induction false} RowsHoldText(d: Diagram, steps: seq<Step>)
    requires MeasuresText(d) && forall i :: 0 <= i < |steps| ==> d.Knows(steps[i])
    ensures forall row :: row in Rows(d, steps) ==> d.Knows(row.step) && HoldsText(d, row)
  {
    if steps == [] {
    } else {
      var n := |steps| - 1;
      RowsHoldText(d, steps[..n]);
      var st := steps[n];
      if !st.Gap? {
        var row := Row(st, NextTop(d, steps[..n]) + Lead(st), Height(d, st), TextLines(d, st));
        RowTallEnough(d, row);
        RowWrapsText(d, row);
      }
    }
  }

  /** Lifelines stand `sp` apart. */
  lemma LifelinesApart(d: Diagram, a: string, b: string)
    requires a in d.idx && b in d.idx && d.idx[b] == d.idx[a] + 1
    ensures d.X(b) == d.X(a) + d.sp
  {
    var n := d.idx[a] as real;
    assert d.sp * (n + 1.0) == d.sp * n + d.sp;
  }

  // ---- Bands -------------------------------------------------------------------------------

  /** Row `r` comes with or after the title of phase `i`, and before the next title. */
  predicate InPhase(rows: seq<Row>, i: nat, r: nat)
    requires i < |PhaseRows(rows)|
  {
    var ps := PhaseRows(rows);
    ps[i] <= r < |rows| && (i + 1 < |ps| ==> r < ps[i + 1])
  }

  predicate Contains(b: Band, r: Row) { b.top <= r.top && r.Bottom() <= b.Bottom() }

  /** Bands are drawn one below the other with 2 px from each to the next. */
  lemma BandsDisjoint(d: Diagram, steps: seq<Step>, bands: seq<Band>, endY: int)
    requires Drawable(d, steps) && IsBands(bands, Rows(d, steps), endY)
    ensures forall i, j :: 0 <= i < j < |bands| ==> bands[i].Bottom() < bands[j].top
    ensures forall i :: 0 <= i < |bands| - 1 ==> bands[i + 1].top == bands[i].Bottom() + 2
  {
    var rows := Rows(d, steps);
    var ps := PhaseRows(rows);
    RowsStacked(d, steps);
    forall i, j | 0 <= i < j < |bands| ensures bands[i].Bottom() < bands[j].top {
      if i + 1 < j {
        var p, q := ps[i + 1], ps[j];
        assert p < q < |rows|;
        assert rows[p].top < rows[p].Bottom();
        assert rows[p].Bottom() <= rows[q].top;
      }
    }
  }

  /** What is left below the last row when the steps end. */
  function Trailing(steps: seq<Step>): int {
    if steps == [] then 0
    else
      var st := steps[|steps| - 1];
      Slack(st) + if st.Gap? then Trailing(steps[..|steps| - 1]) else 0
  }

  lemma {:induction false} TrailingSpace(d: Diagram, steps: seq<Step>)
    requires forall i :: 0 <= i < |steps| ==> d.Knows(steps[i])
    ensures var rows := Rows(d, steps);
            rows != [] ==> NextTop(d, steps) == rows[|rows| - 1].Bottom() + Trailing(steps)
  {
    if steps == [] {
    } else {
      var n := |steps| - 1;
      TrailingSpace(d, steps[..n]);
      var st := steps[n];
      TrailingStep(Rows(d, steps[..n]), NextTop(d, steps[..n]), Trailing(steps[..n]), st, Height(d, st), TextLines(d, st));
    }
  }

  lemma TrailingStep(rows: seq<Row>, y: int, trailing: int, st: Step, h: int, lines: seq<string>)
    requires rows != [] ==> y == rows[|rows| - 1].Bottom() + trailing
    requires st.Gap? ==> h == 0
    ensures var rows' := rows + if st.Gap? then [] else [Row(st, y + Lead(st), h, lines)];
            rows' != [] ==> y + Lead(st) + h + Slack(st) ==
                            rows'[|rows'| - 1].Bottom() + Slack(st) + if st.Gap? then trailing else 0
  {
  }

  ghost predicate HoldsPhase(b: Band, rows: seq<Row>, i: nat)
    requires i < |PhaseRows(rows)|
  {
    forall r :: 0 <= r < |rows| && InPhase(rows, i, r) ==> Contains(b, rows[r])
  }

  lemma InnerBandHolds(rows: seq<Row>, end: int, bands: seq<Band>, endY: int, i: nat)
    requires Stacked(rows, end) && IsBands(bands, rows, endY) && i + 1 < |bands|
    ensures HoldsPhase(bands[i], rows, i)
  {
    var ps := PhaseRows(rows);
    var p, q := ps[i], ps[i + 1];
    assert q < |rows|;
    forall r | 0 <= r < |rows| && InPhase(rows, i, r) ensures Contains(bands[i], rows[r]) {
      assert p <= r < q;
      assert rows[r].Bottom() + 16 <= rows[q].top;
      assert p < r ==> rows[p].Bottom() <= rows[r].top;
    }
  }

  lemma LastBandHolds(rows: seq<Row>, end: int, bands: seq<Band>, endY: int, i: nat)
    requires Stacked(rows, end) && IsBands(bands, rows, endY) && i + 1 == |bands|
    ensures rows != [] && (HoldsPhase(bands[i], rows, i) <==> rows[|rows| - 1].Bottom() <= endY - 8)
  {
    var p, last := PhaseRows(rows)[i], |rows| - 1;
    assert p <= last && InPhase(rows, i, last);
    forall r | 0 <= r < |rows| && InPhase(rows, i, r) && rows[last].Bottom() <= endY - 8
      ensures Contains(bands[i], rows[r])
    {
      assert p < r ==> rows[p].Bottom() <= rows[r].top;
      assert r < last ==> rows[r].Bottom() <= rows[last].top;
    }
  }

  /**
   * A phase's band holds every row of the phase: always for a phase with a successor; for the last
   * one iff there is a footer or the steps leave at least 8 px below the last row.
   */
  lemma BandHoldsPhase(d: Diagram, steps: seq<Step>, footer: bool, bands: seq<Band>, i: nat)
    requires Drawable(d, steps) && IsBands(bands, Rows(d, steps), EndY(d, steps, footer)) && i < |bands|
    ensures HoldsPhase(bands[i], Rows(d, steps), i) <==> i + 1 < |bands| || footer || Trailing(steps) >= 8
  {
    RowsStacked(d, steps);
    if i + 1 < |bands| {
      InnerBandHolds(Rows(d, steps), NextTop(d, steps), bands, EndY(d, steps, footer), i);
    } else {
      LastBandHolds(Rows(d, steps), NextTop(d, steps), bands, EndY(d, steps, footer), i);
      EndGap(d, steps, footer);
    }
  }

  /** The last band is too short for every diagram that ends with a message and has no footer. */
  lemma LastBandTooShort(d: Diagram, steps: seq<Step>, bands: seq<Band>)
    requires Drawable(d, steps) && steps != [] && steps[|steps| - 1].Message?
    requires IsBands(bands, Rows(d, steps), EndY(d, steps, false)) && bands != []
    ensures !HoldsPhase(bands[|bands| - 1], Rows(d, steps), |bands| - 1)
  {
    BandHoldsPhase(d, steps, false, bands, |bands| - 1);
  }

  /** Such as a phase with one message. */
  lemma OneMessagePhase(d: Diagram, title: string, m: Step)
    requires m.Message? && Drawable(d, [Phase(title), m])
    ensures PhaseRows(Rows(d, [Phase(title), m])) == [0]
  {
    var steps := [Phase(title), m];
    assert steps[..1] == [Phase(title)] && steps[..0] == [] && steps[..2] == steps;
    Snoc(d, steps, 0);
    Snoc(d, steps, 1);
    OnePhaseRow(Rows(d, steps));
  }

  lemma OnePhaseRow(rows: seq<Row>)
    requires |rows| == 2 && rows[0].step.Phase? && !rows[1].step.Phase?
    ensures PhaseRows(rows) == [0]
  {
    assert rows[..1][..0] == [] && rows[..1][0] == rows[0];
    assert PhaseRows(rows[..1]) == PhaseRows([]) + [0] == [0];
  }

  lemma EndGap(d: Diagram, steps: seq<Step>, footer: bool)
    requires Drawable(d, steps) && Rows(d, steps) != []
    ensures var rows := Rows(d, steps);
            rows[|rows| - 1].Bottom() <= EndY(d, steps, footer) - 8 <==> footer || Trailing(steps) >= 8
  {
    TrailingSpace(d, steps);
    TrailingNatural(d, steps);
  }

  lemma {:induction false} TrailingNatural(d: Diagram, steps: seq<Step>)
    requires Drawable(d, steps)
    ensures Trailing(steps) >= 0
  {
    if steps == [] {
    } else {
      TrailingNatural(d, steps[..|steps| - 1]);
    }
  }
}
