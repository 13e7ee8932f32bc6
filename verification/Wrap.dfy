/** Greedy word wrap: what it keeps, and that no break of the same words has fewer lines. */
module Wrap {
  import opened Words

  /** One paragraph, from the words still to place and the line under construction. */
  function Lines(words: seq<string>, cur: string, maxw: real, tw: string -> real): (r: seq<string>)
    ensures r != []
  {
    if words == [] then [cur]
    else
      var t := Strip(cur + " " + words[0]);
      if cur != "" && tw(t) > maxw then [cur] + Lines(words[1..], words[0], maxw, tw)
      else Lines(words[1..], t, maxw, tw)
  }

  function Paragraph(para: string, maxw: real, tw: string -> real): (r: seq<string>)
    ensures r != []
  {
    Lines(Split(para, ' '), "", maxw, tw)
  }

  function Paragraphs(paras: seq<string>, maxw: real, tw: string -> real): (r: seq<string>)
    ensures |r| >= |paras|
  {
    if paras == [] then []
    else Paragraphs(paras[..|paras| - 1], maxw, tw) + Paragraph(paras[|paras| - 1], maxw, tw)
  }

  /** `tw` measures one line of text. */
  method WrapText(s: string, maxw: real, tw: string -> real) returns (out: seq<string>)
    ensures out == Paragraphs(Split(s, '\n'), maxw, tw)
    ensures out != []
    ensures Monotone(tw) && Spaced(s) ==> IsWrap(out, Split(s, '\n'), maxw, tw)
  {
    out := [];
    var paras := Split(s, '\n');
    for i := 0 to |paras|
      invariant out == Paragraphs(paras[..i], maxw, tw)
    {
      out := WrapParagraph(paras[i], maxw, tw, out);
      assert paras[..i + 1][..i] == paras[..i];
    }
    assert paras[..|paras|] == paras;
    if Monotone(tw) && Spaced(s) {
      ParagraphsWrap(paras, maxw, tw);
    }
  }

  /** The inner loop: one paragraph's lines are appended to those before it. */
  method WrapParagraph(para: string, maxw: real, tw: string -> real, before: seq<string>) returns (out: seq<string>)
    ensures out == before + Paragraph(para, maxw, tw)
  {
    var cur, words := "", Split(para, ' ');
    out := before;
    for j := 0 to |words|
      invariant before + Paragraph(para, maxw, tw) == out + Lines(words[j..], cur, maxw, tw)
    {
      var t := Strip(cur + " " + words[j]);
      LinesStep(words, j, cur, maxw, tw, out);
      if cur != "" && tw(t) > maxw {
        out := out + [cur];
        cur := words[j];
      } else {
        cur := t;
      }
    }
    out := out + [cur];
  }

  lemma LinesStep(words: seq<string>, j: nat, cur: string, maxw: real, tw: string -> real, out: seq<string>)
    requires j < |words|
    ensures var t := Strip(cur + " " + words[j]);
            out + Lines(words[j..], cur, maxw, tw) ==
            if cur != "" && tw(t) > maxw then out + [cur] + Lines(words[j + 1..], words[j], maxw, tw)
            else out + Lines(words[j + 1..], t, maxw, tw)
  {
    assert words[j..][0] == words[j] && words[j..][1..] == words[j + 1..];
    var rest := Lines(words[j + 1..], words[j], maxw, tw);
    assert out + ([cur] + rest) == out + [cur] + rest;
  }

  // ---- Lines as groups of words ------------------------------------------------------------

  predicate Visible(w: string) { w != "" && forall c :: c in w ==> !White(c) }

  predicate AllVisible(ws: seq<string>) { forall w :: w in ws ==> Visible(w) }

  function NonEmpty(ws: seq<string>): (r: seq<string>)
    ensures forall w :: w in r <==> w in ws && w != ""
  {
    if ws == [] then [] else (if ws[0] == "" then [] else [ws[0]]) + NonEmpty(ws[1..])
  }

  function Line(g: seq<string>): string { Join(g, ' ') }

  function LinesOf(gs: seq<seq<string>>): (r: seq<string>)
    ensures |r| == |gs|
  {
    if gs == [] then [] else [Line(gs[0])] + LinesOf(gs[1..])
  }

  function Flatten(gs: seq<seq<string>>): seq<string> {
    if gs == [] then [] else gs[0] + Flatten(gs[1..])
  }

  predicate Fits(g: seq<string>, maxw: real, tw: string -> real) { |g| <= 1 || tw(Line(g)) <= maxw }

  /** The greedy grouping, from the words still to place and the group under construction. */
  function Groups(ws: seq<string>, cur: seq<string>, maxw: real, tw: string -> real): (r: seq<seq<string>>)
    ensures r != []
  {
    if ws == [] then [cur]
    else if cur != [] && tw(Line(cur + [ws[0]])) > maxw then [cur] + Groups(ws[1..], [ws[0]], maxw, tw)
    else Groups(ws[1..], cur + [ws[0]], maxw, tw)
  }

  /** A run of words is never narrower than a part of it at either end. */
  ghost predicate Monotone(tw: string -> real) {
    forall a, b {:trigger Line(a + b)} :: a != [] && b != [] && AllVisible(a) && AllVisible(b) ==>
      tw(Line(a)) <= tw(Line(a + b)) && tw(Line(b)) <= tw(Line(a + b))
  }

  /** An order-preserving break of `ws` into non-empty lines whose multi-word lines fit. */
  ghost predicate Breaks(gs: seq<seq<string>>, ws: seq<string>, maxw: real, tw: string -> real) {
    && Flatten(gs) == ws
    && forall g :: g in gs ==> g != [] && Fits(g, maxw, tw)
  }

  /** The greedy grouping is a break. */
  lemma {:induction false} GroupsBreak(ws: seq<string>, cur: seq<string>, maxw: real, tw: string -> real)
    requires cur != [] && Fits(cur, maxw, tw)
    ensures Breaks(Groups(ws, cur, maxw, tw), cur + ws, maxw, tw)
  {
    if ws == [] {
      assert Flatten([cur]) == cur + [] == cur + ws by { assert [cur][1..] == []; }
    } else {
      assert ws == [ws[0]] + ws[1..];
      if tw(Line(cur + [ws[0]])) > maxw {
        var rest := Groups(ws[1..], [ws[0]], maxw, tw);
        GroupsBreak(ws[1..], [ws[0]], maxw, tw);
        assert ([cur] + rest)[1..] == rest;
      } else {
        GroupsBreak(ws[1..], cur + [ws[0]], maxw, tw);
        assert cur + [ws[0]] + ws[1..] == cur + ws;
      }
    }
  }

  /** `gs` without its first `n` words. */
  function DropWords(gs: seq<seq<string>>, n: nat): (r: seq<seq<string>>)
    requires n <= |Flatten(gs)|
    ensures |r| <= |gs| && Flatten(r) == Flatten(gs)[n..]
  {
    if n == 0 then gs
    else if |gs[0]| <= n then
      assert Flatten(gs)[n..] == Flatten(gs[1..])[n - |gs[0]|..];
      DropWords(gs[1..], n - |gs[0]|)
    else
      assert ([gs[0][n..]] + gs[1..])[1..] == gs[1..];
      [gs[0][n..]] + gs[1..]
  }

  /** The first line of a break is a first part of the words, and the rest is a break of the rest. */
  lemma BreaksTail(gs: seq<seq<string>>, ws: seq<string>, maxw: real, tw: string -> real)
    requires Breaks(gs, ws, maxw, tw) && gs != []
    ensures var g := gs[0];
            && g != [] && Fits(g, maxw, tw) && |g| <= |ws| && g == ws[..|g|]
            && Breaks(gs[1..], ws[|g|..], maxw, tw)
  {
    var g := gs[0];
    assert g in gs && ws == g + Flatten(gs[1..]);
    assert forall h :: h in gs[1..] ==> h in gs;
  }

  lemma {:induction false} DropWordsBreaks(gs: seq<seq<string>>, n: nat, ws: seq<string>, maxw: real, tw: string -> real)
    requires Monotone(tw) && AllVisible(ws) && Breaks(gs, ws, maxw, tw) && n <= |ws|
    ensures Breaks(DropWords(gs, n), ws[n..], maxw, tw)
  {
    if n == 0 {
    } else {
      var g := gs[0];
      BreaksTail(gs, ws, maxw, tw);
      if |g| <= n {
        DropWordsBreaks(gs[1..], n - |g|, ws[|g|..], maxw, tw);
        assert ws[|g|..][n - |g|..] == ws[n..];
      } else {
        assert g == g[..n] + g[n..];
        assert AllVisible(g) by { assert forall w :: w in g ==> w in ws; }
        SuffixFits(g[..n], g[n..], maxw, tw);
        assert forall h :: h in [g[n..]] + gs[1..] ==> h == g[n..] || h in gs[1..];
        assert DropWords(gs, n) == [g[n..]] + gs[1..];
      }
    }
  }

  lemma SuffixFits(a: seq<string>, b: seq<string>, maxw: real, tw: string -> real)
    requires Monotone(tw) && AllVisible(a + b) && Fits(a + b, maxw, tw)
    ensures Fits(b, maxw, tw)
  {
    assert forall w :: w in a || w in b ==> w in a + b;
    if a == [] {
      assert a + b == b;
    } else if b != [] {
      assert tw(Line(b)) <= tw(Line(a + b));
    }
  }

  /** Greedy is optimal: every break of the same words has at least as many lines. */
  lemma {:induction false} GreedyOptimal(
    ws: seq<string>, cur: seq<string>, gs: seq<seq<string>>, maxw: real, tw: string -> real)
    requires Monotone(tw) && cur != [] && AllVisible(cur + ws) && Breaks(gs, cur + ws, maxw, tw)
    ensures |Groups(ws, cur, maxw, tw)| <= |gs|
    decreases |ws|
  {
    var all := cur + ws;
    if ws == [] {
    } else {
      var w, rest := ws[0], ws[1..];
      assert all == cur + [w] + rest;
      if tw(Line(cur + [w])) > maxw {
        var g := gs[0];
        BreaksTail(gs, all, maxw, tw);
        if |g| > |cur| {
          assert g == (cur + [w]) + g[|cur| + 1..];
          TooWide(cur + [w], g[|cur| + 1..], maxw, tw);
        }
        DropWordsBreaks(gs[1..], |cur| - |g|, all[|g|..], maxw, tw);
        assert all[|g|..][|cur| - |g|..] == [w] + rest;
        GreedyOptimal(rest, [w], DropWords(gs[1..], |cur| - |g|), maxw, tw);
      } else {
        GreedyOptimal(rest, cur + [w], gs, maxw, tw);
      }
    }
  }

  /** A line that starts with too wide a run of words does not fit. */
  lemma TooWide(a: seq<string>, b: seq<string>, maxw: real, tw: string -> real)
    requires Monotone(tw) && |a| >= 2 && AllVisible(a) && AllVisible(b) && tw(Line(a)) > maxw
    ensures !Fits(a + b, maxw, tw)
  {
    if b == [] {
      assert a + b == a;
    }
  }

  // ---- The lines of a paragraph are the greedy grouping of its words -----------------------

  lemma {:induction false} LineSolid(g: seq<string>)
    requires AllVisible(g)
    ensures Solid(Line(g)) && (Line(g) == "" <==> g == [])
  {
    if g != [] {
      var last := g[|g| - 1];
      assert g[0] in g && last in g && g == g[..|g| - 1] + [last];
      JoinSnoc(g[..|g| - 1], last, ' ');
      assert Line(g)[0] == g[0][0];
      assert Line(g)[|Line(g)| - 1] == last[|last| - 1];
    }
  }

  /** One step of the text loop is one step of the grouping; an empty word adds nothing. */
  lemma StepText(cur: seq<string>, w: string)
    requires AllVisible(cur) && (w == "" || Visible(w))
    ensures Strip(Line(cur) + " " + w) == Line(if w == "" then cur else cur + [w])
  {
    LineSolid(cur);
    if w == "" {
      assert Line(cur) + " " + w == Line(cur) + " ";
      StripSpaces(Line(cur));
    } else {
      JoinSnoc(cur, w, ' ');
      assert AllVisible(cur + [w]);
      LineSolid(cur + [w]);
      StripSpaces(Line(cur + [w]));
      if cur == [] {
        assert Line(cur) + " " + w == " " + w;
      }
    }
  }

  /** The words end with an empty one (a trailing space) and the last line is too wide. */
  predicate BlankLine(words: seq<string>, gs: seq<seq<string>>, maxw: real, tw: string -> real)
    requires gs != []
  {
    var last := gs[|gs| - 1];
    words != [] && words[|words| - 1] == "" && last != [] && tw(Line(last)) > maxw
  }

  /** The text loop gives the lines of the grouping, and a blank one after a trailing space past a too wide line. */
  predicate LinesMatch(words: seq<string>, cur: seq<string>, maxw: real, tw: string -> real) {
    var gs := Groups(NonEmpty(words), cur, maxw, tw);
    Lines(words, Line(cur), maxw, tw) == LinesOf(gs) + if BlankLine(words, gs, maxw, tw) then [""] else []
  }

  /** A word and a finished group in front change neither the lines after them nor the blank line. */
  lemma FinishedGroup(w: string, rest: seq<string>, g: seq<string>, gs: seq<seq<string>>, maxw: real, tw: string -> real)
    requires gs != [] && (rest == [] ==> w != "")
    ensures LinesOf([g] + gs) == [Line(g)] + LinesOf(gs)
    ensures BlankLine([w] + rest, [g] + gs, maxw, tw) == BlankLine(rest, gs, maxw, tw)
  {
    assert ([g] + gs)[1..] == gs;
  }

  lemma FinishedLines(
    w: string, rest: seq<string>, g: seq<string>, gs: seq<seq<string>>, lines: seq<string>, maxw: real, tw: string -> real)
    requires gs != [] && (rest == [] ==> w != "")
    requires lines == LinesOf(gs) + if BlankLine(rest, gs, maxw, tw) then [""] else []
    ensures [Line(g)] + lines == LinesOf([g] + gs) + if BlankLine([w] + rest, [g] + gs, maxw, tw) then [""] else []
  {
    FinishedGroup(w, rest, g, gs, maxw, tw);
  }

  lemma {:induction false} LinesAreGroups(words: seq<string>, cur: seq<string>, maxw: real, tw: string -> real)
    requires Monotone(tw) && AllVisible(cur) && Fits(cur, maxw, tw)
    requires forall w :: w in words ==> w == "" || Visible(w)
    ensures LinesMatch(words, cur, maxw, tw)
    decreases |words|, 0
  {
    if words == [] {
      assert LinesOf([cur]) == [Line(cur)];
    } else {
      var w, rest := words[0], words[1..];
      assert w in words && forall x :: x in rest ==> x in words;
      assert words == [w] + rest;
      if w == "" {
        EmptyWord(rest, cur, maxw, tw);
      } else {
        VisibleWord(w, rest, cur, maxw, tw);
      }
    }
  }

  lemma TextStep(w: string, rest: seq<string>, cur: seq<string>, maxw: real, tw: string -> real)
    requires AllVisible(cur) && Visible(w)
    ensures Lines([w] + rest, Line(cur), maxw, tw) ==
            if cur != [] && tw(Line(cur + [w])) > maxw then [Line(cur)] + Lines(rest, w, maxw, tw)
            else Lines(rest, Line(cur + [w]), maxw, tw)
  {
    LineSolid(cur);
    StepText(cur, w);
    assert ([w] + rest)[1..] == rest;
  }

  lemma GroupStep(w: string, rest: seq<string>, cur: seq<string>, maxw: real, tw: string -> real)
    requires Visible(w)
    ensures Groups(NonEmpty([w] + rest), cur, maxw, tw) ==
            if cur != [] && tw(Line(cur + [w])) > maxw then [cur] + Groups(NonEmpty(rest), [w], maxw, tw)
            else Groups(NonEmpty(rest), cur + [w], maxw, tw)
  {
    assert ([w] + rest)[1..] == rest;
    assert NonEmpty([w] + rest) == [w] + NonEmpty(rest);
    assert ([w] + NonEmpty(rest))[1..] == NonEmpty(rest);
  }

  lemma {:induction false} VisibleWord(w: string, rest: seq<string>, cur: seq<string>, maxw: real, tw: string -> real)
    requires Monotone(tw) && AllVisible(cur) && Fits(cur, maxw, tw) && Visible(w)
    requires forall x :: x in rest ==> x == "" || Visible(x)
    ensures LinesMatch([w] + rest, cur, maxw, tw)
    decreases |rest|, 1
  {
    assert Line([w]) == w && AllVisible([w]) && AllVisible(cur + [w]);
    if cur != [] && tw(Line(cur + [w])) > maxw {
      LinesAreGroups(rest, [w], maxw, tw);
      MatchAfterBreak(w, rest, cur, maxw, tw);
    } else {
      LinesAreGroups(rest, cur + [w], maxw, tw);
      MatchAfterWord(w, rest, cur, maxw, tw);
    }
  }

  lemma MatchAfterBreak(w: string, rest: seq<string>, cur: seq<string>, maxw: real, tw: string -> real)
    requires AllVisible(cur) && Visible(w) && cur != [] && tw(Line(cur + [w])) > maxw
    requires LinesMatch(rest, [w], maxw, tw)
    ensures LinesMatch([w] + rest, cur, maxw, tw)
  {
    TextStep(w, rest, cur, maxw, tw);
    GroupStep(w, rest, cur, maxw, tw);
    assert Line([w]) == w;
    FinishedLines(w, rest, cur, Groups(NonEmpty(rest), [w], maxw, tw), Lines(rest, w, maxw, tw), maxw, tw);
  }

  lemma MatchAfterWord(w: string, rest: seq<string>, cur: seq<string>, maxw: real, tw: string -> real)
    requires AllVisible(cur) && Visible(w) && (cur == [] || tw(Line(cur + [w])) <= maxw)
    requires LinesMatch(rest, cur + [w], maxw, tw)
    ensures LinesMatch([w] + rest, cur, maxw, tw)
  {
    TextStep(w, rest, cur, maxw, tw);
    GroupStep(w, rest, cur, maxw, tw);
    var gs := Groups(NonEmpty(rest), cur + [w], maxw, tw);
    assert BlankLine([w] + rest, gs, maxw, tw) == BlankLine(rest, gs, maxw, tw);
  }

  lemma {:induction false} EmptyWord(rest: seq<string>, cur: seq<string>, maxw: real, tw: string -> real)
    requires Monotone(tw) && AllVisible(cur) && Fits(cur, maxw, tw)
    requires forall x :: x in rest ==> x == "" || Visible(x)
    ensures LinesMatch([""] + rest, cur, maxw, tw)
    decreases |rest|, 1
  {
    var words := [""] + rest;
    assert words[1..] == rest && NonEmpty(words) == NonEmpty(rest);
    LineSolid(cur);
    StepText(cur, "");
    if cur != [] && tw(Line(cur)) > maxw {
      LinesAreGroups(rest, [], maxw, tw);
      assert Lines(words, Line(cur), maxw, tw) == [Line(cur)] + Lines(rest, "", maxw, tw);
      PastTooWide(rest, cur, maxw, tw);
    } else {
      LinesAreGroups(rest, cur, maxw, tw);
      MatchAfterBlank(rest, cur, maxw, tw);
    }
  }

  lemma MatchAfterBlank(rest: seq<string>, cur: seq<string>, maxw: real, tw: string -> real)
    requires AllVisible(cur) && (cur == [] || tw(Line(cur)) <= maxw) && LinesMatch(rest, cur, maxw, tw)
    ensures LinesMatch([""] + rest, cur, maxw, tw)
  {
    var words := [""] + rest;
    assert words[1..] == rest && NonEmpty(words) == NonEmpty(rest);
    LineSolid(cur);
    StepText(cur, "");
    assert Lines(words, Line(cur), maxw, tw) == Lines(rest, Line(cur), maxw, tw);
  }

  lemma PastTooWide(rest: seq<string>, cur: seq<string>, maxw: real, tw: string -> real)
    requires Monotone(tw) && AllVisible(cur) && cur != [] && tw(Line(cur)) > maxw
    requires forall x :: x in rest ==> x == "" || Visible(x)
    requires LinesMatch(rest, [], maxw, tw)
    ensures var gs := Groups(NonEmpty(rest), cur, maxw, tw);
            [Line(cur)] + Lines(rest, "", maxw, tw) ==
            LinesOf(gs) + if BlankLine([""] + rest, gs, maxw, tw) then [""] else []
  {
    Restart(NonEmpty(rest), cur, maxw, tw);
    if NonEmpty(rest) == [] {
      NothingLeft(rest, cur, maxw, tw);
    } else {
      FinishedGroup("", rest, cur, Groups(NonEmpty(rest), [], maxw, tw), maxw, tw);
    }
  }

  /** Only empty words after a too wide line: a blank line is left. */
  lemma NothingLeft(rest: seq<string>, cur: seq<string>, maxw: real, tw: string -> real)
    requires cur != [] && tw(Line(cur)) > maxw && NonEmpty(rest) == [] && LinesMatch(rest, [], maxw, tw)
    requires Groups([], cur, maxw, tw) == [cur] && Groups([], [], maxw, tw) == [[]]
    ensures [Line(cur)] + Lines(rest, "", maxw, tw) == LinesOf([cur]) + [""]
    ensures BlankLine([""] + rest, [cur], maxw, tw)
  {
    assert rest != [] ==> rest[|rest| - 1] in rest;
    assert LinesOf([[]]) == [""] && LinesOf([cur]) == [Line(cur)];
  }

  /** After a too wide line, going on from it or from an empty line groups the rest alike. */
  lemma Restart(ws: seq<string>, cur: seq<string>, maxw: real, tw: string -> real)
    requires Monotone(tw) && AllVisible(cur) && AllVisible(ws) && cur != [] && tw(Line(cur)) > maxw
    ensures ws == [] ==> Groups(ws, cur, maxw, tw) == [cur] && Groups(ws, [], maxw, tw) == [[]]
    ensures ws != [] ==> Groups(ws, cur, maxw, tw) == [cur] + Groups(ws, [], maxw, tw)
  {
    if ws != [] {
      assert ws[0] in ws && AllVisible([ws[0]]);
      assert tw(Line(cur)) <= tw(Line(cur + [ws[0]]));
      assert [] + [ws[0]] == [ws[0]];
    }
  }

  // ---- The theorem, paragraph by paragraph -------------------------------------------------

  /** The words of a text: its space-separated parts that are not empty. */
  function WordsOf(s: string): seq<string> { NonEmpty(Split(s, ' ')) }

  function AllWords(lines: seq<string>): seq<string> {
    if lines == [] then [] else WordsOf(lines[0]) + AllWords(lines[1..])
  }

  /** No white space but the space itself. */
  predicate OnlySpaces(s: string) { forall c :: c in s && White(c) ==> c == ' ' }

  /** The paragraph ends with a space after a word wider than the line. */
  predicate EndsTooWide(para: string, maxw: real, tw: string -> real) {
    var ws := WordsOf(para);
    para != "" && para[|para| - 1] == ' ' && ws != [] && tw(ws[|ws| - 1]) > maxw
  }

  lemma {:induction false} NonEmptyOfVisible(ws: seq<string>)
    requires AllVisible(ws)
    ensures NonEmpty(ws) == ws
  {
    if ws == [] {
    } else {
      assert ws[0] in ws && ws == [ws[0]] + ws[1..];
      NonEmptyOfVisible(ws[1..]);
    }
  }

  lemma {:induction false} AllWordsOfLines(gs: seq<seq<string>>)
    requires AllVisible(Flatten(gs))
    ensures AllWords(LinesOf(gs)) == Flatten(gs)
  {
    if gs == [] {
    } else {
      var g, rest := gs[0], gs[1..];
      assert Flatten(gs) == g + Flatten(rest);
      AllWordsOfLines(rest);
      assert LinesOf(gs)[1..] == LinesOf(rest);
      assert AllVisible(g) by { assert forall w :: w in g ==> w in Flatten(gs); }
      WordsOfLine(g);
    }
  }

  lemma WordsOfLine(g: seq<string>)
    requires AllVisible(g)
    ensures WordsOf(Line(g)) == g
  {
    if g == [] {
      assert WordsOf("") == [];
    } else {
      assert White(' ');
      SplitOfJoin(g, ' ');
      NonEmptyOfVisible(g);
    }
  }

  lemma {:induction false} AllWordsConcat(a: seq<string>, b: seq<string>)
    ensures AllWords(a + b) == AllWords(a) + AllWords(b)
  {
    if a == [] {
      assert a + b == b;
    } else {
      assert (a + b)[1..] == a[1..] + b;
      AllWordsConcat(a[1..], b);
    }
  }

  lemma AllWordsOne(line: string)
    ensures AllWords([line]) == WordsOf(line)
  {
    assert [line][1..] == [];
  }

  lemma {:induction false} FlattenLast(gs: seq<seq<string>>)
    requires gs != [] && gs[|gs| - 1] != []
    ensures Flatten(gs) != [] && Flatten(gs)[|Flatten(gs)| - 1] == gs[|gs| - 1][|gs[|gs| - 1]| - 1]
  {
    if |gs| == 1 {
      assert Flatten(gs) == gs[0] + [];
    } else {
      FlattenLast(gs[1..]);
    }
  }

  /** The last line is too wide exactly when its last word alone is. */
  lemma LastLineTooWide(gs: seq<seq<string>>, ws: seq<string>, maxw: real, tw: string -> real)
    requires Monotone(tw) && AllVisible(ws) && Breaks(gs, ws, maxw, tw) && gs != []
    ensures ws != [] && (tw(Line(gs[|gs| - 1])) > maxw <==> tw(ws[|ws| - 1]) > maxw)
  {
    var g := gs[|gs| - 1];
    assert g in gs;
    FlattenLast(gs);
    var w := g[|g| - 1];
    if |g| > 1 {
      var a := g[..|g| - 1];
      LastGroupWords(gs);
      assert g == a + [w] && AllVisible(a) && AllVisible([w]) && Line([w]) == w;
      assert tw(Line([w])) <= tw(Line(a + [w]));
    }
  }

  lemma {:induction false} LastGroupWords(gs: seq<seq<string>>)
    requires gs != []
    ensures forall w :: w in gs[|gs| - 1] ==> w in Flatten(gs)
  {
    if |gs| <= 1 {
    } else {
      LastGroupWords(gs[1..]);
    }
  }

  /** What `Paragraph` gives: the greedy break `gs` of all its words, in order, with at most one blank line after it. */
  lemma ParagraphLines(para: string, maxw: real, tw: string -> real) returns (gs: seq<seq<string>>)
    requires Monotone(tw) && OnlySpaces(para)
    ensures var words, out := WordsOf(para), Paragraph(para, maxw, tw);
            && AllVisible(words)
            && AllWords(out) == words
            && (words == [] ==> out == [""])
            && (words != [] ==> && Breaks(gs, words, maxw, tw)
                                && out == LinesOf(gs) + if EndsTooWide(para, maxw, tw) then [""] else [])
            && (words != [] ==> forall hs :: Breaks(hs, words, maxw, tw) ==> |gs| <= |hs|)
  {
    var parts, words := Split(para, ' '), WordsOf(para);
    gs := Groups(words, [], maxw, tw);
    forall w | w in parts ensures w == "" || Visible(w) {
      assert forall c :: c in w ==> c in para && c != ' ';
    }
    LinesAreGroups(parts, [], maxw, tw);
    assert Line([]) == "";
    if words == [] {
      assert gs == [[]] && LinesOf(gs) == [""] && WordsOf("") == [];
    } else {
      assert AllVisible(words);
      GroupsOfWords(words, gs, maxw, tw);
      BlankLineIff(para, gs, maxw, tw);
      WordsKept(gs, words, Paragraph(para, maxw, tw));
    }
  }

  lemma BlankLineIff(para: string, gs: seq<seq<string>>, maxw: real, tw: string -> real)
    requires Monotone(tw) && AllVisible(WordsOf(para)) && gs != [] && Breaks(gs, WordsOf(para), maxw, tw)
    ensures BlankLine(Split(para, ' '), gs, maxw, tw) <==> EndsTooWide(para, maxw, tw)
  {
    LastLineTooWide(gs, WordsOf(para), maxw, tw);
    SplitLast(para, ' ');
    assert gs[|gs| - 1] in gs;
  }

  lemma WordsKept(gs: seq<seq<string>>, words: seq<string>, out: seq<string>)
    requires AllVisible(words) && Flatten(gs) == words
    requires out == LinesOf(gs) + [""] || out == LinesOf(gs) + []
    ensures AllWords(out) == words
  {
    AllWordsOfLines(gs);
    AllWordsConcat(LinesOf(gs), [""]);
    AllWordsOne("");
    assert WordsOf("") == [];
    assert LinesOf(gs) + [] == LinesOf(gs);
  }

  lemma GroupsOfWords(words: seq<string>, gs: seq<seq<string>>, maxw: real, tw: string -> real)
    requires Monotone(tw) && words != [] && AllVisible(words) && gs == Groups(words, [], maxw, tw)
    ensures Breaks(gs, words, maxw, tw)
    ensures forall hs :: Breaks(hs, words, maxw, tw) ==> |gs| <= |hs|
  {
    var w, rest := words[0], words[1..];
    assert words == [w] + rest && [] + [w] == [w];
    assert gs == Groups(rest, [w], maxw, tw);
    GroupsBreak(rest, [w], maxw, tw);
    forall hs | Breaks(hs, words, maxw, tw) ensures |gs| <= |hs| {
      GreedyOptimal(rest, [w], hs, maxw, tw);
    }
  }

  /** The line count is the least possible iff the paragraph does not end with a space after a too wide word. */
  lemma OptimalIff(para: string, maxw: real, tw: string -> real)
    requires Monotone(tw) && OnlySpaces(para) && WordsOf(para) != []
    ensures (forall hs :: Breaks(hs, WordsOf(para), maxw, tw) ==> |Paragraph(para, maxw, tw)| <= |hs|)
            <==> !EndsTooWide(para, maxw, tw)
  {
    var gs := ParagraphLines(para, maxw, tw);
  }

  // ---- The theorem for a text ----------------------------------------------------------------

  /** No white space but spaces and newlines. */
  predicate Spaced(s: string) { forall c :: c in s && White(c) ==> c == ' ' || c == '\n' }

  /** The fewest lines any break of `ws` has. */
  ghost predicate Fewest(n: int, ws: seq<string>, maxw: real, tw: string -> real) {
    && (exists gs :: Breaks(gs, ws, maxw, tw) && |gs| == n)
    && forall gs :: Breaks(gs, ws, maxw, tw) ==> n <= |gs|
  }

  /** A line is its words with one space between them, and fits if they are several. */
  ghost predicate IsLine(line: string, maxw: real, tw: string -> real) {
    line == Line(WordsOf(line)) && Fits(WordsOf(line), maxw, tw)
  }

  /**
   * The lines of one part of the text: they keep its words in order, fit, and are as few as possible,
   * but for an empty line at the end exactly where a space ends the part after a too wide word. A part
   * without words is one empty line.
   */
  ghost predicate IsBlock(block: seq<string>, part: string, maxw: real, tw: string -> real) {
    var ws, extra := WordsOf(part), if EndsTooWide(part, maxw, tw) then 1 else 0;
    && AllWords(block) == ws
    && (forall line :: line in block ==> IsLine(line, maxw, tw))
    && (ws == [] ==> block == [""])
    && (ws != [] ==> Fewest(|block| - extra, ws, maxw, tw) && (extra == 1 ==> block[|block| - 1] == ""))
  }

  ghost predicate AreBlocks(blocks: seq<seq<string>>, parts: seq<string>, maxw: real, tw: string -> real) {
    |blocks| == |parts| && forall i :: 0 <= i < |parts| ==> IsBlock(blocks[i], parts[i], maxw, tw)
  }

  /** One block for each part, in order, and nothing else; so all words are kept in order. */
  ghost predicate IsWrap(out: seq<string>, parts: seq<string>, maxw: real, tw: string -> real) {
    && (exists blocks :: AreBlocks(blocks, parts, maxw, tw) && Flatten(blocks) == out)
    && AllWords(out) == AllWords(parts)
  }

  lemma {:induction false} LinesOfAreLines(gs: seq<seq<string>>, maxw: real, tw: string -> real)
    requires forall g :: g in gs ==> AllVisible(g) && Fits(g, maxw, tw)
    ensures forall line :: line in LinesOf(gs) ==> IsLine(line, maxw, tw)
  {
    if gs == [] {
    } else {
      assert gs[0] in gs;
      WordsOfLine(gs[0]);
      LinesOfAreLines(gs[1..], maxw, tw);
    }
  }

  lemma {:induction false} GroupInFlatten(gs: seq<seq<string>>, g: seq<string>)
    requires g in gs
    ensures forall w :: w in g ==> w in Flatten(gs)
  {
    if g == gs[0] {
    } else {
      GroupInFlatten(gs[1..], g);
    }
  }

  lemma ParagraphIsBlock(para: string, maxw: real, tw: string -> real)
    requires Monotone(tw) && OnlySpaces(para)
    ensures IsBlock(Paragraph(para, maxw, tw), para, maxw, tw)
  {
    var words, out := WordsOf(para), Paragraph(para, maxw, tw);
    var gs := ParagraphLines(para, maxw, tw);
    EmptyLineIsLine(maxw, tw);
    if words != [] {
      forall g | g in gs ensures AllVisible(g) && Fits(g, maxw, tw) {
        GroupInFlatten(gs, g);
      }
      LinesOfAreLines(gs, maxw, tw);
      assert Breaks(gs, words, maxw, tw) && |gs| == |LinesOf(gs)|;
    }
  }

  lemma EmptyLineIsLine(maxw: real, tw: string -> real)
    ensures IsLine("", maxw, tw)
  {
    assert WordsOf("") == [];
  }

  lemma {:induction false} FlattenSnoc(gs: seq<seq<string>>, g: seq<string>)
    ensures Flatten(gs + [g]) == Flatten(gs) + g
  {
    if gs == [] {
      assert ([] + [g])[1..] == [] && Flatten([]) == [];
      assert Flatten([g]) == g + [];
    } else {
      assert (gs + [g])[1..] == gs[1..] + [g];
      FlattenSnoc(gs[1..], g);
    }
  }

  lemma WrapSnoc(
    out: seq<string>, before: seq<string>, block: seq<string>, part: string, parts: seq<string>, maxw: real, tw: string -> real)
    requires IsWrap(out, before, maxw, tw) && IsBlock(block, part, maxw, tw) && parts == before + [part]
    ensures IsWrap(out + block, parts, maxw, tw)
  {
    var blocks :| AreBlocks(blocks, before, maxw, tw) && Flatten(blocks) == out;
    BlocksSnoc(blocks, before, block, part, maxw, tw);
    FlattenSnoc(blocks, block);
    AllWordsConcat(out, block);
    AllWordsConcat(before, [part]);
    AllWordsOne(part);
  }

  lemma BlocksSnoc(
    blocks: seq<seq<string>>, before: seq<string>, block: seq<string>, part: string, maxw: real, tw: string -> real)
    requires AreBlocks(blocks, before, maxw, tw) && IsBlock(block, part, maxw, tw)
    ensures AreBlocks(blocks + [block], before + [part], maxw, tw)
  {
  }

  lemma NothingWraps(maxw: real, tw: string -> real)
    ensures IsWrap([], [], maxw, tw)
  {
    assert AreBlocks([], [], maxw, tw);
  }

  lemma {:induction false} ParagraphsWrap(parts: seq<string>, maxw: real, tw: string -> real)
    requires Monotone(tw) && forall p :: p in parts ==> OnlySpaces(p)
    ensures IsWrap(Paragraphs(parts, maxw, tw), parts, maxw, tw)
  {
    if parts == [] {
      NothingWraps(maxw, tw);
    } else {
      var n := |parts| - 1;
      ParagraphsWrap(parts[..n], maxw, tw);
      LastWraps(parts, Paragraphs(parts[..n], maxw, tw), maxw, tw);
    }
  }

  lemma LastWraps(parts: seq<string>, out: seq<string>, maxw: real, tw: string -> real)
    requires Monotone(tw) && parts != [] && OnlySpaces(parts[|parts| - 1])
    requires IsWrap(out, parts[..|parts| - 1], maxw, tw)
    ensures IsWrap(out + Paragraph(parts[|parts| - 1], maxw, tw), parts, maxw, tw)
  {
    var before, last := parts[..|parts| - 1], parts[|parts| - 1];
    assert parts == before + [last];
    ParagraphIsBlock(last, maxw, tw);
    WrapSnoc(out, before, Paragraph(last, maxw, tw), last, parts, maxw, tw);
  }

  /** Counting characters is a width measure of the kind assumed. */
  function Length(s: string): real { |s| as real }

  lemma {:induction false} LengthOfRun(a: seq<string>, b: seq<string>)
    ensures |Line(a + b)| >= |Line(a)| && |Line(a + b)| >= |Line(b)|
  {
    if a == [] {
      assert a + b == b;
    } else {
      assert (a + b)[1..] == a[1..] + b;
      LengthOfRun(a[1..], b);
      if |a| == 1 && b == [] {
        assert a + b == a;
      }
    }
  }

  lemma LengthIsMonotone()
    ensures Monotone(Length)
  {
    forall a: seq<string>, b: seq<string>
      ensures Length(Line(a)) <= Length(Line(a + b)) && Length(Line(b)) <= Length(Line(a + b))
    {
      LengthOfRun(a, b);
    }
  }

  lemma TrailingSpaceParts()
    ensures Split("ab ", ' ') == ["ab", ""] && WordsOf("ab ") == ["ab"]
  {
    SplitOfJoin(["ab", ""], ' ');
    assert Join(["ab", ""], ' ') == "ab ";
    assert ["ab", ""][1..] == [""] && [""][1..] == [];
  }

  /** A paragraph that does take a line too many: "ab " at width 1. */
  lemma TrailingSpaceCosts()
    ensures var best := [["ab"]];
            Breaks(best, WordsOf("ab "), 1.0, Length) && |Paragraph("ab ", 1.0, Length)| > |best|
  {
    TrailingSpaceParts();
    OneLineBreaks("ab", 1.0);
    TrailingSpaceLines("ab ", "ab", 1.0);
  }

  lemma OneLineBreaks(w: string, maxw: real)
    ensures Breaks([[w]], [w], maxw, Length)
  {
    assert [[w]][1..] == [];
  }

  lemma TrailingSpaceLines(para: string, w: string, maxw: real)
    requires OnlySpaces(para) && para != "" && para[|para| - 1] == ' ' && WordsOf(para) == [w] && Length(w) > maxw
    ensures |Paragraph(para, maxw, Length)| > 1
  {
    LengthIsMonotone();
    var gs := ParagraphLines(para, maxw, Length);
  }
}
