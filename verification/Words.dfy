/** Python's `split`, `strip` and joining with one separator. */
module Words {

  function Split(s: string, sep: char): (r: seq<string>)
    ensures r != []
    ensures forall w :: w in r ==> sep !in w && forall c :: c in w ==> c in s
  {
    if s == "" then [""]
    else
      var rest := Split(s[1..], sep);
      if s[0] == sep then [""] + rest
      else
        assert rest[0] in rest;
        [[s[0]] + rest[0]] + rest[1..]
  }

  function Join(ws: seq<string>, sep: char): string {
    if ws == [] then "" else if |ws| == 1 then ws[0] else ws[0] + [sep] + Join(ws[1..], sep)
  }

  /** The characters `str.strip` removes. */
  predicate White(c: char) {
    var n := c as int;
    || 9 <= n <= 13 || 28 <= n <= 32 || n == 0x85 || n == 0xA0 || n == 0x1680 || 0x2000 <= n <= 0x200A
    || n == 0x2028 || n == 0x2029 || n == 0x202F || n == 0x205F || n == 0x3000
  }

  function StripLeft(s: string): string {
    if s != "" && White(s[0]) then StripLeft(s[1..]) else s
  }

  function StripRight(s: string): string {
    if s != "" && White(s[|s| - 1]) then StripRight(s[..|s| - 1]) else s
  }

  function Strip(s: string): string { StripRight(StripLeft(s)) }

  lemma {:induction false} JoinOfSplit(s: string, sep: char)
    ensures Join(Split(s, sep), sep) == s
  {
    if s == "" {
    } else {
      JoinOfSplit(s[1..], sep);
      var rest := Split(s[1..], sep);
      if s[0] == sep {
        assert Split(s, sep)[1..] == rest;
      } else {
        assert Split(s, sep)[1..] == rest[1..];
      }
    }
  }

  lemma {:induction false} SplitOfJoin(ws: seq<string>, sep: char)
    requires ws != [] && forall w :: w in ws ==> sep !in w
    ensures Split(Join(ws, sep), sep) == ws
  {
    if |ws| == 1 {
      SplitWord(ws[0], "", sep);
      assert ws[0] + "" == ws[0];
    } else {
      var tail := Join(ws[1..], sep);
      SplitOfJoin(ws[1..], sep);
      SplitWord(ws[0], [sep] + tail, sep);
      assert ws[0] + ([sep] + tail) == Join(ws, sep);
      assert ([sep] + tail)[1..] == tail && Split([sep] + tail, sep) == [""] + ws[1..];
      assert ws[0] + "" == ws[0];
      assert ws == [ws[0]] + ws[1..];
    }
  }

  lemma {:induction false} SplitWord(w: string, t: string, sep: char)
    requires sep !in w
    ensures Split(w + t, sep) == [w + Split(t, sep)[0]] + Split(t, sep)[1..]
  {
    if w == "" {
      assert w + t == t && w + Split(t, sep)[0] == Split(t, sep)[0];
    } else {
      var head := Split(t, sep)[0];
      assert (w + t)[1..] == w[1..] + t && (w + t)[0] == w[0];
      SplitWord(w[1..], t, sep);
      assert [w[0]] + (w[1..] + head) == w + head;
    }
  }

  lemma {:induction false} JoinSnoc(ws: seq<string>, w: string, sep: char)
    ensures Join(ws + [w], sep) == if ws == [] then w else Join(ws, sep) + [sep] + w
  {
    if |ws| > 1 {
      JoinSnoc(ws[1..], w, sep);
      assert (ws + [w])[1..] == ws[1..] + [w];
    } else if |ws| == 1 {
      assert (ws + [w])[1..] == [w];
    }
  }

  /** Neither end is white space. */
  predicate Solid(s: string) { s == "" || (!White(s[0]) && !White(s[|s| - 1])) }

  lemma StripSpaces(s: string)
    requires Solid(s)
    ensures Strip(s) == s && Strip(" " + s) == s && Strip(s + " ") == s
  {
    assert (" " + s)[1..] == s && (s + " ")[..|s|] == s;
    if s == "" {
      assert s + " " == " " && " " + s == " " && StripLeft(" ") == "";
    }
  }

  lemma {:induction false} SplitLast(s: string, sep: char)
    ensures var r := Split(s, sep); r[|r| - 1] == "" <==> s == "" || s[|s| - 1] == sep
  {
    if s == "" {
    } else {
      SplitLast(s[1..], sep);
      var rest := Split(s[1..], sep);
      assert s[1..] == "" <==> |s| == 1;
      assert |s| > 1 ==> s[1..][|s| - 2] == s[|s| - 1];
      assert |rest| > 1 ==> Split(s, sep)[|Split(s, sep)| - 1] == rest[|rest| - 1];
    }
  }
}
