/** The seat grid of a section and its labels. */
module SeatGrid {
  import opened Numbers
  import opened Text

  /** A seat of the active section: identifier and status. */
  datatype Entry = Entry(id: Text, status: Text)

  /** A label before it is written out: row and column count from 0. */
  datatype Place = Ga(idx: nat) | Seat(row: nat, column: nat)

  datatype SeatCell = SeatCell(id: Text, place: Place, status: Text)

  /** `String.fromCharCode` keeps sixteen bits. */
  function FromCharCode(n: nat): Unit { n % 0x10000 }

  function GaLabel(idx: nat): Text { [71, 65] + Decimal(idx + 1) }

  function SeatLabel(row: nat, column: nat): Text { [FromCharCode(65 + row)] + Decimal(column + 1) }

  /** `r` * `c`, by repeated addition. */
  function Product(r: nat, c: nat): nat {
    if r == 0 then 0 else Product(r - 1, c) + c
  }

  /** `idx` / `c`, by repeated subtraction. */
  function RowOf(idx: nat, c: nat): nat
    requires c > 0
  {
    if idx < c then 0 else 1 + RowOf(idx - c, c)
  }

  /** `idx` % `c`. */
  function ColumnOf(idx: nat, c: nat): (s: nat)
    requires c > 0
    ensures s < c
  {
    if idx < c then idx else ColumnOf(idx - c, c)
  }

  lemma {:induction false} ProductMeaning(r: nat, c: nat)
    ensures Product(r, c) == r * c
  {
    if r == 0 {
    } else {
      ProductMeaning(r - 1, c);
      assert r * c == (r - 1) * c + c;
    }
  }

  /** Row and column give the place back, and every row and column in range is that of its place. */
  lemma {:induction false} PlaceOfRowAndColumn(idx: nat, c: nat)
    requires c > 0
    ensures idx == Product(RowOf(idx, c), c) + ColumnOf(idx, c)
  {
    if idx < c {
    } else {
      PlaceOfRowAndColumn(idx - c, c);
    }
  }

  lemma {:induction false} PlaceInRow(r: nat, c: nat, s: nat)
    requires s < c
    ensures RowOf(Product(r, c) + s, c) == r && ColumnOf(Product(r, c) + s, c) == s
  {
    if r == 0 {
    } else {
      PlaceInRow(r - 1, c, s);
    }
  }

  function LabelText(place: Place): Text {
    match place
    case Ga(idx) => GaLabel(idx)
    case Seat(row, column) => SeatLabel(row, column)
  }

  function CellAt(entries: seq<Entry>, isGA: bool, columns: nat, idx: nat): SeatCell
    requires idx < |entries| && columns > 0
  {
    SeatCell(entries[idx].id, if isGA then Ga(idx) else Seat(RowOf(idx, columns), ColumnOf(idx, columns)), entries[idx].status)
  }

  /** The first `n` cells, in order. */
  function Cells(entries: seq<Entry>, isGA: bool, columns: nat, n: nat): (r: seq<SeatCell>)
    requires n <= |entries| && columns > 0
    ensures |r| == n
  {
    seq(n, idx requires 0 <= idx < n => CellAt(entries, isGA, columns, idx))
  }

  function Flatten(rows: seq<seq<SeatCell>>): seq<SeatCell> {
    if rows == [] then [] else Flatten(rows[..|rows| - 1]) + rows[|rows| - 1]
  }

  /** How many rows and columns are drawn: a GA section is a single row. */
  function RowCount(isGA: bool, rowCount: nat): nat { if isGA then 1 else rowCount }

  function ColumnCount(isGA: bool, columnCount: nat, seats: nat): nat {
    if isGA then (if seats >= 1 then seats else 1) else columnCount
  }

  /**
   * The grid lists the first min(seats, rows * columns) seats in order; no row is empty, and all but
   * the last are full.
   */
  ghost predicate Complete(entries: seq<Entry>, isGA: bool, rowCount: nat, columnCount: nat, rows: seq<seq<SeatCell>>)
    requires columnCount > 0
  {
    && |rows| <= rowCount
    && Flatten(rows) == Cells(entries, isGA, columnCount, Min(|entries|, Product(rowCount, columnCount)))
    && (forall r :: 0 <= r < |rows| ==> 0 < |rows[r]| <= columnCount)
    && (forall r :: 0 <= r < |rows| - 1 ==> |rows[r]| == columnCount)
  }

  /** Every seat of a general-admission section is shown, under its own id and numbered from 1. */
  ghost predicate ShowsGa(entries: seq<Entry>, shown: seq<SeatCell>) {
    && |shown| == |entries|
    && forall k :: 0 <= k < |shown| ==> shown[k] == SeatCell(entries[k].id, Ga(k), entries[k].status)
  }

  /** The seats that `rows` * `columns` places hold are shown, seat k in row r and column s with k == r * columns + s. */
  ghost predicate ShowsSeats(entries: seq<Entry>, rows: nat, columns: nat, shown: seq<SeatCell>) {
    && |shown| == Min(|entries|, rows * columns)
    && forall k :: 0 <= k < |shown| ==> IsSeat(entries[k], k, columns, shown[k])
  }

  ghost predicate IsSeat(entry: Entry, k: nat, columns: nat, cell: SeatCell) {
    && cell.id == entry.id && cell.status == entry.status
    && cell.place.Seat? && cell.place.column < columns && k == cell.place.row * columns + cell.place.column
  }

  lemma CellsShown(entries: seq<Entry>, isGA: bool, rows: nat, columns: nat, shown: seq<SeatCell>)
    requires columns > 0 && shown == Cells(entries, isGA, columns, Min(|entries|, Product(rows, columns)))
    ensures isGA && rows == 1 && columns >= |entries| ==> ShowsGa(entries, shown)
    ensures !isGA ==> ShowsSeats(entries, rows, columns, shown)
  {
    ProductMeaning(rows, columns);
    assert rows == 1 ==> Product(rows, columns) == columns by { assert Product(0, columns) == 0; }
    if !isGA {
      forall k | 0 <= k < |shown| ensures IsSeat(entries[k], k, columns, shown[k]) {
        SeatShown(entries, columns, k);
      }
    }
  }

  lemma SeatShown(entries: seq<Entry>, columns: nat, k: nat)
    requires columns > 0 && k < |entries|
    ensures IsSeat(entries[k], k, columns, CellAt(entries, false, columns, k))
  {
    PlaceOfRowAndColumn(k, columns);
    ProductMeaning(RowOf(k, columns), columns);
  }

  /** The label of cell `k` is read back: in a general-admission section to its number, elsewhere in the first 26 rows to its place. */
  lemma CellLabelRoundTrip(entries: seq<Entry>, isGA: bool, columns: nat, k: nat)
    requires columns > 0 && k < |entries|
    ensures var cell := CellAt(entries, isGA, columns, k);
            && (isGA ==> ParseSeatLabel(LabelText(cell.place)) == Parsed([71, 65], k + 1))
            && (!isGA ==> cell.place.Seat?)
            && (!isGA && cell.place.row < 26 ==>
                  ParseSeatLabel(LabelText(cell.place)) == Parsed([65 + cell.place.row], cell.place.column + 1))
  {
    if isGA {
      GaLabelRoundTrip(k);
    } else {
      SeatLabelRoundTrip(RowOf(k, columns), ColumnOf(k, columns));
    }
  }

  method BuildGrid(entries: seq<Entry>, isGA: bool, sectionRows: nat, sectionColumns: nat)
    returns (rows: seq<seq<SeatCell>>)
    ensures var columnCount := ColumnCount(isGA, sectionColumns, |entries|);
            if columnCount == 0 then rows == []
            else Complete(entries, isGA, RowCount(isGA, sectionRows), columnCount, rows)
    ensures isGA ==> ShowsGa(entries, Flatten(rows))
    ensures !isGA ==> ShowsSeats(entries, sectionRows, sectionColumns, Flatten(rows))
  {
    var rowCount := if isGA then 1 else sectionRows;
    var columnCount := if isGA then (if |entries| >= 1 then |entries| else 1) else sectionColumns;
    ProductMeaning(rowCount, columnCount);
    if columnCount == 0 {
      return [];
    }
    rows := FillRows(entries, isGA, rowCount, columnCount);
    CellsShown(entries, isGA, rowCount, columnCount, Flatten(rows));
  }

  /** The outer loop. */
  method FillRows(entries: seq<Entry>, isGA: bool, rowCount: nat, columnCount: nat) returns (rows: seq<seq<SeatCell>>)
    requires columnCount > 0
    ensures Complete(entries, isGA, rowCount, columnCount, rows)
  {
    var totalSeats := Times(rowCount, columnCount);
    var relevant := Min(|entries|, totalSeats);
    rows := [];
    var r := 0;
    EmptyGrid(entries, isGA, columnCount, relevant);
    while r < rowCount
      invariant 0 <= r <= rowCount && |rows| <= r
      invariant IsGrid(entries, isGA, columnCount, relevant, Product(r, columnCount), rows)
    {
      var row := BuildRow(entries, isGA, columnCount, relevant, r);
      AppendRow(entries, isGA, columnCount, relevant, Product(r, columnCount), rows, row);
      if |row| > 0 {
        rows := rows + [row];
      }
      r := r + 1;
    }
    GridComplete(entries, isGA, rowCount, columnCount, rows);
  }

  lemma EmptyGrid(entries: seq<Entry>, isGA: bool, columns: nat, relevant: nat)
    requires columns > 0 && relevant <= |entries|
    ensures IsGrid(entries, isGA, columns, relevant, 0, [])
  {
  }

  lemma GridComplete(entries: seq<Entry>, isGA: bool, rowCount: nat, columns: nat, rows: seq<seq<SeatCell>>)
    requires columns > 0 && |rows| <= rowCount
    requires var total := Product(rowCount, columns);
             IsGrid(entries, isGA, columns, Min(|entries|, total), total, rows)
    ensures Complete(entries, isGA, rowCount, columns, rows)
  {
  }

  /** The rows hold the seats before place `start`, all rows full but for a last one where the seats end. */
  ghost predicate IsGrid(
    entries: seq<Entry>, isGA: bool, columns: nat, relevant: nat, start: nat, rows: seq<seq<SeatCell>>)
    requires columns > 0 && relevant <= |entries|
  {
    && Flatten(rows) == Cells(entries, isGA, columns, Min(relevant, start))
    && (forall k :: 0 <= k < |rows| ==> 0 < |rows[k]| <= columns)
    && (forall k :: 0 <= k < |rows| - 1 ==> |rows[k]| == columns)
    && (rows != [] && start < relevant ==> |rows[|rows| - 1]| == columns)
  }

  method Times(r: nat, c: nat) returns (p: nat)
    ensures p == Product(r, c)
  {
    ProductMeaning(r, c);
    p := r * c;
  }

  /** The cells from place `start` on: a full row, or what is left of the seats. */
  ghost predicate IsRow(entries: seq<Entry>, isGA: bool, columns: nat, relevant: nat, start: nat, row: seq<SeatCell>)
    requires columns > 0 && relevant <= |entries|
  {
    && |row| == Min(columns, if relevant >= start then relevant - start else 0)
    && forall k :: 0 <= k < |row| ==> row[k] == CellAt(entries, isGA, columns, start + k)
  }

  /** The inner loop: one row, cut short where the seats end. */
  method BuildRow(entries: seq<Entry>, isGA: bool, columnCount: nat, relevant: nat, r: nat) returns (row: seq<SeatCell>)
    requires columnCount > 0 && relevant <= |entries|
    ensures IsRow(entries, isGA, columnCount, relevant, Product(r, columnCount), row)
  {
    row := [];
    var start := Times(r, columnCount);
    for s := 0 to columnCount
      invariant |row| == s && (s > 0 ==> start + s <= relevant)
      invariant forall k :: 0 <= k < s ==> row[k] == CellAt(entries, isGA, columnCount, start + k)
    {
      var idx := start + s;
      if idx >= relevant {
        break;
      }
      PlaceInRow(r, columnCount, s);
      row := row + [SeatCell(entries[idx].id, if isGA then Ga(idx) else Seat(r, s), entries[idx].status)];
    }
  }

  lemma AppendRow(
    entries: seq<Entry>, isGA: bool, columns: nat, relevant: nat, start: nat, rows: seq<seq<SeatCell>>, row: seq<SeatCell>)
    requires columns > 0 && relevant <= |entries| && IsRow(entries, isGA, columns, relevant, start, row)
    requires IsGrid(entries, isGA, columns, relevant, start, rows)
    ensures IsGrid(entries, isGA, columns, relevant, start + columns, if |row| > 0 then rows + [row] else rows)
  {
    if |row| > 0 {
      assert (rows + [row])[..|rows|] == rows;
      assert Flatten(rows + [row]) == Flatten(rows) + row;
    }
  }

  // ---- Labels ------------------------------------------------------------------------------

  predicate IsLetter(c: Unit) { 65 <= c <= 90 || 97 <= c <= 122 }

  function WithoutHyphens(s: Text): Text {
    if s == [] then [] else (if s[0] == 45 then [] else [s[0]]) + WithoutHyphens(s[1..])
  }

  /** Length of the leading run of letters. */
  function LetterRun(s: Text): (n: nat)
    ensures n <= |s|
  {
    if s == [] || !IsLetter(s[0]) then 0 else 1 + LetterRun(s[1..])
  }

  datatype Parsed = Parsed(row: Text, number: nat)

  /** Letters followed by digits, hyphens aside; anything else gives an empty row and 0. */
  function ParseSeatLabel(text: Text): Parsed {
    var normalized := WithoutHyphens(text);
    var n := LetterRun(normalized);
    var digits := normalized[n..];
    if n > 0 && digits != [] && forall i :: 0 <= i < |digits| ==> IsDigit(digits[i])
    then Parsed(normalized[..n], Value(digits))
    else Parsed([], 0)
  }

  /** Letters, then digits. */
  predicate IsLabel(l: Text, d: Text) {
    && l != [] && (forall i :: 0 <= i < |l| ==> IsLetter(l[i]))
    && d != [] && (forall i :: 0 <= i < |d| ==> IsDigit(d[i]))
  }

  /** For every text: the letters and the number if that is what it is without its hyphens, else nothing. */
  lemma ParseIff(t: Text)
    ensures forall l, d :: IsLabel(l, d) && WithoutHyphens(t) == l + d ==> ParseSeatLabel(t) == Parsed(l, Value(d))
    ensures ParseSeatLabel(t) == Parsed([], 0) || exists l, d :: IsLabel(l, d) && WithoutHyphens(t) == l + d
  {
    var s := WithoutHyphens(t);
    forall l, d | IsLabel(l, d) && s == l + d ensures ParseSeatLabel(t) == Parsed(l, Value(d)) {
      RunOfLabel(l, d);
      assert s[..|l|] == l && s[|l|..] == d;
    }
    var n := LetterRun(s);
    LettersOfRun(s);
    if ParseSeatLabel(t) != Parsed([], 0) {
      assert IsLabel(s[..n], s[n..]) && s == s[..n] + s[n..];
    }
  }

  lemma {:induction false} LettersOfRun(s: Text)
    ensures forall i :: 0 <= i < LetterRun(s) ==> IsLetter(s[i])
  {
    if s == [] || !IsLetter(s[0]) {
    } else {
      LettersOfRun(s[1..]);
      assert forall i :: 0 < i < LetterRun(s) ==> s[i] == s[1..][i - 1];
    }
  }

  lemma {:induction false} RunOfLabel(l: Text, d: Text)
    requires (forall i :: 0 <= i < |l| ==> IsLetter(l[i])) && d != [] && !IsLetter(d[0])
    ensures LetterRun(l + d) == |l|
  {
    if l == [] {
      assert l + d == d;
    } else {
      assert (l + d)[1..] == l[1..] + d;
      RunOfLabel(l[1..], d);
    }
  }

  /** Hyphens do not matter anywhere. */
  lemma HyphensIgnored(a: Text, b: Text)
    ensures ParseSeatLabel(a + [45] + b) == ParseSeatLabel(a + b)
  {
    HyphensOfConcat(a + [45], b);
    HyphensOfConcat(a, [45]);
    HyphensOfConcat(a, b);
    assert WithoutHyphens([45]) == [] by { assert [45][1..] == []; }
    assert WithoutHyphens(a) + [] == WithoutHyphens(a);
  }

  lemma {:induction false} HyphensOfConcat(a: Text, b: Text)
    ensures WithoutHyphens(a + b) == WithoutHyphens(a) + WithoutHyphens(b)
  {
    if a == [] {
      assert a + b == b;
    } else {
      assert (a + b)[1..] == a[1..] + b;
      HyphensOfConcat(a[1..], b);
    }
  }

  lemma {:induction false} DigitsHaveNoHyphen(s: Text)
    requires forall i :: 0 <= i < |s| ==> IsDigit(s[i])
    ensures WithoutHyphens(s) == s
  {
    if s == [] {
    } else {
      DigitsHaveNoHyphen(s[1..]);
      assert s == [s[0]] + s[1..];
    }
  }

  /** A label of the first row letters "A".. is read back; so is any row whose character is a letter, and no other. */
  lemma SeatLabelRoundTrip(row: nat, column: nat)
    ensures var c := FromCharCode(65 + row);
            ParseSeatLabel(SeatLabel(row, column)) == if IsLetter(c) then Parsed([c], column + 1) else Parsed([], 0)
    ensures row < 26 ==> ParseSeatLabel(SeatLabel(row, column)) == Parsed([65 + row], column + 1)
  {
    ValueOfDigits(column + 1);
    ParseOfUnitAndDigits(FromCharCode(65 + row), Digits(column + 1));
  }

  /** The 27th row is the first whose labels are not read back; the 33rd reads as row "a". */
  lemma RowsPastZ(column: nat)
    ensures ParseSeatLabel(SeatLabel(26, column)) == Parsed([], 0)
    ensures ParseSeatLabel(SeatLabel(32, column)) == Parsed([97], column + 1)
  {
    SeatLabelRoundTrip(26, column);
    SeatLabelRoundTrip(32, column);
  }

  lemma ParseOfUnitAndDigits(c: Unit, d: Text)
    requires d != [] && forall i :: 0 <= i < |d| ==> IsDigit(d[i])
    ensures ParseSeatLabel([c] + d) == if IsLetter(c) then Parsed([c], Value(d)) else Parsed([], 0)
  {
    var t := [c] + d;
    DigitsHaveNoHyphen(d);
    assert t[1..] == d && IsDigit(d[0]);
    var normalized := WithoutHyphens(t);
    if c == 45 {
      assert normalized == d && LetterRun(normalized) == 0;
    } else {
      assert normalized == t;
      assert LetterRun(d) == 0 && t[..1] == [c];
      assert LetterRun(t) == if IsLetter(c) then 1 else 0;
    }
  }

  lemma GaLabelRoundTrip(idx: nat)
    ensures ParseSeatLabel(GaLabel(idx)) == Parsed([71, 65], idx + 1)
  {
    var d := Digits(idx + 1);
    ValueOfDigits(idx + 1);
    ParseOfTwoLetters(71, 65, d);
    assert GaLabel(idx) == [71] + ([65] + d);
  }

  lemma ParseOfTwoLetters(c: Unit, c': Unit, d: Text)
    requires IsLetter(c) && IsLetter(c') && d != [] && forall i :: 0 <= i < |d| ==> IsDigit(d[i])
    ensures ParseSeatLabel([c] + ([c'] + d)) == Parsed([c, c'], Value(d))
  {
    var t := [c] + ([c'] + d);
    DigitsHaveNoHyphen(d);
    HeadTail(c, [c'] + d);
    HeadTail(c', d);
    assert LetterRun(d) == 0 by { assert IsDigit(d[0]); }
    assert t[2..] == d && t[..2] == [c, c'];
  }

  /** A leading letter is kept by the hyphen filter and lengthens the run of letters. */
  lemma HeadTail(c: Unit, t: Text)
    requires IsLetter(c)
    ensures WithoutHyphens([c] + t) == [c] + WithoutHyphens(t)
    ensures LetterRun([c] + t) == 1 + LetterRun(t)
  {
    assert ([c] + t)[1..] == t;
  }

  /** Two places of a grid have one label iff their rows agree modulo 65536 and their columns agree. */
  lemma SeatLabelsCollideIff(row: nat, column: nat, row': nat, column': nat)
    ensures SeatLabel(row, column) == SeatLabel(row', column') <==> row % 0x10000 == row' % 0x10000 && column == column'
  {
    ShiftMod(row, row');
    if SeatLabel(row, column) == SeatLabel(row', column') {
      SameParts(FromCharCode(65 + row), Decimal(column + 1), FromCharCode(65 + row'), Decimal(column' + 1));
      DecimalInjective(column + 1, column' + 1);
    }
  }

  lemma SameParts(c: Unit, t: Text, c': Unit, t': Text)
    requires [c] + t == [c'] + t'
    ensures c == c' && t == t'
  {
    assert ([c] + t)[0] == ([c'] + t')[0];
    assert ([c] + t)[1..] == t && ([c'] + t')[1..] == t';
  }

  lemma ShiftMod(m: nat, n: nat)
    ensures (65 + m) % 0x10000 == (65 + n) % 0x10000 <==> m % 0x10000 == n % 0x10000
  {
    ShiftOne(m);
    ShiftOne(n);
  }

  lemma ShiftOne(m: nat)
    ensures var x := m % 0x10000;
            (65 + m) % 0x10000 == if x + 65 < 0x10000 then x + 65 else x + 65 - 0x10000
  {
    var q, x := m / 0x10000, m % 0x10000;
    assert 65 + m == q * 0x10000 + (x + 65);
  }

  /** Labels are pairwise distinct in a GA section, and in any grid of at most 65536 rows. */
  lemma LabelsDistinct(entries: seq<Entry>, isGA: bool, columns: nat, i: nat, j: nat)
    requires i < j < |entries| && columns > 0 && RowOf(j, columns) < 0x10000
    ensures LabelText(CellAt(entries, isGA, columns, i).place) != LabelText(CellAt(entries, isGA, columns, j).place)
  {
    if isGA {
      if GaLabel(i) == GaLabel(j) {
        assert GaLabel(i)[2..] == Decimal(i + 1) && GaLabel(j)[2..] == Decimal(j + 1);
        DecimalInjective(i + 1, j + 1);
      }
    } else {
      SeatLabelsCollideIff(RowOf(i, columns), ColumnOf(i, columns), RowOf(j, columns), ColumnOf(j, columns));
      PlaceOfRowAndColumn(i, columns);
      PlaceOfRowAndColumn(j, columns);
      RowsInOrder(columns, i, j);
      SmallMod(RowOf(i, columns));
      SmallMod(RowOf(j, columns));
    }
  }

  lemma SmallMod(n: nat)
    requires n < 0x10000
    ensures n % 0x10000 == n
  {
  }

  lemma {:induction false} RowsInOrder(c: nat, i: nat, j: nat)
    requires c > 0 && i < j
    ensures RowOf(i, c) <= RowOf(j, c)
  {
    if i < c {
    } else {
      RowsInOrder(c, i - c, j - c);
    }
  }
}
