/** What the lines of a bit diagram say, character by character (situc/doc.py). */
module DiagramText {
  import opened Prelude
  import opened Diagram

  ghost predicate IsBlank(s: string) {
    forall i :: 0 <= i < |s| ==> s[i] == ' '
  }

  lemma {:induction false} BlankRepeat(n: nat)
    ensures |Repeat(" ", n)| == n && IsBlank(Repeat(" ", n))
  {
    if n > 0 { BlankRepeat(n - 1); }
  }

  /** `str.center`: a text that fits has blanks on both sides, as many; one left over goes before it in an
      odd room and after it in an even one. */
  lemma {:induction false} CenterIs(text: string, room: nat) returns (left: string, right: string)
    requires |text| <= room
    ensures Center(text, room) == left + text + right && |left| + |text| + |right| == room
    ensures IsBlank(left) && IsBlank(right)
    ensures |left| - |right| == if (room - |text|) % 2 == 0 then 0 else if room % 2 == 0 then -1 else 1
  {
    var spare := room - |text|;
    var n := spare / 2 + (if spare % 2 == 1 && room % 2 == 1 then 1 else 0);
    BlankRepeat(n);
    BlankRepeat(spare - n);
    left, right := Repeat(" ", n), Repeat(" ", spare - n);
    if spare == 0 { assert text == left + text + right; }
  }

  /** A cell has two characters to a bit, less one. A label that fits is in the middle of it; of one that
      does not, three bits or more show all but a last mark, and fewer show its start. */
  lemma {:induction false} CellIs(text: string, bits: nat) returns (left: string, right: string)
    requires bits > 0
    ensures |text| < 2 * bits ==>
              && Cell(text, bits) == left + text + right && IsBlank(left) && IsBlank(right)
              && |left| - |right| == if |text| % 2 == 1 then 0 else 1
    ensures |text| >= 2 * bits >= 6 ==> Cell(text, bits) == text[..2 * bits - 2] + "~"
    ensures |text| >= 2 * bits && bits < 3 ==> Cell(text, bits) == text[..2 * bits - 1]
  {
    left, right := "", "";
    if |text| < 2 * bits {
      left, right := CenterIs(text, 2 * bits - 1);
    }
  }

  /** A rule has a corner at each bit's border and a dash between. */
  lemma {:induction false} RuleIs(width: nat, k: nat)
    requires k < 2 * width + 1
    ensures Rule(width)[k] == if k % 2 == 0 then '+' else '-'
  {
    if k > 0 { DashAt(width, k - 1); }
  }

  lemma {:induction false} DashAt(n: nat, k: nat)
    requires k < 2 * n
    ensures Repeat("-+", n)[k] == if k % 2 == 0 then '-' else '+'
  {
    if k >= 2 { DashAt(n - 1, k - 2); }
  }

  /** A cell of a row stands over its own bits, between two borders. */
  lemma {:induction false} CellAt(row: seq<Piece>, j: nat)
    requires AllWide(row) && j < |row|
    ensures var from, line := Total(row[..j]), RowLine(row); var end := from + row[j].0;
            && end <= Total(row) && line[2 * from] == '|' && line[2 * end] == '|'
            && line[2 * from + 1..2 * end] == Cell(row[j].1, row[j].0)
  {
    hide Cell, RowLine, Total;
    var k := |row| - 1;
    RowEnds(row);
    if j < k {
      var init := row[..k];
      assert init[..j] == row[..j];
      CellAt(init, j);
      var from := Total(row[..j]);
      var end := from + row[j].0;
      assert RowLine(row)[2 * from + 1..2 * end] == RowLine(init)[2 * from + 1..2 * end];
    }
  }

  /** A row's line is the line of the cells before its last, and that cell. */
  lemma {:induction false} RowEnds(row: seq<Piece>)
    requires AllWide(row) && row != []
    ensures var k := |row| - 1; var from := Total(row[..k]);
            && Total(row) == from + row[k].0
            && RowLine(row) == (if k == 0 then "|" else RowLine(row[..k])) + Cell(row[k].1, row[k].0) + "|"
            && (k == 0 ==> from == 0)
            && RowLine(row)[0] == '|' && RowLine(row)[2 * from] == '|' && RowLine(row)[2 * Total(row)] == '|'
            && RowLine(row)[2 * from + 1..2 * Total(row)] == Cell(row[k].1, row[k].0)
  {
    hide Cell;
    var k := |row| - 1;
    if k == 0 { assert row[..0] == []; }
    var line := RowLine(row);
    assert line == (if k == 0 then "|" else RowLine(row[..k])) + Cell(row[k].1, row[k].0) + "|";
    hide RowLine, Cells;
    assert line[2 * Total(row[..k]) + 1..2 * Total(row)] == Cell(row[k].1, row[k].0);
  }

  /** Every bit of a row stands under one cell, and that cell is its label's. */
  lemma {:induction false} BitAt(row: seq<Piece>, p: nat) returns (j: nat)
    requires AllWide(row) && p < Total(row)
    ensures j < |row| && Total(row[..j]) <= p < Total(row[..j]) + row[j].0
    ensures RowLabels(row)[p] == row[j].1
    ensures var from, end := Total(row[..j]), Total(row[..j]) + row[j].0;
            end <= Total(row) && RowLine(row)[2 * from + 1..2 * end] == Cell(RowLabels(row)[p], row[j].0)
  {
    hide RowLine, Cell;
    var init := row[..|row| - 1];
    if p < Total(init) {
      j := BitAt(init, p);
      assert init[..j] == row[..j];
    } else {
      j := |row| - 1;
    }
    CellAt(row, j);
  }

  /** A box of whole rows has its name in the middle: as many rows above it as below, or one more. */
  lemma {:induction false} BoxIs(name: string, rows: nat, width: nat, r: nat)
    requires width > 0 && r < rows
    ensures var line, below := Tall(name, rows, width)[r], rows - 1 - r;
            && line[0] == '|' && line[2 * width] == '|'
            && (r == below || r == below + 1 ==> line[1..2 * width] == Cell(name, width))
            && (!(r == below || r == below + 1) ==> IsBlank(line[1..2 * width]))
  {
    hide Cell;
    BlankRepeat(2 * width - 1);
    var line := TallLine(name, r, rows, width);
    assert line[1..2 * width] == if r == rows / 2 then Cell(name, width) else Repeat(" ", 2 * width - 1);
  }

  /** A continued label names the member where that fits, and says only that it continues where not. */
  lemma {:induction false} ContinuedIs(name: string, bits: nat)
    ensures Continued(name, bits) in {name + " (cont.)", "(cont.)"}
    ensures |name| + 8 < 2 * bits ==> Continued(name, bits) == name + " (cont.)"
    ensures |name| + 8 >= 2 * bits ==> Continued(name, bits) == "(cont.)"
  {
    assert |name + " (cont.)"| == |name| + 8;
  }
}
