/** Bit diagrams (situc/doc.py, `_diagram`): rows of a fixed width, in which every bit of a struct is
    drawn once. */
module Diagram {
  import opened Prelude

  // ----- text

  function Repeat(s: string, n: nat): (r: string)
    ensures |r| == n * |s|
  {
    if n == 0 then "" else
      var rest := Repeat(s, n - 1);
      s + rest
  }

  /** `str.center` */
  function Center(text: string, room: nat): (r: string)
    ensures |r| == Max(room, |text|)
  {
    if |text| >= room then text
    else
      var spare := room - |text|;
      var left := spare / 2 + (if spare % 2 == 1 && room % 2 == 1 then 1 else 0);
      Repeat(" ", left) + text + Repeat(" ", spare - left)
  }

  /** `_cell`: two characters to a bit, less one, and a cut is marked where there is room to. */
  function Cell(text: string, bits: nat): (r: string)
    requires bits > 0
    ensures |r| == 2 * bits - 1
  {
    var room := 2 * bits - 1;
    var shown := if |text| <= room then text else if room >= 4 then text[..room - 1] + "~" else text[..room];
    Center(shown, room)
  }

  function Rule(width: nat): (r: string)
    ensures |r| == 2 * width + 1
  {
    "+" + Repeat("-+", width)
  }

  /** A cell of a row: how many bits, and what is written there. */
  type Piece = (nat, string)

  predicate AllWide(row: seq<Piece>) {
    forall i :: 0 <= i < |row| ==> row[i].0 > 0
  }

  function Total(row: seq<Piece>): nat {
    if row == [] then 0 else Total(row[..|row| - 1]) + row[|row| - 1].0
  }

  /** The cells of a row, separated by borders. */
  function Cells(row: seq<Piece>): (r: string)
    requires row != [] && AllWide(row)
    ensures |r| == 2 * Total(row) - 1
  {
    var k := |row| - 1;
    if k == 0 then
      assert row[..0] == [];
      Cell(row[0].1, row[0].0)
    else Cells(row[..k]) + "|" + Cell(row[k].1, row[k].0)
  }

  function RowLine(row: seq<Piece>): (r: string)
    requires row != [] && AllWide(row)
    ensures |r| == 2 * Total(row) + 1
  {
    "|" + Cells(row) + "|"
  }

  predicate AllLong(lines: seq<string>, n: nat) {
    forall i :: 0 <= i < |lines| ==> |lines[i]| == n
  }

  function TallLine(name: string, r: nat, rows: nat, width: nat): (line: string)
    requires width > 0
    ensures |line| == 2 * width + 1
  {
    if r == rows / 2 then "|" + Cell(name, width) + "|" else "|" + Repeat(" ", 2 * width - 1) + "|"
  }

  /** `_tall` */
  function Tall(name: string, rows: nat, width: nat): (lines: seq<string>)
    requires width > 0
    ensures |lines| == rows + 1 && AllLong(lines, 2 * width + 1)
  {
    seq(rows, r requires 0 <= r => TallLine(name, r, rows, width)) + [Rule(width)]
  }

  /** `_slanted` */
  function Slanted(name: string, width: nat): (lines: seq<string>)
    requires width > 0
    ensures |lines| == 3 && AllLong(lines, 2 * width + 1)
  {
    ["/" + Cell(name, width) + "/", "/" + Cell("(variable)", width) + "/", Rule(width)]
  }

  // ----- the picture

  /** What the lines show: a row of cells, a box of whole rows, or a member of no fixed extent. */
  datatype Block = Row(row: seq<Piece>) | Box(name: string, rows: nat) | Open(name: string)

  predicate Full(b: Block, width: nat) {
    b.Row? ==> b.row != [] && AllWide(b.row) && Total(b.row) == width
  }

  predicate AllFull(blocks: seq<Block>, width: nat) {
    forall i :: 0 <= i < |blocks| ==> Full(blocks[i], width)
  }

  function BlockLines(b: Block, width: nat): (lines: seq<string>)
    requires width > 0 && Full(b, width)
    ensures AllLong(lines, 2 * width + 1)
  {
    match b
    case Row(row) => [RowLine(row), Rule(width)]
    case Box(name, rows) => Tall(name, rows, width)
    case Open(name) => Slanted(name, width)
  }

  function Lines(blocks: seq<Block>, width: nat): (lines: seq<string>)
    requires width > 0 && AllFull(blocks, width)
    ensures AllLong(lines, 2 * width + 1)
  {
    if blocks == [] then [] else Lines(blocks[..|blocks| - 1], width) + BlockLines(blocks[|blocks| - 1], width)
  }

  // ----- what each bit is shown as

  function Same(text: string, n: nat): (r: seq<string>)
    ensures |r| == n && forall i :: 0 <= i < n ==> r[i] == text
  {
    seq(n, _ => text)
  }

  /** The label over each bit of a row. */
  function RowLabels(row: seq<Piece>): (r: seq<string>)
    ensures |r| == Total(row)
  {
    if row == [] then [] else RowLabels(row[..|row| - 1]) + Same(row[|row| - 1].1, row[|row| - 1].0)
  }

  /** The label over each bit of the blocks that have bits. */
  function Labels(blocks: seq<Block>, width: nat): seq<string> {
    if blocks == [] then []
    else
      Labels(blocks[..|blocks| - 1], width) + BlockLabels(blocks[|blocks| - 1], width)
  }

  function BlockLabels(b: Block, width: nat): seq<string> {
    match b
    case Row(row) => RowLabels(row)
    case Box(name, rows) => Same(name, rows * width)
    case Open(_) => []
  }

  lemma BlockAdded(blocks: seq<Block>, b: Block, width: nat)
    requires width > 0 && AllFull(blocks, width) && Full(b, width)
    ensures AllFull(blocks + [b], width)
    ensures Lines(blocks + [b], width) == Lines(blocks, width) + BlockLines(b, width)
    ensures Labels(blocks + [b], width) == Labels(blocks, width) + BlockLabels(b, width)
  {
    assert (blocks + [b])[..|blocks|] == blocks;
  }

  /** A row with a blank cell for what is left of it. */
  function Padded(row: seq<Piece>, width: nat): seq<Piece> {
    if Total(row) < width then row + [(width - Total(row), "")] else row
  }

  lemma PaddedIs(row: seq<Piece>, width: nat)
    requires row != [] && AllWide(row) && Total(row) <= width
    ensures Full(Row(Padded(row, width)), width)
    ensures RowLabels(Padded(row, width)) == RowLabels(row) + Same("", width - Total(row))
  {
    if Total(row) < width {
      Extended(row, (width - Total(row), ""));
    } else {
      assert RowLabels(row) + Same("", 0) == RowLabels(row);
    }
  }

  /** A continuation says so, and only that where there is not room for more. */
  function Continued(name: string, bits: nat): string {
    if |name + " (cont.)"| > 2 * bits - 1 then "(cont.)" else name + " (cont.)"
  }

  /** What a bit of a member should be shown as: its part of the row is from the member's start or the
      row's, whichever is later, to the member's end or the row's, whichever is sooner. */
  function LabelAt(start: nat, bits: nat, name: string, width: nat, p: nat): string
    requires width > 0
  {
    var left := Max(start, p / width * width);
    var right := Min(start + bits, p / width * width + width);
    if left == start then name else Continued(name, Max(right - left, 0))
  }

  /** What bits `from` to `end` of a member should be shown as. */
  function MemberLabels(start: nat, bits: nat, name: string, width: nat, from: nat, end: nat): (r: seq<string>)
    requires width > 0 && from <= end
    ensures |r| == end - from
  {
    seq(end - from, k requires 0 <= k => LabelAt(start, bits, name, width, from + k))
  }

  // ----- drawing

  class Canvas {
    const width: nat
    const header: seq<string>
    var row: seq<Piece>
    var lines: seq<string>
    ghost var blocks: seq<Block>

    ghost predicate Valid()
      reads this
    {
      && width > 0 && AllWide(row) && Total(row) <= width
      && AllFull(blocks, width)
      && lines == header + Lines(blocks, width)
    }

    /** The label over every bit drawn so far. */
    ghost function Shown(): seq<string>
      reads this
    {
      Labels(blocks, width) + RowLabels(row)
    }

    constructor (width: nat, ruler: seq<string>)
      requires width > 0
      ensures Valid() && this.width == width && header == ruler + [Rule(width)] && row == [] && Shown() == [] && blocks == []
    {
      this.width := width;
      header := ruler + [Rule(width)];
      row := [];
      lines := ruler + [Rule(width)];
      blocks := [];
      new;
      assert lines == header + [];
    }

    /** `flush` */
    method Flush()
      requires Valid()
      modifies this
      ensures Valid() && row == []
      ensures blocks == if old(row) == [] then old(blocks) else old(blocks) + [Row(Padded(old(row), width))]
      ensures Shown() == if old(row) == [] then old(Shown()) else old(Shown()) + Same("", width - Total(old(row)))
    {
      if row == [] { return; }
      hide Lines, Labels, Total, RowLabels, BlockLabels, BlockLines, Full, AllWide, AllFull, RowLine, Rule, Same;
      PaddedIs(row, width);
      RowIsFull(Padded(row, width), width);
      BlockAdded(blocks, Row(Padded(row, width)), width);
      RowAdded(header, blocks, Padded(row, width), width);
      EmptyRow();
      var filled, full := Total(row), row;
      if filled < width { full := full + [(width - filled, "")]; }
      lines, blocks, row := lines + [RowLine(full)] + [Rule(width)], blocks + [Row(full)], [];
    }

    /** `lines.extend` */
    method Extend(b: Block)
      requires Valid() && row == [] && !b.Row?
      modifies this
      ensures Valid() && row == [] && blocks == old(blocks) + [b] && Shown() == old(Shown()) + BlockLabels(b, width)
    {
      hide Lines, Labels, BlockLabels, BlockLines, AllWide, AllFull;
      BlockAdded(blocks, b, width);
      EmptyRow();
      assert Labels(blocks, width) + [] == Labels(blocks, width);
      assert Labels(blocks + [b], width) + [] == Labels(blocks + [b], width);
      assert header + Lines(blocks, width) + BlockLines(b, width) == header + (Lines(blocks, width) + BlockLines(b, width));
      lines, blocks := lines + BlockLines(b, width), blocks + [b];
    }

    /** `row.append` */
    method Append(bits: nat, text: string)
      requires Valid() && bits > 0 && Total(row) + bits <= width
      modifies this`row
      ensures Valid() && row == old(row) + [(bits, text)] && Total(row) == Total(old(row)) + bits
      ensures Shown() == old(Shown()) + Same(text, bits)
    {
      hide Labels, Total, RowLabels, AllWide, AllFull, Lines, Same;
      Extended(row, (bits, text));
      row := row + [(bits, text)];
    }

    /** `_place`: a member added to the row being built, split where rows end. */
    method Place(start: nat, bits: nat, name: string)
      requires Valid() && Total(row) == start % width
      modifies this
      ensures Valid() && Total(row) == (start + bits) % width
      ensures Shown() == old(Shown()) + MemberLabels(start, bits, name, width, start, start + bits)
    {
      hide Valid, Shown, Total, RowLabels, LabelAt, Same, MemberLabels;
      ValidWidth();
      var remaining: nat, at: nat, first := bits, start, true;
      ghost var before := Shown();
      assert before + [] == before;
      while remaining > 0
        invariant width > 0 && Valid() && Total(row) == at % width
        invariant at + remaining == start + bits && at >= start && (first <==> at == start) && (!first && remaining > 0 ==> at % width == 0)
        invariant Shown() == before + MemberLabels(start, bits, name, width, start, at)
      {
        var take := Min(width - at % width, remaining);
        var text := if first then name else if |name + " (cont.)"| > 2 * take - 1 then "(cont.)" else name + " (cont.)";
        PieceLabels(start, bits, name, width, at, take);
        Advance(at, take, width);
        MoreLabels(start, bits, name, width, at, at + take);
        Append(take, text);
        at := at + take;
        remaining := remaining - take;
        first := false;
        if at % width == 0 {
          Flush();
          EmptyRow();
        }
      }
    }

    lemma ValidWidth()
      requires Valid()
      ensures width > 0 && Total(row) <= width
    {
    }
  }

  lemma EmptyRow()
    ensures AllWide([]) && Total([]) == 0 && RowLabels([]) == []
  {
  }

  lemma RowIsFull(row: seq<Piece>, width: nat)
    requires Full(Row(row), width)
    ensures row != [] && AllWide(row)
  {
  }

  lemma RowAdded(header: seq<string>, blocks: seq<Block>, row: seq<Piece>, width: nat)
    requires width > 0 && AllFull(blocks, width) && Full(Row(row), width) && AllFull(blocks + [Row(row)], width)
    ensures header + Lines(blocks, width) + [RowLine(row)] + [Rule(width)] == header + Lines(blocks + [Row(row)], width)
  {
    hide RowLine, Rule, Full, Lines, Labels, BlockLines, BlockLabels, AllFull, AllWide;
    BlockAdded(blocks, Row(row), width);
    RowIsFull(row, width);
    TwoLines(row, width);
  }

  lemma TwoLines(row: seq<Piece>, width: nat)
    requires width > 0 && Full(Row(row), width)
    ensures BlockLines(Row(row), width) == [RowLine(row)] + [Rule(width)]
  {
    hide RowLine, Rule;
  }

  /** Moving on by no more than what is left of the row. */
  lemma Advance(at: nat, take: nat, width: nat)
    requires width > 0 && 0 < take <= width - at % width
    ensures (at + take) % width == if take == width - at % width then 0 else at % width + take
  {
    var q := at / width;
    if take == width - at % width {
      assert (q + 1) * width == q * width + width;
      RemainderIs(at + take, width, q + 1, 0);
    } else {
      RemainderIs(at + take, width, q, at % width + take);
    }
  }

  lemma RemainderIs(n: nat, d: nat, q: nat, r: nat)
    requires d > 0 && r < d && n == q * d + r
    ensures n / d == q && n % d == r
  {
    var p := n / d;
    if p < q { assert (p + 1) * d <= q * d by { Times(p + 1, q, d); } }
    if p > q { assert (q + 1) * d <= p * d by { Times(q + 1, p, d); } }
  }

  lemma Times(a: nat, b: nat, d: nat)
    requires a <= b
    ensures a * d <= b * d && (a + 1) * d == a * d + d
  {
  }

  /** Every bit of one piece is to be shown as the piece is labelled. */
  lemma PieceLabel(start: nat, bits: nat, name: string, width: nat, at: nat, take: nat, p: nat)
    requires width > 0 && start <= at <= p < at + take && (at == start || at % width == 0)
    requires at < start + bits && take == Min(width - at % width, start + bits - at)
    ensures LabelAt(start, bits, name, width, p) == if at == start then name else Continued(name, take)
  {
    hide Continued;
    RemainderIs(p, width, at / width, at % width + (p - at));
  }

  lemma PieceLabels(start: nat, bits: nat, name: string, width: nat, at: nat, take: nat)
    requires width > 0 && start <= at < start + bits && (at == start || at % width == 0)
    requires take == Min(width - at % width, start + bits - at)
    ensures MemberLabels(start, bits, name, width, at, at + take) == Same(if at == start then name else Continued(name, take), take)
  {
    hide Continued, LabelAt;
    forall p: nat | at <= p < at + take
      ensures LabelAt(start, bits, name, width, p) == if at == start then name else Continued(name, take)
    {
      PieceLabel(start, bits, name, width, at, take, p);
    }
  }

  lemma MoreLabels(start: nat, bits: nat, name: string, width: nat, at: nat, end: nat)
    requires width > 0 && start <= at <= end
    ensures MemberLabels(start, bits, name, width, start, end) ==
            MemberLabels(start, bits, name, width, start, at) + MemberLabels(start, bits, name, width, at, end)
  {
  }

  lemma Extended(row: seq<Piece>, piece: Piece)
    requires AllWide(row) && piece.0 > 0
    ensures AllWide(row + [piece]) && Total(row + [piece]) == Total(row) + piece.0
    ensures RowLabels(row + [piece]) == RowLabels(row) + Same(piece.1, piece.0)
  {
    assert (row + [piece])[..|row|] == row;
  }

  // ----- a whole struct

  /** A member with a static offset; `bits` of one with no fixed size is not read. */
  datatype Member = Member(start: nat, bits: nat, fixed: bool, name: string)

  /** Offsets go up, members do not overlap, and nothing follows one of no fixed size. */
  predicate InOrder(members: seq<Member>, at: nat)
    decreases |members|
  {
    members != [] ==>
      && members[0].start >= at && (!members[0].fixed ==> |members| == 1)
      && InOrder(members[1..], members[0].start + members[0].bits)
  }

  /** Drawn as one box rather than row by row. */
  predicate WholeRows(m: Member, width: nat)
    requires width > 0
  {
    m.start % width == 0 && m.bits % width == 0 && m.bits > width
  }

  function OwnLabels(m: Member, width: nat): seq<string>
    requires width > 0
  {
    if !m.fixed then []
    else if WholeRows(m, width) then Same(m.name, m.bits)
    else MemberLabels(m.start, m.bits, m.name, width, m.start, m.start + m.bits)
  }

  /** What every bit from `at` on should be shown as, gaps included. */
  function Shows(members: seq<Member>, width: nat, at: nat): (r: seq<string>)
    requires width > 0 && InOrder(members, at)
    decreases |members|
  {
    if members == [] then []
    else
      var m := members[0];
      MemberLabels(at, m.start - at, "unused", width, at, m.start) + OwnLabels(m, width)
      + Shows(members[1..], width, m.start + m.bits)
  }

  /** Every bit of every member of fixed size is shown, at its own place and under its own name. */
  lemma {:induction false} BitShown(members: seq<Member>, width: nat, at: nat, i: nat, p: nat)
    requires width > 0 && InOrder(members, at) && i < |members| && members[i].fixed
    requires members[i].start <= p < members[i].start + members[i].bits
    ensures at <= p && p - at < |Shows(members, width, at)|
    ensures var m := members[i];
            Shows(members, width, at)[p - at] ==
            if WholeRows(m, width) then m.name else LabelAt(m.start, m.bits, m.name, width, p)
    decreases |members|
  {
    hide LabelAt, MemberLabels, OwnLabels, WholeRows;
    var m := members[0];
    var gap, own := MemberLabels(at, m.start - at, "unused", width, at, m.start), OwnLabels(m, width);
    var rest := Shows(members[1..], width, m.start + m.bits);
    if i > 0 {
      BitShown(members[1..], width, m.start + m.bits, i - 1, p);
      assert members[1..][i - 1] == members[i];
      OwnLength(m, width);
      assert (gap + own + rest)[p - at] == rest[p - (m.start + m.bits)];
    } else {
      OwnBit(m, width, p);
      assert (gap + own + rest)[p - at] == own[p - m.start];
    }
  }

  lemma OwnLength(m: Member, width: nat)
    requires width > 0
    ensures |OwnLabels(m, width)| == if m.fixed then m.bits else 0
  {
  }

  lemma OwnBit(m: Member, width: nat, p: nat)
    requires width > 0 && m.fixed && m.start <= p < m.start + m.bits
    ensures |OwnLabels(m, width)| == m.bits
    ensures OwnLabels(m, width)[p - m.start] == if WholeRows(m, width) then m.name else LabelAt(m.start, m.bits, m.name, width, p)
  {
    hide LabelAt;
  }

  /** What fills the last row: blank, or the name of a member of no fixed size that starts in it. */
  function Filler(members: seq<Member>): string {
    if members != [] && !members[|members| - 1].fixed then members[|members| - 1].name else ""
  }

  /** The picture, when members from `i` on are still to be drawn. */
  ghost predicate Drawn(canvas: Canvas, members: seq<Member>, i: nat, at: nat)
    requires i <= |members| && InOrder(members, 0)
    reads canvas
  {
    && canvas.Valid() && InOrder(members[i..], at) && Total(canvas.row) == at % canvas.width
    && Shows(members, canvas.width, 0) == canvas.Shown() + Shows(members[i..], canvas.width, at)
  }

  /** The picture, when a member of no fixed size has ended it. */
  ghost predicate Ended(canvas: Canvas, members: seq<Member>, spare: nat)
    requires members != [] && InOrder(members, 0)
    reads canvas
  {
    var name := members[|members| - 1].name;
    && canvas.Valid() && canvas.row == [] && canvas.blocks != [] && canvas.blocks[|canvas.blocks| - 1] == Open(name)
    && spare < canvas.width && canvas.Shown() == Shows(members, canvas.width, 0) + Same(name, spare)
  }

  lemma OneMore(members: seq<Member>, i: nat, at: nat, width: nat, shown: seq<string>)
    requires width > 0 && i < |members| && InOrder(members, 0) && InOrder(members[i..], at)
    requires Shows(members, width, 0) == shown + Shows(members[i..], width, at)
    ensures var m := members[i];
            && m.start >= at && (!m.fixed ==> i == |members| - 1) && InOrder(members[i + 1..], m.start + m.bits)
            && Shows(members, width, 0) ==
               shown + MemberLabels(at, m.start - at, "unused", width, at, m.start) + OwnLabels(m, width)
               + Shows(members[i + 1..], width, m.start + m.bits)
            && (!m.fixed ==> Shows(members[i + 1..], width, m.start + m.bits) == [])
  {
    hide MemberLabels, OwnLabels;
    assert members[i..][0] == members[i] && members[i..][1..] == members[i + 1..];
    var m := members[i];
    var a, b, c := MemberLabels(at, m.start - at, "unused", width, at, m.start), OwnLabels(m, width),
                   Shows(members[i + 1..], width, m.start + m.bits);
  }

  lemma WideTotal(row: seq<Piece>)
    requires AllWide(row) && row != []
    ensures Total(row) > 0
  {
  }

  /** The gap before a member. */
  method DrawGap(canvas: Canvas, at: nat, start: nat)
    requires canvas.Valid() && at <= start && Total(canvas.row) == at % canvas.width
    modifies canvas
    ensures canvas.Valid() && Total(canvas.row) == start % canvas.width
    ensures canvas.Shown() == old(canvas.Shown()) + MemberLabels(at, start - at, "unused", canvas.width, at, start)
  {
    hide MemberLabels, Labels, RowLabels, Total;
    if start > at {
      canvas.Place(at, start - at, "unused");
    } else {
      assert canvas.Shown() + [] == canvas.Shown();
    }
  }

  /** A member of no fixed size takes the rest of the row it starts in. */
  method DrawOpen(canvas: Canvas, name: string) returns (ghost spare: nat)
    requires canvas.Valid()
    modifies canvas
    ensures canvas.Valid() && canvas.row == [] && canvas.blocks != [] && canvas.blocks[|canvas.blocks| - 1] == Open(name)
    ensures spare < canvas.width && canvas.Shown() == old(canvas.Shown()) + Same(name, spare)
  {
    hide Labels, RowLabels, Total, Lines;
    spare := 0;
    EmptyRow();
    ghost var shown := canvas.Shown();
    assert shown + Same(name, 0) == shown;
    var filled := Total(canvas.row);
    if canvas.row != [] {
      WideTotal(canvas.row);
      if filled < canvas.width {
        spare := canvas.width - filled;
        canvas.Append(canvas.width - filled, name);
      }
      assert Total(canvas.row) == canvas.width;
    }
    assert canvas.Shown() == shown + Same(name, spare);
    canvas.Flush();
    assert canvas.Shown() == shown + Same(name, spare);
    canvas.Extend(Open(name));
    assert canvas.Shown() == shown + Same(name, spare) + [];
  }

  /** A member of fixed size. */
  method DrawFixed(canvas: Canvas, m: Member)
    requires canvas.Valid() && m.fixed && Total(canvas.row) == m.start % canvas.width
    modifies canvas
    ensures canvas.Valid() && Total(canvas.row) == (m.start + m.bits) % canvas.width
    ensures canvas.Shown() == old(canvas.Shown()) + OwnLabels(m, canvas.width)
  {
    hide MemberLabels, Labels, RowLabels, Total, Lines;
    var width := canvas.width;
    EmptyRow();
    if WholeRows(m, width) {
      if canvas.row != [] { WideTotal(canvas.row); }
      canvas.Flush();
      canvas.Extend(Box(m.name, m.bits / width));
      WholeRowsEnd(m.start, m.bits, width);
    } else {
      canvas.Place(m.start, m.bits, m.name);
    }
  }

  lemma WholeRowsEnd(start: nat, bits: nat, width: nat)
    requires width > 0 && start % width == 0 && bits % width == 0
    ensures (start + bits) % width == 0 && bits / width * width == bits
  {
    var p, q := start / width, bits / width;
    assert (p + q) * width == p * width + q * width;
    RemainderIs(start + bits, width, p + q, 0);
  }

  /** The body of the loop over the members. */
  method DrawMember(canvas: Canvas, members: seq<Member>, i: nat, at: nat) returns (ghost spare: nat)
    requires i < |members| && InOrder(members, 0) && Drawn(canvas, members, i, at)
    modifies canvas
    ensures members[i].fixed ==> Drawn(canvas, members, i + 1, members[i].start + members[i].bits)
    ensures !members[i].fixed ==> i == |members| - 1 && Ended(canvas, members, spare)
  {
    hide MemberLabels, Labels, RowLabels, Total, Lines, Shows, Same, InOrder;
    var m := members[i];
    canvas.ValidWidth();
    OneMore(members, i, at, canvas.width, canvas.Shown());
    spare := 0;
    DrawGap(canvas, at, m.start);
    if !m.fixed {
      ghost var shown := canvas.Shown();
      assert shown + [] + [] == shown;
      spare := DrawOpen(canvas, m.name);
    } else {
      DrawFixed(canvas, m);
    }
  }

  /** `_diagram`, with the picture its lines are of. */
  method Draw(members: seq<Member>, width: nat, ruler: seq<string>) returns (lines: seq<string>, ghost picture: seq<Block>)
    requires width > 0 && InOrder(members, 0)
    ensures AllFull(picture, width)
    ensures lines == if members == [] then [] else ruler + [Rule(width)] + Lines(picture, width)
    ensures IsPicture(picture, members, width)
    ensures members != [] ==> |ruler| < |lines| && lines[..|ruler|] == ruler && AllLong(lines[|ruler|..], 2 * width + 1)
  {
    hide Labels, RowLabels, Total, Lines, Shows, Same, InOrder;
    picture := [];
    if members == [] {
      NoPicture(width);
      return [], [];
    }
    var canvas := new Canvas(width, ruler);
    var at: nat := 0;
    ghost var spare: nat := 0;
    for i := 0 to |members|
      invariant fresh(canvas) && canvas.width == width && canvas.header == ruler + [Rule(width)]
      invariant i < |members| || members[|members| - 1].fixed ==> Drawn(canvas, members, i, at)
      invariant i == |members| && !members[|members| - 1].fixed ==> Ended(canvas, members, spare)
    {
      spare := DrawMember(canvas, members, i, at);
      at := members[i].start + members[i].bits;
    }
    spare := Finish(canvas, members, at, spare);
    return canvas.lines, canvas.blocks;
  }

  /** The last `flush`. */
  method Finish(canvas: Canvas, members: seq<Member>, at: nat, ghost so: nat) returns (ghost spare: nat)
    requires members != [] && InOrder(members, 0)
    requires if members[|members| - 1].fixed then Drawn(canvas, members, |members|, at) else Ended(canvas, members, so)
    modifies canvas
    ensures canvas.Valid() && IsPicture(canvas.blocks, members, canvas.width)
  {
    hide Lines, Total;
    spare := so;
    EmptyRow();
    assert members[|members|..] == [];
    ghost var shown := canvas.Shown();
    if members[|members| - 1].fixed {
      assert shown + [] == shown;
      spare := if canvas.row == [] then 0 else canvas.width - Total(canvas.row);
      if canvas.row != [] { WideTotal(canvas.row); }
    }
    canvas.Flush();
    assert Labels(canvas.blocks, canvas.width) + [] == Labels(canvas.blocks, canvas.width);
    assert Labels(canvas.blocks, canvas.width) == Shows(members, canvas.width, 0) + Same(Filler(members), spare);
  }

  /** A picture shows every bit of the struct once, in order, and no more than the rest of one row; a
      member of no fixed size ends it. */
  ghost predicate IsPicture(picture: seq<Block>, members: seq<Member>, width: nat)
    requires width > 0 && InOrder(members, 0)
  {
    && (exists spare: nat :: spare < width && Labels(picture, width) == Shows(members, width, 0) + Same(Filler(members), spare))
    && (members != [] && !members[|members| - 1].fixed ==>
          picture != [] && picture[|picture| - 1] == Open(members[|members| - 1].name))
  }

  lemma NoPicture(width: nat)
    requires width > 0
    ensures IsPicture([], [], width)
  {
    var spare: nat := 0;
    assert spare < width && Labels([], width) == Shows([], width, 0) + Same(Filler([]), spare);
  }

}
