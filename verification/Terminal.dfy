/**
 One virtual terminal as a value: a grid of 16-bit cells, a cursor and a colour, and what
 printing does to them. Text is a sequence of nonzero bytes; byte 1 introduces a colour.
 */
module Terminal {
  import opened Memory

  type Cell = x: int | 0 <= x < 0x1_0000

  datatype Size = Size(w: nat, h: nat)

  predicate Proper(d: Size) { d.w >= 1 && d.h >= 1 }

  datatype Screen = Screen(x: nat, y: nat, color: Byte, mem: seq<Cell>)

  function Area(d: Size): nat { d.w * d.h }

  function Index(d: Size, x: nat, y: nat): nat { x + y * d.w }

  lemma IndexInside(d: Size, x: nat, y: nat)
    requires x < d.w && y < d.h
    ensures Index(d, x, y) < Area(d)
  {
    assert y * d.w + d.w == (y + 1) * d.w <= d.h * d.w;
  }

  /** The grid has the display's size and the cursor is inside it. */
  predicate Fits(d: Size, s: Screen)
  {
    Proper(d) && |s.mem| == Area(d) && s.x < d.w && s.y < d.h
  }

  const SET_COLOR: Byte := 1
  const BACKSPACE: Byte := 8
  const NEWLINE: Byte := 10
  const RETURN: Byte := 13

  // ---------- cells ----------

  /** The stored cell, `(color << 8) | ch` cut to 16 bits: `ch` is a signed char, so a byte
      above 127 is extended with ones, which swallow the colour. */
  function CellOf(color: Byte, ch: Byte): (c: Cell)
  {
    if ch < 0x80 then color * 0x100 + ch else 0xFF00 + ch
  }

  /** A stored cell always keeps its character, and its colour exactly when the character is
      7-bit or the colour is all ones already. */
  lemma CellKeeps(color: Byte, ch: Byte)
    ensures CellOf(color, ch) % 0x100 == ch
    ensures CellOf(color, ch) / 0x100 == color <==> ch < 0x80 || color == 0xFF
  {
  }

  // ---------- scrolling ----------

  function Zeros(n: nat): (z: seq<Cell>)
    ensures |z| == n && forall i :: 0 <= i < n ==> z[i] == 0
  {
    seq(n, _ => 0)
  }

  /** Words copied, and cells they cover, by the copying loop of `tty_scroll`. */
  function CopiedCells(d: Size): (n: nat)
    requires Proper(d)
  {
    2 * (d.w * (d.h - 1) / 2)
  }

  lemma CopyBounds(d: Size)
    requires Proper(d)
    ensures CopiedCells(d) + 2 * (d.w / 2) <= Area(d)
    ensures CopiedCells(d) <= 2 * (Area(d) / 2) <= Area(d)
  {
    assert d.w * d.h == d.w * (d.h - 1) + d.w;
    assert d.w * (d.h - 1) >= 0;
  }

  /** What `tty_scroll` leaves, for any width: cells move in pairs. */
  function Scrolled(d: Size, mem: seq<Cell>): (r: seq<Cell>)
    requires Proper(d) && |mem| == Area(d)
    ensures |r| == |mem|
  {
    CopyBounds(d);
    seq(|mem|, c requires 0 <= c < |mem| => ScrolledCell(mem, c, d.w * (d.h - 1) / 2, d.w / 2))
  }

  /** Cell `c` after `words` words are copied from `half` words further on and the rest zeroed. */
  function ScrolledCell(mem: seq<Cell>, c: nat, words: nat, half: nat): (r: Cell)
    requires c < |mem| && 2 * words + 2 * half <= |mem|
  {
    if c < 2 * words then mem[c + 2 * half] else if c < 2 * (|mem| / 2) then 0 else mem[c]
  }

  /** Every row up by one, and a last row of zeros. */
  function RowShift(d: Size, mem: seq<Cell>): (r: seq<Cell>)
    requires Proper(d) && |mem| == Area(d)
    ensures |r| == |mem|
  {
    CopyBounds(d);
    assert d.w * d.h >= d.w by { assert d.w * (d.h - 1) >= 0; }
    mem[d.w..] + Zeros(d.w)
  }

  /** Scrolling is a row shift for every content exactly when the width is even. */
  lemma ScrollIsRowShift(d: Size)
    requires Proper(d)
    ensures (forall mem: seq<Cell> :: |mem| == Area(d) ==> Scrolled(d, mem) == RowShift(d, mem)) <==> d.w % 2 == 0
  {
    if d.w % 2 == 0 {
      forall mem: seq<Cell> | |mem| == Area(d) ensures Scrolled(d, mem) == RowShift(d, mem) {
        EvenScroll(d, mem);
      }
    } else {
      var mem := seq(Area(d), i requires 0 <= i < Area(d) => if i == d.w - 1 then 1 else 2);
      OddScroll(d, mem);
    }
  }

  lemma EvenScroll(d: Size, mem: seq<Cell>)
    requires Proper(d) && |mem| == Area(d) && d.w % 2 == 0
    ensures Scrolled(d, mem) == RowShift(d, mem)
  {
    var half := d.w / 2;
    assert d.w * (d.h - 1) == 2 * (half * (d.h - 1));
    assert d.w * d.h == 2 * (half * d.h);
    assert CopiedCells(d) == d.w * (d.h - 1);
    assert d.w * d.h == d.w * (d.h - 1) + d.w;
  }

  lemma OddScroll(d: Size, mem: seq<Cell>)
    requires Proper(d) && |mem| == Area(d) && d.w % 2 == 1
    requires forall i :: 0 <= i < |mem| ==> mem[i] == if i == d.w - 1 then 1 else 2
    ensures Scrolled(d, mem) != RowShift(d, mem)
  {
    CopyBounds(d);
    var p := d.w * (d.h - 1);
    assert Area(d) == p + d.w && CopiedCells(d) == 2 * (p / 2);
    assert forall c :: 0 <= c < |mem| ==> Scrolled(d, mem)[c] == ScrolledCell(mem, c, p / 2, d.w / 2);
    hide Scrolled;
    if d.h == 1 {
      assert p == 0;
      assert Scrolled(d, mem)[d.w - 1] == 1 && RowShift(d, mem)[d.w - 1] == 0;
    } else {
      assert p >= d.w && (p == 1 <==> d.w == 1 && d.h == 2) by { Rows(d); }
      hide Area, CopiedCells;
      assert Scrolled(d, mem)[0] == if p == 1 then 0 else 1;
      assert RowShift(d, mem)[0] == mem[d.w] == 2;
    }
  }

  lemma Rows(d: Size)
    requires d.w >= 1 && d.h >= 2
    ensures d.w * (d.h - 1) >= d.w && (d.w * (d.h - 1) == 1 <==> d.w == 1 && d.h == 2)
  {
    assert d.w * (d.h - 1) == d.w + d.w * (d.h - 2);
    assert d.w * (d.h - 2) >= 0;
    if d.w == 1 {
      assert d.w * (d.h - 1) == d.h - 1;
    }
  }

  // ---------- printing ----------

  function Scroll(d: Size, s: Screen): (r: Screen)
    requires Proper(d) && |s.mem| == Area(d)
  {
    s.(mem := Scrolled(d, s.mem))
  }

  function NewLine(d: Size, s: Screen): (r: Screen)
    requires Fits(d, s)
    ensures Fits(d, r)
  {
    var down := s.(x := 0, y := s.y + 1);
    if down.y >= d.h then Scroll(d, down).(y := d.h - 1) else down
  }

  function SetCell(d: Size, s: Screen, x: nat, y: nat, ch: Byte, color: Byte): (r: Screen)
    requires |s.mem| == Area(d) && x < d.w && y < d.h
    ensures |r.mem| == |s.mem| && r == s.(mem := r.mem)
  {
    IndexInside(d, x, y);
    s.(mem := s.mem[Index(d, x, y) := CellOf(color, ch)])
  }

  /** One cell in the colour given; a character above 127 swallows the colour. */
  lemma SetCellStores(d: Size, s: Screen, x: nat, y: nat, ch: Byte, color: Byte)
    requires Proper(d) && |s.mem| == Area(d) && x < d.w && y < d.h
    ensures var r, at := SetCell(d, s, x, y, ch, color), x + y * d.w;
            && r == s.(mem := r.mem) && |r.mem| == |s.mem| && at < |s.mem|
            && r.mem[at] == (if ch < 128 then color * 256 + ch else 65280 + ch)
            && forall c :: 0 <= c < |s.mem| && c != at ==> r.mem[c] == s.mem[c]
  {
    IndexInside(d, x, y);
    hide Area;
  }

  /** One byte of text that is not part of a colour escape. */
  function PrintByte(d: Size, s: Screen, ch: Byte): (r: Screen)
    requires Fits(d, s)
    ensures Fits(d, r)
  {
    if ch == NEWLINE then NewLine(d, s)
    else if ch == RETURN then s.(x := 0)
    else if ch == BACKSPACE then s.(x := if s.x > 0 then s.x - 1 else 0)
    else
      var put := SetCell(d, s, s.x, s.y, ch, s.color);
      if put.x + 1 >= d.w then NewLine(d, put) else put.(x := put.x + 1)
  }

  function Print(d: Size, s: Screen, text: seq<Byte>): (r: Screen)
    requires Fits(d, s)
    ensures Fits(d, r)
    decreases |text|
  {
    if text == [] then s
    else if text[0] == SET_COLOR then
      if |text| == 1 then s else Print(d, s.(color := text[1]), text[2..])
    else Print(d, PrintByte(d, s, text[0]), text[1..])
  }

  /** Bytes 8 and 13 only move the cursor. */
  lemma PrintedMotion(d: Size, s: Screen)
    requires Fits(d, s)
    ensures Print(d, s, [8]) == s.(x := if s.x == 0 then 0 else s.x - 1)
    ensures Print(d, s, [13]) == s.(x := 0)
  {
    PrintOne(d, s, 8);
    PrintOne(d, s, 13);
    hide Print;
  }

  /** Byte 10 goes to the start of the next row; on the last row, at even width, every row
      moves up by one and the last one is cleared. */
  lemma PrintedNewline(d: Size, s: Screen)
    requires Fits(d, s)
    ensures s.y + 1 < d.h ==> Print(d, s, [10]) == s.(x := 0, y := s.y + 1)
    ensures s.y + 1 == d.h && d.w % 2 == 0 ==>
              var r := Print(d, s, [10]);
              && r == s.(x := 0, mem := r.mem) && |r.mem| == |s.mem| >= d.w
              && forall c :: 0 <= c < |s.mem| ==>
                   r.mem[c] == if c < |s.mem| - d.w then s.mem[c + d.w] else 0
  {
    PrintOne(d, s, 10);
    hide Print, Scrolled;
    if s.y + 1 == d.h && d.w % 2 == 0 {
      EvenScroll(d, s.mem);
      RowShiftCells(d, s.mem);
    }
  }

  lemma RowShiftCells(d: Size, mem: seq<Cell>)
    requires Proper(d) && |mem| == Area(d)
    ensures |mem| >= d.w
    ensures forall c :: 0 <= c < |mem| ==> RowShift(d, mem)[c] == if c < |mem| - d.w then mem[c + d.w] else 0
  {
    hide Area;
    AreaHoldsRow(d);
  }

  lemma AreaHoldsRow(d: Size)
    requires Proper(d)
    ensures Area(d) >= d.w
  {
    assert d.w * d.h == d.w * (d.h - 1) + d.w;
    assert d.w * (d.h - 1) >= 0;
  }

  /** Any other byte but 1 is stored in the colour in use, and the cursor moves on: to the
      next column, or as for a newline after the last. */
  lemma PrintedCharacter(d: Size, s: Screen, ch: Byte)
    requires Fits(d, s) && ch != 1 && ch != 8 && ch != 10 && ch != 13
    ensures var put, at := s.(mem := SetCell(d, s, s.x, s.y, ch, s.color).mem), s.x + s.y * d.w;
            && at < |s.mem| == |put.mem|
            && put.mem[at] == (if ch < 128 then s.color * 256 + ch else 65280 + ch)
            && (forall c :: 0 <= c < |s.mem| && c != at ==> put.mem[c] == s.mem[c])
            && Print(d, s, [ch]) == if s.x + 1 < d.w then put.(x := s.x + 1) else Print(d, put, [10])
  {
    SetCellStores(d, s, s.x, s.y, ch, s.color);
    PrintOne(d, s, ch);
    PrintOne(d, s.(mem := SetCell(d, s, s.x, s.y, ch, s.color).mem), 10);
    hide Print, SetCell, NewLine;
  }

  /** After byte 1 the next byte is the colour; alone it means nothing. */
  lemma PrintedEscape(d: Size, s: Screen, color: Byte)
    requires Fits(d, s)
    ensures Print(d, s, [1, color]) == s.(color := color) && Print(d, s, [1]) == s
  {
    var text: seq<Byte> := [1, color];
    assert text[2..] == [];
  }

  lemma PrintOne(d: Size, s: Screen, ch: Byte)
    requires Fits(d, s) && ch != 1
    ensures Print(d, s, [ch]) == PrintByte(d, s, ch)
  {
    var text: seq<Byte> := [ch];
    assert text[1..] == [];
  }

  /** `tty_fill_color`: two cells a word, so a last odd cell keeps its content. */
  function FillCell(color: Byte): (c: Cell) { color * 0x100 + 0x20 }

  function FilledCell(mem: seq<Cell>, i: nat, color: Byte): (c: Cell)
    requires i < |mem|
  {
    if i < 2 * (|mem| / 2) then FillCell(color) else mem[i]
  }

  function Fill(d: Size, s: Screen, color: Byte): (r: Screen)
    requires Proper(d) && |s.mem| == Area(d)
    ensures |r.mem| == |s.mem|
  {
    s.(x := 0, y := 0,
       mem := seq(|s.mem|, i requires 0 <= i < |s.mem| => FilledCell(s.mem, i, color)))
  }

  /** The packed fill covers every cell exactly when the number of cells is even. */
  lemma FillCoversGrid(d: Size, color: Byte)
    requires Proper(d)
    ensures (forall s: Screen :: |s.mem| == Area(d) ==> Fill(d, s, color).mem == seq(Area(d), _ => FillCell(color)))
            <==> Area(d) % 2 == 0
  {
    if Area(d) % 2 == 1 {
      var s := Screen(0, 0, 0, Zeros(Area(d)));
      assert Fill(d, s, color).mem[Area(d) - 1] == 0;
      assert seq(Area(d), _ => FillCell(color))[Area(d) - 1] == FillCell(color);
    }
  }

  // ---------- printing in parts ----------

  /** The text ends in the middle of a colour escape. */
  predicate Unfinished(text: seq<Byte>)
    decreases |text|
  {
    if text == [] then false
    else if text[0] == SET_COLOR then |text| == 1 || Unfinished(text[2..])
    else Unfinished(text[1..])
  }

  lemma {:induction false} PrintAppend(d: Size, s: Screen, a: seq<Byte>, b: seq<Byte>)
    requires Fits(d, s) && !Unfinished(a)
    ensures Print(d, s, a + b) == Print(d, Print(d, s, a), b)
    decreases |a|
  {
    if a == [] {
      assert a + b == b;
    } else if a[0] == SET_COLOR {
      assert (a + b)[2..] == a[2..] + b && (a + b)[1] == a[1];
      PrintAppend(d, s.(color := a[1]), a[2..], b);
    } else {
      assert (a + b)[1..] == a[1..] + b;
      PrintAppend(d, PrintByte(d, s, a[0]), a[1..], b);
    }
  }

  /** After an unfinished escape the next byte is a colour, not a character. */
  lemma {:induction false} PrintAfterEscape(d: Size, s: Screen, a: seq<Byte>, c: Byte)
    requires Fits(d, s) && Unfinished(a)
    ensures Print(d, s, a + [c]) == Print(d, s, a).(color := c)
    decreases |a|
  {
    if a[0] == SET_COLOR {
      if |a| == 1 {
        assert (a + [c])[2..] == [];
      } else {
        assert (a + [c])[2..] == a[2..] + [c] && (a + [c])[1] == a[1];
        PrintAfterEscape(d, s.(color := a[1]), a[2..], c);
      }
    } else {
      assert (a + [c])[1..] == a[1..] + [c];
      PrintAfterEscape(d, PrintByte(d, s, a[0]), a[1..], c);
    }
  }

  /** Printing in two parts is printing the whole, for every screen and every second part,
      exactly when the first part does not end in an unfinished escape. */
  lemma PrintIsHomomorphism(d: Size, a: seq<Byte>)
    requires Proper(d)
    ensures (forall s: Screen, b: seq<Byte> :: Fits(d, s) ==> Print(d, s, a + b) == Print(d, Print(d, s, a), b))
            <==> !Unfinished(a)
  {
    if Unfinished(a) {
      assert Area(d) >= 1 by { IndexInside(d, 0, 0); }
      var s := Screen(0, 0, 7, Zeros(Area(d)));
      var after := Print(d, s, a);
      var c: Byte := if after.color == 65 then 66 else 65;
      PrintAfterEscape(d, s, a, c);
      assert Print(d, after, [c]) == PrintByte(d, after, c);
      assert PrintByte(d, after, c).color == after.color;
      assert Print(d, s, a + [c]).color == c;
    } else {
      forall s: Screen, b: seq<Byte> | Fits(d, s) ensures Print(d, s, a + b) == Print(d, Print(d, s, a), b) {
        PrintAppend(d, s, a, b);
      }
    }
  }
}
