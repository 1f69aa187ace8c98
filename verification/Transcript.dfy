/**
 The unbounded transcript that a terminal shows the end of: a list of lines that only
 grows, with no grid, no index arithmetic and no scrolling.
 */
module Transcript {
  import opened Memory
  import opened Terminal

  type Line = seq<Cell>

  datatype Transcript = Transcript(lines: seq<Line>, row: nat, col: nat, color: Byte)

  /** Lines are `w` cells long; the last `h` are on display, and the row in use is the last
      one as soon as any line has left the display. */
  ghost predicate Valid(d: Size, t: Transcript)
  {
    && Proper(d)
    && d.h <= |t.lines|
    && (forall i :: 0 <= i < |t.lines| ==> |t.lines[i]| == d.w)
    && t.row < |t.lines| && t.col < d.w
    && (|t.lines| > d.h ==> t.row == |t.lines| - 1)
  }

  function NextLine(d: Size, t: Transcript): (r: Transcript)
  {
    t.(lines := if t.row + 1 == |t.lines| then t.lines + [Zeros(d.w)] else t.lines,
       row := t.row + 1, col := 0)
  }

  function SetInLine(line: Line, x: nat, c: Cell): (r: Line)
    requires x < |line|
    ensures |r| == |line|
  {
    line[x := c]
  }

  function Put(t: Transcript, c: Cell): (r: Transcript)
    requires t.row < |t.lines| && t.col < |t.lines[t.row]|
  {
    t.(lines := t.lines[t.row := SetInLine(t.lines[t.row], t.col, c)])
  }

  function TypeByte(d: Size, t: Transcript, ch: Byte): (r: Transcript)
    requires Valid(d, t)
    ensures Valid(d, r)
  {
    if ch == NEWLINE then NextLine(d, t)
    else if ch == RETURN then t.(col := 0)
    else if ch == BACKSPACE then t.(col := if t.col > 0 then t.col - 1 else 0)
    else
      var put := Put(t, CellOf(t.color, ch));
      if t.col + 1 == d.w then NextLine(d, put) else put.(col := t.col + 1)
  }

  function Type(d: Size, t: Transcript, text: seq<Byte>): (r: Transcript)
    requires Valid(d, t)
    ensures Valid(d, r)
    decreases |text|
  {
    if text == [] then t
    else if text[0] == SET_COLOR then
      if |text| == 1 then t else Type(d, t.(color := text[1]), text[2..])
    else Type(d, TypeByte(d, t, text[0]), text[1..])
  }

  /** A filled display: `h` lines of coloured spaces and the cursor at the first cell. */
  function Blank(d: Size, fill: Byte, color: Byte): (t: Transcript)
    requires Proper(d)
    ensures Valid(d, t)
  {
    Transcript(seq(d.h, _ => seq(d.w, _ => FillCell(fill))), 0, 0, color)
  }

  // ---------- lines laid end to end ----------

  function Flatten(lines: seq<Line>): (cells: seq<Cell>)
  {
    if lines == [] then [] else lines[0] + Flatten(lines[1..])
  }

  ghost predicate Rectangular(w: nat, lines: seq<Line>)
  {
    forall i :: 0 <= i < |lines| ==> |lines[i]| == w
  }

  lemma {:induction false} FlattenLength(w: nat, lines: seq<Line>)
    requires Rectangular(w, lines)
    ensures |Flatten(lines)| == |lines| * w
  {
    if lines != [] {
      FlattenLength(w, lines[1..]);
      assert |lines| * w == w + (|lines| - 1) * w;
    }
  }

  lemma {:induction false} FlattenAppend(lines: seq<Line>, line: Line)
    ensures Flatten(lines + [line]) == Flatten(lines) + line
  {
    if lines == [] {
      assert Flatten([line]) == line + Flatten([]);
    } else {
      assert (lines + [line])[1..] == lines[1..] + [line];
      FlattenAppend(lines[1..], line);
    }
  }

  lemma UpdateRight(a: seq<Cell>, b: seq<Cell>, i: nat, c: Cell)
    requires i < |b|
    ensures (a + b)[|a| + i := c] == a + b[i := c]
  {
  }

  lemma UpdateLeft(a: seq<Cell>, b: seq<Cell>, i: nat, c: Cell)
    requires i < |a|
    ensures (a + b)[i := c] == a[i := c] + b
  {
  }

  lemma RowBelow(w: nat, y: nat)
    requires y >= 1
    ensures y * w == w + (y - 1) * w
  {
  }

  lemma {:induction false} FlattenUpdate(w: nat, lines: seq<Line>, y: nat, x: nat, c: Cell)
    requires Rectangular(w, lines) && y < |lines| && x < w
    ensures x + y * w < |Flatten(lines)|
    ensures Flatten(lines[y := SetInLine(lines[y], x, c)]) == Flatten(lines)[x + y * w := c]
  {
    var updated, rest := lines[y := SetInLine(lines[y], x, c)], Flatten(lines[1..]);
    assert Flatten(lines) == lines[0] + rest;
    assert Flatten(updated) == updated[0] + Flatten(updated[1..]);
    if y == 0 {
      assert updated[1..] == lines[1..];
      UpdateLeft(lines[0], rest, x, c);
    } else {
      assert updated[1..] == lines[1..][y - 1 := SetInLine(lines[1..][y - 1], x, c)];
      FlattenUpdate(w, lines[1..], y - 1, x, c);
      RowBelow(w, y);
      UpdateRight(lines[0], rest, x + (y - 1) * w, c);
    }
  }

  lemma {:induction false} FlattenUniform(w: nat, h: nat, c: Cell)
    ensures Flatten(seq(h, _ => seq(w, _ => c))) == seq(h * w, _ => c)
  {
    if h > 0 {
      var lines: seq<Line> := seq(h, _ => seq(w, _ => c));
      assert lines[1..] == seq(h - 1, _ => seq(w, _ => c));
      FlattenUniform(w, h - 1, c);
      assert h * w == w + (h - 1) * w;
    }
  }

  // ---------- the terminal shows the last lines of the transcript ----------

  function Shown(d: Size, t: Transcript): (lines: seq<Line>)
    requires Valid(d, t)
    ensures |lines| == d.h
  {
    t.lines[|t.lines| - d.h..]
  }

  /** The screen that a transcript stands for. */
  function Render(d: Size, t: Transcript): (s: Screen)
    requires Valid(d, t)
    ensures Fits(d, s)
  {
    FlattenLength(d.w, Shown(d, t));
    Screen(t.col, t.row - (|t.lines| - d.h), t.color, Flatten(Shown(d, t)))
  }

  lemma RenderNextLine(d: Size, t: Transcript)
    requires Valid(d, t) && d.w % 2 == 0
    ensures Valid(d, NextLine(d, t)) && Render(d, NextLine(d, t)) == NewLine(d, Render(d, t))
  {
    var s, next := Render(d, t), NextLine(d, t);
    if t.row + 1 == |t.lines| {
      var shown := Shown(d, t);
      assert Shown(d, next) == shown[1..] + [Zeros(d.w)];
      FlattenAppend(shown[1..], Zeros(d.w));
      assert Flatten(shown) == shown[0] + Flatten(shown[1..]);
      EvenScroll(d, s.mem);
      assert Flatten(Shown(d, next)) == RowShift(d, s.mem);
    }
  }

  lemma RenderPut(d: Size, t: Transcript, ch: Byte)
    requires Valid(d, t)
    ensures var s, put := Render(d, t), Put(t, CellOf(t.color, ch));
            Valid(d, put) && Render(d, put) == SetCell(d, s, s.x, s.y, ch, s.color)
  {
    var c := CellOf(t.color, ch);
    hide CellOf, Flatten;
    var put, shown, y := Put(t, c), Shown(d, t), t.row - (|t.lines| - d.h);
    FlattenUpdate(d.w, shown, y, t.col, c);
    assert Shown(d, put) == shown[y := SetInLine(shown[y], t.col, c)];
    hide SetInLine;
  }

  lemma RenderByte(d: Size, t: Transcript, ch: Byte)
    requires Valid(d, t) && d.w % 2 == 0
    ensures Render(d, TypeByte(d, t, ch)) == PrintByte(d, Render(d, t), ch)
  {
    hide Flatten, Put, SetCell, NextLine, NewLine, CellOf;
    var typed := TypeByte(d, t, ch);
    if ch == NEWLINE {
      RenderNextLine(d, t);
    } else if ch == RETURN || ch == BACKSPACE {
      assert Shown(d, typed) == Shown(d, t);
    } else {
      var put := Put(t, CellOf(t.color, ch));
      RenderPut(d, t, ch);
      PutKeepsCursor(t, CellOf(t.color, ch));
      if t.col + 1 == d.w {
        RenderNextLine(d, put);
      } else {
        assert Shown(d, typed) == Shown(d, put);
      }
    }
  }

  lemma PutKeepsCursor(t: Transcript, c: Cell)
    requires t.row < |t.lines| && t.col < |t.lines[t.row]|
    ensures Put(t, c) == t.(lines := Put(t, c).lines)
  {
  }

  lemma RenderColor(d: Size, t: Transcript, c: Byte)
    requires Valid(d, t)
    ensures Valid(d, t.(color := c)) && Render(d, t.(color := c)) == Render(d, t).(color := c)
    ensures Render(d, t).color == t.color
  {
    hide Flatten;
  }

  /** On a display of even width, printing any text shows the last `h` lines of the
      transcript, its cursor and its colour. */
  lemma {:induction false} PrintShowsTranscript(d: Size, t: Transcript, text: seq<Byte>)
    requires Valid(d, t) && d.w % 2 == 0
    ensures Print(d, Render(d, t), text) == Render(d, Type(d, t, text))
    decreases |text|
  {
    hide Valid, Fits, Render, TypeByte, PrintByte;
    if text == [] {
    } else if text[0] == SET_COLOR {
      if |text| > 1 {
        RenderColor(d, t, text[1]);
        PrintShowsTranscript(d, t.(color := text[1]), text[2..]);
      }
    } else {
      RenderByte(d, t, text[0]);
      PrintShowsTranscript(d, TypeByte(d, t, text[0]), text[1..]);
    }
  }

  /** Text printed in any number of pieces, after a fill. */
  function TypeAll(d: Size, t: Transcript, texts: seq<seq<Byte>>): (r: Transcript)
    requires Valid(d, t)
    ensures Valid(d, r)
    decreases |texts|
  {
    if texts == [] then t else TypeAll(d, Type(d, t, texts[0]), texts[1..])
  }

  function PrintAll(d: Size, s: Screen, texts: seq<seq<Byte>>): (r: Screen)
    requires Fits(d, s)
    ensures Fits(d, r)
    decreases |texts|
  {
    if texts == [] then s else PrintAll(d, Print(d, s, texts[0]), texts[1..])
  }

  lemma {:induction false} PrintAllShowsTranscript(d: Size, t: Transcript, texts: seq<seq<Byte>>)
    requires Valid(d, t) && d.w % 2 == 0
    ensures PrintAll(d, Render(d, t), texts) == Render(d, TypeAll(d, t, texts))
    decreases |texts|
  {
    if texts != [] {
      PrintShowsTranscript(d, t, texts[0]);
      PrintAllShowsTranscript(d, Type(d, t, texts[0]), texts[1..]);
    }
  }

  /** Whatever was on a terminal before, after a fill every sequence of prints shows the end
      of one transcript that starts blank. */
  lemma FillThenPrint(d: Size, s: Screen, fill: Byte, texts: seq<seq<Byte>>)
    requires Proper(d) && |s.mem| == Area(d) && d.w % 2 == 0
    ensures Fits(d, Fill(d, s, fill))
    ensures PrintAll(d, Fill(d, s, fill), texts) == Render(d, TypeAll(d, Blank(d, fill, s.color), texts))
  {
    BlankShowsFill(d, s, fill);
    hide *;
    PrintAllShowsTranscript(d, Blank(d, fill, s.color), texts);
  }

  lemma BlankShowsFill(d: Size, s: Screen, fill: Byte)
    requires Proper(d) && |s.mem| == Area(d) && d.w % 2 == 0
    ensures Fits(d, Fill(d, s, fill)) && Render(d, Blank(d, fill, s.color)) == Fill(d, s, fill)
  {
    IndexInside(d, 0, 0);
    var t := Blank(d, fill, s.color);
    FlattenUniform(d.w, d.h, FillCell(fill));
    assert Shown(d, t) == seq(d.h, _ => seq(d.w, _ => FillCell(fill)));
    hide Flatten, FillCell;
    EvenArea(d);
    assert Fill(d, s, fill).mem == seq(d.h * d.w, _ => FillCell(fill));
  }

  lemma EvenArea(d: Size)
    requires d.w % 2 == 0
    ensures Area(d) == d.h * d.w && Area(d) % 2 == 0
  {
    assert d.w * d.h == 2 * (d.w / 2 * d.h);
  }

  /** Lines above the one in use never change again. */
  lemma {:induction false} HistoryIsFixed(d: Size, t: Transcript, text: seq<Byte>)
    requires Valid(d, t)
    ensures var r := Type(d, t, text);
            |t.lines| <= |r.lines| && t.row <= r.row && r.lines[..t.row] == t.lines[..t.row]
    decreases |text|
  {
    if text == [] {
    } else if text[0] == SET_COLOR {
      if |text| > 1 {
        HistoryIsFixed(d, t.(color := text[1]), text[2..]);
      }
    } else {
      var u := TypeByte(d, t, text[0]);
      HistoryIsFixed(d, u, text[1..]);
      var r := Type(d, u, text[1..]);
      assert r.lines[..t.row] == r.lines[..u.row][..t.row];
      assert u.lines[..t.row] == t.lines[..t.row];
    }
  }
}
