/** `kprint_ok_fail`: a message with `[OK]` or `[FAIL]` at the right edge of its row. */
module StatusLine {
  import opened Memory
  import opened Terminal
  import opened Transcript

  const OPEN: Byte := 0x5B
  const CLOSE: Byte := 0x5D
  const SPACE: Byte := 0x20
  const DEFAULT_COLOR: Byte := 7

  function Letters(ok: bool): (w: seq<Byte>)
  {
    if ok then [0x4F, 0x4B] else [0x46, 0x41, 0x49, 0x4C]
  }

  function WordColor(ok: bool): (c: Byte) { if ok then 2 else 4 }

  /** The bytes printed for the tag, with its colour escapes. */
  function Tag(ok: bool): (text: seq<Byte>)
  {
    [OPEN, SET_COLOR, WordColor(ok)] + Letters(ok) + [SET_COLOR, DEFAULT_COLOR, CLOSE]
  }

  /** The columns the tag takes. */
  function TagLength(ok: bool): (n: nat)
    ensures n == |Letters(ok)| + 2
  {
    if ok then 4 else 6
  }

  function Spaces(n: nat): (text: seq<Byte>)
    ensures |text| == n && forall i :: 0 <= i < n ==> text[i] == SPACE
  {
    seq(n, _ => SPACE)
  }

  /** The loop bound `tty_width - len - ok_length`, in 32-bit unsigned arithmetic. */
  function Padding(w: nat, len: nat, ok: bool): (n: nat)
  {
    (w - len - TagLength(ok)) % 0x1_0000_0000
  }

  /** The loop's 8-bit counter after `n` turns. */
  function Counter(n: nat): (i: nat) { n % 0x100 }

  /** The padding loop ends, for whatever turn, exactly when the bound is below 256. */
  lemma PaddingEnds(bound: nat)
    ensures (exists n: nat :: Counter(n) >= bound) <==> bound <= 0xFF
  {
    if bound <= 0xFF {
      assert Counter(0xFF) >= bound;
    }
  }

  /** For a message that fits its row with the tag, the bound is the gap that is left. */
  lemma PaddingIsGap(w: nat, len: nat, ok: bool)
    requires w < 0x1_0000_0000 && len < 0x1_0000_0000
    ensures len + TagLength(ok) <= w ==> Padding(w, len, ok) == w - len - TagLength(ok)
    ensures w < len + TagLength(ok) <= w + 0x1_0000_0000 - 0x100 ==> Padding(w, len, ok) > 0xFF
  {
    var gap := w - len - TagLength(ok);
    if gap < 0 && gap + 0x1_0000_0000 >= 0 {
      assert gap % 0x1_0000_0000 == gap + 0x1_0000_0000;
    }
  }

  predicate Plain(text: seq<Byte>)
  {
    forall i :: 0 <= i < |text| ==> text[i] !in {SET_COLOR, BACKSPACE, NEWLINE, RETURN}
  }

  function Cells(color: Byte, text: seq<Byte>): (cells: seq<Cell>)
    ensures |cells| == |text|
  {
    seq(|text|, i requires 0 <= i < |text| => CellOf(color, text[i]))
  }

  /** A line with `cells` written over it from column `col` on. */
  function Overwrite(line: Line, col: nat, cells: seq<Cell>): (r: Line)
    requires col + |cells| <= |line|
    ensures |r| == |line|
  {
    line[..col] + cells + line[col + |cells|..]
  }

  /** A transcript with plain text written from the cursor on, clear of the right edge. */
  function Written(t: Transcript, text: seq<Byte>): (r: Transcript)
    requires t.row < |t.lines| && t.col + |text| <= |t.lines[t.row]|
  {
    t.(lines := t.lines[t.row := Overwrite(t.lines[t.row], t.col, Cells(t.color, text))], col := t.col + |text|)
  }

  lemma {:induction false} TypeAppend(d: Size, t: Transcript, a: seq<Byte>, b: seq<Byte>)
    requires Valid(d, t) && !Unfinished(a)
    ensures Type(d, t, a + b) == Type(d, Type(d, t, a), b)
    decreases |a|
  {
    if a == [] {
      assert a + b == b;
    } else if a[0] == SET_COLOR {
      assert (a + b)[2..] == a[2..] + b && (a + b)[1] == a[1];
      TypeAppend(d, t.(color := a[1]), a[2..], b);
    } else {
      assert (a + b)[1..] == a[1..] + b;
      TypeAppend(d, TypeByte(d, t, a[0]), a[1..], b);
    }
  }

  lemma {:induction false} PlainIsFinished(text: seq<Byte>)
    requires Plain(text)
    ensures !Unfinished(text)
  {
    if text != [] {
      PlainIsFinished(text[1..]);
    }
  }

  /** Plain text that stays clear of the right edge only overwrites cells of its line. */
  lemma {:induction false} TypePlain(d: Size, t: Transcript, text: seq<Byte>)
    requires Valid(d, t) && Plain(text) && t.col + |text| < d.w
    ensures Valid(d, Written(t, text)) && Type(d, t, text) == Written(t, text)
    ensures Type(d, t, text).color == t.color
    decreases |text|
  {
    if text == [] {
      assert Overwrite(t.lines[t.row], t.col, Cells(t.color, text)) == t.lines[t.row];
    } else {
      var u := TypeByte(d, t, text[0]);
      assert u.color == t.color && u.row == t.row && u.col == t.col + 1;
      OverwriteTurn(t.lines[t.row], t.col, CellOf(t.color, text[0]), Cells(t.color, text[1..]));
      assert Cells(t.color, text) == [CellOf(t.color, text[0])] + Cells(t.color, text[1..]);
      hide CellOf, Cells, Overwrite;
      TypePlain(d, u, text[1..]);
    }
  }

  lemma OverwriteTurn(line: Line, col: nat, c: Cell, rest: seq<Cell>)
    requires col + 1 + |rest| <= |line|
    ensures Overwrite(SetInLine(line, col, c), col + 1, rest) == Overwrite(line, col, [c] + rest)
  {
  }

  /** The cells of a status row. */
  function Row(d: Size, color: Byte, text: seq<Byte>, ok: bool): (line: Line)
    requires |text| + TagLength(ok) <= d.w
    ensures |line| == d.w
  {
    Cells(color, text + Spaces(d.w - |text| - TagLength(ok)) + [OPEN]) + Cells(WordColor(ok), Letters(ok))
    + Cells(DEFAULT_COLOR, [CLOSE])
  }

  /** The row in numbers: the message and the spaces in the terminal's colour, then `[`, the
      green OK or the red FAIL, and `]` in light grey. */
  lemma RowCells(d: Size, color: Byte, text: seq<Byte>, ok: bool)
    requires |text| + TagLength(ok) <= d.w
    ensures var row, w, back: int := Row(d, color, text, ok), d.w, color;
            && (forall i :: 0 <= i < |text| && text[i] < 128 ==> row[i] == back * 256 + text[i])
            && (ok ==>
                  && w - |text| >= 4 && (forall i :: |text| <= i < w - 4 ==> row[i] == back * 256 + 0x20)
                  && row[w - 4] == back * 256 + 0x5B
                  && row[w - 3] == 0x24F && row[w - 2] == 0x24B && row[w - 1] == 0x75D)
            && (!ok ==>
                  && w - |text| >= 6 && (forall i :: |text| <= i < w - 6 ==> row[i] == back * 256 + 0x20)
                  && row[w - 6] == back * 256 + 0x5B
                  && row[w - 5] == 0x446 && row[w - 4] == 0x441 && row[w - 3] == 0x449 && row[w - 2] == 0x44C
                  && row[w - 1] == 0x75D)
  {
  }

  /** All that the routine prints. */
  function StatusText(d: Size, text: seq<Byte>, ok: bool): (all: seq<Byte>)
    requires |text| + TagLength(ok) <= d.w
  {
    text + Spaces(d.w - |text| - TagLength(ok)) + Tag(ok)
  }

  /** From column 0 the message fills exactly its row, tag flush right, and moves to the
      start of the next one; with the colour put back, nothing else changes. */
  lemma StatusFillsRow(d: Size, t: Transcript, text: seq<Byte>, ok: bool)
    requires Valid(d, t) && t.col == 0 && Plain(text) && |text| + TagLength(ok) <= d.w
    ensures Type(d, t, StatusText(d, text, ok)).(color := t.color) ==
            NextLine(d, t.(lines := t.lines[t.row := Row(d, t.color, text, ok)]))
  {
    var lead := text + Spaces(d.w - |text| - TagLength(ok)) + [OPEN];
    assert Plain(lead) && Plain(Letters(ok));
    TypeParts(d, t, lead, Letters(ok), WordColor(ok));
    StatusTextParts(d, text, ok);
    var a, b := Cells(t.color, lead), Cells(WordColor(ok), Letters(ok));
    LineOfParts(t.lines[t.row], a, b, CellOf(DEFAULT_COLOR, CLOSE));
    CloseAtEdge(d, t, lead, Letters(ok), WordColor(ok));
    assert Row(d, t.color, text, ok) == a + b + [CellOf(DEFAULT_COLOR, CLOSE)];
    hide Type, Written, TypeByte, NextLine, Overwrite, Row, StatusText, Cells, Letters, SetInLine, Parts;
  }

  lemma StatusTextParts(d: Size, text: seq<Byte>, ok: bool)
    requires |text| + TagLength(ok) <= d.w
    ensures StatusText(d, text, ok) ==
            Parts(text + Spaces(d.w - |text| - TagLength(ok)) + [OPEN], Letters(ok), WordColor(ok))
  {
    hide Spaces, Letters;
  }

  lemma LineOfParts(line: Line, a: seq<Cell>, b: seq<Cell>, c: Cell)
    requires |a| + |b| + 1 == |line|
    ensures SetInLine(Overwrite(Overwrite(line, 0, a), |a|, b), |line| - 1, c) == a + b + [c]
  {
  }

  /** The last character of the tag falls on the last column, so the cursor moves on. */
  lemma CloseAtEdge(d: Size, t: Transcript, lead: seq<Byte>, word: seq<Byte>, color: Byte)
    requires Valid(d, t) && t.col == 0 && |lead| + |word| + 1 == d.w
    ensures var line := Overwrite(Overwrite(t.lines[t.row], 0, Cells(t.color, lead)), |lead|, Cells(color, word));
            var t4 := Written(Written(t, lead).(color := color), word).(color := DEFAULT_COLOR);
            && Valid(d, t4)
            && TypeByte(d, t4, CLOSE).(color := t.color) ==
               NextLine(d, t.(lines := t.lines[t.row := SetInLine(line, d.w - 1, CellOf(DEFAULT_COLOR, CLOSE))]))
  {
    hide Cells, Overwrite, SetInLine, CellOf;
  }

  function Parts(lead: seq<Byte>, word: seq<Byte>, color: Byte): (text: seq<Byte>)
  {
    lead + ([SET_COLOR, color] + (word + ([SET_COLOR, DEFAULT_COLOR] + [CLOSE])))
  }

  lemma TypeParts(d: Size, t: Transcript, lead: seq<Byte>, word: seq<Byte>, color: Byte)
    requires Valid(d, t) && Plain(lead) && Plain(word) && t.col + |lead| + |word| < d.w
    ensures var t2 := Written(t, lead).(color := color);
            var t4 := Written(t2, word).(color := DEFAULT_COLOR);
            Valid(d, t4) && Type(d, t, Parts(lead, word, color)) == TypeByte(d, t4, CLOSE)
  {
    var close := [SET_COLOR, DEFAULT_COLOR] + [CLOSE];
    PlainIsFinished(lead);
    PlainIsFinished(word);
    TypePlain(d, t, lead);
    var t1 := Written(t, lead);
    TypePlain(d, t1.(color := color), word);
    var t3 := Written(t1.(color := color), word);
    TypeOne(d, t3.(color := DEFAULT_COLOR));
    hide Type, Written, TypeByte;
    TypeAppend(d, t, lead, [SET_COLOR, color] + (word + close));
    TypeEscape(d, t1, color, word + close);
    TypeAppend(d, t1.(color := color), word, close);
    TypeEscape(d, t3, DEFAULT_COLOR, [CLOSE]);
  }

  lemma TypeOne(d: Size, t: Transcript)
    requires Valid(d, t)
    ensures Type(d, t, [CLOSE]) == TypeByte(d, t, CLOSE)
  {
  }

  lemma TypeEscape(d: Size, t: Transcript, color: Byte, text: seq<Byte>)
    requires Valid(d, t)
    ensures Type(d, t, [SET_COLOR, color] + text) == Type(d, t.(color := color), text)
  {
    assert ([SET_COLOR, color] + text)[2..] == text;
  }
}
