/**
 The eight virtual terminals together with the display device, which learns of the current
 terminal's changes only through the driver's callbacks. Each function below is one routine
 of the terminal layer on the whole state; `Tty.Console` runs them in place.
 */
module Console {
  import opened Memory
  import opened Terminal
  import opened Transcript
  import opened StatusLine

  const TTY_COUNT: nat := 8

  /** `shadow` and `cursor` are what the device shows. */
  datatype State = State(screens: seq<Screen>, current: nat, shadow: seq<Cell>, cursor: (nat, nat))

  /** Eight grids of the display's size. Between two statements of a newline the cursor may
      stand one row below its grid. */
  predicate Shaped(d: Size, st: State)
  {
    && Proper(d) && |st.screens| == TTY_COUNT && st.current < TTY_COUNT
    && |st.shadow| == Area(d)
    && forall i :: 0 <= i < TTY_COUNT ==> |st.screens[i].mem| == Area(d)
  }

  predicate Sound(d: Size, st: State)
  {
    Shaped(d, st) && forall i :: 0 <= i < TTY_COUNT ==> Fits(d, st.screens[i])
  }

  function With(st: State, k: nat, s: Screen): (r: State)
    requires k < |st.screens|
    ensures |r.screens| == |st.screens| && r == st.(screens := r.screens)
  {
    st.(screens := st.screens[k := s])
  }

  function Position(s: Screen): (nat, nat) { (s.x, s.y) }

  /** `update_cursor_location`, called when terminal `k` is the current one. */
  function MoveCursor(st: State, k: nat): (r: State)
    requires k < |st.screens|
  {
    if k == st.current then st.(cursor := Position(st.screens[k])) else st
  }

  /** `rerender`, then the cursor, for the current terminal. */
  function Rerender(st: State, k: nat): (r: State)
    requires k < |st.screens|
  {
    if k == st.current then MoveCursor(st.(shadow := st.screens[k].mem), k) else st
  }

  function ScrollOn(d: Size, st: State, k: nat): (r: State)
    requires Shaped(d, st) && k < TTY_COUNT
    ensures Shaped(d, r)
  {
    Rerender(With(st, k, Scroll(d, st.screens[k])), k)
  }

  function NewLineOn(d: Size, st: State, k: nat): (r: State)
    requires Shaped(d, st) && k < TTY_COUNT
    ensures Shaped(d, r)
  {
    var down := st.screens[k].(x := 0, y := st.screens[k].y + 1);
    var moved := With(st, k, down);
    if down.y >= d.h then
      var scrolled := ScrollOn(d, moved, k);
      With(scrolled, k, scrolled.screens[k].(y := d.h - 1))
    else moved
  }

  /** The device draws the character it is told, in the colour it is told. */
  function Drawn(color: Byte, ch: Byte): (c: Cell) { color * 0x100 + ch }

  function SetCharOn(d: Size, st: State, k: nat, x: nat, y: nat, ch: Byte, color: Byte): (r: State)
    requires Shaped(d, st) && k < TTY_COUNT && x < d.w && y < d.h
    ensures Shaped(d, r)
  {
    IndexInside(d, x, y);
    var put := With(st, k, SetCell(d, st.screens[k], x, y, ch, color));
    if k == st.current then put.(shadow := st.shadow[Index(d, x, y) := Drawn(color, ch)]) else put
  }

  function ByteOn(d: Size, st: State, k: nat, ch: Byte): (r: State)
    requires Shaped(d, st) && k < TTY_COUNT && Fits(d, st.screens[k])
    ensures Shaped(d, r)
  {
    var s := st.screens[k];
    if ch == NEWLINE then NewLineOn(d, st, k)
    else if ch == RETURN then With(st, k, s.(x := 0))
    else if ch == BACKSPACE then With(st, k, s.(x := if s.x > 0 then s.x - 1 else 0))
    else
      var put := SetCharOn(d, st, k, s.x, s.y, ch, s.color);
      var next := With(put, k, put.screens[k].(x := s.x + 1));
      if s.x + 1 >= d.w then NewLineOn(d, next, k) else next
  }

  lemma ByteOnScreen(d: Size, st: State, k: nat, ch: Byte)
    requires Shaped(d, st) && k < TTY_COUNT && Fits(d, st.screens[k])
    ensures var r := ByteOn(d, st, k, ch);
            && r.screens == st.screens[k := PrintByte(d, st.screens[k], ch)]
            && r.current == st.current
            && (k != st.current ==> r.shadow == st.shadow && r.cursor == st.cursor)
  {
  }

  function BytesOn(d: Size, st: State, k: nat, text: seq<Byte>): (r: State)
    requires Shaped(d, st) && k < TTY_COUNT && Fits(d, st.screens[k])
    ensures Shaped(d, r)
    decreases |text|
  {
    if text == [] then st
    else if text[0] == SET_COLOR then
      if |text| == 1 then st else BytesOn(d, With(st, k, st.screens[k].(color := text[1])), k, text[2..])
    else
      ByteOnScreen(d, st, k, text[0]);
      BytesOn(d, ByteOn(d, st, k, text[0]), k, text[1..])
  }

  /** One turn of the printing loop. */
  lemma BytesTurn(d: Size, st: State, k: nat, text: seq<Byte>)
    requires Shaped(d, st) && k < TTY_COUNT && Fits(d, st.screens[k])
    ensures text == [] || (text[0] == SET_COLOR && |text| == 1) ==> BytesOn(d, st, k, text) == st
    ensures |text| > 1 && text[0] == SET_COLOR ==>
              var next := With(st, k, st.screens[k].(color := text[1]));
              Fits(d, next.screens[k]) && BytesOn(d, st, k, text) == BytesOn(d, next, k, text[2..])
    ensures text != [] && text[0] != SET_COLOR ==>
              var next := ByteOn(d, st, k, text[0]);
              Fits(d, next.screens[k]) && BytesOn(d, st, k, text) == BytesOn(d, next, k, text[1..])
  {
    hide ByteOn;
    if text != [] && text[0] != SET_COLOR {
      ByteOnScreen(d, st, k, text[0]);
    }
  }

  /** `tty_print`. */
  function PrintOn(d: Size, st: State, k: nat, text: seq<Byte>): (r: State)
    requires Shaped(d, st) && k < TTY_COUNT && Fits(d, st.screens[k])
    ensures Shaped(d, r)
  {
    MoveCursor(BytesOn(d, st, k, text), k)
  }

  function FillOn(d: Size, st: State, k: nat, color: Byte): (r: State)
    requires Shaped(d, st) && k < TTY_COUNT
    ensures Shaped(d, r)
  {
    Rerender(With(st, k, Fill(d, st.screens[k], color)), k)
  }

  /** Where `tty_set_string` puts its characters. */
  predicate StringFits(d: Size, x: nat, y: nat, width: nat, text: seq<Byte>)
  {
    (text != [] ==> width > 0) && forall i :: 0 <= i < |text| ==> x + i % width < d.w && y + i / width < d.h
  }

  function SetStringOn(d: Size, st: State, k: nat, x: nat, y: nat, width: nat,
                       text: seq<Byte>, color: Byte, i: nat): (r: State)
    requires Shaped(d, st) && k < TTY_COUNT && StringFits(d, x, y, width, text) && i <= |text|
    ensures Shaped(d, r)
    decreases |text| - i
  {
    if i == |text| then st
    else
      var put := SetCharOn(d, st, k, x + i % width, y + i / width, text[i], color);
      SetStringOn(d, put, k, x, y, width, text, color, i + 1)
  }

  /** One turn of the loop of `tty_set_string`. */
  lemma SetStringTurn(d: Size, st: State, k: nat, x: nat, y: nat, width: nat, text: seq<Byte>, color: Byte, i: nat)
    requires Shaped(d, st) && k < TTY_COUNT && StringFits(d, x, y, width, text) && i <= |text|
    ensures i == |text| ==> SetStringOn(d, st, k, x, y, width, text, color, i) == st
    ensures i < |text| ==>
              SetStringOn(d, st, k, x, y, width, text, color, i) ==
              SetStringOn(d, SetCharOn(d, st, k, x + i % width, y + i / width, text[i], color),
                          k, x, y, width, text, color, i + 1)
  {
    hide SetCharOn;
  }

  function SwitchOn(d: Size, st: State, k: nat): (r: State)
    requires Shaped(d, st) && k < TTY_COUNT
    ensures Shaped(d, r)
  {
    if k == st.current then st
    else MoveCursor(st.(current := k, shadow := st.screens[k].mem), k)
  }

  /** `n` prints of one space each. */
  function PadOn(d: Size, st: State, k: nat, n: nat): (r: State)
    requires Sound(d, st) && k < TTY_COUNT
    ensures Sound(d, r)
  {
    if n == 0 then st
    else
      var before := PadOn(d, st, k, n - 1);
      PrintOnScreen(d, before, k, [SPACE]);
      PrintOn(d, before, k, [SPACE])
  }

  /** `kprint_ok_fail` on terminal `k`. */
  function StatusOn(d: Size, st: State, k: nat, text: seq<Byte>, ok: bool): (r: State)
    requires Sound(d, st) && k < TTY_COUNT
    ensures Shaped(d, r)
  {
    PrintOnScreen(d, st, k, text);
    var padded := PadOn(d, PrintOn(d, st, k, text), k, Padding(d.w, |text|, ok));
    var tagged := PrintOn(d, padded, k, Tag(ok));
    SetColorOn(tagged, k, padded.screens[k].color)
  }

  function SetColorOn(st: State, k: nat, color: Byte): (r: State)
    requires k < |st.screens|
  {
    With(st, k, st.screens[k].(color := color))
  }

  // ---------- the terminals do not see the device, nor each other ----------

  lemma {:induction false} PrintOnScreen(d: Size, st: State, k: nat, text: seq<Byte>)
    requires Shaped(d, st) && k < TTY_COUNT && Fits(d, st.screens[k])
    ensures var r := BytesOn(d, st, k, text);
            && r.screens == PrintOn(d, st, k, text).screens == st.screens[k := Print(d, st.screens[k], text)]
            && r.current == st.current
            && (k != st.current ==> r.shadow == st.shadow && r.cursor == st.cursor)
    decreases |text|
  {
    if text == [] {
    } else if text[0] == SET_COLOR {
      if |text| > 1 {
        PrintOnScreen(d, With(st, k, st.screens[k].(color := text[1])), k, text[2..]);
      }
    } else {
      ByteOnScreen(d, st, k, text[0]);
      PrintOnScreen(d, ByteOn(d, st, k, text[0]), k, text[1..]);
    }
  }

  function SetString(d: Size, s: Screen, x: nat, y: nat, width: nat,
                     text: seq<Byte>, color: Byte, i: nat): (r: Screen)
    requires Proper(d) && |s.mem| == Area(d) && StringFits(d, x, y, width, text) && i <= |text|
    ensures |r.mem| == |s.mem| && r == s.(mem := r.mem)
    decreases |text| - i
  {
    if i == |text| then s
    else SetString(d, SetCell(d, s, x + i % width, y + i / width, text[i], color), x, y, width, text, color, i + 1)
  }

  /** The cell of character `i`. */
  function PlaceOf(d: Size, x: nat, y: nat, width: nat, i: nat): (c: nat)
    requires width > 0
  {
    Index(d, x + i % width, y + i / width)
  }

  lemma PlaceInside(d: Size, x: nat, y: nat, width: nat, text: seq<Byte>, i: nat)
    requires StringFits(d, x, y, width, text) && i < |text|
    ensures width > 0 && x + i % width < d.w && y + i / width < d.h
    ensures PlaceOf(d, x, y, width, i) == x + i % width + (y + i / width) * d.w < Area(d)
  {
    IndexInside(d, x + i % width, y + i / width);
  }

  /** No two characters of a string share a cell. */
  lemma PlacesDiffer(d: Size, x: nat, y: nat, width: nat, text: seq<Byte>, i: nat, j: nat)
    requires StringFits(d, x, y, width, text) && i < j < |text|
    ensures PlaceOf(d, x, y, width, i) != PlaceOf(d, x, y, width, j)
  {
    hide Index;
    DivisionsDiffer(i, j, width);
    IndicesDiffer(d, x + i % width, y + i / width, x + j % width, y + j / width);
  }

  lemma DivisionsDiffer(i: nat, j: nat, n: nat)
    requires n > 0 && i != j
    ensures i % n != j % n || i / n != j / n
  {
    DivisionSplits(i, n);
    DivisionSplits(j, n);
  }

  lemma DivisionSplits(i: nat, n: nat)
    requires n > 0
    ensures i == i / n * n + i % n
  {
  }

  lemma IndicesDiffer(d: Size, x0: nat, y0: nat, x1: nat, y1: nat)
    requires x0 < d.w && x1 < d.w && (x0 != x1 || y0 != y1)
    ensures Index(d, x0, y0) != Index(d, x1, y1)
  {
    if y0 < y1 {
      RowsApart(d.w, x0, y0, x1, y1);
    } else if y1 < y0 {
      RowsApart(d.w, x1, y1, x0, y0);
    }
  }

  lemma RowsApart(w: nat, x0: nat, y0: nat, x1: nat, y1: nat)
    requires x0 < w && x1 < w && y0 < y1
    ensures x0 + y0 * w < x1 + y1 * w
  {
    var k: nat := y1 - y0 - 1;
    assert y1 == y0 + 1 + k;
    assert (y0 + 1 + k) * w == y0 * w + w + k * w;
    assert k * w >= 0;
  }

  /** The string's characters are stored in the colour given, each in its own cell; the rest
      of the terminal stays. */
  lemma {:induction false} SetStringStores(d: Size, s: Screen, x: nat, y: nat, width: nat,
                                           text: seq<Byte>, color: Byte, i: nat)
    requires Proper(d) && |s.mem| == Area(d) && StringFits(d, x, y, width, text) && i <= |text|
    ensures var r := SetString(d, s, x, y, width, text, color, i);
            && r == s.(mem := r.mem) && |r.mem| == |s.mem|
            && (forall j :: i <= j < |text| ==>
                  var cell, ch: int, back: int := PlaceOf(d, x, y, width, j), text[j], color;
                  cell < |r.mem| && r.mem[cell] == if ch < 128 then back * 256 + ch else 65280 + ch)
            && (forall c | 0 <= c < |s.mem| && (forall j :: i <= j < |text| ==> c != PlaceOf(d, x, y, width, j)) ::
                  r.mem[c] == s.mem[c])
    decreases |text| - i
  {
    hide SetCell, PlaceOf, Area, StringFits;
    if i < |text| {
      PlaceInside(d, x, y, width, text, i);
      SetCellStores(d, s, x + i % width, y + i / width, text[i], color);
      var put := SetCell(d, s, x + i % width, y + i / width, text[i], color);
      SetStringStores(d, put, x, y, width, text, color, i + 1);
      forall j | i < j < |text| ensures PlaceOf(d, x, y, width, i) != PlaceOf(d, x, y, width, j) {
        PlacesDiffer(d, x, y, width, text, i, j);
      }
    }
  }

  lemma {:induction false} SetStringOnScreen(d: Size, st: State, k: nat, x: nat, y: nat, width: nat,
                                             text: seq<Byte>, color: Byte, i: nat)
    requires Shaped(d, st) && k < TTY_COUNT && StringFits(d, x, y, width, text) && i <= |text|
    ensures var r := SetStringOn(d, st, k, x, y, width, text, color, i);
            && r.screens == st.screens[k := SetString(d, st.screens[k], x, y, width, text, color, i)]
            && r.current == st.current && r.cursor == st.cursor
            && (k != st.current ==> r.shadow == st.shadow)
    decreases |text| - i
  {
    if i < |text| {
      var st1 := SetCharOn(d, st, k, x + i % width, y + i / width, text[i], color);
      SetStringOnScreen(d, st1, k, x, y, width, text, color, i + 1);
    }
  }

  /** `n` prints of one space each, on a terminal alone. */
  function PadAlone(d: Size, s: Screen, n: nat): (r: Screen)
    requires Fits(d, s)
    ensures Fits(d, r)
  {
    if n == 0 then s else Print(d, PadAlone(d, s, n - 1), [SPACE])
  }

  /** `kprint_ok_fail` on a terminal alone. */
  function StatusAlone(d: Size, s: Screen, text: seq<Byte>, ok: bool): (r: Screen)
    requires Fits(d, s)
    ensures Fits(d, r)
  {
    var padded := PadAlone(d, Print(d, s, text), Padding(d.w, |text|, ok));
    Print(d, padded, Tag(ok)).(color := padded.color)
  }

  lemma {:induction false} PadIsLocal(d: Size, st: State, k: nat, n: nat)
    requires Sound(d, st) && k < TTY_COUNT
    ensures var r := PadOn(d, st, k, n);
            && r.screens == st.screens[k := PadAlone(d, st.screens[k], n)]
            && r.current == st.current
            && (k != st.current ==> r.shadow == st.shadow && r.cursor == st.cursor)
  {
    hide Print, PrintOn, BytesOn;
    if n > 0 {
      PadIsLocal(d, st, k, n - 1);
      PrintIsLocal(d, PadOn(d, st, k, n - 1), k, [SPACE]);
    }
  }

  lemma PrintIsLocal(d: Size, st: State, k: nat, text: seq<Byte>)
    requires Sound(d, st) && k < TTY_COUNT
    ensures var r := PrintOn(d, st, k, text);
            && Sound(d, r) && r.screens == st.screens[k := Print(d, st.screens[k], text)]
            && r.current == st.current
            && (k != st.current ==> r.shadow == st.shadow && r.cursor == st.cursor)
  {
    hide Print, BytesOn;
    PrintOnScreen(d, st, k, text);
  }

  lemma StatusIsLocal(d: Size, st: State, k: nat, text: seq<Byte>, ok: bool)
    requires Sound(d, st) && k < TTY_COUNT
    ensures var r := StatusOn(d, st, k, text, ok);
            && r.screens == st.screens[k := StatusAlone(d, st.screens[k], text, ok)]
            && r.current == st.current
            && (k != st.current ==> r.shadow == st.shadow && r.cursor == st.cursor)
  {
    hide Print, PrintOn, BytesOn, PadOn, PadAlone, Tag, Padding;
    var n := Padding(d.w, |text|, ok);
    PrintIsLocal(d, st, k, text);
    var printed := PrintOn(d, st, k, text);
    PadIsLocal(d, printed, k, n);
    PrintIsLocal(d, PadOn(d, printed, k, n), k, Tag(ok));
  }

  lemma StringStored(d: Size, st: State, k: nat, x: nat, y: nat, width: nat, text: seq<Byte>, color: Byte)
    requires Shaped(d, st) && k < TTY_COUNT && StringFits(d, x, y, width, text)
    ensures forall i :: 0 <= i < |text| ==> PlaceOf(d, x, y, width, i) == x + i % width + (y + i / width) * d.w
    ensures var r := SetStringOn(d, st, k, x, y, width, text, color, 0).screens[k];
            && r == st.screens[k].(mem := r.mem) && |r.mem| == |st.screens[k].mem|
            && (forall i :: 0 <= i < |text| ==>
                  var cell, ch: int, back: int := PlaceOf(d, x, y, width, i), text[i], color;
                  cell < |r.mem| && r.mem[cell] == if ch < 128 then back * 256 + ch else 65280 + ch)
            && (forall c | 0 <= c < |r.mem| && (forall i :: 0 <= i < |text| ==> c != PlaceOf(d, x, y, width, i)) ::
                  r.mem[c] == st.screens[k].mem[c])
  {
    SetStringOnScreen(d, st, k, x, y, width, text, color, 0);
    SetStringStores(d, st.screens[k], x, y, width, text, color, 0);
    hide SetStringOn, SetString, PlaceOf, Area;
    forall i | 0 <= i < |text| ensures PlaceOf(d, x, y, width, i) == x + i % width + (y + i / width) * d.w {
      PlaceInside(d, x, y, width, text, i);
    }
  }

  // ---------- the device ----------

  /** The device shows the current terminal. */
  predicate Shadowed(st: State)
    requires st.current < |st.screens|
  {
    st.shadow == st.screens[st.current].mem
  }

  predicate CursorShown(st: State)
    requires st.current < |st.screens|
  {
    st.cursor == Position(st.screens[st.current])
  }

  predicate SevenBit(text: seq<Byte>)
  {
    forall i :: 0 <= i < |text| ==> text[i] < 0x80
  }

  /** One character keeps the device in step exactly when its terminal is not on display, or
      it is 7-bit, or the colour is all ones. */
  lemma SetCharShadows(d: Size, st: State, k: nat, x: nat, y: nat, ch: Byte, color: Byte)
    requires Shaped(d, st) && k < TTY_COUNT && x < d.w && y < d.h && Shadowed(st)
    ensures Shadowed(SetCharOn(d, st, k, x, y, ch, color)) <==> k != st.current || ch < 0x80 || color == 0xFF
  {
    IndexInside(d, x, y);
    hide Index, Area;
    var r := SetCharOn(d, st, k, x, y, ch, color);
    if k == st.current && r.shadow == r.screens[k].mem {
      assert r.shadow[Index(d, x, y)] == Drawn(color, ch);
      assert r.screens[k].mem[Index(d, x, y)] == CellOf(color, ch);
    }
  }

  lemma ByteShadows(d: Size, st: State, k: nat, ch: Byte)
    requires Shaped(d, st) && k < TTY_COUNT && Fits(d, st.screens[k]) && Shadowed(st) && ch < 0x80
    ensures Shadowed(ByteOn(d, st, k, ch))
  {
    var s := st.screens[k];
    SetCharShadows(d, st, k, s.x, s.y, ch, s.color);
    hide SetCharOn, Scroll;
  }

  lemma {:induction false} PrintShadows(d: Size, st: State, k: nat, text: seq<Byte>)
    requires Shaped(d, st) && k < TTY_COUNT && Fits(d, st.screens[k]) && Shadowed(st) && SevenBit(text)
    ensures Shadowed(BytesOn(d, st, k, text))
    decreases |text|
  {
    if text == [] {
    } else if text[0] == SET_COLOR {
      if |text| > 1 {
        PrintShadows(d, With(st, k, st.screens[k].(color := text[1])), k, text[2..]);
      }
    } else {
      ByteOnScreen(d, st, k, text[0]);
      ByteShadows(d, st, k, text[0]);
      PrintShadows(d, ByteOn(d, st, k, text[0]), k, text[1..]);
    }
  }

  lemma {:induction false} SetStringShadows(d: Size, st: State, k: nat, x: nat, y: nat, width: nat,
                                            text: seq<Byte>, color: Byte, i: nat)
    requires Shaped(d, st) && k < TTY_COUNT && StringFits(d, x, y, width, text) && i <= |text|
    requires Shadowed(st) && SevenBit(text)
    ensures Shadowed(SetStringOn(d, st, k, x, y, width, text, color, i))
    decreases |text| - i
  {
    if i < |text| {
      SetCharShadows(d, st, k, x + i % width, y + i / width, text[i], color);
      var put := SetCharOn(d, st, k, x + i % width, y + i / width, text[i], color);
      SetStringShadows(d, put, k, x, y, width, text, color, i + 1);
    }
  }

  /** The device shows the current terminal and its cursor. */
  predicate InStep(st: State)
    requires st.current < |st.screens|
  {
    Shadowed(st) && CursorShown(st)
  }

  lemma StepMeans(st: State)
    requires st.current < |st.screens| && InStep(st)
    ensures var shown := st.screens[st.current];
            st.shadow == shown.mem && st.cursor.0 == shown.x && st.cursor.1 == shown.y
  {
  }

  lemma PrintInStep(d: Size, st: State, k: nat, text: seq<Byte>)
    requires Sound(d, st) && k < TTY_COUNT && InStep(st) && SevenBit(text)
    ensures InStep(PrintOn(d, st, k, text))
  {
    hide Print, BytesOn, SevenBit;
    PrintShadows(d, st, k, text);
    PrintOnScreen(d, st, k, text);
  }

  lemma {:induction false} PadInStep(d: Size, st: State, k: nat, n: nat)
    requires Sound(d, st) && k < TTY_COUNT && InStep(st)
    ensures InStep(PadOn(d, st, k, n))
  {
    hide PrintOn, InStep;
    if n > 0 {
      PadInStep(d, st, k, n - 1);
      PrintInStep(d, PadOn(d, st, k, n - 1), k, [SPACE]);
    }
  }

  lemma StatusInStep(d: Size, st: State, k: nat, text: seq<Byte>, ok: bool)
    requires Sound(d, st) && k < TTY_COUNT && InStep(st) && SevenBit(text)
    ensures InStep(StatusOn(d, st, k, text, ok))
  {
    assert SevenBit(Tag(ok));
    hide PrintOn, PadOn, Tag, Padding, Print, SevenBit;
    var n := Padding(d.w, |text|, ok);
    PrintInStep(d, st, k, text);
    PrintIsLocal(d, st, k, text);
    var printed := PrintOn(d, st, k, text);
    PadInStep(d, printed, k, n);
    var padded := PadOn(d, printed, k, n);
    PrintInStep(d, padded, k, Tag(ok));
    PrintIsLocal(d, padded, k, Tag(ok));
  }

  // ---------- whole runs ----------

  datatype Call =
    | DoPrint(k: nat, text: seq<Byte>)
    | DoFill(k: nat, color: Byte)
    | DoSetString(k: nat, x: nat, y: nat, width: nat, text: seq<Byte>, color: Byte)
    | DoSwitch(k: nat)
    | DoSetColor(k: nat, color: Byte)
    | DoStatus(k: nat, text: seq<Byte>, ok: bool)

  /** Strings stay on the grid, and the padding loop of a status line ends. */
  predicate Allowed(d: Size, c: Call)
  {
    && c.k < TTY_COUNT
    && (c.DoSetString? ==> StringFits(d, c.x, c.y, c.width, c.text))
    && (c.DoStatus? ==> Padding(d.w, |c.text|, c.ok) <= 0xFF)
  }

  predicate SevenBitCall(c: Call)
  {
    c.DoPrint? || c.DoSetString? || c.DoStatus? ==> SevenBit(c.text)
  }

  /** One call, on the whole state. */
  function Do(d: Size, st: State, c: Call): (r: State)
    requires Sound(d, st) && Allowed(d, c)
    ensures Shaped(d, r)
  {
    match c
    case DoPrint(k, text) => PrintOn(d, st, k, text)
    case DoFill(k, color) => FillOn(d, st, k, color)
    case DoSetString(k, x, y, width, text, color) => SetStringOn(d, st, k, x, y, width, text, color, 0)
    case DoSwitch(k) => SwitchOn(d, st, k)
    case DoSetColor(k, color) => SetColorOn(st, k, color)
    case DoStatus(k, text, ok) => StatusOn(d, st, k, text, ok)
  }

  /** The same call, on its terminal alone. */
  function DoAlone(d: Size, s: Screen, c: Call): (r: Screen)
    requires Fits(d, s) && Allowed(d, c)
    ensures Fits(d, r)
  {
    IndexInside(d, 0, 0);
    match c
    case DoPrint(_, text) => Print(d, s, text)
    case DoFill(_, color) => Fill(d, s, color)
    case DoSetString(_, x, y, width, text, color) => SetString(d, s, x, y, width, text, color, 0)
    case DoSwitch(_) => s
    case DoSetColor(_, color) => s.(color := color)
    case DoStatus(_, text, ok) => StatusAlone(d, s, text, ok)
  }

  /** A call changes its own terminal as if it were alone, and no other; when that terminal
      is not on display, and no switch happens, the device does not change either. */
  lemma CallIsLocal(d: Size, st: State, c: Call)
    requires Sound(d, st) && Allowed(d, c)
    ensures var r := Do(d, st, c);
            && Sound(d, r)
            && r.screens == st.screens[c.k := DoAlone(d, st.screens[c.k], c)]
            && r.current == (if c.DoSwitch? then c.k else st.current)
            && (!c.DoSwitch? && c.k != st.current ==> r.shadow == st.shadow && r.cursor == st.cursor)
  {
    hide Print, BytesOn, SetStringOn, SetString, StatusOn, StatusAlone;
    IndexInside(d, 0, 0);
    match c
    case DoPrint(k, text) => PrintOnScreen(d, st, k, text);
    case DoFill(k, color) =>
    case DoSetString(k, x, y, width, text, color) => SetStringOnScreen(d, st, k, x, y, width, text, color, 0);
    case DoSwitch(k) =>
    case DoSetColor(k, color) =>
    case DoStatus(k, text, ok) => StatusIsLocal(d, st, k, text, ok);
  }

  lemma CallShadows(d: Size, st: State, c: Call)
    requires Sound(d, st) && Allowed(d, c) && InStep(st) && SevenBitCall(c)
    ensures InStep(Do(d, st, c))
  {
    hide PrintOn, SetStringOn, SetString, StatusOn, SevenBit;
    match c
    case DoPrint(k, text) => PrintInStep(d, st, k, text);
    case DoFill(k, color) =>
    case DoSetString(k, x, y, width, text, color) =>
      SetStringShadows(d, st, k, x, y, width, text, color, 0);
      SetStringOnScreen(d, st, k, x, y, width, text, color, 0);
    case DoSwitch(k) =>
    case DoSetColor(k, color) =>
    case DoStatus(k, text, ok) => StatusInStep(d, st, k, text, ok);
  }

  ghost predicate AllAllowed(d: Size, calls: seq<Call>)
  {
    forall i :: 0 <= i < |calls| ==> Allowed(d, calls[i])
  }

  ghost function Run(d: Size, st: State, calls: seq<Call>): (r: State)
    requires Sound(d, st) && AllAllowed(d, calls)
    ensures Sound(d, r)
    decreases |calls|
  {
    if calls == [] then st
    else
      CallIsLocal(d, st, calls[0]);
      Run(d, Do(d, st, calls[0]), calls[1..])
  }

  /** Terminal `j` on its own, through the calls of a run that name it. */
  ghost function RunAlone(d: Size, s: Screen, j: nat, calls: seq<Call>): (r: Screen)
    requires Fits(d, s) && AllAllowed(d, calls)
    ensures Fits(d, r)
    decreases |calls|
  {
    if calls == [] then s
    else RunAlone(d, if calls[0].k == j then DoAlone(d, s, calls[0]) else s, j, calls[1..])
  }

  /** After every call of every run the device shows exactly the current terminal, and the
      cursor at its place. */
  lemma {:induction false} RunShadows(d: Size, st: State, calls: seq<Call>)
    requires Sound(d, st) && AllAllowed(d, calls) && InStep(st)
    requires forall i :: 0 <= i < |calls| ==> SevenBitCall(calls[i])
    ensures InStep(Run(d, st, calls))
    ensures var r := Run(d, st, calls);
            var shown := r.screens[r.current];
            r.shadow == shown.mem && r.cursor.0 == shown.x && r.cursor.1 == shown.y
    decreases |calls|
  {
    StepMeans(st);
    hide Do, DoAlone, InStep, Allowed, SevenBitCall;
    if calls != [] {
      CallIsLocal(d, st, calls[0]);
      CallShadows(d, st, calls[0]);
      RunShadows(d, Do(d, st, calls[0]), calls[1..]);
    }
  }

  /** Interleaving changes nothing: every terminal ends as if its own calls had run alone,
      whichever terminal was on display meanwhile. */
  lemma {:induction false} RunIsInterleaving(d: Size, st: State, j: nat, calls: seq<Call>)
    requires Sound(d, st) && AllAllowed(d, calls) && j < TTY_COUNT
    ensures Run(d, st, calls).screens[j] == RunAlone(d, st.screens[j], j, calls)
    decreases |calls|
  {
    hide Do, DoAlone, Allowed;
    if calls != [] {
      CallIsLocal(d, st, calls[0]);
      RunIsInterleaving(d, Do(d, st, calls[0]), j, calls[1..]);
    }
  }

  // ---------- the status line ----------

  /** Spaces printed one at a time are spaces printed at once. */
  lemma {:induction false} PadIsPrint(d: Size, s: Screen, text: seq<Byte>, n: nat)
    requires Fits(d, s) && !Unfinished(text)
    ensures !Unfinished(text + Spaces(n))
    ensures PadAlone(d, Print(d, s, text), n) == Print(d, s, text + Spaces(n))
  {
    UnfinishedAppend(text, Spaces(n));
    PlainIsFinished(Spaces(n));
    hide Print, Unfinished;
    if n == 0 {
      assert text + Spaces(0) == text;
    } else {
      PadIsPrint(d, s, text, n - 1);
      PrintAppend(d, s, text + Spaces(n - 1), [SPACE]);
      assert text + Spaces(n - 1) + [SPACE] == text + Spaces(n);
    }
  }

  lemma {:induction false} UnfinishedAppend(a: seq<Byte>, b: seq<Byte>)
    requires !Unfinished(a)
    ensures Unfinished(a + b) == Unfinished(b)
    decreases |a|
  {
    if a == [] {
      assert a + b == b;
    } else if a[0] == SET_COLOR {
      assert (a + b)[2..] == a[2..] + b;
      UnfinishedAppend(a[2..], b);
    } else {
      assert (a + b)[1..] == a[1..] + b;
      UnfinishedAppend(a[1..], b);
    }
  }

  /** For any message whose escapes are finished, all the prints are one. */
  lemma StatusOnScreen(d: Size, st: State, k: nat, text: seq<Byte>, ok: bool)
    requires Sound(d, st) && k < TTY_COUNT && !Unfinished(text)
    ensures var s, lead := st.screens[k], text + Spaces(Padding(d.w, |text|, ok));
            StatusOn(d, st, k, text, ok).screens ==
            st.screens[k := Print(d, s, lead + Tag(ok)).(color := Print(d, s, lead).color)]
  {
    hide StatusOn, Print, Tag, Padding, PadAlone;
    var s, n := st.screens[k], Padding(d.w, |text|, ok);
    StatusIsLocal(d, st, k, text, ok);
    PadIsPrint(d, s, text, n);
    PrintAppend(d, s, text + Spaces(n), Tag(ok));
  }

  /** On a display of even width, from column 0, `kprint_ok_fail` writes one full row of the
      transcript, goes to the next line, and keeps the colour. */
  lemma StatusShowsRow(d: Size, st: State, k: nat, t: Transcript, text: seq<Byte>, ok: bool)
    requires Sound(d, st) && k < TTY_COUNT && d.w % 2 == 0 && d.w < 0x1_0000_0000
    requires Valid(d, t) && st.screens[k] == Render(d, t)
    requires t.col == 0 && Plain(text) && |text| + TagLength(ok) <= d.w
    ensures var done := NextLine(d, t.(lines := t.lines[t.row := Row(d, t.color, text, ok)]));
            Valid(d, done) && StatusOn(d, st, k, text, ok).screens[k] == Render(d, done)
  {
    hide *;
    StatusIsText(d, st, k, text, ok);
    PrintStatus(d, t, text, ok);
  }

  /** The status text on a transcript, printed as one. */
  lemma PrintStatus(d: Size, t: Transcript, text: seq<Byte>, ok: bool)
    requires Valid(d, t) && d.w % 2 == 0
    requires t.col == 0 && Plain(text) && |text| + TagLength(ok) <= d.w
    ensures var s, lead := Render(d, t), text + Spaces(d.w - |text| - TagLength(ok));
            var done := NextLine(d, t.(lines := t.lines[t.row := Row(d, t.color, text, ok)]));
            Valid(d, done) && Print(d, s, StatusText(d, text, ok)).(color := Print(d, s, lead).color) == Render(d, done)
  {
    var lead, all := text + Spaces(d.w - |text| - TagLength(ok)), StatusText(d, text, ok);
    assert Plain(lead) && t.col + |lead| < d.w;
    hide *;
    PrintShowsTranscript(d, t, lead);
    PrintShowsTranscript(d, t, all);
    TypePlain(d, t, lead);
    StatusFillsRow(d, t, text, ok);
    RenderColor(d, Type(d, t, all), t.color);
    RenderColor(d, Type(d, t, lead), t.color);
  }

  lemma StatusIsText(d: Size, st: State, k: nat, text: seq<Byte>, ok: bool)
    requires Sound(d, st) && k < TTY_COUNT && d.w < 0x1_0000_0000
    requires Plain(text) && |text| + TagLength(ok) <= d.w
    ensures var s, lead := st.screens[k], text + Spaces(d.w - |text| - TagLength(ok));
            StatusOn(d, st, k, text, ok).screens[k] ==
            Print(d, s, StatusText(d, text, ok)).(color := Print(d, s, lead).color)
  {
    PaddingIsGap(d.w, |text|, ok);
    PlainIsFinished(text);
    hide Print, StatusOn, Tag, Spaces, Padding;
    StatusOnScreen(d, st, k, text, ok);
  }
}
