/** The terminal layer as it runs: fields, grids and the device changed in place. */
module Tty {
  import opened Memory
  import opened Terminal
  import opened StatusLine
  import C = Console

  lemma SplitWord(low: Cell, high: Cell)
    ensures var l: int, h: int := low, high; (l + 0x1_0000 * h) % 0x1_0000 == l && (l + 0x1_0000 * h) / 0x1_0000 == h
  {
  }

  lemma FillWord(fill: Byte)
    ensures var w := 0x20_0020 + fill * 0x100_0000 + fill * 0x100;
            w < 0x1_0000_0000 && w % 0x1_0000 == FillCell(fill) && w / 0x1_0000 == FillCell(fill)
  {
  }

  /** One `tty_t`. The grid is also written two cells at a time, as 32-bit words. */
  class Tty {
    var x: nat
    var y: nat
    var color: Byte
    const mem: array<Cell>

    constructor (cells: nat)
      ensures mem.Length == cells && fresh(mem)
      ensures x == y == 0 && color == 7
    {
      x, y, color := 0, 0, 7;
      mem := new Cell[cells];
    }

    ghost function View(): (s: Screen)
      reads this, mem
    {
      Screen(x, y, color, mem[..])
    }

    function WordAt(i: nat): (w: Word)
      requires 2 * i + 1 < mem.Length
      reads mem
    {
      var low: int, high: int := mem[2 * i], mem[2 * i + 1];
      low + 0x1_0000 * high
    }

    method SetWord(i: nat, w: Word)
      requires 2 * i + 1 < mem.Length
      modifies mem
      ensures mem[2 * i] == w % 0x1_0000 && mem[2 * i + 1] == w / 0x1_0000
      ensures forall c :: 0 <= c < mem.Length && c != 2 * i && c != 2 * i + 1 ==> mem[c] == old(mem[c])
    {
      mem[2 * i], mem[2 * i + 1] := w % 0x1_0000, w / 0x1_0000;
    }

    method CopyWord(to: nat, from: nat)
      requires 2 * to + 1 < mem.Length && 2 * from + 1 < mem.Length
      modifies mem
      ensures mem[2 * to] == old(mem[2 * from]) && mem[2 * to + 1] == old(mem[2 * from + 1])
      ensures forall c :: 0 <= c < mem.Length && c != 2 * to && c != 2 * to + 1 ==> mem[c] == old(mem[c])
    {
      SplitWord(mem[2 * from], mem[2 * from + 1]);
      SetWord(to, WordAt(from));
    }

    /** The two loops of `tty_scroll`: a forward copy onto an overlapping range, then zeros. */
    method ScrollCells(d: Size)
      requires Proper(d) && mem.Length == Area(d)
      modifies mem
      ensures mem[..] == Scrolled(d, old(mem[..]))
    {
      CopyBounds(d);
      var words, half, total := d.w * (d.h - 1) / 2, d.w / 2, d.w * d.h / 2;
      ghost var was := mem[..];
      assert CopiedCells(d) == 2 * words && Area(d) / 2 == total;
      hide *;
      CopyDown(words, half);
      ZeroWords(words, total);
      ScrolledCells(d, was, mem[..], words, half);
    }

    lemma ScrolledCells(d: Size, was: seq<Cell>, now: seq<Cell>, words: nat, half: nat)
      requires Proper(d) && |was| == |now| == Area(d)
      requires words == d.w * (d.h - 1) / 2 && half == d.w / 2
      requires forall c :: 0 <= c < 2 * words ==> c + 2 * half < |was| && now[c] == was[c + 2 * half]
      requires forall c :: 2 * words <= c < |was| ==> now[c] == if c < 2 * (|was| / 2) then 0 else was[c]
      ensures now == Scrolled(d, was)
    {
      CopyBounds(d);
      hide Area;
    }

    method ZeroWords(from: nat, to: nat)
      requires from <= to && 2 * to <= mem.Length
      modifies mem
      ensures forall c :: 0 <= c < mem.Length ==> mem[c] == if 2 * from <= c < 2 * to then 0 else old(mem[c])
    {
      for i := from to to
        invariant forall c :: 0 <= c < mem.Length ==> mem[c] == if 2 * from <= c < 2 * i then 0 else old(mem[c])
      {
        SetWord(i, 0);
      }
    }

    method CopyDown(words: nat, half: nat)
      requires 2 * words + 2 * half <= mem.Length
      modifies mem
      ensures forall c :: 0 <= c < mem.Length ==>
                mem[c] == if c < 2 * words then old(mem[..])[c + 2 * half] else old(mem[c])
    {
      for i := 0 to words
        invariant forall c :: 2 * i <= c < mem.Length ==> mem[c] == old(mem[c])
        invariant forall c :: 0 <= c < 2 * i ==> mem[c] == old(mem[..])[c + 2 * half]
      {
        CopyWord(i, i + half);
      }
    }

    /** The loop of `tty_fill_color`. */
    method FillCells(d: Size, fill: Byte)
      requires Proper(d) && mem.Length == Area(d)
      modifies mem
      ensures mem[..] == Fill(d, old(View()), fill).mem
    {
      for i := 0 to d.w * d.h / 2
        invariant forall c :: 0 <= c < mem.Length ==> mem[c] == if c < 2 * i then FillCell(fill) else old(mem[c])
      {
        FillWord(fill);
        SetWord(i, 0x20_0020 + fill * 0x100_0000 + fill * 0x100);
      }
    }
  }

  /** What the driver's callbacks act on. */
  class Device {
    var shadow: seq<Cell>
    var cursor: (nat, nat)

    constructor (cells: seq<Cell>)
      ensures shadow == cells && cursor == (0, 0)
    {
      shadow, cursor := cells, (0, 0);
    }

    method Rerender(tty: Tty)
      modifies this`shadow
      ensures shadow == tty.mem[..]
    {
      shadow := tty.mem[..];
    }

    method UpdateCursor(tty: Tty)
      modifies this`cursor
      ensures cursor == (tty.x, tty.y)
    {
      cursor := (tty.x, tty.y);
    }

    method SetChar(at: nat, ch: Byte, color: Byte)
      requires at < |shadow|
      modifies this`shadow
      ensures shadow == old(shadow)[at := C.Drawn(color, ch)]
    {
      shadow := shadow[at := C.Drawn(color, ch)];
    }
  }

  class Console {
    const d: Size
    const ttys: seq<Tty>
    const device: Device
    var current: nat            // the terminal on display

    ghost predicate Valid()
      reads this, device
    {
      && Proper(d) && |ttys| == C.TTY_COUNT && current < C.TTY_COUNT
      && (forall i :: 0 <= i < C.TTY_COUNT ==> ttys[i].mem.Length == Area(d))
      && (forall i, j :: 0 <= i < j < C.TTY_COUNT ==> ttys[i] != ttys[j] && ttys[i].mem != ttys[j].mem)
      && |device.shadow| == Area(d)
    }

    ghost function Mems(): set<array<Cell>>
    {
      set t | t in ttys :: t.mem
    }

    /** The state as a value. */
    ghost function Now(): (st: C.State)
      requires Valid()
      reads this, device, ttys, Mems()
      ensures C.Shaped(d, st)
    {
      C.State(seq(C.TTY_COUNT, i requires 0 <= i < C.TTY_COUNT reads ttys, Mems() => ttys[i].View()),
              current, device.shadow, device.cursor)
    }

    /** When one terminal's fields changed, the state changed there only. */
    twostate lemma OnlyTty(k: nat)
      requires old(Valid()) && Valid() && k < C.TTY_COUNT
      requires forall i :: 0 <= i < C.TTY_COUNT && i != k ==> ttys[i].View() == old(ttys[i].View())
      ensures Now() == C.With(old(Now()), k, ttys[k].View())
                       .(current := current, shadow := device.shadow, cursor := device.cursor)
    {
    }

    /** `init_tty`: eight cleared terminals, the first on display. */
    constructor (d: Size)
      requires Proper(d)
      ensures Valid() && this.d == d && current == 0
      ensures C.Sound(d, Now()) && C.InStep(Now())
      ensures forall t :: t in ttys ==> t.x == 0 && t.y == 0 && t.color == 7
      ensures fresh(device) && (forall t :: t in ttys ==> fresh(t) && fresh(t.mem))
    {
      IndexInside(d, 0, 0);
      var made: seq<Tty> := [];
      for i := 0 to C.TTY_COUNT
        invariant |made| == i
        invariant forall j :: 0 <= j < i ==> fresh(made[j]) && fresh(made[j].mem) && made[j].mem.Length == Area(d)
        invariant forall j :: 0 <= j < i ==> made[j].x == made[j].y == 0 && made[j].color == 7
        invariant forall j, k :: 0 <= j < k < i ==> made[j] != made[k] && made[j].mem != made[k].mem
      {
        var tty := new Tty(Area(d));
        made := made + [tty];
      }
      var screen := new Device(made[0].mem[..]);
      this.d, ttys, device, current := d, made, screen, 0;
    }

    /** `tty_scroll`. */
    method Scroll(k: nat)
      requires Valid() && k < C.TTY_COUNT
      modifies ttys[k].mem, device
      ensures Valid() && Now() == C.ScrollOn(d, old(Now()), k)
    {
      ttys[k].ScrollCells(d);
      if k == current {
        device.Rerender(ttys[k]);
        device.UpdateCursor(ttys[k]);
      }
    }

    /** `tty_newline`. */
    method NewLine(k: nat)
      requires Valid() && k < C.TTY_COUNT
      modifies ttys[k], ttys[k].mem, device
      ensures Valid() && Now() == C.NewLineOn(d, old(Now()), k)
    {
      hide C.ScrollOn, Scrolled, Area;
      ttys[k].x := 0;
      ttys[k].y := ttys[k].y + 1;
      OnlyTty(k);
      if ttys[k].y >= d.h {
        Scroll(k);
        label Scrolled:
        ttys[k].y := d.h - 1;
        OnlyTty@Scrolled(k);
      }
    }

    /** `tty_set_char`: only the low 16 bits of the shifted colour and the signed character
        are stored. */
    method SetChar(k: nat, x: nat, y: nat, ch: Byte, color: Byte)
      requires Valid() && k < C.TTY_COUNT && x < d.w && y < d.h
      modifies ttys[k].mem, device
      ensures Valid() && Now() == C.SetCharOn(d, old(Now()), k, x, y, ch, color)
      ensures x + y * d.w < ttys[k].mem.Length
      ensures ttys[k].mem[x + y * d.w] == if ch < 128 then color * 256 + ch else 65280 + ch
      ensures forall c :: 0 <= c < ttys[k].mem.Length && c != x + y * d.w ==> ttys[k].mem[c] == old(ttys[k].mem[c])
      ensures device.cursor == old(device.cursor)
      ensures device.shadow ==
              if k == current then old(device.shadow)[x + y * d.w := color * 256 + ch] else old(device.shadow)
    {
      IndexInside(d, x, y);
      ttys[k].mem[x + y * d.w] := CellOf(color, ch);
      if k == current {
        device.SetChar(x + y * d.w, ch, color);
      }
    }

    /** `tty_set_string`. */
    method SetString(k: nat, x: nat, y: nat, width: nat, text: seq<Byte>, color: Byte)
      requires Valid() && k < C.TTY_COUNT && C.StringFits(d, x, y, width, text)
      modifies ttys[k].mem, device
      ensures Valid() && Now() == C.SetStringOn(d, old(Now()), k, x, y, width, text, color, 0)
      ensures forall i :: 0 <= i < |text| ==> C.PlaceOf(d, x, y, width, i) == x + i % width + (y + i / width) * d.w
      ensures forall i :: 0 <= i < |text| ==>
                var cell, ch: int, back: int := C.PlaceOf(d, x, y, width, i), text[i], color;
                cell < ttys[k].mem.Length && ttys[k].mem[cell] == if ch < 128 then back * 256 + ch else 65280 + ch
      ensures forall c | 0 <= c < ttys[k].mem.Length
                         && (forall i :: 0 <= i < |text| ==> c != C.PlaceOf(d, x, y, width, i)) ::
                ttys[k].mem[c] == old(ttys[k].mem[c])
      ensures ttys[k].x == old(ttys[k].x) && ttys[k].y == old(ttys[k].y) && ttys[k].color == old(ttys[k].color)
    {
      C.StringStored(d, Now(), k, x, y, width, text, color);
      hide *;
      SetCharacters(k, x, y, width, text, color);
      AtTerminal(k);
    }

    lemma AtTerminal(k: nat)
      requires Valid() && k < C.TTY_COUNT
      ensures Now().screens[k] == Screen(ttys[k].x, ttys[k].y, ttys[k].color, ttys[k].mem[..])
    {
    }

    method SetCharacters(k: nat, x: nat, y: nat, width: nat, text: seq<Byte>, color: Byte)
      requires Valid() && k < C.TTY_COUNT && C.StringFits(d, x, y, width, text)
      modifies ttys[k].mem, device
      ensures Valid() && Now() == C.SetStringOn(d, old(Now()), k, x, y, width, text, color, 0)
    {
      hide C.SetStringOn, C.SetCharOn;
      for i := 0 to |text|
        invariant Valid()
        invariant C.SetStringOn(d, Now(), k, x, y, width, text, color, i) ==
                  C.SetStringOn(d, old(Now()), k, x, y, width, text, color, 0)
      {
        C.SetStringTurn(d, Now(), k, x, y, width, text, color, i);
        SetChar(k, x + i % width, y + i / width, text[i], color);
      }
      C.SetStringTurn(d, Now(), k, x, y, width, text, color, |text|);
    }

    /** `tty_fill_color`. */
    method FillColor(k: nat, color: Byte)
      requires Valid() && k < C.TTY_COUNT
      modifies ttys[k], ttys[k].mem, device
      ensures Valid() && Now() == C.FillOn(d, old(Now()), k, color)
      ensures ttys[k].x == 0 && ttys[k].y == 0 && ttys[k].color == old(ttys[k].color)
      ensures forall c :: 0 <= c < ttys[k].mem.Length ==>
                ttys[k].mem[c] == if c / 2 < ttys[k].mem.Length / 2 then color * 256 + 32 else old(ttys[k].mem[c])
    {
      ttys[k].FillCells(d, color);
      ttys[k].x, ttys[k].y := 0, 0;
      if k == current {
        device.Rerender(ttys[k]);
        device.UpdateCursor(ttys[k]);
      }
    }

    /** `tty_switch`. */
    method Switch(k: nat)
      requires Valid() && k < C.TTY_COUNT
      modifies this, device
      ensures Valid() && Now() == C.SwitchOn(d, old(Now()), k)
    {
      if current == k {
        return;
      }
      current := k;
      device.Rerender(ttys[k]);
      device.UpdateCursor(ttys[k]);
    }

    /** `kset_color` for the process whose terminal is `k`. */
    method SetColor(k: nat, color: Byte)
      requires Valid() && k < C.TTY_COUNT
      modifies ttys[k]
      ensures Valid() && Now() == C.SetColorOn(old(Now()), k, color)
    {
      ttys[k].color := color;
      OnlyTty(k);
    }

    /** One turn of the printing loop on a byte that is not an escape. */
    method PrintByte(k: nat, ch: Byte)
      requires Valid() && k < C.TTY_COUNT && Fits(d, Now().screens[k])
      modifies ttys[k], ttys[k].mem, device
      ensures Valid() && Now() == C.ByteOn(d, old(Now()), k, ch)
    {
      hide C.NewLineOn, C.SetCharOn;
      if ch == NEWLINE {
        NewLine(k);
      } else if ch == RETURN {
        ttys[k].x := 0;
        OnlyTty(k);
      } else if ch == BACKSPACE {
        if ttys[k].x > 0 {
          ttys[k].x := ttys[k].x - 1;
        }
        OnlyTty(k);
      } else {
        SetChar(k, ttys[k].x, ttys[k].y, ch, ttys[k].color);
        label Put:
        ttys[k].x := ttys[k].x + 1;
        OnlyTty@Put(k);
        if ttys[k].x >= d.w {
          NewLine(k);
        }
      }
    }

    /** `tty_print`: the text without its terminator; the result is its length in bytes. */
    method Print(k: nat, text: seq<Byte>) returns (i: nat)
      requires Valid() && k < C.TTY_COUNT && Fits(d, Now().screens[k])
      modifies ttys[k], ttys[k].mem, device
      ensures Valid() && Now() == C.PrintOn(d, old(Now()), k, text)
      ensures i == |text|
    {
      hide C.BytesOn, C.ByteOn;
      i := 0;
      while i < |text|
        invariant Valid() && i <= |text| && Fits(d, Now().screens[k])
        invariant C.BytesOn(d, Now(), k, text[i..]) == C.BytesOn(d, old(Now()), k, text)
      {
        C.BytesTurn(d, Now(), k, text[i..]);
        assert text[i..][1..] == text[i + 1..] && (i + 2 <= |text| ==> text[i..][2..] == text[i + 2..]);
        if text[i] == SET_COLOR {
          i := i + 1;
          if i == |text| {
            assert Now() == C.BytesOn(d, old(Now()), k, text);
            break;
          }
          SetColor(k, text[i]);
        } else {
          PrintByte(k, text[i]);
        }
        i := i + 1;
      }
      C.BytesTurn(d, Now(), k, []);
      assert text[|text|..] == [];
      if k == current {
        device.UpdateCursor(ttys[k]);
      }
    }

    /** `kprint_ok_fail` for the process whose terminal is `k`. */
    method PrintOkFail(k: nat, text: seq<Byte>, ok: bool) returns (width: nat)
      requires Valid() && k < C.TTY_COUNT && C.Sound(d, Now())
      requires Padding(d.w, |text|, ok) <= 0xFF
      modifies ttys[k], ttys[k].mem, device
      ensures Valid() && Now() == C.StatusOn(d, old(Now()), k, text, ok)
      ensures width == d.w
    {
      hide C.PrintOn, Tag, Padding, C.BytesOn;
      ghost var st := Now();
      var len := Print(k, text);
      C.PrintOnScreen(d, st, k, text);
      ghost var printed := Now();
      var bound := Padding(d.w, len, ok);
      var i := 0;
      while i < bound
        invariant 0 <= i <= bound
        invariant Valid() && C.Sound(d, printed) && Now() == C.PadOn(d, printed, k, i)
        decreases bound - i
      {
        var _ := Print(k, [SPACE]);
        i := (i + 1) % 0x100;
      }
      var oldColor := ttys[k].color;
      var _ := Print(k, Tag(ok));
      SetColor(k, oldColor);
      width := d.w;
    }
  }
}
