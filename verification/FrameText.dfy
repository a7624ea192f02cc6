/**
 How the debug card's frame lays text out: wrapping to a fixed line width with
 indent and padding, escape sequences taking no room, one delimiter per line.
 The layout is given cell by cell, so that what was added can be told from what
 came in.
 */
module FrameText {
  const DELIMITER: char := '\U{1F}'
  const ESC: char := '\U{1B}'
  const LINE_WIDTH := 16
  const LINE_PER_PAGE := 7

  /** Escape state: 0 outside, 1 after ESC, 2 inside a control sequence. */
  type EscState = n: int | 0 <= n <= 2

  /** frame_isEscSeq: the next state, and whether the character belongs to a sequence. */
  function EscNext(s: EscState, c: char): EscState {
    if s == 0 && c == ESC then 1
    else if s == 1 && c == '[' then 2
    else if s == 1 then 0
    else if s == 2 && '@' <= c <= '~' then 0
    else s
  }

  predicate InEsc(s: EscState, c: char) {
    s != 0 || EscNext(s, c) != 0
  }

  function EscAfter(s: EscState, input: string): EscState
    decreases input
  {
    if input == [] then s else EscAfter(EscNext(s, input[0]), input[1..])
  }

  datatype Kind = Indent | Text | Escape | Pad | Delim

  datatype Cell = Cell(c: char, kind: Kind)

  /** A place in the layout: position in the line, escape state, input left. */
  datatype Place = Place(pos: nat, s: EscState, input: string)

  /** The cell put out next, and the place after it. */
  function Step(p: Place, indent: nat, width: nat): (r: (Cell, Place))
    requires p.pos <= width && indent < width && p.input != []
    ensures r.1.pos <= width
  {
    var c := p.input[0];
    var s' := EscNext(p.s, c);
    if p.pos < indent then (Cell(' ', Indent), p.(pos := p.pos + 1))
    else if InEsc(p.s, c) then (Cell(c, Escape), Place(p.pos, s', p.input[1..]))
    else if p.pos == width then (Cell(DELIMITER, Delim), Place(0, s', p.input))
    else (Cell(c, Text), Place(p.pos + 1, s', p.input[1..]))
  }

  /** Steps left before a character of the input is consumed. */
  function Room(p: Place, indent: nat, width: nat): nat {
    if p.pos < indent then indent - p.pos else if p.pos == width then width + 1 else 0
  }

  /** The layout from a place on. */
  function Layout(p: Place, indent: nat, width: nat): seq<Cell>
    requires p.pos <= width && indent < width
    decreases |p.input|, Room(p, indent, width)
  {
    if p.input == [] then Padding(width - p.pos) + [Cell(DELIMITER, Delim)]
    else
      var (cell, next) := Step(p, indent, width);
      [cell] + Layout(next, indent, width)
  }

  function Padding(n: nat): seq<Cell> {
    seq(n, _ => Cell(' ', Pad))
  }

  function Chars(cells: seq<Cell>): string {
    seq(|cells|, i requires 0 <= i < |cells| => cells[i].c)
  }

  /** What is left when indents, padding and delimiters are taken out. */
  function Kept(cells: seq<Cell>): string {
    if cells == [] then []
    else (if cells[0].kind == Text || cells[0].kind == Escape then [cells[0].c] else []) + Kept(cells[1..])
  }

  /** Behind its indents the line goes on with input that takes a place. */
  predicate OpensWithText(cells: seq<Cell>) {
    cells != [] && (cells[0].kind == Text || (cells[0].kind == Indent && OpensWithText(cells[1..])))
  }

  /** Line after line, each with exactly `width` cells that are not part of an
      escape sequence and then one delimiter.  Indents fill the first `indent`
      places of a line with input, and input stands only behind them; a line
      after the first begins with text; padding only fills the end of the last. */
  predicate WellLined(cells: seq<Cell>, pos: nat, indent: nat, width: nat) {
    if cells == [] then false
    else
      var rest := cells[1..];
      match cells[0].kind
      case Delim =>
        && cells[0].c == DELIMITER && pos == width
        && (rest == [] || (OpensWithText(rest) && WellLined(rest, 0, indent, width)))
      case Escape => pos >= indent && WellLined(rest, pos, indent, width)
      case Text => pos >= indent && pos < width && WellLined(rest, pos + 1, indent, width)
      case Indent =>
        && cells[0].c == ' ' && pos < indent && WellLined(rest, pos + 1, indent, width)
        && rest[0].kind != Pad && rest[0].kind != Delim
      case Pad =>
        && cells[0].c == ' ' && pos < width && WellLined(rest, pos + 1, indent, width)
        && (rest[0].kind == Pad || rest == [Cell(DELIMITER, Delim)])
  }

  /** Every input cell carries the tag the escape automaton gives it. */
  predicate TagsFollow(cells: seq<Cell>, s: EscState) {
    if cells == [] then true
    else
      match cells[0].kind
      case Escape => InEsc(s, cells[0].c) && TagsFollow(cells[1..], EscNext(s, cells[0].c))
      case Text => !InEsc(s, cells[0].c) && TagsFollow(cells[1..], EscNext(s, cells[0].c))
      case _ => TagsFollow(cells[1..], s)
  }

  function Count(s: string): nat {
    if s == [] then 0 else (if s[0] == DELIMITER then 1 else 0) + Count(s[1..])
  }

  function DelimCells(cells: seq<Cell>): nat {
    if cells == [] then 0 else (if cells[0].kind == Delim then 1 else 0) + DelimCells(cells[1..])
  }

  predicate DelimiterFree(s: string) {
    DELIMITER !in s
  }

  // ----- The layout is exact and lossless -----

  lemma CharsCons(cell: Cell, rest: seq<Cell>)
    ensures Chars([cell] + rest) == [cell.c] + Chars(rest)
  {
  }

  lemma {:induction false} PaddingIsLined(n: nat, pos: nat, indent: nat, width: nat, s: EscState)
    requires pos + n == width && indent < width
    ensures var cells := Padding(n) + [Cell(DELIMITER, Delim)];
            && WellLined(cells, pos, indent, width) && Kept(cells) == [] && TagsFollow(cells, s)
            && Count(Chars(cells)) == DelimCells(cells) == 1
    decreases n
  {
    var cells := Padding(n) + [Cell(DELIMITER, Delim)];
    CharsCons(cells[0], cells[1..]);
    assert cells == [cells[0]] + cells[1..];
    if n > 0 {
      assert cells[1..] == Padding(n - 1) + [Cell(DELIMITER, Delim)];
      PaddingIsLined(n - 1, pos + 1, indent, width, s);
    } else {
      assert cells[1..] == [];
    }
  }

  lemma {:induction false} LayoutIsExact(p: Place, indent: nat, width: nat)
    requires p.pos <= width && indent < width
    ensures WellLined(Layout(p, indent, width), p.pos, indent, width)
    decreases |p.input|, Room(p, indent, width)
  {
    if p.input == [] {
      PaddingIsLined(width - p.pos, p.pos, indent, width, p.s);
    } else {
      var (cell, next) := Step(p, indent, width);
      LayoutIsExact(next, indent, width);
      var rest := Layout(next, indent, width);
      assert ([cell] + rest)[1..] == rest;
      if cell.kind == Delim {
        LineOpens(next, indent, width);
      }
    }
  }

  /** In front of a character that takes a place, from the start of a line. */
  lemma {:induction false} LineOpens(p: Place, indent: nat, width: nat)
    requires p.pos <= indent < width && p.input != [] && !InEsc(p.s, p.input[0])
    ensures OpensWithText(Layout(p, indent, width))
    decreases indent - p.pos
  {
    var (cell, next) := Step(p, indent, width);
    assert ([cell] + Layout(next, indent, width))[1..] == Layout(next, indent, width);
    if p.pos < indent {
      LineOpens(next, indent, width);
    }
  }

  lemma {:induction false} LayoutIsLossless(p: Place, indent: nat, width: nat)
    requires p.pos <= width && indent < width
    ensures Kept(Layout(p, indent, width)) == p.input && TagsFollow(Layout(p, indent, width), p.s)
    decreases |p.input|, Room(p, indent, width)
  {
    if p.input == [] {
      PaddingIsLined(width - p.pos, p.pos, indent, width, p.s);
    } else {
      var (cell, next) := Step(p, indent, width);
      LayoutIsLossless(next, indent, width);
    }
  }

  /** Padding is followed by padding and the last delimiter alone, an indent always
      by input. */
  lemma {:induction false} FillerKeeps(cells: seq<Cell>, pos: nat, indent: nat, width: nat)
    requires WellLined(cells, pos, indent, width) && pos <= width && indent < width
    ensures cells[0].kind == Pad ==> cells == Padding(width - pos) + [Cell(DELIMITER, Delim)] && Kept(cells) == []
    ensures cells[0].kind == Indent ==> Kept(cells) != []
    decreases cells
  {
    if cells[0].kind == Pad || cells[0].kind == Indent {
      FillerKeeps(cells[1..], pos + 1, indent, width);
      assert cells == [cells[0]] + cells[1..];
    }
  }

  lemma {:induction false} OpeningIsKept(cells: seq<Cell>, s: EscState)
    requires OpensWithText(cells) && TagsFollow(cells, s)
    ensures Kept(cells) != [] && !InEsc(s, Kept(cells)[0])
    decreases cells
  {
    if cells[0].kind == Indent {
      OpeningIsKept(cells[1..], s);
    }
  }

  /** The first cell, unless only filler is left, is the one the next step puts. */
  lemma FirstCellIsNext(cells: seq<Cell>, p: Place, indent: nat, width: nat)
    requires p.pos <= width && indent < width
    requires WellLined(cells, p.pos, indent, width) && TagsFollow(cells, p.s) && Kept(cells) == p.input
    requires cells[0].kind != Pad && |cells| > 1
    ensures p.input != []
    ensures var (cell, next) := Step(p, indent, width);
            && cell == cells[0] && WellLined(cells[1..], next.pos, indent, width)
            && TagsFollow(cells[1..], next.s) && Kept(cells[1..]) == next.input
  {
    if cells[0].kind == Delim {
      OpeningIsKept(cells[1..], p.s);
    } else if cells[0].kind == Indent {
      FillerKeeps(cells, p.pos, indent, width);
    }
  }

  /** There is only one such way to lay out a text: cells that are lined like this,
      carry the automaton's tags and keep the input are the layout. */
  lemma {:induction false} LayoutIsUnique(cells: seq<Cell>, p: Place, indent: nat, width: nat)
    requires p.pos <= width && indent < width
    requires WellLined(cells, p.pos, indent, width) && TagsFollow(cells, p.s) && Kept(cells) == p.input
    ensures cells == Layout(p, indent, width)
    decreases cells
  {
    if cells[0].kind == Pad {
      FillerKeeps(cells, p.pos, indent, width);
    } else if |cells| > 1 {
      FirstCellIsNext(cells, p, indent, width);
      LayoutIsUnique(cells[1..], Step(p, indent, width).1, indent, width);
      assert cells == [cells[0]] + cells[1..];
    } else {
      assert cells == [Cell(DELIMITER, Delim)];
    }
  }

  lemma CountCons(cell: Cell, rest: seq<Cell>)
    ensures Count(Chars([cell] + rest)) == (if cell.c == DELIMITER then 1 else 0) + Count(Chars(rest))
    ensures DelimCells([cell] + rest) == (if cell.kind == Delim then 1 else 0) + DelimCells(rest)
  {
    CharsCons(cell, rest);
    assert ([cell] + rest)[1..] == rest && ([cell.c] + Chars(rest))[1..] == Chars(rest);
  }

  /** For delimiter-free input the delimiters of the output are the line ends. */
  lemma {:induction false} LayoutCountsLines(p: Place, indent: nat, width: nat)
    requires p.pos <= width && indent < width && DelimiterFree(p.input)
    ensures var cells := Layout(p, indent, width);
            && Count(Chars(cells)) == DelimCells(cells) > 0
            && cells[|cells| - 1] == Cell(DELIMITER, Delim)
    decreases |p.input|, Room(p, indent, width)
  {
    if p.input == [] {
      PaddingIsLined(width - p.pos, p.pos, indent, width, p.s);
    } else {
      var (cell, next) := Step(p, indent, width);
      assert p.input[0] in p.input && forall x :: x in p.input[1..] ==> x in p.input;
      LayoutCountsLines(next, indent, width);
      CountCons(cell, Layout(next, indent, width));
    }
  }

  /** The text of a whole call: laid out from the start of a line. */
  function Wrapped(s: EscState, input: string, indent: nat, width: nat): string
    requires indent < width
  {
    Chars(Layout(Place(0, s, input), indent, width))
  }

  /** A call consumes its input's effect on the escape state and nothing else. */
  lemma {:induction false} EscAfterAppend(s: EscState, a: string, c: char)
    ensures EscAfter(s, a + [c]) == EscNext(EscAfter(s, a), c)
    decreases a
  {
    if a == [] {
      assert [c][1..] == [];
    } else {
      assert (a + [c])[1..] == a[1..] + [c];
      EscAfterAppend(EscNext(s, a[0]), a[1..], c);
    }
  }

  lemma EscAfterNext(s: EscState, input: string, j: nat)
    requires j < |input|
    ensures EscAfter(s, input[..j + 1]) == EscNext(EscAfter(s, input[..j]), input[j])
  {
    assert input[..j + 1] == input[..j] + [input[j]];
    EscAfterAppend(s, input[..j], input[j]);
  }

  /** Only input, blanks and delimiters come out. */
  lemma {:induction false} LayoutAlphabet(p: Place, indent: nat, width: nat)
    requires p.pos <= width && indent < width
    ensures forall x :: x in Layout(p, indent, width) ==>
              if x.kind == Text || x.kind == Escape then x.c in p.input else x.c == ' ' || x.c == DELIMITER
    decreases |p.input|, Room(p, indent, width)
  {
    if p.input != [] {
      var (cell, next) := Step(p, indent, width);
      LayoutAlphabet(next, indent, width);
    }
  }

  /** Without an escape byte, and outside a sequence, nothing is tagged as one. */
  lemma {:induction false} LayoutEscapeFree(p: Place, indent: nat, width: nat)
    requires p.pos <= width && indent < width && p.s == 0 && ESC !in p.input
    ensures forall x :: x in Layout(p, indent, width) ==> x.kind != Escape
    decreases |p.input|, Room(p, indent, width)
  {
    if p.input != [] {
      assert p.input[0] in p.input && forall x :: x in p.input[1..] ==> x in p.input;
      var (cell, next) := Step(p, indent, width);
      LayoutEscapeFree(next, indent, width);
    }
  }

  // ----- Which characters are part of an escape sequence -----

  function Tagged(s: string, k: Kind): seq<Cell> {
    seq(|s|, i requires 0 <= i < |s| => Cell(s[i], k))
  }

  /** In front of input the rest of the indent is put out. */
  lemma {:induction false} IndentsFirst(p: Place, indent: nat, width: nat)
    requires p.pos <= indent < width && p.input != []
    ensures Layout(p, indent, width) ==
            seq(indent - p.pos, _ => Cell(' ', Indent)) + Layout(p.(pos := indent), indent, width)
    decreases indent - p.pos
  {
    if p.pos < indent {
      IndentsFirst(p.(pos := p.pos + 1), indent, width);
      assert seq(indent - p.pos, _ => Cell(' ', Indent)) ==
             [Cell(' ', Indent)] + seq(indent - p.pos - 1, _ => Cell(' ', Indent));
    }
  }

  /** Inside a control sequence everything up to a final byte, 0x40 to 0x7E, takes no
      room, and behind it the sequence is over. */
  lemma {:induction false} SequenceEnds(pos: nat, params: string, f: char, rest: string, indent: nat, width: nat)
    requires indent <= pos <= width && indent < width
    requires (forall c :: c in params ==> !(0x40 <= c as int <= 0x7E)) && 0x40 <= f as int <= 0x7E
    ensures Layout(Place(pos, 2, params + [f] + rest), indent, width) ==
            Tagged(params + [f], Escape) + Layout(Place(pos, 0, rest), indent, width)
    ensures EscAfter(2, params + [f]) == 0
    decreases params
  {
    var input := params + [f] + rest;
    if params == [] {
      assert input[1..] == rest && (params + [f])[1..] == [];
    } else {
      assert params[0] in params && forall c :: c in params[1..] ==> c in params;
      assert input[1..] == params[1..] + [f] + rest && (params + [f])[1..] == params[1..] + [f];
      SequenceEnds(pos, params[1..], f, rest, indent, width);
      assert Tagged(params + [f], Escape) == [Cell(params[0], Escape)] + Tagged(params[1..] + [f], Escape);
    }
  }

  /** A control sequence is ESC, `[`, parameters and a final byte: none of it takes
      room, and what follows is laid out as if it stood there alone. */
  lemma ControlSequenceIsSkipped(pos: nat, params: string, f: char, rest: string, indent: nat, width: nat)
    requires indent <= pos <= width && indent < width
    requires (forall c :: c in params ==> !(0x40 <= c as int <= 0x7E)) && 0x40 <= f as int <= 0x7E
    ensures var sequence := ['\U{1B}', '['] + params + [f];
            && Layout(Place(pos, 0, sequence + rest), indent, width) ==
               Tagged(sequence, Escape) + Layout(Place(pos, 0, rest), indent, width)
            && EscAfter(0, sequence) == 0
  {
    var tail := params + [f];
    var sequence := ['\U{1B}', '['] + params + [f];
    assert sequence + rest == ['\U{1B}'] + (['['] + (tail + rest));
    assert (['\U{1B}'] + (['['] + (tail + rest)))[1..] == ['['] + (tail + rest);
    assert (['['] + (tail + rest))[1..] == tail + rest;
    SequenceEnds(pos, params, f, rest, indent, width);
    assert sequence[1..] == ['['] + tail && (['['] + tail)[1..] == tail;
    assert Tagged(sequence, Escape) == [Cell('\U{1B}', Escape), Cell('[', Escape)] + Tagged(tail, Escape);
  }

  /** Any other escape sequence is ESC and one character. */
  lemma ShortSequenceIsSkipped(pos: nat, c: char, rest: string, indent: nat, width: nat)
    requires indent <= pos <= width && indent < width && c != '['
    ensures Layout(Place(pos, 0, ['\U{1B}', c] + rest), indent, width) ==
            [Cell('\U{1B}', Escape), Cell(c, Escape)] + Layout(Place(pos, 0, rest), indent, width)
    ensures EscAfter(0, ['\U{1B}', c]) == 0
  {
    var input := ['\U{1B}', c] + rest;
    assert input[1..] == [c] + rest && ([c] + rest)[1..] == rest && ['\U{1B}', c][1..] == [c] && [c][1..] == [];
    assert EscAfter(1, [c]) == 0;
  }

  /** Any other character outside a sequence takes a place, on the next line if this
      one is full. */
  lemma PlainTakesAPlace(pos: nat, c: char, rest: string, indent: nat, width: nat)
    requires indent <= pos <= width && indent < width && c as int != 0x1B
    ensures Layout(Place(pos, 0, [c] + rest), indent, width) ==
            if pos < width then [Cell(c, Text)] + Layout(Place(pos + 1, 0, rest), indent, width)
            else [Cell(DELIMITER, Delim)] + Layout(Place(0, 0, [c] + rest), indent, width)
    ensures EscAfter(0, [c]) == 0
  {
    assert '\U{1B}' as int == 0x1B;
    assert ([c] + rest)[1..] == rest && [c][1..] == [];
  }

  /** Where a call may leave off inside a sequence. */
  lemma UnfinishedSequences(params: string)
    requires forall c :: c in params ==> !(0x40 <= c as int <= 0x7E)
    ensures EscAfter(0, ['\U{1B}']) == 1 && EscAfter(0, ['\U{1B}', '['] + params) == 2
    ensures EscAfter(1, ['['] + params) == 2 && EscAfter(2, params) == 2
  {
    ParametersStay(params);
    assert ['\U{1B}'][1..] == [] && (['['] + params)[1..] == params;
    assert (['\U{1B}', '['] + params)[1..] == ['['] + params;
  }

  lemma {:induction false} ParametersStay(params: string)
    requires forall c :: c in params ==> !(0x40 <= c as int <= 0x7E)
    ensures EscAfter(2, params) == 2
    decreases params
  {
    if params != [] {
      assert params[0] in params && forall c :: c in params[1..] ==> c in params;
      ParametersStay(params[1..]);
    }
  }
}
