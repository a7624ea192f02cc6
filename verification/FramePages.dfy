/**
 The pages of a frame: each takes the next LINE_PER_PAGE lines of the stored
 text, without their delimiters.
 */
module FramePages {
  import opened FrameText

  /** The stored text behind its first `n` delimiters. */
  function SkipLines(s: string, n: nat): string
    decreases s
  {
    if n == 0 || s == [] then s
    else SkipLines(s[1..], if s[0] == DELIMITER then n - 1 else n)
  }

  /** The characters of the first `n` lines. */
  function TakeLines(s: string, n: nat): string
    decreases s
  {
    if n == 0 || s == [] then []
    else if s[0] == DELIMITER then TakeLines(s[1..], n - 1)
    else [s[0]] + TakeLines(s[1..], n)
  }

  function Strip(s: string): string {
    if s == [] then [] else (if s[0] == DELIMITER then [] else [s[0]]) + Strip(s[1..])
  }

  function Body(s: string, page: nat): string
    requires page >= 1
  {
    TakeLines(SkipLines(s, (page - 1) * LINE_PER_PAGE), LINE_PER_PAGE)
  }

  function Bodies(s: string, pages: nat): string {
    if pages == 0 then [] else Bodies(s, pages - 1) + Body(s, pages)
  }

  function PagesFor(lines: nat): nat {
    lines / LINE_PER_PAGE + (if lines % LINE_PER_PAGE != 0 then 1 else 0)
  }

  predicate Complete(s: string) {
    s == [] || s[|s| - 1] == DELIMITER
  }

  /** No line is longer than `width`; `at` characters of the first are already gone. */
  predicate Narrow(s: string, at: nat, width: nat) {
    at <= width && (s == [] || Narrow(s[1..], if s[0] == DELIMITER then 0 else at + 1, width))
  }

  lemma {:induction false} TakeThenSkip(s: string, n: nat)
    ensures TakeLines(s, n) + Strip(SkipLines(s, n)) == Strip(s)
    decreases s
  {
    if n > 0 && s != [] {
      TakeThenSkip(s[1..], if s[0] == DELIMITER then n - 1 else n);
    }
  }

  lemma {:induction false} SkipAgain(s: string, m: nat, n: nat)
    ensures SkipLines(SkipLines(s, m), n) == SkipLines(s, m + n)
    decreases s
  {
    if m > 0 && s != [] {
      SkipAgain(s[1..], if s[0] == DELIMITER then m - 1 else m, n);
    }
  }

  lemma {:induction false} HasDelimiter(s: string)
    requires s != [] && s[|s| - 1] == DELIMITER
    ensures Count(s) > 0
  {
    if |s| > 1 {
      HasDelimiter(s[1..]);
    }
  }

  /** Skipping at least all lines leaves nothing, unless it is just those and a cut
      line follows. */
  lemma {:induction false} SkipAllIff(s: string, n: nat)
    requires Count(s) <= n
    ensures SkipLines(s, n) == [] <==> n > Count(s) || Complete(s)
    ensures Strip(SkipLines(s, n)) == [] <==> SkipLines(s, n) == []
    decreases s
  {
    if s != [] {
      if Complete(s) {
        HasDelimiter(s);
      }
      if n > 0 {
        SkipAllIff(s[1..], if s[0] == DELIMITER then n - 1 else n);
      }
    }
  }

  lemma {:induction false} BodiesCover(s: string, pages: nat)
    ensures Bodies(s, pages) + Strip(SkipLines(s, pages * LINE_PER_PAGE)) == Strip(s)
  {
    if pages > 0 {
      BodiesCover(s, pages - 1);
      var rest := SkipLines(s, (pages - 1) * LINE_PER_PAGE);
      TakeThenSkip(rest, LINE_PER_PAGE);
      SkipAgain(s, (pages - 1) * LINE_PER_PAGE, LINE_PER_PAGE);
    }
  }

  /** The pages, one after the other, are the text without its delimiters exactly
      if the text is complete or the cut line behind it falls on a started page. */
  lemma PagesPartitionIff(s: string)
    ensures Bodies(s, PagesFor(Count(s))) == Strip(s) <==> Complete(s) || Count(s) % LINE_PER_PAGE != 0
  {
    var pages := PagesFor(Count(s));
    BodiesCover(s, pages);
    SkipAllIff(s, pages * LINE_PER_PAGE);
  }

  lemma {:induction false} NarrowSkip(s: string, at: nat, n: nat, width: nat)
    requires Narrow(s, at, width)
    ensures Narrow(SkipLines(s, n), if n == 0 then at else 0, width)
    decreases s
  {
    if n > 0 && s != [] {
      NarrowSkip(s[1..], if s[0] == DELIMITER then 0 else at + 1, if s[0] == DELIMITER then n - 1 else n, width);
    }
  }

  lemma {:induction false} NarrowTake(s: string, at: nat, n: nat, width: nat)
    requires Narrow(s, at, width)
    ensures n > 0 ==> |TakeLines(s, n)| + at <= n * width
    decreases s
  {
    if n > 0 && s != [] {
      if s[0] == DELIMITER {
        NarrowTake(s[1..], 0, n - 1, width);
        assert (n - 1) * width + width == n * width;
      } else {
        NarrowTake(s[1..], at + 1, n, width);
      }
    } else if n > 0 {
      assert width <= n * width;
    }
  }

  /** A page of lines no wider than the frame is at most seven full lines. */
  lemma BodyFits(s: string, page: nat)
    requires page >= 1 && Narrow(s, 0, LINE_WIDTH)
    ensures |Body(s, page)| <= LINE_PER_PAGE * LINE_WIDTH
  {
    var n := (page - 1) * LINE_PER_PAGE;
    NarrowSkip(s, 0, n, LINE_WIDTH);
    NarrowTake(SkipLines(s, n), 0, LINE_PER_PAGE, LINE_WIDTH);
  }

  // ----- Text made of laid out lines -----

  lemma {:induction false} CountAppend(a: string, b: string)
    ensures Count(a + b) == Count(a) + Count(b)
  {
    if a == [] {
      assert a + b == b;
    } else {
      assert (a + b)[1..] == a[1..] + b;
      CountAppend(a[1..], b);
    }
  }

  lemma {:induction false} NarrowAppend(a: string, at: nat, b: string, width: nat)
    requires Narrow(a, at, width) && Complete(a) && (a == [] ==> at == 0) && Narrow(b, 0, width)
    ensures Narrow(a + b, at, width)
    decreases a
  {
    if a == [] {
      assert a + b == b;
    } else {
      assert (a + b)[1..] == a[1..] + b;
      NarrowAppend(a[1..], if a[0] == DELIMITER then 0 else at + 1, b, width);
    }
  }

  /** Without escape sequences a laid out text has no line wider than the frame. */
  lemma {:induction false} LinedIsNarrow(cells: seq<Cell>, pos: nat, indent: nat, width: nat)
    requires WellLined(cells, pos, indent, width) && pos <= width && indent < width
    requires forall c :: c in cells ==> c.kind != Escape && (c.c == DELIMITER <==> c.kind == Delim)
    ensures Narrow(Chars(cells), pos, width)
    decreases cells
  {
    assert Chars(cells)[1..] == Chars(cells[1..]);
    assert cells[0] in cells && forall c :: c in cells[1..] ==> c in cells;
    if |cells| > 1 {
      LinedIsNarrow(cells[1..], if cells[0].kind == Delim then 0 else pos + 1, indent, width);
    }
  }

  lemma WrappedIsNarrow(input: string, indent: nat, width: nat)
    requires indent < width && DelimiterFree(input) && ESC !in input
    ensures Narrow(Wrapped(0, input, indent, width), 0, width) && Complete(Wrapped(0, input, indent, width))
  {
    var p := Place(0, 0, input);
    var cells := Layout(p, indent, width);
    LayoutIsExact(p, indent, width);
    LayoutAlphabet(p, indent, width);
    LayoutEscapeFree(p, indent, width);
    LayoutCountsLines(p, indent, width);
    LinedAlphabet(cells, 0, indent, width);
    LinedIsNarrow(cells, 0, indent, width);
  }

  /** In lines, a delimiter cell holds the delimiter, a filler cell a blank. */
  lemma {:induction false} LinedAlphabet(cells: seq<Cell>, pos: nat, indent: nat, width: nat)
    requires WellLined(cells, pos, indent, width)
    ensures forall c :: c in cells ==>
              (c.kind == Delim ==> c.c == DELIMITER) && (c.kind == Indent || c.kind == Pad ==> c.c == ' ')
    decreases cells
  {
    if |cells| > 1 {
      var pos' := if cells[0].kind == Delim then 0 else if cells[0].kind == Escape then pos else pos + 1;
      LinedAlphabet(cells[1..], pos', indent, width);
      assert cells == [cells[0]] + cells[1..];
    }
  }

  lemma {:induction false} NarrowEarlier(s: string, at: nat, at': nat, width: nat)
    requires Narrow(s, at, width) && at' <= at
    ensures Narrow(s, at', width)
    decreases s
  {
    if s != [] && s[0] != DELIMITER {
      NarrowEarlier(s[1..], at + 1, at' + 1, width);
    }
  }

  /** Overwriting from either end leaves no wider lines. */
  lemma {:induction false} NarrowSuffix(s: string, k: nat, width: nat)
    requires Narrow(s, 0, width) && k <= |s|
    ensures Narrow(s[k..], 0, width)
    decreases k
  {
    if k > 0 {
      NarrowEarlier(s[1..], if s[0] == DELIMITER then 0 else 1, 0, width);
      NarrowSuffix(s[1..], k - 1, width);
      assert s[1..][k - 1..] == s[k..];
    } else {
      assert s[0..] == s;
    }
  }

  lemma {:induction false} NarrowPrefix(s: string, at: nat, k: nat, width: nat)
    requires Narrow(s, at, width) && k <= |s|
    ensures Narrow(s[..k], at, width)
    decreases k
  {
    if k > 0 {
      NarrowPrefix(s[1..], if s[0] == DELIMITER then 0 else at + 1, k - 1, width);
      assert s[..k][1..] == s[1..][..k - 1];
    }
  }

  /** The piece of a line behind the last delimiter. */
  function Tail(s: string): string {
    if s == [] then [] else if Count(s) == 0 then s else Tail(s[1..])
  }

  lemma {:induction false} TailEmptyIff(s: string)
    ensures Tail(s) == [] <==> Complete(s)
  {
    if s != [] {
      if Complete(s) {
        HasDelimiter(s);
      }
      TailEmptyIff(s[1..]);
      if s[1..] == [] {
        assert s == [s[0]];
      } else {
        assert s[1..][|s| - 2] == s[|s| - 1];
      }
    }
  }

  /** What follows continues the line the text ends in. */
  lemma {:induction false} NarrowJoinIff(s: string, at: nat, w: string, width: nat)
    requires Narrow(s, at, width)
    ensures Narrow(s + w, at, width) <==>
            Narrow(w, if Count(s) == 0 then at + |s| else |Tail(s)|, width)
    decreases s
  {
    if s == [] {
      assert s + w == w;
    } else {
      assert (s + w)[1..] == s[1..] + w;
      NarrowJoinIff(s[1..], if s[0] == DELIMITER then 0 else at + 1, w, width);
    }
  }

  /** Characters without a delimiter need their room, and fit if there is room. */
  lemma {:induction false} FilledLine(s: string, at: nat, n: nat, width: nat)
    requires n <= |s| && DELIMITER !in s[..n] && Narrow(s, at, width)
    ensures at + n <= width
    decreases n
  {
    if n > 0 {
      assert s[..n][0] == s[0] && s[1..][..n - 1] == s[..n][1..];
      FilledLine(s[1..], at + 1, n - 1, width);
    }
  }

  lemma {:induction false} ShortIsNarrow(s: string, at: nat, width: nat)
    requires at + |s| <= width
    ensures Narrow(s, at, width)
    decreases s
  {
    if s != [] {
      ShortIsNarrow(s[1..], if s[0] == DELIMITER then 0 else at + 1, width);
    }
  }

  /** Without escape sequences the first line is full. */
  lemma {:induction false} FirstLineIsFull(cells: seq<Cell>, pos: nat, indent: nat, width: nat)
    requires WellLined(cells, pos, indent, width) && pos <= width
    requires forall c :: c in cells ==> c.kind != Escape && (c.c == DELIMITER <==> c.kind == Delim)
    ensures width - pos < |cells| && DELIMITER !in Chars(cells)[..width - pos]
    decreases cells
  {
    if pos < width {
      assert cells[0] in cells && forall c :: c in cells[1..] ==> c in cells;
      FirstLineIsFull(cells[1..], pos + 1, indent, width);
      assert Chars(cells)[..width - pos] == [cells[0].c] + Chars(cells[1..])[..width - pos - 1];
    }
  }

  lemma WrappedStartsFull(input: string, indent: nat, width: nat)
    requires indent < width && DelimiterFree(input) && ESC !in input
    ensures |Wrapped(0, input, indent, width)| > width && DELIMITER !in Wrapped(0, input, indent, width)[..width]
  {
    var p := Place(0, 0, input);
    LayoutIsExact(p, indent, width);
    LayoutAlphabet(p, indent, width);
    LayoutEscapeFree(p, indent, width);
    LinedAlphabet(Layout(p, indent, width), 0, indent, width);
    FirstLineIsFull(Layout(p, indent, width), 0, indent, width);
  }

  /** Behind a text that ends in a piece of a line, a full line only stays narrow
      if so much of it is cut off. */
  lemma NarrowCutIff(at: nat, w: string, k: nat, width: nat)
    requires at <= width < |w| && k <= |w| && DELIMITER !in w[..width] && Narrow(w, 0, width)
    ensures Narrow(w[..k], at, width) <==> at == 0 || at + k <= width
  {
    var n := if k < width then k else width;
    assert w[..k][..n] == w[..width][..n];
    if Narrow(w[..k], at, width) {
      FilledLine(w[..k], at, n, width);
    }
    if at == 0 {
      NarrowPrefix(w, 0, k, width);
    } else if at + k <= width {
      ShortIsNarrow(w[..k], at, width);
    }
  }

  lemma TailFits(s: string, width: nat)
    requires Narrow(s, 0, width)
    ensures |Tail(s)| <= width
    ensures Count(s) == 0 ==> Tail(s) == s
  {
    NarrowJoinIff(s, 0, [], width);
    assert s + [] == s;
  }

  // ----- Pages by lines -----

  /** Lines, each with the delimiter behind it. */
  function Text(lines: seq<string>): string {
    if lines == [] then [] else lines[0] + [DELIMITER] + Text(lines[1..])
  }

  function Joined(lines: seq<string>): string {
    if lines == [] then [] else lines[0] + Joined(lines[1..])
  }

  lemma {:induction false} SkipLine(l: string, s: string, n: nat)
    requires DelimiterFree(l) && n > 0
    ensures SkipLines(l + [DELIMITER] + s, n) == SkipLines(s, n - 1)
    ensures TakeLines(l + [DELIMITER] + s, n) == l + TakeLines(s, n - 1)
    decreases l
  {
    var t := l + [DELIMITER] + s;
    if l == [] {
      assert t[1..] == s;
    } else {
      assert t[1..] == l[1..] + [DELIMITER] + s && DelimiterFree(l[1..]);
      SkipLine(l[1..], s, n);
    }
  }

  lemma {:induction false} SkipAllLines(lines: seq<string>, tail: string, n: nat)
    requires n <= |lines| && forall l :: l in lines ==> DelimiterFree(l)
    ensures SkipLines(Text(lines) + tail, n) == Text(lines[n..]) + tail
    decreases n
  {
    if n > 0 {
      assert lines[0] in lines && forall l :: l in lines[1..] ==> l in lines;
      SkipAllLines(lines[1..], tail, n - 1);
      assert Text(lines) + tail == lines[0] + [DELIMITER] + (Text(lines[1..]) + tail);
      SkipLine(lines[0], Text(lines[1..]) + tail, n);
      assert lines[1..][n - 1..] == lines[n..];
    } else {
      assert lines[0..] == lines;
    }
  }

  lemma TakeOneLine(lines: seq<string>, tail: string, n: nat)
    requires lines != [] && DelimiterFree(lines[0]) && n > 0
    ensures TakeLines(Text(lines) + tail, n) == lines[0] + TakeLines(Text(lines[1..]) + tail, n - 1)
  {
    assert Text(lines) + tail == lines[0] + [DELIMITER] + (Text(lines[1..]) + tail);
    SkipLine(lines[0], Text(lines[1..]) + tail, n);
  }

  lemma {:induction false} TakeFirstLines(lines: seq<string>, tail: string, n: nat)
    requires n <= |lines| && forall l :: l in lines ==> DelimiterFree(l)
    ensures TakeLines(Text(lines) + tail, n) == Joined(lines[..n])
    decreases n
  {
    if n > 0 {
      var rest := lines[1..];
      assert lines[0] in lines && forall l :: l in rest ==> l in lines;
      TakeFirstLines(rest, tail, n - 1);
      TakeOneLine(lines, tail, n);
      assert lines[..n][0] == lines[0] && lines[..n][1..] == rest[..n - 1];
    }
  }

  lemma {:induction false} TakeAllAndTail(lines: seq<string>, tail: string, n: nat)
    requires n > |lines| && (forall l :: l in lines ==> DelimiterFree(l)) && DelimiterFree(tail)
    ensures TakeLines(Text(lines) + tail, n) == Joined(lines) + tail
    decreases n
  {
    if lines == [] {
      TakeTail(tail, n);
      assert Text(lines) + tail == tail;
    } else {
      var rest := lines[1..];
      assert lines[0] in lines && forall l :: l in rest ==> l in lines;
      TakeAllAndTail(rest, tail, n - 1);
      TakeOneLine(lines, tail, n);
      assert lines[0] + (Joined(rest) + tail) == lines[0] + Joined(rest) + tail;
    }
  }

  lemma {:induction false} TakeTail(tail: string, n: nat)
    requires DelimiterFree(tail)
    ensures TakeLines(tail, n) == if n == 0 then [] else tail
    decreases tail
  {
    if tail != [] && n > 0 {
      assert DelimiterFree(tail[1..]);
      TakeTail(tail[1..], n);
    }
  }

  lemma BodyFrom(lines: seq<string>, tail: string, page: nat, n: nat)
    requires page >= 1 && n == 7 * (page - 1) && n <= |lines| && forall l :: l in lines ==> DelimiterFree(l)
    ensures Body(Text(lines) + tail, page) == TakeLines(Text(lines[n..]) + tail, 7)
  {
    SkipAllLines(lines, tail, n);
  }

  /** Page k of a text holds its lines from the 7(k-1)-th to before the 7k-th. */
  lemma PageHoldsLines(lines: seq<string>, tail: string, page: nat, n: nat)
    requires (forall l :: l in lines ==> DelimiterFree(l)) && page >= 1 && n == 7 * (page - 1) && n + 7 <= |lines|
    ensures Body(Text(lines) + tail, page) == Joined(lines[n..n + 7])
  {
    BodyFrom(lines, tail, page, n);
    TakeFirstLines(lines[n..], tail, 7);
    assert lines[n..][..7] == lines[n..n + 7];
  }

  /** The page that has room for it also holds what stands behind the last delimiter. */
  lemma LastPageHoldsRest(lines: seq<string>, tail: string, page: nat, n: nat)
    requires (forall l :: l in lines ==> DelimiterFree(l)) && DelimiterFree(tail)
    requires page >= 1 && n == 7 * (page - 1) && n <= |lines| < n + 7
    ensures Body(Text(lines) + tail, page) == Joined(lines[n..]) + tail
  {
    BodyFrom(lines, tail, page, n);
    TakeAllAndTail(lines[n..], tail, 7);
  }

  /** As many pages as that takes. */
  lemma PagesForIs(lines: nat)
    ensures 7 * PagesFor(lines) >= lines > 7 * (PagesFor(lines) - 1) || (lines == 0 && PagesFor(lines) == 0)
  {
  }
}
