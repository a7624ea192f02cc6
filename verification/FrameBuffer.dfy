/**
 The frame of the debug card: a ring of characters that grows at both ends, with
 optional overwriting, fed by laid out text and read page by page.
 */
module FrameBuffer {
  import opened FrameText
  import opened FramePages
  import opened Rings

  const INDEX_LIMIT := 0x1_0000   // the ring indices and `lines` are 16 bits wide

  function PageCount(lines: nat, maxPage: nat): nat {
    if PagesFor(lines) > maxPage then maxPage else PagesFor(lines)
  }

  class Frame {
    const maxSize: nat
    const buf: array<char>
    var idxHead: nat
    var idxTail: nat
    var lines: nat
    var pages: nat
    var escSts: EscState
    var maxPage: nat
    var overwrite: bool

    constructor (size: nat)
      requires 2 <= size <= INDEX_LIMIT
      ensures Valid() && Contents() == "" && maxSize == size && maxPage == size
      ensures !overwrite && escSts == 0 && pages == 1 && fresh(buf)
    {
      maxSize := size;
      buf := new char[size](_ => ' ');
      idxHead, idxTail, lines, escSts, pages := 0, 0, 0, 0, 1;
      maxPage, overwrite := size, false;
    }

    /** frame_init on a buffer that already has this size. */
    method Reinit()
      requires Valid()
      modifies this`idxHead, this`idxTail, this`lines, this`escSts, this`pages
      ensures Valid() && Contents() == "" && escSts == 0 && pages == 1
    {
      RingEmpty(buf[..], 0);
      idxHead, idxTail, lines, escSts, pages := 0, 0, 0, 0, 1;
    }

    ghost predicate Valid()
      reads this, buf
    {
      && 2 <= maxSize <= INDEX_LIMIT && buf.Length == maxSize
      && idxHead < maxSize && idxTail < maxSize
      && lines == Count(Contents())
    }

    ghost function Contents(): (s: string)
      requires buf.Length == maxSize && idxHead < maxSize && idxTail < maxSize
      reads this, buf
      ensures |s| < maxSize
    {
      Ring(buf[..], idxHead, idxTail)
    }

    function Capacity(): nat
      requires maxSize >= 2
    {
      maxSize - 1
    }

    predicate IsFull()
      requires maxSize >= 2
      reads this
    {
      (idxTail + 1) % maxSize == idxHead
    }

    lemma FullIff()
      requires Valid()
      ensures IsFull() <==> |Contents()| == Capacity()
    {
      Wrap(idxTail + 1, maxSize);
    }

    /** One round of frame_append's loop. */
    method PushBack(c: char) returns (ok: bool)
      requires Valid()
      modifies this`idxHead, this`idxTail, this`lines, buf
      ensures Valid()
      ensures ok <==> overwrite || |old(Contents())| < Capacity()
      ensures Contents() == if ok then LastN(old(Contents()) + [c], Capacity()) else old(Contents())
    {
      FullIff();
      if IsFull() {
        if !overwrite {
          return false;
        }
        DropFront();
      }
      WriteBack(c);
      return true;
    }

    method DropFront()
      requires Valid() && Contents() != ""
      modifies this`idxHead, this`lines
      ensures Valid() && Contents() == old(Contents())[1..]
    {
      RingDropFront(buf[..], idxHead, idxTail);
      if buf[idxHead] == DELIMITER {
        lines := lines - 1;
      }
      idxHead := (idxHead + 1) % maxSize;
    }

    method WriteBack(c: char)
      requires Valid() && |Contents()| < Capacity()
      modifies this`idxTail, this`lines, buf
      ensures Valid() && Contents() == old(Contents()) + [c]
    {
      FullIff();
      ghost var data, was := buf[..], Contents();
      RingWriteBack(data, idxHead, idxTail, c);
      CountAppend(was, [c]);
      buf[idxTail] := c;
      assert buf[..] == data[idxTail := c];
      if c == DELIMITER {
        lines := lines + 1;
      }
      idxTail := (idxTail + 1) % maxSize;
    }

    /** One round of frame_insert's loop. */
    method PushFront(c: char) returns (ok: bool)
      requires Valid()
      modifies this`idxHead, this`idxTail, this`lines, buf
      ensures Valid()
      ensures ok <==> overwrite || |old(Contents())| < Capacity()
      ensures Contents() == if ok then FirstN([c] + old(Contents()), Capacity()) else old(Contents())
    {
      FullIff();
      if IsFull() {
        if !overwrite {
          return false;
        }
        DropBack();
      }
      WriteFront(c);
      return true;
    }

    method DropBack()
      requires Valid() && Contents() != ""
      modifies this`idxTail, this`lines
      ensures Valid() && Contents() == old(Contents())[..|old(Contents())| - 1]
    {
      ghost var was := Contents();
      RingDropBack(buf[..], idxHead, idxTail);
      CountAppend(was[..|was| - 1], [was[|was| - 1]]);
      idxTail := (idxTail + maxSize - 1) % maxSize;
      if buf[idxTail] == DELIMITER {
        lines := lines - 1;
      }
    }

    method WriteFront(c: char)
      requires Valid() && |Contents()| < Capacity()
      modifies this`idxHead, this`lines, buf
      ensures Valid() && Contents() == [c] + old(Contents())
    {
      FullIff();
      ghost var data, was := buf[..], Contents();
      RingWriteFront(data, idxHead, idxTail, c);
      CountAppend([c], was);
      idxHead := (idxHead + maxSize - 1) % maxSize;
      buf[idxHead] := c;
      assert buf[..] == data[idxHead := c];
      if c == DELIMITER {
        lines := lines + 1;
      }
    }

    // ----- Laying text out -----

    method IsEscSeq(c: char) returns (esc: bool)
      modifies this`escSts
      ensures escSts == EscNext(old(escSts), c) && (esc <==> InEsc(old(escSts), c))
      ensures esc <==> old(escSts) != 0 || c as int == 0x1B
      ensures old(escSts) == 0 ==> escSts == if c as int == 0x1B then 1 else 0
      ensures old(escSts) == 1 ==> escSts == if c as int == 0x5B then 2 else 0
      ensures old(escSts) == 2 ==> escSts == if 0x40 <= c as int <= 0x7E then 0 else 2
    {
      var was := escSts;
      if escSts == 0 && c == ESC {
        escSts := 1;
      } else if escSts == 1 && c == '[' {
        escSts := 2;
      } else if escSts == 1 && c != '[' {
        escSts := 0;
      } else if escSts == 2 && '@' <= c <= '~' {
        escSts := 0;
      }
      return was != 0 || escSts != 0;
    }

    /** One round of frame_parse's loop: puts one character, and moves on in the
        input unless it was an indent or a line end. */
    method PutNext(dst: array<char>, i: nat, pos0: nat, input: string, j0: nat, indent: nat)
      returns (pos: nat, j: nat)
      requires dst != buf && i < dst.Length && pos0 <= LINE_WIDTH && indent < LINE_WIDTH && j0 < |input|
      modifies this`escSts, dst
      ensures j == j0 || j == j0 + 1
      ensures escSts == if j == j0 then old(escSts) else EscNext(old(escSts), input[j0])
      ensures var (cell, next) := Step(Place(pos0, old(escSts), input[j0..]), indent, LINE_WIDTH);
              dst[i] == cell.c && Place(pos, escSts, input[j..]) == next
      ensures forall k :: 0 <= k < dst.Length && k != i ==> dst[k] == old(dst[k])
    {
      pos, j := pos0, j0;
      if pos < indent {
        dst[i] := ' ';
        pos := pos + 1;
      } else {
        var esc := IsEscSeq(input[j]);
        if !esc && pos == LINE_WIDTH {
          dst[i] := DELIMITER;
          pos := 0;
        } else {
          if !esc {
            pos := pos + 1;
          }
          dst[i] := input[j];
          j := j + 1;
        }
      }
    }

    /** frame_parse: fills `dst` with the laid out text and a terminator, or
        fails when there is no room for both. */
    method Parse(dst: array<char>, input: string, indent: int) returns (ret: int)
      requires dst != buf
      modifies this`escSts, dst
      ensures ret == 0 || ret == -1
      ensures ret == 0 <==> 0 <= indent < LINE_WIDTH && |Wrapped(old(escSts), input, indent, LINE_WIDTH)| < dst.Length
      ensures ret == 0 ==>
                var full := Wrapped(old(escSts), input, indent, LINE_WIDTH);
                dst[..|full|] == full && dst[|full|] == '\0' && escSts == EscAfter(old(escSts), input)
      ensures exists k :: 0 <= k <= |input| && escSts == EscAfter(old(escSts), input[..k])
    {
      if indent >= LINE_WIDTH || indent < 0 {
        assert input[..0] == [] && escSts == EscAfter(old(escSts), input[..0]);
        return -1;
      }
      ghost var full := Wrapped(escSts, input, indent, LINE_WIDTH);
      var i, j, pos := PutText(dst, input, indent, full);
      assert input[..|input|] == input;
      ret := FinishParse(dst, full, i, j == |input|, pos);
    }

    /** The characters of the text, with the indents and delimiters between them. */
    method PutText(dst: array<char>, input: string, indent: nat, ghost full: string) returns (i: nat, j: nat, pos: nat)
      requires dst != buf && indent < LINE_WIDTH && full == Wrapped(escSts, input, indent, LINE_WIDTH)
      modifies this`escSts, dst
      ensures i <= dst.Length && i <= |full| && j <= |input| && pos <= LINE_WIDTH && (j == |input| || i == dst.Length)
      ensures escSts == EscAfter(old(escSts), input[..j]) && dst[..i] == full[..i]
      ensures j == |input| ==> full[i..] == Filler(pos)
    {
      i, j, pos := 0, 0, 0;
      ghost var p := Place(0, escSts, input);
      assert input[..0] == [] && input[0..] == input && full[0..] == full;
      while j < |input|
        invariant 0 <= j <= |input| && 0 <= i <= dst.Length && 0 <= pos <= LINE_WIDTH && i <= |full|
        invariant escSts == EscAfter(old(escSts), input[..j]) && p == Place(pos, escSts, input[j..])
        invariant dst[..i] == full[..i] && full[i..] == Chars(Layout(p, indent, LINE_WIDTH))
        decreases |p.input|, Room(p, indent, LINE_WIDTH)
      {
        if i >= dst.Length {
          break;
        }
        Advance(full, i, p, indent);
        EscAfterNext(old(escSts), input, j);
        p := Step(p, indent, LINE_WIDTH).1;
        pos, j := PutNext(dst, i, pos, input, j, indent);
        i := i + 1;
      }
    }

    /** The padding of the last line and the terminator. */
    method FinishParse(dst: array<char>, ghost full: string, i0: nat, ghost consumed: bool, pos0: nat)
      returns (ret: int)
      requires i0 <= dst.Length && pos0 <= LINE_WIDTH && (consumed || i0 == dst.Length)
      requires dst != buf && i0 <= |full| && dst[..i0] == full[..i0]
      requires consumed ==> full[i0..] == Filler(pos0)
      modifies dst
      ensures ret == if |full| < dst.Length then 0 else -1
      ensures ret == 0 ==> dst[..|full|] == full && dst[|full|] == '\0'
    {
      var i, pos := i0, pos0;
      while pos <= LINE_WIDTH
        invariant i0 <= i <= dst.Length && pos == pos0 + i - i0 <= LINE_WIDTH + 1
        invariant consumed ==> i <= |full|
        invariant !consumed ==> i == dst.Length
        invariant dst[..i0] == full[..i0]
        invariant consumed ==> forall k :: i0 <= k < i ==> dst[k] == full[k]
      {
        if i >= dst.Length {
          break;
        }
        if pos < LINE_WIDTH {
          dst[i] := ' ';
        } else {
          dst[i] := DELIMITER;
        }
        pos := pos + 1;
        i := i + 1;
      }
      if i >= dst.Length {
        return -1;
      }
      dst[i] := '\0';
      return 0;
    }

    // ----- Storing text -----

    /** frame_append.  A call that fails for lack of room keeps what fitted. */
    method Append(input: string, indent: int) returns (ret: int)
      requires Valid() && '\0' !in input
      modifies this`idxHead, this`idxTail, this`lines, this`pages, this`escSts, buf
      ensures Valid()
      ensures exists k :: 0 <= k <= |input| && escSts == EscAfter(old(escSts), input[..k])
      ensures var fits := 0 <= indent < LINE_WIDTH && |Wrapped(old(escSts), input, indent, LINE_WIDTH)| < 64;
              if !fits then ret == -1 && Contents() == old(Contents()) && pages == old(pages)
              else
                var full := Wrapped(old(escSts), input, indent, LINE_WIDTH);
                && escSts == EscAfter(old(escSts), input)
                && (ret == 0 <==> overwrite || |old(Contents())| + |full| <= Capacity())
                && Contents() == (if overwrite then LastN(old(Contents()) + full, Capacity())
                                  else FirstN(old(Contents()) + full, Capacity()))
                && pages == (if ret == 0 then PageCount(lines, maxPage) else old(pages))
    {
      var tmp := new char[64];
      ret := Parse(tmp, input, indent);
      if ret < 0 {
        return ret;
      }
      ghost var full := Wrapped(old(escSts), input, indent, LINE_WIDTH);
      WrappedHasNoNul(old(escSts), input, indent);
      ret := StoreBack(tmp, full);
      if ret == 0 {
        SetPages();
      }
    }

    method StoreBack(src: array<char>, ghost full: string) returns (ret: int)
      requires Valid() && src != buf && HoldsString(src, full)
      modifies this`idxHead, this`idxTail, this`lines, buf
      ensures Valid()
      ensures ret == if overwrite || |old(Contents())| + |full| <= Capacity() then 0 else -1
      ensures Contents() == if overwrite then LastN(old(Contents()) + full, Capacity())
                            else FirstN(old(Contents()) + full, Capacity())
    {
      ghost var was, text := Contents(), Contents();
      var k := 0;
      while src[k] != '\0'
        invariant 0 <= k <= |full| && Valid() && HoldsString(src, full)
        invariant text == was + full[..k] && Contents() == LastN(text, Capacity())
        invariant !overwrite ==> |text| <= Capacity()
        decreases |full| - k
      {
        ghost var c := src[k];
        var ok := PushBack(src[k]);
        if !ok {
          CutAt(was, full, k, Capacity());
          return -1;
        }
        AppendOne(text, c, Capacity());
        text := text + [c];
        TakeNext(was, full, k);
        k := k + 1;
      }
      assert full[..k] == full;
      return 0;
    }

    /** frame_insert, from the last character to the first. */
    method Insert(input: string, indent: int) returns (ret: int)
      requires Valid() && '\0' !in input
      modifies this`idxHead, this`idxTail, this`lines, this`pages, this`escSts, buf
      ensures Valid()
      ensures exists k :: 0 <= k <= |input| && escSts == EscAfter(old(escSts), input[..k])
      ensures var fits := 0 <= indent < LINE_WIDTH && |Wrapped(old(escSts), input, indent, LINE_WIDTH)| < 128;
              if !fits then ret == -1 && Contents() == old(Contents()) && pages == old(pages)
              else
                var full := Wrapped(old(escSts), input, indent, LINE_WIDTH);
                && escSts == EscAfter(old(escSts), input)
                && (ret == 0 <==> overwrite || |old(Contents())| + |full| <= Capacity())
                && Contents() == (if overwrite then FirstN(full + old(Contents()), Capacity())
                                  else LastN(full + old(Contents()), Capacity()))
                && pages == (if ret == 0 then PageCount(lines, maxPage) else old(pages))
    {
      var tmp := new char[128];
      ret := Parse(tmp, input, indent);
      if ret < 0 {
        return ret;
      }
      ghost var full := Wrapped(old(escSts), input, indent, LINE_WIDTH);
      WrappedHasNoNul(old(escSts), input, indent);
      ret := StoreFront(tmp, full);
      if ret == 0 {
        SetPages();
      }
    }

    method StoreFront(src: array<char>, ghost full: string) returns (ret: int)
      requires Valid() && src != buf && HoldsString(src, full)
      modifies this`idxHead, this`idxTail, this`lines, buf
      ensures Valid()
      ensures ret == if overwrite || |old(Contents())| + |full| <= Capacity() then 0 else -1
      ensures Contents() == if overwrite then FirstN(full + old(Contents()), Capacity())
                            else LastN(full + old(Contents()), Capacity())
    {
      ghost var was := Contents();
      var n := StrLen(src, full);
      assert full[n..] + was == was;
      while n > 0
        invariant 0 <= n <= |full| && Valid() && HoldsString(src, full)
        invariant Contents() == FirstN(full[n..] + was, Capacity())
        invariant !overwrite ==> |was| + |full| - n <= Capacity()
      {
        n := n - 1;
        InsertOne(was, full, n, Capacity());
        var ok := PushFront(src[n]);
        if !ok {
          CutBefore(was, full, n, Capacity());
          return -1;
        }
      }
      assert full[0..] == full;
      return 0;
    }

    method StrLen(a: array<char>, ghost full: string) returns (n: nat)
      requires HoldsString(a, full)
      ensures n == |full|
    {
      n := 0;
      while a[n] != '\0'
        invariant n <= |full|
        decreases |full| - n
      {
        n := n + 1;
      }
    }

    method SetPages()
      modifies this`pages
      ensures pages == PageCount(lines, maxPage)
    {
      pages := lines / LINE_PER_PAGE + (if lines % LINE_PER_PAGE != 0 then 1 else 0);
      if pages > maxPage {
        pages := maxPage;
      }
    }

    // ----- Reading a page -----

    /** frame_getPage.  The buffer has room for the 16 characters of the header
        and more; a body that does not fit is cut off. */
    method GetPage(page: int, title: string, dst: array<char>) returns (len: int)
      requires Valid() && dst.Length >= 18 && dst != buf
      modifies dst
      ensures !(1 <= page <= pages) ==> len == -1 && dst[..] == old(dst[..])
      ensures 1 <= page <= pages ==>
                0 <= len < dst.Length &&
                dst[..len] == FirstN(Header(title, page, pages) + Body(Contents(), page), dst.Length - 1)
    {
      if page > pages || page < 1 {
        return -1;
      }
      var header := Header(title, page, pages);
      forall i | 0 <= i < |header| {
        dst[i] := header[i];
      }
      assert dst[..|header|] == header;
      ghost var rest := SkipLines(Contents(), (page - 1) * LINE_PER_PAGE);
      var idx, line := SkipPages((page - 1) * LINE_PER_PAGE);
      len := CopyLines(dst, header, idx, line, page, rest);
    }

    /** From `idx` on the ring reads `rest`. */
    ghost predicate ReadsFrom(idx: nat, rest: string)
      reads this, buf
    {
      buf.Length == maxSize && idx < maxSize && idxTail < maxSize && rest == Ring(buf[..], idx, idxTail)
    }

    lemma ReadStep(idx: nat, rest: string)
      requires ReadsFrom(idx, rest) && idx != idxTail
      ensures rest != "" && buf[idx] == rest[0] && ReadsFrom((idx + 1) % maxSize, rest[1..])
    {
      RingDropFront(buf[..], idx, idxTail);
    }

    /** The first loop of frame_getPage: where the page's lines begin. */
    method SkipPages(n: nat) returns (idx: nat, line: nat)
      requires Valid()
      ensures idx < maxSize && line <= n && (line == n || idx == idxTail)
      ensures ReadsFrom(idx, SkipLines(Contents(), n))
    {
      line, idx := 0, idxHead;
      ghost var text, rest := Contents(), Contents();
      while line < n && idx != idxTail
        invariant idx < maxSize && line <= n && ReadsFrom(idx, rest)
        invariant SkipLines(text, n) == SkipLines(rest, n - line)
        decreases |rest|
      {
        ReadStep(idx, rest);
        if buf[idx] == DELIMITER {
          line := line + 1;
        }
        rest := rest[1..];
        idx := (idx + 1) % maxSize;
      }
    }

    /** The second loop of frame_getPage: the lines, without their delimiters. */
    method CopyLines(dst: array<char>, header: string, idx0: nat, line0: nat, page: nat, ghost rest0: string)
      returns (len: int)
      requires Valid() && dst != buf && |header| + 2 <= dst.Length && dst[..|header|] == header
      requires page >= 1 && line0 <= (page - 1) * LINE_PER_PAGE && ReadsFrom(idx0, rest0)
      requires line0 == (page - 1) * LINE_PER_PAGE || idx0 == idxTail
      modifies dst
      ensures 0 <= len < dst.Length
      ensures dst[..len] == FirstN(header + TakeLines(rest0, LINE_PER_PAGE), dst.Length - 1)
    {
      ghost var full := header + TakeLines(rest0, LINE_PER_PAGE);
      ghost var rest := rest0;
      var line: nat, idx: nat := line0, idx0;
      len := |header|;
      assert rest == "" ==> TakeLines(rest, LINE_PER_PAGE) == TakeLines(rest, page * LINE_PER_PAGE - line);
      while line < page * LINE_PER_PAGE && idx != idxTail
        invariant |header| <= len < dst.Length - 1 && line <= page * LINE_PER_PAGE
        invariant ReadsFrom(idx, rest) && len <= |full|
        invariant forall i :: 0 <= i < len ==> dst[i] == full[i]
        invariant full[len..] == TakeLines(rest, page * LINE_PER_PAGE - line)
        decreases |rest|
      {
        ReadStep(idx, rest);
        if buf[idx] == DELIMITER {
          line := line + 1;
        } else {
          dst[len] := buf[idx];
          len := len + 1;
          if len == dst.Length - 1 {
            return;
          }
        }
        rest := rest[1..];
        idx := (idx + 1) % maxSize;
      }
    }
  }

  /** The array holds this string and a terminator. */
  ghost predicate HoldsString(a: array<char>, s: string)
    reads a
  {
    |s| < a.Length && a[|s|] == '\0' && forall i :: 0 <= i < |s| ==> a[i] == s[i] && s[i] != '\0'
  }

  /** The least number of pages with room for every line, up to the limit. */
  lemma PageCountIs(lines: nat, maxPage: nat)
    ensures var n := PageCount(lines, maxPage);
            && n <= maxPage && (7 * n >= lines || n == maxPage)
            && (n > 0 ==> lines > 7 * (n - 1))
  {
    PagesForIs(lines);
  }

  /** Reading every page of a frame gives back the stored text without its
      delimiters, exactly if the text ends in a delimiter or its cut last line falls
      on a started page. */
  lemma PagesReadBackIff(f: Frame)
    requires f.Valid() && f.pages == PagesFor(f.lines)
    ensures Bodies(f.Contents(), f.pages) == Strip(f.Contents()) <==>
            Complete(f.Contents()) || f.lines % LINE_PER_PAGE != 0
  {
    PagesPartitionIff(f.Contents());
  }

  /** The first line of a page: title, page number and page count, 16 characters
      at most. */
  function Header(title: string, page: nat, pages: nat): (h: string)
    ensures |h| <= 16
  {
    var left := if |title| < 10 then title + seq(10 - |title|, _ => ' ') else title;
    FirstN(left + " " + TwoDigits(page) + "/" + TwoDigits(pages), 16)
  }

  /** Below 100 pages and with a title of at most 10 characters: the title, blanks up
      to the 11th place, then page and pages in two digits each around a slash. */
  lemma HeaderText(title: string, page: nat, pages: nat)
    requires |title| <= 10 && page < 100 && pages < 100
    ensures var h := Header(title, page, pages);
            && |h| == 16 && h[..|title|] == title && (forall i :: |title| <= i < 11 ==> h[i] == ' ')
            && h[11] as int == '0' as int + page / 10 && h[12] as int == '0' as int + page % 10 && h[13] == '/'
            && h[14] as int == '0' as int + pages / 10 && h[15] as int == '0' as int + pages % 10
  {
    TwoDigitsAre(page);
    TwoDigitsAre(pages);
    var left := title + seq(10 - |title|, _ => ' ');
    assert |title| == 10 ==> left == title;
    assert Header(title, page, pages) == left + " " + TwoDigits(page) + "/" + TwoDigits(pages);
  }

  /** A longer title moves the rest to the right, cut at 16 characters. */
  lemma LongHeaderText(title: string, page: nat, pages: nat)
    requires |title| > 10
    ensures var h := Header(title, page, pages);
            |h| == 16 && if |title| >= 16 then h == title[..16] else h[..|title| + 1] == title + " "
  {
    var full := title + " " + TwoDigits(page) + "/" + TwoDigits(pages);
    assert |full| >= 16 && full[..|title| + 1] == title + " ";
  }

  lemma TwoDigitsAre(n: nat)
    requires n < 100
    ensures |TwoDigits(n)| == 2
    ensures TwoDigits(n)[0] as int == '0' as int + n / 10 && TwoDigits(n)[1] as int == '0' as int + n % 10
  {
    if n >= 10 {
      assert Decimal(n / 10) == [((n / 10) as char) + '0'];
    }
  }

  function TwoDigits(n: nat): (s: string)
    ensures |s| >= 2
  {
    if n < 10 then "0" + Decimal(n) else Decimal(n)
  }

  function Decimal(n: nat): (s: string)
    ensures |s| >= 1 && (n >= 10 ==> |s| >= 2)
  {
    if n < 10 then [(n as char) + '0'] else Decimal(n / 10) + [((n % 10) as char) + '0']
  }

  lemma WrappedHasNoNul(s: EscState, input: string, indent: nat)
    requires indent < LINE_WIDTH && '\0' !in input
    ensures '\0' !in Wrapped(s, input, indent, LINE_WIDTH)
  {
    LayoutAlphabet(Place(0, s, input), indent, LINE_WIDTH);
  }

  lemma AppendOne(text: string, c: char, n: nat)
    requires n > 0
    ensures LastN(LastN(text, n) + [c], n) == LastN(text + [c], n)
  {
  }

  lemma TakeNext(was: string, full: string, k: nat)
    requires k < |full|
    ensures was + full[..k + 1] == was + full[..k] + [full[k]]
  {
  }

  lemma InsertOne(was: string, full: string, k: nat, n: nat)
    requires k < |full| && n > 0
    ensures FirstN([full[k]] + FirstN(full[k + 1..] + was, n), n) == FirstN(full[k..] + was, n)
  {
    assert full[k..] + was == [full[k]] + (full[k + 1..] + was);
  }

  lemma CutAt(was: string, full: string, k: nat, n: nat)
    requires k < |full| && |was| + k == n
    ensures LastN(was + full[..k], n) == FirstN(was + full, n)
  {
  }

  lemma CutBefore(was: string, full: string, k: nat, n: nat)
    requires k < |full| && |was| + |full| - k - 1 == n
    ensures FirstN(full[k + 1..] + was, n) == LastN(full + was, n)
  {
  }

  /** What the padding loop still writes from `pos` on. */
  ghost function Filler(pos: nat): string
    requires pos <= LINE_WIDTH
  {
    Chars(Padding(LINE_WIDTH - pos) + [Cell(DELIMITER, Delim)])
  }

  /** The next character of the text is the next cell, the rest is laid out from
      the place behind it. */
  lemma Advance(full: string, i: nat, p: Place, indent: nat)
    requires p.pos <= LINE_WIDTH && indent < LINE_WIDTH && p.input != []
    requires i <= |full| && full[i..] == Chars(Layout(p, indent, LINE_WIDTH))
    ensures var (cell, next) := Step(p, indent, LINE_WIDTH);
            i < |full| && full[i] == cell.c && full[i + 1..] == Chars(Layout(next, indent, LINE_WIDTH))
  {
  }
}
