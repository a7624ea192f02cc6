/**
 Whole runs of appends and inserts on a frame, of text without escape sequences
 or delimiters: which of them keep the lines within the line width, and so every
 page within its buffer.
 */
module FrameRuns {
  import opened FrameText
  import opened FramePages
  import opened FrameBuffer
  import opened Rings

  datatype Call =
    | AppendCall(input: string, indent: int)
    | InsertCall(input: string, indent: int)

  predicate Plain(input: string) {
    ESC !in input && DELIMITER !in input && '\0' !in input
  }

  /** The text a call lays out, if it fits the call's own buffer. */
  predicate Fits(call: Call) {
    && 0 <= call.indent < LINE_WIDTH
    && |Wrapped(0, call.input, call.indent, LINE_WIDTH)| < if call.AppendCall? then 64 else 128
  }

  function TextOf(call: Call): string
    requires Fits(call)
  {
    Wrapped(0, call.input, call.indent, LINE_WIDTH)
  }

  /** The stored text after a call. */
  function After(s: string, call: Call, cap: nat, overwrite: bool): (t: string)
    requires |s| <= cap
    ensures |t| <= cap
  {
    if !Fits(call) then s
    else
      match call
      case AppendCall(_, _) => if overwrite then LastN(s + TextOf(call), cap) else FirstN(s + TextOf(call), cap)
      case InsertCall(_, _) => if overwrite then FirstN(TextOf(call) + s, cap) else LastN(TextOf(call) + s, cap)
  }

  /** The stored text after a run from an empty frame. */
  function RunText(calls: seq<Call>, cap: nat, overwrite: bool): (t: string)
    ensures |t| <= cap
  {
    if calls == [] then []
    else After(RunText(calls[..|calls| - 1], cap, overwrite), calls[|calls| - 1], cap, overwrite)
  }

  predicate AllPlain(calls: seq<Call>) {
    forall c :: c in calls ==> Plain(c.input)
  }

  predicate AnyFits(calls: seq<Call>) {
    calls != [] && (Fits(calls[|calls| - 1]) || AnyFits(calls[..|calls| - 1]))
  }

  lemma {:induction false} EscStays(input: string)
    requires ESC !in input
    ensures EscAfter(0, input) == 0
  {
    if input != [] {
      EscStays(input[1..]);
    }
  }

  lemma EscStaysUpTo(input: string)
    requires ESC !in input
    ensures forall k :: 0 <= k <= |input| ==> EscAfter(0, input[..k]) == 0
  {
    forall k | 0 <= k <= |input| ensures EscAfter(0, input[..k]) == 0 {
      EscStays(input[..k]);
    }
  }

  lemma RunStep(calls: seq<Call>, k: nat, cap: nat, overwrite: bool)
    requires k < |calls|
    ensures RunText(calls[..k + 1], cap, overwrite) ==
            After(RunText(calls[..k], cap, overwrite), calls[k], cap, overwrite)
    ensures AnyFits(calls[..k + 1]) <==> Fits(calls[k]) || AnyFits(calls[..k])
  {
    assert calls[..k + 1][..k] == calls[..k];
  }

  method Perform(f: Frame, call: Call)
    requires f.Valid() && Plain(call.input) && f.escSts == 0
    modifies f`idxHead, f`idxTail, f`lines, f`pages, f`escSts, f.buf
    ensures f.Valid() && f.escSts == 0
    ensures f.Contents() == After(old(f.Contents()), call, f.Capacity(), f.overwrite)
    ensures f.overwrite && Fits(call) ==> f.pages == PageCount(f.lines, f.maxPage)
    ensures !Fits(call) ==> f.pages == old(f.pages)
  {
    EscStaysUpTo(call.input);
    match call {
      case AppendCall(input, indent) =>
        var _ := f.Append(input, indent);
      case InsertCall(input, indent) =>
        var _ := f.Insert(input, indent);
    }
  }

  /** A frame driven by a run of calls holds the run's text; with overwrite its page
      count is current once a call fitted. */
  method Replay(calls: seq<Call>, size: nat, overwrite: bool) returns (f: Frame)
    requires 2 <= size <= INDEX_LIMIT && AllPlain(calls)
    ensures f.Valid() && f.maxSize == size && f.Contents() == RunText(calls, size - 1, overwrite)
    ensures overwrite && AnyFits(calls) ==> f.pages == PageCount(f.lines, size)
  {
    f := new Frame(size);
    f.overwrite := overwrite;
    assert calls[..0] == [];
    var k := 0;
    while k < |calls|
      invariant 0 <= k <= |calls|
      invariant fresh(f) && fresh(f.buf) && f.Valid() && f.maxSize == f.maxPage == size && f.overwrite == overwrite
      invariant f.escSts == 0 && f.Contents() == RunText(calls[..k], size - 1, overwrite)
      invariant overwrite && AnyFits(calls[..k]) ==> f.pages == PageCount(f.lines, size)
    {
      RunStep(calls, k, size - 1, overwrite);
      Perform(f, calls[k]);
      k := k + 1;
    }
    assert calls[..|calls|] == calls;
  }

  // ----- One call -----

  /** Inserted text never widens a line. */
  lemma InsertKeepsNarrow(s: string, call: Call, cap: nat, overwrite: bool)
    requires |s| <= cap && Narrow(s, 0, LINE_WIDTH) && Plain(call.input) && call.InsertCall?
    ensures Narrow(After(s, call, cap, overwrite), 0, LINE_WIDTH)
  {
    if Fits(call) {
      var t := TextOf(call) + s;
      WrappedIsNarrow(call.input, call.indent, LINE_WIDTH);
      NarrowAppend(TextOf(call), 0, s, LINE_WIDTH);
      if |t| > cap {
        NarrowPrefix(t, 0, cap, LINE_WIDTH);
        NarrowSuffix(t, |t| - cap, LINE_WIDTH);
      }
    }
  }

  /** Appended text keeps the lines narrow exactly if it starts on a line of its own,
      or all that is left of the old text is overwritten, or, without overwrite, so
      little of it finds room that the cut line takes it. */
  lemma AppendKeepsNarrowIff(s: string, call: Call, cap: nat, overwrite: bool)
    requires |s| <= cap && Narrow(s, 0, LINE_WIDTH) && Plain(call.input) && call.AppendCall? && Fits(call)
    ensures Narrow(After(s, call, cap, overwrite), 0, LINE_WIDTH) <==>
            Complete(s) || (if overwrite then |TextOf(call)| >= cap else |Tail(s)| + cap - |s| <= LINE_WIDTH)
  {
    var w := TextOf(call);
    WrappedIsNarrow(call.input, call.indent, LINE_WIDTH);
    WrappedStartsFull(call.input, call.indent, LINE_WIDTH);
    if overwrite {
      OverwriteIff(s, w, cap);
    } else {
      var k := if |s| + |w| <= cap then |w| else cap - |s|;
      assert FirstN(s + w, cap) == s + w[..k];
      JoinNarrowIff(s, w, k);
    }
  }

  lemma JoinNarrowIff(s: string, w: string, k: nat)
    requires Narrow(s, 0, LINE_WIDTH) && Narrow(w, 0, LINE_WIDTH) && LINE_WIDTH < |w| && k <= |w|
    requires DELIMITER !in w[..LINE_WIDTH]
    ensures Narrow(s + w[..k], 0, LINE_WIDTH) <==> Complete(s) || |Tail(s)| + k <= LINE_WIDTH
  {
    NarrowJoinIff(s, 0, w[..k], LINE_WIDTH);
    TailFits(s, LINE_WIDTH);
    TailEmptyIff(s);
    NarrowCutIff(|Tail(s)|, w, k, LINE_WIDTH);
  }

  lemma OverwriteIff(s: string, w: string, cap: nat)
    requires |s| <= cap && Narrow(s, 0, LINE_WIDTH) && Narrow(w, 0, LINE_WIDTH) && LINE_WIDTH < |w|
    requires DELIMITER !in w[..LINE_WIDTH]
    ensures Narrow(LastN(s + w, cap), 0, LINE_WIDTH) <==> Complete(s) || |w| >= cap
  {
    if |w| >= cap {
      LastOfTwo(s, w, cap);
      NarrowSuffix(w, |w| - cap, LINE_WIDTH);
    } else {
      var d := if |s| + |w| <= cap then 0 else |s| + |w| - cap;
      LastOfTwo(s, w, cap);
      NarrowSuffix(s, d, LINE_WIDTH);
      assert w[..|w|] == w;
      JoinNarrowIff(s[d..], w, |w|);
    }
  }

  lemma LastOfTwo(s: string, w: string, cap: nat)
    requires |s| <= cap
    ensures LastN(s + w, cap) ==
            if |w| >= cap then w[|w| - cap..]
            else s[if |s| + |w| <= cap then 0 else |s| + |w| - cap..] + w
  {
  }

  // ----- Runs -----

  /** From an empty frame, appends alone keep every line within the line width; the
      text ends in a delimiter unless a call found no room for all of it. */
  lemma {:induction false} AppendsAreNarrow(calls: seq<Call>, cap: nat, overwrite: bool)
    requires AllPlain(calls) && forall c :: c in calls ==> c.AppendCall?
    ensures var t := RunText(calls, cap, overwrite);
            Narrow(t, 0, LINE_WIDTH) && (Complete(t) || (!overwrite && |t| == cap))
  {
    if calls != [] {
      var n := |calls| - 1;
      var s := RunText(calls[..n], cap, overwrite);
      assert calls[n] in calls && forall c :: c in calls[..n] ==> c in calls;
      AppendsAreNarrow(calls[..n], cap, overwrite);
      if Fits(calls[n]) {
        AppendEnds(s, calls[n], cap, overwrite);
        AppendKeepsNarrowIff(s, calls[n], cap, overwrite);
        TailFits(s, LINE_WIDTH);
      }
    }
  }

  lemma AppendEnds(s: string, call: Call, cap: nat, overwrite: bool)
    requires |s| <= cap && Plain(call.input) && call.AppendCall? && Fits(call)
    ensures var t := After(s, call, cap, overwrite); Complete(t) || (!overwrite && |t| == cap)
  {
    WrappedIsNarrow(call.input, call.indent, LINE_WIDTH);
    WrappedStartsFull(call.input, call.indent, LINE_WIDTH);
  }

  /** So do inserts alone; with overwrite the last line may be cut. */
  lemma {:induction false} InsertsAreNarrow(calls: seq<Call>, cap: nat, overwrite: bool)
    requires AllPlain(calls) && forall c :: c in calls ==> c.InsertCall?
    ensures Narrow(RunText(calls, cap, overwrite), 0, LINE_WIDTH)
  {
    if calls != [] {
      var n := |calls| - 1;
      assert calls[n] in calls && forall c :: c in calls[..n] ==> c in calls;
      InsertsAreNarrow(calls[..n], cap, overwrite);
      InsertKeepsNarrow(RunText(calls[..n], cap, overwrite), calls[n], cap, overwrite);
    }
  }

  /** A frame that is only appended to, or only inserted into, never has a page
      longer than its header and seven full lines. */
  lemma PagesFit(calls: seq<Call>, cap: nat, overwrite: bool, title: string, page: nat, pages: nat)
    requires AllPlain(calls) && page >= 1
    requires (forall c :: c in calls ==> c.AppendCall?) || (forall c :: c in calls ==> c.InsertCall?)
    ensures |Header(title, page, pages) + Body(RunText(calls, cap, overwrite), page)| <= 16 + 7 * 16
  {
    if forall c :: c in calls ==> c.AppendCall? {
      AppendsAreNarrow(calls, cap, overwrite);
    } else {
      InsertsAreNarrow(calls, cap, overwrite);
    }
    BodyFits(RunText(calls, cap, overwrite), page);
  }

  // ----- Mixing both -----

  const LETTER := Cell('A', Text)

  /** One line of one letter. */
  function Line(): string {
    Wrapped(0, "A", 0, LINE_WIDTH)
  }

  function Lines(n: nat): string {
    if n == 0 then "" else Line() + Lines(n - 1)
  }

  lemma LineIs()
    ensures |Line()| == 17 && Line()[16] == DELIMITER && DELIMITER !in Line()[..16]
  {
    var cells := Layout(Place(0, 0, "A"), 0, LINE_WIDTH);
    assert cells == [LETTER] + Layout(Place(1, 0, ""), 0, LINE_WIDTH);
    assert cells == [LETTER] + (Padding(15) + [Cell(DELIMITER, Delim)]);
  }

  lemma {:induction false} LinesLength(n: nat)
    ensures |Lines(n)| == 17 * n
  {
    LineIs();
    if n > 0 {
      LinesLength(n - 1);
    }
  }

  function Inserts(n: nat): seq<Call> {
    seq(n, _ => InsertCall("A", 0))
  }

  lemma {:induction false} InsertedLines(n: nat)
    requires n <= 7
    ensures RunText(Inserts(n), 135, true) == Lines(n)
  {
    LineIs();
    LinesLength(n);
    if n > 0 {
      assert Inserts(n)[..n - 1] == Inserts(n - 1);
      InsertedLines(n - 1);
    }
  }

  lemma {:induction false} TakePlain(a: string, s: string, n: nat)
    requires DELIMITER !in a && n > 0
    ensures TakeLines(a + s, n) == a + TakeLines(s, n)
  {
    if a == [] {
      assert a + s == s;
    } else {
      assert (a + s)[1..] == a[1..] + s;
      TakePlain(a[1..], s, n);
    }
  }

  lemma TakeLine(s: string, n: nat)
    requires n > 0
    ensures |TakeLines(Line() + s, n)| == 16 + |TakeLines(s, n - 1)|
  {
    LineIs();
    var head := Line()[..16];
    assert Line() + s == head + ([DELIMITER] + s) && ([DELIMITER] + s)[1..] == s;
    TakePlain(head, [DELIMITER] + s, n);
  }

  lemma {:induction false} TakeAllLines(n: nat, s: string, k: nat)
    ensures |TakeLines(Lines(n) + s, n + k)| == 16 * n + |TakeLines(s, k)|
    ensures Count(Lines(n) + s) == n + Count(s)
  {
    if n == 0 {
      assert Lines(0) + s == s;
    } else {
      assert Lines(n) + s == Line() + (Lines(n - 1) + s);
      TakeLine(Lines(n - 1) + s, n + k);
      TakeAllLines(n - 1, s, k);
      LineCounts(Lines(n - 1) + s);
    }
  }

  lemma LineCounts(s: string)
    ensures Count(Line() + s) == 1 + Count(s)
  {
    LineIs();
    assert Line() == Line()[..16] + [DELIMITER];
    PlainCounts(Line()[..16]);
    CountAppend(Line()[..16], [DELIMITER]);
    CountAppend(Line(), s);
  }

  lemma {:induction false} PlainCounts(a: string)
    requires DELIMITER !in a
    ensures Count(a) == 0
  {
    if a != [] {
      PlainCounts(a[1..]);
    }
  }

  /** Inserting and appending both can widen a line: the eighth insert cuts the
      last line of a full frame, and an append continues what is left of it.  The
      frame then has one page, whose text alone takes 16+7*16 characters. */
  lemma MixedRunOverflows()
    ensures var calls := Inserts(8) + [AppendCall("A", 0)];
            var t := RunText(calls, 135, true);
            && AllPlain(calls) && Complete(t) && PagesFor(Count(t)) == 1
            && |Body(t, 1)| == 16 + 7 * 16
  {
    MixedText();
    MixedPage();
  }

  lemma MixedPage()
    ensures var t := Lines(6) + (Line()[..16] + Line());
            Complete(t) && Count(t) == 7 && |TakeLines(t, 7)| == 128 && SkipLines(t, 0) == t
  {
    var cut := Line()[..16];
    LineIs();
    TakeAllLines(6, cut + Line(), 1);
    TakePlain(cut, Line(), 1);
    assert Line() + [] == Line();
    TakeLine([], 1);
    PlainCounts(cut);
    CountAppend(cut, Line());
    LineCounts([]);
  }

  lemma MixedText()
    ensures RunText(Inserts(8) + [AppendCall("A", 0)], 135, true) == Lines(6) + (Line()[..16] + Line())
  {
    var calls := Inserts(8) + [AppendCall("A", 0)];
    InsertedLines(7);
    assert calls[..8] == Inserts(8) && Inserts(8)[..7] == Inserts(7);
    LineIs();
    LinesLength(6);
    LinesRotate(7);
    CutInFront(Line(), Lines(6), Line()[..16] + Line());
    assert Lines(7) + Line()[..16] + Line() == Line() + Lines(6) + (Line()[..16] + Line());
  }

  lemma CutInFront(l: string, a: string, b: string)
    requires |l| == 17 && |a| + |b| == 135
    ensures LastN(l + a + b, 135) == a + b
  {
  }

  /** A line in front of the others, or behind them. */
  lemma {:induction false} LinesRotate(n: nat)
    ensures Line() + Lines(n) == Lines(n) + Line()
  {
    if n == 0 {
      assert Lines(0) == "";
    } else {
      LinesRotate(n - 1);
      assert Line() + (Lines(n - 1) + Line()) == Line() + Lines(n - 1) + Line();
    }
  }
}
