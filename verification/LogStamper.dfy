/**
 The console log: raw bytes are appended as they come, and every line is given
 one stamp with a sequential line number.  A stamp is kept as one item of the log;
 the time of day it also shows is an input and not modelled.
 */
module LogStamper {
  datatype Item = Stamp(number: nat) | Raw(c: char)

  /** The log file, and what the buffer remembers between calls. */
  datatype Stream = Stream(log: seq<Item>, needTimestamp: bool, lineNumber: nat)

  /** One raw byte. */
  function FeedOne(s: Stream, c: char): Stream {
    var s1 := if s.needTimestamp then Stream(s.log + [Stamp(s.lineNumber)], false, s.lineNumber + 1) else s;
    Stream(s1.log + [Raw(c)], c == '\n', s1.lineNumber)
  }

  function Feed(s: Stream, data: string): Stream
    decreases data
  {
    if data == [] then s else Feed(FeedOne(s, data[0]), data[1..])
  }

  /** What stat() says about the log file before a write. */
  datatype FileCheck = Missing | Unknown | Size(bytes: nat)

  class BufStore {
    var log: seq<Item>
    var backup: seq<Item>
    var needTimestamp: bool
    var lineNumber: nat
    const maxSizeBytes: nat

    constructor (log: seq<Item>, firstNumber: nat, maxSizeBytes: nat)
      ensures State() == Stream(log, true, firstNumber) && this.maxSizeBytes == maxSizeBytes
    {
      this.log, backup := log, [];
      needTimestamp, lineNumber := true, firstNumber;
      this.maxSizeBytes := maxSizeBytes;
    }

    function State(): Stream
      reads this
    {
      Stream(log, needTimestamp, lineNumber)
    }

    method WriteTimestamp()
      modifies this`log, this`lineNumber
      ensures log == old(log) + [Stamp(old(lineNumber))] && lineNumber == old(lineNumber) + 1
    {
      log := log + [Stamp(lineNumber)];
      lineNumber := lineNumber + 1;
    }

    method WriteData(data: string)
      modifies this`log
      ensures log == old(log) + AsRaw(data)
    {
      log := log + AsRaw(data);
    }

    /** memchr for a line end, from `from` on; |data| when there is none. */
    method FindNewline(data: string, from: nat) returns (at: nat)
      requires from <= |data|
      ensures from <= at <= |data| && '\n' !in data[from..at] && (at < |data| ==> data[at] == '\n')
    {
      at := from;
      while at < |data| && data[at] != '\n'
        invariant from <= at <= |data| && '\n' !in data[from..at]
      {
        assert data[from..at + 1] == data[from..at] + [data[at]];
        at := at + 1;
      }
    }

    method WriteToBuffer(data: string, file: FileCheck)
      modifies this
      ensures var rotate := file.Size? && file.bytes >= maxSizeBytes;
              && State() == Feed(old(State()).(log := if file.Missing? || rotate then [] else old(log)), data)
              && backup == if rotate then old(log) else old(backup)
    {
      match file {
        case Missing => log := [];
        case Unknown =>
        case Size(bytes) =>
          if bytes >= maxSizeBytes {
            backup := log;
            log := [];
          }
      }
      WriteLines(data);
    }

    /** The loop of writeToBuffer. */
    method WriteLines(data: string)
      modifies this`log, this`needTimestamp, this`lineNumber
      ensures State() == Feed(old(State()), data)
    {
      var prev := 0;
      assert data[0..] == data;
      var cur := FindNewline(data, 0);
      while cur < |data| || prev < |data|
        invariant 0 <= prev <= cur <= |data| && '\n' !in data[prev..cur] && (cur < |data| ==> data[cur] == '\n')
        invariant Feed(old(State()), data) == Feed(State(), data[prev..])
        decreases |data| - prev
      {
        if cur == |data| {
          // no line end in what is left
          WriteLine(data[prev..]);
          return;
        }
        CutLine(data, prev, cur);
        FeedAppend(State(), data[prev..cur + 1], data[cur + 1..]);
        WriteLine(data[prev..cur + 1]);
        prev := cur + 1;
        cur := FindNewline(data, prev);
      }
    }

    /** One round: a stamp if one is due, then the bytes up to the line end. */
    method WriteLine(line: string)
      requires line != [] && '\n' !in line[..|line| - 1]
      modifies this`log, this`needTimestamp, this`lineNumber
      ensures State() == Feed(old(State()), line)
    {
      FeedLine(State(), line);
      if needTimestamp {
        WriteTimestamp();
        needTimestamp := false;
      }
      WriteData(line);
      if line[|line| - 1] == '\n' {
        needTimestamp := true;
      }
    }
  }

  lemma CutLine(data: string, prev: nat, cur: nat)
    requires prev <= cur < |data|
    ensures data[prev..] == data[prev..cur + 1] + data[cur + 1..]
    ensures var line := data[prev..cur + 1];
            |line| == cur + 1 - prev && line[..|line| - 1] == data[prev..cur]
  {
  }

  function AsRaw(data: string): seq<Item> {
    seq(|data|, i requires 0 <= i < |data| => Raw(data[i]))
  }

  /** A stretch with no line end before its last byte goes out behind at most one stamp. */
  lemma {:induction false} FeedLine(s: Stream, data: string)
    requires data != [] && '\n' !in data[..|data| - 1]
    ensures Feed(s, data) ==
            Stream(s.log + (if s.needTimestamp then [Stamp(s.lineNumber)] else []) + AsRaw(data),
                        data[|data| - 1] == '\n', s.lineNumber + (if s.needTimestamp then 1 else 0))
    decreases data
  {
    var s1 := FeedOne(s, data[0]);
    if |data| > 1 {
      assert data[0] == data[..|data| - 1][0];
      assert data[1..][..|data| - 2] == data[..|data| - 1][1..];
      FeedLine(s1, data[1..]);
      assert AsRaw(data) == [Raw(data[0])] + AsRaw(data[1..]);
    } else {
      assert data[1..] == [];
      assert AsRaw(data) == [Raw(data[0])];
    }
  }

  // ----- What stamping guarantees -----

  /** Chunks do not matter: two writes leave what one write of both would. */
  lemma {:induction false} FeedAppend(s: Stream, d1: string, d2: string)
    ensures Feed(s, d1 + d2) == Feed(Feed(s, d1), d2)
    decreases d1
  {
    if d1 == [] {
      assert d1 + d2 == d2;
    } else {
      assert (d1 + d2)[1..] == d1[1..] + d2;
      FeedAppend(FeedOne(s, d1[0]), d1[1..], d2);
    }
  }

  function Pieces(chunks: seq<string>): string {
    if chunks == [] then [] else chunks[0] + Pieces(chunks[1..])
  }

  function FeedAll(s: Stream, chunks: seq<string>): Stream
    decreases chunks
  {
    if chunks == [] then s else FeedAll(Feed(s, chunks[0]), chunks[1..])
  }

  /** However the stream is cut, the log is the same. */
  lemma {:induction false} AnyChunking(s: Stream, chunks: seq<string>)
    ensures FeedAll(s, chunks) == Feed(s, Pieces(chunks))
    decreases chunks
  {
    if chunks != [] {
      FeedAppend(s, chunks[0], Pieces(chunks[1..]));
      AnyChunking(Feed(s, chunks[0]), chunks[1..]);
    }
  }

  function Unstamped(log: seq<Item>): string {
    if log == [] then [] else (if log[0].Raw? then [log[0].c] else []) + Unstamped(log[1..])
  }

  /** One stamp in front of the first byte of every line and nowhere else, numbered
      consecutively from `n`; `start` says whether a line is about to start. */
  predicate WellStamped(log: seq<Item>, n: nat, start: bool) {
    if log == [] then true
    else if start then log[0] == Stamp(n) && |log| > 1 && log[1].Raw? && WellStamped(log[1..], n + 1, false)
    else log[0].Raw? && WellStamped(log[1..], n, log[0].c == '\n')
  }

  function Stamps(log: seq<Item>): nat {
    if log == [] then 0 else (if log[0].Stamp? then 1 else 0) + Stamps(log[1..])
  }

  /** What a write adds to the log. */
  function Added(due: bool, n: nat, data: string): seq<Item>
    decreases |data|, due
  {
    if data == [] then []
    else if due then [Stamp(n)] + Added(false, n + 1, data)
    else [Raw(data[0])] + Added(data[0] == '\n', n, data[1..])
  }

  /** The added items are stamped line by line with the next numbers; without the
      stamps they are the data. */
  lemma {:induction false} AddedIsStamped(due: bool, n: nat, data: string)
    ensures Unstamped(Added(due, n, data)) == data
    ensures WellStamped(Added(due, n, data), n, due)
    decreases |data|, due
  {
    if data != [] {
      if due {
        AddedIsStamped(false, n + 1, data);
      } else {
        AddedIsStamped(data[0] == '\n', n, data[1..]);
      }
    }
  }

  lemma {:induction false} FeedAdds(s: Stream, data: string)
    ensures Feed(s, data).log == s.log + Added(s.needTimestamp, s.lineNumber, data)
    ensures Feed(s, data).lineNumber == s.lineNumber + Stamps(Added(s.needTimestamp, s.lineNumber, data))
    decreases |data|, s.needTimestamp
  {
    if data != [] {
      if s.needTimestamp {
        var s1 := Stream(s.log + [Stamp(s.lineNumber)], false, s.lineNumber + 1);
        assert FeedOne(s, data[0]) == FeedOne(s1, data[0]);
        FeedAdds(s1, data);
      } else {
        var due := data[0] == '\n';
        FeedAdds(FeedOne(s, data[0]), data[1..]);
      }
    }
  }

  /** From an empty log on, every line carries exactly one stamp with consecutive
      numbers, and the stamps taken out leave the raw stream. */
  lemma StampedLogIsFaithful(n: nat, chunks: seq<string>)
    ensures var s := FeedAll(Stream([], true, n), chunks);
            && WellStamped(s.log, n, true) && Unstamped(s.log) == Pieces(chunks)
            && s.lineNumber == n + Stamps(s.log)
  {
    var s0 := Stream([], true, n);
    AnyChunking(s0, chunks);
    FeedAdds(s0, Pieces(chunks));
    AddedIsStamped(true, n, Pieces(chunks));
    assert Feed(s0, Pieces(chunks)).log == Added(true, n, Pieces(chunks));
  }
}
