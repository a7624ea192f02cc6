/**
 The table of IPMB sequence numbers shared by the callers waiting for a response
 and the thread that hands responses out.  Each operation runs under the table's
 mutex, so a run is a sequence of whole operations in any order.
 */
module IpmbSequence {
  import opened Wrappers

  const SEQ_NUM_MAX := 64

  type Num = n: nat | n < SEQ_NUM_MAX

  /** One ipmb_handle call; it owns one response buffer. */
  type Call = nat

  datatype Slot = Slot(inUse: bool, len: nat, pBuf: Option<Call>)

  datatype Table = Table(curr: Num, slots: seq<Slot>)

  /** The number `k` places after `curr`, around the table. */
  function At(curr: Num, k: nat): Num
    requires k <= SEQ_NUM_MAX
  {
    if curr + k < SEQ_NUM_MAX then curr + k else curr + k - SEQ_NUM_MAX
  }

  /** How many places after `curr`, from the k-th on, the first free number is. */
  function Offset(slots: seq<Slot>, curr: Num, k: nat): (o: nat)
    requires |slots| == SEQ_NUM_MAX && k <= SEQ_NUM_MAX
    ensures k <= o <= SEQ_NUM_MAX
    ensures forall i :: k <= i < o ==> slots[At(curr, i)].inUse
    ensures o < SEQ_NUM_MAX ==> !slots[At(curr, o)].inUse
    decreases SEQ_NUM_MAX - k
  {
    if k == SEQ_NUM_MAX || !slots[At(curr, k)].inUse then k else Offset(slots, curr, k + 1)
  }

  function GetNew(t: Table, c: Call): (Option<Num>, Table)
    requires |t.slots| == SEQ_NUM_MAX
  {
    var o := Offset(t.slots, t.curr, 0);
    if o == SEQ_NUM_MAX then (None, t)
    else
      var n := At(t.curr, o);
      (Some(n), Table(At(n, 1), t.slots[n := Slot(true, 0, Some(c))]))
  }

  /** The caller whose buffer a response with this number goes to. */
  function Taker(t: Table, n: Num): Option<Call>
    requires |t.slots| == SEQ_NUM_MAX
  {
    if t.slots[n].inUse then t.slots[n].pBuf else None
  }

  /** memcpy of a response over the front of a buffer. */
  function Overwrite(old_: seq<byte>, bytes: seq<byte>): seq<byte> {
    bytes + if |bytes| <= |old_| then old_[|bytes|..] else []
  }

  class SeqTable {
    var currSeq: Num
    const slots: array<Slot>
    var mem: map<Call, seq<byte>>

    /** seq_init */
    constructor ()
      ensures slots.Length == SEQ_NUM_MAX && Abs() == Table(0, seq(SEQ_NUM_MAX, _ => Slot(false, 0, None)))
    {
      currSeq := 0;
      mem := map[];
      slots := new Slot[SEQ_NUM_MAX](_ => Slot(false, 0, None));
    }

    ghost function Abs(): Table
      reads this, slots
    {
      Table(currSeq, slots[..])
    }

    method SeqGetNew(c: Call) returns (ret: int)
      requires slots.Length == SEQ_NUM_MAX
      modifies this`currSeq, slots
      ensures Abs() == GetNew(old(Abs()), c).1
      ensures match GetNew(old(Abs()), c).0
              case None => ret == -1
              case Some(n) => ret == n
    {
      ret := -1;
      var index := currSeq;
      ghost var k := 0;
      while true
        invariant k < SEQ_NUM_MAX && index == At(currSeq, k) && slots[..] == old(slots[..])
        invariant Offset(slots[..], currSeq, 0) == Offset(slots[..], currSeq, k)
        decreases SEQ_NUM_MAX - k
      {
        if !slots[index].inUse {
          ret := index;
          slots[index] := Slot(true, 0, Some(c));
          break;
        }
        index := if index + 1 == SEQ_NUM_MAX then 0 else index + 1;
        k := k + 1;
        if index == currSeq {
          break;
        }
      }
      if ret >= 0 {
        currSeq := if index + 1 == SEQ_NUM_MAX then 0 else index + 1;
      }
    }

    method SeqPut(n: nat, bytes: seq<byte>) returns (rc: int)
      requires slots.Length == SEQ_NUM_MAX
      modifies this`mem, slots
      ensures rc == 0 || rc == -1
      ensures rc == 0 <==> n < SEQ_NUM_MAX && Taker(old(Abs()), n).Some?
      ensures rc != 0 ==> Abs() == old(Abs()) && mem == old(mem)
      ensures rc == 0 ==>
                var c := Taker(old(Abs()), n).value;
                && Abs() == old(Abs()).(slots := old(Abs()).slots[n := old(Abs()).slots[n].(len := |bytes|)])
                && mem == old(mem)[c := Overwrite(if c in old(mem) then old(mem)[c] else [], bytes)]
    {
      if n >= SEQ_NUM_MAX {
        return -1;
      }
      if slots[n].inUse && slots[n].pBuf.Some? {
        var c := slots[n].pBuf.value;
        mem := mem[c := Overwrite(if c in mem then mem[c] else [], bytes)];
        slots[n] := slots[n].(len := |bytes|);
        return 0;
      }
      return -1;
    }

    /** The end of ipmb_handle: reads the length and gives the number back. */
    method Release(n: Num) returns (resLen: nat)
      requires slots.Length == SEQ_NUM_MAX
      modifies slots
      ensures resLen == old(slots[n]).len
      ensures Abs() == old(Abs()).(slots := old(Abs()).slots[n := Slot(false, resLen, None)])
    {
      resLen := slots[n].len;
      slots[n] := slots[n].(inUse := false);
      slots[n] := slots[n].(pBuf := None);
    }
  }

  // ----- Runs -----

  /** What a call got: its number, and how many responses had come in before. */
  datatype Ticket = Ticket(num: Num, since: nat)

  datatype Response = Response(num: Num, bytes: seq<byte>)

  /** The table and buffers, with history: outstanding calls, all responses ever
      handed in, and per number the slots issued or found busy since its last issue. */
  datatype Sys = Sys(t: Table, mem: map<Call, seq<byte>>,
                     calls: map<Call, Ticket>, log: seq<Response>, seen: map<Num, set<Num>>)

  datatype Event =
    | Allocate(c: Call, garbage: seq<byte>)
    | Arrive(r: Response)
    | Finish(c: Call)

  function Init(): Sys {
    Sys(Table(0, seq(SEQ_NUM_MAX, _ => Slot(false, 0, None))), map[], map[], [], map[])
  }

  /** The slots an allocation passes over, and the one it issues. */
  function Passed(t: Table): set<Num>
    requires |t.slots| == SEQ_NUM_MAX
  {
    set i | 0 <= i < Offset(t.slots, t.curr, 0) :: At(t.curr, i)
  }

  ghost predicate Enabled(s: Sys, e: Event) {
    match e
    case Allocate(c, _) => c !in s.calls && |s.t.slots| == SEQ_NUM_MAX
    case Arrive(r) => |r.bytes| < 256 && |s.t.slots| == SEQ_NUM_MAX
    case Finish(c) => c in s.calls && |s.t.slots| == SEQ_NUM_MAX
  }

  function Step(s: Sys, e: Event): Sys
    requires Enabled(s, e)
  {
    match e
    case Allocate(c, garbage) =>
      (match GetNew(s.t, c)
       case (None, _) => s
       case (Some(n), t') =>
         var seen' := map m | m in s.seen :: s.seen[m] + Passed(s.t) + {n};
         Sys(t', s.mem[c := garbage], s.calls[c := Ticket(n, |s.log|)], s.log, seen'[n := {}]))
    case Arrive(r) =>
      (match Taker(s.t, r.num)
       case None => s.(log := s.log + [r])
       case Some(c) =>
         s.(t := s.t.(slots := s.t.slots[r.num := s.t.slots[r.num].(len := |r.bytes|)]),
            mem := s.mem[c := Overwrite(if c in s.mem then s.mem[c] else [], r.bytes)],
            log := s.log + [r]))
    case Finish(c) =>
      var n := s.calls[c].num;
      s.(t := s.t.(slots := s.t.slots[n := Slot(false, s.t.slots[n].len, None)]), calls := s.calls - {c})
  }

  /** What ipmb_handle hands back to its caller when it finishes. */
  function Returned(s: Sys, c: Call): seq<byte>
    requires c in s.calls && c in s.mem && |s.t.slots| == SEQ_NUM_MAX
  {
    var n := s.t.slots[s.calls[c].num].len;
    if n <= |s.mem[c]| then s.mem[c][..n] else s.mem[c]
  }

  /** The last response with this number among `rs`. */
  function LastFor(rs: seq<Response>, n: Num): Option<seq<byte>> {
    if rs == [] then None
    else if rs[|rs| - 1].num == n then Some(rs[|rs| - 1].bytes)
    else LastFor(rs[..|rs| - 1], n)
  }

  /** How far `x` is behind `n`, around the table. */
  function Behind(n: Num, x: Num): nat {
    if x > n then x - n - 1 else x + SEQ_NUM_MAX - n - 1
  }

  ghost predicate OwnerInv(s: Sys) {
    && |s.t.slots| == SEQ_NUM_MAX
    && (forall n: Num :: s.t.slots[n].inUse <==> s.t.slots[n].pBuf.Some?)
    && (forall n: Num :: s.t.slots[n].pBuf.Some? ==>
          s.t.slots[n].pBuf.value in s.calls && s.calls[s.t.slots[n].pBuf.value].num == n)
    && (forall c :: c in s.calls ==> s.t.slots[s.calls[c].num].pBuf == Some(c))
  }

  ghost predicate BufferInv(s: Sys)
    requires |s.t.slots| == SEQ_NUM_MAX
  {
    forall c :: c in s.calls ==>
      && c in s.mem && s.calls[c].since <= |s.log|
      && match LastFor(s.log[s.calls[c].since..], s.calls[c].num)
         case None => s.t.slots[s.calls[c].num].len == 0
         case Some(b) => s.t.slots[s.calls[c].num].len == |b| <= |s.mem[c]| && s.mem[c][..|b|] == b
  }

  ghost predicate FairInv(s: Sys) {
    forall n, j: Num :: n in s.seen && j != n && Behind(n, j) < Behind(n, s.t.curr) ==> j in s.seen[n]
  }

  ghost predicate Inv(s: Sys) {
    OwnerInv(s) && BufferInv(s) && FairInv(s)
  }

  lemma InitInv()
    ensures Inv(Init())
  {
  }

  lemma StepKeepsOwners(s: Sys, e: Event)
    requires Inv(s) && Enabled(s, e)
    ensures OwnerInv(Step(s, e))
  {
  }

  lemma LastForMore(rs: seq<Response>, r: Response, since: nat, n: Num)
    requires since <= |rs|
    ensures LastFor((rs + [r])[since..], n) == if r.num == n then Some(r.bytes) else LastFor(rs[since..], n)
  {
    assert (rs + [r])[since..] == rs[since..] + [r];
    assert (rs[since..] + [r])[..|rs[since..]|] == rs[since..];
  }

  lemma ArriveKeepsBuffers(s: Sys, r: Response)
    requires Inv(s) && Enabled(s, Arrive(r)) && OwnerInv(Step(s, Arrive(r)))
    ensures BufferInv(Step(s, Arrive(r)))
  {
    var s' := Step(s, Arrive(r));
    forall c | c in s'.calls
      ensures c in s'.mem && s'.calls[c].since <= |s'.log|
      ensures match LastFor(s'.log[s'.calls[c].since..], s'.calls[c].num)
              case None => s'.t.slots[s'.calls[c].num].len == 0
              case Some(b) => s'.t.slots[s'.calls[c].num].len == |b| <= |s'.mem[c]| && s'.mem[c][..|b|] == b
    {
      LastForMore(s.log, r, s.calls[c].since, s.calls[c].num);
    }
  }

  lemma StepKeepsBuffers(s: Sys, e: Event)
    requires Inv(s) && Enabled(s, e)
    ensures OwnerInv(Step(s, e)) && BufferInv(Step(s, e))
  {
    StepKeepsOwners(s, e);
    if e.Arrive? {
      ArriveKeepsBuffers(s, e.r);
    }
  }

  /** Whatever lies between the old and the new position was passed over. */
  lemma PassedCovers(t: Table, n: Num, j: Num)
    requires |t.slots| == SEQ_NUM_MAX && j != n
    requires Behind(n, t.curr) <= Behind(n, j) < Behind(n, t.curr) + Offset(t.slots, t.curr, 0)
    ensures j in Passed(t)
  {
    var i := Behind(n, j) - Behind(n, t.curr);
    assert At(t.curr, i) == j;
  }

  lemma StepKeepsFairness(s: Sys, e: Event)
    requires Inv(s) && Enabled(s, e)
    ensures FairInv(Step(s, e))
  {
    if e.Allocate? && GetNew(s.t, e.c).0.Some? {
      var s' := Step(s, e);
      var issued := GetNew(s.t, e.c).0.value;
      forall n, j: Num | n in s'.seen && j != n && Behind(n, j) < Behind(n, s'.t.curr)
        ensures j in s'.seen[n]
      {
        if n != issued && j != issued {
          SeenOrPassed(s, n, j, issued);
        }
      }
    }
  }

  lemma SeenOrPassed(s: Sys, n: Num, j: Num, issued: Num)
    requires OwnerInv(s) && FairInv(s) && n in s.seen && j != n && n != issued && j != issued
    requires Offset(s.t.slots, s.t.curr, 0) < SEQ_NUM_MAX
    requires issued == At(s.t.curr, Offset(s.t.slots, s.t.curr, 0))
    requires Behind(n, j) < Behind(n, At(issued, 1))
    ensures j in s.seen[n] || j in Passed(s.t)
  {
    if Behind(n, j) >= Behind(n, s.t.curr) {
      PassedCovers(s.t, n, j);
    }
  }

  lemma StepKeepsInv(s: Sys, e: Event)
    requires Inv(s) && Enabled(s, e)
    ensures Inv(Step(s, e))
  {
    StepKeepsBuffers(s, e);
    StepKeepsFairness(s, e);
  }

  ghost predicate Reaches(s: Sys, events: seq<Event>, s': Sys)
    decreases |events|
  {
    if events == [] then s' == s
    else Enabled(s, events[0]) && Reaches(Step(s, events[0]), events[1..], s')
  }

  lemma {:induction false} RunKeepsInv(s: Sys, events: seq<Event>, s': Sys)
    requires Inv(s) && Reaches(s, events, s')
    ensures Inv(s')
    decreases |events|
  {
    if events != [] {
      StepKeepsInv(s, events[0]);
      RunKeepsInv(Step(s, events[0]), events[1..], s');
    }
  }

  // ----- Theorems -----

  /** Some outstanding call has this number. */
  ghost predicate Taken(s: Sys, n: Num) {
    exists c :: c in s.calls && s.calls[c].num == n
  }

  /** No two outstanding calls share a number, and a number is in use exactly
      when some call has it, exactly when it has a buffer to fill. */
  lemma NumbersAreExclusive(events: seq<Event>, s: Sys, c1: Call, c2: Call, n: Num)
    requires Reaches(Init(), events, s)
    ensures c1 in s.calls && c2 in s.calls && c1 != c2 ==> s.calls[c1].num != s.calls[c2].num
    ensures |s.t.slots| == SEQ_NUM_MAX
    ensures Taken(s, n) <==> s.t.slots[n].inUse
    ensures s.t.slots[n].inUse <==> s.t.slots[n].pBuf.Some?
  {
    InitInv();
    RunKeepsInv(Init(), events, s);
  }

  lemma NoneFreeIff(t: Table, c: Call)
    requires |t.slots| == SEQ_NUM_MAX
    ensures GetNew(t, c).0.None? <==> forall n: Num :: t.slots[n].inUse
  {
    var o := Offset(t.slots, t.curr, 0);
    if o == SEQ_NUM_MAX {
      forall n: Num ensures t.slots[n].inUse {
        var i: nat := if n >= t.curr then n - t.curr else n + SEQ_NUM_MAX - t.curr;
        assert At(t.curr, i) == n;
      }
    }
  }

  /** An allocation fails exactly when every number is taken by an outstanding call. */
  lemma AllocationFailsIff(events: seq<Event>, s: Sys, c: Call)
    requires Reaches(Init(), events, s)
    ensures |s.t.slots| == 64
    ensures GetNew(s.t, c).0.None? <==> forall n: Num :: Taken(s, n)
  {
    InitInv();
    RunKeepsInv(Init(), events, s);
    NoneFreeIff(s.t, c);
    assert forall n: Num :: Taken(s, n) <==> s.t.slots[n].inUse;
  }

  /** A finishing call gets the last response that came in under its number
      while it held the number, or nothing if none did. */
  lemma ReturnedIsOwn(events: seq<Event>, s: Sys, c: Call)
    requires Reaches(Init(), events, s) && c in s.calls
    ensures |s.t.slots| == SEQ_NUM_MAX && c in s.mem && s.calls[c].since <= |s.log|
    ensures Returned(s, c) ==
            match LastFor(s.log[s.calls[c].since..], s.calls[c].num)
            case None => []
            case Some(b) => b
  {
    InitInv();
    RunKeepsInv(Init(), events, s);
  }

  /** A number is issued again only after every other one was issued or found busy
      by an allocation since. */
  lemma ReissueComesLast(events: seq<Event>, s: Sys, c: Call, j: Num)
    requires Reaches(Init(), events, s) && |s.t.slots| == SEQ_NUM_MAX && GetNew(s.t, c).0.Some?
    requires var n := GetNew(s.t, c).0.value; n in s.seen && j != n
    ensures j in s.seen[GetNew(s.t, c).0.value] + Passed(s.t)
  {
    InitInv();
    RunKeepsInv(Init(), events, s);
    var n := GetNew(s.t, c).0.value;
    if Behind(n, j) >= Behind(n, s.t.curr) {
      PassedCovers(s.t, n, j);
    }
  }
}
