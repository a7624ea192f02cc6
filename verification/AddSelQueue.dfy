/**
 The queue of add-SEL requests between the KCS thread, which answers the host at
 once and enqueues the request, and the thread that passes requests on to the
 IPMI stack.  Nodes live at addresses of an explicit heap, are freed outside the
 lock, and freed addresses may be handed out again; using an address that is not
 allocated is recorded as a fault.
 */
module AddSelQueue {
  import opened Wrappers

  type Addr = nat
  type Bytes = seq<int>

  const FRU_SERVER := 1

  /** A list node; its request buffer is a separate allocation. */
  datatype Node = Node(sel: Bytes, selAlive: bool, next: Option<Addr>)

  datatype Thread = Kcs | AddSel

  /** kcs_thread around handle_sel_list */
  datatype KcsPc =
    | Reading
    | Locking(request: Bytes)
    | Allocating(request: Bytes)
    | Linking(temp: Addr)
    | Advancing(temp: Addr)   // the old tail points at the new node, curr_sel does not yet
    | KcsUnlocking

  /** handle_add_sel */
  datatype SelPc =
    | Waiting
    | Taking
    | SelUnlocking(node: Addr)
    | Sending(node: Addr)
    | FreeingBuffer(node: Addr)
    | FreeingNode(node: Addr)

  /** The program's variables, then history: requests in the order they arrived
      and were sent, and the addresses in the list. */
  datatype State = State(
    heap: map<Addr, Node>, head: Option<Addr>, curr: Option<Addr>, lock: Option<Thread>,
    kcs: KcsPc, sel: SelPc, fault: bool,
    arrived: seq<Bytes>, sent: seq<Bytes>, list: seq<Addr>)

  datatype Action =
    | Arrive(request: Bytes)
    | KcsLock
    | Allocate(at: Addr)
    | Link
    | Advance
    | KcsUnlock
    | SelLock
    | Take
    | SelUnlock
    | Send
    | FreeBuffer
    | FreeNode

  predicate Enabled(s: State, a: Action) {
    match a
    case Arrive(_) => s.kcs.Reading?
    case KcsLock => s.kcs.Locking? && s.lock == None
    case Allocate(at) => s.kcs.Allocating? && at !in s.heap
    case Link => s.kcs.Linking?
    case Advance => s.kcs.Advancing?
    case KcsUnlock => s.kcs.KcsUnlocking?
    case SelLock => s.sel.Waiting? && s.lock == None && s.head.Some?
    case Take => s.sel.Taking?
    case SelUnlock => s.sel.SelUnlocking?
    case Send => s.sel.Sending?
    case FreeBuffer => s.sel.FreeingBuffer?
    case FreeNode => s.sel.FreeingNode?
  }

  function Fault(s: State): State {
    s.(fault := true)
  }

  function Step(s: State, a: Action): State
    requires Enabled(s, a)
  {
    match a
    case Arrive(request) => s.(kcs := Locking(request))
    case KcsLock =>
      s.(lock := Some(Kcs), kcs := Allocating(s.kcs.request), arrived := s.arrived + [[FRU_SERVER] + s.kcs.request])
    case Allocate(at) =>
      s.(heap := s.heap[at := Node([FRU_SERVER] + s.kcs.request, true, None)], kcs := Linking(at))
    case Link =>
      if s.head == None then
        s.(head := Some(s.kcs.temp), curr := Some(s.kcs.temp), kcs := KcsUnlocking, list := [s.kcs.temp])
      else if s.curr == None || s.curr.value !in s.heap then Fault(s)
      else
        s.(heap := s.heap[s.curr.value := s.heap[s.curr.value].(next := Some(s.kcs.temp))],
           kcs := Advancing(s.kcs.temp), list := s.list + [s.kcs.temp])
    case Advance =>
      if s.curr == None || s.curr.value !in s.heap then Fault(s)
      else s.(curr := s.heap[s.curr.value].next, kcs := KcsUnlocking)
    case KcsUnlock => s.(lock := None, kcs := Reading)
    case SelLock => s.(lock := Some(AddSel), sel := Taking)
    case Take =>
      if s.head == None || s.head.value !in s.heap then Fault(s)
      else
        s.(head := s.heap[s.head.value].next, sel := SelUnlocking(s.head.value),
           list := if s.list == [] then [] else s.list[1..])
    case SelUnlock => s.(lock := None, sel := Sending(s.sel.node))
    case Send =>
      if s.sel.node !in s.heap || !s.heap[s.sel.node].selAlive then Fault(s)
      else s.(sent := s.sent + [s.heap[s.sel.node].sel], sel := FreeingBuffer(s.sel.node))
    case FreeBuffer =>
      if s.sel.node !in s.heap || !s.heap[s.sel.node].selAlive then Fault(s)
      else s.(heap := s.heap[s.sel.node := s.heap[s.sel.node].(selAlive := false)], sel := FreeingNode(s.sel.node))
    case FreeNode =>
      if s.sel.node !in s.heap then Fault(s)
      else s.(heap := s.heap - {s.sel.node}, sel := Waiting)
  }

  function Init(): State {
    State(map[], None, None, None, Reading, Waiting, false, [], [], [])
  }

  // ----- Invariant -----

  /** The list's addresses in order, each pointing at the next, the last at none. */
  ghost predicate Linked(heap: map<Addr, Node>, list: seq<Addr>) {
    && (forall i :: 0 <= i < |list| ==> list[i] in heap && heap[list[i]].selAlive)
    && (forall i :: 0 <= i < |list| - 1 ==> heap[list[i]].next == Some(list[i + 1]))
    && (list != [] ==> heap[list[|list| - 1]].next == None)
    && (forall i, j :: 0 <= i < j < |list| ==> list[i] != list[j])
  }

  /** The node the sending thread has taken and not freed yet. */
  function InHand(s: State): Option<Addr> {
    match s.sel
    case Waiting => None
    case Taking => None
    case SelUnlocking(n) => Some(n)
    case Sending(n) => Some(n)
    case FreeingBuffer(n) => Some(n)
    case FreeingNode(n) => Some(n)
  }

  function Unsent(s: State): bool {
    s.sel.SelUnlocking? || s.sel.Sending?
  }

  function Requests(heap: map<Addr, Node>, list: seq<Addr>): seq<Bytes>
    requires forall a :: a in list ==> a in heap
  {
    if list == [] then [] else [heap[list[0]].sel] + Requests(heap, list[1..])
  }

  /** Arrived and not in the list yet. */
  function Entering(s: State): seq<Bytes> {
    match s.kcs
    case Allocating(r) => [[FRU_SERVER] + r]
    case Linking(t) => if t in s.heap then [s.heap[t].sel] else []
    case _ => []
  }

  /** Allocated and filled, not in the list yet. */
  ghost predicate NewNode(s: State, t: Addr) {
    t in s.heap && t !in s.list && s.heap[t].selAlive && s.heap[t].next == None
  }

  /** Out of the list, not freed yet. */
  ghost predicate TakenNode(s: State, n: Addr) {
    && n in s.heap && n !in s.list
    && !(s.kcs.Linking? && s.kcs.temp == n)
    && (s.heap[n].selAlive <==> !s.sel.FreeingNode?)
  }

  ghost predicate PointerInv(s: State) {
    && !s.fault
    && Linked(s.heap, s.list)
    && s.head == (if s.list == [] then None else Some(s.list[0]))
    && (s.list != [] && !s.kcs.Advancing? ==> s.curr == Some(s.list[|s.list| - 1]))
    && (s.kcs.Advancing? ==>
          |s.list| >= 2 && s.curr == Some(s.list[|s.list| - 2]) && s.kcs.temp == s.list[|s.list| - 1])
    && (s.kcs.Linking? ==> NewNode(s, s.kcs.temp))
    && (InHand(s).Some? ==> TakenNode(s, InHand(s).value))
  }

  ghost predicate LockInv(s: State) {
    && (s.lock == Some(Kcs) <==> !s.kcs.Reading? && !s.kcs.Locking?)
    && (s.lock == Some(AddSel) <==> s.sel.Taking? || s.sel.SelUnlocking?)
    && (s.sel.Taking? ==> s.list != [])
  }

  ghost predicate OrderInv(s: State)
    requires PointerInv(s)
  {
    s.arrived == s.sent + (if Unsent(s) then [s.heap[InHand(s).value].sel] else [])
                 + Requests(s.heap, s.list) + Entering(s)
  }

  ghost predicate Inv(s: State) {
    LockInv(s) && PointerInv(s) && OrderInv(s)
  }

  lemma {:induction false} RequestsSame(h1: map<Addr, Node>, h2: map<Addr, Node>, list: seq<Addr>)
    requires forall a :: a in list ==> a in h1 && a in h2 && h1[a].sel == h2[a].sel
    ensures Requests(h1, list) == Requests(h2, list)
  {
    if list != [] {
      RequestsSame(h1, h2, list[1..]);
    }
  }

  lemma {:induction false} RequestsAppend(h: map<Addr, Node>, list: seq<Addr>, a: Addr)
    requires a in h && forall x :: x in list ==> x in h
    ensures Requests(h, list + [a]) == Requests(h, list) + [h[a].sel]
  {
    if list == [] {
      assert [a][1..] == [];
    } else {
      assert (list + [a])[1..] == list[1..] + [a];
      RequestsAppend(h, list[1..], a);
    }
  }

  lemma KcsStepKeeps(s: State, a: Action)
    requires Inv(s) && Enabled(s, a) && (a.Arrive? || a.KcsLock? || a.Allocate? || a.KcsUnlock?)
    ensures Inv(Step(s, a))
  {
    if a.Allocate? {
      RequestsSame(s.heap, Step(s, a).heap, s.list);
    }
  }

  lemma LinkKeepsPointers(s: State)
    requires Inv(s) && Enabled(s, Link)
    ensures LockInv(Step(s, Link)) && PointerInv(Step(s, Link))
  {
  }

  lemma LinkKeeps(s: State)
    requires Inv(s) && Enabled(s, Link)
    ensures Inv(Step(s, Link))
  {
    LinkKeepsPointers(s);
    LinkKeepsOrder(s);
  }

  lemma LinkKeepsOrder(s: State)
    requires Inv(s) && Enabled(s, Link) && PointerInv(Step(s, Link))
    ensures OrderInv(Step(s, Link))
  {
    var s' := Step(s, Link);
    RequestsSame(s.heap, s'.heap, s.list);
    RequestsAppend(s'.heap, s.list, s.kcs.temp);
    assert s.list + [s.kcs.temp] == s'.list;
  }

  lemma AdvanceKeeps(s: State)
    requires Inv(s) && Enabled(s, Advance)
    ensures Inv(Step(s, Advance))
  {
  }

  lemma SelStepKeeps(s: State, a: Action)
    requires Inv(s) && Enabled(s, a) && (a.SelLock? || a.SelUnlock? || a.Send?)
    ensures Inv(Step(s, a))
  {
  }

  lemma TakeKeeps(s: State)
    requires Inv(s) && Enabled(s, Take)
    ensures Inv(Step(s, Take))
  {
    assert s.list == [s.list[0]] + s.list[1..];
  }

  lemma FreeBufferKeeps(s: State)
    requires Inv(s) && Enabled(s, FreeBuffer)
    ensures Inv(Step(s, FreeBuffer))
  {
    RequestsSame(s.heap, Step(s, FreeBuffer).heap, s.list);
  }

  lemma FreeNodeKeeps(s: State)
    requires Inv(s) && Enabled(s, FreeNode)
    ensures Inv(Step(s, FreeNode))
  {
    RequestsSame(s.heap, Step(s, FreeNode).heap, s.list);
  }

  lemma StepKeepsInv(s: State, a: Action)
    requires Inv(s) && Enabled(s, a)
    ensures Inv(Step(s, a))
  {
    match a
    case Link => LinkKeeps(s);
    case Advance => AdvanceKeeps(s);
    case Take => TakeKeeps(s);
    case FreeBuffer => FreeBufferKeeps(s);
    case FreeNode => FreeNodeKeeps(s);
    case Arrive(_) => KcsStepKeeps(s, a);
    case KcsLock => KcsStepKeeps(s, a);
    case Allocate(_) => KcsStepKeeps(s, a);
    case KcsUnlock => KcsStepKeeps(s, a);
    case _ => SelStepKeeps(s, a);
  }

  ghost predicate Reaches(s: State, actions: seq<Action>, s': State)
    decreases |actions|
  {
    if actions == [] then s' == s
    else Enabled(s, actions[0]) && Reaches(Step(s, actions[0]), actions[1..], s')
  }

  lemma {:induction false} RunKeepsInv(s: State, actions: seq<Action>, s': State)
    requires Inv(s) && Reaches(s, actions, s')
    ensures Inv(s')
    decreases |actions|
  {
    if actions != [] {
      StepKeepsInv(s, actions[0]);
      RunKeepsInv(Step(s, actions[0]), actions[1..], s');
    }
  }

  // ----- Theorems -----

  /** What follows `k` next pointers behind `a`. */
  ghost function Follow(heap: map<Addr, Node>, a: Option<Addr>, k: nat): Option<Addr>
    decreases k
  {
    if k == 0 then a
    else if a == None || a.value !in heap then None
    else Follow(heap, heap[a.value].next, k - 1)
  }

  lemma {:induction false} FollowList(heap: map<Addr, Node>, list: seq<Addr>, i: nat, k: nat)
    requires Linked(heap, list) && i + k < |list|
    ensures Follow(heap, Some(list[i]), k) == Some(list[i + k])
    decreases k
  {
    if k > 0 {
      FollowList(heap, list, i + 1, k - 1);
    }
  }

  /** In every interleaving no freed or unallocated node is used, and requests are
      sent in the order they arrived, none lost and none twice. */
  lemma QueueIsSafeAndFifo(actions: seq<Action>, s: State)
    requires Reaches(Init(), actions, s)
    ensures !s.fault
    ensures s.sent <= s.arrived
    ensures s.kcs.Reading? && s.sel.Waiting? && s.head == None ==> s.sent == s.arrived
  {
    RunKeepsInv(Init(), actions, s);
  }

  /** The requests the KCS thread received, as they come from the host. */
  function Received(actions: seq<Action>): seq<Bytes> {
    if actions == [] then []
    else (if actions[0].Arrive? then [actions[0].request] else []) + Received(actions[1..])
  }

  /** With the history, the request the KCS thread holds and waits for the lock with. */
  function Accepted(s: State): seq<Bytes> {
    s.arrived + if s.kcs.Locking? then [[FRU_SERVER] + s.kcs.request] else []
  }

  lemma {:induction false} AcceptedAre(s: State, actions: seq<Action>, s': State)
    requires Reaches(s, actions, s')
    ensures |Accepted(s')| == |Accepted(s)| + |Received(actions)|
    ensures Accepted(s) <= Accepted(s')
    ensures forall i :: 0 <= i < |Received(actions)| ==>
              Accepted(s')[|Accepted(s)| + i] == [1] + Received(actions)[i]
    decreases |actions|
  {
    if actions != [] {
      var t := Step(s, actions[0]);
      var here := if actions[0].Arrive? then [actions[0].request] else [];
      AcceptedAre(t, actions[1..], s');
      assert Accepted(t) == Accepted(s) + if here == [] then [] else [[1] + here[0]];
      assert Received(actions) == here + Received(actions[1..]);
    }
  }

  /** What the IPMI stack gets, told from the events alone: the requests received, in
      their order, each behind the byte 1, and all of them once both threads rest. */
  lemma SentAreReceived(actions: seq<Action>, s: State)
    requires Reaches(Init(), actions, s)
    ensures |s.sent| <= |Received(actions)|
    ensures forall i :: 0 <= i < |s.sent| ==> s.sent[i] == [1] + Received(actions)[i]
    ensures s.kcs.Reading? && s.sel.Waiting? && s.head == None ==> |s.sent| == |Received(actions)|
  {
    QueueIsSafeAndFifo(actions, s);
    AcceptedAre(Init(), actions, s);
    assert s.arrived <= Accepted(s);
    forall i | 0 <= i < |s.sent|
      ensures s.sent[i] == [1] + Received(actions)[i]
    {
      assert s.sent[i] == s.arrived[i] == Accepted(s)[i];
    }
  }

  lemma ListEndsAtTail(s: State)
    requires PointerInv(s) && s.head != None
    ensures s.curr.Some? && s.curr.value in s.heap
    ensures exists k :: Follow(s.heap, s.head, k) == s.curr
    ensures s.heap[s.curr.value].next == if s.kcs.Advancing? then Some(s.kcs.temp) else None
    ensures s.kcs.Advancing? ==> s.kcs.temp in s.heap && s.heap[s.kcs.temp].next == None
  {
    var last := if s.kcs.Advancing? then |s.list| - 2 else |s.list| - 1;
    FollowList(s.heap, s.list, 0, last);
  }

  /** Whenever head is set, the tail pointer is reached from it and is the last node;
      only between the two assignments of the enqueuing section, under the lock, is
      the last node the one behind it. */
  lemma TailIsLast(actions: seq<Action>, s: State)
    requires Reaches(Init(), actions, s) && s.head != None
    ensures s.curr.Some? && s.curr.value in s.heap
    ensures exists k :: Follow(s.heap, s.head, k) == s.curr
    ensures !s.kcs.Advancing? ==> s.heap[s.curr.value].next == None
    ensures s.kcs.Advancing? ==>
              && s.lock == Some(Kcs) && s.heap[s.curr.value].next == Some(s.kcs.temp)
              && s.kcs.temp in s.heap && s.heap[s.kcs.temp].next == None
  {
    RunKeepsInv(Init(), actions, s);
    ListEndsAtTail(s);
  }

  /** Everything allocated is in the list or in some thread's hands. */
  ghost predicate Accounted(s: State) {
    forall a :: a in s.heap ==> a in s.list || InHand(s) == Some(a) || (s.kcs.Linking? && s.kcs.temp == a)
  }

  lemma StepKeepsAccounted(s: State, a: Action)
    requires Inv(s) && Enabled(s, a) && Accounted(s)
    ensures Accounted(Step(s, a))
  {
    if a.Take? {
      assert s.list == [s.list[0]] + s.list[1..];
    } else if a.Link? {
      LinkKeepsAccounted(s);
    }
  }

  lemma LinkKeepsAccounted(s: State)
    requires Inv(s) && Enabled(s, Link) && Accounted(s)
    ensures Accounted(Step(s, Link))
  {
  }

  /** So nothing leaks, in any interleaving: a node is freed after its buffer, and all
      other nodes that are left still have theirs. */
  lemma {:induction false} NothingLeaks(s: State, actions: seq<Action>, s': State)
    requires Inv(s) && Accounted(s) && Reaches(s, actions, s')
    ensures Accounted(s')
    ensures s'.sel.FreeingNode? ==> s'.sel.node in s'.heap && !s'.heap[s'.sel.node].selAlive
    ensures forall a :: a in s'.heap && !s'.heap[a].selAlive ==> s'.sel == FreeingNode(a)
    decreases |actions|
  {
    if actions != [] {
      StepKeepsInv(s, actions[0]);
      StepKeepsAccounted(s, actions[0]);
      NothingLeaks(Step(s, actions[0]), actions[1..], s');
    }
  }
}
