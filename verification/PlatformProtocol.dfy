/**
 The platform service's two threads with their program counters, the two
 service locks and both remote trees.  Each remote tree, seen on its own, runs
 MirrorProtocol; the theorems about whole runs follow from that.
 */
module PlatformProtocol {
  import opened ObjectPaths
  import opened MirrorProtocol
  import opened Wrappers

  datatype Service = SensorSvc | FruSvc

  /** Where a thread stands.  A push begun by a service coming up has root `[]`. */
  datatype Pc =
    | Idle
    | Changed(fru: Path)
    | Checking(fru: Path, at: Path)
    | AwaitLock(fru: Path, available: bool, svc: Service)
    | Locked(fru: Path, available: bool, svc: Service)
    | Walking(svc: Service, root: Path, todo: set<Path>)
    | Calling(svc: Service, root: Path, next: Path, todo: set<Path>)
    | Unlocking(fru: Path, available: bool, svc: Service)

  datatype Remote = Remote(up: bool, tree: set<Path>, lock: Option<Thread>)

  datatype State = State(avail: set<Path>, sensor: Remote, fru: Remote, sweep: Pc, dbus: Pc)

  function RemoteOf(s: State, svc: Service): Remote {
    if svc == SensorSvc then s.sensor else s.fru
  }

  function SetRemote(s: State, svc: Service, r: Remote): State {
    if svc == SensorSvc then s.(sensor := r) else s.(fru := r)
  }

  function PcOf(s: State, t: Thread): Pc {
    if t == Sweep then s.sweep else s.dbus
  }

  function SetPc(s: State, t: Thread, pc: Pc): State {
    if t == Sweep then s.(sweep := pc) else s.(dbus := pc)
  }

  // ----- Actions -----

  datatype Action =
    | SetFlag(x: Path, value: bool)     // detectAvailability or setAvailable
    | ReadParent                        // one level of checkIfParentFruAvailable
    | StartHandler                      // the sweep calls the handler directly
    | TakeLock
    | FirstCall(sent: bool)
    | ReadFlag(x: Path)
    | Call(sent: bool)
    | EndPush
    | ReleaseLock
    | Appear(svc: Service)
    | Vanish(svc: Service, left: set<Path>)
    | RemoteDrifts(svc: Service, left: set<Path>)

  ghost predicate Enabled(c: Config, s: State, t: Thread, a: Action) {
    var pc := PcOf(s, t);
    match a
    case SetFlag(x, _) => pc.Idle? && x in c.frus && Owner(c, x) == t
    case ReadParent => pc.Checking? || (pc.Changed? && t == DBus)
    case StartHandler => pc.Changed? && t == Sweep
    case TakeLock => pc.AwaitLock? && RemoteOf(s, pc.svc).lock == None
    case FirstCall(_) => pc.Locked?
    case ReadFlag(x) => pc.Walking? && x in pc.todo
    case Call(_) => pc.Calling?
    case EndPush => pc.Walking? && pc.todo == {}
    case ReleaseLock => pc.Unlocking?
    case Appear(svc) => t == DBus && pc.Idle? && RemoteOf(s, svc).lock == None && !RemoteOf(s, svc).up
    case Vanish(svc, _) => t == DBus && pc.Idle? && RemoteOf(s, svc).lock == None
    case RemoteDrifts(svc, _) => !RemoteOf(s, svc).up && RemoteOf(s, svc).lock == None
  }

  function Apply(c: Config, s: State, t: Thread, a: Action): State
    requires Enabled(c, s, t, a)
  {
    var pc := PcOf(s, t);
    match a
    case SetFlag(x, value) =>
      var changed := value != (x in s.avail);
      SetPc(s.(avail := if value then s.avail + {x} else s.avail - {x}), t, if changed then Changed(x) else Idle)
    case ReadParent =>
      var at := if pc.Changed? then pc.fru else pc.at;
      if Parent(at) == [] then SetPc(s, t, AwaitLock(pc.fru, pc.fru in s.avail, SensorSvc))
      else if Parent(at) !in s.avail then SetPc(s, t, Idle)
      else SetPc(s, t, Checking(pc.fru, Parent(at)))
    case StartHandler =>
      SetPc(s, t, AwaitLock(pc.fru, pc.fru in s.avail, SensorSvc))
    case TakeLock =>
      SetPc(SetRemote(s, pc.svc, RemoteOf(s, pc.svc).(lock := Some(t))), t, Locked(pc.fru, pc.available, pc.svc))
    case FirstCall(sent) =>
      var r := RemoteOf(s, pc.svc);
      if pc.available && pc.fru in s.avail && r.up && sent && Accepts(r.tree, pc.fru) then
        SetPc(SetRemote(s, pc.svc, r.(tree := AddRemote(r.tree, pc.fru))), t,
              Walking(pc.svc, pc.fru, Children(c.frus, pc.fru)))
      else if !pc.available && r.up then
        SetPc(SetRemote(s, pc.svc, r.(tree := RemoveRemote(r.tree, pc.fru))), t,
              Unlocking(pc.fru, pc.available, pc.svc))
      else SetPc(s, t, Unlocking(pc.fru, pc.available, pc.svc))
    case ReadFlag(x) =>
      if x in s.avail && RemoteOf(s, pc.svc).up then SetPc(s, t, Calling(pc.svc, pc.root, x, pc.todo - {x}))
      else SetPc(s, t, Walking(pc.svc, pc.root, pc.todo - {x}))
    case Call(sent) =>
      var r := RemoteOf(s, pc.svc);
      if sent && Accepts(r.tree, pc.next) then
        SetPc(SetRemote(s, pc.svc, r.(tree := AddRemote(r.tree, pc.next))), t,
              Walking(pc.svc, pc.root, pc.todo + Children(c.frus, pc.next)))
      else SetPc(s, t, Walking(pc.svc, pc.root, pc.todo))
    case EndPush =>
      SetPc(s, t, Unlocking(pc.root, true, pc.svc))
    case ReleaseLock =>
      SetPc(SetRemote(s, pc.svc, RemoteOf(s, pc.svc).(lock := None)), t,
            if pc.fru != [] && pc.svc == SensorSvc then AwaitLock(pc.fru, pc.available, FruSvc) else Idle)
    case Appear(svc) =>
      SetPc(SetRemote(s, svc, Remote(true, {}, Some(t))), t, Walking(svc, [], Children(c.frus, [])))
    case Vanish(svc, left) =>
      SetRemote(s, svc, RemoteOf(s, svc).(up := false, tree := left))
    case RemoteDrifts(svc, left) =>
      SetRemote(s, svc, RemoteOf(s, svc).(tree := left))
  }

  predicate LosesNothing(a: Action) {
    (a.FirstCall? ==> a.sent) && (a.Call? ==> a.sent)
  }

  // ----- Each service's view -----

  function WorkFor(pc: Pc, svc: Service): Work {
    match pc
    case Idle => Quiet
    case Changed(x) => Pending(x)
    case Checking(x, _) => Pending(x)
    case AwaitLock(x, _, at) => if at == svc || at == SensorSvc then Pending(x) else Quiet
    case Locked(x, _, at) => if at == svc || at == SensorSvc then Pending(x) else Quiet
    case Walking(at, root, todo) =>
      if at == svc then Visiting(root, todo)
      else if at == SensorSvc && root != [] then Pending(root) else Quiet
    case Calling(at, root, x, todo) =>
      if at == svc then Sending(root, x, todo)
      else if at == SensorSvc && root != [] then Pending(root) else Quiet
    case Unlocking(x, _, at) => if at != svc && at == SensorSvc && x != [] then Pending(x) else Quiet
  }

  function ViewOf(s: State, svc: Service): View {
    View(s.avail, RemoteOf(s, svc).up, RemoteOf(s, svc).tree, WorkFor(s.sweep, svc), WorkFor(s.dbus, svc))
  }

  predicate Holds(pc: Pc, svc: Service) {
    (pc.Locked? || pc.Walking? || pc.Calling? || pc.Unlocking?) && pc.svc == svc
  }

  /** Locks are held by the thread whose counter is inside them; a handler works
      on a FRU its thread owns and remembers that FRU's flag correctly. */
  ghost predicate PcInv(c: Config, s: State, t: Thread) {
    var pc := PcOf(s, t);
    && (Holds(pc, SensorSvc) <==> s.sensor.lock == Some(t))
    && (Holds(pc, FruSvc) <==> s.fru.lock == Some(t))
    && (pc.Changed? || pc.Checking? || pc.AwaitLock? || pc.Locked? ==> pc.fru in c.frus && Owner(c, pc.fru) == t)
    && (pc.Checking? ==> Above(pc.at, pc.fru) && pc.at != [])
    && (pc.AwaitLock? || pc.Locked? ==> pc.available == (pc.fru in s.avail))
    && ((pc.Walking? || pc.Calling?) && pc.root != [] ==>
          pc.root in c.frus && Owner(c, pc.root) == t && pc.root in s.avail)
    && (pc.Unlocking? && pc.fru != [] ==>
          pc.fru in c.frus && Owner(c, pc.fru) == t && pc.available == (pc.fru in s.avail))
  }

  ghost predicate LockInv(c: Config, s: State) {
    Closed(c.frus) && forall t :: PcInv(c, s, t)
  }

  lemma ApplyKeepsLocks(c: Config, s: State, t: Thread, a: Action)
    requires LockInv(c, s) && Enabled(c, s, t, a)
    ensures LockInv(c, Apply(c, s, t, a))
  {
    var s' := Apply(c, s, t, a);
    ApplyKeepsActor(c, s, t, a);
    ApplyKeepsOther(c, s, t, a);
    forall u ensures PcInv(c, s', u) {
      assert u == t || u == Other(t);
    }
  }

  lemma ApplyKeepsActor(c: Config, s: State, t: Thread, a: Action)
    requires LockInv(c, s) && Enabled(c, s, t, a)
    ensures PcInv(c, Apply(c, s, t, a), t)
  {
    if a.SetFlag? || a.ReadParent? || a.StartHandler? || a.TakeLock? {
      HandlerStartKeepsActor(c, s, t, a);
    } else {
      assert PcInv(c, s, t);
    }
  }

  lemma HandlerStartKeepsActor(c: Config, s: State, t: Thread, a: Action)
    requires LockInv(c, s) && Enabled(c, s, t, a)
    requires a.SetFlag? || a.ReadParent? || a.StartHandler? || a.TakeLock?
    ensures PcInv(c, Apply(c, s, t, a), t)
  {
    assert PcInv(c, s, t);
    if a.ReadParent? {
      var pc := PcOf(s, t);
      var at := if pc.Changed? then pc.fru else pc.at;
      AboveParent(Parent(at), at);
      AboveTransitive(Parent(at), at, pc.fru);
    }
  }

  lemma ApplyKeepsOther(c: Config, s: State, t: Thread, a: Action)
    requires LockInv(c, s) && Enabled(c, s, t, a)
    ensures PcInv(c, Apply(c, s, t, a), Other(t))
  {
    assert PcInv(c, s, t) && PcInv(c, s, Other(t));
  }

  /** The MirrorProtocol step that one service sees in an action. */
  ghost function StepFor(s: State, t: Thread, a: Action, svc: Service): Step {
    var pc := PcOf(s, t);
    match a
    case SetFlag(x, value) => if value != (x in s.avail) then WriteFlagStep(t, x) else StutterStep
    case ReadParent =>
      var at := if pc.Changed? then pc.fru else if pc.Checking? then pc.at else [];
      if Parent(at) != [] && Parent(at) !in s.avail && (pc.Changed? || pc.Checking?)
      then GiveUpStep(t, pc.fru, Parent(at)) else StutterStep
    case FirstCall(sent) => if pc.Locked? && pc.svc == svc then HandleStep(t, pc.fru, sent) else StutterStep
    case ReadFlag(x) => if pc.Walking? && pc.svc == svc then VisitStep(t, x) else StutterStep
    case Call(sent) => if pc.Calling? && pc.svc == svc then SendStep(t, sent) else StutterStep
    case EndPush => if pc.Walking? && pc.svc == svc then FinishStep(t) else StutterStep
    case Appear(at) => if at == svc then UpStep else StutterStep
    case Vanish(at, _) => if at == svc then DownStep else StutterStep
    case RemoteDrifts(at, _) => if at == svc then DownStep else StutterStep
    case _ => StutterStep
  }

  lemma ActionIsStep(c: Config, s: State, t: Thread, a: Action, svc: Service)
    requires LockInv(c, s) && SafeInv(c, ViewOf(s, svc)) && Enabled(c, s, t, a)
    ensures Next(c, ViewOf(s, svc), ViewOf(Apply(c, s, t, a), svc), StepFor(s, t, a, svc))
    ensures LosesNothing(a) ==> Lossless(StepFor(s, t, a, svc))
  {
    if a.SetFlag? || a.ReadParent? || a.StartHandler? || a.TakeLock? {
      LocalActionIsStep(c, s, t, a, svc);
    } else if a.FirstCall? {
      FirstCallIsStep(c, s, t, a, svc);
    } else if a.ReadFlag? || a.Call? {
      PushActionIsStep(c, s, t, a, svc);
    } else {
      LockActionIsStep(c, s, t, a, svc);
    }
  }

  lemma LocalActionIsStep(c: Config, s: State, t: Thread, a: Action, svc: Service)
    requires LockInv(c, s) && SafeInv(c, ViewOf(s, svc)) && Enabled(c, s, t, a)
    requires a.SetFlag? || a.ReadParent? || a.StartHandler? || a.TakeLock?
    ensures Next(c, ViewOf(s, svc), ViewOf(Apply(c, s, t, a), svc), StepFor(s, t, a, svc))
  {
    assert PcInv(c, s, t);
    var pc := PcOf(s, t);
    if a.SetFlag? && a.value == (a.x in s.avail) {
      assert Apply(c, s, t, a).avail == s.avail;
    } else if a.ReadParent? {
      var at := if pc.Changed? then pc.fru else pc.at;
      AboveParent(Parent(at), at);
      AboveTransitive(Parent(at), at, pc.fru);
    }
  }

  lemma FirstCallIsStep(c: Config, s: State, t: Thread, a: Action, svc: Service)
    requires LockInv(c, s) && Enabled(c, s, t, a) && a.FirstCall?
    ensures Next(c, ViewOf(s, svc), ViewOf(Apply(c, s, t, a), svc), StepFor(s, t, a, svc))
  {
    assert PcInv(c, s, t) && PcInv(c, s, Other(t));
  }

  lemma PushActionIsStep(c: Config, s: State, t: Thread, a: Action, svc: Service)
    requires LockInv(c, s) && SafeInv(c, ViewOf(s, svc)) && Enabled(c, s, t, a)
    requires a.ReadFlag? || a.Call?
    ensures Next(c, ViewOf(s, svc), ViewOf(Apply(c, s, t, a), svc), StepFor(s, t, a, svc))
    ensures LosesNothing(a) ==> Lossless(StepFor(s, t, a, svc))
  {
    assert PcInv(c, s, t) && PcInv(c, s, Other(t));
    assert WorkInv(c, ViewOf(s, svc), t);
  }

  lemma LockActionIsStep(c: Config, s: State, t: Thread, a: Action, svc: Service)
    requires LockInv(c, s) && SafeInv(c, ViewOf(s, svc)) && Enabled(c, s, t, a)
    requires a.EndPush? || a.ReleaseLock? || a.Appear? || a.Vanish? || a.RemoteDrifts?
    ensures Next(c, ViewOf(s, svc), ViewOf(Apply(c, s, t, a), svc), StepFor(s, t, a, svc))
  {
    assert PcInv(c, s, t) && PcInv(c, s, Other(t));
  }

  // ----- Whole runs -----

  ghost predicate Init(c: Config, s: State) {
    && Closed(c.frus)
    && s.sweep == Idle && s.dbus == Idle
    && !s.sensor.up && !s.fru.up && s.sensor.lock == None && s.fru.lock == None
  }

  ghost predicate Inv(c: Config, s: State, lossless: bool) {
    LockInv(c, s) && forall svc ::
      SafeInv(c, ViewOf(s, svc)) && (lossless ==> MirrorProtocol.Inv(c, ViewOf(s, svc)))
  }

  datatype Event = Event(t: Thread, a: Action)

  /** The state after the events, provided each one was enabled when it came. */
  ghost predicate Reaches(c: Config, s: State, events: seq<Event>, s': State)
    decreases |events|
  {
    if events == [] then s' == s
    else
      var e := events[0];
      Enabled(c, s, e.t, e.a) && Reaches(c, Apply(c, s, e.t, e.a), events[1..], s')
  }

  ghost predicate NoneLost(events: seq<Event>) {
    forall e :: e in events ==> LosesNothing(e.a)
  }

  lemma ApplyKeepsInv(c: Config, s: State, t: Thread, a: Action, lossless: bool)
    requires Inv(c, s, lossless) && Enabled(c, s, t, a) && (lossless ==> LosesNothing(a))
    ensures Inv(c, Apply(c, s, t, a), lossless)
  {
    var s' := Apply(c, s, t, a);
    ApplyKeepsLocks(c, s, t, a);
    forall svc
      ensures SafeInv(c, ViewOf(s', svc)) && (lossless ==> MirrorProtocol.Inv(c, ViewOf(s', svc)))
    {
      ActionIsStep(c, s, t, a, svc);
      NextKeeps(c, ViewOf(s, svc), ViewOf(s', svc), StepFor(s, t, a, svc));
    }
  }

  lemma {:induction false} RunKeepsInv(c: Config, s: State, events: seq<Event>, s': State, lossless: bool)
    requires Inv(c, s, lossless) && Reaches(c, s, events, s') && (lossless ==> NoneLost(events))
    ensures Inv(c, s', lossless)
    decreases |events|
  {
    if events == [] {
    } else {
      var e := events[0];
      ApplyKeepsInv(c, s, e.t, e.a, lossless);
      RunKeepsInv(c, Apply(c, s, e.t, e.a), events[1..], s', lossless);
    }
  }

  /** In every interleaving in which calls get through: wherever a remote tree
      disagrees with the effective set, some thread's handler for that FRU or a
      FRU above it has not finished with that service.  What is there too much lies
      under a FRU whose removal is due; what is missing lies under one whose add is
      due, or under one that a running push has still to reach. */
  lemma MirrorFollowsFlags(c: Config, s: State, events: seq<Event>, s': State, svc: Service, x: Path)
    requires Init(c, s) && Reaches(c, s, events, s') && NoneLost(events)
    requires RemoteOf(s', svc).up && x in c.frus
    requires (x in RemoteOf(s', svc).tree) != Effective(s'.avail, x)
    ensures x in RemoteOf(s', svc).tree ==> exists t :: RemovalDue(ViewOf(s', svc), t, x)
    ensures x !in RemoteOf(s', svc).tree ==> exists t :: AddDue(ViewOf(s', svc), t, x)
    ensures exists t, q :: HandlerPending(ViewOf(s', svc), t, q) && Above(q, x)
  {
    RunKeepsInv(c, s, events, s', true);
    DisagreementIsPending(c, ViewOf(s', svc), x);
  }

  /** So when both threads are at rest the mirror is exact. */
  lemma MirrorIsExactAtRest(c: Config, s: State, events: seq<Event>, s': State, svc: Service)
    requires Init(c, s) && Reaches(c, s, events, s') && NoneLost(events)
    requires RemoteOf(s', svc).up && s'.sweep == Idle && s'.dbus == Idle
    ensures RemoteOf(s', svc).tree == EffectiveSet(c.frus, s'.avail)
  {
    RunKeepsInv(c, s, events, s', true);
    var v := ViewOf(s', svc);
    forall x ensures x in v.remote <==> x in EffectiveSet(c.frus, s'.avail) {
      if x in c.frus && (x in v.remote) != Effective(v.avail, x) {
        DisagreementIsPending(c, v, x);
      }
    }
  }

  /** Even when add calls get lost, the remote tree never holds an orphan or a
      stranger, and holds an unavailable FRU only while its removal is due. */
  lemma MirrorIsSafe(c: Config, s: State, events: seq<Event>, s': State, svc: Service)
    requires Init(c, s) && Reaches(c, s, events, s') && RemoteOf(s', svc).up
    ensures Closed(RemoteOf(s', svc).tree) && RemoteOf(s', svc).tree <= c.frus
    ensures forall x :: x in RemoteOf(s', svc).tree && !Effective(s'.avail, x) ==>
              exists t, q :: HandlerPending(ViewOf(s', svc), t, q) && Above(q, x) && q !in s'.avail
  {
    RunKeepsInv(c, s, events, s', false);
    var v := ViewOf(s', svc);
    forall x | x in v.remote && !Effective(v.avail, x)
      ensures exists t, q :: HandlerPending(v, t, q) && Above(q, x) && q !in v.avail
    {
      ExcessIsPending(c, v, x);
    }
  }

  /** The thread has a next step of its own. */
  ghost predicate CanMove(c: Config, s: State, t: Thread) {
    exists a: Action :: Enabled(c, s, t, a) && !a.RemoteDrifts?
  }

  lemma BusyMoves(c: Config, s: State, t: Thread)
    requires !PcOf(s, t).Idle? && !PcOf(s, t).AwaitLock?
    ensures CanMove(c, s, t)
  {
    match PcOf(s, t)
    case Changed(_) => assert Enabled(c, s, t, if t == DBus then ReadParent else StartHandler);
    case Checking(_, _) => assert Enabled(c, s, t, ReadParent);
    case Locked(_, _, _) => assert Enabled(c, s, t, FirstCall(true));
    case Walking(_, _, todo) =>
      if todo == {} {
        assert Enabled(c, s, t, EndPush);
      } else {
        var x :| x in todo;
        assert Enabled(c, s, t, ReadFlag(x));
      }
    case Calling(_, _, _, _) => assert Enabled(c, s, t, Call(true));
    case Unlocking(_, _, _) => assert Enabled(c, s, t, ReleaseLock);
  }

  /** The two locks cannot deadlock the two threads: no thread holds both, and one that
      is in a handler can go on, or waits for a lock whose holder can. */
  lemma NeverStuck(c: Config, s: State, events: seq<Event>, s': State, t: Thread)
    requires Init(c, s) && Reaches(c, s, events, s')
    ensures !(s'.sensor.lock == s'.fru.lock == Some(t))
    ensures var pc := PcOf(s', t);
            pc.Idle? || CanMove(c, s', t) ||
            (pc.AwaitLock? && RemoteOf(s', pc.svc).lock == Some(Other(t)) && CanMove(c, s', Other(t)))
  {
    RunKeepsInv(c, s, events, s', false);
    assert PcInv(c, s', t) && PcInv(c, s', Other(t));
    var pc := PcOf(s', t);
    if pc.AwaitLock? {
      if RemoteOf(s', pc.svc).lock == None {
        assert Enabled(c, s', t, TakeLock);
      } else {
        var u := RemoteOf(s', pc.svc).lock.value;
        assert PcInv(c, s', u);
        assert u == Other(t);
        BusyMoves(c, s', u);
      }
    } else if !pc.Idle? {
      BusyMoves(c, s', t);
    }
  }
}
