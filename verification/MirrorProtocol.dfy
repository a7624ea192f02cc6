/**
 One remote service mirroring the platform's FRU tree, as seen by the two
 threads that feed it: the hot-plug sweep, which writes the flags of FRUs with
 an internal detection mechanism, and the D-Bus loop, which writes all others.

 A step is one action another thread can observe: a flag write, an ancestor
 check that gives up, one remote call.  Recursive pushes keep the FRUs still to
 be visited in `todo`; the child maps are unordered, so any of them may be next.
 */
module MirrorProtocol {
  import opened ObjectPaths

  datatype Thread = Sweep | DBus

  /** What a thread still owes this service.
      - Pending: the flag of `fru` was written, nothing was sent yet
      - Visiting: inside the locked recursive push below `root`
      - Sending: as Visiting, `fru` was read as available, its add call is next */
  datatype Work =
    | Quiet
    | Pending(fru: Path)
    | Visiting(root: Path, todo: set<Path>)
    | Sending(root: Path, fru: Path, todo: set<Path>)

  datatype Config = Config(frus: set<Path>, internals: set<Path>)

  datatype View = View(avail: set<Path>, up: bool, remote: set<Path>, sweep: Work, dbus: Work)

  function Other(t: Thread): Thread {
    if t == Sweep then DBus else Sweep
  }

  function Owner(c: Config, x: Path): Thread {
    if x in c.internals then Sweep else DBus
  }

  function WorkOf(v: View, t: Thread): Work {
    if t == Sweep then v.sweep else v.dbus
  }

  function SetWork(v: View, t: Thread, w: Work): View {
    if t == Sweep then v.(sweep := w) else v.(dbus := w)
  }

  predicate Pushing(w: Work) {
    w.Visiting? || w.Sending?
  }

  /** The remote side of an add: refused when the parent object is missing or
      the name is taken. */
  predicate Accepts(remote: set<Path>, x: Path) {
    x != [] && (Parent(x) == [] || Parent(x) in remote) && x !in remote
  }

  function AddRemote(remote: set<Path>, x: Path): set<Path> {
    if Accepts(remote, x) then remote + {x} else remote
  }

  function RemoveRemote(remote: set<Path>, x: Path): set<Path> {
    remote - Subtree(remote, x)
  }

  // ----- Steps -----

  /** A changed flag of a FRU the thread owns; the handler is now due. */
  ghost predicate WriteFlag(c: Config, v: View, v': View, t: Thread, x: Path) {
    && WorkOf(v, t) == Quiet && x in c.frus && Owner(c, x) == t
    && v' == SetWork(v.(avail := if x in v.avail then v.avail - {x} else v.avail + {x}), t, Pending(x))
  }

  /** A FRU strictly above was read as unavailable, so the change is not pushed. */
  ghost predicate GiveUp(v: View, v': View, t: Thread, x: Path, a: Path) {
    && WorkOf(v, t) == Pending(x) && a != [] && a != x && Above(a, x) && a !in v.avail
    && v' == SetWork(v, t, Quiet)
  }

  /** The first call of the handler, made under the lock.  `sent` is false when
      an add call fails in transport. */
  ghost predicate Handle(c: Config, v: View, v': View, t: Thread, x: Path, sent: bool) {
    && WorkOf(v, t) == Pending(x) && !Pushing(WorkOf(v, Other(t)))
    && v' ==
       if !v.up then SetWork(v, t, Quiet)
       else if x !in v.avail then SetWork(v.(remote := RemoveRemote(v.remote, x)), t, Quiet)
       else if sent && Accepts(v.remote, x) then
         SetWork(v.(remote := AddRemote(v.remote, x)), t, Visiting(x, Children(c.frus, x)))
       else SetWork(v, t, Quiet)
  }

  /** Reads the flag of one FRU that is still to be pushed. */
  ghost predicate Visit(v: View, v': View, t: Thread, x: Path) {
    && WorkOf(v, t).Visiting? && x in WorkOf(v, t).todo
    && var w := WorkOf(v, t);
    && v' == SetWork(v, t, if x in v.avail then Sending(w.root, x, w.todo - {x}) else Visiting(w.root, w.todo - {x}))
  }

  /** Sends the add for the FRU that was read as available. */
  ghost predicate Send(c: Config, v: View, v': View, t: Thread, sent: bool) {
    && WorkOf(v, t).Sending?
    && var w := WorkOf(v, t);
    && v' ==
       if sent && Accepts(v.remote, w.fru) then
         SetWork(v.(remote := AddRemote(v.remote, w.fru)), t, Visiting(w.root, w.todo + Children(c.frus, w.fru)))
       else SetWork(v, t, Visiting(w.root, w.todo))
  }

  ghost predicate Finish(v: View, v': View, t: Thread) {
    && WorkOf(v, t).Visiting? && WorkOf(v, t).todo == {}
    && v' == SetWork(v, t, Quiet)
  }

  /** The service's bus name appeared: reset the remote tree, push everything. */
  ghost predicate ServiceUp(c: Config, v: View, v': View) {
    && !v.up && v.dbus == Quiet && !Pushing(v.sweep)
    && v' == v.(up := true, remote := {}, dbus := Visiting([], Children(c.frus, [])))
  }

  /** The bus name vanished; while it is away the remote tree is unknown. */
  ghost predicate ServiceDown(v: View, v': View) {
    && !Pushing(v.dbus) && !Pushing(v.sweep)
    && v' == v.(up := false, remote := v'.remote)
  }

  datatype Step =
    | WriteFlagStep(t: Thread, x: Path)
    | GiveUpStep(t: Thread, x: Path, a: Path)
    | HandleStep(t: Thread, x: Path, sent: bool)
    | VisitStep(t: Thread, x: Path)
    | SendStep(t: Thread, sent: bool)
    | FinishStep(t: Thread)
    | UpStep
    | DownStep
    | StutterStep

  ghost predicate Next(c: Config, v: View, v': View, step: Step) {
    match step
    case WriteFlagStep(t, x) => WriteFlag(c, v, v', t, x)
    case GiveUpStep(t, x, a) => GiveUp(v, v', t, x, a)
    case HandleStep(t, x, sent) => Handle(c, v, v', t, x, sent)
    case VisitStep(t, x) => Visit(v, v', t, x)
    case SendStep(t, sent) => Send(c, v, v', t, sent)
    case FinishStep(t) => Finish(v, v', t)
    case UpStep => ServiceUp(c, v, v')
    case DownStep => ServiceDown(v, v')
    case StutterStep => v' == v
  }

  /** No add call is lost in this step. */
  predicate Lossless(step: Step) {
    (step.HandleStep? ==> step.sent) && (step.SendStep? ==> step.sent)
  }

  // ----- Invariant -----

  function Frontier(w: Work): set<Path> {
    match w
    case Visiting(_, todo) => todo
    case Sending(_, x, todo) => todo + {x}
    case _ => {}
  }

  /** A due removal at or above `x`. */
  ghost predicate RemovalDue(v: View, t: Thread, x: Path) {
    var w := WorkOf(v, t);
    w.Pending? && Above(w.fru, x) && w.fru in v.remote && w.fru !in v.avail
  }

  /** A due add at or above `x`, or a push that has not reached `x` yet. */
  ghost predicate AddDue(v: View, t: Thread, x: Path) {
    var w := WorkOf(v, t);
    || (w.Pending? && Above(w.fru, x) && w.fru !in v.remote && w.fru in v.avail)
    || (exists f :: f in Frontier(w) && Above(f, x))
  }

  /** Whatever the mirror holds too much is about to be removed. */
  ghost predicate ExcessDue(c: Config, v: View) {
    forall x :: x in v.remote && !Effective(v.avail, x) ==> exists t :: RemovalDue(v, t, x)
  }

  /** Whatever the mirror lacks is about to be added. */
  ghost predicate MissingDue(c: Config, v: View) {
    forall x :: x in c.frus && Effective(v.avail, x) && x !in v.remote ==> exists t :: AddDue(v, t, x)
  }

  ghost predicate WorkInv(c: Config, v: View, t: Thread) {
    var w := WorkOf(v, t);
    && (w.Pending? ==> w.fru in c.frus && Owner(c, w.fru) == t)
    && (Pushing(w) ==>
          && v.up && !Pushing(WorkOf(v, Other(t)))
          && forall f :: f in Frontier(w) ==>
             f in c.frus && f !in v.remote && Above(w.root, f) && (Parent(f) == [] || Parent(f) in v.remote))
    && (w.Sending? ==> w.fru !in w.todo)
    // A flag that changed between being read and being sent is its owner's debt.
    && (w.Sending? && w.fru !in v.avail && Effective(v.avail, Parent(w.fru)) ==>
          WorkOf(v, Other(t)) == Pending(w.fru))
  }

  /** Holds even when add calls get lost. */
  ghost predicate SafeInv(c: Config, v: View) {
    && Closed(c.frus)
    && (forall t :: WorkInv(c, v, t))
    && (v.up ==> Closed(v.remote) && v.remote <= c.frus && ExcessDue(c, v))
  }

  /** Holds as long as no add call is lost. */
  ghost predicate Inv(c: Config, v: View) {
    SafeInv(c, v) && (v.up ==> MissingDue(c, v))
  }

  // ----- What the invariant means for an observer -----

  /** The thread has a handler for `q` that is not finished with this service. */
  ghost predicate HandlerPending(v: View, t: Thread, q: Path) {
    var w := WorkOf(v, t);
    match w
    case Quiet => false
    case Pending(x) => x == q
    case Visiting(root, _) => root == q
    case Sending(root, _, _) => root == q
  }

  /** Every disagreement is some pending handler's to settle, in the right direction:
      what is there too much lies under a removal that is due, what is missing under
      an add that is due or a FRU that a running push has still to reach. */
  lemma DisagreementIsPending(c: Config, v: View, x: Path)
    requires Inv(c, v) && v.up && x in c.frus
    requires (x in v.remote) != Effective(v.avail, x)
    ensures x in v.remote ==> exists t :: RemovalDue(v, t, x)
    ensures x !in v.remote ==> exists t :: AddDue(v, t, x)
    ensures exists t, q :: HandlerPending(v, t, q) && Above(q, x)
  {
    if x in v.remote {
      var t :| RemovalDue(v, t, x);
      assert HandlerPending(v, t, WorkOf(v, t).fru);
    } else {
      var t :| AddDue(v, t, x);
      var w := WorkOf(v, t);
      assert WorkInv(c, v, t);
      if w.Pending? {
        assert HandlerPending(v, t, w.fru);
      } else {
        var f :| f in Frontier(w) && Above(f, x);
        AboveTransitive(w.root, f, x);
        assert HandlerPending(v, t, w.root);
      }
    }
  }

  /** Without a pending removal the mirror holds only effective FRUs, even if adds were lost. */
  lemma ExcessIsPending(c: Config, v: View, x: Path)
    requires SafeInv(c, v) && v.up && x in v.remote && !Effective(v.avail, x)
    ensures exists t, q :: HandlerPending(v, t, q) && Above(q, x) && q !in v.avail
  {
    var t :| RemovalDue(v, t, x);
    assert HandlerPending(v, t, WorkOf(v, t).fru);
  }

  // ----- Preservation -----

  /** Every step keeps the invariant; a lost add call costs only MissingDue. */
  lemma NextKeeps(c: Config, v: View, v': View, step: Step)
    requires SafeInv(c, v) && Next(c, v, v', step)
    ensures SafeInv(c, v')
    ensures Inv(c, v) && Lossless(step) ==> Inv(c, v')
  {
    match step
    case WriteFlagStep(t, x) => WriteFlagKeeps(c, v, v', t, x);
    case GiveUpStep(t, x, a) => GiveUpKeeps(c, v, v', t, x, a);
    case HandleStep(t, x, sent) => HandleKeeps(c, v, v', t, x, sent);
    case VisitStep(t, x) => VisitKeeps(c, v, v', t, x);
    case SendStep(t, sent) => SendKeeps(c, v, v', t, sent);
    case FinishStep(t) => FinishKeeps(c, v, v', t);
    case UpStep => ServiceUpKeeps(c, v, v');
    case DownStep => assert WorkInv(c, v, Sweep) && WorkInv(c, v, DBus);
    case StutterStep =>
  }

  // Its cases.

  /** A member of the remote tree below an unavailable FRU has its removal due,
      and the removal covers everything below that FRU too. */
  lemma BlockedIsDue(c: Config, v: View, a: Path, x: Path)
    requires SafeInv(c, v) && v.up && x in v.remote
    requires a != [] && Above(a, x) && a !in v.avail
    ensures exists t :: RemovalDue(v, t, a) && RemovalDue(v, t, x)
  {
    ClosedAbove(v.remote, a, x);
    assert Above(a, a) && !Effective(v.avail, a);
    var t :| RemovalDue(v, t, a);
    AboveTransitive(WorkOf(v, t).fru, a, x);
  }

  lemma WriteFlagKeeps(c: Config, v: View, v': View, t: Thread, p: Path)
    requires SafeInv(c, v) && WriteFlag(c, v, v', t, p)
    ensures SafeInv(c, v')
    ensures Inv(c, v) ==> Inv(c, v')
  {
    if v.up {
      forall x | x in v.remote && !Effective(v'.avail, x) ensures exists u :: RemovalDue(v', u, x) {
        var a :| a != [] && Above(a, x) && a !in v'.avail;
        if a !in v.avail {
          BlockedIsDue(c, v, a, x);
          var u :| RemovalDue(v, u, a) && RemovalDue(v, u, x);
          assert WorkInv(c, v, u);
          assert RemovalDue(v', u, x);
        } else {
          ClosedAbove(v.remote, p, x);
          assert RemovalDue(v', t, x);
        }
      }
      if Inv(c, v) {
        forall x | x in c.frus && Effective(v'.avail, x) && x !in v.remote ensures exists u :: AddDue(v', u, x) {
          if Effective(v.avail, x) {
            var u :| AddDue(v, u, x);
            assert AddDue(v', u, x);
          } else {
            var a :| a != [] && Above(a, x) && a !in v.avail;
            assert a == p;
            if p in v.remote {
              assert Above(p, p);
              BlockedIsDue(c, v, p, p);
              var u :| RemovalDue(v, u, p);
              assert WorkInv(c, v, u);
              AboveTransitive(WorkOf(v, u).fru, p, x);
              assert false;
            }
            assert AddDue(v', t, x);
          }
        }
      }
    }
    forall u ensures WorkInv(c, v', u) {
      var w := WorkOf(v, u);
      assert WorkInv(c, v, u);
      if u != t && w.Sending? && Parent(w.fru) != [] {
        // Only a thread that owes a removal could have left an unavailable parent in the mirror.
        assert Effective(v.avail, Parent(w.fru));
      }
    }
  }

  lemma GiveUpKeeps(c: Config, v: View, v': View, t: Thread, p: Path, a: Path)
    requires SafeInv(c, v) && GiveUp(v, v', t, p, a)
    ensures SafeInv(c, v')
    ensures Inv(c, v) ==> Inv(c, v')
  {
    if v.up {
      forall x | x in v.remote && !Effective(v'.avail, x) ensures exists u :: RemovalDue(v', u, x) {
        var u :| RemovalDue(v, u, x);
        if u == t {
          BlockedIsDue(c, v, a, p);
          var o :| RemovalDue(v, o, a) && RemovalDue(v, o, p);
          if o == t {
            AboveAntisymmetric(a, p);
          }
          AboveTransitive(WorkOf(v, o).fru, p, x);
          assert RemovalDue(v', o, x);
        } else {
          assert RemovalDue(v', u, x);
        }
      }
      if Inv(c, v) {
        forall x | x in c.frus && Effective(v'.avail, x) && x !in v.remote ensures exists u :: AddDue(v', u, x) {
          var u :| AddDue(v, u, x);
          if u == t {
            AboveTransitive(a, p, x);
            assert false;
          }
          assert AddDue(v', u, x);
        }
      }
    }
    forall u ensures WorkInv(c, v', u) {
      var w := WorkOf(v, u);
      assert WorkInv(c, v, u);
      if u != t && w.Sending? && w.fru == p {
        AboveParent(a, p);
      }
    }
  }

  lemma HandleKeeps(c: Config, v: View, v': View, t: Thread, p: Path, sent: bool)
    requires SafeInv(c, v) && Handle(c, v, v', t, p, sent)
    ensures SafeInv(c, v')
    ensures Inv(c, v) && sent ==> Inv(c, v')
  {
    assert WorkInv(c, v, t) && WorkInv(c, v, Other(t));
    if v.up && p !in v.avail {
      RemoveKeeps(c, v, v', t, p);
    } else if v.up && sent && Accepts(v.remote, p) {
      FirstAddKeeps(c, v, v', t, p);
    } else if v.up {
      RefusedAddKeeps(c, v, v', t, p, sent);
    }
  }

  lemma RemoveKeeps(c: Config, v: View, v': View, t: Thread, p: Path)
    requires SafeInv(c, v) && Handle(c, v, v', t, p, true) && v.up && p !in v.avail
    ensures SafeInv(c, v')
    ensures Inv(c, v) ==> Inv(c, v')
  {
    assert WorkInv(c, v, t) && WorkInv(c, v, Other(t));
    forall x | x in v'.remote ensures Parent(x) == [] || Parent(x) in v'.remote {
      if Parent(x) in v.remote && Parent(x) !in v'.remote {
        AboveParent(p, x);
      }
    }
    forall x | x in v'.remote && !Effective(v'.avail, x) ensures exists u :: RemovalDue(v', u, x) {
      var u :| RemovalDue(v, u, x);
      var q := WorkOf(v, u).fru;
      if Above(p, q) {
        AboveTransitive(p, q, x);
      }
      assert RemovalDue(v', u, x);
    }
    if Inv(c, v) {
      forall x | x in c.frus && Effective(v'.avail, x) && x !in v'.remote ensures exists u :: AddDue(v', u, x) {
        assert !Above(p, x);
        var u :| AddDue(v, u, x);
        assert AddDue(v', u, x);
      }
    }
  }

  lemma FirstAddKeeps(c: Config, v: View, v': View, t: Thread, p: Path)
    requires SafeInv(c, v) && Handle(c, v, v', t, p, true) && v.up && p in v.avail && Accepts(v.remote, p)
    ensures SafeInv(c, v')
    ensures Inv(c, v) ==> Inv(c, v')
  {
    assert WorkInv(c, v, t) && WorkInv(c, v, Other(t));
    AddedKeepsExcess(c, v, v', t, p);
    ChildrenAreNew(c, v, p);
    forall f | f in Children(c.frus, p) ensures Above(p, f) {
      AboveParent(p, f);
    }
    if Inv(c, v) {
      AddedKeepsMissing(c, v, v', t, p);
    }
  }

  lemma RefusedAddKeeps(c: Config, v: View, v': View, t: Thread, p: Path, sent: bool)
    requires SafeInv(c, v) && Handle(c, v, v', t, p, sent) && v.up && p in v.avail
    requires !sent || !Accepts(v.remote, p)
    ensures SafeInv(c, v')
    ensures Inv(c, v) && sent ==> Inv(c, v')
  {
    assert WorkInv(c, v, t) && WorkInv(c, v, Other(t));
    forall x | x in v'.remote && !Effective(v'.avail, x) ensures exists u :: RemovalDue(v', u, x) {
      var u :| RemovalDue(v, u, x);
      assert RemovalDue(v', u, x);
    }
    if Inv(c, v) && sent {
      forall x | x in c.frus && Effective(v'.avail, x) && x !in v'.remote ensures exists u :: AddDue(v', u, x) {
        var u :| AddDue(v, u, x);
        if u == t {
          // The refusal means the parent is missing too, and that is the other thread's debt.
          var q := Parent(p);
          AboveParent(q, p);
          AboveTransitive(q, p, x);
          EffectiveAbove(v.avail, q, x);
          var o :| AddDue(v, o, q);
          assert o == Other(t);
          AddDueBelow(v, o, q, x);
          assert AddDue(v', o, x);
        } else {
          assert AddDue(v', u, x);
        }
      }
    }
  }

  lemma AddDueBelow(v: View, t: Thread, x: Path, y: Path)
    requires AddDue(v, t, x) && Above(x, y)
    ensures AddDue(v, t, y)
  {
  }

  lemma ChildrenAreNew(c: Config, v: View, x: Path)
    requires Closed(v.remote) && x != [] && x !in v.remote
    ensures Children(c.frus, x) !! v.remote && x !in Children(c.frus, x)
  {
  }

  /** One accepted add, the first of a handler or a later one of its push. */
  ghost predicate Added(c: Config, v: View, v': View, t: Thread, x: Path) {
    && SafeInv(c, v) && v.up && x in c.frus && Accepts(v.remote, x)
    && (WorkOf(v, t) == Pending(x) || (WorkOf(v, t).Sending? && WorkOf(v, t).fru == x))
    && !Pushing(WorkOf(v, Other(t)))
    && WorkOf(v', t).Visiting? && Frontier(WorkOf(v', t)) == Frontier(WorkOf(v, t)) - {x} + Children(c.frus, x)
    && WorkOf(v', Other(t)) == WorkOf(v, Other(t))
    && v'.avail == v.avail && v'.up == v.up && v'.remote == v.remote + {x}
  }

  lemma AddedKeepsExcess(c: Config, v: View, v': View, t: Thread, x: Path)
    requires Added(c, v, v', t, x)
    requires WorkOf(v, t).Pending? ==> x in v.avail
    ensures Closed(v'.remote) && v'.remote <= c.frus && ExcessDue(c, v')
  {
    assert WorkInv(c, v, t);
    forall y | y in v'.remote && !Effective(v'.avail, y) ensures exists u :: RemovalDue(v', u, y) {
      if y != x {
        var u :| RemovalDue(v, u, y);
        assert RemovalDue(v', u, y);
      } else if Effective(v.avail, Parent(x)) {
        EffectiveStep(v.avail, x);
        assert RemovalDue(v', Other(t), x);
      } else {
        var a :| a != [] && Above(a, Parent(x)) && a !in v.avail;
        BlockedIsDue(c, v, a, Parent(x));
        var u :| RemovalDue(v, u, a) && RemovalDue(v, u, Parent(x));
        AboveParent(WorkOf(v, u).fru, x);
        assert RemovalDue(v', u, x);
      }
    }
  }

  lemma AddedKeepsMissing(c: Config, v: View, v': View, t: Thread, x: Path)
    requires Added(c, v, v', t, x) && MissingDue(c, v)
    ensures MissingDue(c, v')
  {
    forall y | y in c.frus && Effective(v'.avail, y) && y !in v'.remote ensures exists u :: AddDue(v', u, y) {
      if Above(x, y) {
        var f := ChildToward(c.frus, x, y);
        assert f in Frontier(WorkOf(v', t));
        assert AddDue(v', t, y);
      } else {
        var u :| AddDue(v, u, y);
        assert AddDue(v', u, y);
      }
    }
  }

  lemma VisitKeeps(c: Config, v: View, v': View, t: Thread, p: Path)
    requires SafeInv(c, v) && Visit(v, v', t, p)
    ensures SafeInv(c, v')
    ensures Inv(c, v) ==> Inv(c, v')
  {
    assert WorkInv(c, v, t) && WorkInv(c, v, Other(t));
    assert Frontier(WorkOf(v', t)) == if p in v.avail then Frontier(WorkOf(v, t)) else Frontier(WorkOf(v, t)) - {p};
    forall x | x in v'.remote && !Effective(v'.avail, x) ensures exists u :: RemovalDue(v', u, x) {
      var u :| RemovalDue(v, u, x);
      assert RemovalDue(v', u, x);
    }
    if Inv(c, v) {
      forall x | x in c.frus && Effective(v'.avail, x) && x !in v'.remote ensures exists u :: AddDue(v', u, x) {
        var u :| AddDue(v, u, x);
        assert AddDue(v', u, x);
      }
    }
  }

  lemma SendKeeps(c: Config, v: View, v': View, t: Thread, sent: bool)
    requires SafeInv(c, v) && Send(c, v, v', t, sent)
    ensures SafeInv(c, v')
    ensures Inv(c, v) && sent ==> Inv(c, v')
  {
    assert WorkInv(c, v, t);
    if sent {
      DeliveredKeeps(c, v, v', t);
    } else {
      LostKeeps(c, v, v', t);
    }
  }

  lemma DeliveredKeeps(c: Config, v: View, v': View, t: Thread)
    requires SafeInv(c, v) && Send(c, v, v', t, true)
    ensures SafeInv(c, v')
    ensures Inv(c, v) ==> Inv(c, v')
  {
    assert WorkInv(c, v, t) && WorkInv(c, v, Other(t));
    var x := WorkOf(v, t).fru;
    assert Frontier(WorkOf(v, t)) - {x} == WorkOf(v, t).todo;
    assert Accepts(v.remote, x);
    AddedKeepsExcess(c, v, v', t, x);
    DeliveredKeepsWork(c, v, v', t);
    if Inv(c, v) {
      AddedKeepsMissing(c, v, v', t, x);
    }
  }

  lemma DeliveredKeepsWork(c: Config, v: View, v': View, t: Thread)
    requires SafeInv(c, v) && Send(c, v, v', t, true) && Accepts(v.remote, WorkOf(v, t).fru)
    ensures forall u :: WorkInv(c, v', u)
  {
    assert WorkInv(c, v, t) && WorkInv(c, v, Other(t));
    var w := WorkOf(v, t);
    ChildrenAreNew(c, v, w.fru);
    forall f | f in Children(c.frus, w.fru) ensures Above(w.root, f) {
      AboveParent(w.root, f);
    }
    assert WorkInv(c, v', t);
    assert WorkInv(c, v', Other(t));
  }

  lemma LostKeeps(c: Config, v: View, v': View, t: Thread)
    requires SafeInv(c, v) && Send(c, v, v', t, false)
    ensures SafeInv(c, v')
  {
    assert WorkInv(c, v, t) && WorkInv(c, v, Other(t));
    forall x | x in v'.remote && !Effective(v'.avail, x) ensures exists u :: RemovalDue(v', u, x) {
      var u :| RemovalDue(v, u, x);
      assert RemovalDue(v', u, x);
    }
  }

  lemma ServiceUpKeeps(c: Config, v: View, v': View)
    requires SafeInv(c, v) && ServiceUp(c, v, v')
    ensures Inv(c, v')
  {
    assert WorkInv(c, v, Sweep) && WorkInv(c, v, DBus);
    forall x | x in c.frus && Effective(v'.avail, x) && x !in v'.remote ensures exists u :: AddDue(v', u, x) {
      var f := ChildToward(c.frus, [], x);
      assert AddDue(v', DBus, x);
    }
  }

  lemma FinishKeeps(c: Config, v: View, v': View, t: Thread)
    requires SafeInv(c, v) && Finish(v, v', t)
    ensures SafeInv(c, v')
    ensures Inv(c, v) ==> Inv(c, v')
  {
    assert WorkInv(c, v, t) && WorkInv(c, v, Other(t));
    forall x | x in v'.remote && !Effective(v'.avail, x) ensures exists u :: RemovalDue(v', u, x) {
      var u :| RemovalDue(v, u, x);
      assert RemovalDue(v', u, x);
    }
    if Inv(c, v) {
      forall x | x in c.frus && Effective(v'.avail, x) && x !in v'.remote ensures exists u :: AddDue(v', u, x) {
        var u :| AddDue(v, u, x);
        assert AddDue(v', u, x);
      }
    }
  }
}
