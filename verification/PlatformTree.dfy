/**
 PlatformObjectTree run by a single thread: flag changes, the recursive pushes
 they cause, service availability, and the hot-plug sweep.
 */
module PlatformTree {
  import opened ObjectPaths
  import opened MirrorProtocol
  import opened FruServiceTree

  /** `y` is reached from `x` through available FRUs only, both included. */
  ghost predicate AvailableChain(avail: set<Path>, x: Path, y: Path) {
    Above(x, y) && forall a :: Above(x, a) && Above(a, y) && a != [] ==> a in avail
  }

  /** What pushing each of `roots` makes of a service that lacks them all. */
  ghost function PushInto(frus: set<Path>, avail: set<Path>, objects: set<Path>, roots: set<Path>): set<Path> {
    objects + set y | y in frus && exists r :: r in roots && AvailableChain(avail, r, y)
  }

  /** Every FRU strictly between `top` and `x` is available. */
  ghost predicate Reached(avail: set<Path>, top: Path, x: Path) {
    && Above(top, x) && top != x
    && forall a :: Above(top, a) && Above(a, x) && a != top && a != x ==> a in avail
  }

  /** The flags after a sweep below `top`: each internal FRU the sweep reaches
      carries its reading, every other flag is as before. */
  ghost predicate Swept(frus: set<Path>, internals: set<Path>, readings: set<Path>,
                        was: set<Path>, now: set<Path>, top: Path) {
    forall x :: x in now <==>
      if x in frus && x in internals && Reached(now, top, x) then x in readings else x in was
  }

  /** The two flag sets differ exactly on `x`. */
  ghost predicate Toggled(was: set<Path>, now: set<Path>, x: Path) {
    (x in was) != (x in now) && forall y :: y != x ==> (y in was <==> y in now)
  }

  class PlatformObjectTree {
    const frus: set<Path>
    const internals: set<Path>
    const sensor: RemoteService
    const fru: RemoteService
    var avail: set<Path>

    constructor (frus: set<Path>, internals: set<Path>, avail: set<Path>)
      requires Closed(frus)
      ensures this.frus == frus && this.internals == internals && this.avail == avail
      ensures InSync() && fresh(sensor) && fresh(fru)
    {
      this.frus, this.internals, this.avail := frus, internals, avail;
      sensor := new RemoteService();
      fru := new RemoteService();
    }

    ghost predicate Mirrors(svc: RemoteService)
      reads this, svc
    {
      svc.up ==> svc.objects == EffectiveSet(frus, avail)
    }

    ghost predicate InSync()
      reads this, sensor, fru
    {
      Closed(frus) && sensor != fru && Mirrors(sensor) && Mirrors(fru)
    }

    /** All FRUs above `x` are available. */
    function CheckIfParentFruAvailable(x: Path): (ok: bool)
      reads this
      ensures ok <==> Effective(avail, Parent(x))
      decreases |x|
    {
      if Parent(x) == [] then true
      else
        EffectiveStep(avail, Parent(x));
        Parent(x) in avail && CheckIfParentFruAvailable(Parent(x))
    }

    /** addFRUtoFruService and addFRUtoSensorService. */
    method AddToService(svc: RemoteService, x: Path)
      requires Closed(frus) && Closed(svc.objects) && x in frus
      modifies svc`objects, svc`calls
      ensures svc.up && Accepts(old(svc.objects), x) ==> svc.objects == PushInto(frus, avail, old(svc.objects), {x})
      ensures !svc.up || !Accepts(old(svc.objects), x) ==> svc.objects == old(svc.objects)
      ensures Closed(svc.objects)
      decreases Subtree(frus, x) - {x}, 1
    {
      if x in avail && svc.up {
        var r := svc.AddFRU(x);
        if r == Added {
          AddChildrenToService(svc, x);
          PushUnfolds(frus, avail, old(svc.objects), x);
        }
      }
    }

    /** The loop over the child FRUs, for a FRU just added or for the base object. */
    method AddChildrenToService(svc: RemoteService, x: Path)
      requires svc.up && Closed(frus) && Closed(svc.objects)
      requires (x == [] || x in svc.objects) && Children(frus, x) !! svc.objects
      modifies svc`objects, svc`calls
      ensures svc.objects == PushInto(frus, avail, old(svc.objects), Children(frus, x))
      ensures Closed(svc.objects)
      decreases Subtree(frus, x) - {x}, 0
    {
      var rest := Children(frus, x);
      ghost var done := {};
      while rest != {}
        invariant rest !! done && rest + done == Children(frus, x)
        invariant Closed(svc.objects)
        invariant svc.objects == PushInto(frus, avail, old(svc.objects), done)
        decreases rest
      {
        var c :| c in rest;
        ChildAccepted(frus, avail, old(svc.objects), x, c, done);
        LessBelow(frus, x, c);
        AddToService(svc, c);
        rest, done := rest - {c}, done + {c};
      }
    }

    /** Brings both services in line after the flag of `x` was toggled. */
    method ChangeInFruAvailabilityHandler(x: Path, ghost was: set<Path>)
      requires Closed(frus) && sensor != fru && x in frus && Effective(avail, Parent(x))
      requires Toggled(was, avail, x)
      requires sensor.up ==> sensor.objects == EffectiveSet(frus, was)
      requires fru.up ==> fru.objects == EffectiveSet(frus, was)
      modifies sensor`objects, sensor`calls, fru`objects, fru`calls
      ensures InSync()
    {
      PushService(sensor, x, was);
      PushService(fru, x, was);
    }

    method PushService(svc: RemoteService, x: Path, ghost was: set<Path>)
      requires Closed(frus) && x in frus && Effective(avail, Parent(x))
      requires Toggled(was, avail, x)
      requires svc.up ==> svc.objects == EffectiveSet(frus, was)
      modifies svc`objects, svc`calls
      ensures Mirrors(svc)
    {
      if svc.up {
        if x in avail {
          AddToService(svc, x);
        } else {
          ToggleOff(frus, was, avail, x);
          var _ := svc.RemoveFRU(x);
        }
      }
    }

    /** A D-Bus request; refused for FRUs with an internal detection mechanism. */
    method SetFruAvailable(x: Path, value: bool) returns (status: bool)
      requires InSync()
      modifies this`avail, sensor`objects, sensor`calls, fru`objects, fru`calls
      ensures InSync()
      ensures status <==> x in frus && x !in internals
      ensures avail == if !status then old(avail) else if value then old(avail) + {x} else old(avail) - {x}
    {
      status := x in frus && x !in internals;
      if status {
        ghost var was := avail;
        var old_availability := x in avail;
        avail := if value then avail + {x} else avail - {x};
        if old_availability != value {
          if CheckIfParentFruAvailable(x) {
            ChangeInFruAvailabilityHandler(x, was);
          }
        } else {
          assert avail == was;
        }
      }
    }

    /** setSensorServiceAvailable and setFruServiceAvailable. */
    method SetServiceAvailable(svc: RemoteService, value: bool, proxyOk: bool) returns (status: bool)
      requires InSync() && (svc == sensor || svc == fru)
      requires Closed(svc.objects)
      modifies svc
      ensures InSync()
      ensures status <==> svc.up == value
      ensures svc.up == (if proxyOk || !value then value else old(svc.up))
    {
      if svc.up == value {
        return true;
      }
      if value && !proxyOk {
        return false;
      }
      svc.up := value;
      status := true;
      if value {
        svc.ResetTree();
        AddChildrenToService(svc, []);
        PushFromBase(frus, avail);
      }
    }

    method CheckHotPlugSupportedFrusRec(top: Path, readings: set<Path>)
      requires InSync() && Effective(avail, top)
      modifies this`avail, sensor`objects, sensor`calls, fru`objects, fru`calls
      ensures InSync()
      ensures Swept(frus, internals, readings, old(avail), avail, top)
      ensures avail == old(avail) ==> sensor.calls == old(sensor.calls) && fru.calls == old(fru.calls)
      decreases Subtree(frus, top) - {top}, 0
    {
      var rest := Children(frus, top);
      ghost var done := {};
      while rest != {}
        invariant rest !! done && rest + done == Children(frus, top)
        invariant InSync() && Effective(avail, top)
        invariant SweptUnder(frus, internals, readings, old(avail), avail, top, done)
        invariant avail == old(avail) ==> sensor.calls == old(sensor.calls) && fru.calls == old(fru.calls)
        decreases rest
      {
        var c :| c in rest;
        ghost var before := avail;
        LessBelow(frus, top, c);
        CheckFru(c, readings);
        SweepOneMore(frus, internals, readings, old(avail), before, avail, top, done, c);
        rest, done := rest - {c}, done + {c};
      }
      AllSwept(frus, internals, readings, old(avail), avail, top);
    }

    /** The body of the sweep's loop for one child FRU. */
    method CheckFru(x: Path, readings: set<Path>)
      requires InSync() && x in frus && Effective(avail, Parent(x))
      modifies this`avail, sensor`objects, sensor`calls, fru`objects, fru`calls
      ensures InSync() && Effective(avail, Parent(x))
      ensures SweptUnder(frus, internals, readings, old(avail), avail, Parent(x), {x})
      ensures avail == old(avail) ==> sensor.calls == old(sensor.calls) && fru.calls == old(fru.calls)
      decreases Subtree(frus, x) - {x}, 1
    {
      DetectAvailability(x, readings);
      ghost var detected := avail;
      if x in avail {
        EffectiveStep(avail, x);
        CheckHotPlugSupportedFrusRec(x, readings);
        SweepKeepsAbove(frus, internals, readings, detected, avail, x);
      }
      SweptChild(frus, internals, readings, old(avail), detected, avail, x);
    }

    /** Reads the detector of an internal FRU and pushes a changed flag. */
    method DetectAvailability(x: Path, readings: set<Path>)
      requires InSync() && x in frus && Effective(avail, Parent(x))
      modifies this`avail, sensor`objects, sensor`calls, fru`objects, fru`calls
      ensures InSync() && Effective(avail, Parent(x))
      ensures forall y :: y in avail <==> if y == x && x in internals then x in readings else y in old(avail)
      ensures avail == old(avail) ==> sensor.calls == old(sensor.calls) && fru.calls == old(fru.calls)
    {
      if x in internals {
        ghost var was := avail;
        var oldAvailability := x in avail;
        avail := if x in readings then avail + {x} else avail - {x};
        FlagBelow(was, avail, x);
        if oldAvailability != (x in avail) {
          ChangeInFruAvailabilityHandler(x, was);
        } else {
          assert avail == was;
        }
      }
    }

    /** Every internal FRU below available FRUs carries its reading. */
    ghost predicate Settled(readings: set<Path>)
      reads this
    {
      forall x :: x in frus && x in internals && Effective(avail, Parent(x)) ==> (x in avail <==> x in readings)
    }

    method CheckHotPlugSupportedFrus(readings: set<Path>)
      requires InSync()
      modifies this`avail, sensor`objects, sensor`calls, fru`objects, fru`calls
      ensures InSync() && Settled(readings)
      ensures Swept(frus, internals, readings, old(avail), avail, [])
      ensures old(Settled(readings)) ==>
                avail == old(avail) && sensor.calls == old(sensor.calls) && fru.calls == old(fru.calls)
    {
      CheckHotPlugSupportedFrusRec([], readings);
      forall x | x in frus && x in internals && Effective(avail, Parent(x)) ensures x in avail <==> x in readings {
        ReachedFromBase(avail, x);
      }
      if old(Settled(readings)) {
        SettledStays(frus, internals, readings, old(avail), avail);
      }
    }
  }

  // ----- Pushes -----

  lemma ChildAccepted(frus: set<Path>, avail: set<Path>, objects: set<Path>, x: Path, c: Path, done: set<Path>)
    requires c in Children(frus, x) && c !in done && done <= Children(frus, x) && c !in objects
    requires x == [] || x in objects
    ensures Accepts(PushInto(frus, avail, objects, done), c)
  {
    forall r | r in done ensures !Above(r, c) {
      if Above(r, c) {
        SiblingsAreApart(r, c);
      }
    }
  }

  /** A chain from `x` is `x` itself and a chain from one of its children. */
  lemma ChainUnfolds(frus: set<Path>, avail: set<Path>, x: Path, y: Path)
    requires Closed(frus) && y in frus && (x == [] || x in avail)
    ensures AvailableChain(avail, x, y) <==>
            y == x || exists f :: f in Children(frus, x) && AvailableChain(avail, f, y)
  {
    if AvailableChain(avail, x, y) && y != x {
      var f := ChildToward(frus, x, y);
      AboveParent(x, f);
      forall a | Above(f, a) && Above(a, y) && a != [] ensures a in avail {
        AboveTransitive(x, f, a);
      }
      assert AvailableChain(avail, f, y);
    }
    if f :| f in Children(frus, x) && AvailableChain(avail, f, y) {
      AboveParent(x, f);
      AboveTransitive(x, f, y);
      forall a | Above(x, a) && Above(a, y) && a != [] ensures a in avail {
        if |a| < |f| {
          assert |x| == |f| - 1;
          assert a == x;
        }
      }
    }
    if y == x {
      forall a | Above(x, a) && Above(a, y) ensures a == x {
        AboveAntisymmetric(x, a);
      }
    }
  }

  lemma PushUnfolds(frus: set<Path>, avail: set<Path>, objects: set<Path>, x: Path)
    requires Closed(frus) && x in frus && x in avail
    ensures PushInto(frus, avail, objects + {x}, Children(frus, x)) == PushInto(frus, avail, objects, {x})
  {
    assert x in {x};
    forall y | y in frus
      ensures y in PushInto(frus, avail, objects + {x}, Children(frus, x)) <==>
              y in PushInto(frus, avail, objects, {x})
    {
      ChainUnfolds(frus, avail, x, y);
    }
  }

  lemma PushFromBase(frus: set<Path>, avail: set<Path>)
    requires Closed(frus)
    ensures PushInto(frus, avail, {}, Children(frus, [])) == EffectiveSet(frus, avail)
  {
    forall y | y in frus
      ensures y in EffectiveSet(frus, avail) <==> y in PushInto(frus, avail, {}, Children(frus, []))
    {
      ChainUnfolds(frus, avail, [], y);
    }
  }

  // ----- One toggled flag -----

  lemma ToggleOff(frus: set<Path>, was: set<Path>, now: set<Path>, x: Path)
    requires Closed(frus) && x in frus && Toggled(was, now, x) && x !in now && Effective(now, Parent(x))
    ensures x in EffectiveSet(frus, was)
    ensures RemoveRemote(EffectiveSet(frus, was), x) == EffectiveSet(frus, now)
  {
    assert !Above(x, Parent(x));
    EffectiveStep(was, x);
    assert forall y | y in frus ::
        y in EffectiveSet(frus, now) <==> y in RemoveRemote(EffectiveSet(frus, was), x);
  }

  // ----- The sweep -----

  /** A sweep below `top` that has finished with the children in `done`. */
  ghost predicate SweptUnder(frus: set<Path>, internals: set<Path>, readings: set<Path>,
                             was: set<Path>, now: set<Path>, top: Path, done: set<Path>) {
    forall x :: x in now <==>
      if x in frus && x in internals && Reached(now, top, x) && exists c :: c in done && Above(c, x)
      then x in readings else x in was
  }

  lemma AllSwept(frus: set<Path>, internals: set<Path>, readings: set<Path>, was: set<Path>, now: set<Path>, top: Path)
    requires Closed(frus) && SweptUnder(frus, internals, readings, was, now, top, Children(frus, top))
    ensures Swept(frus, internals, readings, was, now, top)
  {
    forall x | x in frus && Reached(now, top, x) ensures exists c :: c in Children(frus, top) && Above(c, x) {
      var c := ChildToward(frus, top, x);
    }
  }

  lemma FlagBelow(was: set<Path>, now: set<Path>, x: Path)
    requires x != [] && forall y :: y != x ==> (y in was <==> y in now)
    ensures Effective(was, Parent(x)) <==> Effective(now, Parent(x))
  {
    assert !Above(x, Parent(x));
  }

  lemma SweepKeepsAbove(frus: set<Path>, internals: set<Path>, readings: set<Path>,
                        was: set<Path>, now: set<Path>, x: Path)
    requires x != [] && Swept(frus, internals, readings, was, now, x)
    ensures Effective(was, Parent(x)) <==> Effective(now, Parent(x))
  {
  }

  lemma LessBelow(frus: set<Path>, top: Path, c: Path)
    requires c in Children(frus, top)
    ensures Subtree(frus, c) - {c} < Subtree(frus, top) - {top}
  {
  }

  lemma ReachedFromBase(avail: set<Path>, x: Path)
    requires x != []
    ensures Reached(avail, [], x) <==> Effective(avail, Parent(x))
  {
  }

  lemma SettledStays(frus: set<Path>, internals: set<Path>, readings: set<Path>, was: set<Path>, now: set<Path>)
    requires forall x :: x in frus && x in internals && Effective(was, Parent(x)) ==> (x in was <==> x in readings)
    requires Swept(frus, internals, readings, was, now, []) && Closed(frus)
    ensures was == now
  {
    forall x ensures x in was <==> x in now {
      SettledFlagStays(frus, internals, readings, was, now, x);
    }
  }

  lemma SettledFlagStays(frus: set<Path>, internals: set<Path>, readings: set<Path>,
                         was: set<Path>, now: set<Path>, x: Path)
    requires forall x :: x in frus && x in internals && Effective(was, Parent(x)) ==> (x in was <==> x in readings)
    requires Swept(frus, internals, readings, was, now, []) && Closed(frus)
    ensures x in was <==> x in now
    decreases |x|
  {
    if x in frus && Reached(now, [], x) {
      ReachedFromBase(now, x);
      forall a | a != [] && Above(a, Parent(x)) ensures a in was {
        SettledFlagStays(frus, internals, readings, was, now, a);
      }
    }
  }

  /** Detecting `c` and then sweeping below it if it is available sweeps its subtree. */
  lemma SweptChild(frus: set<Path>, internals: set<Path>, readings: set<Path>,
                   a1: set<Path>, a2: set<Path>, a3: set<Path>, c: Path)
    requires c in frus && c != []
    requires forall y :: y in a2 <==> if y == c && c in internals then y in readings else y in a1
    requires if c in a2 then Swept(frus, internals, readings, a2, a3, c) else a3 == a2
    ensures SweptUnder(frus, internals, readings, a1, a3, Parent(c), {c})
    ensures a3 == a1 ==> a2 == a1
  {
  }

  lemma SweepOneMore(frus: set<Path>, internals: set<Path>, readings: set<Path>, was: set<Path>,
                     a1: set<Path>, a3: set<Path>, top: Path, done: set<Path>, c: Path)
    requires done <= Children(frus, top) && c in Children(frus, top) && c !in done
    requires SweptUnder(frus, internals, readings, was, a1, top, done)
    requires SweptUnder(frus, internals, readings, a1, a3, top, {c})
    ensures SweptUnder(frus, internals, readings, was, a3, top, done + {c})
    ensures a3 == was ==> a1 == was
  {
  }

}
