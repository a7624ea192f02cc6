/**
 The receiving side: the object tree a remote service keeps, changed by its
 addFRU, removeFRU and resetTree calls.
 */
module FruServiceTree {
  import opened ObjectPaths
  import opened MirrorProtocol

  datatype AddResult = Added | NoParent | Duplicate

  class RemoteService {
    var up: bool             // the caller's view: is the service's bus name present
    var objects: set<Path>   // FRU objects below the service's base object
    var calls: nat           // add, remove and reset calls received

    constructor ()
      ensures !up && objects == {} && calls == 0
    {
      up, objects, calls := false, {}, 0;
    }

    method AddFRU(x: Path) returns (r: AddResult)
      requires x != []
      modifies `objects, `calls
      ensures objects == AddRemote(old(objects), x) && calls == old(calls) + 1
      ensures r == Added <==> Accepts(old(objects), x)
      ensures r == NoParent <==> Parent(x) != [] && Parent(x) !in old(objects)
    {
      calls := calls + 1;
      if Parent(x) != [] && Parent(x) !in objects {
        return NoParent;
      }
      if x in objects {
        return Duplicate;
      }
      objects := objects + {x};
      return Added;
    }

    /** Refuses to delete an object that is absent or still has children. */
    method DeleteObjectByPath(x: Path) returns (ok: bool)
      modifies `objects
      ensures ok <==> x in old(objects) && Children(old(objects), x) == {}
      ensures objects == if ok then old(objects) - {x} else old(objects)
    {
      ok := x in objects && Children(objects, x) == {};
      if ok {
        objects := objects - {x};
      }
    }

    /** Deletes children first; no deletion on the way is ever refused. */
    method DeleteSubtree(x: Path)
      requires Closed(objects) && x in objects
      modifies `objects
      ensures objects == RemoveRemote(old(objects), x) && Closed(objects)
      decreases Subtree(objects, x)
    {
      ghost var before := objects;
      var rest := Children(objects, x);
      ghost var done := {};
      while rest != {}
        invariant rest !! done && rest + done == Children(before, x)
        invariant Closed(objects)
        invariant objects == RemoveAll(before, done)
        decreases rest
      {
        var c :| c in rest;
        AboveParent(x, c);
        ChildRemains(before, x, done, c);
        ChildSubtreeShrinks(before, x, c, objects);
        DeleteSubtree(c);
        rest, done := rest - {c}, done + {c};
      }
      OnlyRootRemains(before, x);
      var ok := DeleteObjectByPath(x);
      assert ok;
    }

    method ResetTree()
      requires Closed(objects)
      modifies `objects, `calls
      ensures objects == {} && calls == old(calls) + 1
    {
      calls := calls + 1;
      ghost var before := objects;
      var rest := Children(objects, []);
      ghost var done := {};
      while rest != {}
        invariant calls == old(calls) + 1
        invariant rest !! done && rest + done == Children(before, [])
        invariant Closed(objects)
        invariant objects == RemoveAll(before, done)
        decreases rest
      {
        var c :| c in rest;
        ChildRemains(before, [], done, c);
        DeleteSubtree(c);
        rest, done := rest - {c}, done + {c};
      }
      OnlyRootRemains(before, []);
    }

    method RemoveFRU(x: Path) returns (status: bool)
      requires Closed(objects)
      modifies `objects, `calls
      ensures status <==> x in old(objects)
      ensures objects == if status then RemoveRemote(old(objects), x) else old(objects)
      ensures Closed(objects) && calls == old(calls) + 1
    {
      calls := calls + 1;
      status := x in objects;
      if status {
        DeleteSubtree(x);
      }
    }
  }

  /** What is left of a tree once the subtrees of all of `roots` are gone. */
  ghost function RemoveAll(tree: set<Path>, roots: set<Path>): set<Path> {
    set y | y in tree && forall r :: r in roots ==> !Above(r, y)
  }

  lemma SiblingsAreApart(a: Path, b: Path)
    requires a != [] && b != [] && Parent(a) == Parent(b) && Above(a, b)
    ensures a == b
  {
    assert |a| == |b|;
  }

  lemma ChildRemains(tree: set<Path>, x: Path, done: set<Path>, c: Path)
    requires done <= Children(tree, x) && c in Children(tree, x) - done
    ensures c in RemoveAll(tree, done)
  {
    forall r | r in done ensures !Above(r, c) {
      if Above(r, c) {
        SiblingsAreApart(r, c);
      }
    }
  }

  lemma ChildSubtreeShrinks(tree: set<Path>, x: Path, c: Path, now: set<Path>)
    requires x in tree && c in Children(tree, x) && now <= tree
    ensures Subtree(now, c) < Subtree(tree, x)
  {
    AboveParent(x, c);
    forall y | y in Subtree(now, c) ensures y in Subtree(tree, x) {
      AboveTransitive(x, c, y);
    }
    assert x in Subtree(tree, x) && x !in Subtree(now, c);
  }

  /** With every child subtree gone, at most the root itself is left below it. */
  lemma OnlyRootRemains(tree: set<Path>, x: Path)
    requires Closed(tree)
    ensures RemoveAll(tree, Children(tree, x)) - {x} == RemoveRemote(tree, x)
    ensures x in tree ==> x in RemoveAll(tree, Children(tree, x))
    ensures Children(RemoveAll(tree, Children(tree, x)), x) == {}
    ensures Closed(RemoveRemote(tree, x))
  {
    var left := RemoveAll(tree, Children(tree, x));
    forall y | y in tree ensures y in left - {x} <==> !Above(x, y) {
      if Above(x, y) && y != x {
        var f := ChildToward(tree, x, y);
      }
      if !Above(x, y) {
        forall r | r in Children(tree, x) ensures !Above(r, y) {
          AboveParent(x, r);
          if Above(r, y) {
            AboveTransitive(x, r, y);
          }
        }
      }
    }
    forall y | y in RemoveRemote(tree, x) ensures y != [] && (Parent(y) == [] || Parent(y) in RemoveRemote(tree, x)) {
      AboveParent(x, y);
    }
    if x in tree {
      forall r | r in Children(tree, x) ensures !Above(r, x) {
        AboveParent(x, r);
      }
    }
    forall y | y in Children(left, x) ensures false {
      assert Above(y, y) && y in Children(tree, x);
    }
  }

}
