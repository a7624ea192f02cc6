/**
 Object paths of the platform and FRU services, and the static tree of FRUs
 they address.  A path is the list of object names below the service's base
 object; `[]` is the base object itself, which is not a FRU.
 */
module ObjectPaths {
  type Path = seq<string>

  predicate Above(a: Path, x: Path) {
    a <= x
  }

  function Parent(x: Path): Path {
    if x == [] then [] else x[..|x| - 1]
  }

  function Children(frus: set<Path>, p: Path): set<Path> {
    set x | x in frus && x != [] && Parent(x) == p
  }

  function Subtree(tree: set<Path>, p: Path): set<Path> {
    set x | x in tree && Above(p, x)
  }

  /** `x` and every FRU above it carry an availability flag. */
  ghost predicate Effective(avail: set<Path>, x: Path) {
    forall a :: a != [] && Above(a, x) ==> a in avail
  }

  ghost function EffectiveSet(frus: set<Path>, avail: set<Path>): set<Path> {
    set x | x in frus && Effective(avail, x)
  }

  /** Everything in the tree hangs below the base object or below another member. */
  ghost predicate Closed(tree: set<Path>) {
    [] !in tree && forall x {:trigger Parent(x)} :: x in tree ==> Parent(x) == [] || Parent(x) in tree
  }

  lemma AboveTransitive(a: Path, b: Path, c: Path)
    requires Above(a, b) && Above(b, c)
    ensures Above(a, c)
  {
    assert c[..|a|] == c[..|b|][..|a|];
  }

  lemma AboveParent(a: Path, x: Path)
    requires x != []
    ensures Above(a, x) <==> a == x || Above(a, Parent(x))
  {
  }

  lemma AboveAntisymmetric(a: Path, x: Path)
    requires Above(a, x) && Above(x, a)
    ensures a == x
  {
  }

  /** Effectiveness one level at a time, as checkIfParentFruAvailable walks it. */
  lemma EffectiveStep(avail: set<Path>, x: Path)
    requires x != []
    ensures Effective(avail, x) <==> x in avail && Effective(avail, Parent(x))
  {
    assert Above(x, x);
    if Effective(avail, x) {
      forall a | a != [] && Above(a, Parent(x)) ensures a in avail {
        AboveParent(a, x);
      }
    }
    if x in avail && Effective(avail, Parent(x)) {
      forall a | a != [] && Above(a, x) ensures a in avail {
        AboveParent(a, x);
      }
    }
  }

  lemma EffectiveAbove(avail: set<Path>, a: Path, x: Path)
    requires Above(a, x) && Effective(avail, x)
    ensures Effective(avail, a)
  {
  }

  /** A closed tree contains every FRU above each of its members. */
  lemma ClosedAbove(tree: set<Path>, a: Path, x: Path)
    requires Closed(tree) && x in tree && a != [] && Above(a, x)
    ensures a in tree
    decreases |x|
  {
    AboveParent(a, x);
    if a != x {
      ClosedAbove(tree, a, Parent(x));
    }
  }

  /** The child of `x` on the way down to `y`. */
  lemma ChildToward(frus: set<Path>, x: Path, y: Path) returns (f: Path)
    requires Closed(frus) && y in frus && Above(x, y) && x != y
    ensures f in Children(frus, x) && Above(f, y)
  {
    f := y[..|x| + 1];
    assert f[..|x|] == x;
    ClosedAbove(frus, f, y);
  }
}
