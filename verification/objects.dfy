/**
  The object heap of one scene graph. Every object is a `Node` record held in
  a finite map from object identities; parent and children links refer to
  other entries of the same map. Besides its links and local transformation a
  node carries the Dirty flag, the scratch state used by the batch algorithm
  (Visited, Joint and the 16-bit counter) and its attached features.
*/
module Objects {
  import opened Wrappers
  import opened Transformation
  import opened Tree

  /** The 16-bit unsigned counter kept on every object. */
  type Counter = c: int | 0 <= c <= 0xFFFF

  /** Value of `counter` outside a batch computation ("no index assigned"). */
  const Unassigned: Counter := 0xFFFF

  /**
    A feature attached to an object, seen only through the caching protocol:
    which absolute transformations it caches, how many times it was told that
    its cache is stale, how many times `clean()` and `cleanInverted()` were
    called on it, and the absolute transformation last pushed to it (the
    matrix of `absolute`, and of the inverse of `invertedAbsolute`).
  */
  datatype Feature = Feature(
    cachesAbsolute: bool,
    cachesInverted: bool,
    dirtyMarks: nat,
    cleanCalls: nat,
    invertedCleanCalls: nat,
    absolute: Option<Transform>,
    invertedAbsolute: Option<Transform>)

  datatype Node = Node(
    parent: Option<Id>,
    children: seq<Id>,
    local: Transform,
    isScene: bool,
    dirty: bool,
    visited: bool,
    joint: bool,
    counter: Counter,
    features: seq<Feature>)

  type Graph = map<Id, Node>

  function Parents(g: Graph): (links: Links)
    ensures links.Keys == g.Keys
    ensures forall x :: x in g ==> links[x] == g[x].parent
  {
    map x | x in g :: g[x].parent
  }

  function Locals(g: Graph): (locals: map<Id, Transform>)
    ensures locals.Keys == g.Keys
  {
    map x | x in g :: g[x].local
  }

  predicate NoDuplicates(s: seq<Id>) {
    forall i, j :: 0 <= i < j < |s| ==> s[i] != s[j]
  }

  /** A scene cannot have a parent. */
  ghost predicate ScenesAreRoots(g: Graph) {
    forall x :: x in g && g[x].isScene ==> g[x].parent.None?
  }

  /** Every object in a children list has the list's owner as its parent. */
  ghost predicate ChildrenHaveParent(g: Graph) {
    forall x, c :: x in g && c in g[x].children ==> c in g && g[c].parent == Some(x)
  }

  /** Every object with a parent is in that parent's children list. */
  ghost predicate ParentsHaveChild(g: Graph) {
    forall c :: c in g && g[c].parent.Some? && g[c].parent.value in g ==>
      c in g[g[c].parent.value].children
  }

  /** No children list holds an object twice. */
  ghost predicate ChildrenUnique(g: Graph) {
    forall x :: x in g ==> NoDuplicates(g[x].children)
  }

  /**
    The tree invariant the object hierarchy maintains: parent links are
    acyclic, a scene has no parent, and every children list holds, once each,
    exactly the objects whose parent is its owner.
  */
  ghost predicate WellFormed(g: Graph) {
    && Acyclic(Parents(g))
    && ScenesAreRoots(g)
    && ChildrenHaveParent(g)
    && ParentsHaveChild(g)
    && ChildrenUnique(g)
  }

  lemma {:induction false} ChildLink(g: Graph, x: Id, c: Id)
    requires WellFormed(g) && x in g && c in g[x].children
    ensures c in g && g[c].parent == Some(x)
  {
  }

  lemma {:induction false} ParentLink(g: Graph, c: Id)
    requires WellFormed(g) && c in g && g[c].parent.Some?
    ensures g[c].parent.value in g && c in g[g[c].parent.value].children
  {
    RootedIn(Parents(g), c);
    ParentRooted(Parents(g), c);
  }

  /** A parent link never dangles. */
  lemma {:induction false} ParentInGraph(g: Graph, c: Id)
    requires WellFormed(g) && c in g
    ensures g[c].parent.Some? ==> g[c].parent.value in g
  {
    if g[c].parent.Some? {
      ParentRooted(Parents(g), c);
    }
  }

  /** `a` is `y` or an ancestor of `y` in `g`. */
  ghost predicate InSubtree(g: Graph, a: Id, y: Id)
    requires WellFormed(g)
  {
    Above(Parents(g), a, y)
  }

  /** Two objects each in the other's subtree are the same object. */
  lemma {:induction false} SubtreeAntisymmetric(g: Graph, a: Id, b: Id)
    requires WellFormed(g) && InSubtree(g, a, b) && InSubtree(g, b, a)
    ensures a == b
  {
    AboveDepth(Parents(g), a, b);
    AboveDepth(Parents(g), b, a);
  }

  /** Going up one step from `y`: its subtree's ancestors-or-self are `y` and those of its parent. */
  lemma {:induction false} AboveStep(g: Graph, z: Id, y: Id)
    requires WellFormed(g) && y in g && g[y].parent.Some? && InSubtree(g, z, y) && z != y
    ensures g[y].parent.value in g && InSubtree(g, z, g[y].parent.value)
  {
    ParentRooted(Parents(g), y);
  }

  /** `y` and its parent `p`: `p` is in the subtree of `p` and `y` is in it too. */
  lemma {:induction false} ParentAbove(g: Graph, y: Id)
    requires WellFormed(g) && y in g && g[y].parent.Some?
    ensures g[y].parent.value in g && InSubtree(g, g[y].parent.value, y)
  {
    var links := Parents(g);
    ParentRooted(links, y);
    assert Above(links, links[y].value, links[y].value);
  }

  /** A root has no ancestor but itself. */
  lemma {:induction false} RootOnlyAncestor(g: Graph, x: Id, y: Id)
    requires WellFormed(g) && x in g && g[x].parent.None? && InSubtree(g, y, x)
    ensures y == x
  {
  }

  // ---------------------------------------------------------------------
  // Absolute transformation
  // ---------------------------------------------------------------------

  function AbsoluteIn(links: Links, locals: map<Id, Transform>, x: Id): Transform
    requires Acyclic(links) && links.Keys == locals.Keys && x in links
    decreases Depth(links, x)
  {
    match links[x]
    case None => locals[x]
    case Some(p) =>
      ParentRooted(links, x);
      Compose(AbsoluteIn(links, locals, p), locals[x])
  }

  /**
    `absoluteTransformation()`: the local transformations composed from the
    root down to `x`, recomputed on every call.
  */
  function Absolute(g: Graph, x: Id): (t: Transform)
    requires WellFormed(g) && x in g
    ensures g[x].parent.None? ==> t == g[x].local
    ensures g[x].parent.Some? ==>
      (g[x].parent.value in g && t == Compose(AbsoluteIn(Parents(g), Locals(g), g[x].parent.value), g[x].local))
  {
    var links := Parents(g);
    if links[x].Some? then ParentRooted(links, x); AbsoluteIn(links, Locals(g), x)
    else AbsoluteIn(links, Locals(g), x)
  }

  /**
    What the absolute transformation of `y` is built on: that of its parent,
    or the default (identity) transformation at a root.
  */
  function BaseBelow(g: Graph, y: Id): Transform
    requires WellFormed(g) && y in g
  {
    match g[y].parent
    case None => Identity()
    case Some(p) =>
      ParentRooted(Parents(g), y);
      Absolute(g, p)
  }

  /** The absolute transformation of `x` extends that of its parent by the local one. */
  lemma {:induction false} AbsoluteStep(g: Graph, x: Id)
    requires WellFormed(g) && x in g
    ensures g[x].parent.None? ==> Absolute(g, x) == g[x].local
    ensures g[x].parent.Some? ==>
      (g[x].parent.value in g && Absolute(g, x) == Compose(Absolute(g, g[x].parent.value), g[x].local))
    ensures Absolute(g, x) == Compose(BaseBelow(g, x), g[x].local)
  {
    if g[x].parent.Some? {
      ParentRooted(Parents(g), x);
    } else {
      IdentityIsLeftUnit(g[x].local);
    }
  }

  /** The local transformations on the path from the root down to `x`. */
  ghost function PathLocals(g: Graph, x: Id): seq<Transform>
    requires WellFormed(g) && x in g
    decreases Depth(Parents(g), x)
  {
    match g[x].parent
    case None => [g[x].local]
    case Some(p) =>
      ParentRooted(Parents(g), x);
      PathLocals(g, p) + [g[x].local]
  }

  /** Left fold of `Compose` over `ts`, seeded with the default value. */
  function ComposeAll(ts: seq<Transform>): Transform {
    if |ts| == 0 then Identity() else Compose(ComposeAll(ts[..|ts| - 1]), ts[|ts| - 1])
  }

  // ---------------------------------------------------------------------
  // Flag transitions of one node
  // ---------------------------------------------------------------------

  /** `markDirty()` on one feature. */
  function MarkFeatureDirty(f: Feature): Feature {
    f.(dirtyMarks := f.dirtyMarks + 1)
  }

  /** `markDirty()` on each feature of a list, in order. */
  function MarkFeaturesDirty(fs: seq<Feature>): (r: seq<Feature>)
    ensures |r| == |fs|
  {
    if |fs| == 0 then [] else MarkFeaturesDirty(fs[..|fs| - 1]) + [MarkFeatureDirty(fs[|fs| - 1])]
  }

  /** Every feature of the list is told exactly once, in place. */
  lemma {:induction false} MarkFeaturesDirtyAt(fs: seq<Feature>, i: nat)
    requires i < |fs|
    ensures MarkFeaturesDirty(fs)[i] == MarkFeatureDirty(fs[i])
    decreases |fs|
  {
    if i < |fs| - 1 {
      MarkFeaturesDirtyAt(fs[..|fs| - 1], i);
    }
  }

  /** An object after `setDirty()` reached it: all features told, Dirty set. */
  function MarkedDirty(n: Node): Node {
    n.(dirty := true, features := MarkFeaturesDirty(n.features))
  }

  /** `clean()` / `cleanInverted()` on one feature, for absolute transformation `t`. */
  function CleanFeature(f: Feature, t: Transform): Feature {
    f.(absolute := if f.cachesAbsolute then Some(t) else f.absolute,
       cleanCalls := if f.cachesAbsolute then f.cleanCalls + 1 else f.cleanCalls,
       invertedAbsolute := if f.cachesInverted then Some(t) else f.invertedAbsolute,
       invertedCleanCalls := if f.cachesInverted then f.invertedCleanCalls + 1 else f.invertedCleanCalls)
  }

  /** `clean()` / `cleanInverted()` on each feature of a list, in order. */
  function CleanFeatures(fs: seq<Feature>, t: Transform): (r: seq<Feature>)
    ensures |r| == |fs|
  {
    if |fs| == 0 then [] else CleanFeatures(fs[..|fs| - 1], t) + [CleanFeature(fs[|fs| - 1], t)]
  }

  /** Every feature of the list is cleaned exactly once, in place. */
  lemma {:induction false} CleanFeaturesAt(fs: seq<Feature>, t: Transform, i: nat)
    requires i < |fs|
    ensures CleanFeatures(fs, t)[i] == CleanFeature(fs[i], t)
    decreases |fs|
  {
    if i < |fs| - 1 {
      CleanFeaturesAt(fs[..|fs| - 1], t, i);
    }
  }

  /** An object after `setClean(absoluteTransformation)` with value `t`. */
  function Cleaned(n: Node, t: Transform): Node {
    n.(dirty := false, features := CleanFeatures(n.features, t))
  }

  /** The structural part of a node: everything but flags, counter and features. */
  function Shape(n: Node): Node {
    n.(dirty := false, visited := false, joint := false, counter := Unassigned, features := [])
  }

  /** The two heaps hold the same objects with the same links and local transformations. */
  ghost predicate SameShape(g: Graph, g': Graph) {
    && g'.Keys == g.Keys
    && forall x :: x in g ==> Shape(g'[x]) == Shape(g[x])
  }

  lemma {:induction false} SameShapeKeeps(g: Graph, g': Graph)
    requires SameShape(g, g')
    ensures Parents(g') == Parents(g) && Locals(g') == Locals(g)
    ensures WellFormed(g) ==> WellFormed(g')
  {
    forall x | x in g
      ensures g'[x].parent == g[x].parent && g'[x].local == g[x].local
      ensures g'[x].children == g[x].children && g'[x].isScene == g[x].isScene
    {
      assert Shape(g'[x]) == Shape(g[x]);
    }
    assert Parents(g') == Parents(g);
    assert Locals(g') == Locals(g);
    if WellFormed(g) {
      SameLinksWellFormed(g, g');
    }
  }

  lemma {:induction false} SameLinksWellFormed(g: Graph, g': Graph)
    requires WellFormed(g) && g'.Keys == g.Keys
    requires forall x :: x in g ==> g'[x].parent == g[x].parent
    requires forall x :: x in g ==> g'[x].children == g[x].children && g'[x].isScene == g[x].isScene
    ensures WellFormed(g')
  {
    assert Parents(g') == Parents(g);
    assert ScenesAreRoots(g');
    assert ChildrenHaveParent(g') by {
      forall x, c | x in g' && c in g'[x].children
        ensures c in g' && g'[c].parent == Some(x)
      {
        assert c in g[x].children;
      }
    }
    assert ParentsHaveChild(g') by {
      forall c | c in g' && g'[c].parent.Some? && g'[c].parent.value in g'
        ensures c in g'[g'[c].parent.value].children
      {
        assert c in g[g[c].parent.value].children;
      }
    }
    assert ChildrenUnique(g') by {
      forall x | x in g'
        ensures NoDuplicates(g'[x].children)
      {
        assert NoDuplicates(g[x].children);
      }
    }
  }

  // ---------------------------------------------------------------------
  // Dirty invariant
  // ---------------------------------------------------------------------

  /**
    The dirty invariant with exemptions: a child of a dirty object is dirty,
    unless the child is one of `exempt`.
  */
  ghost predicate DirtyClosedExcept(g: Graph, exempt: set<Id>) {
    forall c ::
      (c in g && c !in exempt && g[c].parent.Some? && g[c].parent.value in g && g[g[c].parent.value].dirty)
      ==> g[c].dirty
  }

  /** The dirty invariant: a child of a dirty object is dirty. */
  ghost predicate DirtyClosed(g: Graph) {
    DirtyClosedExcept(g, {})
  }

  /** Every object in the subtree of `x` is dirty. */
  ghost predicate SubtreeDirty(g: Graph, x: Id)
    requires WellFormed(g)
  {
    forall y :: y in g && InSubtree(g, x, y) ==> g[y].dirty
  }

  /** In a dirty object's subtree the invariant holds, so the whole subtree is dirty. */
  lemma {:induction false} DirtyBelow(g: Graph, exempt: set<Id>, a: Id, y: Id)
    requires WellFormed(g) && a in g && g[a].dirty && DirtyClosedExcept(g, exempt)
    requires forall e :: e in exempt && e != a ==> !InSubtree(g, a, e)
    requires InSubtree(g, a, y)
    ensures g[y].dirty
    decreases Depth(Parents(g), y)
  {
    if y != a {
      var links := Parents(g);
      ParentRooted(links, y);
      DirtyBelow(g, exempt, a, links[y].value);
    }
  }

  /** `r` is `g` with some clean objects marked dirty and nothing else changed. */
  ghost predicate DirtyStep(g: Graph, r: Graph) {
    && r.Keys == g.Keys
    && forall y :: y in g ==> r[y] == g[y] || (!g[y].dirty && r[y] == MarkedDirty(g[y]))
  }

  lemma {:induction false} DirtyStepTransitive(g: Graph, m: Graph, r: Graph)
    requires DirtyStep(g, m) && DirtyStep(m, r)
    ensures DirtyStep(g, r)
  {
    forall y | y in g
      ensures r[y] == g[y] || (!g[y].dirty && r[y] == MarkedDirty(g[y]))
    {
      assert m[y] == g[y] || (!g[y].dirty && m[y] == MarkedDirty(g[y]));
      assert r[y] == m[y] || (!m[y].dirty && r[y] == MarkedDirty(m[y]));
    }
  }

  /** Marking objects dirty keeps dirty subtrees dirty. */
  lemma {:induction false} SubtreeDirtyStays(g: Graph, r: Graph, x: Id)
    requires WellFormed(g) && WellFormed(r) && DirtyStep(g, r) && Parents(r) == Parents(g)
    requires SubtreeDirty(g, x)
    ensures SubtreeDirty(r, x)
  {
    forall y | y in r && InSubtree(r, x, y)
      ensures r[y].dirty
    {
      assert g[y].dirty;
    }
  }

  lemma {:induction false} DirtyStepShape(g: Graph, r: Graph)
    requires DirtyStep(g, r)
    ensures SameShape(g, r)
  {
    forall y | y in g
      ensures Shape(r[y]) == Shape(g[y])
    {
    }
  }

  /** `x` and its ancestors up to (excluding) the first clean one, bottom first. */
  ghost function DirtyChain(g: Graph, x: Id): seq<Id>
    requires WellFormed(g) && x in g
    decreases Depth(Parents(g), x)
  {
    if !g[x].dirty then []
    else match g[x].parent
      case None => [x]
      case Some(p) =>
        ParentRooted(Parents(g), x);
        [x] + DirtyChain(g, p)
  }

  // ---------------------------------------------------------------------
  // Scratch state of the batch algorithm
  // ---------------------------------------------------------------------

  /** A node with its scratch state reset to the baseline. */
  function Unscratched(n: Node): Node {
    n.(visited := false, joint := false, counter := Unassigned)
  }

  /** Every object's Visited and Joint flags are clear and its counter is unassigned. */
  ghost predicate AtBaseline(g: Graph) {
    forall x :: x in g ==> !g[x].visited && !g[x].joint && g[x].counter == Unassigned
  }

  /** `g'` differs from `g` at most in scratch state. */
  ghost predicate ScratchOnly(g: Graph, g': Graph) {
    && g'.Keys == g.Keys
    && forall x :: x in g ==> Unscratched(g'[x]) == Unscratched(g[x])
  }

  lemma {:induction false} ScratchOnlyShape(g: Graph, g': Graph)
    requires ScratchOnly(g, g')
    ensures SameShape(g, g')
  {
    forall x | x in g
      ensures Shape(g'[x]) == Shape(g[x])
    {
      assert Unscratched(g'[x]) == Unscratched(g[x]);
    }
  }

  lemma {:induction false} ScratchOnlyBaseline(g: Graph, g': Graph)
    requires ScratchOnly(g, g') && AtBaseline(g) && AtBaseline(g')
    ensures g' == g
  {
    forall x | x in g
      ensures g'[x] == g[x]
    {
      assert Unscratched(g'[x]) == Unscratched(g[x]);
    }
  }
}
