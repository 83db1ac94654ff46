/**
  Cleaning one object: `setClean(absoluteTransformation)`, which pushes an
  absolute transformation to the features of one object, and `setClean()`,
  which cleans an object together with all its dirty ancestors, computing
  each absolute transformation once on the way down from the topmost one.
*/
module Cleaning {
  import opened Wrappers
  import opened Transformation
  import opened Tree
  import opened Objects

  // ---------------------------------------------------------------------
  // setClean(absoluteTransformation)
  // ---------------------------------------------------------------------

  /** Some feature of `n` caches the absolute transformation. */
  predicate SomeCachesAbsolute(n: Node) {
    exists i :: 0 <= i < |n.features| && n.features[i].cachesAbsolute
  }

  /** Some feature of `n` caches the inverted absolute transformation. */
  predicate SomeCachesInverted(n: Node) {
    exists i :: 0 <= i < |n.features| && n.features[i].cachesInverted
  }

  /**
    `setClean(absoluteTransformation)`: every feature gets the transformation
    it caches, and the Dirty flag is cleared. The matrix and the inverted
    matrix are converted lazily, at most once each, and only when some
    feature caches them; `conversions` and `inversions` count those
    conversions.
  */
  method CleanNode(n: Node, t: Transform) returns (m: Node, conversions: nat, inversions: nat)
    ensures m == Cleaned(n, t)
    ensures conversions == if SomeCachesAbsolute(n) then 1 else 0
    ensures inversions == if SomeCachesInverted(n) then 1 else 0
  {
    var features: seq<Feature> := [];
    var haveMatrix, haveInverted := false, false;
    conversions, inversions := 0, 0;
    for i := 0 to |n.features|
      invariant features == CleanFeatures(n.features[..i], t)
      invariant haveMatrix <==> exists j :: 0 <= j < i && n.features[j].cachesAbsolute
      invariant haveInverted <==> exists j :: 0 <= j < i && n.features[j].cachesInverted
      invariant conversions == if haveMatrix then 1 else 0
      invariant inversions == if haveInverted then 1 else 0
    {
      var f := n.features[i];
      if f.cachesAbsolute {
        if !haveMatrix {
          haveMatrix := true;
          conversions := conversions + 1;
        }
        f := f.(absolute := Some(t), cleanCalls := f.cleanCalls + 1);
      }
      if f.cachesInverted {
        if !haveInverted {
          haveInverted := true;
          inversions := inversions + 1;
        }
        f := f.(invertedAbsolute := Some(t), invertedCleanCalls := f.invertedCleanCalls + 1);
      }
      assert n.features[..i + 1][..i] == n.features[..i];
      features := features + [f];
    }
    assert n.features[..|n.features|] == n.features;
    m := n.(dirty := false, features := features);
  }

  /** Cleaning leaves an object clean, its links untouched, and every caching feature up to date. */
  lemma {:induction false} CleanedState(n: Node, t: Transform)
    ensures !Cleaned(n, t).dirty && Shape(Cleaned(n, t)) == Shape(n)
    ensures |Cleaned(n, t).features| == |n.features|
    ensures forall i :: 0 <= i < |n.features| && n.features[i].cachesAbsolute ==>
      Cleaned(n, t).features[i].absolute == Some(t) &&
      Cleaned(n, t).features[i].cleanCalls == n.features[i].cleanCalls + 1
    ensures forall i :: 0 <= i < |n.features| && n.features[i].cachesInverted ==>
      Cleaned(n, t).features[i].invertedAbsolute == Some(t) &&
      Cleaned(n, t).features[i].invertedCleanCalls == n.features[i].invertedCleanCalls + 1
    ensures forall i :: 0 <= i < |n.features| && !n.features[i].cachesAbsolute && !n.features[i].cachesInverted ==>
      Cleaned(n, t).features[i] == n.features[i]
  {
    forall i | 0 <= i < |n.features|
      ensures Cleaned(n, t).features[i] == CleanFeature(n.features[i], t)
    {
      CleanFeaturesAt(n.features, t, i);
    }
  }

  /**
    Cleaning an object twice is not cleaning it once: every feature that
    caches a transformation receives a second `clean()` or `cleanInverted()`.
  */
  lemma {:induction false} CleanedTwiceDiffers(n: Node, t: Transform, i: nat)
    requires i < |n.features| && (n.features[i].cachesAbsolute || n.features[i].cachesInverted)
    ensures Cleaned(Cleaned(n, t), t) != Cleaned(n, t)
  {
    CleanedState(n, t);
    CleanedState(Cleaned(n, t), t);
    var m := Cleaned(n, t);
    CleanFeaturesAt(n.features, t, i);
    assert m.features[i].cachesAbsolute == n.features[i].cachesAbsolute;
    assert m.features[i].cachesInverted == n.features[i].cachesInverted;
    if n.features[i].cachesAbsolute {
      assert Cleaned(m, t).features[i].cleanCalls == m.features[i].cleanCalls + 1;
    } else {
      assert Cleaned(m, t).features[i].invertedCleanCalls == m.features[i].invertedCleanCalls + 1;
    }
  }

  // ---------------------------------------------------------------------
  // The chain of dirty ancestors
  // ---------------------------------------------------------------------

  /**
    `y` is `x` or an ancestor of `x`, and every object from `x` up to and
    including `y` is dirty.
  */
  ghost predicate OnDirtyPath(g: Graph, y: Id, x: Id)
    requires WellFormed(g)
  {
    && y in g
    && InSubtree(g, y, x)
    && forall z :: z in g && InSubtree(g, y, z) && InSubtree(g, z, x) ==> g[z].dirty
  }

  /** The dirty path from `x` to `x` is `x` alone, present exactly when `x` is dirty. */
  lemma {:induction false} OnDirtyPathSelf(g: Graph, x: Id)
    requires WellFormed(g) && x in g
    ensures OnDirtyPath(g, x, x) <==> g[x].dirty
  {
    assert InSubtree(g, x, x);
    forall z | z in g && InSubtree(g, x, z) && InSubtree(g, z, x)
      ensures z == x
    {
      SubtreeAntisymmetric(g, x, z);
    }
  }

  /** A dirty path from a dirty `x` is `x` itself or a dirty path from its parent. */
  lemma {:induction false} OnDirtyPathStep(g: Graph, x: Id, y: Id)
    requires WellFormed(g) && x in g && g[x].dirty && g[x].parent.Some? && y != x
    ensures g[x].parent.value in g
    ensures OnDirtyPath(g, y, x) <==> OnDirtyPath(g, y, g[x].parent.value)
  {
    var p := g[x].parent.value;
    ParentAbove(g, x);
    if OnDirtyPath(g, y, x) {
      AboveStep(g, y, x);
      forall z | z in g && InSubtree(g, y, z) && InSubtree(g, z, p)
        ensures g[z].dirty
      {
        AboveTransitive(Parents(g), z, p, x);
      }
    }
    if OnDirtyPath(g, y, p) {
      AboveTransitive(Parents(g), y, p, x);
      forall z | z in g && InSubtree(g, y, z) && InSubtree(g, z, x)
        ensures g[z].dirty
      {
        if z != x {
          AboveStep(g, z, x);
        }
      }
    }
  }

  /** The objects `setClean()` collects are exactly those on the dirty path from `x`. */
  lemma {:induction false} ChainMembers(g: Graph, x: Id)
    requires WellFormed(g) && x in g
    ensures forall y :: y in DirtyChain(g, x) <==> y in g && OnDirtyPath(g, y, x)
    decreases Depth(Parents(g), x)
  {
    OnDirtyPathSelf(g, x);
    if !g[x].dirty {
      forall y | y in g
        ensures !OnDirtyPath(g, y, x)
      {
        assert InSubtree(g, x, x);
      }
    } else if g[x].parent.None? {
      forall y | y in g && OnDirtyPath(g, y, x)
        ensures y == x
      {
        RootOnlyAncestor(g, x, y);
      }
    } else {
      var p := g[x].parent.value;
      ParentRooted(Parents(g), x);
      ChainMembers(g, p);
      forall y | y != x
        ensures y in g && OnDirtyPath(g, y, x) <==> y in g && OnDirtyPath(g, y, p)
      {
        OnDirtyPathStep(g, x, y);
      }
    }
  }

  /**
    The chain `setClean()` collects, bottom first: every entry is dirty and
    the parent of the one before it, depths fall by one per step, and the
    chain stops at a root or below a clean parent.
  */
  lemma {:induction false} ChainFacts(g: Graph, x: Id)
    requires WellFormed(g) && x in g
    ensures var c := DirtyChain(g, x);
      && (g[x].dirty <==> |c| > 0)
      && (|c| > 0 ==> c[0] == x)
      && (forall j :: 0 <= j < |c| ==> c[j] in g && g[c[j]].dirty)
      && (forall j :: 0 <= j < |c| ==> Rooted(Parents(g), c[j]) && Depth(Parents(g), c[j]) + j == Depth(Parents(g), x))
      && (forall j :: 0 <= j < |c| - 1 ==> g[c[j]].parent == Some(c[j + 1]))
      && (|c| > 0 ==> var top := c[|c| - 1];
           g[top].parent.None? || (g[top].parent.value in g && !g[g[top].parent.value].dirty))
    decreases Depth(Parents(g), x)
  {
    var links := Parents(g);
    if g[x].dirty && g[x].parent.Some? {
      var p := g[x].parent.value;
      ParentRooted(links, x);
      ChainFacts(g, p);
      var c := DirtyChain(g, x);
      var cp := DirtyChain(g, p);
      assert c == [x] + cp;
      forall j | 1 <= j < |c|
        ensures c[j] == cp[j - 1]
      {
      }
    }
  }

  /** A bottom-first path of distinct objects, each the parent of the one before. */
  ghost predicate UpwardPath(g: Graph, path: seq<Id>) {
    && (forall j :: 0 <= j < |path| ==> path[j] in g)
    && (forall j :: 0 <= j < |path| - 1 ==> g[path[j]].parent == Some(path[j + 1]))
    && (forall j, k :: 0 <= j < k < |path| ==> path[j] != path[k])
  }

  lemma {:induction false} ChainIsPath(g: Graph, x: Id)
    requires WellFormed(g) && x in g
    ensures UpwardPath(g, DirtyChain(g, x))
  {
    ChainFacts(g, x);
  }

  // ---------------------------------------------------------------------
  // Absolute transformation, step by step
  // ---------------------------------------------------------------------

  /**
    `absoluteTransformation()` composes the local transformations on the path
    from the root down to `x`, root first.
  */
  lemma {:induction false} AbsoluteComposesPath(g: Graph, x: Id)
    requires WellFormed(g) && x in g
    ensures Absolute(g, x) == ComposeAll(PathLocals(g, x))
    decreases Depth(Parents(g), x)
  {
    AbsoluteStep(g, x);
    var path := PathLocals(g, x);
    if g[x].parent.None? {
      assert path == [g[x].local];
      assert path[..0] == [];
      IdentityIsLeftUnit(g[x].local);
    } else {
      var p := g[x].parent.value;
      ParentRooted(Parents(g), x);
      AbsoluteComposesPath(g, p);
      assert path == PathLocals(g, p) + [g[x].local];
      assert path[..|path| - 1] == PathLocals(g, p);
    }
  }

  // ---------------------------------------------------------------------
  // setClean()
  // ---------------------------------------------------------------------

  /** One step of the collection loop. */
  lemma {:induction false} CollectStep(g: Graph, x: Id, stack: seq<Id>, p: Id)
    requires WellFormed(g) && x in g && p in g && g[p].dirty && g[p].parent.Some?
    requires g[p].parent.value in g && g[g[p].parent.value].dirty
    requires stack + DirtyChain(g, p)[1..] == DirtyChain(g, x)
    ensures (stack + [g[p].parent.value]) + DirtyChain(g, g[p].parent.value)[1..] == DirtyChain(g, x)
  {
    var q := g[p].parent.value;
    ParentRooted(Parents(g), p);
    assert DirtyChain(g, p) == [p] + DirtyChain(g, q);
    assert DirtyChain(g, q) == [q] + DirtyChain(g, q)[1..];
    assert DirtyChain(g, p)[1..] == [q] + DirtyChain(g, q)[1..];
  }

  /** The collection loop: walks up from `x` while the parent is dirty. */
  method CollectChain(g: Graph, x: Id) returns (stack: seq<Id>, base: Transform)
    requires WellFormed(g) && x in g && g[x].dirty
    ensures stack == DirtyChain(g, x) && |stack| > 0
    ensures stack[|stack| - 1] in g && base == BaseBelow(g, stack[|stack| - 1])
  {
    var links := Parents(g);
    stack := [x];
    var p := x;
    if g[p].parent.Some? {
      ParentRooted(links, p);
    }
    while g[p].parent.Some? && g[g[p].parent.value].dirty
      invariant p in g && g[p].dirty && |stack| > 0 && stack[|stack| - 1] == p
      invariant g[p].parent.Some? ==> g[p].parent.value in g
      invariant stack + DirtyChain(g, p)[1..] == DirtyChain(g, x)
      decreases Depth(links, p)
    {
      ParentRooted(links, p);
      CollectStep(g, x, stack, p);
      p := g[p].parent.value;
      stack := stack + [p];
      if g[p].parent.Some? {
        ParentRooted(links, p);
      }
    }
    assert DirtyChain(g, p)[1..] == [];
    if g[p].parent.Some? {
      ParentRooted(links, p);
      base := Absolute(g, g[p].parent.value);
    } else {
      base := Identity();
    }
  }

  /**
    `setClean()`: nothing to do for a clean object. Otherwise the object and
    its ancestors up to the first clean one are collected bottom-up, then
    cleaned top-down, each with its absolute transformation, built from the
    clean parent's absolute transformation (or the identity at a root) by
    composing one local transformation per step.
  */
  method SetClean(g: Graph, x: Id) returns (r: Graph)
    requires WellFormed(g) && x in g
    ensures r.Keys == g.Keys && WellFormed(r)
    ensures !g[x].dirty ==> r == g
    ensures !r[x].dirty
    ensures forall y :: y in g && OnDirtyPath(g, y, x) ==> r[y] == Cleaned(g[y], Absolute(g, y))
    ensures forall y :: y in g && !OnDirtyPath(g, y, x) ==> r[y] == g[y]
    ensures DirtyClosed(g) ==> DirtyClosed(r)
    ensures DirtyClosed(g) ==> forall a :: a in g && InSubtree(g, a, x) ==> !r[a].dirty
  {
    if !g[x].dirty {
      CleanPathEmpty(g, x);
      if DirtyClosed(g) {
        CleanAncestors(g, x);
      }
      return g;
    }
    var stack, base := CollectChain(g, x);
    ChainIsPath(g, x);
    r := CleanDown(g, stack, base);
    FromChain(g, x, stack, base, r);
    SetCleanPost(g, x, r);
  }

  /**
    The transformation the downward loop of `setClean()` hands to `stack[j]`:
    `base` composed with the local transformations from the top of the stack
    down to `stack[j]`.
  */
  function Accumulated(g: Graph, stack: seq<Id>, base: Transform, j: nat): Transform
    requires (forall k :: 0 <= k < |stack| ==> stack[k] in g) && j < |stack|
    decreases |stack| - j
  {
    var below := if j + 1 == |stack| then base else Accumulated(g, stack, base, j + 1);
    Compose(below, g[stack[j]].local)
  }

  /**
    The graph after the downward loop of `setClean()` has cleaned
    `stack[i..]`, each entry with the transformation handed to it.
  */
  ghost function CleanedFrom(g: Graph, stack: seq<Id>, base: Transform, i: nat): Graph
    requires (forall k :: 0 <= k < |stack| ==> stack[k] in g) && i <= |stack|
    decreases |stack| - i
  {
    if i == |stack| then g
    else CleanedFrom(g, stack, base, i + 1)[stack[i] := Cleaned(g[stack[i]], Accumulated(g, stack, base, i))]
  }

  /** Cleaning `stack[i..]` cleans each of those objects with its accumulated transformation. */
  lemma {:induction false} CleanedFromAt(g: Graph, stack: seq<Id>, base: Transform, i: nat)
    requires (forall k :: 0 <= k < |stack| ==> stack[k] in g) && i <= |stack|
    requires forall j, k :: 0 <= j < k < |stack| ==> stack[j] != stack[k]
    ensures CleanedFrom(g, stack, base, i).Keys == g.Keys
    ensures forall j :: i <= j < |stack| ==>
      CleanedFrom(g, stack, base, i)[stack[j]] == Cleaned(g[stack[j]], Accumulated(g, stack, base, j))
    decreases |stack| - i
  {
    if i < |stack| {
      CleanedFromAt(g, stack, base, i + 1);
      forall j | i < j < |stack|
        ensures stack[j] != stack[i]
      {
      }
    }
  }

  /** An object outside `stack[i..]` is untouched by cleaning `stack[i..]`. */
  lemma {:induction false} CleanedFromOutside(g: Graph, stack: seq<Id>, base: Transform, i: nat, y: Id)
    requires (forall k :: 0 <= k < |stack| ==> stack[k] in g) && i <= |stack|
    requires y in g && y !in stack[i..]
    ensures y in CleanedFrom(g, stack, base, i) && CleanedFrom(g, stack, base, i)[y] == g[y]
    decreases |stack| - i
  {
    if i < |stack| {
      assert stack[i..] == [stack[i]] + stack[i + 1..];
      CleanedFromOutside(g, stack, base, i + 1, y);
    }
  }

  /** The downward loop of `setClean()`, from the top of the collected chain. */
  method CleanDown(g: Graph, stack: seq<Id>, base: Transform) returns (r: Graph)
    requires forall k :: 0 <= k < |stack| ==> stack[k] in g
    requires forall j, k :: 0 <= j < k < |stack| ==> stack[j] != stack[k]
    ensures r.Keys == g.Keys
    ensures forall j :: 0 <= j < |stack| ==> r[stack[j]] == Cleaned(g[stack[j]], Accumulated(g, stack, base, j))
    ensures forall y :: y in g && y !in stack ==> r[y] == g[y]
  {
    r := g;
    var acc := base;
    var i := |stack|;
    while i > 0
      invariant 0 <= i <= |stack|
      invariant acc == if i == |stack| then base else Accumulated(g, stack, base, i)
      invariant r == CleanedFrom(g, stack, base, i)
    {
      var o := stack[i - 1];
      SuffixCons(stack, i - 1);
      CleanedFromOutside(g, stack, base, i, o);
      acc := Compose(acc, r[o].local);
      var cleaned, _, _ := CleanNode(r[o], acc);
      assert cleaned == Cleaned(g[o], Accumulated(g, stack, base, i - 1));
      r := r[o := cleaned];
      i := i - 1;
    }
    CleanedFromAt(g, stack, base, 0);
    assert stack[0..] == stack;
    forall y | y in g && y !in stack
      ensures r[y] == g[y]
    {
      CleanedFromOutside(g, stack, base, 0, y);
    }
  }

  lemma {:induction false} SuffixCons(s: seq<Id>, i: nat)
    requires i < |s|
    requires forall j, k :: 0 <= j < k < |s| ==> s[j] != s[k]
    ensures forall y :: y in s[i..] <==> y == s[i] || y in s[i + 1..]
    ensures s[i] !in s[i + 1..]
  {
    assert s[i..] == [s[i]] + s[i + 1..];
  }

  /**
    Along a dirty chain, handing the topmost entry what its absolute
    transformation is built on makes every entry receive its own absolute
    transformation.
  */
  lemma {:induction false} AccumulatedIsAbsolute(g: Graph, stack: seq<Id>, base: Transform, j: nat)
    requires WellFormed(g) && UpwardPath(g, stack) && j < |stack|
    requires base == BaseBelow(g, stack[|stack| - 1])
    ensures Accumulated(g, stack, base, j) == Absolute(g, stack[j])
    decreases |stack| - j
  {
    AbsoluteStep(g, stack[j]);
    if j + 1 < |stack| {
      AccumulatedIsAbsolute(g, stack, base, j + 1);
    }
  }

  /** The cleaned chain is the dirty path from `x`. */
  lemma {:induction false} FromChain(g: Graph, x: Id, stack: seq<Id>, base: Transform, r: Graph)
    requires WellFormed(g) && x in g && stack == DirtyChain(g, x) && UpwardPath(g, stack)
    requires |stack| > 0 && base == BaseBelow(g, stack[|stack| - 1]) && r.Keys == g.Keys
    requires forall j :: 0 <= j < |stack| ==> r[stack[j]] == Cleaned(g[stack[j]], Accumulated(g, stack, base, j))
    requires forall y :: y in g && y !in stack ==> r[y] == g[y]
    ensures forall y :: y in g && OnDirtyPath(g, y, x) ==> r[y] == Cleaned(g[y], Absolute(g, y))
    ensures forall y :: y in g && !OnDirtyPath(g, y, x) ==> r[y] == g[y]
  {
    ChainMembers(g, x);
    forall y | y in g && OnDirtyPath(g, y, x)
      ensures r[y] == Cleaned(g[y], Absolute(g, y))
    {
      var j :| 0 <= j < |stack| && stack[j] == y;
      AccumulatedIsAbsolute(g, stack, base, j);
    }
  }

  /** A clean object has an empty dirty path. */
  lemma {:induction false} CleanPathEmpty(g: Graph, x: Id)
    requires WellFormed(g) && x in g && !g[x].dirty
    ensures forall y :: y in g ==> !OnDirtyPath(g, y, x)
  {
    forall y | y in g
      ensures !OnDirtyPath(g, y, x)
    {
      assert InSubtree(g, x, x);
    }
  }

  /** Under the dirty invariant, the ancestors of a clean object are clean. */
  lemma {:induction false} CleanAncestors(g: Graph, x: Id)
    requires WellFormed(g) && x in g && !g[x].dirty && DirtyClosed(g)
    ensures forall a :: a in g && InSubtree(g, a, x) ==> !g[a].dirty
  {
    forall a | a in g && InSubtree(g, a, x)
      ensures !g[a].dirty
    {
      if g[a].dirty {
        DirtyBelow(g, {}, a, x);
      }
    }
  }

  /** What cleaning the dirty path from `x` leaves behind. */
  lemma {:induction false} SetCleanPost(g: Graph, x: Id, r: Graph)
    requires WellFormed(g) && x in g && g[x].dirty && r.Keys == g.Keys
    requires forall y :: y in g && OnDirtyPath(g, y, x) ==> r[y] == Cleaned(g[y], Absolute(g, y))
    requires forall y :: y in g && !OnDirtyPath(g, y, x) ==> r[y] == g[y]
    ensures WellFormed(r) && !r[x].dirty
    ensures DirtyClosed(g) ==> DirtyClosed(r)
    ensures DirtyClosed(g) ==> forall a :: a in g && InSubtree(g, a, x) ==> !r[a].dirty
  {
    CleanShape(g, x, r);
    OnDirtyPathSelf(g, x);
    if DirtyClosed(g) {
      CleanKeepsClosed(g, x, r);
      CleanClearsAncestors(g, x, r);
    }
  }

  lemma {:induction false} CleanShape(g: Graph, x: Id, r: Graph)
    requires WellFormed(g) && x in g && r.Keys == g.Keys
    requires forall y :: y in g && OnDirtyPath(g, y, x) ==> r[y] == Cleaned(g[y], Absolute(g, y))
    requires forall y :: y in g && !OnDirtyPath(g, y, x) ==> r[y] == g[y]
    ensures SameShape(g, r) && WellFormed(r)
  {
    forall y | y in g
      ensures Shape(r[y]) == Shape(g[y])
    {
      if OnDirtyPath(g, y, x) {
        CleanedState(g[y], Absolute(g, y));
      }
    }
    SameShapeKeeps(g, r);
  }

  /** The parent of an object on the dirty path, when dirty, is on the path too. */
  lemma {:induction false} DirtyParentOnPath(g: Graph, x: Id, c: Id)
    requires WellFormed(g) && c in g && OnDirtyPath(g, c, x) && g[c].parent.Some?
    requires g[c].parent.value in g && g[g[c].parent.value].dirty
    ensures OnDirtyPath(g, g[c].parent.value, x)
  {
    var q := g[c].parent.value;
    var links := Parents(g);
    ParentAbove(g, c);
    AboveTransitive(links, q, c, x);
    forall z | z in g && InSubtree(g, q, z) && InSubtree(g, z, x)
      ensures g[z].dirty
    {
      AboveTotal(links, z, c, x);
      if InSubtree(g, z, c) && z != c {
        AboveStep(g, z, c);
        SubtreeAntisymmetric(g, q, z);
      }
    }
  }

  lemma {:induction false} CleanKeepsClosed(g: Graph, x: Id, r: Graph)
    requires WellFormed(g) && x in g && r.Keys == g.Keys && DirtyClosed(g)
    requires forall y :: y in g && OnDirtyPath(g, y, x) ==> r[y] == Cleaned(g[y], Absolute(g, y))
    requires forall y :: y in g && !OnDirtyPath(g, y, x) ==> r[y] == g[y]
    ensures DirtyClosed(r)
  {
    forall c | c in r && r[c].parent.Some? && r[c].parent.value in r && r[r[c].parent.value].dirty
      ensures r[c].dirty
    {
      var q := r[c].parent.value;
      CleanedState(g[q], Absolute(g, q));
      assert !OnDirtyPath(g, q, x);
      if OnDirtyPath(g, c, x) {
        CleanedState(g[c], Absolute(g, c));
        DirtyParentOnPath(g, x, c);
      }
    }
  }

  lemma {:induction false} CleanClearsAncestors(g: Graph, x: Id, r: Graph)
    requires WellFormed(g) && x in g && r.Keys == g.Keys && DirtyClosed(g)
    requires forall y :: y in g && OnDirtyPath(g, y, x) ==> r[y] == Cleaned(g[y], Absolute(g, y))
    requires forall y :: y in g && !OnDirtyPath(g, y, x) ==> r[y] == g[y]
    ensures forall a :: a in g && InSubtree(g, a, x) ==> !r[a].dirty
  {
    forall a | a in g && InSubtree(g, a, x)
      ensures !r[a].dirty
    {
      if OnDirtyPath(g, a, x) {
        CleanedState(g[a], Absolute(g, a));
      } else if g[a].dirty {
        var z :| z in g && InSubtree(g, a, z) && InSubtree(g, z, x) && !g[z].dirty;
        DirtyBelow(g, {}, a, z);
      }
    }
  }
}
