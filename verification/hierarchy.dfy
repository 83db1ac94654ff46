/**
  Tree maintenance and dirty propagation: `sceneObject()`, `setParent()` and
  `setDirty()` of `Object`.
*/
module Hierarchy {
  import opened Wrappers
  import opened Tree
  import opened Objects

  /**
    `sceneObject()`: walks up the parent links from `x` and stops at the first
    scene, or returns null when the root is not a scene.
  */
  method SceneObject(g: Graph, x: Id) returns (s: Option<Id>)
    requires WellFormed(g) && x in g
    ensures s.Some? ==> s.value in g && g[s.value].isScene && InSubtree(g, s.value, x)
    ensures s.None? ==> forall y :: y in g && InSubtree(g, y, x) ==> !g[y].isScene
    ensures g[x].isScene ==> s == Some(x)
  {
    var links := Parents(g);
    s := Some(x);
    while s.Some? && !g[s.value].isScene
      invariant s.Some? ==> s.value in g && InSubtree(g, s.value, x)
      invariant forall y :: y in g && InSubtree(g, y, x) && g[y].isScene ==>
        s.Some? && InSubtree(g, y, s.value)
      decreases if s.Some? then Depth(links, s.value) + 1 else 0
    {
      var p := s.value;
      if g[p].parent.Some? {
        ParentRooted(links, p);
        AboveTransitive(links, g[p].parent.value, p, x);
      }
      s := g[p].parent;
    }
  }

  /** The objects of the subtree of `x` that are still clean. */
  ghost function CleanInSubtree(g: Graph, x: Id): set<Id>
    requires WellFormed(g)
  {
    set y | y in g && InSubtree(g, x, y) && !g[y].dirty
  }

  /** Recursing into a child strictly shrinks the set of clean objects still to visit. */
  lemma {:induction false} ChildShrinksWork(g: Graph, r: Graph, x: Id, c: Id)
    requires WellFormed(g) && WellFormed(r) && DirtyStep(g, r) && Parents(r) == Parents(g)
    requires x in g && !g[x].dirty && c in g && g[c].parent == Some(x)
    ensures CleanInSubtree(r, c) < CleanInSubtree(g, x)
  {
    var links := Parents(g);
    ParentNotBelowChild(links, c);
    forall y | y in CleanInSubtree(r, c)
      ensures y in CleanInSubtree(g, x)
    {
      AboveThroughParent(links, c, y);
    }
    assert x in CleanInSubtree(g, x);
  }

  /** What lies outside the subtree of `x` lies outside the subtree of its child `c`. */
  lemma {:induction false} OutsideChild(g: Graph, x: Id, c: Id, y: Id)
    requires WellFormed(g) && c in g && g[c].parent == Some(x)
    requires !InSubtree(g, x, y)
    ensures !InSubtree(g, c, y)
  {
    if InSubtree(g, c, y) {
      AboveThroughParent(Parents(g), c, y);
    }
  }

  /** The exemptions of the call on `x`, plus `x`, lie outside the subtree of child `c`. */
  lemma {:induction false} ExemptOutsideChild(g: Graph, x: Id, c: Id, exempt: set<Id>)
    requires WellFormed(g) && c in g && g[c].parent == Some(x)
    requires forall e :: e in exempt ==> !InSubtree(g, x, e)
    ensures forall e :: e in exempt + {x} ==> !InSubtree(g, c, e)
  {
    ParentNotBelowChild(Parents(g), c);
    forall e | e in exempt
      ensures !InSubtree(g, c, e)
    {
      OutsideChild(g, x, c, e);
    }
  }

  /** Setting the Dirty flag of `x` once all its children's subtrees are dirty. */
  lemma {:induction false} FinishDirty(g: Graph, r: Graph, x: Id, exempt: set<Id>)
    requires WellFormed(g) && x in g && !g[x].dirty && r == g[x := MarkedDirty(g[x])]
    requires DirtyClosedExcept(g, exempt + {x})
    requires forall c :: c in g[x].children ==> SubtreeDirty(g, c)
    ensures WellFormed(r) && DirtyClosedExcept(r, exempt) && SubtreeDirty(r, x)
  {
    DirtyStepShape(g, r);
    SameShapeKeeps(g, r);
    FinishSubtree(g, r, x);
    FinishClosed(g, r, x, exempt);
  }

  lemma {:induction false} FinishSubtree(g: Graph, r: Graph, x: Id)
    requires WellFormed(g) && WellFormed(r) && Parents(r) == Parents(g)
    requires x in g && r == g[x := MarkedDirty(g[x])]
    requires forall c :: c in g[x].children ==> SubtreeDirty(g, c)
    ensures SubtreeDirty(r, x)
  {
    forall y | y in g && InSubtree(g, x, y)
      ensures r[y].dirty
    {
      if y != x {
        var c := ChildOnPath(Parents(g), x, y);
        ParentLink(g, c);
        assert SubtreeDirty(g, c);
      }
    }
  }

  lemma {:induction false} FinishClosed(g: Graph, r: Graph, x: Id, exempt: set<Id>)
    requires WellFormed(g) && x in g && r == g[x := MarkedDirty(g[x])]
    requires DirtyClosedExcept(g, exempt + {x})
    requires forall c :: c in g[x].children ==> SubtreeDirty(g, c)
    ensures DirtyClosedExcept(r, exempt)
  {
    forall c | c in r && c !in exempt && r[c].parent.Some? && r[c].parent.value in r && r[r[c].parent.value].dirty
      ensures r[c].dirty
    {
      if c != x && r[c].parent.value == x {
        ParentLink(g, c);
        assert SubtreeDirty(g, c);
        assert InSubtree(g, c, c);
      }
    }
  }

  /** The structural facts `setDirty()` promises, given those of its children loop. */
  lemma {:induction false} SetDirtyFinish(g: Graph, m: Graph, r: Graph, x: Id)
    requires WellFormed(g) && x in g && !g[x].dirty
    requires DirtyStep(g, m) && WellFormed(m) && Parents(m) == Parents(g)
    requires m[x] == g[x]
    requires forall y :: y in g && !InSubtree(g, x, y) ==> m[y] == g[y]
    requires r == m[x := MarkedDirty(m[x])]
    ensures DirtyStep(g, r) && WellFormed(r)
    ensures forall y :: y in g && !InSubtree(g, x, y) ==> r[y] == g[y]
  {
    MarkStep(g, m, r, x);
    MarkOutside(g, m, r, x);
  }

  lemma {:induction false} MarkStep(g: Graph, m: Graph, r: Graph, x: Id)
    requires x in g && !g[x].dirty && DirtyStep(g, m) && WellFormed(m)
    requires m[x] == g[x] && r == m[x := MarkedDirty(m[x])]
    ensures DirtyStep(g, r) && WellFormed(r)
  {
    DirtyStepTransitive(g, m, r);
    DirtyStepShape(m, r);
    SameShapeKeeps(m, r);
  }

  lemma {:induction false} MarkOutside(g: Graph, m: Graph, r: Graph, x: Id)
    requires WellFormed(g) && x in g && m.Keys == g.Keys
    requires forall y :: y in g && !InSubtree(g, x, y) ==> m[y] == g[y]
    requires r == m[x := MarkedDirty(m[x])]
    ensures forall y :: y in g && !InSubtree(g, x, y) ==> r[y] == g[y]
  {
    assert InSubtree(g, x, x);
  }

  /** An already dirty object heads a dirty subtree. */
  lemma {:induction false} DirtyAlready(g: Graph, x: Id, exempt: set<Id>)
    requires WellFormed(g) && x in g && g[x].dirty
    ensures DirtyClosedExcept(g, exempt + {x}) && (forall e :: e in exempt ==> !InSubtree(g, x, e)) ==>
      DirtyClosedExcept(g, exempt) && SubtreeDirty(g, x)
  {
    if DirtyClosedExcept(g, exempt + {x}) && (forall e :: e in exempt ==> !InSubtree(g, x, e)) {
      forall y | y in g && InSubtree(g, x, y)
        ensures g[y].dirty
      {
        DirtyBelow(g, exempt + {x}, x, y);
      }
    }
  }

  /**
    `setDirty()`: unless `x` is already dirty, tells every feature of `x` that
    its cache is stale, recursively dirties every child, and finally sets the
    Dirty flag of `x`.

    `exempt` holds the objects whose Dirty flag may lag behind their parent's
    while a recursive call is running (the ancestors of `x` being dirtied);
    callers outside the recursion pass the empty set.
  */
  method SetDirty(g: Graph, x: Id, ghost exempt: set<Id>) returns (r: Graph)
    requires WellFormed(g) && x in g
    ensures DirtyStep(g, r) && WellFormed(r)
    ensures g[x].dirty ==> r == g
    ensures r[x].dirty
    ensures forall y :: y in g && !InSubtree(g, x, y) ==> r[y] == g[y]
    ensures DirtyClosedExcept(g, exempt + {x}) && (forall e :: e in exempt ==> !InSubtree(g, x, e)) ==>
      DirtyClosedExcept(r, exempt) && SubtreeDirty(r, x)
    decreases CleanInSubtree(g, x), 1
  {
    if g[x].dirty {
      DirtyAlready(g, x, exempt);
      return g;
    }
    var m := DirtyChildren(g, x, exempt);
    r := m[x := MarkedDirty(m[x])];
    SetDirtyFinish(g, m, r, x);
    if DirtyClosedExcept(g, exempt + {x}) && (forall e :: e in exempt ==> !InSubtree(g, x, e)) {
      FinishDirty(m, r, x, exempt);
    }
  }

  /** One turn of the children loop of `setDirty()`, dirtying child `c` of `x`. */
  lemma {:induction false} ChildTurn(g: Graph, before: Graph, r: Graph, x: Id, c: Id, exempt: set<Id>, children: seq<Id>, i: nat)
    requires WellFormed(g) && x in g && children == g[x].children && i < |children| && c == children[i]
    requires DirtyStep(g, before) && WellFormed(before) && Parents(before) == Parents(g)
    requires before[x] == g[x]
    requires forall y :: y in g && !InSubtree(g, x, y) ==> before[y] == g[y]
    requires c in g && g[c].parent == Some(x)
    // what the recursive call on c promises
    requires DirtyStep(before, r) && WellFormed(r)
    requires forall y :: y in before && !InSubtree(before, c, y) ==> r[y] == before[y]
    ensures DirtyStep(g, r) && Parents(r) == Parents(g)
    ensures r[x] == g[x]
    ensures forall y :: y in g && !InSubtree(g, x, y) ==> r[y] == g[y]
  {
    DirtyStepTransitive(g, before, r);
    DirtyStepShape(before, r);
    SameShapeKeeps(before, r);
    ParentNotBelowChild(Parents(g), c);
    forall y | y in g && !InSubtree(g, x, y)
      ensures r[y] == g[y]
    {
      OutsideChild(before, x, c, y);
    }
  }

  /** The closure part of one turn of the children loop. */
  lemma {:induction false} ChildTurnClosed(g: Graph, before: Graph, r: Graph, x: Id, exempt: set<Id>, children: seq<Id>, i: nat)
    requires WellFormed(before) && WellFormed(r) && DirtyStep(before, r) && Parents(r) == Parents(before)
    requires i < |children|
    requires forall j :: 0 <= j < i ==> SubtreeDirty(before, children[j])
    requires SubtreeDirty(r, children[i])
    ensures forall j :: 0 <= j < i + 1 ==> SubtreeDirty(r, children[j])
  {
    forall j | 0 <= j < i + 1
      ensures SubtreeDirty(r, children[j])
    {
      if j < i {
        SubtreeDirtyStays(before, r, children[j]);
      }
    }
  }

  /** The loop of `setDirty()` over the children of a clean object `x`. */
  method DirtyChildren(g: Graph, x: Id, ghost exempt: set<Id>) returns (r: Graph)
    requires WellFormed(g) && x in g && !g[x].dirty
    ensures DirtyStep(g, r) && WellFormed(r) && Parents(r) == Parents(g)
    ensures r[x] == g[x]
    ensures forall y :: y in g && !InSubtree(g, x, y) ==> r[y] == g[y]
    ensures DirtyClosedExcept(g, exempt + {x}) && (forall e :: e in exempt ==> !InSubtree(g, x, e)) ==>
      DirtyClosedExcept(r, exempt + {x}) && forall c :: c in g[x].children ==> SubtreeDirty(r, c)
    decreases CleanInSubtree(g, x), 0
  {
    ghost var closed := DirtyClosedExcept(g, exempt + {x}) && (forall e :: e in exempt ==> !InSubtree(g, x, e));
    var children := g[x].children;
    r := g;
    var i := 0;
    while i < |children|
      invariant 0 <= i <= |children|
      invariant DirtyStep(g, r) && WellFormed(r) && Parents(r) == Parents(g)
      invariant r[x] == g[x]
      invariant forall y :: y in g && !InSubtree(g, x, y) ==> r[y] == g[y]
      invariant closed ==> DirtyClosedExcept(r, exempt + {x})
      invariant closed ==> forall j :: 0 <= j < i ==> SubtreeDirty(r, children[j])
    {
      var c := children[i];
      ChildLink(g, x, c);
      ChildShrinksWork(g, r, x, c);
      if closed {
        ExemptOutsideChild(r, x, c, exempt);
      }
      ghost var before := r;
      r := SetDirty(r, c, exempt + {x});
      ChildTurn(g, before, r, x, c, exempt, children, i);
      if closed {
        ChildTurnClosed(g, before, r, x, exempt, children, i);
      }
      i := i + 1;
    }
    if closed {
      forall c | c in children
        ensures SubtreeDirty(r, c)
      {
        var j :| 0 <= j < |children| && children[j] == c;
      }
    }
  }
}
