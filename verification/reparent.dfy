/**
  `setParent()` of `Object`: moving an object, with its whole subtree, under a
  new parent (or out of the tree), refusing moves that would create a cycle.
*/
module Reparent {
  import opened Wrappers
  import opened Tree
  import opened Objects
  import opened Hierarchy

  /** `s` with `x` cut out and the other entries kept in order. */
  function Without(s: seq<Id>, x: Id): (r: seq<Id>)
    ensures forall y :: y in r <==> y in s && y != x
    ensures |r| <= |s|
    ensures x !in s ==> r == s
  {
    if s == [] then []
    else if s[0] == x then Without(s[1..], x)
    else [s[0]] + Without(s[1..], x)
  }

  lemma {:induction false} WithoutUnique(s: seq<Id>, x: Id)
    requires NoDuplicates(s)
    ensures NoDuplicates(Without(s, x))
  {
    if s != [] {
      assert NoDuplicates(s[1..]);
      WithoutUnique(s[1..], x);
      if s[0] != x {
        assert s[0] !in s[1..];
        ConsUnique(s[0], Without(s[1..], x));
      }
    }
  }

  lemma {:induction false} ConsUnique(a: Id, s: seq<Id>)
    requires NoDuplicates(s) && a !in s
    ensures NoDuplicates([a] + s)
  {
    var t := [a] + s;
    forall i, j | 0 <= i < j < |t|
      ensures t[i] != t[j]
    {
      if i > 0 {
        assert t[i] == s[i - 1] && t[j] == s[j - 1];
      } else {
        assert t[j] == s[j - 1];
      }
    }
  }

  /**
    The children-list surgery of `setParent()`: `x` is cut from the list of
    its old parent, appended to the list of `np`, and its parent link is set
    to `np`. Nothing else changes.
  */
  function Relink(g: Graph, x: Id, np: Option<Id>): (r: Graph)
    requires x in g && np != g[x].parent
    ensures r.Keys == g.Keys
    ensures r[x].parent == np
  {
    map y | y in g ::
      var cut := if Some(y) == g[x].parent then Without(g[y].children, x) else g[y].children;
      g[y].(parent := if y == x then np else g[y].parent,
            children := if Some(y) == np then cut + [x] else cut)
  }

  /**
    What `Relink` does to one object `y`: only the moved object's parent link
    changes; the old parent loses `x`, the new parent gains `x` at the end,
    and every other children list and every flag stays as it was.
  */
  lemma {:induction false} RelinkAt(g: Graph, x: Id, np: Option<Id>, y: Id)
    requires x in g && np != g[x].parent && y in g
    ensures y != x ==> Relink(g, x, np)[y].parent == g[y].parent
    ensures Some(y) == g[x].parent ==> Relink(g, x, np)[y].children == Without(g[y].children, x)
    ensures Some(y) == np ==> Relink(g, x, np)[y].children == g[y].children + [x]
    ensures Some(y) != g[x].parent && Some(y) != np ==> Relink(g, x, np)[y].children == g[y].children
    ensures Relink(g, x, np)[y] == g[y].(parent := Relink(g, x, np)[y].parent, children := Relink(g, x, np)[y].children)
  {
  }

  /** `setParent()` goes ahead: `x` is no scene and `np` is outside the subtree of `x`. */
  ghost predicate MayMove(g: Graph, x: Id, np: Option<Id>)
    requires WellFormed(g) && x in g
  {
    && np != g[x].parent
    && !g[x].isScene
    && (np.Some? ==> np.value in g && !InSubtree(g, x, np.value))
  }

  lemma {:induction false} RelinkParents(g: Graph, x: Id, np: Option<Id>)
    requires x in g && np != g[x].parent
    ensures Parents(Relink(g, x, np)) == Parents(g)[x := np]
  {
    forall y | y in g {
      RelinkAt(g, x, np, y);
    }
  }

  lemma {:induction false} RelinkAcyclicHere(g: Graph, x: Id, np: Option<Id>)
    requires WellFormed(g) && x in g && MayMove(g, x, np)
    ensures Acyclic(Parents(Relink(g, x, np)))
  {
    RelinkParents(g, x, np);
    RelinkAcyclic(Parents(g), x, np);
  }

  lemma {:induction false} RelinkScenes(g: Graph, x: Id, np: Option<Id>)
    requires ScenesAreRoots(g) && x in g && !g[x].isScene && np != g[x].parent
    ensures ScenesAreRoots(Relink(g, x, np))
  {
    forall y | y in g {
      RelinkAt(g, x, np, y);
    }
  }

  /** A child of `x` is not the object `x` itself. */
  lemma {:induction false} ChildNotSelf(g: Graph, x: Id, c: Id)
    requires WellFormed(g) && x in g && c in g[x].children
    ensures c != x
  {
    ChildLink(g, x, c);
    ParentNotBelowChild(Parents(g), c);
  }

  /** An object is in no children list but its parent's. */
  lemma {:induction false} NotInOtherLists(g: Graph, x: Id, y: Id)
    requires ChildrenHaveParent(g) && x in g && y in g && g[x].parent != Some(y)
    ensures x !in g[y].children
  {
  }

  /** A child listed after the move is `x` under its new parent, or an old child. */
  lemma {:induction false} RelinkChildFrom(g: Graph, x: Id, np: Option<Id>, y: Id, c: Id)
    requires ChildrenHaveParent(g) && x in g && np != g[x].parent && y in g
    requires c in Relink(g, x, np)[y].children
    ensures (c == x && np == Some(y)) || (c != x && c in g[y].children)
  {
    RelinkAt(g, x, np, y);
    if Some(y) != np && Some(y) != g[x].parent {
      NotInOtherLists(g, x, y);
    }
  }

  lemma {:induction false} RelinkChildOf(g: Graph, x: Id, np: Option<Id>, y: Id, c: Id)
    requires ChildrenHaveParent(g) && x in g && np != g[x].parent && y in g
    requires c in Relink(g, x, np)[y].children
    ensures c in g && Relink(g, x, np)[c].parent == Some(y)
  {
    RelinkChildFrom(g, x, np, y, c);
    if c != x {
      RelinkAt(g, x, np, c);
    }
  }

  lemma {:induction false} RelinkChildrenHaveParent(g: Graph, x: Id, np: Option<Id>)
    requires ChildrenHaveParent(g) && x in g && np != g[x].parent
    ensures ChildrenHaveParent(Relink(g, x, np))
  {
    var r := Relink(g, x, np);
    forall y, c | y in r && c in r[y].children
      ensures c in r && r[c].parent == Some(y)
    {
      RelinkChildOf(g, x, np, y, c);
    }
  }

  lemma {:induction false} RelinkParentOf(g: Graph, x: Id, np: Option<Id>, c: Id, p: Id)
    requires ParentsHaveChild(g) && x in g && np != g[x].parent && c in g && p in g
    requires Relink(g, x, np)[c].parent == Some(p)
    ensures c in Relink(g, x, np)[p].children
  {
    RelinkAt(g, x, np, c);
    RelinkAt(g, x, np, p);
    if c != x {
      assert c in g[p].children;
    }
  }

  lemma {:induction false} RelinkParentsHaveChild(g: Graph, x: Id, np: Option<Id>)
    requires ParentsHaveChild(g) && x in g && np != g[x].parent
    ensures ParentsHaveChild(Relink(g, x, np))
  {
    var r := Relink(g, x, np);
    forall c | c in r && r[c].parent.Some? && r[c].parent.value in r
      ensures c in r[r[c].parent.value].children
    {
      RelinkParentOf(g, x, np, c, r[c].parent.value);
    }
  }

  lemma {:induction false} AppendFresh(s: seq<Id>, x: Id)
    requires NoDuplicates(s) && x !in s
    ensures NoDuplicates(s + [x])
  {
  }

  lemma {:induction false} RelinkUniqueAt(g: Graph, x: Id, np: Option<Id>, y: Id)
    requires ChildrenHaveParent(g) && ChildrenUnique(g) && x in g && np != g[x].parent && y in g
    ensures NoDuplicates(Relink(g, x, np)[y].children)
  {
    RelinkAt(g, x, np, y);
    assert NoDuplicates(g[y].children);
    if Some(y) == g[x].parent {
      WithoutUnique(g[y].children, x);
    } else if Some(y) == np {
      NotInOtherLists(g, x, y);
      AppendFresh(g[y].children, x);
    }
  }

  lemma {:induction false} RelinkChildrenUnique(g: Graph, x: Id, np: Option<Id>)
    requires ChildrenHaveParent(g) && ChildrenUnique(g) && x in g && np != g[x].parent
    ensures ChildrenUnique(Relink(g, x, np))
  {
    forall y | y in g
      ensures NoDuplicates(Relink(g, x, np)[y].children)
    {
      RelinkUniqueAt(g, x, np, y);
    }
  }

  lemma {:induction false} RelinkWellFormed(g: Graph, x: Id, np: Option<Id>)
    requires WellFormed(g) && x in g && MayMove(g, x, np)
    ensures WellFormed(Relink(g, x, np))
  {
    RelinkAcyclicHere(g, x, np);
    RelinkScenes(g, x, np);
    RelinkChildrenHaveParent(g, x, np);
    RelinkParentsHaveChild(g, x, np);
    RelinkChildrenUnique(g, x, np);
  }

  /** The moved subtree is the subtree `x` had before the move. */
  lemma {:induction false} RelinkSameSubtree(g: Graph, x: Id, np: Option<Id>)
    requires WellFormed(g) && x in g && MayMove(g, x, np)
    ensures WellFormed(Relink(g, x, np))
    ensures forall y :: InSubtree(Relink(g, x, np), x, y) <==> InSubtree(g, x, y)
  {
    RelinkWellFormed(g, x, np);
    RelinkParents(g, x, np);
    forall y
      ensures InSubtree(Relink(g, x, np), x, y) <==> InSubtree(g, x, y)
    {
      RelinkSubtree(Parents(g), x, np, y);
    }
  }

  /** Only the moved object's parent changes, so the dirty invariant holds everywhere else. */
  lemma {:induction false} RelinkDirtyClosed(g: Graph, x: Id, np: Option<Id>)
    requires x in g && np != g[x].parent
    requires DirtyClosed(g)
    ensures DirtyClosedExcept(Relink(g, x, np), {} + {x})
  {
    var r := Relink(g, x, np);
    forall c | c in r && c !in {x} && r[c].parent.Some? && r[c].parent.value in r && r[r[c].parent.value].dirty
      ensures r[c].dirty
    {
      RelinkAt(g, x, np, c);
      RelinkAt(g, x, np, r[c].parent.value);
    }
  }

  /** The parent walk of `setParent()`: does it meet `x` on the way up from `np`? */
  method WalkMeets(g: Graph, x: Id, np: Option<Id>) returns (meets: bool)
    requires WellFormed(g) && x in g && (np.Some? ==> np.value in g)
    ensures meets <==> np.Some? && InSubtree(g, x, np.value)
  {
    var links := Parents(g);
    var p := np;
    while p.Some?
      invariant p.Some? ==> p.value in g
      invariant np.Some? && InSubtree(g, x, np.value) <==> p.Some? && InSubtree(g, x, p.value)
      decreases if p.Some? then Depth(links, p.value) + 1 else 0
    {
      if p.value == x {
        return true;
      }
      if g[p.value].parent.Some? {
        ParentRooted(links, p.value);
      }
      p := g[p.value].parent;
    }
    return false;
  }

  /**
    Under the tree invariant, the children lists after a move hold exactly
    the old children minus `x`, plus `x` in the list of its new parent.
  */
  lemma {:induction false} RelinkMembership(g: Graph, x: Id, np: Option<Id>)
    requires ChildrenHaveParent(g) && x in g && np != g[x].parent
    ensures forall y, c :: y in g ==>
      (c in Relink(g, x, np)[y].children <==> (c in g[y].children && c != x) || (c == x && np == Some(y)))
  {
    var r := Relink(g, x, np);
    forall y, c | y in g
      ensures c in r[y].children <==> (c in g[y].children && c != x) || (c == x && np == Some(y))
    {
      RelinkAt(g, x, np, y);
      if g[x].parent != Some(y) {
        NotInOtherLists(g, x, y);
      }
    }
  }

  /** After the move the parent link of `x` is `np`, so the heap did change. */
  lemma {:induction false} MovedDiffers(g: Graph, x: Id, np: Option<Id>, moved: Graph, r: Graph)
    requires x in g && np != g[x].parent && moved == Relink(g, x, np) && DirtyStep(moved, r)
    ensures r.Keys == g.Keys && r[x].parent == np && r != g
  {
    DirtyStepShape(moved, r);
    assert Shape(r[x]) == Shape(moved[x]);
  }

  /** The children lists after dirtying are those right after the move. */
  lemma {:induction false} DirtiedMembership(g: Graph, x: Id, np: Option<Id>, moved: Graph, r: Graph)
    requires ChildrenHaveParent(g) && x in g && np != g[x].parent && moved == Relink(g, x, np)
    requires DirtyStep(moved, r)
    ensures forall y, c :: y in g ==>
      (c in r[y].children <==> (c in g[y].children && c != x) || (c == x && np == Some(y)))
  {
    RelinkMembership(g, x, np);
    DirtyStepShape(moved, r);
    forall y | y in g
      ensures r[y].children == moved[y].children
    {
      assert Shape(r[y]) == Shape(moved[y]);
    }
  }

  /** What `setParent()` leaves behind once it has moved `x` and dirtied its subtree. */
  lemma {:induction false} SetParentPost(g: Graph, x: Id, np: Option<Id>, moved: Graph, r: Graph)
    requires WellFormed(g) && x in g && MayMove(g, x, np) && moved == Relink(g, x, np)
    requires WellFormed(moved) && forall y :: InSubtree(moved, x, y) <==> InSubtree(g, x, y)
    // what the dirtying call promises
    requires DirtyStep(moved, r) && WellFormed(r)
    requires forall y :: y in moved && !InSubtree(moved, x, y) ==> r[y] == moved[y]
    requires DirtyClosedExcept(moved, {} + {x}) ==> DirtyClosedExcept(r, {}) && SubtreeDirty(r, x)
    ensures r.Keys == g.Keys && r != g && r[x].parent == np
    ensures forall y, c :: y in g ==>
      (c in r[y].children <==> (c in g[y].children && c != x) || (c == x && np == Some(y)))
    ensures forall y :: y in g && !InSubtree(g, x, y) ==> r[y] == moved[y]
    ensures DirtyClosed(g) ==> DirtyClosed(r) && SubtreeDirty(r, x)
  {
    MovedDiffers(g, x, np, moved, r);
    DirtiedMembership(g, x, np, moved, r);
    if DirtyClosed(g) {
      RelinkDirtyClosed(g, x, np);
    }
  }

  /**
    `setParent()`: nothing happens when `np` already is the parent, when `x`
    is a scene, or when `np` lies in the subtree of `x`. Otherwise `x` is
    moved to the end of the children of `np` and its subtree is dirtied.
  */
  method SetParent(g: Graph, x: Id, np: Option<Id>) returns (r: Graph)
    requires WellFormed(g) && x in g && (np.Some? ==> np.value in g)
    ensures WellFormed(r) && r.Keys == g.Keys
    ensures r == g <==> !MayMove(g, x, np)
    ensures r != g ==> r[x].parent == np
    ensures r != g ==> forall y, c :: y in g ==>
      (c in r[y].children <==> (c in g[y].children && c != x) || (c == x && np == Some(y)))
    ensures r != g ==> DirtyStep(Relink(g, x, np), r)
    ensures r != g ==> forall y :: y in g && !InSubtree(g, x, y) ==> r[y] == Relink(g, x, np)[y]
    ensures r != g ==> r[x].dirty
    ensures DirtyClosed(g) ==> DirtyClosed(r) && (r != g ==> SubtreeDirty(r, x))
  {
    if g[x].parent == np || g[x].isScene {
      return g;
    }
    var meets := WalkMeets(g, x, np);
    if meets {
      return g;
    }
    var moved := Relink(g, x, np);
    RelinkSameSubtree(g, x, np);
    r := SetDirty(moved, x, {});
    SetParentPost(g, x, np, moved, r);
  }
}
