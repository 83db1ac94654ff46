/**
  Parent links of a forest of scene-graph objects, and the ancestor relation
  they induce. A link map sends every object to its parent, or to `None` when
  the object is a root. Acyclicity is stated as "every parent walk reaches a
  root", and the depth of an object is the length of that walk.
*/
module Tree {
  import opened Wrappers

  /** Identity of an object (its address in the original program). */
  type Id = nat

  type Links = map<Id, Option<Id>>

  /** Number of parent steps from `x` to its root, if the walk ends within `fuel` steps. */
  function Distance(links: Links, x: Id, fuel: nat): Option<nat>
    decreases fuel
  {
    if x !in links then None
    else match links[x]
      case None => Some(0)
      case Some(p) =>
        if fuel == 0 then None
        else match Distance(links, p, fuel - 1)
          case None => None
          case Some(d) => Some(d + 1)
  }

  /** The parent walk from `x` ends at a root. */
  ghost predicate Rooted(links: Links, x: Id) {
    exists fuel: nat :: Distance(links, x, fuel).Some?
  }

  /** No object is its own ancestor and no parent link dangles. */
  ghost predicate Acyclic(links: Links) {
    forall x :: x in links ==> Rooted(links, x)
  }

  ghost function Depth(links: Links, x: Id): nat
    requires Rooted(links, x)
  {
    var fuel: nat :| Distance(links, x, fuel).Some?; Distance(links, x, fuel).value
  }

  lemma {:induction false} DistanceStable(links: Links, x: Id, fuel: nat, fuel': nat)
    requires fuel <= fuel' && Distance(links, x, fuel).Some?
    ensures Distance(links, x, fuel') == Distance(links, x, fuel)
    decreases fuel
  {
    match links[x]
    case None =>
    case Some(p) => DistanceStable(links, p, fuel - 1, fuel' - 1);
  }

  lemma {:induction false} DepthFromFuel(links: Links, x: Id, fuel: nat)
    requires Distance(links, x, fuel).Some?
    ensures Rooted(links, x) && Depth(links, x) == Distance(links, x, fuel).value
  {
    forall other: nat | Distance(links, x, other).Some?
      ensures Distance(links, x, other) == Distance(links, x, fuel)
    {
      if other <= fuel {
        DistanceStable(links, x, other, fuel);
      } else {
        DistanceStable(links, x, fuel, other);
      }
    }
  }

  lemma {:induction false} RootedIn(links: Links, x: Id)
    requires Rooted(links, x)
    ensures x in links
  {
    var fuel: nat :| Distance(links, x, fuel).Some?;
  }

  lemma {:induction false} ParentRooted(links: Links, x: Id)
    requires x in links && Rooted(links, x) && links[x].Some?
    ensures links[x].value in links && Rooted(links, links[x].value)
    ensures Depth(links, links[x].value) + 1 == Depth(links, x)
  {
    var fuel: nat :| Distance(links, x, fuel).Some?;
    DepthFromFuel(links, x, fuel);
    DepthFromFuel(links, links[x].value, fuel - 1);
  }

  lemma {:induction false} ChildRooted(links: Links, x: Id)
    requires x in links && links[x].Some? && Rooted(links, links[x].value)
    ensures Rooted(links, x) && Depth(links, x) == Depth(links, links[x].value) + 1
  {
    var p := links[x].value;
    var fuel: nat :| Distance(links, p, fuel).Some?;
    DepthFromFuel(links, p, fuel);
    DepthFromFuel(links, x, fuel + 1);
  }

  lemma {:induction false} RootRooted(links: Links, x: Id)
    requires x in links && links[x].None?
    ensures Rooted(links, x) && Depth(links, x) == 0
  {
    DepthFromFuel(links, x, 0);
  }

  /** `a` is `y` itself or an ancestor of `y`: `y` lies in the subtree of `a`. */
  ghost predicate Above(links: Links, a: Id, y: Id)
    requires Acyclic(links)
    decreases if y in links then Depth(links, y) else 0
  {
    && y in links
    && (y == a || (links[y].Some? && (ParentRooted(links, y); Above(links, a, links[y].value))))
  }

  lemma {:induction false} AboveDepth(links: Links, a: Id, y: Id)
    requires Acyclic(links) && Above(links, a, y)
    ensures a in links && Depth(links, a) <= Depth(links, y)
    ensures a != y ==> Depth(links, a) < Depth(links, y)
    decreases Depth(links, y)
  {
    if y != a {
      ParentRooted(links, y);
      AboveDepth(links, a, links[y].value);
    }
  }

  lemma {:induction false} AboveTransitive(links: Links, a: Id, b: Id, y: Id)
    requires Acyclic(links) && Above(links, a, b) && Above(links, b, y)
    ensures Above(links, a, y)
    decreases Depth(links, y)
  {
    if y != b && y != a {
      ParentRooted(links, y);
      AboveTransitive(links, a, b, links[y].value);
    }
  }

  /** The subtree of a child lies inside the subtree of its parent. */
  lemma {:induction false} AboveThroughParent(links: Links, c: Id, y: Id)
    requires Acyclic(links) && c in links && links[c].Some? && Above(links, c, y)
    ensures Above(links, links[c].value, y)
  {
    var x := links[c].value;
    ParentRooted(links, c);
    assert Above(links, x, x);
    assert Above(links, x, c);
    AboveTransitive(links, x, c, y);
  }

  /** A parent never lies in the subtree of its child. */
  lemma {:induction false} ParentNotBelowChild(links: Links, c: Id)
    requires Acyclic(links) && c in links && links[c].Some?
    ensures !Above(links, c, links[c].value)
  {
    ParentRooted(links, c);
    if Above(links, c, links[c].value) {
      AboveDepth(links, c, links[c].value);
    }
  }

  lemma {:induction false} SubsetSize(a: set<Id>, b: set<Id>)
    requires a <= b
    ensures |a| <= |b|
  {
    assert b == a + (b - a);
  }

  /** `y` and its ancestors. */
  ghost function Ancestors(links: Links, y: Id): set<Id>
    requires Acyclic(links)
  {
    set a | a in links && Above(links, a, y)
  }

  /** An object has exactly one more ancestor-or-self than its depth. */
  lemma {:induction false} AncestorCount(links: Links, y: Id)
    requires Acyclic(links) && y in links
    ensures |Ancestors(links, y)| == Depth(links, y) + 1
    decreases Depth(links, y)
  {
    if links[y].None? {
      RootRooted(links, y);
      assert Ancestors(links, y) == {y};
    } else {
      var p := links[y].value;
      ParentRooted(links, y);
      AncestorCount(links, p);
      ParentNotBelowChild(links, y);
      assert Ancestors(links, y) == Ancestors(links, p) + {y};
    }
  }

  /** The depth of an object is below the number of objects. */
  lemma {:induction false} DepthBound(links: Links, y: Id)
    requires Acyclic(links) && y in links
    ensures Depth(links, y) < |links|
  {
    AncestorCount(links, y);
    SubsetSize(Ancestors(links, y), links.Keys);
  }

  /** A proper descendant of `x` is reached through one of the children of `x`. */
  lemma {:induction false} ChildOnPath(links: Links, x: Id, y: Id) returns (c: Id)
    requires Acyclic(links) && Above(links, x, y) && y != x
    ensures c in links && links[c] == Some(x) && Above(links, c, y)
    decreases Depth(links, y)
  {
    ParentRooted(links, y);
    var q := links[y].value;
    if q == x {
      c := y;
    } else {
      c := ChildOnPath(links, x, q);
      assert Above(links, q, y);
      AboveTransitive(links, c, q, y);
    }
  }

  /** The ancestors of one object form a chain. */
  lemma {:induction false} AboveTotal(links: Links, a: Id, b: Id, y: Id)
    requires Acyclic(links) && Above(links, a, y) && Above(links, b, y)
    ensures Above(links, a, b) || Above(links, b, a)
    decreases Depth(links, y)
  {
    if y != a && y != b {
      ParentRooted(links, y);
      AboveTotal(links, a, b, links[y].value);
    }
  }

  /** Two ancestors of one object that are both roots are the same object. */
  lemma {:induction false} SameRoot(links: Links, r: Id, s: Id, y: Id)
    requires Acyclic(links) && Above(links, r, y) && Above(links, s, y)
    requires r in links && s in links && links[r].None? && links[s].None?
    ensures r == s
  {
    AboveTotal(links, r, s, y);
  }

  /** `links` with `x` moved under `np`, where `np` is not in the subtree of `x`. */
  ghost predicate CanRelink(links: Links, x: Id, np: Option<Id>) {
    && Acyclic(links)
    && x in links
    && (np.Some? ==> np.value in links && !Above(links, x, np.value))
  }

  lemma {:induction false} RelinkOutside(links: Links, x: Id, np: Option<Id>, y: Id)
    requires CanRelink(links, x, np) && y in links && !Above(links, x, y)
    ensures Rooted(links[x := np], y)
    decreases Depth(links, y)
  {
    var links' := links[x := np];
    if links[y].Some? {
      ParentRooted(links, y);
      RelinkOutside(links, x, np, links[y].value);
      ChildRooted(links', y);
    } else {
      RootRooted(links', y);
    }
  }

  lemma {:induction false} RelinkInside(links: Links, x: Id, np: Option<Id>, y: Id)
    requires CanRelink(links, x, np) && Above(links, x, y)
    ensures Rooted(links[x := np], y)
    decreases Depth(links, y)
  {
    var links' := links[x := np];
    if y == x {
      if np.Some? {
        RelinkOutside(links, x, np, np.value);
        ChildRooted(links', x);
      } else {
        RootRooted(links', x);
      }
    } else {
      ParentRooted(links, y);
      RelinkInside(links, x, np, links[y].value);
      ChildRooted(links', y);
    }
  }

  /** Moving an object out of its own subtree keeps the forest acyclic. */
  lemma {:induction false} RelinkAcyclic(links: Links, x: Id, np: Option<Id>)
    requires CanRelink(links, x, np)
    ensures Acyclic(links[x := np])
  {
    var links' := links[x := np];
    forall y | y in links'
      ensures Rooted(links', y)
    {
      if Above(links, x, y) {
        RelinkInside(links, x, np, y);
      } else {
        RelinkOutside(links, x, np, y);
      }
    }
  }

  /** Moving an object takes its whole subtree along, and nothing else. */
  lemma {:induction false} RelinkSubtree(links: Links, x: Id, np: Option<Id>, y: Id)
    requires CanRelink(links, x, np) && Acyclic(links[x := np])
    ensures Above(links[x := np], x, y) <==> Above(links, x, y)
    decreases if y in links then Depth(links, y) else 0
  {
    var links' := links[x := np];
    if y in links && y != x && links[y].Some? {
      ParentRooted(links, y);
      ParentRooted(links', y);
      RelinkSubtree(links, x, np, links[y].value);
    }
  }
}
