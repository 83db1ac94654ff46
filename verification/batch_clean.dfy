/**
  `setClean(objects)`: cleans many objects at once. The dirty objects of the
  list are extended with their dirty ancestors, the absolute transformations
  of all of them are computed in one batch by the scene, and each object
  still dirty is then cleaned with its own transformation.
*/
module BatchClean {
  import opened Wrappers
  import opened Transformation
  import opened Tree
  import opened Objects
  import opened Hierarchy
  import opened Cleaning
  import opened Batch

  /** `y` lies on the dirty path from one of `objects`: a batch clean of `objects` must clean it. */
  ghost predicate OnSomeDirtyPath(g: Graph, objects: seq<Id>, y: Id)
    requires WellFormed(g)
  {
    exists k :: 0 <= k < |objects| && OnDirtyPath(g, y, objects[k])
  }

  /** Only a dirty object has a dirty path. */
  lemma {:induction false} DirtyPathStart(g: Graph, y: Id, x: Id)
    requires WellFormed(g) && OnDirtyPath(g, y, x)
    ensures x in g && g[x].dirty
  {
    RootedIn(Parents(g), x);
    assert InSubtree(g, x, x);
  }

  /** The dirty objects of `objects`, in their original order (the `remove_if` step). */
  function DirtyObjects(g: Graph, objects: seq<Id>): (r: seq<Id>)
    requires forall i :: 0 <= i < |objects| ==> objects[i] in g
    ensures forall x :: x in r <==> x in objects && g[x].dirty
    ensures |r| <= |objects|
  {
    if |objects| == 0 then []
    else
      var rest := DirtyObjects(g, objects[..|objects| - 1]);
      var x := objects[|objects| - 1];
      assert forall y :: y in objects <==> y in objects[..|objects| - 1] || y == x;
      if g[x].dirty then rest + [x] else rest
  }

  /** `objects[i]` is the first dirty object of `objects`. */
  ghost predicate FirstDirty(g: Graph, objects: seq<Id>, i: int)
    requires forall k :: 0 <= k < |objects| ==> objects[k] in g
  {
    && 0 <= i < |objects| && g[objects[i]].dirty
    && forall k :: 0 <= k < i ==> !g[objects[k]].dirty
  }

  /** The dirty objects start with the first dirty object. */
  lemma {:induction false} DirtyObjectsHead(g: Graph, objects: seq<Id>) returns (i: nat)
    requires forall k :: 0 <= k < |objects| ==> objects[k] in g
    requires |DirtyObjects(g, objects)| > 0
    ensures FirstDirty(g, objects, i) && DirtyObjects(g, objects)[0] == objects[i]
    decreases |objects|
  {
    var front := objects[..|objects| - 1];
    assert forall k :: 0 <= k < |front| ==> front[k] == objects[k];
    var rest := DirtyObjects(g, front);
    if |rest| > 0 {
      i := DirtyObjectsHead(g, front);
    } else {
      i := |objects| - 1;
      forall k | 0 <= k < i
        ensures !g[objects[k]].dirty
      {
        assert objects[k] == front[k] && front[k] in front;
      }
    }
  }

  /** When some object is dirty, the first dirty object is unique and heads the dirty objects. */
  lemma {:induction false} FirstDirtyIsHead(g: Graph, objects: seq<Id>) returns (first: nat)
    requires forall k :: 0 <= k < |objects| ==> objects[k] in g
    requires |DirtyObjects(g, objects)| > 0
    ensures first < |objects| && DirtyObjects(g, objects)[0] == objects[first]
    ensures forall i :: FirstDirty(g, objects, i) <==> i == first
  {
    first := DirtyObjectsHead(g, objects);
  }

  lemma {:induction false} MulMonotone(a: nat, b: nat, c: nat)
    requires a <= b
    ensures a * c <= b * c
  {
  }

  /** No scene lies above `x`. */
  ghost predicate NoSceneAbove(g: Graph, x: Id)
    requires WellFormed(g)
  {
    forall y :: y in g && InSubtree(g, y, x) ==> !g[y].isScene
  }

  /** `s` is a scene and every dirty object of `objects` lies in its tree. */
  ghost predicate SceneHoldsDirty(g: Graph, objects: seq<Id>, s: Id)
    requires WellFormed(g) && forall k :: 0 <= k < |objects| ==> objects[k] in g
  {
    && s in g && g[s].isScene
    && forall k :: 0 <= k < |objects| && g[objects[k]].dirty ==> InSubtree(g, s, objects[k])
  }

  /** Dropping the clean objects does not change what must be cleaned. */
  lemma {:induction false} DirtyObjectsPaths(g: Graph, objects: seq<Id>, y: Id)
    requires WellFormed(g) && forall i :: 0 <= i < |objects| ==> objects[i] in g
    ensures OnSomeDirtyPath(g, DirtyObjects(g, objects), y) <==> OnSomeDirtyPath(g, objects, y)
  {
    var dirty := DirtyObjects(g, objects);
    if OnSomeDirtyPath(g, objects, y) {
      var k :| 0 <= k < |objects| && OnDirtyPath(g, y, objects[k]);
      DirtyPathStart(g, y, objects[k]);
      assert objects[k] in dirty;
      var j :| 0 <= j < |dirty| && dirty[j] == objects[k];
    }
    if OnSomeDirtyPath(g, dirty, y) {
      var k :| 0 <= k < |dirty| && OnDirtyPath(g, y, dirty[k]);
      assert dirty[k] in objects;
      var j :| 0 <= j < |objects| && objects[j] == dirty[k];
    }
  }

  /** Every object on the dirty path from `x` is in `list`. */
  ghost predicate Covered(g: Graph, list: seq<Id>, x: Id)
    requires WellFormed(g)
  {
    forall y :: y in g && OnDirtyPath(g, y, x) ==> y in list
  }

  /**
    On the dirty path from `o`, an object `y` not below `c` (itself on that
    path) lies strictly above `c`: `c` has a dirty parent and `y` is on the
    dirty path from that parent.
  */
  lemma {:induction false} AbovePathPoint(g: Graph, o: Id, c: Id, y: Id)
    requires WellFormed(g) && OnDirtyPath(g, y, o) && OnDirtyPath(g, c, o) && !InSubtree(g, c, y)
    ensures g[c].parent.Some? && g[c].parent.value in g && g[g[c].parent.value].dirty
    ensures OnDirtyPath(g, y, g[c].parent.value)
  {
    var links := Parents(g);
    AboveTotal(links, y, c, o);
    if g[c].parent.None? {
      RootOnlyAncestor(g, c, y);
    }
    var p := g[c].parent.value;
    AboveStep(g, y, c);
    ParentAbove(g, c);
    AboveTransitive(links, p, c, o);
    forall z | z in g && InSubtree(g, y, z) && InSubtree(g, z, p)
      ensures g[z].dirty
    {
      AboveTransitive(links, z, p, o);
    }
    assert InSubtree(g, p, p);
  }

  /** Every entry of `list` is an object that a batch clean of `objects` must clean. */
  ghost predicate Sound(g: Graph, objects: seq<Id>, list: seq<Id>)
    requires WellFormed(g)
  {
    forall y :: y in list ==> y in g && OnSomeDirtyPath(g, objects, y)
  }

  /**
    The collection loop of `setClean(objects)`: after each dirty object its
    dirty ancestors are appended, walking up until a clean object, a root, or
    an object of `objects` already processed. Only the objects of `objects`
    are marked visited, so an ancestor shared by two of them can be appended
    twice.
  */
  method CollectAncestors(g: Graph, objects: seq<Id>) returns (list: seq<Id>, visited: set<Id>)
    requires WellFormed(g)
    requires forall i :: 0 <= i < |objects| ==> objects[i] in g && g[objects[i]].dirty
    ensures |objects| <= |list| <= |objects| * (|g| + 1) && list[..|objects|] == objects
    ensures Sound(g, objects, list)
    ensures forall k :: 0 <= k < |objects| ==> Covered(g, list, objects[k])
    ensures forall v :: v in visited <==> v in objects
  {
    list, visited := objects, {};
    CollectedStart(g, objects);
    for i := 0 to |objects|
      invariant Collected(g, objects, i, list, visited)
    {
      list, visited := CollectFrom(g, objects, i, list, visited);
    }
    CollectedEnd(g, objects, list, visited);
  }

  /** The state of the collection loop once the first `i` objects are processed. */
  ghost predicate Collected(g: Graph, objects: seq<Id>, i: nat, list: seq<Id>, visited: set<Id>)
    requires WellFormed(g)
  {
    && i <= |objects|
    && (forall k :: 0 <= k < |objects| ==> objects[k] in g && g[objects[k]].dirty)
    && |objects| <= |list| <= |objects| + i * |g| && list[..|objects|] == objects
    && Sound(g, objects, list)
    && (forall k :: 0 <= k < i ==> Covered(g, list, objects[k]))
    && visited == Elements(objects[..i])
  }

  /** The objects of a sequence, as a set. */
  function Elements(s: seq<Id>): (r: set<Id>)
    ensures forall x :: x in r <==> x in s
  {
    set x | x in s
  }

  lemma {:induction false} ElementsExtend(s: seq<Id>, i: nat)
    requires i < |s|
    ensures Elements(s[..i + 1]) == Elements(s[..i]) + {s[i]}
  {
    assert s[..i + 1] == s[..i] + [s[i]];
  }

  lemma {:induction false} CollectedStart(g: Graph, objects: seq<Id>)
    requires WellFormed(g)
    requires forall i :: 0 <= i < |objects| ==> objects[i] in g && g[objects[i]].dirty
    ensures Collected(g, objects, 0, objects, {})
  {
    forall y | y in objects
      ensures y in g && OnSomeDirtyPath(g, objects, y)
    {
      var k :| 0 <= k < |objects| && objects[k] == y;
      OnDirtyPathSelf(g, y);
    }
    assert objects[..0] == [];
    assert objects[..|objects|] == objects;
  }

  lemma {:induction false} CollectedEnd(g: Graph, objects: seq<Id>, list: seq<Id>, visited: set<Id>)
    requires WellFormed(g) && Collected(g, objects, |objects|, list, visited)
    ensures |objects| <= |list| <= |objects| * (|g| + 1) && list[..|objects|] == objects
    ensures Sound(g, objects, list)
    ensures forall k :: 0 <= k < |objects| ==> Covered(g, list, objects[k])
    ensures forall v :: v in visited <==> v in objects
  {
    assert objects[..|objects|] == objects;
    assert |objects| * (|g| + 1) == |objects| + |objects| * |g|;
  }

  /** One round of the collection loop: mark `objects[i]` visited and climb from it. */
  method CollectFrom(g: Graph, objects: seq<Id>, i: nat, list: seq<Id>, visited: set<Id>)
    returns (list': seq<Id>, visited': set<Id>)
    requires WellFormed(g) && i < |objects| && Collected(g, objects, i, list, visited)
    ensures Collected(g, objects, i + 1, list', visited')
  {
    ElementsExtend(objects, i);
    visited' := visited + {objects[i]};
    list' := AppendDirtyAncestors(g, objects, i, list, visited');
    assert (i + 1) * |g| == i * |g| + |g|;
  }

  /** The walk up from `objects[i]`, appending every dirty ancestor not yet collected. */
  method AppendDirtyAncestors(g: Graph, objects: seq<Id>, i: nat, list: seq<Id>, visited: set<Id>)
    returns (list': seq<Id>)
    requires WellFormed(g) && i < |objects|
    requires forall k :: 0 <= k < |objects| ==> objects[k] in g && g[objects[k]].dirty
    requires |objects| <= |list| && list[..|objects|] == objects
    requires Sound(g, objects, list)
    requires forall k :: 0 <= k < i ==> Covered(g, list, objects[k])
    requires forall v :: v in visited ==> v in objects[..i + 1]
    ensures |objects| <= |list'| && list'[..|objects|] == objects && |list'| < |list| + |g|
    ensures Sound(g, objects, list')
    ensures forall k :: 0 <= k <= i ==> Covered(g, list', objects[k])
  {
    var o := objects[i];
    list' := ClimbDirty(g, objects, i, list, visited);
    assert list'[..|objects|] == list[..|objects|];
    SoundExtend(g, objects, i, list, list');
    forall k | 0 <= k < i
      ensures Covered(g, list', objects[k])
    {
      CoveredExtend(g, list, list', objects[k]);
    }
  }

  /**
    The inner loop of the collection: from `objects[i]` up while the parent
    is dirty and not visited. Returns `list` with the ancestors appended; the
    dirty path from `objects[i]` is then covered.
  */
  method ClimbDirty(g: Graph, objects: seq<Id>, i: nat, list: seq<Id>, visited: set<Id>)
    returns (list': seq<Id>)
    requires WellFormed(g) && i < |objects| && |objects| <= |list| && list[i] == objects[i]
    requires objects[i] in g && g[objects[i]].dirty
    requires forall k :: 0 <= k < i ==> Covered(g, list, objects[k])
    requires forall v :: v in visited ==> v in objects[..i + 1]
    ensures list <= list' && |list'| < |list| + |g|
    ensures forall j :: |list| <= j < |list'| ==> list'[j] in g && OnDirtyPath(g, list'[j], objects[i])
    ensures Covered(g, list', objects[i])
  {
    var links := Parents(g);
    var o := objects[i];
    OnDirtyPathSelf(g, o);
    list' := list;
    var c := o;
    forall y | y in g && OnDirtyPath(g, y, o) && InSubtree(g, o, y)
      ensures y in list'
    {
      SubtreeAntisymmetric(g, y, o);
    }
    ParentInGraph(g, c);
    while g[c].parent.Some? && g[c].parent.value !in visited && g[g[c].parent.value].dirty
      invariant list <= list'
      invariant forall j :: |list| <= j < |list'| ==> list'[j] in g && OnDirtyPath(g, list'[j], o)
      invariant c in g && OnDirtyPath(g, c, o)
      invariant |list'| - |list| + Depth(links, c) == Depth(links, o)
      invariant g[c].parent.Some? ==> g[c].parent.value in g
      invariant forall y :: y in g && OnDirtyPath(g, y, o) && InSubtree(g, c, y) ==> y in list'
      decreases Depth(links, c)
    {
      var p := g[c].parent.value;
      ParentRooted(links, c);
      DirtyParentOnPath(g, o, c);
      forall y | y in g && OnDirtyPath(g, y, o) && InSubtree(g, p, y) && y != p
        ensures InSubtree(g, c, y)
      {
        if !InSubtree(g, c, y) {
          AbovePathPoint(g, o, c, y);
          SubtreeAntisymmetric(g, y, p);
        }
      }
      list' := list' + [p];
      c := p;
      ParentInGraph(g, c);
    }
    DepthBound(links, o);
    forall y | y in g && OnDirtyPath(g, y, o)
      ensures y in list'
    {
      if !InSubtree(g, c, y) {
        AbovePathPoint(g, o, c, y);
        var k :| 0 <= k <= i && objects[k] == g[c].parent.value;
        if k == i {
          ParentNotBelowChild(links, c);
        }
        assert Covered(g, list, objects[k]);
        assert y in list;
      }
    }
  }

  lemma {:induction false} SoundExtend(g: Graph, objects: seq<Id>, i: nat, list: seq<Id>, list': seq<Id>)
    requires WellFormed(g) && i < |objects| && Sound(g, objects, list) && list <= list'
    requires forall j :: |list| <= j < |list'| ==> list'[j] in g && OnDirtyPath(g, list'[j], objects[i])
    ensures Sound(g, objects, list')
  {
    forall y | y in list'
      ensures y in g && OnSomeDirtyPath(g, objects, y)
    {
      var j :| 0 <= j < |list'| && list'[j] == y;
      if j < |list| {
        assert y in list;
      }
    }
  }

  lemma {:induction false} CoveredExtend(g: Graph, list: seq<Id>, list': seq<Id>, x: Id)
    requires WellFormed(g) && Covered(g, list, x) && list <= list'
    ensures Covered(g, list', x)
  {
    forall y | y in g && OnDirtyPath(g, y, x)
      ensures y in list'
    {
      var j :| 0 <= j < |list| && list[j] == y;
      assert list'[j] == y;
    }
  }

  /** The "cleanup all marks" loop: unmarks every collected object. */
  method ClearVisited(list: seq<Id>, visited: set<Id>) returns (visited': set<Id>)
    ensures visited' == visited - Elements(list)
  {
    visited' := visited;
    for i := 0 to |list|
      invariant visited' == visited - Elements(list[..i])
    {
      ElementsExtend(list, i);
      visited' := visited' - {list[i]};
    }
    assert list[..|list|] == list;
  }

  /** Every feature of `n` caching a transformation had it pushed exactly once more in `n'`. */
  ghost predicate CleanedOnce(n: Node, n': Node) {
    && |n'.features| == |n.features|
    && (forall i :: 0 <= i < |n.features| && n.features[i].cachesAbsolute ==>
          n'.features[i].cleanCalls == n.features[i].cleanCalls + 1)
    && (forall i :: 0 <= i < |n.features| && n.features[i].cachesInverted ==>
          n'.features[i].invertedCleanCalls == n.features[i].invertedCleanCalls + 1)
  }

  lemma {:induction false} CleanedIsOnce(n: Node, t: Transform)
    ensures !Cleaned(n, t).dirty && CleanedOnce(n, Cleaned(n, t))
  {
    CleanedState(n, t);
  }

  /**
    The cleaning loop: every collected object still dirty is cleaned with its
    entry of `ts`; later occurrences of an object find it clean and skip it.
  */
  method CleanEach(g: Graph, list: seq<Id>, ts: seq<Transform>, ghost target: map<Id, Transform>) returns (r: Graph)
    requires |ts| == |list|
    requires forall i :: 0 <= i < |list| ==> list[i] in g && g[list[i]].dirty
    requires forall i :: 0 <= i < |list| ==> list[i] in target && ts[i] == target[list[i]]
    ensures r.Keys == g.Keys
    ensures forall y :: y in g && y in list ==> r[y] == Cleaned(g[y], target[y])
    ensures forall y :: y in g && y !in list ==> r[y] == g[y]
    ensures forall y :: y in g && y in list ==> !r[y].dirty && CleanedOnce(g[y], r[y])
  {
    r := g;
    for i := 0 to |list|
      invariant r.Keys == g.Keys
      invariant forall y :: y in g && y in Elements(list[..i]) ==> y in target && r[y] == Cleaned(g[y], target[y])
      invariant forall y :: y in g && y !in Elements(list[..i]) ==> r[y] == g[y]
    {
      ElementsExtend(list, i);
      var o := list[i];
      if r[o].dirty {
        var cleaned, conversions, inversions := CleanNode(r[o], ts[i]);
        r := r[o := cleaned];
      }
    }
    assert list[..|list|] == list;
    forall y | y in g && y in list
      ensures !r[y].dirty && CleanedOnce(g[y], r[y])
    {
      CleanedIsOnce(g[y], target[y]);
    }
  }

  /** The collected list holds exactly the objects a batch clean must clean. */
  lemma {:induction false} CollectedExactly(g: Graph, objects: seq<Id>, dirty: seq<Id>, list: seq<Id>, y: Id)
    requires WellFormed(g) && forall i :: 0 <= i < |objects| ==> objects[i] in g
    requires dirty == DirtyObjects(g, objects)
    requires Sound(g, dirty, list) && forall k :: 0 <= k < |dirty| ==> Covered(g, list, dirty[k])
    requires y in g
    ensures y in list <==> OnSomeDirtyPath(g, objects, y)
  {
    DirtyObjectsPaths(g, objects, y);
    if OnSomeDirtyPath(g, dirty, y) {
      var k :| 0 <= k < |dirty| && OnDirtyPath(g, y, dirty[k]);
      assert Covered(g, list, dirty[k]);
    }
  }

  /** Every collected object is dirty. */
  lemma {:induction false} SoundDirty(g: Graph, objects: seq<Id>, list: seq<Id>)
    requires WellFormed(g) && Sound(g, objects, list)
    ensures forall i :: 0 <= i < |list| ==> list[i] in g && g[list[i]].dirty
  {
    forall i | 0 <= i < |list|
      ensures list[i] in g && g[list[i]].dirty
    {
      var y := list[i];
      assert y in list;
      var k :| 0 <= k < |objects| && OnDirtyPath(g, y, objects[k]);
      assert InSubtree(g, y, y);
    }
  }

  /**
    `setClean(objects)`: afterwards every object on the dirty path from one of
    `objects` is clean and its features hold its absolute transformation;
    every other object is untouched. The absolute transformations come from
    one `transformations()` call on the scene of the first dirty object.
  */
  method SetCleanMany(g: Graph, objects: seq<Id>) returns (res: Result<(), BatchError>, r: Graph)
    requires WellFormed(g) && AtBaseline(g)
    requires forall i :: 0 <= i < |objects| ==> objects[i] in g
    ensures res.Success? ==> r.Keys == g.Keys
    ensures res.Success? ==> forall y :: y in g && OnSomeDirtyPath(g, objects, y) ==> r[y] == Cleaned(g[y], Absolute(g, y))
    ensures res.Success? ==> forall y :: y in g && !OnSomeDirtyPath(g, objects, y) ==> r[y] == g[y]
    ensures res.Failure? ==> ScratchOnly(g, r)
    ensures (forall i :: 0 <= i < |objects| ==> !g[objects[i]].dirty) ==> res.Success? && r == g
    ensures res == Failure(NotScene) <==> exists i :: FirstDirty(g, objects, i) && NoSceneAbove(g, objects[i])
    ensures res == Failure(NotOneTree) ==> forall s :: !SceneHoldsDirty(g, objects, s)
    ensures res == Failure(TooLarge) ==> Limit <= |objects| * (|g| + 1) + |g|
    ensures (exists s :: SceneHoldsDirty(g, objects, s)) && |objects| * (|g| + 1) + |g| < Limit ==> res.Success?
    ensures res.Success? && (exists i :: 0 <= i < |objects| && g[objects[i]].dirty) ==>
      exists s :: SceneHoldsDirty(g, objects, s)
  {
    var dirty := DirtyObjects(g, objects);
    forall i | 0 <= i < |dirty|
      ensures dirty[i] in g && g[dirty[i]].dirty
    {
      assert dirty[i] in dirty;
    }
    if |dirty| == 0 {
      assert forall i :: 0 <= i < |objects| ==> !g[objects[i]].dirty;
      forall y | y in g
        ensures !OnSomeDirtyPath(g, objects, y)
      {
        DirtyObjectsPaths(g, objects, y);
      }
      return Success(()), g;
    }
    var list, visited := CollectAncestors(g, dirty);
    visited := ClearVisited(list, visited);
    assert visited == {};
    // With every mark cleared, writing the scratch state back gives `g` again.
    WithScratchBaseline(g);
    var cleared := WithScratch(g, visited, map[]);
    var first := FirstDirtyIsHead(g, objects);
    MulMonotone(|dirty|, |objects|, |g| + 1);
    res, r := CleanCollected(cleared, objects, dirty, list);
  }

  /**
    When one scene holds every dirty object, the scene found above the first
    collected object is that scene, and every collected object is in its tree.
  */
  lemma {:induction false} CollectedUnderScene(g: Graph, objects: seq<Id>, dirty: seq<Id>, list: seq<Id>, s: Id, sc: Id)
    requires WellFormed(g) && forall i :: 0 <= i < |objects| ==> objects[i] in g
    requires dirty == DirtyObjects(g, objects) && Sound(g, dirty, list) && 0 < |list| && list[0] in dirty
    requires SceneHoldsDirty(g, objects, s)
    requires sc in g && g[sc].isScene && InSubtree(g, sc, list[0])
    ensures sc == s && forall i :: 0 <= i < |list| ==> InSubtree(g, s, list[i])
  {
    var links := Parents(g);
    forall x | x in dirty
      ensures InSubtree(g, s, x)
    {
      var k :| 0 <= k < |objects| && objects[k] == x;
    }
    SameRoot(links, sc, s, list[0]);
    forall i | 0 <= i < |list|
      ensures InSubtree(g, s, list[i])
    {
      var y := list[i];
      assert y in list;
      var k :| 0 <= k < |dirty| && OnDirtyPath(g, y, dirty[k]);
      assert dirty[k] in dirty;
      AboveTotal(links, s, y, dirty[k]);
      if !InSubtree(g, s, y) {
        RootOnlyAncestor(g, s, y);
      }
    }
  }

  /** The part of `setClean(objects)` after the collection: one batch computation, then the cleaning loop. */
  method CleanCollected(g: Graph, objects: seq<Id>, dirty: seq<Id>, list: seq<Id>)
    returns (res: Result<(), BatchError>, r: Graph)
    requires WellFormed(g) && AtBaseline(g)
    requires forall i :: 0 <= i < |objects| ==> objects[i] in g
    requires dirty == DirtyObjects(g, objects) && 0 < |dirty| <= |list| && list[0] == dirty[0]
    requires Sound(g, dirty, list) && forall k :: 0 <= k < |dirty| ==> Covered(g, list, dirty[k])
    ensures res.Success? ==> r.Keys == g.Keys
    ensures res.Success? ==> forall y :: y in g && OnSomeDirtyPath(g, objects, y) ==> r[y] == Cleaned(g[y], Absolute(g, y))
    ensures res.Success? ==> forall y :: y in g && !OnSomeDirtyPath(g, objects, y) ==> r[y] == g[y]
    ensures res.Failure? ==> ScratchOnly(g, r)
    ensures res == Failure(NotScene) <==> NoSceneAbove(g, list[0])
    ensures res == Failure(NotOneTree) ==> forall s :: !SceneHoldsDirty(g, objects, s)
    ensures res == Failure(TooLarge) ==> Limit <= |list| + |g|
    ensures (exists s :: SceneHoldsDirty(g, objects, s)) && |list| + |g| < Limit ==> res.Success?
    ensures res.Success? ==> exists s :: SceneHoldsDirty(g, objects, s)
  {
    SoundDirty(g, dirty, list);
    assert list[0] in dirty;
    var first :| 0 <= first < |objects| && objects[first] == list[0];
    assert forall s :: SceneHoldsDirty(g, objects, s) ==> InSubtree(g, s, list[0]);
    var scene := SceneObject(g, list[0]);
    if scene.None? {
      return Failure(NotScene), g;
    }
    res, r := CleanInScene(g, objects, dirty, list, scene.value);
  }

  /**
    The heap after a successful `setClean(objects)`: every object on the dirty
    path from one of `objects` is clean with its features updated, and every
    other object is untouched.
  */
  ghost predicate CleanedExactly(g: Graph, objects: seq<Id>, r: Graph)
    requires WellFormed(g)
  {
    && r.Keys == g.Keys
    && (forall y :: y in g && OnSomeDirtyPath(g, objects, y) ==> r[y] == Cleaned(g[y], Absolute(g, y)))
    && (forall y :: y in g && !OnSomeDirtyPath(g, objects, y) ==> r[y] == g[y])
  }

  /**
    Every dirty input is collected, so a scene holding every collected
    object holds every dirty input.
  */
  lemma {:induction false} ListedInScene(g: Graph, objects: seq<Id>, dirty: seq<Id>, list: seq<Id>, sc: Id)
    requires WellFormed(g) && forall i :: 0 <= i < |objects| ==> objects[i] in g
    requires dirty == DirtyObjects(g, objects) && forall k :: 0 <= k < |dirty| ==> Covered(g, list, dirty[k])
    requires sc in g && g[sc].isScene && forall i :: 0 <= i < |list| ==> InSubtree(g, sc, list[i])
    ensures SceneHoldsDirty(g, objects, sc)
  {
    forall k | 0 <= k < |objects| && g[objects[k]].dirty
      ensures InSubtree(g, sc, objects[k])
    {
      var x := objects[k];
      assert x in dirty;
      var j :| 0 <= j < |dirty| && dirty[j] == x;
      OnDirtyPathSelf(g, x);
      assert Covered(g, list, dirty[j]);
      var i :| 0 <= i < |list| && list[i] == x;
    }
  }

  /** `setClean(objects)` once the scene `sc` of the first collected object is known. */
  method CleanInScene(g: Graph, objects: seq<Id>, dirty: seq<Id>, list: seq<Id>, sc: Id)
    returns (res: Result<(), BatchError>, r: Graph)
    requires WellFormed(g) && AtBaseline(g)
    requires forall i :: 0 <= i < |objects| ==> objects[i] in g
    requires dirty == DirtyObjects(g, objects) && 0 < |dirty| <= |list| && list[0] == dirty[0]
    requires Sound(g, dirty, list) && forall k :: 0 <= k < |dirty| ==> Covered(g, list, dirty[k])
    requires forall i :: 0 <= i < |list| ==> list[i] in g && g[list[i]].dirty
    requires sc in g && g[sc].isScene && InSubtree(g, sc, list[0])
    ensures res.Success? ==> CleanedExactly(g, objects, r) && SceneHoldsDirty(g, objects, sc)
    ensures res.Failure? ==> ScratchOnly(g, r)
    ensures res != Failure(NotScene)
    ensures res == Failure(NotOneTree) ==> forall s :: !SceneHoldsDirty(g, objects, s)
    ensures res == Failure(TooLarge) ==> Limit <= |list| + |g|
    ensures (exists s :: SceneHoldsDirty(g, objects, s)) && |list| + |g| < Limit ==> res.Success?
  {
    var ts, r';
    ts, r' := Transformations(g, sc, list, Identity());
    if ts.Failure? {
      assert ts.error != NotScene;
      forall s | SceneHoldsDirty(g, objects, s)
        ensures ts.error == TooLarge && |list| + |g| >= Limit
      {
        assert list[0] in dirty;
        CollectedUnderScene(g, objects, dirty, list, s, sc);
      }
      return Failure(ts.error), r';
    }
    ListedInScene(g, objects, dirty, list, sc);
    r := CleanAll(g, objects, dirty, list, ts.value);
    res := Success(());
  }

  /** The cleaning loop of `setClean(objects)`, fed with the batch result. */
  method CleanAll(g: Graph, objects: seq<Id>, dirty: seq<Id>, list: seq<Id>, ts: seq<Transform>)
    returns (r: Graph)
    requires WellFormed(g)
    requires forall i :: 0 <= i < |objects| ==> objects[i] in g
    requires dirty == DirtyObjects(g, objects)
    requires Sound(g, dirty, list) && forall k :: 0 <= k < |dirty| ==> Covered(g, list, dirty[k])
    requires forall i :: 0 <= i < |list| ==> list[i] in g && g[list[i]].dirty
    requires |ts| == |list| && forall i :: 0 <= i < |list| ==> ts[i] == Target(g, Identity(), list[i])
    ensures CleanedExactly(g, objects, r)
  {
    ghost var target := map y | y in g :: Absolute(g, y);
    forall i | 0 <= i < |list|
      ensures list[i] in target && ts[i] == target[list[i]]
    {
      IdentityIsLeftUnit(Absolute(g, list[i]));
    }
    r := CleanEach(g, list, ts, target);
    forall y | y in g
      ensures y in list <==> OnSomeDirtyPath(g, objects, y)
    {
      CollectedExactly(g, objects, dirty, list, y);
    }
  }
}
