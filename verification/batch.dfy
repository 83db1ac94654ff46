/**
  `transformations()`: absolute transformations of many objects of one scene
  in a single pass that composes each shared ancestor's transformation once.

  The objects' scratch state (the Visited and Joint flags and the counter)
  lives in the objects themselves in the original program. Here the methods
  keep it beside the heap, as the set of visited objects and the map from
  joint objects to their counters, and `WithScratch` writes it back into
  the heap when the computation returns.
*/
module Batch {
  import opened Wrappers
  import opened Transformation
  import opened Tree
  import opened Objects
  import opened Hierarchy

  /** Bound on the number of objects and of joints: counters are 16-bit and 0xFFFF means "unassigned". */
  const Limit := 0xFFFF

  datatype BatchError =
    | TooLarge    // too many objects or joints for a 16-bit counter
    | NotScene    // the computation was not started on a scene
    | NotOneTree  // some object is not part of the scene's tree

  /** `g` with the scratch state given by `visited` and `counter` written into its objects. */
  function WithScratch(g: Graph, visited: set<Id>, counter: map<Id, Counter>): (r: Graph)
    ensures ScratchOnly(g, r)
  {
    map x | x in g :: g[x].(visited := x in visited, joint := x in counter,
                            counter := if x in counter then counter[x] else Unassigned)
  }

  /** With nothing visited and no joints, writing the scratch state back restores a baseline heap. */
  lemma {:induction false} WithScratchBaseline(g: Graph)
    requires AtBaseline(g)
    ensures WithScratch(g, {}, map[]) == g
  {
    var r := WithScratch(g, {}, map[]);
    forall x | x in g
      ensures r[x] == g[x]
    {
    }
  }

  /** The batch result for `y`: the initial transformation composed with the absolute one. */
  function Target(g: Graph, initial: Transform, y: Id): Transform
    requires WellFormed(g) && y in g
  {
    Compose(initial, Absolute(g, y))
  }

  /**
    The joint list and the counters agree: every joint has a counter no larger
    than its position (the position of its first occurrence), and each counter
    names a position holding its object.
  */
  ghost predicate JointTable(g: Graph, joints: seq<Id>, counter: map<Id, Counter>) {
    && (forall m :: 0 <= m < |joints| ==>
          joints[m] in g && joints[m] in counter && counter[joints[m]] <= m)
    && (forall p :: p in counter ==> counter[p] < |joints| && joints[counter[p]] == p)
  }

  /** `v` is one of `objects` or an ancestor of one of them. */
  ghost predicate AboveSome(g: Graph, objects: seq<Id>, v: Id)
    requires WellFormed(g)
  {
    exists k :: 0 <= k < |objects| && InSubtree(g, v, objects[k])
  }

  /**
    The scratch state while the hierarchy is being marked: the joint list
    starts with the requested objects, every added joint was visited, and
    only the requested objects and their ancestors are visited.
  */
  ghost predicate Marks(g: Graph, objects: seq<Id>, joints: seq<Id>, counter: map<Id, Counter>, visited: set<Id>)
    requires WellFormed(g)
  {
    && JointTable(g, joints, counter)
    && |objects| <= |joints| <= |objects| + |counter|
    && (forall m :: 0 <= m < |objects| ==> joints[m] == objects[m])
    && (forall m :: |objects| <= m < |joints| ==> joints[m] in visited)
    && (forall v :: v in visited ==> v in g && AboveSome(g, objects, v))
  }

  lemma {:induction false} MarksVisit(g: Graph, objects: seq<Id>, joints: seq<Id>, counter: map<Id, Counter>,
                                      visited: set<Id>, idx: nat, h: Id)
    requires WellFormed(g) && Marks(g, objects, joints, counter, visited)
    requires idx < |objects| && h in g && InSubtree(g, h, objects[idx])
    ensures Marks(g, objects, joints, counter, visited + {h})
  {
    assert AboveSome(g, objects, h);
  }

  lemma {:induction false} JointTableAdd(g: Graph, joints: seq<Id>, counter: map<Id, Counter>, p: Id)
    requires JointTable(g, joints, counter)
    requires p in g && p !in counter && |joints| < Limit
    ensures JointTable(g, joints + [p], counter[p := |joints|])
  {
    var joints', counter' := joints + [p], counter[p := |joints|];
    forall m | 0 <= m < |joints'|
      ensures joints'[m] in g && joints'[m] in counter' && counter'[joints'[m]] <= m
    {
      if m < |joints| {
        assert joints'[m] == joints[m] && joints[m] != p;
      }
    }
  }

  lemma {:induction false} MarksAddJoint(g: Graph, objects: seq<Id>, joints: seq<Id>, counter: map<Id, Counter>,
                                         visited: set<Id>, p: Id)
    requires WellFormed(g) && Marks(g, objects, joints, counter, visited)
    requires p in visited && p !in counter && |joints| < Limit
    ensures Marks(g, objects, joints + [p], counter[p := |joints|], visited)
  {
    JointTableAdd(g, joints, counter, p);
    var joints' := joints + [p];
    assert forall m :: 0 <= m < |joints| ==> joints'[m] == joints[m];
  }

  /**
    Promoted joints carry distinct counters, so the joint list outgrows the
    requested objects by at most the number of objects in the heap.
  */
  lemma {:induction false} JointsBound(g: Graph, objects: seq<Id>, joints: seq<Id>, counter: map<Id, Counter>,
                                       visited: set<Id>)
    requires WellFormed(g) && Marks(g, objects, joints, counter, visited)
    ensures |joints| <= |objects| + |g|
  {
    forall p | p in counter.Keys
      ensures p in g.Keys
    {
      assert joints[counter[p]] == p;
    }
    SubsetSize(counter.Keys, g.Keys);
  }

  /**
    A visited object is linked: it is the scene (a root), or its parent is
    visited or a joint. Objects in `pending` are exempt while the climb
    through them is under way.
  */
  ghost predicate LinkedAt(g: Graph, scene: Id, counter: map<Id, Counter>, visited: set<Id>, v: Id)
    requires v in g
  {
    if g[v].parent.None? then v == scene
    else g[v].parent.value in visited || g[v].parent.value in counter
  }

  ghost predicate Linked(g: Graph, scene: Id, counter: map<Id, Counter>, visited: set<Id>, pending: set<Id>) {
    forall v :: v in visited && v in g && v !in pending ==> LinkedAt(g, scene, counter, visited, v)
  }

  /** Visiting the parent `h` of the pending objects links them; `h` becomes pending. */
  lemma {:induction false} LinkedVisit(g: Graph, scene: Id, counter: map<Id, Counter>, visited: set<Id>,
                                       pending: set<Id>, h: Id)
    requires Linked(g, scene, counter, visited, pending)
    requires forall e :: e in pending ==> e in g && g[e].parent == Some(h)
    ensures Linked(g, scene, counter, visited + {h}, {h})
  {
    forall v | v in visited + {h} && v in g && v !in {h}
      ensures LinkedAt(g, scene, counter, visited + {h}, v)
    {
      assert LinkedAt(g, scene, counter, visited, v) || v in pending;
    }
  }

  /** A pending object that turns out linked is no longer pending. */
  lemma {:induction false} LinkedSettle(g: Graph, scene: Id, counter: map<Id, Counter>, visited: set<Id>, h: Id)
    requires Linked(g, scene, counter, visited, {h}) && h in g && LinkedAt(g, scene, counter, visited, h)
    ensures Linked(g, scene, counter, visited, {})
  {
  }

  /** New joints keep every visited object linked. */
  lemma {:induction false} LinkedAddJoint(g: Graph, scene: Id, counter: map<Id, Counter>, visited: set<Id>,
                                          p: Id, c: Counter)
    requires Linked(g, scene, counter, visited, {})
    ensures Linked(g, scene, counter[p := c], visited, {})
  {
    forall v | v in visited && v in g
      ensures LinkedAt(g, scene, counter[p := c], visited, v)
    {
      assert LinkedAt(g, scene, counter, visited, v);
    }
  }

  /**
    Once every joint is visited, every visited object lies in the scene's
    tree: following parents through visited objects and joints ends at the
    scene.
  */
  lemma {:induction false} LinkedInTree(g: Graph, scene: Id, objects: seq<Id>, joints: seq<Id>,
                                        counter: map<Id, Counter>, visited: set<Id>, v: Id)
    requires WellFormed(g) && Marks(g, objects, joints, counter, visited)
    requires Linked(g, scene, counter, visited, {})
    requires forall m :: 0 <= m < |joints| ==> joints[m] in visited
    requires v in visited
    ensures InSubtree(g, scene, v)
    decreases Depth(Parents(g), v)
  {
    var links := Parents(g);
    assert v in g && LinkedAt(g, scene, counter, visited, v);
    if g[v].parent.None? {
      assert Above(links, v, v);
    } else {
      var p := g[v].parent.value;
      ParentRooted(links, v);
      if p in counter {
        assert joints[counter[p]] == p;
      }
      LinkedInTree(g, scene, objects, joints, counter, visited, p);
      ParentAbove(g, v);
      AboveTransitive(links, scene, p, v);
    }
  }

  /**
    Counters for the requested objects: each object gets the position of its
    first occurrence, so later duplicates share it.
  */
  method AssignCounters(g: Graph, objects: seq<Id>) returns (counter: map<Id, Counter>)
    requires |objects| < Limit
    requires forall k :: 0 <= k < |objects| ==> objects[k] in g
    ensures JointTable(g, objects, counter)
  {
    counter := map[];
    for i := 0 to |objects|
      invariant forall p :: p in counter ==> counter[p] < i && objects[counter[p]] == p
      invariant forall m :: 0 <= m < i ==> objects[m] in counter && counter[objects[m]] <= m
    {
      if objects[i] in counter {
        continue;
      }
      counter := counter[objects[i] := i];
    }
  }

  /**
    The walk up the hierarchy from `objects[idx]`: marks objects visited until
    it meets a root, a joint or an object visited before; a visited non-joint
    parent becomes a new joint, appended to `joints`.
  */
  method Climb(g: Graph, scene: Id, objects: seq<Id>, idx: nat,
               joints: seq<Id>, counter: map<Id, Counter>, visited: set<Id>)
    returns (err: Option<BatchError>, joints': seq<Id>, counter': map<Id, Counter>, visited': set<Id>)
    requires WellFormed(g) && scene in g && g[scene].parent.None?
    requires idx < |objects| && Marks(g, objects, joints, counter, visited)
    requires Linked(g, scene, counter, visited, {})
    requires |joints| <= Limit
    ensures err != Some(NotScene)
    ensures err == Some(NotOneTree) ==> !InSubtree(g, scene, objects[idx])
    ensures err == Some(TooLarge) ==> Limit <= |objects| + |g|
    ensures err.None? ==> Marks(g, objects, joints', counter', visited') && |joints'| <= Limit
    ensures err.None? ==> Linked(g, scene, counter', visited', {})
    ensures err.None? ==> visited <= visited' && objects[idx] in visited'
  {
    err, joints', counter', visited' := None, joints, counter, visited;
    var links := Parents(g);
    var h := objects[idx];
    ghost var pending: set<Id> := {};
    assert Above(links, h, h);
    while h !in visited'
      invariant h in g && InSubtree(g, h, objects[idx])
      invariant Marks(g, objects, joints', counter', visited') && |joints'| <= Limit
      invariant Linked(g, scene, counter', visited', pending)
      invariant forall e :: e in pending ==> e in g && g[e].parent == Some(h)
      invariant visited <= visited'
      invariant objects[idx] in visited' || h == objects[idx]
      decreases Depth(links, h)
    {
      MarksVisit(g, objects, joints', counter', visited', idx, h);
      LinkedVisit(g, scene, counter', visited', pending, h);
      visited' := visited' + {h};
      match g[h].parent
      case None =>
        if h != scene {
          if InSubtree(g, scene, objects[idx]) {
            SameRoot(links, scene, h, objects[idx]);
          }
          return Some(NotOneTree), joints', counter', visited';
        }
        LinkedSettle(g, scene, counter', visited', h);
        return None, joints', counter', visited';
      case Some(p) =>
        ParentRooted(links, h);
        AboveThroughParent(links, h, objects[idx]);
        if p in visited' || p in counter' {
          LinkedSettle(g, scene, counter', visited', h);
          if p !in counter' {
            if |joints'| >= Limit {
              JointsBound(g, objects, joints', counter', visited');
              return Some(TooLarge), joints', counter', visited';
            }
            MarksAddJoint(g, objects, joints', counter', visited', p);
            LinkedAddJoint(g, scene, counter', visited', p, |joints'|);
            counter' := counter'[p := |joints'|];
            joints' := joints' + [p];
          }
          return None, joints', counter', visited';
        }
        pending := {h};
        h := p;
    }
  }

  // ---------------------------------------------------------------------
  // Joint transformations
  // ---------------------------------------------------------------------

  /** No object of `visited` lies on the path from the root down to `y`. */
  ghost predicate Cleared(g: Graph, visited: set<Id>, y: Id)
    requires WellFormed(g)
  {
    forall a :: a in visited ==> !InSubtree(g, a, y)
  }

  /**
    Every finished joint, except those in `pending`, holds its batch result
    and has its whole path to the root unvisited. A joint is finished when it
    is no longer visited; only the first occurrence of an object counts.
  */
  ghost predicate Done(g: Graph, joints: seq<Id>, counter: map<Id, Counter>, initial: Transform,
                       visited: set<Id>, ts: seq<Transform>, pending: set<Id>)
    requires WellFormed(g) && JointTable(g, joints, counter) && |ts| == |joints|
  {
    forall m :: 0 <= m < |joints| && counter[joints[m]] == m && joints[m] !in visited && joints[m] !in pending ==>
      ts[m] == Target(g, initial, joints[m]) && Cleared(g, visited, joints[m])
  }

  /**
    `Done` survives unvisiting objects and changing entries, as long as the
    objects affected are pending.
  */
  lemma {:induction false} DoneMono(g: Graph, joints: seq<Id>, counter: map<Id, Counter>, initial: Transform,
                                    visited: set<Id>, ts: seq<Transform>, pending: set<Id>,
                                    visited': set<Id>, ts': seq<Transform>, pending': set<Id>)
    requires WellFormed(g) && JointTable(g, joints, counter) && |ts| == |joints| && |ts'| == |joints|
    requires Done(g, joints, counter, initial, visited, ts, pending)
    requires visited' <= visited && pending <= pending'
    requires forall m :: 0 <= m < |joints| && (ts'[m] != ts[m] || (joints[m] in visited && joints[m] !in visited')) ==>
      joints[m] in pending'
    ensures Done(g, joints, counter, initial, visited', ts', pending')
  {
  }

  /** A joint whose entry and path are final may leave `pending`. */
  lemma {:induction false} DoneAdd(g: Graph, joints: seq<Id>, counter: map<Id, Counter>, initial: Transform,
                                   visited: set<Id>, ts: seq<Transform>, pending: set<Id>, k: nat)
    requires WellFormed(g) && JointTable(g, joints, counter) && |ts| == |joints| && k < |joints|
    requires Done(g, joints, counter, initial, visited, ts, pending + {joints[k]})
    requires counter[joints[k]] == k && ts[k] == Target(g, initial, joints[k]) && Cleared(g, visited, joints[k])
    ensures Done(g, joints, counter, initial, visited, ts, pending)
  {
  }

  /** The objects strictly below `top`. */
  ghost predicate StrictlyBelow(g: Graph, top: Id, pending: set<Id>)
    requires WellFormed(g)
  {
    forall q :: q in pending ==> q != top && InSubtree(g, top, q)
  }

  /**
    `computeJointTransformation()`: the batch result of joint `k`. A joint
    still visited is computed by walking up to the next joint or the root,
    unvisiting the objects on the way and composing their local
    transformations; the next joint is computed recursively first. A joint
    already unvisited returns its stored entry.
  */
  method ComputeJoint(g: Graph, joints: seq<Id>, counter: map<Id, Counter>, initial: Transform,
                      k: nat, visited: set<Id>, ts: seq<Transform>, ghost pending: set<Id>)
    returns (t: Transform, visited': set<Id>, ts': seq<Transform>)
    requires WellFormed(g) && JointTable(g, joints, counter) && k < |joints| && |ts| == |joints|
    requires joints[k] in visited ==> counter[joints[k]] == k
    requires StrictlyBelow(g, joints[k], pending)
    requires Done(g, joints, counter, initial, visited, ts, pending)
    ensures visited' <= visited && joints[k] !in visited' && |ts'| == |ts|
    ensures forall m :: 0 <= m < |ts| && ts'[m] != ts[m] ==> joints[m] in visited
    ensures Done(g, joints, counter, initial, visited', ts', pending)
    ensures counter[joints[k]] == k && joints[k] !in pending ==> t == Target(g, initial, joints[k])
    decreases Depth(Parents(g), joints[k]), 1
  {
    if joints[k] !in visited {
      return ts[k], visited, ts;
    }
    t, visited', ts' := ComputeVisitedJoint(g, joints, counter, initial, k, visited, ts, pending);
  }

  /** `computeJointTransformation()` for a joint that is still visited. */
  method ComputeVisitedJoint(g: Graph, joints: seq<Id>, counter: map<Id, Counter>, initial: Transform,
                             k: nat, visited: set<Id>, ts: seq<Transform>, ghost pending: set<Id>)
    returns (t: Transform, visited': set<Id>, ts': seq<Transform>)
    requires WellFormed(g) && JointTable(g, joints, counter) && k < |joints| && |ts| == |joints|
    requires joints[k] in visited && counter[joints[k]] == k
    requires StrictlyBelow(g, joints[k], pending)
    requires Done(g, joints, counter, initial, visited, ts, pending)
    ensures visited' <= visited && joints[k] !in visited' && |ts'| == |ts|
    ensures forall m :: 0 <= m < |ts| && ts'[m] != ts[m] ==> joints[m] in visited
    ensures Done(g, joints, counter, initial, visited', ts', pending)
    ensures joints[k] !in pending ==> t == Target(g, initial, joints[k])
    decreases Depth(Parents(g), joints[k]), 0
  {
    var j := joints[k];
    var o;
    o, visited', ts' := WalkUp(g, joints, counter, initial, k, visited, ts, pending);
    if g[o].parent.None? {
      t := Compose(initial, ts'[k]);
      FinishAtRoot(g, joints, counter, initial, k, o, visited', ts', pending);
    } else {
      var p := g[o].parent.value;
      JointAbove(g, pending, j, o);
      var v, visited'', ts'' := ComputeJoint(g, joints, counter, initial, counter[p], visited', ts', pending + {j});
      t := Compose(v, ts'[k]);
      FinishAtJoint(g, joints, counter, initial, k, o, visited', ts', pending, v, visited'', ts'');
      visited', ts' := visited'', ts'';
    }
    ts' := ts'[k := t];
  }

  /** The state `WalkUp` leaves for joint `k` after stopping at `o`. */
  ghost predicate Walked(g: Graph, joints: seq<Id>, counter: map<Id, Counter>, initial: Transform,
                         k: nat, o: Id, visited: set<Id>, ts: seq<Transform>, pending: set<Id>)
    requires WellFormed(g) && JointTable(g, joints, counter) && k < |joints| && |ts| == |joints|
  {
    && o in g && InSubtree(g, o, joints[k])
    && Compose(BaseBelow(g, o), ts[k]) == Absolute(g, joints[k])
    && (forall a :: a in visited && InSubtree(g, a, joints[k]) ==> a != o && InSubtree(g, a, o))
    && Done(g, joints, counter, initial, visited, ts, pending + {joints[k]})
  }

  /**
    A walk that reaches a root from a joint of the scene's tree stops at the
    scene itself: the assertion `computeJointTransformation()` makes there.
  */
  lemma {:induction false} WalkRootIsScene(g: Graph, joints: seq<Id>, counter: map<Id, Counter>, initial: Transform,
                                           k: nat, o: Id, visited: set<Id>, ts: seq<Transform>, pending: set<Id>,
                                           scene: Id)
    requires WellFormed(g) && JointTable(g, joints, counter) && k < |joints| && |ts| == |joints|
    requires Walked(g, joints, counter, initial, k, o, visited, ts, pending) && g[o].parent.None?
    requires scene in g && g[scene].isScene && InSubtree(g, scene, joints[k])
    ensures o == scene && g[o].isScene
  {
    SameRoot(Parents(g), scene, o, joints[k]);
  }

  /** The walk reached the root: composing with the initial transformation finishes joint `k`. */
  lemma {:induction false} FinishAtRoot(g: Graph, joints: seq<Id>, counter: map<Id, Counter>, initial: Transform,
                                        k: nat, o: Id, visited: set<Id>, ts: seq<Transform>, pending: set<Id>)
    requires WellFormed(g) && JointTable(g, joints, counter) && k < |joints| && |ts| == |joints|
    requires counter[joints[k]] == k && joints[k] !in visited
    requires Walked(g, joints, counter, initial, k, o, visited, ts, pending) && g[o].parent.None?
    ensures Compose(initial, ts[k]) == Target(g, initial, joints[k])
    ensures Done(g, joints, counter, initial, visited, ts[k := Compose(initial, ts[k])], pending)
  {
    var j := joints[k];
    IdentityIsLeftUnit(ts[k]);
    forall a | a in visited
      ensures !InSubtree(g, a, j)
    {
      if InSubtree(g, a, j) {
        RootOnlyAncestor(g, o, a);
      }
    }
    var ts' := ts[k := Compose(initial, ts[k])];
    DoneMono(g, joints, counter, initial, visited, ts, pending + {j}, visited, ts', pending + {j});
    DoneAdd(g, joints, counter, initial, visited, ts', pending, k);
  }

  /**
    The walk reached joint `p` and `p`'s result `v` has been computed:
    composing it on top finishes joint `k`.
  */
  lemma {:induction false} FinishAtJoint(g: Graph, joints: seq<Id>, counter: map<Id, Counter>, initial: Transform,
                                         k: nat, o: Id, visited: set<Id>, ts: seq<Transform>, pending: set<Id>,
                                         v: Transform, visited': set<Id>, ts': seq<Transform>)
    requires WellFormed(g) && JointTable(g, joints, counter) && k < |joints| && |ts| == |joints| && |ts'| == |ts|
    requires counter[joints[k]] == k && joints[k] !in visited
    requires Walked(g, joints, counter, initial, k, o, visited, ts, pending)
    requires g[o].parent.Some? && g[o].parent.value in counter && g[o].parent.value !in pending + {joints[k]}
    requires v == Target(g, initial, g[o].parent.value)
    requires visited' <= visited && g[o].parent.value !in visited'
    requires forall m :: 0 <= m < |ts| && ts'[m] != ts[m] ==> joints[m] in visited
    requires Done(g, joints, counter, initial, visited', ts', pending + {joints[k]})
    ensures Compose(v, ts'[k]) == Target(g, initial, joints[k])
    ensures Done(g, joints, counter, initial, visited', ts'[k := Compose(v, ts'[k])], pending)
  {
    var j, p := joints[k], g[o].parent.value;
    ParentRooted(Parents(g), o);
    assert ts'[k] == ts[k];
    ComposeAssociative(initial, Absolute(g, p), ts[k]);
    DoneAt(g, joints, counter, initial, visited', ts', pending + {j}, counter[p]);
    forall a | a in visited'
      ensures !InSubtree(g, a, j)
    {
      if InSubtree(g, a, j) {
        AboveStep(g, a, o);
      }
    }
    var ts'' := ts'[k := Compose(v, ts'[k])];
    DoneMono(g, joints, counter, initial, visited', ts', pending + {j}, visited', ts'', pending + {j});
    DoneAdd(g, joints, counter, initial, visited', ts'', pending, k);
  }

  /** `Done` for one finished joint. */
  lemma {:induction false} DoneAt(g: Graph, joints: seq<Id>, counter: map<Id, Counter>, initial: Transform,
                                  visited: set<Id>, ts: seq<Transform>, pending: set<Id>, m: nat)
    requires WellFormed(g) && JointTable(g, joints, counter) && |ts| == |joints| && m < |joints|
    requires Done(g, joints, counter, initial, visited, ts, pending)
    requires counter[joints[m]] == m && joints[m] !in visited && joints[m] !in pending
    ensures ts[m] == Target(g, initial, joints[m]) && Cleared(g, visited, joints[m])
  {
  }

  /**
    The walk of `computeJointTransformation()` from joint `k` up to the next
    joint or the root: unvisits every object it passes and leaves in `ts'[k]`
    the composition of their local transformations.
  */
  method WalkUp(g: Graph, joints: seq<Id>, counter: map<Id, Counter>, initial: Transform,
                k: nat, visited: set<Id>, ts: seq<Transform>, ghost pending: set<Id>)
    returns (o: Id, visited': set<Id>, ts': seq<Transform>)
    requires WellFormed(g) && JointTable(g, joints, counter) && k < |joints| && |ts| == |joints|
    requires joints[k] in visited
    requires Done(g, joints, counter, initial, visited, ts, pending)
    ensures visited' <= visited && joints[k] !in visited' && |ts'| == |ts|
    ensures forall m :: 0 <= m < |ts| && m != k ==> ts'[m] == ts[m]
    ensures o in g && (g[o].parent.None? || g[o].parent.value in counter)
    ensures Walked(g, joints, counter, initial, k, o, visited', ts', pending)
  {
    var links := Parents(g);
    var j := joints[k];
    visited' := visited - {j};
    ts' := ts[k := g[j].local];
    DoneMono(g, joints, counter, initial, visited, ts, pending, visited', ts', pending + {j});
    AbsoluteStep(g, j);
    o := j;
    assert Above(links, j, j);
    while g[o].parent.Some? && g[o].parent.value !in counter
      invariant visited' <= visited && j !in visited' && |ts'| == |ts|
      invariant o in g && InSubtree(g, o, j) && o !in visited'
      invariant Compose(BaseBelow(g, o), ts'[k]) == Absolute(g, j)
      invariant forall m :: 0 <= m < |ts| && m != k ==> ts'[m] == ts[m]
      invariant forall a :: a in visited' && InSubtree(g, a, j) ==> a != o && InSubtree(g, a, o)
      invariant Done(g, joints, counter, initial, visited', ts', pending + {j})
      decreases Depth(links, o)
    {
      ParentRooted(links, o);
      visited', ts' := WalkStep(g, joints, counter, initial, k, o, visited', ts', pending);
      o := g[o].parent.value;
    }
  }

  /**
    One step of the upward walk: unvisit the parent `p` of `o` and prepend its
    local transformation to the accumulated one.
  */
  method WalkStep(g: Graph, joints: seq<Id>, counter: map<Id, Counter>, initial: Transform,
                  k: nat, o: Id, visited: set<Id>, ts: seq<Transform>, ghost pending: set<Id>)
    returns (visited': set<Id>, ts': seq<Transform>)
    requires WellFormed(g) && JointTable(g, joints, counter) && k < |joints| && |ts| == |joints|
    requires joints[k] !in visited
    requires o in g && InSubtree(g, o, joints[k]) && o !in visited
    requires g[o].parent.Some? && g[o].parent.value !in counter
    requires Compose(BaseBelow(g, o), ts[k]) == Absolute(g, joints[k])
    requires forall a :: a in visited && InSubtree(g, a, joints[k]) ==> a != o && InSubtree(g, a, o)
    requires Done(g, joints, counter, initial, visited, ts, pending + {joints[k]})
    ensures visited' == visited - {g[o].parent.value} && |ts'| == |ts|
    ensures forall m :: 0 <= m < |ts| && m != k ==> ts'[m] == ts[m]
    ensures g[o].parent.value in g && InSubtree(g, g[o].parent.value, joints[k])
    ensures Compose(BaseBelow(g, g[o].parent.value), ts'[k]) == Absolute(g, joints[k])
    ensures forall a :: a in visited' && InSubtree(g, a, joints[k]) ==>
      a != g[o].parent.value && InSubtree(g, a, g[o].parent.value)
    ensures Done(g, joints, counter, initial, visited', ts', pending + {joints[k]})
  {
    var links := Parents(g);
    var j := joints[k];
    var p := g[o].parent.value;
    ParentRooted(links, o);
    AboveThroughParent(links, o, j);
    ClimbAbsolute(g, o, ts[k]);
    forall a | a in visited - {p} && InSubtree(g, a, j)
      ensures a != p && InSubtree(g, a, p)
    {
      AboveStep(g, a, o);
    }
    visited', ts' := visited - {p}, ts[k := Compose(g[p].local, ts[k])];
    DoneMono(g, joints, counter, initial, visited, ts, pending + {j}, visited', ts', pending + {j});
  }

  /** The next joint above `j` lies strictly above `j` and everything pending below it. */
  lemma {:induction false} JointAbove(g: Graph, pending: set<Id>, j: Id, o: Id)
    requires WellFormed(g) && o in g && g[o].parent.Some? && InSubtree(g, o, j)
    requires StrictlyBelow(g, j, pending)
    ensures g[o].parent.value in g
    ensures StrictlyBelow(g, g[o].parent.value, pending + {j})
    ensures Depth(Parents(g), g[o].parent.value) < Depth(Parents(g), j)
  {
    var links := Parents(g);
    var p := g[o].parent.value;
    ParentRooted(links, o);
    AboveDepth(links, o, j);
    ParentAbove(g, o);
    AboveTransitive(links, p, o, j);
    forall q | q in pending + {j}
      ensures q != p && InSubtree(g, p, q)
    {
      if q != j {
        AboveTransitive(links, p, j, q);
        AboveDepth(links, j, q);
      }
    }
  }

  /** One step up the walk: the accumulated transformation absorbs the parent's local one. */
  lemma {:induction false} ClimbAbsolute(g: Graph, o: Id, acc: Transform)
    requires WellFormed(g) && o in g && g[o].parent.Some?
    ensures g[o].parent.value in g
    ensures Compose(BaseBelow(g, g[o].parent.value), Compose(g[g[o].parent.value].local, acc))
         == Compose(BaseBelow(g, o), acc)
  {
    var p := g[o].parent.value;
    ParentRooted(Parents(g), o);
    AbsoluteStep(g, p);
    ComposeAssociative(BaseBelow(g, p), g[p].local, acc);
  }

  // ---------------------------------------------------------------------
  // The whole computation
  // ---------------------------------------------------------------------

  /**
    Computes every joint in order. Afterwards no joint is visited and every
    first occurrence holds its batch result.
  */
  method ComputeJoints(g: Graph, joints: seq<Id>, counter: map<Id, Counter>, initial: Transform, visited: set<Id>)
    returns (visited': set<Id>, ts: seq<Transform>)
    requires WellFormed(g) && JointTable(g, joints, counter)
    requires forall m :: 0 <= m < |joints| ==> joints[m] in visited
    ensures visited' <= visited && |ts| == |joints|
    ensures forall m :: 0 <= m < |joints| ==> joints[m] !in visited'
    ensures Done(g, joints, counter, initial, visited', ts, {})
  {
    visited' := visited;
    ts := seq(|joints|, _ => Identity());
    for i := 0 to |joints|
      invariant visited' <= visited && |ts| == |joints|
      invariant forall m :: 0 <= m < i ==> joints[m] !in visited'
      invariant Done(g, joints, counter, initial, visited', ts, {})
    {
      assert joints[counter[joints[i]]] == joints[i];
      var t;
      t, visited', ts := ComputeJoint(g, joints, counter, initial, i, visited', ts, {});
    }
  }

  /** Once every joint is finished, no object is left visited. */
  lemma {:induction false} NothingLeftVisited(g: Graph, objects: seq<Id>, joints: seq<Id>, counter: map<Id, Counter>,
                                              initial: Transform, visited: set<Id>, visited': set<Id>, ts: seq<Transform>)
    requires WellFormed(g) && Marks(g, objects, joints, counter, visited) && |ts| == |joints|
    requires visited' <= visited
    requires forall m :: 0 <= m < |joints| ==> joints[m] !in visited'
    requires Done(g, joints, counter, initial, visited', ts, {})
    ensures visited' == {}
  {
    forall v | v in visited
      ensures v !in visited'
    {
      var i :| 0 <= i < |objects| && InSubtree(g, v, objects[i]);
      var c := counter[joints[i]];
      DoneAt(g, joints, counter, initial, visited', ts, {}, c);
    }
  }

  /** Later occurrences of a requested object copy the entry of its first occurrence. */
  method CopyDuplicates(g: Graph, objects: seq<Id>, joints: seq<Id>, counter: map<Id, Counter>,
                        initial: Transform, ts: seq<Transform>)
    returns (ts': seq<Transform>)
    requires WellFormed(g) && JointTable(g, joints, counter) && |ts| == |joints|
    requires |objects| <= |joints| && forall m :: 0 <= m < |objects| ==> joints[m] == objects[m]
    requires forall m :: 0 <= m < |joints| && counter[joints[m]] == m ==> ts[m] == Target(g, initial, joints[m])
    ensures |ts'| == |ts|
    ensures forall i :: 0 <= i < |objects| ==> ts'[i] == Target(g, initial, objects[i])
  {
    ts' := ts;
    for i := 0 to |objects|
      invariant |ts'| == |ts|
      invariant forall m :: 0 <= m < |joints| && counter[joints[m]] == m ==> ts'[m] == ts[m]
      invariant forall m :: 0 <= m < i ==> ts'[m] == Target(g, initial, objects[m])
    {
      var c := counter[joints[i]];
      if c != i {
        assert joints[c] == joints[i] && counter[joints[c]] == c;
        ts' := ts'[i := ts'[c]];
      }
    }
  }

  /** Resets the counter of every joint; afterwards no object is a joint. */
  method ResetCounters(g: Graph, joints: seq<Id>, counter: map<Id, Counter>) returns (counter': map<Id, Counter>)
    requires JointTable(g, joints, counter)
    ensures counter' == map[]
  {
    counter' := counter;
    for i := 0 to |joints|
      invariant counter'.Keys <= counter.Keys
      invariant forall m :: 0 <= m < i ==> joints[m] !in counter'
    {
      counter' := counter' - {joints[i]};
    }
    forall p | p in counter
      ensures p !in counter'
    {
      assert joints[counter[p]] == p;
    }
    assert counter'.Keys == {};
  }

  /**
    Walks up from every requested object in turn, marking the objects passed
    visited and turning every visited object reached a second time into a
    joint.
  */
  method MarkHierarchy(g: Graph, scene: Id, objects: seq<Id>, counter: map<Id, Counter>)
    returns (err: Option<BatchError>, joints: seq<Id>, counter': map<Id, Counter>, visited: set<Id>)
    requires WellFormed(g) && scene in g && g[scene].parent.None?
    requires |objects| < Limit && JointTable(g, objects, counter)
    ensures err != Some(NotScene)
    ensures err == Some(NotOneTree) ==> exists i :: 0 <= i < |objects| && !InSubtree(g, scene, objects[i])
    ensures err == Some(TooLarge) ==> Limit <= |objects| + |g|
    ensures err.None? ==> Marks(g, objects, joints, counter', visited)
    ensures err.None? ==> forall m :: 0 <= m < |joints| ==> joints[m] in visited
    ensures err.None? ==> forall m :: 0 <= m < |joints| ==> InSubtree(g, scene, joints[m])
  {
    joints, counter', visited := objects, counter, {};
    var idx := 0;
    err := None;
    while idx < |objects| && err.None?
      invariant idx <= |objects| && err != Some(NotScene)
      invariant err == Some(NotOneTree) ==> exists i :: 0 <= i < |objects| && !InSubtree(g, scene, objects[i])
      invariant err == Some(TooLarge) ==> Limit <= |objects| + |g|
      invariant err.None? ==> Marks(g, objects, joints, counter', visited) && |joints| <= Limit
      invariant err.None? ==> Linked(g, scene, counter', visited, {})
      invariant err.None? ==> VisitedUpTo(objects, visited, idx)
    {
      ghost var before := visited;
      err, joints, counter', visited := Climb(g, scene, objects, idx, joints, counter', visited);
      if err.None? {
        VisitedUpToGrows(objects, before, visited, idx);
      }
      idx := idx + 1;
    }
    if err.None? {
      MarksAllVisited(g, objects, joints, counter', visited);
      forall m | 0 <= m < |joints|
        ensures InSubtree(g, scene, joints[m])
      {
        LinkedInTree(g, scene, objects, joints, counter', visited, joints[m]);
      }
    }
  }

  /** The first `n` requested objects are visited. */
  ghost predicate VisitedUpTo(objects: seq<Id>, visited: set<Id>, n: nat) {
    forall m :: 0 <= m < n && m < |objects| ==> objects[m] in visited
  }

  lemma {:induction false} VisitedUpToGrows(objects: seq<Id>, visited: set<Id>, visited': set<Id>, n: nat)
    requires VisitedUpTo(objects, visited, n) && visited <= visited'
    requires n < |objects| && objects[n] in visited'
    ensures VisitedUpTo(objects, visited', n + 1)
  {
  }

  lemma {:induction false} MarksAllVisited(g: Graph, objects: seq<Id>, joints: seq<Id>, counter: map<Id, Counter>,
                                           visited: set<Id>)
    requires WellFormed(g) && Marks(g, objects, joints, counter, visited)
    requires VisitedUpTo(objects, visited, |objects|)
    ensures forall m :: 0 <= m < |joints| ==> joints[m] in visited
  {
  }

  /**
    `transformations()`: the absolute transformation of each requested
    object, composed on top of `initial`, computed on a scene. Duplicates in
    `objects` are allowed. The scratch state is restored on success; a failed
    computation may leave marks behind.
  */
  method Transformations(g: Graph, self: Id, objects: seq<Id>, initial: Transform)
    returns (res: Result<seq<Transform>, BatchError>, r: Graph)
    requires WellFormed(g) && AtBaseline(g) && self in g
    requires forall i :: 0 <= i < |objects| ==> objects[i] in g
    ensures ScratchOnly(g, r)
    ensures |objects| >= Limit ==> res == Failure(TooLarge) && r == g
    ensures |objects| < Limit && !g[self].isScene ==> res == Failure(NotScene)
    ensures res == Failure(NotScene) ==> !g[self].isScene
    ensures res == Failure(NotOneTree) ==> exists i :: 0 <= i < |objects| && !InSubtree(g, self, objects[i])
    ensures |objects| < Limit && g[self].isScene && (forall i :: 0 <= i < |objects| ==> InSubtree(g, self, objects[i]))
      ==> res.Success? || res == Failure(TooLarge)
    ensures res == Failure(TooLarge) ==> Limit <= |objects| + |g|
    ensures |objects| + |g| < Limit && g[self].isScene && (forall i :: 0 <= i < |objects| ==> InSubtree(g, self, objects[i]))
      ==> res.Success?
    ensures res.Success? ==> forall i :: 0 <= i < |objects| ==> InSubtree(g, self, objects[i])
    ensures res.Success? ==> r == g && |res.value| == |objects|
    ensures res.Success? ==> forall i :: 0 <= i < |objects| ==> res.value[i] == Target(g, initial, objects[i])
  {
    if |objects| >= Limit {
      return Failure(TooLarge), g;
    }
    var counter := AssignCounters(g, objects);
    var joints := objects;
    var scene := SceneObject(g, self);
    if scene != Some(self) {
      return Failure(NotScene), WithScratch(g, {}, counter);
    }

    var err, joints', counter', visited := MarkHierarchy(g, self, objects, counter);
    if err.Some? {
      assert err.value == TooLarge || err.value == NotOneTree;
      return Failure(err.value), WithScratch(g, visited, counter');
    }
    assert forall i :: 0 <= i < |objects| ==> objects[i] == joints'[i];
    var ts, r' := ComputeMarked(g, objects, joints', counter', visited, initial);
    return Success(ts), r';
  }

  /**
    The second half of `transformations()`, once marking has succeeded:
    compute every joint, copy the duplicates and reset the scratch state.
    The heap with the reset scratch state written back is the heap before
    the call.
  */
  method ComputeMarked(g: Graph, objects: seq<Id>, joints: seq<Id>, counter: map<Id, Counter>,
                       visited: set<Id>, initial: Transform)
    returns (ts: seq<Transform>, r: Graph)
    requires WellFormed(g) && AtBaseline(g)
    requires Marks(g, objects, joints, counter, visited)
    requires forall m :: 0 <= m < |joints| ==> joints[m] in visited
    ensures r == g
    ensures |ts| == |objects|
    ensures forall i :: 0 <= i < |objects| ==> ts[i] == Target(g, initial, objects[i])
  {
    var visited', all := ComputeJoints(g, joints, counter, initial, visited);
    NothingLeftVisited(g, objects, joints, counter, initial, visited, visited', all);
    all := CopyDuplicates(g, objects, joints, counter, initial, all);
    var counter' := ResetCounters(g, joints, counter);
    WithScratchBaseline(g);
    r := WithScratch(g, visited', counter');
    ts := all[..|objects|];
  }
}
