# Scene-graph object hierarchy of Magnum, in Dafny

This project models the transformation hierarchy of Magnum's scene graph
(`SceneGraph::Object`). Objects form a tree. Each object has a parent link, an
ordered list of children, a local transformation and a Dirty flag. Features
attached to an object cache its absolute transformation, the inverse of it, or
both. The scene is the root of the tree and cannot be reparented.

The model covers:

- **Tree maintenance.** `sceneObject()` walks up to the scene. `setParent()`
  moves an object and its subtree under a new parent. It refuses a move that
  would create a cycle, and it dirties the moved subtree.
- **Absolute transformation.** `absoluteTransformation()` composes the local
  transformations from the root down.
- **Dirty propagation.** `setDirty()` marks an object, its features and its
  whole subtree dirty. It stops at objects that are already dirty.
- **Cleaning one object.** `setClean()` collects the object and its dirty
  ancestors, up to the first clean ancestor or the root. It then walks back
  down, composing transformations, and cleans each collected object with its
  absolute transformation.
- **Cleaning the features of one object.** `setClean(absoluteTransformation)`
  pushes the transformation to every feature that caches it. The matrix and
  the inverted matrix are each computed at most once.
- **Batch computation.** `transformations()` computes the absolute
  transformations of many objects at once:
  - it marks "joints": requested objects and branching points of the paths to
    the root;
  - `computeJointTransformation()` computes each joint's transformation only
    once;
  - duplicates are copied from their first occurrence;
  - the scratch state (the Visited and Joint flags and the 16-bit counter) is
    reset afterwards.
- **Batch cleaning.** `setClean(objects)` drops clean objects and appends the
  dirty ancestors of the rest. It gets all their transformations from the
  scene in one `transformations()` call and cleans every listed object once.

Representation:

- **Transformations** are the free monoid over abstract steps
  (`Transformation`). Composition is concatenation, and the default-constructed
  value is the empty word. So the only properties of the transformation
  algebra the algorithms may rely on are the two they do rely on: composition
  is associative, and the default value is its identity.
- **The object heap** is a `map` from identities to `Node` records
  (`Objects`). Parent links are viewed as a `Links` map; `Tree` defines its
  acyclicity, depths and the ancestor relation over it. `WellFormed` says:
  - the parent links are acyclic;
  - scenes are roots;
  - parent and children links agree;
  - no children list holds an object twice.
- **Features** are seen only through their caching protocol. A feature
  records:
  - which absolute transformations it caches;
  - how many times it was marked dirty;
  - how many times each cached transformation was pushed to it (the
    `clean()` and `cleanInverted()` calls);
  - the transformation it was last cleaned with.
- **Mutation** is modelled functionally. Every operation takes a heap and
  returns the new one.
- **Assertions that return.** A `CORRADE_ASSERT` that returns from the
  function becomes a `Failure` result: `TooLarge`, `NotScene` or `NotOneTree`.
  As in the source, the scratch marks set before the failure are left
  behind. The returning assertions after each `setClean()` (lines 147 and 353)
  cannot fire: `Cleaning.CleanedState` proves the object clean.
- **Internal assertions** (`CORRADE_INTERNAL_ASSERT`) are not checks in the
  model. The model proves these of them:
  - line 145: every popped object is dirty. `Cleaning.ChainMembers` puts
    only dirty objects on the stack.
  - line 231: a new joint has no counter yet. This holds by construction,
    since an object is a joint exactly when it has a counter entry.
  - line 292: a walk that reaches a root stops at the scene.
    `Batch.WalkRootIsScene` proves this for joints in the scene's tree, and
    `Batch.MarkHierarchy` puts every joint there.

  Lines 262 and 285 are not proved; see "Left out".

Modules follow the source's structure:

- `wrappers.dfy`, `transformation.dfy` and `tree.dfy` hold the basic types.
- `objects.dfy` holds the heap, the absolute transformation and the dirty
  invariant.
- `hierarchy.dfy` holds `sceneObject` and `setDirty`.
- `reparent.dfy` holds `setParent`.
- `cleaning.dfy` holds both single-object `setClean` overloads.
- `batch.dfy` holds `transformations` and `computeJointTransformation`.
- `batch_clean.dfy` holds `setClean(objects)`.

## Model

| member | source | states |
|---|---|---|
| Hierarchy.SceneObject | src/SceneGraph/Object.hpp:55-59 | The result is a scene at or above the object, and it is the object itself when the object is a scene. No result means no object at or above it is a scene. |
| Reparent.WalkMeets | src/SceneGraph/Object.hpp:72-78 | The walk up from the new parent meets the moved object exactly when the new parent lies in the object's subtree (the object itself included). |
| Reparent.SetParent | src/SceneGraph/Object.hpp:67-88 | The heap is unchanged exactly when the parent is already the requested one, the object is a scene, or the new parent is in the object's subtree. Otherwise: the object's parent is the new one; each children list is the old one without the object, plus the object in the new parent's list; objects outside the moved subtree keep their state apart from the children-list surgery; the object is dirty; the heap stays well formed; and the invariant "dirty object implies dirty subtree" is kept, with the whole moved subtree dirty. |
| Reparent.Without | src/SceneGraph/Object.hpp:80-81 | Cutting an object from a children list keeps exactly the other entries, and changes nothing when the object is not in the list. |
| Reparent.Relink | src/SceneGraph/Object.hpp:80-84 | The cut from the old parent and the insertion under the new one keep the set of objects, and the moved object's parent link becomes the requested one. |
| Reparent.RelinkAt | src/SceneGraph/Object.hpp:80-84 | Per object, the relinking changes only the moved object's parent link. The old parent's children lose the object, the new parent's children gain it at the end, and every other children list and every flag stays as it was. |
| Reparent.RelinkWellFormed | src/SceneGraph/Object.hpp:80-84 | Cutting the object from the old parent's list and inserting it into the new parent's list keeps the heap well formed when the cycle check passed. |
| Reparent.RelinkSameSubtree | src/SceneGraph/Object.hpp:80-84 | The moved object's subtree is the same set of objects before and after the move. |
| Tree.RelinkAcyclic | src/SceneGraph/Object.hpp:72-84 | Redirecting one parent link to an object outside the subtree (or to nothing) keeps the parent links acyclic. |
| Reparent.SetParentPost | src/SceneGraph/Object.hpp:80-87 | After the relinking and `setDirty()`, the parent and children lists are as requested. Objects outside the subtree keep their relinked state, and a heap satisfying the dirty invariant still satisfies it. |
| Objects.Absolute | src/SceneGraph/Object.hpp:90-93 | A root's absolute transformation is its local one. Any other object's is the absolute transformation of its parent, composed with its local one. |
| Objects.AbsoluteStep | src/SceneGraph/Object.hpp:90-93 | A root's absolute transformation is its local one. Any other object's is the parent's absolute transformation composed with its local one. |
| Cleaning.AbsoluteComposesPath | src/SceneGraph/Object.hpp:90-93 | The absolute transformation is the composition of the local transformations on the path from the root down to the object. |
| Hierarchy.SetDirty | src/SceneGraph/Object.hpp:95-112 | An already-dirty object leaves the heap unchanged. Otherwise the object becomes dirty, and only objects in its subtree change. Each changed object was clean and now has its Dirty flag set and every feature marked dirty; the heap stays well formed; and the dirty invariant is kept, with the whole subtree dirty afterwards. |
| Hierarchy.DirtyChildren | src/SceneGraph/Object.hpp:106-108 | Dirtying the children one after the other leaves the object itself and everything outside its subtree unchanged, and leaves the subtree of every child dirty. |
| Objects.MarkFeaturesDirtyAt | src/SceneGraph/Object.hpp:102-104 | Each feature, at its own position, receives one dirty mark. |
| Cleaning.SetClean | src/SceneGraph/Object.hpp:114-149 | A clean object leaves the heap unchanged. Otherwise, exactly the objects on the dirty path from the object up to the first clean ancestor are cleaned, each with its own absolute transformation, and every other object is unchanged. Afterwards the object is clean, the heap stays well formed, and under the dirty invariant every ancestor is clean. |
| Cleaning.CollectChain | src/SceneGraph/Object.hpp:118-136 | The collected stack is the dirty chain from the object up. The base transformation is the absolute transformation of the topmost entry's parent, or the identity at the root. |
| Cleaning.ChainMembers | src/SceneGraph/Object.hpp:118-136 | An object is on the collected chain exactly when it is at or above the starting object and everything from it down to the start is dirty. |
| Cleaning.CleanDown | src/SceneGraph/Object.hpp:138-148 | Popping the stack cleans each entry with the base composed with the local transformations from the top of the stack down to that entry, and changes nothing else. |
| Cleaning.AccumulatedIsAbsolute | src/SceneGraph/Object.hpp:138-148 | On an upward path, the transformation accumulated top-down at each entry equals that entry's absolute transformation. |
| Cleaning.CleanClearsAncestors | src/SceneGraph/Object.hpp:114-149 | Under the dirty invariant, once the dirty path is cleaned, no ancestor of the object is dirty. |
| Cleaning.CleanKeepsClosed | src/SceneGraph/Object.hpp:114-149 | Cleaning the dirty path keeps the invariant "dirty object implies dirty subtree". |
| Batch.Transformations | src/SceneGraph/Object.hpp:179-270 | With 0xFFFF objects or more, the call fails as too large without touching the heap. Called on a non-scene, it fails as not-a-scene. A not-one-tree failure means some object lies outside the scene's tree, and a success implies every object is in the scene's tree. A too-large failure needs `|objects| + |heap| >= 0xFFFF`. So a scene, objects all in its tree and `|objects| + |heap| < 0xFFFF` guarantee success. On success, the heap with the reset scratch state written back is exactly the heap before the call, there is one result per request in order, and entry i is the initial transformation composed with the absolute transformation of object i. Duplicates therefore get equal entries. Only the scratch state ever changes. |
| Batch.AssignCounters | src/SceneGraph/Object.hpp:185-194 | Every requested object becomes a joint whose counter is the position of its first occurrence. |
| Batch.MarkHierarchy | src/SceneGraph/Object.hpp:203-242 | Marking either fails because an object is not in the scene's tree, or fails as too large only when `|objects| + |heap| >= 0xFFFF`, or visits every joint. On success every joint lies in the scene's tree, only requested objects and their ancestors are visited, and the joint list starts with the requested objects. |
| Batch.Climb | src/SceneGraph/Object.hpp:205-242 | Climbing from one requested object either fails because the object is not in the scene's tree, or fails as too large only when `|objects| + |heap| >= 0xFFFF`, or visits it. On success the visited set only grows, the joint list stays within the 16-bit counter range, and the joint table stays consistent: each new joint gets the next counter. Every visited object stays linked: it is the scene, or its parent is visited or a joint. Only requested objects and their ancestors are visited. |
| Batch.JointsBound | src/SceneGraph/Object.hpp:226-232 | Each promoted joint takes a distinct counter, so the joint list outgrows the requested objects by at most the number of objects in the heap. |
| Batch.LinkedInTree | src/SceneGraph/Object.hpp:205-242 | Once every joint is visited, every visited object lies in the scene's tree. |
| Batch.ComputeJoints | src/SceneGraph/Object.hpp:244-249 | After computing every joint, no joint is left visited, and each first-occurrence joint holds its target transformation. |
| Batch.ComputeJoint | src/SceneGraph/Object.hpp:272-307 | For the first occurrence of a joint, the result is the initial transformation composed with the joint's absolute transformation. This holds whether the joint was still visited or had already been computed. Only entries of visited joints change, the joint ends unvisited, and every finished joint keeps its result. |
| Batch.ComputeVisitedJoint | src/SceneGraph/Object.hpp:279-306 | For a visited joint, the result is the initial transformation composed with its absolute transformation, whether the walk ends at the root or at a parent joint. |
| Batch.WalkUp | src/SceneGraph/Object.hpp:282-305 | The upward walk unvisits the objects it passes and accumulates their local transformations. It stops at an object whose parent is a joint, or at the root. |
| Batch.WalkRootIsScene | src/SceneGraph/Object.hpp:290-293 | A walk from a joint of the scene's tree that reaches a root stops at the scene. |
| Batch.ClimbAbsolute | src/SceneGraph/Object.hpp:302-305 | Prepending the parent's local transformation to the accumulated one keeps "base below the current object, then accumulated" unchanged. |
| Batch.CopyDuplicates | src/SceneGraph/Object.hpp:251-256 | After copying from first occurrences, entry i is the target transformation of object i, for every requested position. |
| Batch.ResetCounters | src/SceneGraph/Object.hpp:258-265 | Resetting the joints clears every counter and Joint flag. |
| Batch.WithScratch | src/SceneGraph/Object.hpp:185-265 | Writing the Visited and Joint flags and the counters back into the heap changes only scratch state: every object keeps its links, transformation, Dirty flag and features. |
| Batch.WithScratchBaseline | src/SceneGraph/Object.hpp:258-265 | Writing back empty scratch state restores a baseline heap exactly. |
| Batch.ComputeMarked | src/SceneGraph/Object.hpp:244-269 | Once marking succeeded, one result per request comes out, and entry i is the initial transformation composed with the absolute transformation of object i. |
| BatchClean.SetCleanMany | src/SceneGraph/Object.hpp:318-355 | If no input is dirty, the heap is unchanged. On success, exactly the objects on a dirty path from some input up are cleaned, each with its absolute transformation, and every other object is unchanged. The call fails as not-a-scene exactly when no scene lies above the first dirty input. A not-one-tree failure means no scene holds every dirty input. A too-large failure needs `|objects| * (|heap| + 1) + |heap| >= 0xFFFF`. So one scene holding every dirty input, under that bound, guarantees success. Any failure touches only scratch state. |
| BatchClean.DirtyObjects | src/SceneGraph/Object.hpp:319-321 | The filtered list holds exactly the dirty inputs. |
| BatchClean.FirstDirtyIsHead | src/SceneGraph/Object.hpp:319-321 | The filtered list starts with the first dirty input, and that input is unique. |
| BatchClean.DirtyObjectsPaths | src/SceneGraph/Object.hpp:319-324 | Dropping clean inputs does not change which objects lie on a dirty path from some input. |
| BatchClean.CollectAncestors | src/SceneGraph/Object.hpp:326-337 | The list starts with the dirty inputs and holds at most `|inputs| * (|heap| + 1)` entries. Each further entry is on a dirty path from one of them, and every dirty path from an input is fully listed. The inputs are exactly the visited objects. |
| BatchClean.ClimbDirty | src/SceneGraph/Object.hpp:332-336 | Climbing from one input appends only dirty ancestors on its dirty path, fewer than there are objects in the heap, and leaves that path covered. |
| BatchClean.ClearVisited | src/SceneGraph/Object.hpp:339-340 | Clearing the marks of the listed objects removes exactly them from the visited set. |
| BatchClean.CollectedExactly | src/SceneGraph/Object.hpp:319-340 | An object is in the collected list exactly when it lies on a dirty path from some input. |
| BatchClean.CleanCollected | src/SceneGraph/Object.hpp:342-355 | With the scene of the first entry and the batch transformations, every listed object is cleaned with its absolute transformation and nothing else changes. It fails as not-a-scene exactly when no scene lies above the first entry. A not-one-tree failure means no scene holds every dirty input, and a too-large failure needs `|list| + |heap| >= 0xFFFF`. |
| BatchClean.CollectedUnderScene | src/SceneGraph/Object.hpp:342-345 | When one scene holds every dirty input, the scene found above the first entry is that scene, and every listed object lies in its tree. |
| BatchClean.CleanInScene | src/SceneGraph/Object.hpp:344-355 | Given the scene, the batch either cleans exactly the objects on some dirty path, or fails without a not-a-scene error. A too-large failure needs `|list| + |heap| >= 0xFFFF`, and a not-one-tree failure means no scene holds every dirty input. |
| BatchClean.CleanAll | src/SceneGraph/Object.hpp:347-354 | Fed with the absolute transformations, the cleaning loop cleans exactly the objects on some dirty path and leaves every other object unchanged. |
| BatchClean.CleanEach | src/SceneGraph/Object.hpp:347-354 | Each listed object is cleaned with its own transformation, duplicates included, and unlisted objects are unchanged. Every listed object ends clean, and each of its caching features had its transformation pushed exactly once. |
| Cleaning.CleanNode | src/SceneGraph/Object.hpp:357-391 | The object ends clean, with every feature cleaned according to what it caches. The matrix is converted once if any feature caches it, otherwise never; the same holds for the inverted matrix. |
| Cleaning.CleanedState | src/SceneGraph/Object.hpp:364-390 | A cleaned object is not dirty and keeps its links. Features caching the absolute or inverted transformation receive it, and the others are untouched. |
| Cleaning.CleanedTwiceDiffers | src/SceneGraph/Object.hpp:350-351 | Cleaning an object with a caching feature a second time changes it again. So the skip of already-clean duplicates is what keeps each feature at one push. |
| Objects.CleanFeaturesAt | src/SceneGraph/Object.hpp:364-387 | Each feature, at its own position, is cleaned with the object's transformation. |

## Left out

- Matrix conversion and inversion (`toMatrix`, `fromMatrix`, `inverted`): floating-point linear algebra on types that are not part of this model. A feature is cleaned with the abstract transformation; whether the matrix or its inverse is pushed is recorded in separate fields.
- `transformationMatrices()` (src/SceneGraph/Object.hpp:151-163) and the `static_cast` wrappers (`scene()` and the cast overload of `setClean` at lines 309-316): they only convert types and matrices around the modelled operations.
- The `const` overload of `sceneObject()` (lines 61-65): it is identical to the modelled one.
- Corrade's intrusive `LinkedList` `cut` and `insert`: children are a sequence; `cut` removes the entry and `insert` appends it.
- The default-constructed transformation: `Object.h` is not part of this model. The identity of the free monoid stands for it, as the root case of `setClean()` (line 120) requires.
- The internal assertion at line 262: it assigns to `counter` because it uses `=`, so it checks nothing. Only the reset at line 264 is modelled.
- The internal assertion at line 285, that every object an upward walk passes is still visited: not proved. It would need an invariant the model does not carry: a non-joint object has at most one visited child.
- Batch.Transformations: fails with `TooLarge` when the joint list would exceed the 16-bit counter (line 229). The contract proves this needs `|objects| + |heap| >= 0xFFFF` and cannot happen below that bound. It does not pin down the exact threshold, which depends on how many branching points the requested paths share.
- BatchClean.SetCleanMany: the success bound `|objects| * (|heap| + 1) + |heap| < 0xFFFF` is sufficient, not exact, for the same reason.
- BatchClean.SetCleanMany: a failure inside `transformations()` is returned as a `Failure`. The source goes on with the empty vector that `transformations()` returns, and then reads `transformations[i]` out of bounds at line 351, which is undefined behaviour. The model does not describe that behaviour.
- Scratch state during a batch is kept beside the heap, as a visited set and a counter map. The flags in the nodes are the baseline. `WithScratch` writes the scratch state back into the heap. A failure returns that heap with the marks left behind. A success writes back the reset state, which gives the input heap again.
- Mutation through pointers: every operation returns the new heap instead.
- Concurrency: the source is single-threaded.
