# TreeResolver, modelled in Dafny

TreeResolver is a small dependency linker with two resolvers. Each takes a
flat list of named declarations and links them into node objects.

- `DepResolver` (src/DepResolver.ts) handles nodes with several required
  parents and several optional parents.
- `TreeResolver` (src/TreeResolver.ts) handles nodes with at most one parent.
  It also records each node's `parentNode` and `rootNode`.

Both `build` methods work the same way:

1. Pass 1 puts every node into a bucket, keyed by each parent name it waits
   for. Nodes with no parent become roots and seed a FIFO `keyQueue`.
2. Pass 2 is a pump. It takes a name off `keyQueue` and links every node
   waiting in that name's bucket. It queues those nodes and deletes the
   bucket.
3. `DepResolver` only: pass 3 links the optional parents that are nodes.

Whatever is left in the buckets becomes `unlinkedNodes`.

## How the model is built

**Arena.** `nodeList` is an arena: a map from names to node values. Each of
a node's maps (`parents`, `children`, `allAncestors`, `allDescendants`)
stores, under a name `k`, the node `nodeList[k]`. So each map is modelled as
its set of keys, and `parentNode` and `rootNode` become optional names.

**State and loops.** The two classes keep their ingest list as a field that
`AddInstance` and `Clear` update.

- Pass 1, the pump, the per-node linking, the ancestor walk, pass 3 and the
  flattening are methods with loops. The pump, the ancestor walk and the
  propagation of ancestors in `DepResolver` are `while` loops; the rest are
  `for` loops.
- Each of these methods is proved against a function or predicate of its
  inputs.
- Buckets are a `map<string, seq<string>>`. Bucket keys are also kept in
  creation order (`order`), which is how `Object.values` lists them.
- Pass 1 is also stated on the declarations alone. `KeyOrder` gives the keys
  in order of first use, and `Waiters` gives each bucket's contents: a node
  once for every time it lists the key. So `unlinkedNodes` is known exactly,
  order and repeats included.

**Activation.** The theory of which names the pump reaches is in module
`Activation`.

- A name is *activated* when it is in every set of names that is closed
  under the rule "a node any one of whose required parents is in the set is
  in the set". This is the least fixpoint. A node is drained from the first
  activated bucket it waits in (src/DepResolver.ts:134-140, 152-171).
- The pump queues exactly the activated names. This is proved through a
  `Grounded` witness: each queued name has a lower-ranked parent that was
  queued before it.
- So the buckets left are exactly those of names never activated.

**Termination.** The pump terminates by the lexicographic measure
(bucket keys left, `|keyQueue|`). Every turn deletes a bucket or shortens the
queue. The walk up the `parentNode` chain terminates because every linked
node lies one level below its parent; the level is a ghost `depth` map.

**Build results.** Each `Build` is proved against a predicate on the
declarations alone, called `Resolved`.

- `DepResolver.Build` fails, returning a `Result`, exactly when some
  activated node requires a name that is not a node. Line 159 then throws.
- `TreeResolver.Build` never fails on the names the model covers (see Left
  out for names inherited from `Object.prototype`).
- Both results fix `unlinkedNodes` exactly: the buckets of the names never
  activated, concatenated in creation order.
  - In `DepResolver` a node appears once for every required parent it lists
    that is never activated.
  - In `TreeResolver` each stray node appears exactly once.

### Behaviour of the code worth knowing

- **`DepResolver.build` can throw.** Its signature promises a
  `Promise<DepResolverResult>` (src/DepResolver.ts:110), and its one test
  builds an input that resolves. Line
  159 of src/DepResolver.ts dereferences `undefined` when an activated node
  requires a name that is not declared. For example, take a
  root `a` and a node `x` requiring `a` and the undeclared `z`.
  `DepBuild.RootBesideMissingFails` proves that this input is
  `Unresolvable`. `DepBuild.DepResolver.Build` returns `Failure` exactly in
  such cases. A node is reported unlinked only when one of its required
  parents is never activated.
- **`allAncestors` in `DepResolver` is not transitive.** A node copies its
  parent's ancestors at the moment it is linked. A parent linked later does
  not pass on ancestors it gains afterwards. Example: roots `a` and `c`, `x`
  requiring `a` and `b`, `b` requiring `c`, `y` requiring `x`. Here `y` ends
  up without `c`.
- **Self-ancestors and unlinked ancestors in `DepResolver`.** Required
  parents alone can cause both.
  - Root `r`, `n` requiring `r` and `p`, `p` requiring `n`: both `n` and `p`
    end up listing themselves as ancestors.
  - Root `a`, `x` requiring `a` and `m`, `m` and `n` requiring each other:
    `x` is linked under the unlinked `m`, and `x` is itself reported
    unlinked.
  - Pass 3 also links optional parents for every node, roots and unlinked
    nodes included. So a root can gain ancestors, and an optional cycle can
    make a node its own ancestor. Example: root `r`, `n` requiring `r` with
    optional parent `p`, `p` requiring `n`.
  - The model claims no irreflexivity for `DepResolver`.
- **Builds reuse their nodes.** The code links the very node objects it was
  given. This is the
  `TreeResolver` node list, or the `ingestNodes` list for `DepResolver`. A
  second `build` without `clear` therefore starts from nodes already linked.
  The model builds from the declarations each time (see Left out).

## Model

| member | source | states |
|---|---|---|
| DepBuild.DepResolver.constructor | src/DepResolver.ts:17 | a new resolver has an empty ingest list |
| DepBuild.DepResolver.AddInstance | src/DepResolver.ts:40-66 | appends one declaration; a single parent name becomes a one-element list and an omitted argument the empty list |
| DepBuild.DepResolver.Clear | src/DepResolver.ts:86-88 | the ingest list becomes empty |
| DepBuild.DepResolver.Build | src/DepResolver.ts:110-211 | fails iff some activated node requires an undeclared name, and then names such a node and parent; otherwise the result is `Resolved` (roots, nodeList, parents, empty ancestor sets, unlinked exactly the nodes with a never-activated required parent, and the unlinked list itself is the buckets of the never-activated names in creation order, repeats included) and its links are closed, symmetric and justified |
| DepBuild.NamesIndexed | src/DepResolver.ts:181 | `Object.keys(nodeList)` in declaration order lists exactly the nodes |
| DepBuild.BuildSettled | src/DepResolver.ts:110-211 | the outcome of the three passes and the flattening satisfies `Resolved` |
| DepBuild.SettledNodes | src/DepResolver.ts:150-201 | after pass 3, a node's parents are its required parents if activated (none otherwise) plus its optional parents that are nodes; a node with neither keeps no ancestor |
| DepBuild.UnlinkedCount | src/DepResolver.ts:204-208 | a node occurs in `unlinkedNodes` once for every required parent it lists that is never activated, and nothing else occurs in it |
| DepBuild.LeftoverIs | src/DepResolver.ts:174-176 | the buckets pass 2 leaves are exactly those pass 1 made for the never-activated names, unchanged |
| DepBuild.WaitersCounted | src/DepResolver.ts:134-140 | pass 1 puts a node into the bucket of `k` once for every time it lists `k` as a required parent, and puts nothing else there |
| DepBuild.KeysCover | src/DepResolver.ts:134-137 | pass 1 creates a bucket for every required parent of every node |
| DepBuild.UnlinkedExactly | src/DepResolver.ts:204-208 | the names in the buckets left are exactly the nodes with a required parent that is never activated |
| DepBuild.MissingParentUnlinked | src/DepResolver.ts:150-179 | a node requiring a name that is not a node ends up unlinked |
| DepBuild.CycleUnlinked | src/DepResolver.ts:150-179 | nodes requiring only each other or undeclared names are all unlinked and keep only their optional parents |
| DepBuild.RequiredUnchanged | src/DepResolver.ts:126-141 | pass 1 depends only on required parents: ingest lists that differ in optional parents give the same requirement map |
| DepBuild.OptionalsNeverUnlink | src/DepResolver.ts:181-208 | optional parents change neither the roots, nor whether `build` fails, nor which nodes are unlinked |
| DepBuild.RootBesideMissingFails | src/DepResolver.ts:156-159 | a root `a` plus a node requiring `a` and an undeclared `z` is `Unresolvable`, so `build` throws |
| DepBuild.SampleGraphResolved | tests/DepResolver.spec.ts:78-103 | for the tests' fourteen declarations `build` does not throw, the roots are `a`, `b`, `c`, `f`, `i`, `j`, the unlinked nodes are `l`, `m`, `n` and there are three of them, and `d` and `e` have the parents they declare |
| DepBuild.SampleGraphOnce | tests/DepResolver.spec.ts:84 | the tests' graph leaves three unlinked entries |
| DepBuild.SampleWaits | tests/DepResolver.spec.ts:83-89 | in the tests' graph exactly `l`, `m` and `n` have a required parent that is never activated |
| DepBuild.ActivatedParents | src/DepResolver.ts:156-162 | an activated node with no optional parent has exactly its required parents as parents |
| DepResolving.Index | src/DepResolver.ts:143 | `nodeList` has one fresh node per declared name, stored under that name |
| DepResolving.Classify | src/DepResolver.ts:123-145 | pass 1 builds `nodeList` from the declarations, puts every node in the bucket of each required parent, and queues exactly the roots; the buckets are created in `KeyOrder` and each holds its `Waiters` |
| DepResolving.ClassifyNode | src/DepResolver.ts:126-143 | one node's step of pass 1 keeps the buckets sound and complete for the nodes seen so far, creates the missing buckets of its keys in first-use order and files it once per listing |
| DepResolving.KeyOrder | src/DepResolver.ts:126-140 | pass 1 creates each bucket key once |
| DepResolving.BucketsAfterStep | src/DepResolver.ts:123-143 | one node's step carries the description of the buckets (`KeyOrder`, `Waiters`) from the declarations before it to one more |
| DepResolving.AddToBuckets | src/DepResolver.ts:134-140 | the missing buckets among the node's required parents are created in order of first use, and the node is appended to the bucket of `k` once for every time it lists `k`, nothing else changing |
| DepResolving.FiledSound | src/DepResolver.ts:134-140 | filing a node this way keeps every bucket member a node requiring the bucket's name, and every such requirement filed |
| DepResolving.DrainBucket | src/DepResolver.ts:152-173 | links every node of a bucket and queues it, or fails on an activated node with an undeclared required parent |
| DepResolving.ProcessKey | src/DepResolver.ts:151-178 | one pump turn keeps the pump invariant and deletes a bucket or shortens the queue |
| DepResolving.Pump | src/DepResolver.ts:150-179 | pass 2 fails exactly on an undeclared required parent of an activated node; otherwise the buckets left are those of the never-activated names and the arena is linked for the activated ones |
| DepResolving.PumpStarts | src/DepResolver.ts:145-150 | the pump invariant holds before the first turn |
| DepResolving.PumpSettled | src/DepResolver.ts:151 | when the queue is empty the queued names are closed, hence exactly the activated ones |
| DepLinking.LinkRequired | src/DepResolver.ts:156-169 | links a node under each required parent in turn, failing exactly when one is not a node |
| DepLinking.LinkAndQueue | src/DepResolver.ts:153-171 | linking a drained node keeps every queued node linked under its required parents and the ranks grounded |
| DepLinking.Pass2Parents | src/DepResolver.ts:153-171 | during pass 2 a queued node's parents are its required parents and any other node has none |
| DepLinking.Pass2Ancestors | src/DepResolver.ts:153-171 | during pass 2 a node not queued, or a root, has no ancestor |
| DepGraph.LinkEdge | src/DepResolver.ts:159-168 | one link sets `children`, `parents` and both ancestor maps, and copies the parent's ancestors; nothing else changes |
| DepGraph.DirectEdgeSet | src/DepResolver.ts:159-160 | the two direct assignments give the link with no ancestor propagated yet |
| DepGraph.AncestorPropagated | src/DepResolver.ts:163-168 | one propagation turn adds one ancestor at both ends |
| DepGraph.ParentPropagated | src/DepResolver.ts:163-168 | propagating the parent itself changes nothing |
| DepGraph.LinkStepFrame | src/DepResolver.ts:159-168 | a link adds only the parent to `parents`, and the parent and its ancestors to the child's ancestors; ancestor sets only grow |
| DepGraph.LinkStepRefsClosed | src/DepResolver.ts:159-168 | a link keeps every name in the node maps a node |
| DepGraph.LinkStepSymmetric | src/DepResolver.ts:159-168 | a link keeps parent/child and ancestor/descendant recorded at both ends |
| DepGraph.LinkStepJustified | src/DepResolver.ts:159-168 | a link keeps every ancestor a parent or an ancestor of a parent |
| DepOptional.PresentOptionals | src/DepResolver.ts:184-189 | the optional parents linked are exactly the declared ones that are nodes |
| DepOptional.LinkOptional | src/DepResolver.ts:184-200 | links one node under each of its optional parents that is a node, keeping the arena well linked |
| DepOptional.LinkOptionals | src/DepResolver.ts:181-201 | pass 3 links every listed node's present optional parents, adds nothing else to `parents`, and changes the ancestors only of nodes with one |
| Buckets.FlattenBuckets | src/DepResolver.ts:204-208 | `unlinkedNodes` is the concatenation of the buckets left, in bucket-creation order, and holds exactly their entries |
| Buckets.FlattenCount | src/DepResolver.ts:204-208 | the flattening holds a name as often as the listed buckets hold it together |
| Buckets.LeftoverCount | src/DepResolver.ts:204-208 | with each bucket holding a node once per listing, the flattened buckets of the never-activated names hold a node once for each never-activated required parent it lists |
| Buckets.FlattenMembers | src/TreeResolver.ts:147-149 | a name is in the flattening iff it is in some bucket left |
| Buckets.TrackedDrain | src/DepResolver.ts:152-176 | draining a bucket deletes its key, queues its entries and keeps the queue accounting |
| Buckets.TrackedSkip | src/DepResolver.ts:175-178 | skipping an empty or deleted bucket keeps the queue accounting |
| Activation.GroundedActivated | src/DepResolver.ts:150-179 | every name the pump queues is activated |
| Activation.ActivatedExactly | src/DepResolver.ts:150-179 | a grounded, closed queued set is exactly the activated names |
| Activation.ActivatedDeclared | src/DepResolver.ts:150-179 | only nodes are activated |
| Activation.ActivatedStep | src/DepResolver.ts:150-179 | a node whose required parents include an activated name is activated |
| Activation.SelfContainedNeverActivated | src/DepResolver.ts:150-179 | a group of nodes requiring only each other or undeclared names is never activated |
| Activation.GroundedStep | src/DepResolver.ts:171 | queuing a node from an activated bucket keeps the queue grounded |
| TreeBuild.TreeResolver.constructor | src/TreeResolver.ts:31 | a new resolver has an empty node list |
| TreeBuild.TreeResolver.AddInstance | src/TreeResolver.ts:40-56 | appends one declaration, with a `null` parent as `None` |
| TreeBuild.TreeResolver.Clear | src/TreeResolver.ts:62-64 | the node list becomes empty |
| TreeBuild.TreeResolver.Build | src/TreeResolver.ts:70-152 | the result is `Resolved`: roots are the nodes with a falsy parent, nodeList holds every node, the links form a `Hierarchy` over exactly the activated non-roots, the unlinked nodes are exactly the non-roots never activated, and the unlinked list is the buckets of the never-activated names in creation order |
| TreeBuild.ActivatedUnfolds | src/TreeResolver.ts:105-144 | a node is activated iff it is a root or its parent is an activated node |
| TreeBuild.UnlinkedOnce | src/TreeResolver.ts:147-149 | a non-root never activated occurs in `unlinkedNodes` exactly once, and nothing else occurs in it |
| TreeBuild.UnlinkedDistinct | src/TreeResolver.ts:147-149 | no node occurs twice in `unlinkedNodes` |
| TreeBuild.LeftoverIs | src/TreeResolver.ts:140-141 | the buckets pass 2 leaves are exactly those pass 1 made for the never-activated names, unchanged |
| TreeBuild.WaitersCounted | src/TreeResolver.ts:93-96 | pass 1 puts a node into the bucket of its parent once, and nothing else there |
| TreeBuild.KeysCover | src/TreeResolver.ts:93-95 | pass 1 creates a bucket for the parent of every non-root |
| TreeBuild.UnlinkedExactly | src/TreeResolver.ts:141-149 | the names left in buckets are exactly the non-roots never activated |
| TreeBuild.UnlinkedUntouched | src/TreeResolver.ts:105-144 | an unlinked node is left as created: no `parentNode`, no `rootNode`, empty maps |
| TreeBuild.LinkedBelowParent | src/TreeResolver.ts:113-124 | a linked node's `parentNode` is its declared parent, its ancestors are that parent and the parent's ancestors, and its `rootNode` is the parent's or the parent |
| TreeBuild.RootsUntouchedAbove | src/TreeResolver.ts:86-91 | a root has no `parentNode`, no `rootNode` and no ancestor |
| TreeBuild.UnlinkedNeverAncestor | src/TreeResolver.ts:105-144 | an unlinked node is nobody's child or ancestor |
| TreeBuild.MissingParentUnlinked | src/TreeResolver.ts:105-149 | a node whose parent is not a node is unlinked |
| TreeBuild.CycleUnlinked | src/TreeResolver.ts:105-149 | non-roots whose parents are in the group or undeclared (such as a 2-cycle) are all unlinked |
| TreeBuild.SampleForestResolved | tests/TreeResolver.spec.ts:43-113 | for the tests' nine declarations, the roots are `a` and `e`, the unlinked nodes are `g`, `h`, `i` and there are three of them, and `d` hangs below `b` with ancestors `a`, `b` and root `a` |
| TreeBuild.SampleUnlinkedOnce | tests/TreeResolver.spec.ts:71 | the tests' declarations leave three unlinked nodes |
| TreeBuild.SampleIndexed | tests/TreeResolver.spec.ts:43-58 | the tests' declarations give `nodeList` with those nine fresh nodes |
| TreeResolving.Index | src/TreeResolver.ts:98 | `nodeList` has one fresh node per declared name, stored under that name |
| TreeResolving.RequiredOf | src/TreeResolver.ts:86-97 | a node waits for no name iff its parent is falsy, else for its parent |
| TreeResolving.Classify | src/TreeResolver.ts:83-100 | pass 1 builds `nodeList`, puts every non-root in its parent's bucket and queues exactly the roots; the buckets are created in `KeyOrder` and each holds its `Waiters` |
| TreeResolving.ClassifyNode | src/TreeResolver.ts:86-98 | one node's step of pass 1 keeps the buckets sound and complete, creates its key's bucket if missing and files a non-root once in its parent's bucket |
| TreeResolving.KeyOrder | src/TreeResolver.ts:86-96 | pass 1 creates each bucket key once |
| TreeResolving.BucketsAfterStep | src/TreeResolver.ts:83-98 | one node's step carries the description of the buckets (`KeyOrder`, `Waiters`) from the declarations before it to one more |
| TreeResolving.LinkAndQueue | src/TreeResolver.ts:108-136 | linking a drained node keeps the arena a `Forest` over the queued names, one level below its parent |
| TreeResolving.DrainBucket | src/TreeResolver.ts:107-138 | links every node in a bucket and appends them to the queue, keeping the forest invariant |
| TreeResolving.ProcessKey | src/TreeResolver.ts:106-143 | one pump turn keeps the invariant and deletes a bucket or shortens the queue |
| TreeResolving.Pump | src/TreeResolver.ts:105-144 | pass 2 leaves the buckets of exactly the never-activated names, and the arena is a `Forest` over exactly the activated names |
| TreeResolving.PumpStarts | src/TreeResolver.ts:100-105 | the pump invariant holds before the first turn |
| TreeResolving.PumpSettled | src/TreeResolver.ts:106 | when the queue is empty the queued names are exactly the activated ones |
| TreeResolving.QueuedStep | src/TreeResolver.ts:108-136 | linking a node whose parent is queued keeps the forest and the grounding |
| TreeGraph.LinkTreeNode | src/TreeResolver.ts:108-136 | the link and the walk up the `parentNode` chain give exactly `TreeLinked`: child recorded at the parent, `parentNode` and `rootNode` set, and the node added to every ancestor's descendants and they to its ancestors |
| TreeGraph.TreeLinkedForest | src/TreeResolver.ts:108-136 | linking a node below its queued parent keeps the arena a `Forest` |
| TreeGraph.ForestHierarchy | src/TreeResolver.ts:105-144 | a forest satisfies `Hierarchy`: links recorded at both ends, every linked node rooted in a root, ancestors transitive and irreflexive |
| TreeGraph.AncestorsTransitive | src/TreeResolver.ts:127-134 | an ancestor of an ancestor is an ancestor |
| TreeGraph.NoSelfAncestor | src/TreeResolver.ts:127-134 | no node is its own ancestor or descendant |
| TreeGraph.AncestorAbove | src/TreeResolver.ts:127-134 | every ancestor was queued and lies strictly above the node |
| TreeGraph.RootNodeIsRoot | src/TreeResolver.ts:120-124 | a linked node's `rootNode` is one of its ancestors and a root with no `parentNode` |
| TreeGraph.OnlyQueuedAbove | src/TreeResolver.ts:113-132 | only queued nodes gain children or descendants |
| TreeGraph.LinkKeepsDecls | src/TreeResolver.ts:108-136 | linking changes no declaration and no key |
| TreeGraph.TreeLinkStarted | src/TreeResolver.ts:113-124 | the direct assignments give the link with only the parent walked |
| TreeGraph.TreeWalkStep | src/TreeResolver.ts:131-133 | one walk turn adds one ancestor at both ends |
| TreeGraph.WalkUp | src/TreeResolver.ts:128-131 | the walk's next node is an ancestor still above the current one |

## Left out

- The `instance` payload of `addInstance`, and the truthy test that decides
  whether it is stored. Nothing in linking depends on it.
- `async`, `await` and `Promise.all`. The callbacks contain no `await` and
  run in order, so the model runs them as plain loops.
- Key order in `Object.keys` and `Object.values`. JavaScript lists
  integer-like keys first. The model lists names in declaration order and
  buckets in creation order, which agree when no name looks like an integer.
- DepBuild.DepResolver.Build and TreeBuild.TreeResolver.Build require unique,
  non-empty names (`WellNamed`).
  - With duplicate names, later declarations overwrite earlier ones in
    `nodeList`.
  - `while (processKey)` stops the pump early at an empty name.
  - Neither behaviour is modelled.
- Aliasing between builds is not modelled. The code links the objects held in
  its ingest list, so a second `build` without `clear` sees nodes already
  linked. The model builds fresh nodes from the declarations on every run.
- The guard `node.parent === null` at src/TreeResolver.ts:111 is not
  modelled, because no node in a bucket has a null parent.
- DepBuild.DepResolver.Build and TreeBuild.TreeResolver.Build do not model
  names inherited from `Object.prototype` (such as `toString` or
  `constructor`). `resolveQueue` and `nodeList` are plain objects, so those
  keys are truthy before any bucket exists, and the code throws where the
  model succeeds:
  - a parent named `toString` skips bucket creation, and the `.push` fails
    (src/DepResolver.ts:135-139, src/TreeResolver.ts:93-96);
  - a root named `constructor` passes the `.length > 0` test, and the
    `.forEach` fails (src/DepResolver.ts:152-153, src/TreeResolver.ts:106-107);
  - an undeclared optional parent named `toString` passes the guard at
    src/DepResolver.ts:185, and line 191 fails.
  The model treats every name as an ordinary key.
- TreeResolver buckets hold node objects; the model's buckets hold names. The
  two are the same under unique names.
- DepBuild.DepResolver.Build and DepBuild.BuildSettled do not pin the final
  `allAncestors` and `allDescendants` of activated nodes. Those sets depend
  on the order in which the queue drains buckets, because a node is linked
  again from every activated bucket it waits in, each time copying its
  parent's ancestors as they are then (src/DepResolver.ts:152-171). In the
  tests' graph `e` is linked from `a` while `d` has no ancestor yet, and
  again from `b` once `d` has `b` and `c`.
  - `Resolved` states these sets only within bounds: each node's parents are
    among its ancestors, every ancestor is a parent or an ancestor of a
    parent, and both maps are recorded at both ends (`WellLinked`).
  - The exact effect of one link is what is proved: `DepGraph.LinkEdge`
    equals `LinkedWith`, and `DepGraph.LinkStepFrame` says what it adds.
  - So the extended relationships the tests check
    (tests/DepResolver.spec.ts:159-237) are not derived.
  - For the same reason `allAncestors` is not claimed to be transitive or
    irreflexive (see above).
- "Each node is linked at most once" holds for TreeResolver only and is not
  stated separately there: it follows from each node waiting in one bucket,
  deleted once drained. A DepResolver node is linked once for every
  activated bucket it waits in.
- The compiled dist/ files, src/index.ts and src/interfaces/ are not part of
  this model. They only declare types or duplicate src/.
