# RRT planner, modelled in Dafny

A model of a rapidly-exploring random tree (RRT) planner and the obstacle
tests it consults. The planner grows a tree of states from a start state. On
each round it samples a point and finds the tree node nearest to it. It steps
from that node towards the sample by `step_size` and, unless the new point
lies in an obstacle, hangs it below the node. Once a new node is within
`step_size` of the goal, the goal node is attached below it. The path from
the start to the goal is then traced through the parent links.

Three modules, one per file:

- `collision.dfy` (`Collision`): the box and sphere obstacles as a
  datatype, and `in_collision` for both. Square roots are replaced by
  comparisons of squares. `IsRoot(d, sq)` ties a length `d` to the squared
  length it is the root of.
- `tree.dfy` (`NodeTree`): the tree of `RRT.Node`s as an arena class `Tree`.
  - Node `i` has a state `states[i]`, a parent index `parents[i]` (`-1` for
    the root) and an ordered child list `children[i]`.
  - `add_child` appends in place.
  - `__iter__` is the breadth-first queue loop, specified by `BreadthFirst`:
    - every node of the subtree appears exactly once;
    - the order is the child lists of the listed nodes, concatenated in order;
    - parents come before children;
    - siblings come in insertion order.
- `rrt.dfy` (`Rrt`): the planner class `RRT`.
  - It holds the tree and the goal node. The goal node is kept outside the
    tree, as in the source, which never adds it to a child list.
  - It also holds the loops of nearest-neighbour search, extension, path
    tracing and `build`.
  - The random samples and numpy's square root are parameters of `Build`.
  - `Build` also returns, as ghost results, the tree before and after each
    round and the neighbour each round picked. `Rounds` ties each round to a
    reference definition: the nearest node (`NearestAt`) and the tree that
    `_extend_sample` leaves (`Extend`).

## Model

| member | source | states |
|---|---|---|
| `Collision.InCollision` | src/collision.py:38-65 | Box: collision iff every axis is within its half-length of the centre. Sphere: collision iff the Euclidean distance is at most the radius. The boundary counts as collision. |
| `Collision.BoxScan` | src/collision.py:41-45 | The early-exit axis loop is true iff no axis from `i` on exceeds its half-length. |
| `Collision.SqDist` | src/collision.py:60-62 | The accumulated sum of squared differences is never negative. |
| `Collision.SqDistZero` | src/rrt.py:127-129 | The squared distance is zero iff the two points agree on every coordinate. |
| `Collision.WithinBound` | src/collision.py:64-65 | `sqrt(sq) <= bound` holds iff the bound is non-negative and `sq <= bound²`, for every true root of `sq`. |
| `Collision.BoxSurfaceCollides` | src/collision.py:16-17 | A point on the box surface along every axis is in collision. |
| `Collision.BoxAxisOutside` | src/collision.py:43 | One axis beyond its half-length means no collision, whatever the other axes. |
| `Collision.BoxCentreCollides` | src/collision.py:41-45 | With non-negative half-lengths the centre of a box is in collision. |
| `Collision.SphereBySquares` | src/collision.py:59-65 | For a radius of at least zero: sphere collision iff squared distance <= radius². |
| `Collision.SphereSurface` | src/collision.py:64-65 | Distance equal to the radius is in collision. A larger distance is not. |
| `Collision.NegativeRadiusNeverCollides` | src/collision.py:64-65 | A sphere of negative radius never collides. |
| `NodeTree.Tree.constructor` | src/rrt.py:12-19 | A new node without parent is the root of a one-node tree with no children. |
| `NodeTree.Tree.AddChild` | src/rrt.py:34-43 | The new node's index is returned. Its parent is `p` and it is appended last to `p`'s children. All other nodes are unchanged and the tree stays well formed. |
| `NodeTree.AddChildKeepsWellFormed` | src/rrt.py:41-42 | Appending a child keeps parent links and child lists in agreement, and child lists in insertion order. |
| `NodeTree.DescendsOnlyFromOlder` | src/rrt.py:41 | A node's ancestors are never younger than it, because a child is created after its parent. |
| `NodeTree.NoCycle` | src/rrt.py:41 | No node is its own proper ancestor. |
| `NodeTree.RootReachesAll` | src/rrt.py:63 | Every node of the tree lies below the start node. |
| `NodeTree.Tree.BreadthFirstOrder` | src/rrt.py:21-29 | The queue loop yields the breadth-first order of the subtree of `r`. |
| `NodeTree.BfsDone` | src/rrt.py:26-29 | When the queue is empty, the nodes yielded are exactly the subtree of `r`. |
| `NodeTree.PathToShape` | src/rrt.py:186-196 | The path to `x` starts at the root state and ends at `x`'s state. Its length is the depth of `x` plus one. |
| `Rrt.CollidesWithAny` | src/rrt.py:204-207 | The `collide or ...` fold over the first `n` obstacles is true iff one of them reports collision. |
| `Rrt.CheckForCollision` | src/rrt.py:198-207 | True iff some obstacle reports collision. |
| `Rrt.NoObstacleNoCollision` | src/rrt.py:204-207 | Without obstacles nothing collides. |
| `Rrt.CheckForCompletion` | src/rrt.py:168-175 | True iff the Euclidean distance to the goal is at most the step size; a true result implies a non-negative step. |
| `Rrt.CompletionBySquares` | src/rrt.py:168-175 | For a step of at least zero: completion iff squared distance <= step². |
| `Rrt.CompletionAtGoal` | src/rrt.py:168-175 | A node at the goal state completes for every non-negative step. |
| `Rrt.SteerIsScaled` | src/rrt.py:152-155 | The candidate differs from the neighbour by the direction to the sample times `step_size / d`: it lies on the line towards the sample. |
| `Rrt.SteerDistance` | src/rrt.py:137-138 | The candidate lies exactly `abs(step)` from the neighbour when `d` is the length of the direction. |
| `Rrt.SqDistScaled` | src/rrt.py:153 | Multiplying every coordinate difference by `r` multiplies the squared distance by `r²`. |
| `Rrt.Reversed` | src/rrt.py:194 | `path_list[::-1]`: same length, element `i` is element `n-1-i` of the input. |
| `Rrt.SquaredDistance` | src/rrt.py:127-129 | The loop sums the squared coordinate differences; the sum is zero iff the states coincide. |
| `Rrt.Difference` | src/rrt.py:146-150 | The vector holds `sample[i] - from[i]`, and the accumulated value is its squared length. |
| `Rrt.Nearest` | src/rrt.py:126-132 | The scan returns a node of minimal squared distance, and no earlier node in the scan is as close (strict `<`). |
| `Rrt.RRT.NearestNeighbor` | src/rrt.py:115-134 | The result is a tree node, never the detached goal. Its squared distance is at most that of every tree node. Every node before it in breadth-first order is strictly farther. |
| `Rrt.RRT.Candidate` | src/rrt.py:146-155 | The array computation produces the steered point; a zero-length direction gives none. |
| `Rrt.RRT.ExtendSample` | src/rrt.py:135-159 | The new tree is `Extend` of the old one. A candidate that collides, or a zero-length direction, leaves the tree unchanged and returns none. Otherwise exactly one node holding the candidate is appended as the neighbour's last child, and its index is returned. |
| `Rrt.ParentOf` | src/rrt.py:192 | The parent of a node is a tree node with a smaller index, or there is none. |
| `Rrt.Trace` | src/rrt.py:187-194 | Walking the parent links and reversing gives the path from the start to the node. |
| `Rrt.PathFromShape` | src/rrt.py:183-184 | The path ends at the node's state. It starts at the start state unless it is the goal's path before a goal parent exists. |
| `Rrt.PathAvoidsObstacles` | src/rrt.py:157-158 | If every node but the root is clear of the obstacles, so is every state of a traced path after its first. |
| `Rrt.RRT.TracePathFromStart` | src/rrt.py:177-196 | The result is the path to the given node (the goal by default). It ends at that node's state. It starts at the start state unless the node is a goal that has no parent yet. |
| `Rrt.RRT.Grow` | src/rrt.py:92-93 | The round is a `Round`: the neighbour is the nearest node, first in breadth-first order among ties, and the new tree is `Extend` from it towards the sample. A node is added exactly when the direction is not of zero length and the candidate is clear; it is the last node and clear of every obstacle. |
| `Rrt.RRT.Advance` | src/rrt.py:91-93 | One round appended to the history. Nodes added since the loop began stay clear of the obstacles. All of them except the new one stay more than a step from the goal. |
| `Rrt.RoundGrows` | src/rrt.py:41-43 | A round keeps every node and its parent link, and adds at most one node. |
| `Rrt.NodeRound` | src/rrt.py:90-93 | Each node added by `build` comes from one round `k`, when the tree held exactly the nodes before it. Its parent is that round's pick, and no earlier node is closer to `samples[k]`. Its state is the steered candidate from the parent towards `samples[k]`; that candidate has a non-zero direction and is clear. |
| `Rrt.NewNodesStepApart` | src/rrt.py:146-155 | When `sqrt` returns true roots, every node added by `build` lies exactly `abs(step_size)` from its parent. |
| `Rrt.PathStepsApart` | src/rrt.py:186-194 | When every node after the root is a step from its parent, consecutive states of a traced path are a step apart. |
| `Rrt.BuiltPathSteps` | src/rrt.py:90-97 | For a planner started from its start node alone, with true roots: in the returned path, consecutive states up to the last tree node are `abs(step_size)` apart, and the last tree node is within a step of the goal. |
| `Rrt.RRT.Explore` | src/rrt.py:90-97 | The loop yields `Explored`. Every round ran on its own sample and extended the tree from the nearest node (`Rounds`). There are at most `max_iter` rounds, all of them on failure. New nodes are clear of the obstacles. The returned node was added in the last round and completes; no earlier new node does. |
| `Rrt.RRT.AttachGoal` | src/rrt.py:95-96 | The goal's parent becomes the new node. The path runs from the start state through that node to exactly the goal state. |
| `Rrt.RRT.Build` | src/rrt.py:90-100 | The final tree is the one the rounds produce from the samples (`Explored`, hence `Rounds`). On failure all `max_iter` rounds ran, the goal stays detached, and no new node completes. On success the last new node is the only one that completes. The goal hangs below it, and the path runs from the start state through it to exactly the goal state. |
| `Rrt.RRT.constructor` | src/rrt.py:63-68 | A planner with a one-node tree at the start state and a detached goal node. |
| `Rrt.Create` | src/rrt.py:46-71 | Construction fails iff the start and goal dimensions differ. Otherwise the planner holds a one-node tree at the start state, a detached goal, and the given obstacles, ranges, step size and `max_iter`. |

## Left out

- `_get_random_sample` (src/rrt.py:102-114): the random draw is not modelled.
  - `Build` takes the samples as a sequence, one per round.
  - `Sampled` requires each coordinate to lie within its range, written either way round.
  - The 1000-point grid of `np.linspace` is not modelled.
- `Candidate`: numpy's `sqrt` is a parameter `sqrt: real -> real` about which nothing is assumed.
  - The contract is stated in terms of `sqrt` of the squared length.
  - `SteerDistance` gives the step length when the value is a true root.
- `Candidate`: for a zero-length direction (the sample equals the neighbour), the source divides by zero and numpy yields NaN coordinates. The model produces no candidate, so no node is added in that round.
  - In the source, the NaN point goes on to `_check_for_collision` (src/rrt.py:157).
  - A box then reports collision, because `dis > 0` is false for NaN on every axis (src/collision.py:42-45). The round adds nothing, as in the model.
  - A sphere does not report collision, because `dis <= radius` is false for NaN (src/collision.py:64-65).
  - With no box among the obstacles, the source therefore appends a node with NaN coordinates, where the model adds nothing.
- `ExtendSample`: the same zero-length case returns none and leaves the tree unchanged.
- `Build`: the random samples and `sqrt` are parameters (see above). It requires at least `max_iter` samples.
- `RRT.constructor`: the source compares only the start and goal shapes (src/rrt.py:70-71). The dimension ranges are not checked at construction, so the model does not check them either. `Build` requires one range per coordinate, because sampling reads one range per coordinate.
- `InCollision`: the source raises `IndexError` at src/collision.py:42 when the target has fewer coordinates than a box's location, or the box has fewer half-lengths than location coordinates. It raises it at src/collision.py:62 when the target has fewer coordinates than a sphere's location. The model requires `Fits` instead, and the planner requires every obstacle to fit its dimension.
- `__iter__` is a lazy generator. `BreadthFirstOrder` returns the whole order at once; the scan in `NearestNeighbor` consumes all of it in the same order.
- `print` diagnostics (src/rrt.py:99-100 and src/rrt.py:195) and `__repr__` (src/rrt.py:31-32) are I/O only.
- The numpy `append`/`reshape` of the path (src/rrt.py:190-191) is modelled as a sequence of states.
- The `ABCMeta` base class (src/collision.py:6-21) is replaced by a two-variant datatype.
- Floating point is modelled as exact reals: rounding, NaN and infinities are not modelled.
  - `d_min = inf` is modelled by taking the first node scanned.
- Node identity is modelled by arena indices, so aliasing of `Node` objects is not modelled.
  - `build` replaces `self.goal` with a new node whose parent is the new tree node. The model keeps the goal state and records the goal's parent.
